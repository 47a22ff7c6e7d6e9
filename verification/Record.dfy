/**
 How a config is laid out in flash: a header with its number, the fields one
 after another, and a checksum over both.

 `Encode` and `Decode` are the loops over a buffer; `RecordBytes` and `Parse` say
 what they compute. The theorems about them are the round trip, the decoding
 of records cut at any field boundary, and the rejection of burst errors.
 */
module Record {
  import opened Bytes
  import opened Wrappers
  import opened FixedStrs
  import opened Pets
  import opened Veils
  import Crc32

  datatype Config = Config(
    wifiSsid: FixedStr,
    wifiPassword: FixedStr,
    frameServer: FixedStr,
    frameName: FixedStr,
    frameLastModified: FixedStr,
    frameSlot: byte,
    pollSecs: u16,
    powerMode: byte,
    sound: byte,
    alarmMin: u16,
    alarmOn: byte,
    alarmTone: byte,
    pet: Pet,
    goalNames: seq<FixedStr>,
    goalsStamp: u32,
    snakeBest: u16,
    deviceKey: FixedStr,
    prevServer: FixedStr,
    prevName: FixedStr,
    serverTrialUntil: u32)
  {
    /** What every `Config` the firmware can build satisfies: see `WfIs`. */
    predicate Wf() {
      |goalNames| == 5 && Veil(FieldsWf, this, |frameServer.buf| + 3)
    }

    predicate FieldsAreWf() {
      && wifiSsid.Wf(SSID_MAX)
      && wifiPassword.Wf(PASSWORD_MAX)
      && frameServer.Wf(SERVER_MAX)
      && frameName.Wf(NAME_MAX)
      && frameLastModified.Wf(STAMP_MAX)
      && pet.Wf()
      && |goalNames| == 5
      && (forall i :: 0 <= i < 5 ==> goalNames[i].Wf(GOAL_NAME_MAX))
      && deviceKey.Wf(KEY_MAX)
      && prevServer.Wf(SERVER_MAX)
      && prevName.Wf(NAME_MAX)
    }
  }

  predicate FieldsWf(c: Config) {
    c.FieldsAreWf()
  }

  lemma WfIs(c: Config)
    ensures c.Wf() <==> c.FieldsAreWf()
  {
    Lift(FieldsWf, c, |c.frameServer.buf| + 3);
  }

  const SSID_MAX := 32
  const PASSWORD_MAX := 64
  const SERVER_MAX := 96
  const NAME_MAX := 24
  const STAMP_MAX := 40
  const KEY_MAX := 32

  const POLL_DEFAULT: u16 := 15
  const POWER_AUTO: byte := 0
  const SOUND_DEFAULT: byte := 8
  const ALARM_DEFAULT_MIN: u16 := 420

  /** "SPCF". */
  const MAGIC: seq<byte> := [0x53, 0x50, 0x43, 0x46]
  const VERSION: u16 := 1
  const HEADER_LEN := 12
  const CRC_LEN := 4
  const RECORD_LEN := 574

  // --- layout --------------------------------------------------------------

  function StrBytes(f: FixedStr): seq<byte> {
    [f.len % 0x100] + f.buf
  }

  function Strings(c: Config): seq<byte> {
    StrBytes(c.wifiSsid) + StrBytes(c.wifiPassword) + StrBytes(c.frameServer) + StrBytes(c.frameName)
    + StrBytes(c.frameLastModified)
  }

  function Settings(c: Config): seq<byte> {
    [c.frameSlot] + Le16(c.pollSecs) + [c.powerMode] + [c.sound] + Le16(c.alarmMin) + [c.alarmOn] + [c.alarmTone]
  }

  function PetBytes(p: Pet): seq<byte> {
    [p.energy] + Le16(p.adventures) + Le16(p.goalsTotal) + Le16(p.day) + [p.doneToday, p.checkin]
    + p.history + p.goalHist + [p.flags, p.outfit] + Le32(p.born) + Le32(p.seen)
  }

  function Names(names: seq<FixedStr>): seq<byte> {
    if names == [] then [] else Names(names[..|names| - 1]) + StrBytes(names[|names| - 1])
  }

  function Tail(c: Config): seq<byte> {
    Le32(c.goalsStamp) + Le16(c.snakeBest) + StrBytes(c.deviceKey) + StrBytes(c.prevServer) + StrBytes(c.prevName)
    + Le32(c.serverTrialUntil)
  }

  function Group(c: Config, n: nat): seq<byte> {
    if n == 1 then Strings(c)
    else if n == 2 then Settings(c)
    else if n == 3 then PetBytes(c.pet)
    else if n == 4 then Names(c.goalNames)
    else Tail(c)
  }

  /** The first `n` of the five groups of fields. */
  function Groups(c: Config, n: nat): seq<byte> {
    if n == 0 then [] else Groups(c, n - 1) + Group(c, n)
  }

  /** Everything between header and CRC. */
  function Payload(c: Config): seq<byte> {
    Groups(c, 5)
  }

  lemma PayloadIsGroups(c: Config)
    ensures Payload(c) == Strings(c) + Settings(c) + PetBytes(c.pet) + Names(c.goalNames) + Tail(c)
  {
    assert Groups(c, 1) == Strings(c);
    assert Groups(c, 2) == Groups(c, 1) + Settings(c);
    assert Groups(c, 3) == Groups(c, 2) + PetBytes(c.pet);
    assert Groups(c, 4) == Groups(c, 3) + Names(c.goalNames);
  }

  lemma {:induction false} NamesLength(names: seq<FixedStr>, n: nat)
    requires |names| == n && forall i :: 0 <= i < n ==> |names[i].buf| == GOAL_NAME_MAX
    ensures |Names(names)| == n * (GOAL_NAME_MAX + 1)
  {
    if n > 0 {
      NamesLength(names[..n - 1], n - 1);
    }
  }

  lemma GroupLengths(c: Config)
    requires c.FieldsAreWf()
    ensures |Strings(c)| == 261 && |Settings(c)| == 9 && |PetBytes(c.pet)| == 33
    ensures |Names(c.goalNames)| == 90 && |Tail(c)| == 165
  {
    NamesLength(c.goalNames, 5);
  }

  lemma PayloadLength(c: Config)
    requires c.FieldsAreWf()
    ensures |Payload(c)| == RECORD_LEN - HEADER_LEN - CRC_LEN
  {
    PayloadIsGroups(c);
    GroupLengths(c);
  }

  function Header(len: u16, sequence: u32): (h: seq<byte>)
    ensures |h| == HEADER_LEN
  {
    MAGIC + Le16(VERSION) + Le16(len) + Le32(sequence)
  }

  /** A payload with header and CRC around it. */
  function Sealed(sequence: u32, payload: seq<byte>): (r: seq<byte>)
    requires |payload| <= 0x8000
    ensures |r| == HEADER_LEN + |payload| + CRC_LEN
  {
    var body := Header(HEADER_LEN + |payload| + CRC_LEN, sequence) + payload;
    body + Crc32.CrcBytes(Crc32.Crc(body))
  }

  /** What `Encode` writes. */
  function RecordBytes(c: Config, sequence: u32): (r: seq<byte>)
    requires c.Wf()
    ensures |r| == RECORD_LEN
  {
    WfIs(c);
    PayloadLength(c);
    Sealed(sequence, Payload(c))
  }

  lemma JoinAssociates(a: seq<byte>, b: seq<byte>, c: seq<byte>)
    ensures a + b + c == a + (b + c)
  {}

  lemma HeaderJoin(w: seq<byte>, sequence: u32)
    ensures w + MAGIC + Le16(VERSION) + Le16(RECORD_LEN) + Le32(sequence)
         == w + Header(RECORD_LEN, sequence)
  {
    JoinAssociates(w, MAGIC, Le16(VERSION));
    JoinAssociates(w, MAGIC + Le16(VERSION), Le16(RECORD_LEN));
    JoinAssociates(w, MAGIC + Le16(VERSION) + Le16(RECORD_LEN), Le32(sequence));
  }

  lemma PayloadJoin(w: seq<byte>, c: Config)
    ensures w + Strings(c) + Settings(c) + PetBytes(c.pet) + Names(c.goalNames) + Tail(c)
         == w + Payload(c)
  {
    PayloadIsGroups(c);
    JoinAssociates(w, Strings(c), Settings(c));
    JoinAssociates(w, Strings(c) + Settings(c), PetBytes(c.pet));
    JoinAssociates(w, Strings(c) + Settings(c) + PetBytes(c.pet), Names(c.goalNames));
    JoinAssociates(w, Strings(c) + Settings(c) + PetBytes(c.pet) + Names(c.goalNames), Tail(c));
  }

  lemma StringsJoin(w: seq<byte>, c: Config)
    ensures w + StrBytes(c.wifiSsid) + StrBytes(c.wifiPassword) + StrBytes(c.frameServer) + StrBytes(c.frameName) + StrBytes(c.frameLastModified)
         == w + Strings(c)
  {
    JoinAssociates(w, StrBytes(c.wifiSsid), StrBytes(c.wifiPassword));
    JoinAssociates(w, StrBytes(c.wifiSsid) + StrBytes(c.wifiPassword), StrBytes(c.frameServer));
    JoinAssociates(w, StrBytes(c.wifiSsid) + StrBytes(c.wifiPassword) + StrBytes(c.frameServer), StrBytes(c.frameName));
    JoinAssociates(w, StrBytes(c.wifiSsid) + StrBytes(c.wifiPassword) + StrBytes(c.frameServer) + StrBytes(c.frameName), StrBytes(c.frameLastModified));
  }

  lemma SettingsJoin(w: seq<byte>, c: Config)
    ensures w + [c.frameSlot] + Le16(c.pollSecs) + [c.powerMode] + [c.sound] + Le16(c.alarmMin) + [c.alarmOn] + [c.alarmTone]
         == w + Settings(c)
  {
    JoinAssociates(w, [c.frameSlot], Le16(c.pollSecs));
    JoinAssociates(w, [c.frameSlot] + Le16(c.pollSecs), [c.powerMode]);
    JoinAssociates(w, [c.frameSlot] + Le16(c.pollSecs) + [c.powerMode], [c.sound]);
    JoinAssociates(w, [c.frameSlot] + Le16(c.pollSecs) + [c.powerMode] + [c.sound], Le16(c.alarmMin));
    JoinAssociates(w, [c.frameSlot] + Le16(c.pollSecs) + [c.powerMode] + [c.sound] + Le16(c.alarmMin), [c.alarmOn]);
    JoinAssociates(w, [c.frameSlot] + Le16(c.pollSecs) + [c.powerMode] + [c.sound] + Le16(c.alarmMin) + [c.alarmOn], [c.alarmTone]);
  }

  lemma PetJoin(w: seq<byte>, p: Pet)
    ensures w + [p.energy] + Le16(p.adventures) + Le16(p.goalsTotal) + Le16(p.day) + [p.doneToday, p.checkin] + p.history + p.goalHist + [p.flags, p.outfit] + Le32(p.born) + Le32(p.seen)
         == w + PetBytes(p)
  {
    JoinAssociates(w, [p.energy], Le16(p.adventures));
    JoinAssociates(w, [p.energy] + Le16(p.adventures), Le16(p.goalsTotal));
    JoinAssociates(w, [p.energy] + Le16(p.adventures) + Le16(p.goalsTotal), Le16(p.day));
    JoinAssociates(w, [p.energy] + Le16(p.adventures) + Le16(p.goalsTotal) + Le16(p.day), [p.doneToday, p.checkin]);
    JoinAssociates(w, [p.energy] + Le16(p.adventures) + Le16(p.goalsTotal) + Le16(p.day) + [p.doneToday, p.checkin], p.history);
    JoinAssociates(w, [p.energy] + Le16(p.adventures) + Le16(p.goalsTotal) + Le16(p.day) + [p.doneToday, p.checkin] + p.history, p.goalHist);
    JoinAssociates(w, [p.energy] + Le16(p.adventures) + Le16(p.goalsTotal) + Le16(p.day) + [p.doneToday, p.checkin] + p.history + p.goalHist, [p.flags, p.outfit]);
    JoinAssociates(w, [p.energy] + Le16(p.adventures) + Le16(p.goalsTotal) + Le16(p.day) + [p.doneToday, p.checkin] + p.history + p.goalHist + [p.flags, p.outfit], Le32(p.born));
    JoinAssociates(w, [p.energy] + Le16(p.adventures) + Le16(p.goalsTotal) + Le16(p.day) + [p.doneToday, p.checkin] + p.history + p.goalHist + [p.flags, p.outfit] + Le32(p.born), Le32(p.seen));
  }

  lemma TailJoin(w: seq<byte>, c: Config)
    ensures w + Le32(c.goalsStamp) + Le16(c.snakeBest) + StrBytes(c.deviceKey) + StrBytes(c.prevServer) + StrBytes(c.prevName) + Le32(c.serverTrialUntil)
         == w + Tail(c)
  {
    JoinAssociates(w, Le32(c.goalsStamp), Le16(c.snakeBest));
    JoinAssociates(w, Le32(c.goalsStamp) + Le16(c.snakeBest), StrBytes(c.deviceKey));
    JoinAssociates(w, Le32(c.goalsStamp) + Le16(c.snakeBest) + StrBytes(c.deviceKey), StrBytes(c.prevServer));
    JoinAssociates(w, Le32(c.goalsStamp) + Le16(c.snakeBest) + StrBytes(c.deviceKey) + StrBytes(c.prevServer), StrBytes(c.prevName));
    JoinAssociates(w, Le32(c.goalsStamp) + Le16(c.snakeBest) + StrBytes(c.deviceKey) + StrBytes(c.prevServer) + StrBytes(c.prevName), Le32(c.serverTrialUntil));
  }

  // --- writing -------------------------------------------------------------

  class Cursor {
    const buf: array<byte>
    var pos: nat
    /** What has been written, and what the buffer held at first. */
    ghost var written: seq<byte>
    ghost const before: seq<byte>

    ghost predicate Valid()
      reads this, buf
    {
      && pos == |written| <= buf.Length == |before|
      && buf[..] == written + before[pos..]
    }

    constructor (buf: array<byte>)
      ensures Valid() && this.buf == buf && written == [] && before == buf[..]
    {
      this.buf := buf;
      pos := 0;
      written := [];
      before := buf[..];
    }

    method Put(bytes: seq<byte>) returns (r: Option<()>)
      requires Valid()
      modifies this, buf
      ensures Valid()
      ensures r.Some? <==> |old(written)| + |bytes| <= buf.Length
      ensures written == if r.Some? then old(written) + bytes else old(written)
    {
      var end := pos + |bytes|;
      if end > buf.Length {
        return None;
      }
      forall i | 0 <= i < |bytes| {
        buf[pos + i] := bytes[i];
      }
      assert buf[..] == written + bytes + before[end..];
      written := written + bytes;
      pos := end;
      return Some(());
    }

    method PutStr(s: FixedStr) returns (r: Option<()>)
      requires Valid()
      modifies this, buf
      ensures Valid()
      ensures r.Some? <==> |old(written)| + 1 + |s.buf| <= buf.Length
      ensures r.Some? ==> written == old(written) + StrBytes(s)
    {
      var _ :- Put([s.len % 0x100]);
      var _ :- Put(s.buf);
      assert written == old(written) + ([s.len % 0x100] + s.buf);
      return Some(());
    }
  }

  method PutStrings(k: Cursor, c: Config) returns (r: Option<()>)
    requires c.FieldsAreWf() && k.Valid()
    modifies k, k.buf
    ensures k.Valid()
    ensures r.Some? <==> |old(k.written)| + 261 <= k.buf.Length
    ensures r.Some? ==> k.written == old(k.written) + Strings(c)
  {
    ghost var w := k.written;
    var _ :- k.PutStr(c.wifiSsid);
    var _ :- k.PutStr(c.wifiPassword);
    var _ :- k.PutStr(c.frameServer);
    var _ :- k.PutStr(c.frameName);
    var _ :- k.PutStr(c.frameLastModified);
    StringsJoin(w, c);
    return Some(());
  }

  method PutSettings(k: Cursor, c: Config) returns (r: Option<()>)
    requires k.Valid()
    modifies k, k.buf
    ensures k.Valid()
    ensures r.Some? <==> |old(k.written)| + 9 <= k.buf.Length
    ensures r.Some? ==> k.written == old(k.written) + Settings(c)
  {
    ghost var w := k.written;
    var _ :- k.Put([c.frameSlot]);
    var _ :- k.Put(Le16(c.pollSecs));
    var _ :- k.Put([c.powerMode]);
    var _ :- k.Put([c.sound]);
    var _ :- k.Put(Le16(c.alarmMin));
    var _ :- k.Put([c.alarmOn]);
    var _ :- k.Put([c.alarmTone]);
    SettingsJoin(w, c);
    return Some(());
  }

  method PutPet(k: Cursor, p: Pet) returns (r: Option<()>)
    requires p.Wf() && k.Valid()
    modifies k, k.buf
    ensures k.Valid()
    ensures r.Some? <==> |old(k.written)| + 33 <= k.buf.Length
    ensures r.Some? ==> k.written == old(k.written) + PetBytes(p)
  {
    ghost var w := k.written;
    var _ :- k.Put([p.energy]);
    var _ :- k.Put(Le16(p.adventures));
    var _ :- k.Put(Le16(p.goalsTotal));
    var _ :- k.Put(Le16(p.day));
    var _ :- k.Put([p.doneToday, p.checkin]);
    var _ :- k.Put(p.history);
    var _ :- k.Put(p.goalHist);
    var _ :- k.Put([p.flags, p.outfit]);
    var _ :- k.Put(Le32(p.born));
    var _ :- k.Put(Le32(p.seen));
    PetJoin(w, p);
    return Some(());
  }

  method PutTail(k: Cursor, c: Config) returns (r: Option<()>)
    requires c.FieldsAreWf() && k.Valid()
    modifies k, k.buf
    ensures k.Valid()
    ensures r.Some? <==> |old(k.written)| + 165 <= k.buf.Length
    ensures r.Some? ==> k.written == old(k.written) + Tail(c)
  {
    ghost var w := k.written;
    var _ :- k.Put(Le32(c.goalsStamp));
    var _ :- k.Put(Le16(c.snakeBest));
    var _ :- k.PutStr(c.deviceKey);
    var _ :- k.PutStr(c.prevServer);
    var _ :- k.PutStr(c.prevName);
    var _ :- k.Put(Le32(c.serverTrialUntil));
    TailJoin(w, c);
    return Some(());
  }

  method PutNames(k: Cursor, names: seq<FixedStr>) returns (r: Option<()>)
    requires |names| == 5 && forall i :: 0 <= i < 5 ==> names[i].Wf(GOAL_NAME_MAX)
    requires k.Valid()
    modifies k, k.buf
    ensures k.Valid()
    ensures r.Some? <==> |old(k.written)| + 90 <= k.buf.Length
    ensures r.Some? ==> k.written == old(k.written) + Names(names)
  {
    ghost var w := k.written;
    for i := 0 to 5
      invariant k.Valid()
      invariant k.written == w + Names(names[..i])
      invariant |k.written| == |w| + i * (GOAL_NAME_MAX + 1)
    {
      var _ :- k.PutStr(names[i]);
      assert names[..i + 1][..i] == names[..i];
      assert k.written == w + (Names(names[..i]) + StrBytes(names[i]));
    }
    assert names[..5] == names;
    return Some(());
  }

  method PutHeader(k: Cursor, sequence: u32) returns (r: Option<()>)
    requires k.Valid()
    modifies k, k.buf
    ensures k.Valid()
    ensures r.Some? <==> |old(k.written)| + HEADER_LEN <= k.buf.Length
    ensures r.Some? ==> k.written == old(k.written) + Header(RECORD_LEN, sequence)
  {
    ghost var w := k.written;
    var _ :- k.Put(MAGIC);
    var _ :- k.Put(Le16(VERSION));
    var _ :- k.Put(Le16(RECORD_LEN));
    var _ :- k.Put(Le32(sequence));
    HeaderJoin(w, sequence);
    return Some(());
  }

  method PutPayload(k: Cursor, c: Config) returns (r: Option<()>)
    requires c.FieldsAreWf() && k.Valid()
    modifies k, k.buf
    ensures k.Valid()
    ensures r.Some? <==> |old(k.written)| + 558 <= k.buf.Length
    ensures r.Some? ==> k.written == old(k.written) + Payload(c)
  {
    ghost var w := k.written;
    GroupLengths(c);
    var _ :- PutStrings(k, c);
    var _ :- PutSettings(k, c);
    var _ :- PutPet(k, c.pet);
    var _ :- PutNames(k, c.goalNames);
    var _ :- PutTail(k, c);
    PayloadJoin(w, c);
    return Some(());
  }

  /** All of a record but its CRC. */
  method PutBody(k: Cursor, c: Config, sequence: u32) returns (r: Option<()>)
    requires c.Wf() && k.Valid()
    modifies k, k.buf
    ensures k.Valid()
    ensures r.Some? <==> |old(k.written)| + RECORD_LEN - CRC_LEN <= k.buf.Length
    ensures r.Some? ==> k.written == old(k.written) + (Header(RECORD_LEN, sequence) + Payload(c))
    ensures |Header(RECORD_LEN, sequence) + Payload(c)| == RECORD_LEN - CRC_LEN
  {
    WfIs(c);
    ghost var w := k.written;
    PayloadLength(c);
    var _ :- PutHeader(k, sequence);
    var _ :- PutPayload(k, c);
    JoinAssociates(w, Header(RECORD_LEN, sequence), Payload(c));
    return Some(());
  }

  /** Serialises `cfg` into `out`; the length written, or nothing if `out` is too short. */
  method Encode(cfg: Config, sequence: u32, out: array<byte>) returns (r: Option<nat>)
    requires cfg.Wf()
    modifies out
    ensures out.Length < RECORD_LEN ==> r == None
    ensures out.Length >= RECORD_LEN ==>
      && r == Some(RECORD_LEN)
      && out[..] == RecordBytes(cfg, sequence) + old(out[..])[RECORD_LEN..]
  {
    var k := new Cursor(out);
    var _ :- PutBody(k, cfg, sequence);
    ghost var body := Header(RECORD_LEN, sequence) + Payload(cfg);
    assert k.written == body;
    assert out[..k.pos] == k.written;
    var crc := Crc32.Checksum(out[..k.pos]);
    var _ :- k.Put(Crc32.CrcBytes(crc));
    return Some(k.pos);
  }
}
