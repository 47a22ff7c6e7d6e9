/**
 Reading a config record back. Fields past the end of the payload are absent
 and take their defaults, so records of older firmware still decode.
 */
module Decoding {
  import opened Bytes
  import opened Wrappers
  import opened FixedStrs
  import opened Pets
  import opened Record
  import opened Veils
  import Utf8
  import Crc32

  // --- what each read does to the bytes still ahead ------------------------

  /** A read that runs past the end yields nothing and moves nothing. */
  function TakeN(rest: seq<byte>, n: nat): (r: (Option<seq<byte>>, seq<byte>))
    ensures r.0.Some? ==> |r.0.value| == n
  {
    if n <= |rest| then (Some(rest[..n]), rest[n..]) else (None, rest)
  }

  function ReadU8(rest: seq<byte>): (Option<byte>, seq<byte>) {
    if 1 <= |rest| then (Some(rest[0]), rest[1..]) else (None, rest)
  }

  function ReadU16(rest: seq<byte>): (Option<u16>, seq<byte>) {
    if 2 <= |rest| then (Some(FromLe16(rest[..2])), rest[2..]) else (None, rest)
  }

  function ReadU32(rest: seq<byte>): (Option<u32>, seq<byte>) {
    if 4 <= |rest| then (Some(FromLe32(rest[..4])), rest[4..]) else (None, rest)
  }

  /** The length byte is consumed even when the bytes after it are missing. */
  function ReadStr(rest: seq<byte>, capacity: nat): (r: (Option<FixedStr>, seq<byte>))
    ensures r.0.Some? ==> r.0.value.Wf(capacity)
  {
    if rest == [] then (None, rest)
    else if |rest| < 1 + capacity then (None, rest[1..])
    else if rest[0] > capacity || !Utf8.Valid(rest[1..1 + rest[0]]) then (None, rest[1 + capacity..])
    else
      assert rest[1..1 + capacity][..rest[0]] == rest[1..1 + rest[0]];
      (Some(FixedStr(rest[1..1 + capacity], rest[0])), rest[1 + capacity..])
  }

  class Reader {
    const buf: seq<byte>
    var pos: nat

    constructor (buf: seq<byte>, pos: nat)
      requires pos <= |buf|
      ensures Valid() && this.buf == buf && this.pos == pos
    {
      this.buf := buf;
      this.pos := pos;
    }

    ghost predicate Valid()
      reads this
    {
      pos <= |buf|
    }

    function Rest(): seq<byte>
      requires Valid()
      reads this
    {
      buf[pos..]
    }

    method Take(n: nat) returns (r: Option<seq<byte>>)
      requires Valid()
      modifies this
      ensures Valid()
      ensures (r, Rest()) == TakeN(old(Rest()), n)
    {
      var end := pos + n;
      if end > |buf| {
        return None;
      }
      r := Some(buf[pos..end]);
      assert r.value == Rest()[..n];
      pos := end;
    }

    method U8() returns (r: Option<byte>)
      requires Valid()
      modifies this
      ensures Valid()
      ensures (r, Rest()) == ReadU8(old(Rest()))
    {
      var b :- Take(1);
      return Some(b[0]);
    }

    method U16() returns (r: Option<u16>)
      requires Valid()
      modifies this
      ensures Valid()
      ensures (r, Rest()) == ReadU16(old(Rest()))
    {
      var b :- Take(2);
      return Some(FromLe16(b));
    }

    method U32() returns (r: Option<u32>)
      requires Valid()
      modifies this
      ensures Valid()
      ensures (r, Rest()) == ReadU32(old(Rest()))
    {
      var b :- Take(4);
      return Some(FromLe32(b));
    }

    method Str(capacity: nat) returns (r: Option<FixedStr>)
      requires Valid()
      modifies this
      ensures Valid()
      ensures (r, Rest()) == ReadStr(old(Rest()), capacity)
    {
      ghost var ahead := Rest();
      var len :- U8();
      assert Rest() == ahead[1..];
      var bytes :- Take(capacity);
      assert Rest() == ahead[1 + capacity..];
      if len > capacity {
        return None;
      }
      assert bytes == ahead[1..1 + capacity] && bytes[..len] == ahead[1..1 + len];
      if !Utf8.Valid(bytes[..len]) {
        return None;
      }
      return Some(FixedStr(bytes, len));
    }
  }

  // --- the fields, group by group ------------------------------------------

  /** `unwrap_or_default` for a string. */
  function OrEmpty(s: Option<FixedStr>, capacity: nat): (f: FixedStr)
    ensures (s.Some? ==> s.value.Wf(capacity)) ==> f.Wf(capacity)
  {
    if s.Some? then s.value else Empty(capacity)
  }

  function ReadStrings(rest: seq<byte>): (r: ((FixedStr, FixedStr, FixedStr, FixedStr, FixedStr), seq<byte>))
    ensures r.0.0.Wf(SSID_MAX) && r.0.1.Wf(PASSWORD_MAX) && r.0.2.Wf(SERVER_MAX) && r.0.3.Wf(NAME_MAX) && r.0.4.Wf(STAMP_MAX)
  {
    var (s0, r0) := ReadStr(rest, SSID_MAX);
    var (s1, r1) := ReadStr(r0, PASSWORD_MAX);
    var (s2, r2) := ReadStr(r1, SERVER_MAX);
    var (s3, r3) := ReadStr(r2, NAME_MAX);
    var (s4, r4) := ReadStr(r3, STAMP_MAX);
    ((OrEmpty(s0, SSID_MAX), OrEmpty(s1, PASSWORD_MAX), OrEmpty(s2, SERVER_MAX), OrEmpty(s3, NAME_MAX), OrEmpty(s4, STAMP_MAX)), r4)
  }

  function ReadSettings(rest: seq<byte>): ((byte, u16, byte, byte, u16, byte, byte), seq<byte>) {
    var (frameSlot, r0) := ReadU8(rest);
    var (pollSecs, r1) := ReadU16(r0);
    var (powerMode, r2) := ReadU8(r1);
    var (sound, r3) := ReadU8(r2);
    var (alarmMin, r4) := ReadU16(r3);
    var (alarmOn, r5) := ReadU8(r4);
    var (alarmTone, r6) := ReadU8(r5);
    ((frameSlot.GetOr(0), pollSecs.GetOr(POLL_DEFAULT), powerMode.GetOr(POWER_AUTO), sound.GetOr(SOUND_DEFAULT), alarmMin.GetOr(ALARM_DEFAULT_MIN), alarmOn.GetOr(0), alarmTone.GetOr(0)), r6)
  }

  /** All of the pet, or nothing. */
  function ReadPet(rest: seq<byte>): (r: (Option<Pet>, seq<byte>))
    ensures r.0.Some? ==> r.0.value.Wf()
  {
    var (energy, r0) := ReadU8(rest);
    if energy.None? then (None, r0) else
    var (adventures, r1) := ReadU16(r0);
    if adventures.None? then (None, r1) else
    var (goalsTotal, r2) := ReadU16(r1);
    if goalsTotal.None? then (None, r2) else
    var (day, r3) := ReadU16(r2);
    if day.None? then (None, r3) else
    var (doneToday, r4) := ReadU8(r3);
    if doneToday.None? then (None, r4) else
    var (checkin, r5) := ReadU8(r4);
    if checkin.None? then (None, r5) else
    var (history, r6) := TakeN(r5, 7);
    if history.None? then (None, r6) else
    var (goalHist, r7) := TakeN(r6, 7);
    if goalHist.None? then (None, r7) else
    var (flags, r8) := ReadU8(r7);
    if flags.None? then (None, r8) else
    var (outfit, r9) := ReadU8(r8);
    if outfit.None? then (None, r9) else
    var (born, r10) := ReadU32(r9);
    if born.None? then (None, r10) else
    var (seen, r11) := ReadU32(r10);
    if seen.None? then (None, r11) else
    (Some(Pet(energy.value, adventures.value, goalsTotal.value, day.value, doneToday.value, checkin.value, history.value, goalHist.value, flags.value, outfit.value, born.value, seen.value)), r11)
  }

  function ReadNames(rest: seq<byte>): (r: (seq<FixedStr>, seq<byte>))
    ensures |r.0| == 5 && forall i :: 0 <= i < 5 ==> r.0[i].Wf(GOAL_NAME_MAX)
  {
    var (s0, r0) := ReadStr(rest, GOAL_NAME_MAX);
    var (s1, r1) := ReadStr(r0, GOAL_NAME_MAX);
    var (s2, r2) := ReadStr(r1, GOAL_NAME_MAX);
    var (s3, r3) := ReadStr(r2, GOAL_NAME_MAX);
    var (s4, r4) := ReadStr(r3, GOAL_NAME_MAX);
    ([OrEmpty(s0, GOAL_NAME_MAX), OrEmpty(s1, GOAL_NAME_MAX), OrEmpty(s2, GOAL_NAME_MAX), OrEmpty(s3, GOAL_NAME_MAX), OrEmpty(s4, GOAL_NAME_MAX)], r4)
  }

  function ReadTrailer(rest: seq<byte>): (r: ((u32, u16, FixedStr, FixedStr, FixedStr, u32), seq<byte>))
    ensures r.0.2.Wf(KEY_MAX) && r.0.3.Wf(SERVER_MAX) && r.0.4.Wf(NAME_MAX)
  {
    var (stamp, r0) := ReadU32(rest);
    var (best, r1) := ReadU16(r0);
    var (key, r2) := ReadStr(r1, KEY_MAX);
    var (server, r3) := ReadStr(r2, SERVER_MAX);
    var (name, r4) := ReadStr(r3, NAME_MAX);
    var (until, r5) := ReadU32(r4);
    ((stamp.GetOr(0), best.GetOr(0), OrEmpty(key, KEY_MAX), OrEmpty(server, SERVER_MAX), OrEmpty(name, NAME_MAX), until.GetOr(0)), r5)
  }

  /** What a record without any field decodes to. */
  const ABSENT := Config(
    Empty(SSID_MAX), Empty(PASSWORD_MAX), Empty(SERVER_MAX), Empty(NAME_MAX), Empty(STAMP_MAX),
    0, POLL_DEFAULT, POWER_AUTO, SOUND_DEFAULT, ALARM_DEFAULT_MIN, 0, 0,
    NEW_PET,
    [Empty(GOAL_NAME_MAX), Empty(GOAL_NAME_MAX), Empty(GOAL_NAME_MAX), Empty(GOAL_NAME_MAX), Empty(GOAL_NAME_MAX)],
    0, 0, Empty(KEY_MAX), Empty(SERVER_MAX), Empty(NAME_MAX), 0)

  function WithStrings(c: Config, s: (FixedStr, FixedStr, FixedStr, FixedStr, FixedStr)): Config {
    c.(wifiSsid := s.0, wifiPassword := s.1, frameServer := s.2, frameName := s.3, frameLastModified := s.4)
  }

  function WithSettings(c: Config, n: (byte, u16, byte, byte, u16, byte, byte)): Config {
    c.(frameSlot := n.0, pollSecs := n.1, powerMode := n.2, sound := n.3, alarmMin := n.4, alarmOn := n.5, alarmTone := n.6)
  }

  function WithPet(c: Config, p: Option<Pet>): Config {
    c.(pet := if p.Some? then p.value else NEW_PET)
  }

  function WithTrailer(c: Config, t: (u32, u16, FixedStr, FixedStr, FixedStr, u32)): Config {
    c.(goalsStamp := t.0, snakeBest := t.1, deviceKey := t.2, prevServer := t.3, prevName := t.4, serverTrialUntil := t.5)
  }

  /** The config and the bytes left over once the first `n` of the five groups are read. */
  function ReadGroups(n: nat, payload: seq<byte>): (r: (Config, seq<byte>))
    ensures r.0.FieldsAreWf()
  {
    if n == 0 then (ABSENT, payload)
    else
      var (c, rest) := ReadGroups(n - 1, payload);
      if n == 1 then var (v, left) := ReadStrings(rest); (WithStrings(c, v), left)
      else if n == 2 then var (v, left) := ReadSettings(rest); (WithSettings(c, v), left)
      else if n == 3 then var (v, left) := ReadPet(rest); (WithPet(c, v), left)
      else if n == 4 then var (v, left) := ReadNames(rest); (c.(goalNames := v), left)
      else var (v, left) := ReadTrailer(rest); (WithTrailer(c, v), left)
  }

  function ParsePayload(payload: seq<byte>): (c: Config)
    ensures c.Wf()
  {
    WfIs(ReadGroups(5, payload).0);
    ReadGroups(5, payload).0
  }

  function LengthField(buf: seq<byte>): u16
    requires |buf| >= 8
  {
    FromLe16(buf[6..8])
  }

  /** Magic, version and length check out. */
  predicate HeaderOk(buf: seq<byte>) {
    && |buf| >= 8
    && buf[..4] == MAGIC
    && FromLe16(buf[4..6]) == VERSION
    && HEADER_LEN + CRC_LEN <= LengthField(buf) <= RECORD_LEN
    && LengthField(buf) <= |buf|
  }

  /** The bytes between header and CRC. */
  function PayloadOf(buf: seq<byte>): seq<byte>
    requires HeaderOk(buf)
  {
    buf[HEADER_LEN..LengthField(buf) - CRC_LEN]
  }

  predicate CrcOk(buf: seq<byte>, len: nat)
    requires CRC_LEN <= len <= |buf|
  {
    Crc32.WordAt(buf[len - CRC_LEN..len]) == Crc32.Crc(buf[..len - CRC_LEN])
  }

  /** Whether a buffer starts with a record. */
  predicate Accepted(buf: seq<byte>) {
    HeaderOk(buf) && CrcOk(buf, LengthField(buf))
  }

  /** What `Decode` computes. */
  function Parse(buf: seq<byte>): Option<(Config, u32)> {
    Veil(Parsed, buf, |buf| + 3)
  }

  function Parsed(buf: seq<byte>): Option<(Config, u32)> {
    if Accepted(buf)
    then Some((ParsePayload(PayloadOf(buf)), FromLe32(buf[8..12])))
    else None
  }

  lemma ParseIs(buf: seq<byte>)
    ensures Parse(buf) ==
      if Accepted(buf) then Some((ParsePayload(PayloadOf(buf)), FromLe32(buf[8..12]))) else None
  {
    Lift(Parsed, buf, |buf| + 3);
  }

  // --- the loops -----------------------------------------------------------

  method TakeStrings(r: Reader) returns (v: (FixedStr, FixedStr, FixedStr, FixedStr, FixedStr))
    requires r.Valid()
    modifies r
    ensures r.Valid()
    ensures (v, r.Rest()) == ReadStrings(old(r.Rest()))
  {
    var s0 := r.Str(SSID_MAX);
    var s1 := r.Str(PASSWORD_MAX);
    var s2 := r.Str(SERVER_MAX);
    var s3 := r.Str(NAME_MAX);
    var s4 := r.Str(STAMP_MAX);
    v := (OrEmpty(s0, SSID_MAX), OrEmpty(s1, PASSWORD_MAX), OrEmpty(s2, SERVER_MAX), OrEmpty(s3, NAME_MAX), OrEmpty(s4, STAMP_MAX));
  }

  method TakeSettings(r: Reader) returns (v: (byte, u16, byte, byte, u16, byte, byte))
    requires r.Valid()
    modifies r
    ensures r.Valid()
    ensures (v, r.Rest()) == ReadSettings(old(r.Rest()))
  {
    var frameSlot := r.U8();
    var pollSecs := r.U16();
    var powerMode := r.U8();
    var sound := r.U8();
    var alarmMin := r.U16();
    var alarmOn := r.U8();
    var alarmTone := r.U8();
    v := (frameSlot.GetOr(0), pollSecs.GetOr(POLL_DEFAULT), powerMode.GetOr(POWER_AUTO), sound.GetOr(SOUND_DEFAULT), alarmMin.GetOr(ALARM_DEFAULT_MIN), alarmOn.GetOr(0), alarmTone.GetOr(0));
  }

  method TakePet(r: Reader) returns (v: Option<Pet>)
    requires r.Valid()
    modifies r
    ensures r.Valid()
    ensures (v, r.Rest()) == ReadPet(old(r.Rest()))
  {
    var energy :- r.U8();
    var adventures :- r.U16();
    var goalsTotal :- r.U16();
    var day :- r.U16();
    var doneToday :- r.U8();
    var checkin :- r.U8();
    var history :- r.Take(7);
    var goalHist :- r.Take(7);
    var flags :- r.U8();
    var outfit :- r.U8();
    var born :- r.U32();
    var seen :- r.U32();
    v := Some(Pet(energy, adventures, goalsTotal, day, doneToday, checkin, history, goalHist, flags, outfit, born, seen));
  }

  method TakeNames(r: Reader) returns (v: seq<FixedStr>)
    requires r.Valid()
    modifies r
    ensures r.Valid()
    ensures (v, r.Rest()) == ReadNames(old(r.Rest()))
  {
    var s0 := r.Str(GOAL_NAME_MAX);
    var s1 := r.Str(GOAL_NAME_MAX);
    var s2 := r.Str(GOAL_NAME_MAX);
    var s3 := r.Str(GOAL_NAME_MAX);
    var s4 := r.Str(GOAL_NAME_MAX);
    v := [OrEmpty(s0, GOAL_NAME_MAX), OrEmpty(s1, GOAL_NAME_MAX), OrEmpty(s2, GOAL_NAME_MAX), OrEmpty(s3, GOAL_NAME_MAX), OrEmpty(s4, GOAL_NAME_MAX)];
  }

  method TakeTrailer(r: Reader) returns (v: (u32, u16, FixedStr, FixedStr, FixedStr, u32))
    requires r.Valid()
    modifies r
    ensures r.Valid()
    ensures (v, r.Rest()) == ReadTrailer(old(r.Rest()))
  {
    var stamp := r.U32();
    var best := r.U16();
    var key := r.Str(KEY_MAX);
    var server := r.Str(SERVER_MAX);
    var name := r.Str(NAME_MAX);
    var until := r.U32();
    v := (stamp.GetOr(0), best.GetOr(0), OrEmpty(key, KEY_MAX), OrEmpty(server, SERVER_MAX), OrEmpty(name, NAME_MAX), until.GetOr(0));
  }

  /** Reads the fields between header and CRC. */
  method DecodePayload(buf: seq<byte>, len: nat) returns (c: Config)
    requires HeaderOk(buf) && len == LengthField(buf)
    ensures c == ParsePayload(PayloadOf(buf))
  {
    var r := new Reader(buf[..len - CRC_LEN], HEADER_LEN);
    ghost var payload := PayloadOf(buf);
    assert r.Rest() == payload;
    var strings := TakeStrings(r);
    assert ReadGroups(1, payload) == (WithStrings(ABSENT, strings), r.Rest());
    var settings := TakeSettings(r);
    assert ReadGroups(2, payload).1 == r.Rest();
    var pet := TakePet(r);
    assert ReadGroups(3, payload).1 == r.Rest();
    var names := TakeNames(r);
    assert ReadGroups(4, payload).1 == r.Rest();
    var trailer := TakeTrailer(r);
    c := WithTrailer(WithPet(WithSettings(WithStrings(ABSENT, strings), settings), pet).(goalNames := names), trailer);
  }

  /** Reads magic, version and length; the length if all three are in order. */
  method DecodeHeader(head: Reader) returns (r: Option<nat>)
    requires head.Valid() && head.pos == 0
    modifies head
    ensures r.Some? <==> HeaderOk(head.buf)
    ensures r.Some? ==> r.value == LengthField(head.buf) && head.Valid() && head.pos == 8
  {
    ghost var buf := head.buf;
    var magic :- head.Take(4);
    if magic != MAGIC {
      return None;
    }
    assert head.Rest() == buf[4..];
    var version :- head.U16();
    if |buf| >= 6 {
      assert buf[4..][..2] == buf[4..6];
    }
    if version != VERSION {
      return None;
    }
    assert head.Rest() == buf[6..];
    var len :- head.U16();
    assert buf[6..][..2] == buf[6..8];
    if len < HEADER_LEN + CRC_LEN || RECORD_LEN < len || |head.buf| < len {
      return None;
    }
    return Some(len);
  }

  method CheckCrc(buf: seq<byte>, len: nat) returns (ok: bool)
    requires CRC_LEN <= len <= |buf|
    ensures ok <==> CrcOk(buf, len)
  {
    var stored := Crc32.WordAt(buf[len - CRC_LEN..len]);
    var actual := Crc32.Checksum(buf[..len - CRC_LEN]);
    ok := actual == stored;
  }

  /** Everything that can reject a record; its sequence number if nothing does. */
  method CheckRecord(buf: seq<byte>) returns (r: Option<u32>)
    ensures r.Some? <==> Accepted(buf)
    ensures r.Some? ==> r.value == FromLe32(buf[8..12])
  {
    var head := new Reader(buf, 0);
    var len :- DecodeHeader(head);
    var intact := CheckCrc(buf, len);
    if !intact {
      return None;
    }
    var sequence := head.U32();
    assert buf[8..][..4] == buf[8..12];
    return sequence;
  }

  /** Parses a record: config and sequence number, or nothing if it does not check out. */
  method Decode(buf: seq<byte>) returns (r: Option<(Config, u32)>)
    ensures r == Parse(buf)
  {
    ParseIs(buf);
    var sequence :- CheckRecord(buf);
    var c := DecodePayload(buf, LengthField(buf));
    return Some((c, sequence));
  }
}
