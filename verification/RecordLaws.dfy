/**
 What the record format promises: a round trip, records of older firmware
 (cut at any field boundary) that decode with defaults for what they lack,
 and the rejection of every burst error of up to four bytes.
 */
module RecordLaws {
  import opened Bytes
  import opened Wrappers
  import opened FixedStrs
  import opened Pets
  import opened Record
  import opened Decoding
  import Crc32
  import CrcAlgebra
  import Folds

  // --- fields and boundaries -----------------------------------------------

  function StringFields(c: Config): (fs: seq<seq<byte>>)
    ensures |fs| == 5
  {
    [StrBytes(c.wifiSsid), StrBytes(c.wifiPassword), StrBytes(c.frameServer), StrBytes(c.frameName), StrBytes(c.frameLastModified)]
  }

  function SettingFields(c: Config): (fs: seq<seq<byte>>)
    ensures |fs| == 7
  {
    [[c.frameSlot], Le16(c.pollSecs), [c.powerMode], [c.sound], Le16(c.alarmMin), [c.alarmOn], [c.alarmTone]]
  }

  function PetFields(p: Pet): (fs: seq<seq<byte>>)
    ensures |fs| == 12
  {
    [[p.energy], Le16(p.adventures), Le16(p.goalsTotal), Le16(p.day), [p.doneToday], [p.checkin], p.history, p.goalHist, [p.flags], [p.outfit], Le32(p.born), Le32(p.seen)]
  }

  function NameFields(c: Config): (fs: seq<seq<byte>>)
    requires |c.goalNames| == 5
    ensures |fs| == 5
  {
    [StrBytes(c.goalNames[0]), StrBytes(c.goalNames[1]), StrBytes(c.goalNames[2]), StrBytes(c.goalNames[3]), StrBytes(c.goalNames[4])]
  }

  function TrailerFields(c: Config): (fs: seq<seq<byte>>)
    ensures |fs| == 6
  {
    [Le32(c.goalsStamp), Le16(c.snakeBest), StrBytes(c.deviceKey), StrBytes(c.prevServer), StrBytes(c.prevName), Le32(c.serverTrialUntil)]
  }

  /** The payload field by field, in record order. */
  function Fields(c: Config): (fs: seq<seq<byte>>)
    requires |c.goalNames| == 5
    ensures |fs| == 35
  {
    StringFields(c) + SettingFields(c) + PetFields(c.pet) + NameFields(c) + TrailerFields(c)
  }

  /** Fields `i` up to `k`, one after another. */
  function Span(fs: seq<seq<byte>>, i: nat, k: nat): seq<byte>
    requires k <= |fs|
    decreases k - i
  {
    if i < k then fs[i] + Span(fs, i + 1, k) else []
  }

  // What the first `k` fields say, group by group; absent fields read as defaults.

  function StringsUpTo(c: Config, k: nat): (FixedStr, FixedStr, FixedStr, FixedStr, FixedStr) {
    (if k > 0 then c.wifiSsid else Empty(SSID_MAX),
     if k > 1 then c.wifiPassword else Empty(PASSWORD_MAX),
     if k > 2 then c.frameServer else Empty(SERVER_MAX),
     if k > 3 then c.frameName else Empty(NAME_MAX),
     if k > 4 then c.frameLastModified else Empty(STAMP_MAX))
  }

  function SettingsUpTo(c: Config, k: nat): (byte, u16, byte, byte, u16, byte, byte) {
    (if k > 5 then c.frameSlot else 0,
     if k > 6 then c.pollSecs else POLL_DEFAULT,
     if k > 7 then c.powerMode else POWER_AUTO,
     if k > 8 then c.sound else SOUND_DEFAULT,
     if k > 9 then c.alarmMin else ALARM_DEFAULT_MIN,
     if k > 10 then c.alarmOn else 0,
     if k > 11 then c.alarmTone else 0)
  }

  function PetUpTo(c: Config, k: nat): Option<Pet> {
    if k > 23 then Some(c.pet) else None
  }

  function NamesUpTo(c: Config, k: nat): seq<FixedStr>
    requires |c.goalNames| == 5
  {
    [if k > 24 then c.goalNames[0] else Empty(GOAL_NAME_MAX),
     if k > 25 then c.goalNames[1] else Empty(GOAL_NAME_MAX),
     if k > 26 then c.goalNames[2] else Empty(GOAL_NAME_MAX),
     if k > 27 then c.goalNames[3] else Empty(GOAL_NAME_MAX),
     if k > 28 then c.goalNames[4] else Empty(GOAL_NAME_MAX)]
  }

  function TrailerUpTo(c: Config, k: nat): (u32, u16, FixedStr, FixedStr, FixedStr, u32) {
    (if k > 29 then c.goalsStamp else 0,
     if k > 30 then c.snakeBest else 0,
     if k > 31 then c.deviceKey else Empty(KEY_MAX),
     if k > 32 then c.prevServer else Empty(SERVER_MAX),
     if k > 33 then c.prevName else Empty(NAME_MAX),
     if k > 34 then c.serverTrialUntil else 0)
  }

  /** What is left of a config after its first `k` fields. */
  function Truncated(c: Config, k: nat): Config
    requires |c.goalNames| == 5
  {
    WithTrailer(WithPet(WithSettings(WithStrings(ABSENT, StringsUpTo(c, k)), SettingsUpTo(c, k)), PetUpTo(c, k)).(goalNames := NamesUpTo(c, k)),
                TrailerUpTo(c, k))
  }

  // --- one field at a time -------------------------------------------------

  lemma StrCut(fs: seq<seq<byte>>, i: nat, k: nat, s: FixedStr, capacity: nat)
    requires i < |fs| && k <= |fs|
    requires s.Wf(capacity) && capacity < 0x100
    requires fs[i] == StrBytes(s)
    ensures ReadStr(Span(fs, i, k), capacity) == (if i < k then Some(s) else None, Span(fs, i + 1, k))
  {
    if i < k {
      var rest := Span(fs, i, k);
      assert rest == [s.len] + s.buf + Span(fs, i + 1, k);
      assert rest[1..1 + capacity] == s.buf;
      assert rest[1..1 + s.len] == s.buf[..s.len];
    }
  }

  lemma U8Cut(fs: seq<seq<byte>>, i: nat, k: nat, v: byte)
    requires i < |fs| && k <= |fs|
    requires fs[i] == [v]
    ensures ReadU8(Span(fs, i, k)) == (if i < k then Some(v) else None, Span(fs, i + 1, k))
  {}

  lemma U16Cut(fs: seq<seq<byte>>, i: nat, k: nat, v: u16)
    requires i < |fs| && k <= |fs|
    requires fs[i] == Le16(v)
    ensures ReadU16(Span(fs, i, k)) == (if i < k then Some(v) else None, Span(fs, i + 1, k))
  {
    if i < k {
      Le16RoundTrip(v);
      assert Span(fs, i, k)[..2] == Le16(v);
    }
  }

  lemma U32Cut(fs: seq<seq<byte>>, i: nat, k: nat, v: u32)
    requires i < |fs| && k <= |fs|
    requires fs[i] == Le32(v)
    ensures ReadU32(Span(fs, i, k)) == (if i < k then Some(v) else None, Span(fs, i + 1, k))
  {
    if i < k {
      Le32RoundTrip(v);
      assert Span(fs, i, k)[..4] == Le32(v);
    }
  }

  lemma SevenCut(fs: seq<seq<byte>>, i: nat, k: nat, v: seq<byte>)
    requires i < |fs| && k <= |fs|
    requires fs[i] == v && |v| == 7
    ensures TakeN(Span(fs, i, k), 7) == (if i < k then Some(v) else None, Span(fs, i + 1, k))
  {
    if i < k {
      assert Span(fs, i, k)[..7] == v;
    }
  }

  // --- one group at a time -------------------------------------------------

  /** Five stored strings, wherever they begin. */
  lemma StringsCutFrom(fs: seq<seq<byte>>, i: nat, k: nat, c: Config)
    requires c.FieldsAreWf() && k <= |fs| && i + 5 <= |fs|
    requires fs[i..i + 5] == StringFields(c)
    ensures var (t, rest) := ReadStrings(Span(fs, i, k));
            && rest == Span(fs, i + 5, k)
            && t.0 == (if i < k then c.wifiSsid else Empty(SSID_MAX))
            && t.1 == (if i + 1 < k then c.wifiPassword else Empty(PASSWORD_MAX))
            && t.2 == (if i + 2 < k then c.frameServer else Empty(SERVER_MAX))
            && t.3 == (if i + 3 < k then c.frameName else Empty(NAME_MAX))
            && t.4 == (if i + 4 < k then c.frameLastModified else Empty(STAMP_MAX))
  {
    var part := fs[i..i + 5];
    assert part[0] == fs[i] && part[1] == fs[i + 1] && part[2] == fs[i + 2] && part[3] == fs[i + 3] && part[4] == fs[i + 4];
    StrCut(fs, i, k, c.wifiSsid, SSID_MAX);
    StrCut(fs, i + 1, k, c.wifiPassword, PASSWORD_MAX);
    StrCut(fs, i + 2, k, c.frameServer, SERVER_MAX);
    StrCut(fs, i + 3, k, c.frameName, NAME_MAX);
    StrCut(fs, i + 4, k, c.frameLastModified, STAMP_MAX);
  }

  lemma StringsCut(fs: seq<seq<byte>>, k: nat, c: Config)
    requires c.FieldsAreWf() && k <= |fs| && 5 <= |fs|
    requires fs[0..5] == StringFields(c)
    ensures ReadStrings(Span(fs, 0, k)) == (StringsUpTo(c, k), Span(fs, 5, k))
  {
    StringsCutFrom(fs, 0, k, c);
  }

  lemma SettingsCut(fs: seq<seq<byte>>, k: nat, c: Config)
    requires c.FieldsAreWf() && k <= |fs| && 12 <= |fs|
    requires fs[5..12] == SettingFields(c)
    ensures ReadSettings(Span(fs, 5, k)) == (SettingsUpTo(c, k), Span(fs, 12, k))
  {
    assert forall i :: 0 <= i < 7 ==> fs[5 + i] == fs[5..12][i];
    U8Cut(fs, 5, k, c.frameSlot);
    U16Cut(fs, 6, k, c.pollSecs);
    U8Cut(fs, 7, k, c.powerMode);
    U8Cut(fs, 8, k, c.sound);
    U16Cut(fs, 9, k, c.alarmMin);
    U8Cut(fs, 10, k, c.alarmOn);
    U8Cut(fs, 11, k, c.alarmTone);
  }

  lemma PetFieldFacts(fs: seq<seq<byte>>, p: Pet)
    requires 24 <= |fs| && fs[12..24] == PetFields(p)
    ensures fs[12] == [p.energy]
    ensures fs[13] == Le16(p.adventures)
    ensures fs[14] == Le16(p.goalsTotal)
    ensures fs[15] == Le16(p.day)
    ensures fs[16] == [p.doneToday]
    ensures fs[17] == [p.checkin]
    ensures fs[18] == p.history
    ensures fs[19] == p.goalHist
    ensures fs[20] == [p.flags]
    ensures fs[21] == [p.outfit]
    ensures fs[22] == Le32(p.born)
    ensures fs[23] == Le32(p.seen)
  {
    assert forall i :: 0 <= i < 12 ==> fs[12 + i] == fs[12..24][i];
  }

  /** A pet cut short is no pet, and nothing after it is there either. */
  lemma PetCut(fs: seq<seq<byte>>, k: nat, c: Config)
    requires c.FieldsAreWf() && k <= |fs| && 24 <= |fs|
    requires fs[12..24] == PetFields(c.pet)
    ensures ReadPet(Span(fs, 12, k)) == (PetUpTo(c, k), Span(fs, 24, k))
  {
    PetFieldFacts(fs, c.pet);
    U8Cut(fs, 12, k, c.pet.energy);
    U16Cut(fs, 13, k, c.pet.adventures);
    U16Cut(fs, 14, k, c.pet.goalsTotal);
    U16Cut(fs, 15, k, c.pet.day);
    U8Cut(fs, 16, k, c.pet.doneToday);
    U8Cut(fs, 17, k, c.pet.checkin);
    SevenCut(fs, 18, k, c.pet.history);
    SevenCut(fs, 19, k, c.pet.goalHist);
    U8Cut(fs, 20, k, c.pet.flags);
    U8Cut(fs, 21, k, c.pet.outfit);
    U32Cut(fs, 22, k, c.pet.born);
    U32Cut(fs, 23, k, c.pet.seen);
  }

  lemma NamesCut(fs: seq<seq<byte>>, k: nat, c: Config)
    requires c.FieldsAreWf() && k <= |fs| && 29 <= |fs|
    requires fs[24..29] == NameFields(c)
    ensures ReadNames(Span(fs, 24, k)) == (NamesUpTo(c, k), Span(fs, 29, k))
  {
    assert forall i :: 0 <= i < 5 ==> fs[24 + i] == fs[24..29][i];
    StrCut(fs, 24, k, c.goalNames[0], GOAL_NAME_MAX);
    StrCut(fs, 25, k, c.goalNames[1], GOAL_NAME_MAX);
    StrCut(fs, 26, k, c.goalNames[2], GOAL_NAME_MAX);
    StrCut(fs, 27, k, c.goalNames[3], GOAL_NAME_MAX);
    StrCut(fs, 28, k, c.goalNames[4], GOAL_NAME_MAX);
  }

  lemma TrailerFieldFacts(fs: seq<seq<byte>>, c: Config)
    requires 35 <= |fs| && fs[29..35] == TrailerFields(c)
    ensures fs[29] == Le32(c.goalsStamp) && fs[30] == Le16(c.snakeBest) && fs[31] == StrBytes(c.deviceKey)
    ensures fs[32] == StrBytes(c.prevServer) && fs[33] == StrBytes(c.prevName) && fs[34] == Le32(c.serverTrialUntil)
  {
    assert forall i :: 0 <= i < 6 ==> fs[29 + i] == fs[29..35][i];
  }

  lemma TrailerCut(fs: seq<seq<byte>>, k: nat, c: Config)
    requires c.FieldsAreWf() && k <= |fs| && 35 <= |fs|
    requires fs[29..35] == TrailerFields(c)
    ensures ReadTrailer(Span(fs, 29, k)) == (TrailerUpTo(c, k), Span(fs, 35, k))
  {
    TrailerFieldFacts(fs, c);
    U32Cut(fs, 29, k, c.goalsStamp);
    U16Cut(fs, 30, k, c.snakeBest);
    StrCut(fs, 31, k, c.deviceKey, KEY_MAX);
    StrCut(fs, 32, k, c.prevServer, SERVER_MAX);
    StrCut(fs, 33, k, c.prevName, NAME_MAX);
    U32Cut(fs, 34, k, c.serverTrialUntil);
  }

  lemma Stage1(c: Config, k: nat)
    requires c.FieldsAreWf() && k <= 35
    ensures ReadGroups(1, Span(Fields(c), 0, k))
         == (WithStrings(ABSENT, StringsUpTo(c, k)), Span(Fields(c), 5, k))
  {
    assert Fields(c)[0..5] == StringFields(c);
    StringsCut(Fields(c), k, c);
  }

  lemma Stage2(c: Config, k: nat)
    requires c.FieldsAreWf() && k <= 35
    ensures ReadGroups(2, Span(Fields(c), 0, k))
         == (WithSettings(WithStrings(ABSENT, StringsUpTo(c, k)), SettingsUpTo(c, k)), Span(Fields(c), 12, k))
  {
    Stage1(c, k);
    assert Fields(c)[5..12] == SettingFields(c);
    SettingsCut(Fields(c), k, c);
  }

  lemma Stage3(c: Config, k: nat)
    requires c.FieldsAreWf() && k <= 35
    ensures ReadGroups(3, Span(Fields(c), 0, k))
         == (WithPet(WithSettings(WithStrings(ABSENT, StringsUpTo(c, k)), SettingsUpTo(c, k)), PetUpTo(c, k)), Span(Fields(c), 24, k))
  {
    Stage2(c, k);
    assert Fields(c)[12..24] == PetFields(c.pet);
    PetCut(Fields(c), k, c);
  }

  lemma Stage4(c: Config, k: nat)
    requires c.FieldsAreWf() && k <= 35
    ensures ReadGroups(4, Span(Fields(c), 0, k))
         == (WithPet(WithSettings(WithStrings(ABSENT, StringsUpTo(c, k)), SettingsUpTo(c, k)), PetUpTo(c, k)).(goalNames := NamesUpTo(c, k)), Span(Fields(c), 29, k))
  {
    Stage3(c, k);
    assert Fields(c)[24..29] == NameFields(c);
    NamesCut(Fields(c), k, c);
  }

  lemma Stage5(c: Config, k: nat)
    requires c.FieldsAreWf() && k <= 35
    ensures ReadGroups(5, Span(Fields(c), 0, k))
         == (Truncated(c, k), Span(Fields(c), 35, k))
  {
    Stage4(c, k);
    assert Fields(c)[29..35] == TrailerFields(c);
    TrailerCut(Fields(c), k, c);
  }

  /** A payload cut after its first `k` fields decodes to those fields and defaults. */
  lemma PayloadCut(c: Config, k: nat)
    requires c.FieldsAreWf() && k <= 35
    ensures ParsePayload(Span(Fields(c), 0, k)) == Truncated(c, k)
  {
    Stage5(c, k);
  }

  // --- the payload as the list of its fields -------------------------------

  /** All of `fs`, one after another. */
  function Flat(fs: seq<seq<byte>>): seq<byte> {
    Span(fs, 0, |fs|)
  }

  lemma {:induction false} SpanOfSlice(fs: seq<seq<byte>>, a: nat, b: nat, g: seq<seq<byte>>, i: nat)
    requires a <= b <= |fs| && i <= |g| == b - a
    requires forall j :: 0 <= j < |g| ==> g[j] == fs[a + j]
    ensures Span(g, i, |g|) == Span(fs, a + i, b)
    decreases |g| - i
  {
    if i < |g| {
      SpanOfSlice(fs, a, b, g, i + 1);
    }
  }

  lemma {:induction false} SpanSplit(fs: seq<seq<byte>>, i: nat, m: nat, k: nat)
    requires i <= m <= k <= |fs|
    ensures Span(fs, i, k) == Span(fs, i, m) + Span(fs, m, k)
    decreases m - i
  {
    if i < m {
      SpanSplit(fs, i + 1, m, k);
    }
  }

  lemma SpanExtend(fs: seq<seq<byte>>, k: nat)
    requires k < |fs|
    ensures Span(fs, 0, k + 1) == Span(fs, 0, k) + fs[k]
  {
    SpanSplit(fs, 0, k, k + 1);
    assert Span(fs, k + 1, k + 1) == [];
  }

  lemma StringsFlat(c: Config)
    ensures Flat(StringFields(c)) == Strings(c)
  {
    var fs := StringFields(c);
    assert Span(fs, 1, 1) == [];
    assert Span(fs, 0, 1) == fs[0];
    SpanExtend(fs, 1);
    SpanExtend(fs, 2);
    SpanExtend(fs, 3);
    SpanExtend(fs, 4);
  }

  lemma SettingsFlat(c: Config)
    ensures Flat(SettingFields(c)) == Settings(c)
  {
    var fs := SettingFields(c);
    assert Span(fs, 1, 1) == [];
    assert Span(fs, 0, 1) == fs[0];
    SpanExtend(fs, 1);
    SpanExtend(fs, 2);
    SpanExtend(fs, 3);
    SpanExtend(fs, 4);
    SpanExtend(fs, 5);
    SpanExtend(fs, 6);
  }

  lemma PetFlat(p: Pet)
    ensures Flat(PetFields(p)) == PetBytes(p)
  {
    var fs := PetFields(p);
    assert Span(fs, 1, 1) == [];
    assert Span(fs, 0, 1) == fs[0];
    SpanExtend(fs, 1);
    SpanExtend(fs, 2);
    SpanExtend(fs, 3);
    SpanExtend(fs, 4);
    SpanExtend(fs, 5);
    SpanExtend(fs, 6);
    SpanExtend(fs, 7);
    SpanExtend(fs, 8);
    SpanExtend(fs, 9);
    SpanExtend(fs, 10);
    SpanExtend(fs, 11);
    var day, hist := Span(fs, 0, 4), Span(fs, 0, 8);
    assert day + [p.doneToday] + [p.checkin] == day + [p.doneToday, p.checkin];
    assert hist + [p.flags] + [p.outfit] == hist + [p.flags, p.outfit];
  }

  lemma NamesFlat(c: Config)
    requires |c.goalNames| == 5
    ensures Flat(NameFields(c)) == Names(c.goalNames)
  {
    var fs, names := NameFields(c), c.goalNames;
    for n := 0 to 5
      invariant Span(fs, 0, n) == Names(names[..n])
    {
      SpanExtend(fs, n);
      assert names[..n + 1][..n] == names[..n];
    }
    assert names[..5] == names;
  }

  lemma TrailerFlat(c: Config)
    ensures Flat(TrailerFields(c)) == Tail(c)
  {
    var fs := TrailerFields(c);
    assert Span(fs, 1, 1) == [];
    assert Span(fs, 0, 1) == fs[0];
    SpanExtend(fs, 1);
    SpanExtend(fs, 2);
    SpanExtend(fs, 3);
    SpanExtend(fs, 4);
    SpanExtend(fs, 5);
  }

  lemma GroupFlat(fs: seq<seq<byte>>, a: nat, b: nat, g: seq<seq<byte>>)
    requires a <= b <= |fs| && fs[a..b] == g
    ensures Span(fs, a, b) == Flat(g)
  {
    SpanOfSlice(fs, a, b, g, 0);
  }

  /** The payload is its fields, one after another. */
  lemma PayloadIsFields(c: Config)
    requires c.Wf()
    ensures Payload(c) == Span(Fields(c), 0, 35)
  {
    WfIs(c);
    var fs := Fields(c);
    PayloadIsGroups(c);
    StringsFlat(c);
    SettingsFlat(c);
    PetFlat(c.pet);
    NamesFlat(c);
    TrailerFlat(c);
    GroupFlat(fs, 0, 5, StringFields(c));
    GroupFlat(fs, 5, 12, SettingFields(c));
    GroupFlat(fs, 12, 24, PetFields(c.pet));
    GroupFlat(fs, 24, 29, NameFields(c));
    GroupFlat(fs, 29, 35, TrailerFields(c));
    SpanSplit(fs, 0, 5, 12);
    SpanSplit(fs, 0, 12, 24);
    SpanSplit(fs, 0, 24, 29);
    SpanSplit(fs, 0, 29, 35);
  }

  lemma SpanGrows(fs: seq<seq<byte>>, k: nat, m: nat)
    requires k <= m <= |fs|
    ensures |Span(fs, 0, k)| <= |Span(fs, 0, m)|
  {
    SpanSplit(fs, 0, k, m);
  }

  // --- the promises --------------------------------------------------------

  lemma HeaderFields(len: u16, sequence: u32, rest: seq<byte>)
    ensures var buf := Header(len, sequence) + rest;
            buf[..4] == MAGIC && FromLe16(buf[4..6]) == VERSION && LengthField(buf) == len && FromLe32(buf[8..12]) == sequence
  {
    var buf := Header(len, sequence) + rest;
    Le16RoundTrip(VERSION);
    Le16RoundTrip(len);
    Le32RoundTrip(sequence);
    assert buf[4..6] == Le16(VERSION);
    assert buf[6..8] == Le16(len);
    assert buf[8..12] == Le32(sequence);
  }

  lemma SealedCrc(body: seq<byte>, after: seq<byte>)
    ensures CrcOk(body + Crc32.CrcBytes(Crc32.Crc(body)) + after, |body| + CRC_LEN)
  {
    var crc := Crc32.CrcBytes(Crc32.Crc(body));
    var buf := body + crc + after;
    Crc32.CrcBytesRoundTrip(Crc32.Crc(body));
    assert buf[..|body|] == body;
    assert buf[|body|..|body| + CRC_LEN] == crc;
  }

  /** A sealed payload is accepted whatever follows it, and its payload and number come back. */
  lemma SealedAccepted(sequence: u32, payload: seq<byte>, after: seq<byte>)
    requires |payload| <= RECORD_LEN - HEADER_LEN - CRC_LEN
    ensures var buf := Sealed(sequence, payload) + after;
            Accepted(buf) && PayloadOf(buf) == payload && FromLe32(buf[8..12]) == sequence
  {
    var len := HEADER_LEN + |payload| + CRC_LEN;
    var h := Header(len, sequence);
    var crc := Crc32.CrcBytes(Crc32.Crc(h + payload));
    var buf := Sealed(sequence, payload) + after;
    HeaderFields(len, sequence, payload + crc + after);
    assert buf == h + (payload + crc + after);
    SealedCrc(h + payload, after);
    assert PayloadOf(buf) == payload;
  }

  /**
   A record cut at any field boundary, with its length and CRC redone, decodes
   to the fields before the cut and to defaults after it.
   */
  lemma OlderRecordsDecode(c: Config, sequence: u32, k: nat, after: seq<byte>)
    requires c.Wf() && k <= 35
    ensures |Span(Fields(c), 0, k)| <= RECORD_LEN - HEADER_LEN - CRC_LEN
    ensures Parse(Sealed(sequence, Span(Fields(c), 0, k)) + after) == Some((Truncated(c, k), sequence))
  {
    WfIs(c);
    PayloadIsFields(c);
    PayloadLength(c);
    SpanGrows(Fields(c), k, 35);
    SealedAccepted(sequence, Span(Fields(c), 0, k), after);
    ParseIs(Sealed(sequence, Span(Fields(c), 0, k)) + after);
    PayloadCut(c, k);
  }

  /** What later firmware added is as a new device has it. */
  predicate NewerFieldsAreNew(d: Config) {
    && d.powerMode == 0 && d.sound == 8
    && d.alarmMin == 420 && d.alarmOn == 0 && d.alarmTone == 0
    && d.pet.energy == 0 && d.pet.adventures == 0 && d.pet.goalsTotal == 0 && d.pet.day == 0 && d.pet.doneToday == 0 && d.pet.checkin == 0
    && d.pet.history == [0, 0, 0, 0, 0, 0, 0] && d.pet.goalHist == [0, 0, 0, 0, 0, 0, 0]
    && d.pet.flags == 0 && d.pet.outfit == 0 && d.pet.born == 0 && d.pet.seen == 0
    && |d.goalNames| == 5 && (forall i :: 0 <= i < 5 ==> d.goalNames[i].len == 0)
    && d.goalsStamp == 0 && d.snakeBest == 0
    && d.deviceKey.len == 0 && d.prevServer.len == 0 && d.prevName.len == 0 && d.serverTrialUntil == 0
  }

  /**
   In numbers: a record of the first firmware, whose last field is the poll interval,
   decodes to its own fields, with the sound at 8, the alarm off at seven in the morning,
   and everything else at zero or empty; and without that field, with an interval of 15 seconds.
   */
  lemma FirstFirmware(c: Config, sequence: u32, k: nat, after: seq<byte>) returns (d: Config)
    requires c.Wf() && k <= 7
    ensures |Span(Fields(c), 0, k)| <= RECORD_LEN - HEADER_LEN - CRC_LEN
    ensures Parse(Sealed(sequence, Span(Fields(c), 0, k)) + after) == Some((d, sequence)) && NewerFieldsAreNew(d)
    ensures d.pollSecs == (if k == 7 then c.pollSecs else 15) && d.frameSlot == (if k >= 6 then c.frameSlot else 0)
    ensures d.wifiSsid.len == (if k >= 1 then c.wifiSsid.len else 0) && d.wifiPassword.len == (if k >= 2 then c.wifiPassword.len else 0)
    ensures d.frameServer.len == (if k >= 3 then c.frameServer.len else 0) && d.frameName.len == (if k >= 4 then c.frameName.len else 0)
    ensures d.frameLastModified.len == (if k >= 5 then c.frameLastModified.len else 0)
    ensures k == 7 ==> d.wifiSsid == c.wifiSsid && d.wifiPassword == c.wifiPassword && d.frameServer == c.frameServer
                       && d.frameName == c.frameName && d.frameLastModified == c.frameLastModified
  {
    OlderRecordsDecode(c, sequence, k, after);
    d := Truncated(c, k);
    NothingNewer(c, k);
  }

  lemma NothingNewer(c: Config, k: nat)
    requires |c.goalNames| == 5 && k <= 7
    ensures NewerFieldsAreNew(Truncated(c, k))
  {
    var names := NamesUpTo(c, k);
    forall i | 0 <= i < 5
      ensures names[i].len == 0
    {}
  }

  lemma Digits(x: u32)
    ensures x % 0x1_0000 % 0x100 == x % 0x100 && x % 0x1_0000 / 0x100 == x / 0x100 % 0x100
    ensures x / 0x1_0000 / 0x100 == x / 0x100_0000
  {}

  lemma DigitsOf(x: u32)
    ensures Le32(x) == [x % 0x100, x / 0x100 % 0x100, x / 0x1_0000 % 0x100, x / 0x100_0000]
  {
    Digits(x);
  }

  lemma HeaderBytes(sequence: u32)
    ensures Header(574, sequence) ==
      [0x53, 0x50, 0x43, 0x46, 1, 0, 0x3E, 0x02, sequence % 0x100, sequence / 0x100 % 0x100, sequence / 0x1_0000 % 0x100, sequence / 0x100_0000]
  {
    DigitsOf(sequence);
    assert Le16(VERSION) == [1, 0] && Le16(574) == [0x3E, 0x02];
  }

  /** A record begins with "SPCF", version 1, its length of 574 bytes, and the number, lowest byte first. */
  lemma RecordBegins(c: Config, sequence: u32)
    requires c.Wf()
    ensures |RecordBytes(c, sequence)| == 574 && RecordBytes(c, sequence)[..12] ==
      [0x53, 0x50, 0x43, 0x46, 1, 0, 0x3E, 0x02, sequence % 0x100, sequence / 0x100 % 0x100, sequence / 0x1_0000 % 0x100, sequence / 0x100_0000]
  {
    RecordIsSealed(c, sequence);
    HeaderBytes(sequence);
    SealedBegins(sequence, Span(Fields(c), 0, 35));
    PayloadIsFields(c);
    WfIs(c);
    PayloadLength(c);
  }

  lemma SealedBegins(sequence: u32, payload: seq<byte>)
    requires |payload| <= 0x8000
    ensures Sealed(sequence, payload)[..12] == Header(HEADER_LEN + |payload| + CRC_LEN, sequence)
  {}

  /**
   What is accepted: "SPCF", version 1, a length from 16 to 574 that the buffer has, and the
   CRC of everything before it in the last four of these bytes. The number follows the length.
   */
  lemma ParsesIff(buf: seq<byte>)
    ensures Parse(buf).Some? <==> |buf| >= 16 && buf[..6] == [0x53, 0x50, 0x43, 0x46, 1, 0] && EndsInCrc(buf, NumberAt(buf, 6) % 0x1_0000)
    ensures Parse(buf).Some? ==> Parse(buf).value.1 == NumberAt(buf, 8)
  {
    ParseIs(buf);
    HeaderOkIff(buf);
    if |buf| >= 16 {
      WordIsNumber(buf, 8);
    }
  }

  lemma HeaderOkIff(buf: seq<byte>)
    ensures HeaderOk(buf) ==> |buf| >= 16
    ensures |buf| >= 16 ==> LengthField(buf) == NumberAt(buf, 6) % 0x1_0000
    ensures |buf| >= 16 ==>
      (HeaderOk(buf) <==> buf[..6] == [0x53, 0x50, 0x43, 0x46, 1, 0] && 16 <= LengthField(buf) <= 574 && LengthField(buf) <= |buf|)
  {
    if |buf| >= 16 {
      assert buf[..6] == buf[..4] + buf[4..6];
      assert FromLe16(buf[4..6]) == 1 <==> buf[4..6] == [1, 0];
    }
  }

  predicate EndsInCrc(buf: seq<byte>, len: int) {
    16 <= len <= 574 && len <= |buf| && Crc32.WordAt(buf[len - 4..len]) == Crc32.Crc(buf[..len - 4])
  }

  lemma NothingCut(c: Config)
    requires c.Wf()
    ensures Truncated(c, 35) == c
  {
    assert NamesUpTo(c, 35) == c.goalNames;
  }

  lemma RecordIsSealed(c: Config, sequence: u32)
    requires c.Wf()
    ensures |Span(Fields(c), 0, 35)| <= RECORD_LEN - HEADER_LEN - CRC_LEN
    ensures RecordBytes(c, sequence) == Sealed(sequence, Span(Fields(c), 0, 35))
  {
    WfIs(c);
    PayloadIsFields(c);
    PayloadLength(c);
  }

  /** Encoding and decoding again gives back the config and the number. */
  lemma RoundTrip(c: Config, sequence: u32, after: seq<byte>)
    requires c.Wf()
    ensures Parse(RecordBytes(c, sequence) + after) == Some((c, sequence))
  {
    NothingCut(c);
    RecordIsSealed(c, sequence);
    OlderRecordsDecode(c, sequence, 35, after);
  }

  // --- corruption ----------------------------------------------------------

  /** A record's CRC checks out exactly when its bytes, CRC included, leave the residue. */
  lemma CrcOkIffResidue(buf: seq<byte>, len: nat)
    requires CRC_LEN <= len <= |buf|
    ensures CrcOk(buf, len) <==> Crc32.Register(Crc32.INIT, buf[..len]) == CrcAlgebra.RESIDUE
  {
    assert buf[..len - CRC_LEN] + buf[len - CRC_LEN..len] == buf[..len];
    Crc32.ResidueIff(buf[..len - CRC_LEN], buf[len - CRC_LEN..len]);
  }

  lemma SameRegister(a: seq<byte>, b: seq<byte>, len: nat)
    requires CRC_LEN <= len <= |a| && len <= |b|
    requires CrcOk(a, len) && CrcOk(b, len)
    ensures Crc32.Register(Crc32.INIT, a[..len]) == Crc32.Register(Crc32.INIT, b[..len])
  {
    CrcOkIffResidue(a, len);
    CrcOkIffResidue(b, len);
  }

  lemma WindowOfPrefix(a: seq<byte>, b: seq<byte>, len: nat, at: nat)
    requires Folds.DifferInWindow(a, b, at) && len <= |a|
    ensures Folds.DifferInWindow(a[..len], b[..len], at)
  {}

  lemma CrcOkAfterBurst(a: seq<byte>, b: seq<byte>, len: nat, at: nat)
    requires CRC_LEN <= len <= |a|
    requires Folds.DifferInWindow(a, b, at)
    requires CrcOk(a, len) && CrcOk(b, len)
    ensures a[..len] == b[..len]
  {
    SameRegister(a, b, len);
    WindowOfPrefix(a, b, len, at);
    Crc32.BurstChangesRegister(Crc32.INIT, a[..len], b[..len], at);
  }

  /**
   Whatever happens to four consecutive bytes of an accepted record, the CRC's
   own bytes included, the result is rejected, provided the length field is
   untouched and some byte within that length changed.
   */
  lemma BurstRejected(a: seq<byte>, b: seq<byte>, at: nat)
    requires Accepted(a)
    requires Folds.DifferInWindow(a, b, at)
    requires a[6..8] == b[6..8]
    requires a[..LengthField(a)] != b[..LengthField(a)]
    ensures Parse(b) == None
  {
    ParseIs(b);
    if Accepted(b) {
      CrcOkAfterBurst(a, b, LengthField(a), at);
    }
  }
}
