/** The app-facing storage API, and its promises for the config record. */
module Storage {
  import opened Bytes
  import opened Wrappers
  import opened Flash
  import opened Cells
  import opened ConfigStore
  import opened Record
  import opened Decoding
  import opened StorageRuns
  import Blob
  import Folds
  import RecordLaws

  // --- the config record as a codec ----------------------------------------

  function ConfigPage(cfg: Config, sequence: u32): seq<byte> {
    if cfg.Wf() then PageOf(cfg, sequence) else Repeat(0xFF, PADDED_LEN)
  }

  function ConfigCodec(): Codec<Config> {
    Codec(Parse, ConfigPage, (cfg: Config) => cfg.Wf())
  }

  /** The record format meets the three laws the atomicity theorem needs. */
  lemma ConfigCodecIsLawful()
    ensures Lawful(ConfigCodec())
  {
    var codec := ConfigCodec();
    forall c: Config, q: u32 | codec.good(c)
      ensures |codec.page(c, q)| == PADDED_LEN && codec.read(codec.page(c, q)[..RECORD_LEN]) == Some((c, q))
    {
      RoundTripPage(c, q);
    }
    forall b: seq<byte> | |b| == RECORD_LEN && b[0] == 0xFF
      ensures codec.read(b) == None
    {
      ErasedReadsEmpty(b);
    }
    forall b: seq<byte> | codec.read(b).Some?
      ensures codec.good(codec.read(b).value.0)
    {
      ParseIs(b);
    }
  }

  /** What `Load` finds is what the atomicity theorem speaks about. */
  lemma NewestIsLoaded(m: Mem)
    ensures Newest(m) == Loaded(Reads(ConfigCodec(), m))
  {}

  lemma WindowOfSector(m: Mem, left: Mem, i: nat, at: nat)
    requires i < CONFIG_SECTORS
    requires Folds.DifferInWindow(m, left, SectorOffset(i) + at)
    ensures Folds.DifferInWindow(SectorBytes(m, i), SectorBytes(left, i), at)
  {
    forall j | 0 <= j < RECORD_LEN && SectorBytes(m, i)[j] != SectorBytes(left, i)[j]
      ensures at <= j < at + 4
    {
      assert m[SectorOffset(i) + j] != left[SectorOffset(i) + j];
    }
  }

  /** Bytes that differ from a record in at most four consecutive places, none of them in the length field, read as that record or as nothing. */
  lemma SmallDifference(a: seq<byte>, b: seq<byte>, at: nat)
    requires Parse(a).Some? && Folds.DifferInWindow(a, b, at) && |a| >= 8
    requires a[6..8] == b[6..8]
    ensures Parse(b) == None || Parse(b) == Parse(a)
  {
    ParseIs(a);
    var len := LengthField(a);
    if a[..len] == b[..len] {
      SamePrefixSameRecord(a, b);
    } else {
      RecordLaws.BurstRejected(a, b, at);
    }
  }

  /**
   The assumption about torn sectors is a theorem while the sector still differs
   in no more than four consecutive bytes, the length field spared, from the
   record it held: it reads as it did before, or not at all.
   */
  lemma SmallTearsAreDetected(m: Mem, left: Mem, next: Config, sequence: u32, at: nat)
    requires Folds.DifferInWindow(m, left, SectorOffset(Home(sequence)) + at)
    requires SectorBytes(m, Home(sequence))[6..8] == SectorBytes(left, Home(sequence))[6..8]
    requires SectorRecord(m, Home(sequence)).Some?
    ensures TornDetected(ConfigCodec(), m, left, next, sequence)
  {
    WindowOfSector(m, left, Home(sequence), at);
    SmallDifference(SectorBytes(m, Home(sequence)), SectorBytes(left, Home(sequence)), at);
  }

  /** And as soon as it differs no more than that from the new record: it reads as the new record, or not at all. */
  lemma SmallGapsAreDetected(m: Mem, left: Mem, next: Config, sequence: u32, at: nat)
    requires next.Wf()
    requires Folds.DifferInWindow(RecordBytes(next, sequence), SectorBytes(left, Home(sequence)), at)
    requires RecordBytes(next, sequence)[6..8] == SectorBytes(left, Home(sequence))[6..8]
    ensures TornDetected(ConfigCodec(), m, left, next, sequence)
  {
    RecordLaws.RoundTrip(next, sequence, []);
    assert RecordBytes(next, sequence) + [] == RecordBytes(next, sequence);
    SmallDifference(RecordBytes(next, sequence), SectorBytes(left, Home(sequence)), at);
  }

  lemma OneBitBetween()
    ensures Between(0x52, 0x53, 0xFF)
  {
    BetweenIs(0x52, 0x53, 0xFF);
    ByteThroughBv(0x52);
    ByteThroughBv(0x53);
    ByteThroughBv(0xFF);
  }

  /**
   Where the assumption is one: in a sector that holds no record because one bit
   of it is wrong, an erase caught after setting that bit wakes a third record.
   */
  lemma AnUnreadableRecordMayWake(m: Mem, i: nat, c: Config, sequence: u32)
    requires i < CONFIG_SECTORS && c.Wf()
    requires SectorBytes(m, i) == RecordBytes(c, sequence)[0 := 0x52]
    ensures var left := m[SectorOffset(i) := 0x53];
            && Erase(SectorOffset(i), SectorOffset(i) + SECTOR).Torn(m, left)
            && SectorRecord(m, i) == None
            && SectorRecord(left, i) == Some((c, sequence))
  {
    var left := m[SectorOffset(i) := 0x53];
    var record := RecordBytes(c, sequence);
    ReadsAndBegins(c, sequence);
    assert SectorBytes(left, i) == record;
    FirstByteWrong(SectorBytes(m, i));
    assert m[SectorOffset(i)] == SectorBytes(m, i)[0];
    TornAtFirst(m, i);
  }

  lemma ReadsAndBegins(c: Config, sequence: u32)
    requires c.Wf()
    ensures Parse(RecordBytes(c, sequence)) == Some((c, sequence)) && RecordBytes(c, sequence)[0] == 0x53
  {
    var record := RecordBytes(c, sequence);
    RecordLaws.RoundTrip(c, sequence, []);
    assert record + [] == record;
    ParseIs(record);
    assert record[..4][0] == MAGIC[0] == 0x53;
  }

  lemma FirstByteWrong(buf: seq<byte>)
    requires |buf| >= 8 && buf[0] != 0x53
    ensures Parse(buf) == None
  {
    ParseIs(buf);
    assert buf[..4][0] == buf[0];
  }

  lemma TornAtFirst(m: Mem, i: nat)
    requires i < CONFIG_SECTORS && m[SectorOffset(i)] == 0x52
    ensures Erase(SectorOffset(i), SectorOffset(i) + SECTOR).Torn(m, m[SectorOffset(i) := 0x53])
  {
    var op, left := Erase(SectorOffset(i), SectorOffset(i) + SECTOR), m[SectorOffset(i) := 0x53];
    Unchanged(op, m);
    OneBitBetween();
    forall j | 0 <= j < FLASH_SIZE && op.Touches(j)
      ensures Between(m[j], left[j], op.Applied(m)[j])
    {
      assert Between(m[j], m[j], op.Applied(m)[j]);
    }
  }

  lemma SliceOfPrefix(a: seq<byte>, b: seq<byte>, len: nat, from: nat, to: nat)
    requires from <= to <= len <= |a| && |a| == |b|
    requires a[..len] == b[..len]
    ensures a[from..to] == b[from..to]
  {
    assert a[..len][from..to] == a[from..to];
    assert b[..len][from..to] == b[from..to];
  }

  lemma SamePrefixAccepted(a: seq<byte>, b: seq<byte>)
    requires Accepted(a) && |a| == |b|
    requires a[..LengthField(a)] == b[..LengthField(a)]
    ensures Accepted(b)
  {
    var len := LengthField(a);
    SliceOfPrefix(a, b, len, 0, 4);
    SliceOfPrefix(a, b, len, 4, 6);
    SliceOfPrefix(a, b, len, 6, 8);
    SliceOfPrefix(a, b, len, 0, len - CRC_LEN);
    SliceOfPrefix(a, b, len, len - CRC_LEN, len);
  }

  lemma SamePrefixParts(a: seq<byte>, b: seq<byte>)
    requires Accepted(a) && Accepted(b) && |a| == |b|
    requires a[..LengthField(a)] == b[..LengthField(a)]
    ensures PayloadOf(a) == PayloadOf(b) && a[8..12] == b[8..12]
  {
    var len := LengthField(a);
    SliceOfPrefix(a, b, len, 6, 8);
    SliceOfPrefix(a, b, len, 8, 12);
    SliceOfPrefix(a, b, len, HEADER_LEN, len - CRC_LEN);
  }

  /** A record depends on the bytes within its length only. */
  lemma SamePrefixSameRecord(a: seq<byte>, b: seq<byte>)
    requires Accepted(a) && |a| == |b|
    requires a[..LengthField(a)] == b[..LengthField(a)]
    ensures Parse(a) == Parse(b)
  {
    SamePrefixAccepted(a, b);
    SamePrefixParts(a, b);
    ParseIs(a);
    ParseIs(b);
  }

  // --- the API -------------------------------------------------------------

  /** What became of an update of the config to `next`: completed, or refused. */
  ghost predicate Written(r: Result<(), StorageError>, d: Device<Config>, next: Config, d': Device<Config>) {
    if r.Ok? then Moves(ConfigCodec(), d, Completed(next), d') else Refuses(ConfigCodec(), d, next, d')
  }

  class Storage {
    const flash: Nor
    const defaults: Config
    var config: Config
    var sequence: u32
    /** Whether `config` has been stored, and what was begun since without success. */
    ghost var stored: bool
    ghost var attempts: set<Config>

    ghost predicate Valid()
      reads this, flash
    {
      flash.Valid() && config.Wf() && defaults.Wf()
    }

    ghost function View(): Device<Config>
      requires Valid()
      reads this, flash, flash.mem
    {
      Device(flash.Image(), config, sequence, defaults, stored, attempts)
    }

    /** The config in flash, or `defaults` if there is none. */
    constructor (flash: Nor, defaults: Config)
      requires flash.Valid() && defaults.Wf()
      ensures Valid() && this.flash == flash && this.defaults == defaults
      ensures View() == Boot(ConfigCodec(), flash.Image(), defaults)
    {
      var loaded := Load(flash);
      NewestIsLoaded(flash.Image());
      ConfigCodecIsLawful();
      this.flash := flash;
      this.defaults := defaults;
      this.config := if loaded.Some? then loaded.value.0 else defaults;
      this.sequence := if loaded.Some? then loaded.value.1 else 0;
      this.stored := loaded.Some?;
      this.attempts := {};
    }

    /**
     Changes the config and persists it; unchanged configs are not rewritten.
     Success is one `Completed` step. After a driver error the config in RAM
     stays, and the flash is one a cut could have left: a `Failed` step.
     */
    method UpdateConfig(f: Config -> Config) returns (r: Result<(), StorageError>)
      requires Valid() && f(config).Wf()
      modifies this, flash, flash.mem
      ensures Valid()
      ensures config == if r.Ok? then f(old(config)) else old(config)
      ensures flash.failures == old(flash.failures) + if r.Err? then 1 else 0
      ensures Written(r, old(View()), f(old(config)), View()) && (r.Err? ==> r.error == FlashFailed)
      ensures forall i :: 0 <= i < CONFIG_START ==> flash.mem[i] == old(flash.mem[i])
    {
      var next := f(config);
      ghost var d := View();
      if next == config {
        UnchangedIsStep(d, next);
        return Ok(());
      }
      r := Persist(next);
    }

    /** Stores a changed config under the next number. */
    method Persist(next: Config) returns (r: Result<(), StorageError>)
      requires Valid() && next.Wf() && next != config
      modifies this, flash, flash.mem
      ensures Valid()
      ensures config == if r.Ok? then next else old(config)
      ensures flash.failures == old(flash.failures) + if r.Err? then 1 else 0
      ensures Written(r, old(View()), next, View()) && (r.Err? ==> r.error == FlashFailed)
      ensures forall i :: 0 <= i < CONFIG_START ==> flash.mem[i] == old(flash.mem[i])
    {
      ghost var d := View();
      var number := WrappingAdd(sequence, 1);
      r := StoreRecord(next, number);
      if r.Err? {
        attempts := attempts + {next};
        GivenUpIsStep(d, next, flash.Image());
        return;
      }
      config := next;
      sequence := number;
      stored, attempts := true, {};
      StoredIsStep(d, next, View());
    }

    method StoreRecord(next: Config, number: u32) returns (r: Result<(), StorageError>)
      requires flash.Valid() && next.Wf()
      modifies flash, flash.mem
      ensures flash.Valid()
      ensures r.Ok? ==> flash.Image() == Replay(old(flash.Image()), StoreOps(next, number))
      ensures r.Err? ==> r.error == FlashFailed && Interrupted(old(flash.Image()), StoreOps(next, number), flash.Image())
      ensures flash.failures == old(flash.failures) + if r.Err? then 1 else 0
      ensures forall i :: 0 <= i < CONFIG_START ==> flash.mem[i] == old(flash.mem[i])
    {
      ghost var before := flash.Image();
      r := ConfigStore.Store(flash, next, number);
      OnlyConfigSectors(before, PageOf(next, number), number, flash.Image(), r.Ok?);
      assert forall i :: 0 <= i < FLASH_SIZE ==> flash.mem[i] == flash.Image()[i] && old(flash.mem[i]) == before[i];
    }

    /**
     Every blob slot is emptied, then the built-in config stored; `erased` is the
     flash in between. If a slot could not be emptied, that is slot `at`.
     */
    method FactoryReset() returns (r: Result<(), StorageError>, ghost erased: Mem, ghost at: nat)
      requires Valid()
      modifies this, flash, flash.mem
      ensures Valid() && at <= Blob.BLOB_SLOTS
      ensures config == if r.Ok? then defaults else old(config)
      ensures flash.failures == old(flash.failures) + if r.Err? then 1 else 0
      ensures OnlyHeadersErased(old(flash.Image()), erased, at)
      ensures at < Blob.BLOB_SLOTS ==> r.Err? && View() == old(View()).(mem := erased)
      ensures at == Blob.BLOB_SLOTS ==> Written(r, old(View()).(mem := erased), defaults, View())
      ensures forall i :: 0 <= i < CONFIG_START ==> flash.Image()[i] == erased[i]
    {
      r, at := EraseBlobs();
      erased := flash.Image();
      if r.Err? {
        return;
      }
      r := UpdateConfig(_ => defaults);
      assert forall i :: 0 <= i < FLASH_SIZE ==> flash.mem[i] == flash.Image()[i];
    }

    /** Empties the slots in order, up to slot `at`; there it ends if the driver fails. */
    method EraseBlobs() returns (r: Result<(), StorageError>, ghost at: nat)
      requires flash.Valid()
      modifies flash, flash.mem
      ensures flash.Valid() && at <= Blob.BLOB_SLOTS
      ensures flash.failures == old(flash.failures) + if r.Err? then 1 else 0
      ensures r.Ok? <==> at == Blob.BLOB_SLOTS
      ensures OnlyHeadersErased(old(flash.Image()), flash.Image(), at)
    {
      ghost var before := flash.Image();
      at := 0;
      for slot := 0 to Blob.BLOB_SLOTS
        invariant flash.Valid() && flash.failures == old(flash.failures) && at == slot
        invariant OnlyHeadersErased(before, flash.Image(), slot) && (slot < Blob.BLOB_SLOTS ==> SameHeader(before, flash.Image(), slot))
      {
        ghost var image := flash.Image();
        r := Blob.EraseHeader(flash, slot);
        assert forall i :: 0 <= i < FLASH_SIZE && !(Blob.SlotBase(slot) <= i < Blob.DataStart(slot)) ==> flash.Image()[i] == image[i];
        OtherHeadersKept(before, image, flash.Image(), slot, r.Ok?);
        if r.Err? {
          return;
        }
        at := at + 1;
      }
      r := Ok(());
    }
  }

  ghost predicate SameHeader(m: Mem, left: Mem, slot: nat)
    requires slot < Blob.BLOB_SLOTS
  {
    forall i :: Blob.SlotBase(slot) <= i < Blob.DataStart(slot) ==> left[i] == m[i]
  }

  /** The headers before `at` are empty, those behind it as they were, and so is everything but headers. */
  ghost predicate OnlyHeadersErased(m: Mem, left: Mem, at: nat) {
    && (forall i :: CONFIG_START <= i < FLASH_SIZE ==> left[i] == m[i])
    && (forall slot :: 0 <= slot < Blob.BLOB_SLOTS ==> SameData(m, left, slot))
    && (forall slot :: 0 <= slot < Blob.BLOB_SLOTS && slot < at ==> Blob.Empty(left, slot))
    && (forall slot :: at < slot < Blob.BLOB_SLOTS ==> SameHeader(m, left, slot))
  }

  ghost predicate SameData(m: Mem, left: Mem, slot: nat)
    requires slot < Blob.BLOB_SLOTS
  {
    forall i :: Blob.DataStart(slot) <= i < Blob.SlotBase(slot) + Blob.BLOB_SLOT_SIZE ==> left[i] == m[i]
  }

  /** Erasing one header keeps the empty ones empty and the untouched ones untouched. */
  lemma OtherHeadersKept(before: Mem, image: Mem, after: Mem, slot: nat, ok: bool)
    requires slot < Blob.BLOB_SLOTS && OnlyHeadersErased(before, image, slot)
    requires forall i :: 0 <= i < FLASH_SIZE && !(Blob.SlotBase(slot) <= i < Blob.DataStart(slot)) ==> after[i] == image[i]
    requires ok ==> Blob.Empty(after, slot)
    ensures OnlyHeadersErased(before, after, slot)
    ensures ok ==> OnlyHeadersErased(before, after, slot + 1)
    ensures slot + 1 < Blob.BLOB_SLOTS ==> SameHeader(before, after, slot + 1)
  {
    forall k | 0 <= k < Blob.BLOB_SLOTS
      ensures SameData(before, after, k)
      ensures k < slot ==> Blob.Empty(after, k)
      ensures slot < k ==> SameHeader(before, after, k)
    {
      OtherHeaderKept(before, image, after, slot, k);
    }
  }

  lemma OtherHeaderKept(before: Mem, image: Mem, after: Mem, slot: nat, k: nat)
    requires slot < Blob.BLOB_SLOTS && k < Blob.BLOB_SLOTS && SameData(before, image, k)
    requires forall i :: 0 <= i < FLASH_SIZE && !(Blob.SlotBase(slot) <= i < Blob.DataStart(slot)) ==> after[i] == image[i]
    ensures SameData(before, after, k)
    ensures k != slot && Blob.Empty(image, k) ==> Blob.Empty(after, k)
    ensures k != slot && SameHeader(before, image, k) ==> SameHeader(before, after, k)
  {}

  /** Writing a page touches nothing below the config sectors. */
  lemma OnlyConfigSectors(before: Mem, page: seq<byte>, number: u32, after: Mem, ok: bool)
    requires |page| == PADDED_LEN
    requires if ok then after == Replay(before, PageOps(page, number)) else Interrupted(before, PageOps(page, number), after)
    ensures forall i :: 0 <= i < CONFIG_START ==> after[i] == before[i]
  {
    var ops := PageOps(page, number);
    forall i | 0 <= i < CONFIG_START
      ensures after[i] == before[i]
    {
      if ok {
        UntouchedReplay(before, ops, i);
      } else {
        UntouchedCut(before, ops, after, i);
      }
    }
  }

  lemma InterruptedIsBrokenOff(d: Device<Config>, next: Config, left: Mem)
    requires Lawful(ConfigCodec()) && next.Wf()
    requires Interrupted(d.mem, StoreOps(next, Next(d.sequence)), left)
    requires TornDetected(ConfigCodec(), d.mem, left, next, Next(d.sequence))
    ensures BrokenOff(ConfigCodec(), d, next, left)
  {
    var page, number := PageOf(next, Next(d.sequence)), Next(d.sequence);
    var k :| 0 <= k <= 2 && CutAt(d.mem, PageOps(page, number), k, left);
    assert ConfigCodec().page(next, number) == page;
    var cut: nat := k;
    assert cut <= 2 && StoppedAt(d.mem, ConfigCodec().page(next, number), number, cut, left);
  }

  lemma UnchangedIsStep(d: Device<Config>, next: Config)
    requires next.Wf() && next == d.value
    ensures Moves(ConfigCodec(), d, Completed(next), d)
  {
    ConfigCodecIsLawful();
    MovesIs(ConfigCodec(), d, Completed(next), d);
  }

  /** Storing a changed config in full is a `Completed` step. */
  lemma StoredIsStep(d: Device<Config>, next: Config, d': Device<Config>)
    requires next.Wf() && next != d.value
    requires d' == Device(Replay(d.mem, StoreOps(next, Next(d.sequence))), next, Next(d.sequence), d.defaults, true, {})
    ensures Moves(ConfigCodec(), d, Completed(next), d')
  {
    ConfigCodecIsLawful();
    MovesIs(ConfigCodec(), d, Completed(next), d');
    assert ConfigCodec().page(next, Next(d.sequence)) == PageOf(next, Next(d.sequence));
  }

  /** Giving up on storing a config is a `Failed` step. */
  lemma GivenUpIsStep(d: Device<Config>, next: Config, left: Mem)
    requires next.Wf()
    requires Interrupted(d.mem, StoreOps(next, Next(d.sequence)), left)
    ensures Refuses(ConfigCodec(), d, next, d.(mem := left, attempts := d.attempts + {next}))
  {
    ConfigCodecIsLawful();
    var d' := d.(mem := left, attempts := d.attempts + {next});
    MovesIs(ConfigCodec(), d, Failed(next, left), d');
    if TornDetected(ConfigCodec(), d.mem, left, next, Next(d.sequence)) {
      InterruptedIsBrokenOff(d, next, left);
    }
  }
}
