/** The two config sectors: reading the newest record, writing the other sector. */
module ConfigStore {
  import opened Bytes
  import opened Wrappers
  import opened Flash
  import opened Record
  import opened Decoding
  import opened Cells
  import RecordLaws

  const CONFIG_START := 0x1F_0000

  /** What is programmed: a record and 0xFF up to a page boundary. */
  const PADDED_LEN := 768

  datatype StorageError = FlashFailed | EncodeFailed | OutOfRange

  function SectorOffset(i: nat): nat {
    CONFIG_START + i * SECTOR
  }

  function SectorBytes(m: Mem, i: nat): seq<byte>
    requires i < CONFIG_SECTORS
  {
    m[SectorOffset(i)..SectorOffset(i) + RECORD_LEN]
  }

  /** The record sector `i` holds, if any. */
  function SectorRecord(m: Mem, i: nat): Option<(Config, u32)>
    requires i < CONFIG_SECTORS
  {
    Parse(SectorBytes(m, i))
  }

  /** What `Load` finds. */
  function Newest(m: Mem): Option<(Config, u32)> {
    NewestOf(SectorRecord(m, 0), SectorRecord(m, 1))
  }

  method Load(flash: Nor) returns (best: Option<(Config, u32)>)
    requires flash.Valid()
    ensures best == Newest(flash.Image())
  {
    best := None;
    for i := 0 to CONFIG_SECTORS
      invariant i == 0 ==> best == None
      invariant i == 1 ==> best == SectorRecord(flash.Image(), 0)
      invariant i == 2 ==> best == Newest(flash.Image())
    {
      var bytes := flash.mem[SectorOffset(i)..SectorOffset(i) + RECORD_LEN];
      var found := Decode(bytes);
      assert found == SectorRecord(flash.Image(), i);
      if found.Some? {
        var newer := best.None? || WrappingSub(found.value.1, best.value.1) < U32_MAX / 2;
        if newer {
          best := found;
        }
      }
    }
  }

  function PageOf(cfg: Config, sequence: u32): (p: seq<byte>)
    requires cfg.Wf()
    ensures |p| == PADDED_LEN
  {
    RecordBytes(cfg, sequence) + Repeat(0xFF, PADDED_LEN - RECORD_LEN)
  }

  /** The operations that write a page as record `sequence`. */
  function PageOps(page: seq<byte>, sequence: u32): (ops: seq<Op>)
    requires |page| == PADDED_LEN
    ensures |ops| == 2 && forall op :: op in ops ==> op.Legal()
    ensures forall op, i: nat :: op in ops && op.Touches(i) ==>
      SectorOffset(Home(sequence)) <= i < SectorOffset(Home(sequence)) + SECTOR
  {
    var at := SectorOffset(Home(sequence));
    [Erase(at, at + SECTOR), Program(at, page)]
  }

  /** The operations that write `cfg` as record `sequence`. */
  function StoreOps(cfg: Config, sequence: u32): (ops: seq<Op>)
    requires cfg.Wf()
    ensures |ops| == 2 && forall op :: op in ops ==> op.Legal()
  {
    PageOps(PageOf(cfg, sequence), sequence)
  }

  /**
   Record `sequence` goes to the sector at 0x1F0000 if the number is even, and to the next
   one if it is odd: the sector is erased, and three pages are programmed, the record
   and erased bytes behind it.
   */
  lemma StoreOpsAre(cfg: Config, sequence: u32)
    requires cfg.Wf()
    ensures var at := if sequence % 2 == 0 then 0x1F_0000 else 0x1F_1000;
            && StoreOps(cfg, sequence) == [Erase(at, at + 0x1000), Program(at, PageOf(cfg, sequence))]
            && |PageOf(cfg, sequence)| == 3 * 256 && PageOf(cfg, sequence)[..574] == RecordBytes(cfg, sequence)
            && forall i :: 574 <= i < 3 * 256 ==> PageOf(cfg, sequence)[i] == 0xFF
  {}

  /** The record in a page of its own, padded with erased bytes. */
  method EncodePage(cfg: Config, sequence: u32) returns (r: Option<array<byte>>)
    requires cfg.Wf()
    ensures r.Some? && fresh(r.value) && r.value[..] == PageOf(cfg, sequence)
  {
    var page := new byte[PADDED_LEN](_ => 0xFF);
    ghost var blank := page[..];
    var encoded := Encode(cfg, sequence, page);
    Padding(blank);
    r := Some(page);
  }

  lemma Padding(blank: seq<byte>)
    requires |blank| == PADDED_LEN && forall i :: 0 <= i < PADDED_LEN ==> blank[i] == 0xFF
    ensures blank[RECORD_LEN..] == Repeat(0xFF, PADDED_LEN - RECORD_LEN)
  {}

  /** Erases a sector, then programs a page into it. */
  method StorePage(flash: Nor, page: seq<byte>, sequence: u32) returns (r: Result<(), StorageError>)
    requires flash.Valid() && |page| == PADDED_LEN
    modifies flash, flash.mem
    ensures flash.Valid()
    ensures r.Ok? ==> flash.Image() == Replay(old(flash.Image()), PageOps(page, sequence))
    ensures r.Ok? ==> flash.log == old(flash.log) + PageOps(page, sequence)
    ensures r.Err? ==> r.error == FlashFailed && Interrupted(old(flash.Image()), PageOps(page, sequence), flash.Image())
    ensures flash.failures == old(flash.failures) + if r == Err(FlashFailed) then 1 else 0
  {
    ghost var ops, before := PageOps(page, sequence), flash.Image();
    StoreReplay(before, ops);
    var offset := SectorOffset(sequence % CONFIG_SECTORS);
    var erased := flash.BlockingErase(offset, offset + SECTOR);
    if !erased {
      assert CutAt(before, ops, 0, flash.Image());
      return Err(FlashFailed);
    }
    var written := flash.BlockingWrite(offset, page);
    if !written {
      assert CutAt(before, ops, 1, flash.Image());
      return Err(FlashFailed);
    }
    return Ok(());
  }

  /**
   Writes `cfg` as record `sequence`. It fails exactly if a driver call does. On
   success the flash is what the two operations make of it; after a driver error
   it is one of the states a cut among them could leave.
   */
  method Store(flash: Nor, cfg: Config, sequence: u32) returns (r: Result<(), StorageError>)
    requires flash.Valid() && cfg.Wf()
    modifies flash, flash.mem
    ensures flash.Valid()
    ensures r.Ok? ==> flash.Image() == Replay(old(flash.Image()), StoreOps(cfg, sequence))
    ensures r.Ok? ==> flash.log == old(flash.log) + StoreOps(cfg, sequence)
    ensures r.Err? ==> r.error == FlashFailed && Interrupted(old(flash.Image()), StoreOps(cfg, sequence), flash.Image())
    ensures flash.failures == old(flash.failures) + if r == Err(FlashFailed) then 1 else 0
  {
    var page := EncodePage(cfg, sequence);
    r := StorePage(flash, page.value[..], sequence);
  }

  lemma StoreReplay(m: Mem, ops: seq<Op>)
    requires |ops| == 2 && forall op :: op in ops ==> op.Legal()
    ensures Replay(m, ops[..0]) == m
    ensures Replay(m, ops[..1]) == ops[0].Applied(m)
    ensures Replay(m, ops) == ops[1].Applied(ops[0].Applied(m))
  {
    assert ops[..1][..0] == [];
    assert ops[..|ops| - 1] == ops[..1];
  }

  // --- what the sectors read as --------------------------------------------

  /** An erased sector holds no record. */
  lemma ErasedReadsEmpty(buf: seq<byte>)
    requires |buf| == RECORD_LEN && buf[0] == 0xFF
    ensures Parse(buf) == None
  {
    ParseIs(buf);
    assert buf[..4] != MAGIC by {
      assert buf[..4][0] == 0xFF != MAGIC[0];
    }
  }

  /** Writing a page leaves the other sector alone, wherever it is cut. */
  lemma OtherSectorKept(m: Mem, page: seq<byte>, sequence: u32, k: nat, left: Mem)
    requires |page| == PADDED_LEN && k <= 2
    requires CutAt(m, PageOps(page, sequence), k, left)
    ensures SectorBytes(left, 1 - Home(sequence)) == SectorBytes(m, 1 - Home(sequence))
  {
    var ops, other := PageOps(page, sequence), SectorOffset(1 - Home(sequence));
    assert Interrupted(m, ops, left);
    forall i | other <= i < other + SECTOR
      ensures left[i] == m[i]
    {
      UntouchedCut(m, ops, left, i);
    }
  }

  /** What the written sector reads as between the operations; erasing first is what makes programming exact. */
  lemma OwnSectorBetween(m: Mem, page: seq<byte>, sequence: u32)
    requires |page| == PADDED_LEN
    ensures var ops, home := PageOps(page, sequence), Home(sequence);
            && Replay(m, ops[..0]) == m
            && SectorBytes(Replay(m, ops[..1]), home)[0] == 0xFF
            && SectorBytes(Replay(m, ops[..2]), home) == page[..RECORD_LEN]
            && Replay(m, ops[..2]) == Replay(m, ops)
  {
    var ops, at := PageOps(page, sequence), SectorOffset(Home(sequence));
    StoreReplay(m, ops);
    assert ops[..2] == ops;
    var after := Replay(m, ops);
    forall i | 0 <= i < PADDED_LEN
      ensures after[at + i] == page[i]
    {
      ProgramErased(page[i]);
    }
  }

  /** A page written in full is in its own sector, and nothing else changed. */
  lemma PageStored(m: Mem, page: seq<byte>, sequence: u32)
    requires |page| == PADDED_LEN
    ensures SectorBytes(Replay(m, PageOps(page, sequence)), Home(sequence)) == page[..RECORD_LEN]
    ensures SectorBytes(Replay(m, PageOps(page, sequence)), 1 - Home(sequence)) == SectorBytes(m, 1 - Home(sequence))
  {
    OwnSectorBetween(m, page, sequence);
    OtherSectorKept(m, page, sequence, 2, Replay(m, PageOps(page, sequence)));
  }

  lemma RoundTripPage(cfg: Config, sequence: u32)
    requires cfg.Wf()
    ensures Parse(PageOf(cfg, sequence)[..RECORD_LEN]) == Some((cfg, sequence))
  {
    RecordLaws.RoundTrip(cfg, sequence, []);
    assert PageOf(cfg, sequence)[..RECORD_LEN] == RecordBytes(cfg, sequence) + [];
  }

  lemma SameBytes(m: Mem, left: Mem, i: nat)
    requires i < CONFIG_SECTORS
    requires forall j :: SectorOffset(i) <= j < SectorOffset(i) + SECTOR ==> left[j] == m[j]
    ensures SectorBytes(left, i) == SectorBytes(m, i)
  {}
}
