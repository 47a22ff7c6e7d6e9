/** Blob slots: a header sector written last, then the data. */
module Blob {
  import opened Bytes
  import opened Wrappers
  import opened Flash
  import opened ConfigStore
  import Crc32

  const BLOBS_START := 0x19_0000
  const BLOB_SLOT_SIZE := 0xB000
  const BLOB_SLOTS := 8
  const HEADER_SECTOR := SECTOR
  const BLOB_DATA_MAX := BLOB_SLOT_SIZE - HEADER_SECTOR

  /** "SPRB". */
  const MAGIC: u32 := 0x5350_5242
  const VERSION: u32 := 1
  const HEADER_LEN := 32

  datatype BlobHeader = BlobHeader(kind: u32, len: u32, crc32: bv32, sequence: u32)

  function SlotBase(slot: nat): (base: nat)
    requires slot < BLOB_SLOTS
    ensures base % SECTOR == 0 && BLOBS_START <= base && base + BLOB_SLOT_SIZE <= CONFIG_START
  {
    BLOBS_START + slot * BLOB_SLOT_SIZE
  }

  function HeaderBytes(h: BlobHeader): (b: seq<byte>)
    ensures |b| == HEADER_LEN
  {
    Le32(MAGIC) + Le32(VERSION) + Le32(h.kind) + Le32(h.len) + Crc32.CrcBytes(h.crc32) + Le32(h.sequence) + Repeat(0xFF, 8)
  }

  function WordOf(b: seq<byte>, i: nat): u32
    requires 4 * i + 4 <= |b|
  {
    FromLe32(b[4 * i..4 * i + 4])
  }

  function ParseHeader(b: seq<byte>): (r: Option<BlobHeader>)
    ensures r.Some? ==> r.value.len <= BLOB_DATA_MAX
  {
    if |b| < HEADER_LEN || WordOf(b, 0) != MAGIC || WordOf(b, 1) != VERSION then None
    else
      var h := BlobHeader(WordOf(b, 2), WordOf(b, 3), Crc32.WordAt(b[16..20]), WordOf(b, 5));
      if h.len <= BLOB_DATA_MAX then Some(h) else None
  }

  /** What the first bytes of the slot parse as; an interrupted write leaves nothing to parse. */
  function ReadHeader(m: Mem, slot: nat): (r: Option<BlobHeader>)
    requires slot < BLOB_SLOTS
    ensures r.Some? ==> r.value.len <= BLOB_DATA_MAX
  {
    ParseHeader(m[SlotBase(slot)..SlotBase(slot) + HEADER_LEN])
  }

  function DataStart(slot: nat): nat
    requires slot < BLOB_SLOTS
  {
    SlotBase(slot) + HEADER_SECTOR
  }

  /** As many bytes behind the header sector as the header says. */
  function ReadData(m: Mem, slot: nat): Option<seq<byte>>
    requires slot < BLOB_SLOTS
  {
    var h := ReadHeader(m, slot);
    if h.None? then None else Some(m[DataStart(slot)..DataStart(slot) + h.value.len])
  }

  /** A header reads back as it was written. */
  lemma HeaderRoundTrip(h: BlobHeader, after: seq<byte>)
    requires h.len <= BLOB_DATA_MAX
    ensures ParseHeader((HeaderBytes(h) + after)[..HEADER_LEN]) == Some(h)
  {
    var b := (HeaderBytes(h) + after)[..HEADER_LEN];
    assert b[0..4] == Le32(MAGIC);
    assert b[4..8] == Le32(VERSION);
    assert b[8..12] == Le32(h.kind);
    assert b[12..16] == Le32(h.len);
    assert b[16..20] == Crc32.CrcBytes(h.crc32);
    assert b[20..24] == Le32(h.sequence);
    Le32RoundTrip(MAGIC);
    Le32RoundTrip(VERSION);
    Le32RoundTrip(h.kind);
    Le32RoundTrip(h.len);
    Le32RoundTrip(h.sequence);
    Crc32.CrcBytesRoundTrip(h.crc32);
  }

  /**
   A header is "BRPS", version 1, then kind, length, CRC and number, lowest byte first, in
   four bytes each; any other version, and a length beyond 40960 bytes, is refused.
   */
  lemma HeaderIff(b: seq<byte>)
    ensures ParseHeader(b).Some? <==> |b| >= 32 && b[..8] == [0x42, 0x52, 0x50, 0x53, 1, 0, 0, 0] && NumberAt(b, 12) <= 40960
    ensures ParseHeader(b).Some? ==>
      ParseHeader(b) == Some(BlobHeader(NumberAt(b, 8), NumberAt(b, 12), Crc32.WordAt(b[16..20]), NumberAt(b, 20)))
  {
    if |b| >= 32 {
      WordIsNumber(b, 0);
      WordIsNumber(b, 4);
      WordIsNumber(b, 8);
      WordIsNumber(b, 12);
      WordIsNumber(b, 20);
    }
  }

  /** Eight slots of a header sector and 40960 bytes each, one after the other and below the config sectors. */
  lemma SlotsApart(a: nat, b: nat, i: nat)
    requires a < BLOB_SLOTS && b < BLOB_SLOTS
    ensures InSlot(a, i) && InSlot(b, i) ==> a == b
    ensures InSlot(a, i) <==> DataStart(a) - 4096 <= i < DataStart(a) + 40960
    ensures BLOB_SLOTS == 8 && DataStart(a) == 0x19_1000 + 0xB000 * a && DataStart(a) + 40960 <= 0x1F_0000
  {}

  /** An erased header sector reads as an empty slot. */
  predicate Empty(m: Mem, slot: nat)
    requires slot < BLOB_SLOTS
  {
    forall i :: SlotBase(slot) <= i < DataStart(slot) ==> m[i] == 0xFF
  }

  lemma EmptyReadsNone(m: Mem, slot: nat)
    requires slot < BLOB_SLOTS && Empty(m, slot)
    ensures ReadHeader(m, slot) == None && ReadData(m, slot) == None
  {
    var b := m[SlotBase(slot)..SlotBase(slot) + HEADER_LEN];
    assert b[0..4] == [0xFF, 0xFF, 0xFF, 0xFF];
  }

  predicate InSlot(slot: nat, i: nat)
    requires slot < BLOB_SLOTS
  {
    SlotBase(slot) <= i < SlotBase(slot) + BLOB_SLOT_SIZE
  }

  /** The operation stays among the data sectors of `slot`. */
  ghost predicate InData(slot: nat, op: Op)
    requires slot < BLOB_SLOTS
  {
    op.Legal() && forall i: nat :: op.Touches(i) ==> DataStart(slot) <= i < SlotBase(slot) + BLOB_SLOT_SIZE
  }

  /** The operation stays in `slot`, header included. */
  ghost predicate Within(slot: nat, op: Op)
    requires slot < BLOB_SLOTS
  {
    op.Legal() && forall i: nat :: op.Touches(i) ==> InSlot(slot, i)
  }

  /** Power cut at any point of operations on one slot: the rest of the flash is as it was. */
  lemma CutStaysWithin(m: Mem, slot: nat, ops: seq<Op>, left: Mem)
    requires slot < BLOB_SLOTS && forall op :: op in ops ==> op.Legal()
    requires forall op :: op in ops ==> Within(slot, op)
    requires Interrupted(m, ops, left)
    ensures forall i :: 0 <= i < FLASH_SIZE && !InSlot(slot, i) ==> left[i] == m[i]
  {
    forall i | 0 <= i < FLASH_SIZE && !InSlot(slot, i)
      ensures left[i] == m[i]
    {
      UntouchedCut(m, ops, left, i);
    }
  }

  /** As long as only data is written, a cut at any point leaves an empty slot empty. */
  lemma EmptyWhileWriting(m: Mem, slot: nat, ops: seq<Op>, left: Mem)
    requires slot < BLOB_SLOTS && Empty(m, slot)
    requires forall op :: op in ops ==> op.Legal()
    requires forall op :: op in ops ==> InData(slot, op)
    requires Interrupted(m, ops, left)
    ensures ReadData(left, slot) == None
    ensures forall i :: 0 <= i < FLASH_SIZE && !InSlot(slot, i) ==> left[i] == m[i]
  {
    forall i | 0 <= i < FLASH_SIZE && (!InSlot(slot, i) || i < DataStart(slot))
      ensures left[i] == m[i]
    {
      UntouchedCut(m, ops, left, i);
    }
    EmptyReadsNone(left, slot);
  }

  lemma NothingBetween(b: bv8)
    requires Passes(0xFF, b, 0xFF)
    ensures b == 0xFF
  {}

  lemma OnesStay(b: byte)
    ensures Between(0xFF, b, 0xFF) ==> b == 0xFF
  {
    BetweenIs(0xFF, b, 0xFF);
    ByteThroughBv(b);
    ByteThroughBv(0xFF);
    if Passes(0xFF, b as bv8, 0xFF) {
      NothingBetween(b as bv8);
    }
  }

  /** An erase that is caught half-way leaves an erased sector erased. */
  lemma TornOfErased(m: Mem, left: Mem, slot: nat)
    requires slot < BLOB_SLOTS && Empty(m, slot)
    requires Erase(SlotBase(slot), DataStart(slot)).Legal() && Erase(SlotBase(slot), DataStart(slot)).Torn(m, left)
    ensures Empty(left, slot)
  {
    forall i | SlotBase(slot) <= i < DataStart(slot)
      ensures left[i] == 0xFF
    {
      OnesStay(left[i]);
    }
  }

  /** Empties a slot: without a header nothing is read there, although its bytes remain. */
  method EraseHeader(flash: Nor, slot: nat) returns (r: Result<(), StorageError>)
    requires flash.Valid() && slot < BLOB_SLOTS
    modifies flash, flash.mem
    ensures flash.Valid()
    ensures flash.log == old(flash.log) + [Erase(SlotBase(slot), DataStart(slot))]
    ensures r.Ok? || old(Empty(flash.Image(), slot)) ==> Empty(flash.Image(), slot)
    ensures forall i :: 0 <= i < FLASH_SIZE && !(SlotBase(slot) <= i < DataStart(slot)) ==>
      flash.mem[i] == old(flash.mem[i])
    ensures r.Err? ==> r.error == FlashFailed && Erase(SlotBase(slot), DataStart(slot)).Torn(old(flash.Image()), flash.Image())
    ensures flash.failures == old(flash.failures) + if r == Err(FlashFailed) then 1 else 0
  {
    var base := SlotBase(slot);
    ghost var before := flash.Image();
    var ok := flash.BlockingErase(base, base + HEADER_SECTOR);
    if !ok && Empty(before, slot) {
      TornOfErased(before, flash.Image(), slot);
    }
    assert forall i :: 0 <= i < FLASH_SIZE ==> flash.mem[i] == flash.Image()[i] && old(flash.mem[i]) == before[i];
    r := if ok then Ok(()) else Err(FlashFailed);
  }

  lemma SectorProgrammed(before: Mem, blank: Mem, after: Mem, offset: nat, data: seq<byte>)
    requires |data| == SECTOR && Program(offset, data).Legal() && Erase(offset, offset + SECTOR).Legal()
    requires blank == Erase(offset, offset + SECTOR).Applied(before)
    requires after == Program(offset, data).Applied(blank)
    ensures after[offset..offset + SECTOR] == data
    ensures forall i :: 0 <= i < FLASH_SIZE && !(offset <= i < offset + SECTOR) ==> after[i] == before[i]
  {
    forall i | 0 <= i < SECTOR
      ensures after[offset + i] == data[i]
    {
      ProgramErased(data[i]);
    }
  }

  lemma DataExtended(before: Mem, after: Mem, start: nat, offset: nat, data: seq<byte>, fill: nat)
    requires start <= offset && offset + SECTOR <= FLASH_SIZE && |data| == SECTOR && fill <= SECTOR
    requires after[offset..offset + SECTOR] == data
    requires forall i :: 0 <= i < FLASH_SIZE && !(offset <= i < offset + SECTOR) ==> after[i] == before[i]
    ensures after[start..offset + fill] == before[start..offset] + data[..fill]
  {
    assert after[start..offset] == before[start..offset];
    assert after[offset..offset + fill] == after[offset..offset + SECTOR][..fill];
  }

  /** What a flush adds to the log and leaves alone. */
  twostate predicate OnlyDataChanged(flash: Nor, slot: nat)
    requires slot < BLOB_SLOTS && flash.mem.Length == FLASH_SIZE
    reads flash, flash.mem
  {
    && old(flash.log) <= flash.log
    && (forall k :: |old(flash.log)| <= k < |flash.log| ==> InData(slot, flash.log[k]))
    && (forall i :: 0 <= i < FLASH_SIZE && !(DataStart(slot) <= i < SlotBase(slot) + BLOB_SLOT_SIZE) ==>
          flash.mem[i] == old(flash.mem[i]))
  }

  /** What was added to the log stays in one slot. */
  twostate predicate OnlyWithin(flash: Nor, slot: nat)
    requires slot < BLOB_SLOTS
    reads flash
  {
    old(flash.log) <= flash.log && forall k :: |old(flash.log)| <= k < |flash.log| ==> Within(slot, flash.log[k])
  }

  /** Erases one sector and programs it. */
  method ProgramSector(flash: Nor, slot: nat, offset: nat, data: seq<byte>) returns (ok: bool)
    requires flash.Valid() && slot < BLOB_SLOTS && |data| == SECTOR && offset % SECTOR == 0
    requires DataStart(slot) <= offset && offset + SECTOR <= SlotBase(slot) + BLOB_SLOT_SIZE
    modifies flash, flash.mem
    ensures flash.Valid() && OnlyDataChanged(flash, slot)
    ensures flash.failures == old(flash.failures) + if ok then 0 else 1
    ensures ok ==> flash.Image()[offset..offset + SECTOR] == data
    ensures ok ==> forall i :: 0 <= i < FLASH_SIZE && !(offset <= i < offset + SECTOR) ==> flash.mem[i] == old(flash.mem[i])
  {
    ghost var before := flash.Image();
    ok := flash.BlockingErase(offset, offset + SECTOR);
    if !ok {
      return;
    }
    ghost var blank := flash.Image();
    ok := flash.BlockingWrite(offset, data);
    if ok {
      SectorProgrammed(before, blank, flash.Image(), offset, data);
    }
  }

  /** Buffers what it is given up to a sector; a full sector goes to flash and into the CRC. */
  class BlobWriter {
    const flash: Nor
    const slot: nat
    const kind: u32
    const sequence: u32
    var written: nat
    const buf: array<byte>
    var fill: nat
    const crc: Crc32.Digest
    /** Everything handed to the writer so far. */
    ghost var body: seq<byte>

    ghost predicate Shape()
      reads this, buf, flash
    {
      && slot < BLOB_SLOTS
      && flash.Valid() && flash.mem != buf
      && buf.Length == SECTOR && fill <= SECTOR
      && written <= BLOB_DATA_MAX
      && |body| == written + fill
      && buf[..fill] == body[written..]
      && forall i :: fill <= i < SECTOR ==> buf[i] == 0xFF
    }

    /** What has been flushed is in flash and in the CRC; the slot still reads as empty. */
    ghost predicate Flushed()
      requires Shape()
      reads this, buf, crc, flash, flash.mem
    {
      && crc.reg == Crc32.Register(Crc32.INIT, body[..written])
      && Empty(flash.Image(), slot)
      && flash.Image()[DataStart(slot)..DataStart(slot) + written] == body[..written]
    }

    /** Between calls the buffer has room and whole sectors have been flushed. */
    ghost predicate Valid()
      reads this, buf, crc, flash, flash.mem
    {
      Shape() && Flushed() && fill < SECTOR && written % SECTOR == 0
    }

    /** Use after a successful header erase. */
    constructor Start(flash: Nor, slot: nat, kind: u32, sequence: u32)
      requires flash.Valid() && slot < BLOB_SLOTS && Empty(flash.Image(), slot)
      ensures Valid() && fresh(buf) && fresh(crc) && body == []
      ensures this.flash == flash && this.slot == slot && this.kind == kind && this.sequence == sequence
    {
      this.flash := flash;
      this.slot := slot;
      this.kind := kind;
      this.sequence := sequence;
      this.written := 0;
      this.buf := new byte[SECTOR](_ => 0xFF);
      this.fill := 0;
      this.crc := new Crc32.Digest();
      this.body := [];
      new;
      Crc32.RegisterIsFold(Crc32.INIT, []);
      assert body[..written] == [];
    }

    /** The buffered bytes join the CRC. */
    method Digest()
      requires Shape() && Flushed()
      modifies crc
      ensures crc.reg == Crc32.Register(Crc32.INIT, body)
    {
      Crc32.RegisterSplit(Crc32.INIT, body[..written], body[written..]);
      assert body[..written] + body[written..] == body;
      crc.Update(buf[..fill]);
    }

    /** The buffered bytes join the CRC and go to flash. */
    method Commit(offset: nat) returns (ok: bool)
      requires Shape() && Flushed() && written % SECTOR == 0 && written < BLOB_DATA_MAX
      requires offset == DataStart(slot) + written
      modifies crc, flash, flash.mem
      ensures flash.Valid() && OnlyDataChanged(flash, slot)
      ensures flash.failures == old(flash.failures) + if ok then 0 else 1
      ensures ok ==> crc.reg == Crc32.Register(Crc32.INIT, body)
      ensures ok ==> flash.Image()[DataStart(slot)..DataStart(slot) + |body|] == body
      ensures ok ==> Erased(flash.Image(), offset + fill, offset + SECTOR)
    {
      Digest();
      ghost var before, data := flash.Image(), buf[..];
      ok := ProgramSector(flash, slot, offset, buf[..]);
      if ok {
        DataExtended(before, flash.Image(), DataStart(slot), offset, data, fill);
        RestErased(flash.Image(), offset, data, fill);
      }
    }

    /** Moves the buffer to flash; refuses to run past the slot. */
    method FlushSector() returns (r: Result<(), StorageError>)
      requires Shape() && Flushed() && written % SECTOR == 0
      modifies this, buf, crc, flash, flash.mem
      ensures OnlyDataChanged(flash, slot) && body == old(body) && flash.Valid()
      ensures r.Ok? ==> Shape() && Flushed() && fill == 0 && written == |body|
      ensures r.Ok? && old(fill) > 0 ==> Erased(flash.Image(), DataStart(slot) + |body|, DataStart(slot) + old(written) + SECTOR)
      ensures r == Err(OutOfRange) <==> old(fill) > 0 && old(written) == BLOB_DATA_MAX
      ensures r.Err? ==> r.error == FlashFailed || r.error == OutOfRange
      ensures flash.failures == old(flash.failures) + if r == Err(FlashFailed) then 1 else 0
    {
      if fill == 0 {
        return Ok(());
      }
      var offset := SlotBase(slot) + HEADER_SECTOR + written;
      if offset + SECTOR > SlotBase(slot) + BLOB_SLOT_SIZE {
        return Err(OutOfRange);
      }
      var ok := Commit(offset);
      if !ok {
        return Err(FlashFailed);
      }
      ghost var image := flash.Image();
      written := written + fill;
      fill := 0;
      forall i | 0 <= i < buf.Length {
        buf[i] := 0xFF;
      }
      assert flash.Image() == image && body[..written] == body;
      return Ok(());
    }

    /** Moves the last bytes to flash; erased ones fill up their sector. */
    method FlushRest() returns (r: Result<(), StorageError>)
      requires Valid()
      modifies this, buf, crc, flash, flash.mem
      ensures OnlyDataChanged(flash, slot) && body == old(body) && flash.Valid()
      ensures r.Ok? ==> Shape() && Flushed() && fill == 0 && written == |body|
      ensures r.Ok? ==> Erased(flash.Image(), DataStart(slot) + |body|, DataStart(slot) + WholeSectors(|body|))
      ensures r == Err(OutOfRange) <==> |body| > BLOB_DATA_MAX
      ensures r.Err? ==> r.error == FlashFailed || r.error == OutOfRange
      ensures flash.failures == old(flash.failures) + if r == Err(FlashFailed) then 1 else 0
    {
      SectorsOf(written, fill);
      r := FlushSector();
    }

    /** Copies a piece that fits into the buffer. */
    method Buffer(piece: seq<byte>)
      requires Valid() && |piece| <= SECTOR - fill
      modifies this, buf
      ensures Shape() && Flushed() && written == old(written)
      ensures body == old(body) + piece && fill == old(fill) + |piece|
    {
      ghost var image := flash.Image();
      forall i | 0 <= i < |piece| {
        buf[fill + i] := piece[i];
      }
      assert buf[..fill] == old(buf[..fill]);
      assert buf[fill..fill + |piece|] == piece;
      assert buf[..fill + |piece|] == buf[..fill] + piece;
      fill := fill + |piece|;
      body := body + piece;
      assert body[..written] == old(body)[..written];
      assert flash.Image() == image;
    }

    /** Takes in as much as there is room for; a full sector goes to flash. */
    method Feed(data: seq<byte>) returns (r: Result<(), StorageError>, n: nat)
      requires Valid() && data != []
      modifies this, buf, crc, flash, flash.mem
      ensures flash.Valid() && OnlyDataChanged(flash, slot) && 0 < n <= |data|
      ensures r.Ok? ==> Valid() && body == old(body) + data[..n]
      ensures r.Err? ==> r.error == FlashFailed || r.error == OutOfRange
      ensures r == Err(OutOfRange) ==> |old(body)| + n >= BLOB_SLOT_SIZE
      ensures flash.failures == old(flash.failures) + if r == Err(FlashFailed) then 1 else 0
    {
      var room := SECTOR - fill;
      n := if room < |data| then room else |data|;
      r := Ok(());
      Buffer(data[..n]);
      if fill == SECTOR {
        r := FlushSector();
      }
    }

    /** Takes in `data`, moving every full sector to flash. */
    method Write(data: seq<byte>) returns (r: Result<(), StorageError>)
      requires Valid()
      modifies this, buf, crc, flash, flash.mem
      ensures flash.Valid() && OnlyDataChanged(flash, slot)
      ensures r.Ok? ==> Valid() && body == old(body) + data
      ensures r.Err? ==> r.error == FlashFailed || r.error == OutOfRange
      ensures r == Err(OutOfRange) ==> |old(body)| + |data| >= BLOB_SLOT_SIZE
      ensures flash.failures == old(flash.failures) + if r == Err(FlashFailed) then 1 else 0
    {
      var rest := data;
      while rest != []
        invariant Valid() && OnlyDataChanged(flash, slot)
        invariant body + rest == old(body) + data
        invariant flash.failures == old(flash.failures)
        decreases |rest|
      {
        var n;
        r, n := Feed(rest);
        if r.Err? {
          return;
        }
        assert rest == rest[..n] + rest[n..];
        rest := rest[n..];
      }
      return Ok(());
    }

    /**
     What is left in the buffer goes to flash, then the header page. It succeeds
     exactly if the body fits and no driver call fails.
     */
    method Finish() returns (r: Result<BlobHeader, StorageError>)
      requires Valid()
      modifies this, buf, crc, flash, flash.mem
      ensures flash.Valid() && body == old(body)
      ensures r == Err(OutOfRange) <==> |body| > BLOB_DATA_MAX
      ensures r.Err? ==> r.error == FlashFailed || r.error == OutOfRange
      ensures flash.failures == old(flash.failures) + if r == Err(FlashFailed) then 1 else 0
      ensures OnlyWithin(flash, slot)
      ensures r.Ok? ==>
        && r.value == BlobHeader(kind, |body|, Crc32.Crc(body), sequence)
        && ReadHeader(flash.Image(), slot) == Some(r.value)
        && ReadData(flash.Image(), slot) == Some(body)
        && Erased(flash.Image(), DataStart(slot) + |body|, DataStart(slot) + WholeSectors(|body|))
      ensures forall i :: 0 <= i < FLASH_SIZE && !InSlot(slot, i) ==> flash.mem[i] == old(flash.mem[i])
    {
      var flushed := FlushRest();
      if flushed.Err? {
        return Err(flushed.error);
      }
      var sum := crc.Finish();
      assert body[..written] == body;
      var header := BlobHeader(kind, written, sum, sequence);
      var ok := WriteHeader(flash, slot, header, body);
      if !ok {
        return Err(FlashFailed);
      }
      return Ok(header);
    }
  }

  predicate Erased(m: Mem, from: nat, to: nat) {
    forall i :: from <= i < to && i < FLASH_SIZE ==> m[i] == 0xFF
  }

  lemma ErasedStays(before: Mem, after: Mem, slot: nat, from: nat, to: nat)
    requires slot < BLOB_SLOTS && DataStart(slot) <= from && Erased(before, from, to)
    requires forall i :: 0 <= i < FLASH_SIZE && !(SlotBase(slot) <= i < DataStart(slot)) ==> after[i] == before[i]
    ensures Erased(after, from, to)
  {}

  lemma RestErased(m: Mem, offset: nat, data: seq<byte>, fill: nat)
    requires offset + SECTOR <= FLASH_SIZE && m[offset..offset + SECTOR] == data
    requires forall i :: fill <= i < SECTOR ==> data[i] == 0xFF
    ensures Erased(m, offset + fill, offset + SECTOR)
  {
    assert forall i :: offset <= i < offset + SECTOR ==> m[i] == data[i - offset];
  }

  /** As many bytes in whole sectors. */
  function WholeSectors(n: nat): nat {
    (n + 4095) / 4096 * 4096
  }

  lemma SectorsOf(written: nat, fill: nat)
    requires written % SECTOR == 0 && fill < SECTOR
    ensures WholeSectors(written + fill) == if fill == 0 then written else written + SECTOR
  {}

  /** Programs the header page of a slot whose data is complete. */
  method WriteHeader(flash: Nor, slot: nat, header: BlobHeader, ghost body: seq<byte>) returns (ok: bool)
    requires flash.Valid() && slot < BLOB_SLOTS && Empty(flash.Image(), slot)
    requires header.len == |body| <= BLOB_DATA_MAX
    requires flash.Image()[DataStart(slot)..DataStart(slot) + |body|] == body
    requires Erased(flash.Image(), DataStart(slot) + |body|, DataStart(slot) + WholeSectors(|body|))
    modifies flash, flash.mem
    ensures flash.Valid()
    ensures Erased(flash.Image(), DataStart(slot) + |body|, DataStart(slot) + WholeSectors(|body|))
    ensures flash.failures == old(flash.failures) + if ok then 0 else 1
    ensures |flash.log| == |old(flash.log)| + 1 && OnlyWithin(flash, slot)
    ensures ok ==> ReadHeader(flash.Image(), slot) == Some(header) && ReadData(flash.Image(), slot) == Some(body)
    ensures forall i :: 0 <= i < FLASH_SIZE && !(SlotBase(slot) <= i < DataStart(slot)) ==> flash.mem[i] == old(flash.mem[i])
  {
    var page := HeaderBytes(header) + Repeat(0xFF, PAGE - HEADER_LEN);
    ghost var before := flash.Image();
    PageWithin(slot, page);
    ok := flash.BlockingWrite(SlotBase(slot), page);
    assert forall i :: 0 <= i < FLASH_SIZE ==> flash.mem[i] == flash.Image()[i] && old(flash.mem[i]) == before[i];
    ErasedStays(before, flash.Image(), slot, DataStart(slot) + |body|, DataStart(slot) + WholeSectors(|body|));
    if ok {
      HeaderWritten(before, flash.Image(), slot, header, body, page);
    }
  }

  lemma PageWithin(slot: nat, page: seq<byte>)
    requires slot < BLOB_SLOTS && |page| == PAGE
    ensures Within(slot, Program(SlotBase(slot), page))
  {}

  lemma HeaderWritten(before: Mem, after: Mem, slot: nat, header: BlobHeader, body: seq<byte>, page: seq<byte>)
    requires slot < BLOB_SLOTS && Empty(before, slot) && header.len == |body| <= BLOB_DATA_MAX
    requires before[DataStart(slot)..DataStart(slot) + |body|] == body
    requires page == HeaderBytes(header) + Repeat(0xFF, PAGE - HEADER_LEN)
    requires Program(SlotBase(slot), page).Legal() && after == Program(SlotBase(slot), page).Applied(before)
    ensures ReadHeader(after, slot) == Some(header) && ReadData(after, slot) == Some(body)
  {
    HeaderProgrammed(before, after, slot, page);
    HeaderRoundTrip(header, Repeat(0xFF, PAGE - HEADER_LEN));
    HeaderCompletes(before, after, slot, header, body, page);
  }

  /** Programming a page into an erased header sector. */
  lemma HeaderProgrammed(before: Mem, after: Mem, slot: nat, page: seq<byte>)
    requires slot < BLOB_SLOTS && Empty(before, slot) && |page| == PAGE
    requires Program(SlotBase(slot), page).Legal() && after == Program(SlotBase(slot), page).Applied(before)
    ensures after[SlotBase(slot)..SlotBase(slot) + HEADER_LEN] == page[..HEADER_LEN]
    ensures forall i :: 0 <= i < FLASH_SIZE && !(SlotBase(slot) <= i < DataStart(slot)) ==> after[i] == before[i]
  {
    var base := SlotBase(slot);
    forall i | 0 <= i < HEADER_LEN
      ensures after[base + i] == page[i]
    {
      ProgramErased(page[i]);
    }
  }

  /** The header page completes the slot. */
  lemma HeaderCompletes(before: Mem, after: Mem, slot: nat, h: BlobHeader, body: seq<byte>, page: seq<byte>)
    requires slot < BLOB_SLOTS && h.len == |body| <= BLOB_DATA_MAX
    requires before[DataStart(slot)..DataStart(slot) + |body|] == body
    requires |page| == PAGE && ParseHeader(page[..HEADER_LEN]) == Some(h)
    requires after[SlotBase(slot)..SlotBase(slot) + HEADER_LEN] == page[..HEADER_LEN]
    requires forall i :: 0 <= i < FLASH_SIZE && !(SlotBase(slot) <= i < DataStart(slot)) ==> after[i] == before[i]
    ensures ReadHeader(after, slot) == Some(h) && ReadData(after, slot) == Some(body)
  {
    assert after[DataStart(slot)..DataStart(slot) + |body|] == before[DataStart(slot)..DataStart(slot) + |body|];
  }

  /** Empties the slot and starts writing into it. */
  method Begin(flash: Nor, slot: nat, kind: u32, sequence: u32) returns (r: Result<BlobWriter, StorageError>)
    requires flash.Valid() && slot < BLOB_SLOTS
    modifies flash, flash.mem
    ensures flash.Valid()
    ensures flash.log == old(flash.log) + [Erase(SlotBase(slot), DataStart(slot))]
    ensures r.Ok? ==>
      && fresh(r.value) && fresh(r.value.buf) && fresh(r.value.crc)
      && r.value.Valid() && r.value.body == []
      && r.value.flash == flash && r.value.slot == slot && r.value.kind == kind && r.value.sequence == sequence
    ensures r.Err? ==> r.error == FlashFailed && Erase(SlotBase(slot), DataStart(slot)).Torn(old(flash.Image()), flash.Image())
    ensures flash.failures == old(flash.failures) + if r == Err(FlashFailed) then 1 else 0
    ensures forall i :: 0 <= i < FLASH_SIZE && !(SlotBase(slot) <= i < DataStart(slot)) ==> flash.mem[i] == old(flash.mem[i])
  {
    var erased := EraseHeader(flash, slot);
    if erased.Err? {
      return Err(erased.error);
    }
    assert Empty(flash.Image(), slot);
    var w := new BlobWriter.Start(flash, slot, kind, sequence);
    return Ok(w);
  }
}
