/** What the two photo slots and the config say about the photo, without any state of the app. */
module Photo {
  import opened Bytes
  import opened FixedStrs
  import opened Wrappers
  import opened Flash
  import opened Veils
  import opened Blob
  import Record
  type Config = Record.Config

  const SLOT_A := 0
  const SLOT_B := 1

  /** "PHOT". */
  const KIND_PHOTO: u32 := 0x5048_4F54

  /** One screen of 160 x 128 pixels, two bytes each. */
  const BYTES := 40960

  function HeaderAt(m: Mem, slot: nat): seq<byte>
    requires slot < BLOB_SLOTS
  {
    m[SlotBase(slot)..SlotBase(slot) + HEADER_LEN]
  }

  predicate PhotoHeader(b: seq<byte>) {
    var h := ParseHeader(b);
    h.Some? && h.value.kind == KIND_PHOTO && h.value.len == BYTES
  }

  /** Whether `slot` would be shown. */
  predicate Shows(m: Mem, slot: nat)
    requires slot < BLOB_SLOTS
  {
    Veil(PhotoHeader, HeaderAt(m, slot), |m|)
  }

  lemma ShowsIs(m: Mem, slot: nat)
    requires slot < BLOB_SLOTS
    ensures Shows(m, slot) <==>
      ReadHeader(m, slot).Some? && ReadHeader(m, slot).value.kind == KIND_PHOTO && ReadHeader(m, slot).value.len == BYTES
    ensures Shows(m, slot) ==> ReadData(m, slot) == Some(At(m, slot))
  {
    Lift(PhotoHeader, HeaderAt(m, slot), |m|);
  }

  lemma EmptyShowsNothing(m: Mem, slot: nat)
    requires slot < BLOB_SLOTS && Blob.Empty(m, slot)
    ensures !Shows(m, slot)
  {
    ShowsIs(m, slot);
    EmptyReadsNone(m, slot);
  }

  /** What a finished writer leaves: a header of a photo, and `body` as the data. */
  predicate Held(x: (Mem, nat, seq<byte>)) {
    x.1 < BLOB_SLOTS && ReadData(x.0, x.1) == Some(x.2) && ReadHeader(x.0, x.1).value.kind == KIND_PHOTO
  }

  predicate Holds(m: Mem, slot: nat, body: seq<byte>) {
    Veil(Held, (m, slot, body), |m|)
  }

  lemma HoldsIs(m: Mem, slot: nat, body: seq<byte>)
    requires slot < BLOB_SLOTS
    ensures Holds(m, slot, body) <==> ReadData(m, slot) == Some(body) && ReadHeader(m, slot).value.kind == KIND_PHOTO
    ensures Holds(m, slot, body) && |body| == BYTES ==> body == At(m, slot) && Shows(m, slot)
  {
    Lift(Held, (m, slot, body), |m|);
    ShowsIs(m, slot);
  }

  /** The pixels in `slot`. */
  function At(m: Mem, slot: nat): seq<byte>
    requires slot < BLOB_SLOTS
  {
    m[DataStart(slot)..DataStart(slot) + BYTES]
  }

  /** The slot a new photo goes to. */
  function Target(named: nat): nat {
    if named == SLOT_A then SLOT_B else SLOT_A
  }

  predicate Adoptable(m: Mem, slot: nat, status: u16, len: nat)
    requires slot < BLOB_SLOTS
  {
    status == 200 && len == BYTES && Shows(m, slot)
  }

  /** The config once the photo in `slot` is the current one. */
  function Adopted(c: Config, slot: byte, stamp: FixedStr): Config {
    c.(frameSlot := slot, frameLastModified := stamp)
  }

  /** The config once the cache was cleared. */
  function Forgotten(c: Config): Config {
    c.(frameLastModified := c.frameLastModified.Cleared(), frameSlot := SLOT_A)
  }

  lemma AdoptedWf(c: Config, slot: byte, stamp: FixedStr)
    requires c.Wf() && stamp.Wf(Record.STAMP_MAX)
    ensures Adopted(c, slot, stamp).Wf()
  {
    Record.WfIs(c);
    Record.WfIs(Adopted(c, slot, stamp));
  }

  lemma ForgottenWf(c: Config)
    requires c.Wf()
    ensures Forgotten(c).Wf()
  {
    Record.WfIs(c);
    Record.WfIs(Forgotten(c));
  }

  /** Other settings changes keep the slot, and keep or clear the stamp. */
  predicate KeepsPhoto(c: Config, next: Config) {
    && next.frameSlot == c.frameSlot
    && (next.frameLastModified == c.frameLastModified || next.frameLastModified.IsEmpty())
  }
}
