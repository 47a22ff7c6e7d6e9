/**
 What the six album slots hold, read from their headers, and what a header that
 was caught inside an operation can come to read as.
 */
module AlbumFlash {
  import opened Album
  import opened Blob
  import opened Bytes
  import opened Flash
  import opened Veils
  import opened Wrappers
  import Photo

  const FIRST_SLOT := 2

  /** "ALBM". */
  const KIND_ALBUM: u32 := 0x414C_424D

  /** The id a header tells of, if it is that of a complete album photo. */
  function AlbumId(b: seq<byte>): Option<u32> {
    var h := ParseHeader(b);
    if h.Some? && h.value.kind == KIND_ALBUM && h.value.len == Photo.BYTES then Some(h.value.sequence) else None
  }

  /** The album id that `slot` holds. */
  function SlotId(m: Mem, slot: nat): Option<u32>
    requires slot < BLOB_SLOTS
  {
    Veil(AlbumId, Photo.HeaderAt(m, slot), |m|)
  }

  lemma SlotIdIs(m: Mem, slot: nat)
    requires slot < BLOB_SLOTS
    ensures SlotId(m, slot) == AlbumId(Photo.HeaderAt(m, slot))
    ensures SlotId(m, slot).Some? <==>
      ReadHeader(m, slot).Some? && ReadHeader(m, slot).value.kind == KIND_ALBUM && ReadHeader(m, slot).value.len == Photo.BYTES
    ensures SlotId(m, slot).Some? ==> SlotId(m, slot) == Some(ReadHeader(m, slot).value.sequence)
  {
    Lift(AlbumId, Photo.HeaderAt(m, slot), |m|);
  }

  /** What the album slots hold: see `CacheAt`. */
  function CacheOf(m: Mem): Cache {
    Veil(SlotIds, m, |m|)
  }

  function SlotIds(m: Mem): Cache {
    [SlotId(m, 2), SlotId(m, 3), SlotId(m, 4), SlotId(m, 5), SlotId(m, 6), SlotId(m, 7)]
  }

  lemma CacheAt(m: Mem, k: nat)
    requires k < SLOTS
    ensures CacheOf(m)[k] == SlotId(m, FIRST_SLOT + k)
  {
    Lift(SlotIds, m, |m|);
    assert k == 0 || k == 1 || k == 2 || k == 3 || k == 4 || k == 5;
  }

  lemma EmptyHoldsNothing(m: Mem, slot: nat)
    requires slot < BLOB_SLOTS && Blob.Empty(m, slot)
    ensures SlotId(m, slot) == None
  {
    SlotIdIs(m, slot);
    EmptyReadsNone(m, slot);
  }

  ghost predicate OnlySlot(m: Mem, left: Mem, slot: nat)
    requires slot < BLOB_SLOTS
  {
    forall i :: 0 <= i < FLASH_SIZE && !InSlot(slot, i) ==> left[i] == m[i]
  }

  /** Rewriting one slot changes one entry of the cache. */
  lemma OneEntry(m: Mem, left: Mem, k: nat)
    requires k < SLOTS && OnlySlot(m, left, FIRST_SLOT + k)
    ensures CacheOf(left) == CacheOf(m)[k := SlotId(left, FIRST_SLOT + k)]
  {
    forall j | 0 <= j < SLOTS
      ensures CacheOf(left)[j] == CacheOf(m)[k := SlotId(left, FIRST_SLOT + k)][j]
    {
      CacheAt(m, j);
      CacheAt(left, j);
      if j != k {
        OtherSlotKept(m, left, FIRST_SLOT + k, FIRST_SLOT + j);
      }
    }
  }

  lemma OtherSlotKept(m: Mem, left: Mem, slot: nat, other: nat)
    requires slot < BLOB_SLOTS && other < BLOB_SLOTS && other != slot && OnlySlot(m, left, slot)
    ensures SlotId(left, other) == SlotId(m, other)
  {
    assert Photo.HeaderAt(left, other) == Photo.HeaderAt(m, other);
  }

  // --- torn headers --------------------------------------------------------

  /** The places of a header that decide whether it reads as an album photo, and as which. */
  predicate Decides(i: int) {
    0 <= i < 16 || 20 <= i < 24
  }

  /** The header of a complete album photo, up to its CRC, which nothing checks. */
  function HeaderFor(id: u32): (b: seq<byte>)
    ensures |b| == Blob.HEADER_LEN
  {
    HeaderBytes(BlobHeader(KIND_ALBUM, Photo.BYTES, 0, id))
  }

  lemma HeaderParts(id: u32)
    ensures var b := HeaderFor(id);
            b[0..4] == Le32(Blob.MAGIC) && b[4..8] == Le32(Blob.VERSION) && b[8..12] == Le32(KIND_ALBUM)
            && b[12..16] == Le32(Photo.BYTES) && b[20..24] == Le32(id)
  {}

  lemma SameWord(a: seq<byte>, b: seq<byte>, i: nat)
    requires |a| == |b| && 4 * i + 4 <= |a|
    ensures WordOf(a, i) == WordOf(b, i) <==> forall j :: 4 * i <= j < 4 * i + 4 ==> a[j] == b[j]
  {
    var u, v := a[4 * i..4 * i + 4], b[4 * i..4 * i + 4];
    Le32OfFrom(u);
    Le32OfFrom(v);
    assert u == v <==> forall j :: 4 * i <= j < 4 * i + 4 ==> a[j] == b[j] by {
      assert forall j :: 4 * i <= j < 4 * i + 4 ==> a[j] == u[j - 4 * i] && b[j] == v[j - 4 * i];
    }
  }

  lemma WordsOfHeader(id: u32)
    ensures var b := HeaderFor(id);
            && WordOf(b, 0) == Blob.MAGIC && WordOf(b, 1) == Blob.VERSION && WordOf(b, 2) == KIND_ALBUM
            && WordOf(b, 3) == Photo.BYTES && WordOf(b, 5) == id
  {
    HeaderParts(id);
    Le32RoundTrip(Blob.MAGIC);
    Le32RoundTrip(Blob.VERSION);
    Le32RoundTrip(KIND_ALBUM);
    Le32RoundTrip(Photo.BYTES);
    Le32RoundTrip(id);
  }

  /** A header reads as photo `id` exactly if it agrees with the header of `id` in the deciding places. */
  lemma ReadsAsIff(b: seq<byte>, id: u32)
    requires |b| == Blob.HEADER_LEN
    ensures AlbumId(b) == Some(id) <==> forall i :: Decides(i) ==> b[i] == HeaderFor(id)[i]
  {
    WordsOfHeader(id);
    SameWord(b, HeaderFor(id), 0);
    SameWord(b, HeaderFor(id), 1);
    SameWord(b, HeaderFor(id), 2);
    SameWord(b, HeaderFor(id), 3);
    SameWord(b, HeaderFor(id), 5);
  }

  /** An operation on the header of `slot` passes, bit by bit, through a header that reads as `id`. */
  ghost predicate MayReadAs(m: Mem, op: Op, slot: nat, id: u32)
    requires slot < BLOB_SLOTS && op.Legal()
  {
    forall i :: Decides(i) ==> Between(m[SlotBase(slot) + i], HeaderFor(id)[i], op.Applied(m)[SlotBase(slot) + i])
  }

  ghost predicate OnHeader(op: Op, slot: nat)
    requires slot < BLOB_SLOTS
  {
    op.Legal() && forall i :: SlotBase(slot) <= i < SlotBase(slot) + Blob.HEADER_LEN ==> op.Touches(i)
  }

  /** What the operation leaves if it is caught on the way to reading as `id`. */
  function CaughtAs(m: Mem, slot: nat, id: u32): Mem
    requires slot < BLOB_SLOTS
  {
    seq(FLASH_SIZE, i requires 0 <= i < FLASH_SIZE => CaughtByte(m, slot, id, i))
  }

  function CaughtByte(m: Mem, slot: nat, id: u32, i: nat): byte
    requires slot < BLOB_SLOTS && i < FLASH_SIZE
  {
    if Decides(i - SlotBase(slot)) then HeaderFor(id)[i - SlotBase(slot)] else m[i]
  }

  lemma HoldsWhatWasCaught(m: Mem, slot: nat, id: u32)
    requires slot < BLOB_SLOTS
    ensures SlotId(CaughtAs(m, slot, id), slot) == Some(id) && OnlySlot(m, CaughtAs(m, slot, id), slot)
  {
    ReadsAsIff(Photo.HeaderAt(CaughtAs(m, slot, id), slot), id);
    SlotIdIs(CaughtAs(m, slot, id), slot);
  }

  lemma SameBitsBetween(b: byte, c: byte)
    ensures Between(b, b, c)
  {
    BetweenIs(b, b, c);
    XorSelf(b as bv8, c as bv8);
  }

  lemma CaughtByteBetween(m: Mem, op: Op, slot: nat, id: u32, i: nat)
    requires slot < BLOB_SLOTS && op.Legal() && MayReadAs(m, op, slot, id) && i < FLASH_SIZE
    ensures Between(m[i], CaughtByte(m, slot, id, i), op.Applied(m)[i])
  {
    var k := i - SlotBase(slot);
    if Decides(k) {
      assert Between(m[SlotBase(slot) + k], HeaderFor(id)[k], op.Applied(m)[SlotBase(slot) + k]);
    } else {
      SameBitsBetween(m[i], op.Applied(m)[i]);
    }
  }

  lemma CaughtIsTorn(m: Mem, op: Op, slot: nat, id: u32)
    requires slot < BLOB_SLOTS && OnHeader(op, slot) && MayReadAs(m, op, slot, id)
    ensures op.Torn(m, CaughtAs(m, slot, id)) && SlotId(CaughtAs(m, slot, id), slot) == Some(id)
  {
    HoldsWhatWasCaught(m, slot, id);
    var left := CaughtAs(m, slot, id);
    forall i | 0 <= i < FLASH_SIZE
      ensures left[i] == CaughtByte(m, slot, id, i) && Between(m[i], left[i], op.Applied(m)[i])
      ensures !op.Touches(i) ==> left[i] == m[i]
    {
      CaughtByteBetween(m, op, slot, id, i);
    }
  }

  /** An operation caught on the header of `slot` can leave it reading as `id` if and only if it passes through such a header. */
  lemma TornReadsAsIff(m: Mem, op: Op, slot: nat, id: u32)
    requires slot < BLOB_SLOTS && OnHeader(op, slot)
    ensures (exists left: Mem :: op.Torn(m, left) && SlotId(left, slot) == Some(id)) <==> MayReadAs(m, op, slot, id)
  {
    if MayReadAs(m, op, slot, id) {
      CaughtIsTorn(m, op, slot, id);
    }
    forall left: Mem | op.Torn(m, left) && SlotId(left, slot) == Some(id)
      ensures MayReadAs(m, op, slot, id)
    {
      TornReadsAs(m, op, slot, id, left);
    }
  }

  lemma TornReadsAs(m: Mem, op: Op, slot: nat, id: u32, left: Mem)
    requires slot < BLOB_SLOTS && OnHeader(op, slot) && op.Torn(m, left) && SlotId(left, slot) == Some(id)
    ensures MayReadAs(m, op, slot, id)
  {
    SlotIdIs(left, slot);
    ReadsAsIff(Photo.HeaderAt(left, slot), id);
    forall i | Decides(i)
      ensures Between(m[SlotBase(slot) + i], HeaderFor(id)[i], op.Applied(m)[SlotBase(slot) + i])
    {
      assert Photo.HeaderAt(left, slot)[i] == left[SlotBase(slot) + i];
      assert op.Touches(SlotBase(slot) + i);
    }
  }

  /** Entry `k` holds what another entry holds too. */
  predicate Clashes(c: Cache, k: nat)
    requires k < SLOTS
  {
    c[k].Some? && exists j :: 0 <= j < SLOTS && j != k && c[j] == c[k]
  }

  /** Once slot `k` has been rewritten, no two slots hold the same photo exactly if it does not clash. */
  lemma UniqueIff(m: Mem, left: Mem, k: nat)
    requires k < SLOTS && OnlySlot(m, left, FIRST_SLOT + k) && Unique(CacheOf(m))
    ensures Unique(CacheOf(left)) <==> !Clashes(CacheOf(left), k)
  {
    OneEntry(m, left, k);
    var c := CacheOf(left);
    if !Clashes(c, k) {
      forall i, j | 0 <= i < j < SLOTS && c[i].Some?
        ensures c[i] != c[j]
      {
        if i != k && j != k {
          assert CacheOf(m)[i] != CacheOf(m)[j];
        }
      }
    }
  }

  lemma TornOnlySlot(m: Mem, op: Op, slot: nat, left: Mem)
    requires slot < BLOB_SLOTS && Within(slot, op) && op.Torn(m, left)
    ensures OnlySlot(m, left, slot)
  {}

  /** Another entry than `k` holds an id that the header of `k` passes through. */
  ghost predicate PassesAnother(m: Mem, op: Op, k: nat, j: nat)
    requires k < SLOTS && op.Legal()
  {
    j < SLOTS && j != k && CacheOf(m)[j].Some? && MayReadAs(m, op, FIRST_SLOT + k, CacheOf(m)[j].value)
  }

  /**
   Before an operation on the header of slot `k` begins it can be told whether power
   failing inside it can make two slots hold the same photo: exactly if some other
   slot holds an id the header passes through.
   */
  lemma TornMayClashIff(m: Mem, op: Op, k: nat)
    requires k < SLOTS && OnHeader(op, FIRST_SLOT + k) && Within(FIRST_SLOT + k, op) && Unique(CacheOf(m))
    ensures (exists left: Mem :: op.Torn(m, left) && !Unique(CacheOf(left))) <==> exists j :: PassesAnother(m, op, k, j)
  {
    forall left: Mem | op.Torn(m, left) && !Unique(CacheOf(left))
      ensures exists j :: PassesAnother(m, op, k, j)
    {
      var j := ClashingEntry(m, op, k, left);
    }
    if j: nat :| PassesAnother(m, op, k, j) {
      CaughtIsTorn(m, op, FIRST_SLOT + k, CacheOf(m)[j].value);
      CaughtShares(m, k, j, CacheOf(m)[j].value);
    }
  }

  lemma ClashingEntry(m: Mem, op: Op, k: nat, left: Mem) returns (j: nat)
    requires k < SLOTS && OnHeader(op, FIRST_SLOT + k) && Within(FIRST_SLOT + k, op) && Unique(CacheOf(m))
    requires op.Torn(m, left) && !Unique(CacheOf(left))
    ensures PassesAnother(m, op, k, j)
  {
    TornOnlySlot(m, op, FIRST_SLOT + k, left);
    j := SharedEntry(m, left, k);
    TornReadsAs(m, op, FIRST_SLOT + k, CacheOf(m)[j].value, left);
  }

  lemma SharedEntry(m: Mem, left: Mem, k: nat) returns (j: nat)
    requires k < SLOTS && OnlySlot(m, left, FIRST_SLOT + k) && Unique(CacheOf(m)) && !Unique(CacheOf(left))
    ensures j < SLOTS && j != k && CacheOf(m)[j].Some? && SlotId(left, FIRST_SLOT + k) == CacheOf(m)[j]
  {
    UniqueIff(m, left, k);
    OneEntry(m, left, k);
    j :| 0 <= j < SLOTS && j != k && CacheOf(left)[j] == CacheOf(left)[k];
  }

  lemma SharedIsNotUnique(c: Cache, j: nat, k: nat)
    requires j < SLOTS && k < SLOTS && j != k && c[j].Some? && c[j] == c[k]
    ensures !Unique(c)
  {
    var lo, hi := if j < k then j else k, if j < k then k else j;
    assert c[lo].Some? && c[lo] == c[hi];
  }

  lemma CaughtShares(m: Mem, k: nat, j: nat, id: u32)
    requires k < SLOTS && j < SLOTS && j != k && CacheOf(m)[j] == Some(id)
    ensures !Unique(CacheOf(CaughtAs(m, FIRST_SLOT + k, id)))
  {
    CaughtKeepsOthers(m, k, id);
    SharedIsNotUnique(CacheOf(m)[k := Some(id)], j, k);
  }

  // --- emptying a slot -----------------------------------------------------

  /** The first thing a fetch, or a reset, does to a slot. */
  function Emptying(slot: nat): Op
    requires slot < BLOB_SLOTS
  {
    Erase(SlotBase(slot), DataStart(slot))
  }

  lemma EmptyingIsOnHeader(slot: nat)
    requires slot < BLOB_SLOTS
    ensures OnHeader(Emptying(slot), slot) && Within(slot, Emptying(slot))
  {}

  /** Emptying the slot of photo `id` passes through photo `other` exactly if `other` has every bit of `id`. */
  lemma EmptyingMayReadAsIff(m: Mem, slot: nat, id: u32, other: u32)
    requires slot < BLOB_SLOTS && SlotId(m, slot) == Some(id) && Emptying(slot).Legal()
    ensures MayReadAs(m, Emptying(slot), slot, other) <==> forall i :: 0 <= i < 4 ==> Between(Le32(id)[i], Le32(other)[i], 0xFF)
  {
    forall i | Decides(i)
      ensures Between(m[SlotBase(slot) + i], HeaderFor(other)[i], Emptying(slot).Applied(m)[SlotBase(slot) + i])
         <==> (i < 16 || Between(Le32(id)[i - 20], Le32(other)[i - 20], 0xFF))
    {
      PassedByte(m, slot, id, other, i);
    }
    if MayReadAs(m, Emptying(slot), slot, other) {
      forall i | 0 <= i < 4
        ensures Between(Le32(id)[i], Le32(other)[i], 0xFF)
      {
        assert Decides(20 + i);
      }
    }
  }

  lemma PassedByte(m: Mem, slot: nat, id: u32, other: u32, i: nat)
    requires slot < BLOB_SLOTS && SlotId(m, slot) == Some(id) && Emptying(slot).Legal() && Decides(i)
    ensures Emptying(slot).Applied(m)[SlotBase(slot) + i] == 0xFF
    ensures i < 16 ==> Between(m[SlotBase(slot) + i], HeaderFor(other)[i], 0xFF)
    ensures 20 <= i ==> m[SlotBase(slot) + i] == Le32(id)[i - 20] && HeaderFor(other)[i] == Le32(other)[i - 20]
  {
    SlotIdIs(m, slot);
    ReadsAsIff(Photo.HeaderAt(m, slot), id);
    assert Photo.HeaderAt(m, slot)[i] == m[SlotBase(slot) + i] == HeaderFor(id)[i];
    if i < 16 {
      SameStart(id, other, i);
      SameBitsBetween(m[SlotBase(slot) + i], 0xFF);
    } else {
      HeaderParts(id);
      HeaderParts(other);
      assert HeaderFor(id)[20..24][i - 20] == HeaderFor(id)[i];
      assert HeaderFor(other)[20..24][i - 20] == HeaderFor(other)[i];
    }
  }

  lemma SameStart(id: u32, other: u32, i: nat)
    requires i < 16
    ensures HeaderFor(id)[i] == HeaderFor(other)[i]
  {
    assert HeaderFor(id)[..16] == HeaderFor(other)[..16];
    assert HeaderFor(id)[..16][i] == HeaderFor(id)[i] && HeaderFor(other)[..16][i] == HeaderFor(other)[i];
  }

  lemma OneBitOfThree()
    ensures Between(1, 3, 0xFF)
  {
    BetweenIs(1, 3, 0xFF);
    ByteThroughBv(1);
    ByteThroughBv(3);
    ByteThroughBv(0xFF);
  }

  /** It does happen: power goes while the slot of photo 1 is emptied, one bit has risen, and two slots hold photo 3. */
  lemma PhotoOneReadsAsThree() returns (m: Mem, left: Mem)
    ensures CacheOf(m) == [Some(1), Some(3), None, None, None, None] && Unique(CacheOf(m))
    ensures Emptying(FIRST_SLOT).Legal() && Emptying(FIRST_SLOT).Torn(m, left)
    ensures CacheOf(left)[0] == CacheOf(left)[1] == Some(3)
  {
    m := OneAndThree();
    CacheAt(m, 0);
    left := CaughtAs(m, FIRST_SLOT, 3);
    EmptyingIsOnHeader(FIRST_SLOT);
    PassesThroughThree(m, FIRST_SLOT);
    CaughtIsTorn(m, Emptying(FIRST_SLOT), FIRST_SLOT, 3);
    CaughtKeepsOthers(m, 0, 3);
  }

  lemma PassesThroughThree(m: Mem, slot: nat)
    requires slot < BLOB_SLOTS && SlotId(m, slot) == Some(1) && Emptying(slot).Legal()
    ensures MayReadAs(m, Emptying(slot), slot, 3)
  {
    BytesOfThree();
    EmptyingMayReadAsIff(m, slot, 1, 3);
  }

  lemma BytesOfThree()
    ensures forall i :: 0 <= i < 4 ==> Between(Le32(1)[i], Le32(3)[i], 0xFF)
  {
    OneBitOfThree();
    SameBitsBetween(0, 0xFF);
    assert Le32(1) == [1, 0, 0, 0] && Le32(3) == [3, 0, 0, 0];
  }

  lemma CaughtKeepsOthers(m: Mem, k: nat, id: u32)
    requires k < SLOTS
    ensures CacheOf(CaughtAs(m, FIRST_SLOT + k, id)) == CacheOf(m)[k := Some(id)]
  {
    HoldsWhatWasCaught(m, FIRST_SLOT + k, id);
    OneEntry(m, CaughtAs(m, FIRST_SLOT + k, id), k);
  }

  /** A flash with photo 1 in the first album slot, photo 3 in the second, and nothing else. */
  lemma OneAndThree() returns (m: Mem)
    ensures CacheOf(m) == [Some(1), Some(3), None, None, None, None] && Unique(CacheOf(m))
  {
    var blank: Mem := Repeat(0xFF, FLASH_SIZE);
    BlankHoldsNothing(blank);
    var one := CaughtAs(blank, FIRST_SLOT, 1);
    CaughtKeepsOthers(blank, 0, 1);
    m := CaughtAs(one, FIRST_SLOT + 1, 3);
    CaughtKeepsOthers(one, 1, 3);
  }

  lemma BlankHoldsNothing(m: Mem)
    requires forall i :: 0 <= i < FLASH_SIZE ==> m[i] == 0xFF
    ensures CacheOf(m) == [None, None, None, None, None, None]
  {
    forall k | 0 <= k < SLOTS
      ensures CacheOf(m)[k] == None
    {
      CacheAt(m, k);
      EmptyHoldsNothing(m, FIRST_SLOT + k);
    }
  }
}
