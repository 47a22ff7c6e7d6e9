/** Streaming a firmware image into the update partition. */
module Ota {
  import opened Bytes
  import opened Wrappers
  import opened Flash

  const DFU_SIZE := 0xA_1000

  /** What the boot loader's updater was asked to do, in order. */
  datatype Call = Wrote(at: nat, data: seq<byte>) | Marked

  /** The updater: two operations that may fail, and a record of those that did not. */
  class Updater {
    ghost var calls: seq<Call>
    /** How many operations were refused. */
    ghost var failures: nat

    constructor ()
      ensures calls == [] && failures == 0
    {
      calls := [];
      failures := 0;
    }

    /** Whole pages only, inside the partition. */
    method WriteFirmware(at: nat, data: seq<byte>) returns (ok: bool)
      requires at % PAGE == 0 && |data| % PAGE == 0 && at + |data| <= DFU_SIZE
      modifies this
      ensures calls == if ok then old(calls) + [Wrote(at, data)] else old(calls)
      ensures failures == old(failures) + if ok then 0 else 1
    {
      ok := *;
      if ok {
        calls := calls + [Wrote(at, data)];
      } else {
        failures := failures + 1;
      }
    }

    method MarkUpdated() returns (ok: bool)
      modifies this
      ensures calls == if ok then old(calls) + [Marked] else old(calls)
      ensures failures == old(failures) + if ok then 0 else 1
    {
      ok := *;
      if ok {
        calls := calls + [Marked];
      } else {
        failures := failures + 1;
      }
    }
  }

  function CeilPages(n: nat): nat {
    (n + PAGE - 1) / PAGE * PAGE
  }

  /** `data`, filled up to whole pages with erased bytes. */
  function Padded(data: seq<byte>): (p: seq<byte>)
    ensures |p| == CeilPages(|data|) && |data| <= |p| && p[..|data|] == data
  {
    data + Repeat(0xFF, CeilPages(|data|) - |data|)
  }

  /** The first `k` whole sectors of an image, as the updater gets them. */
  function Sectors(image: seq<byte>, k: nat): (w: seq<Call>)
    requires k * SECTOR <= |image|
    ensures |w| == k
  {
    if k == 0 then []
    else Sectors(image, k - 1) + [Wrote((k - 1) * SECTOR, image[(k - 1) * SECTOR..k * SECTOR])]
  }

  /** Everything the updater gets for an image. */
  function Writes(image: seq<byte>): seq<Call> {
    var k := |image| / SECTOR;
    if |image| % SECTOR == 0 then Sectors(image, k)
    else Sectors(image, k) + [Wrote(k * SECTOR, Padded(image[k * SECTOR..]))]
  }

  class ImageWriter {
    const updater: Updater
    var offset: nat
    const buf: array<byte>
    var fill: nat
    /** Everything handed to the writer, and what the updater had seen before it. */
    ghost var image: seq<byte>
    ghost const before: seq<Call>

    ghost predicate Shape()
      reads this, buf
    {
      && buf.Length == SECTOR && fill <= SECTOR
      && offset % SECTOR == 0 && offset <= DFU_SIZE
      && |image| == offset + fill
      && buf[..fill] == image[offset..]
      && (forall i :: fill <= i < SECTOR ==> buf[i] == 0xFF)
    }

    ghost predicate Valid()
      reads this, buf, updater
    {
      Shape() && fill < SECTOR && updater.calls == before + Sectors(image, offset / SECTOR)
    }

    constructor (updater: Updater)
      ensures Valid() && fresh(buf) && this.updater == updater && image == [] && before == updater.calls
    {
      this.updater := updater;
      offset := 0;
      buf := new byte[SECTOR](_ => 0xFF);
      fill := 0;
      image := [];
      before := updater.calls;
    }

    /** The buffered bytes, filled up to whole pages, go to the updater. */
    method HandOver() returns (ok: bool)
      requires Shape() && 0 < fill && offset + fill <= DFU_SIZE
      modifies updater
      ensures updater.calls == if ok then old(updater.calls) + [Wrote(offset, Padded(image[offset..]))] else old(updater.calls)
      ensures updater.failures == old(updater.failures) + if ok then 0 else 1
    {
      var len := (fill + PAGE - 1) / PAGE * PAGE;
      RoundedUp(offset, fill);
      assert buf[..len] == Padded(image[offset..]);
      ok := updater.WriteFirmware(offset, buf[..len]);
    }

    method Flush() returns (ok: bool)
      requires Shape() && updater.calls == before + Sectors(image, offset / SECTOR)
      modifies this, buf, updater
      ensures image == old(image)
      ensures ok && old(fill) == SECTOR ==> Valid()
      ensures ok ==> fill == 0 && offset == |image| <= DFU_SIZE
      ensures ok && old(fill) < SECTOR ==> updater.calls == before + Writes(image)
      ensures !ok ==> updater.calls == old(updater.calls)
      ensures ok <==> updater.failures == old(updater.failures) && (old(fill) == 0 || |image| <= DFU_SIZE)
      ensures updater.failures == old(updater.failures) + if ok || |image| > DFU_SIZE then 0 else 1
    {
      if fill == 0 {
        return true;
      }
      if offset + fill > DFU_SIZE {
        return false;
      }
      ok := HandOver();
      if !ok {
        return;
      }
      WritesGrow(image, offset, fill);
      offset := offset + fill;
      fill := 0;
      forall i | 0 <= i < buf.Length {
        buf[i] := 0xFF;
      }
    }

    /** Copies a piece that fits into the buffer. */
    method Buffer(piece: seq<byte>)
      requires Valid() && |piece| <= SECTOR - fill
      modifies this, buf
      ensures Shape() && offset == old(offset) && fill == old(fill) + |piece|
      ensures image == old(image) + piece
      ensures updater.calls == before + Sectors(image, offset / SECTOR)
    {
      forall i | 0 <= i < |piece| {
        buf[fill + i] := piece[i];
      }
      assert buf[..fill + |piece|] == buf[..fill] + piece;
      SectorsStable(image, piece, offset / SECTOR);
      fill := fill + |piece|;
      image := image + piece;
    }

    /** Takes in as much as there is room for; a full sector is handed over. */
    method Feed(data: seq<byte>) returns (ok: bool, n: nat)
      requires Valid() && data != []
      modifies this, buf, updater
      ensures 0 < n <= |data|
      ensures ok ==> Valid() && image == old(image) + data[..n]
      ensures Unmarked(updater.calls, before)
      ensures updater.failures >= old(updater.failures) && (ok ==> updater.failures == old(updater.failures))
      ensures !ok && updater.failures == old(updater.failures) ==> |old(image)| + n > DFU_SIZE
    {
      var room := SECTOR - fill;
      n := if room < |data| then room else |data|;
      ok := true;
      Buffer(data[..n]);
      SectorsUnmarked(image, offset / SECTOR, before);
      if fill == SECTOR {
        ok := Flush();
        if ok {
          SectorsUnmarked(image, offset / SECTOR, before);
        }
      }
    }

    /** Takes in `data`, handing over every full sector. */
    method Write(data: seq<byte>) returns (ok: bool)
      requires Valid()
      modifies this, buf, updater
      ensures ok ==> Valid() && image == old(image) + data
      ensures Unmarked(updater.calls, before)
      ensures updater.failures >= old(updater.failures) && (ok ==> updater.failures == old(updater.failures))
      ensures !ok && updater.failures == old(updater.failures) ==> |old(image)| + |data| > DFU_SIZE
    {
      SectorsUnmarked(image, offset / SECTOR, before);
      var rest := data;
      while rest != []
        invariant Valid() && image + rest == old(image) + data
        invariant Unmarked(updater.calls, before) && updater.failures == old(updater.failures)
        decreases |rest|
      {
        var n;
        ok, n := Feed(rest);
        if !ok {
          return;
        }
        assert rest == rest[..n] + rest[n..];
        rest := rest[n..];
      }
      return true;
    }

    /** Hands over the tail and marks the update; the number of bytes in it. */
    method Finish() returns (r: Option<nat>)
      requires Valid()
      modifies this, buf, updater
      ensures r.Some? ==> r.value == |old(image)| <= 0xA_1000
      ensures r.Some? ==> updater.calls == before + Writes(old(image)) + [Marked]
      ensures r.None? ==> Unmarked(updater.calls, before)
      ensures r.Some? <==> updater.failures == old(updater.failures) && |old(image)| <= 0xA_1000
      ensures updater.failures >= old(updater.failures)
    {
      SectorsUnmarked(image, offset / SECTOR, before);
      var ok := Flush();
      if !ok {
        return None;
      }
      WritesUnmarked(image, before);
      ok := updater.MarkUpdated();
      if !ok {
        return None;
      }
      return Some(offset);
    }
  }

  /** Nothing was marked since `before`. */
  ghost predicate Unmarked(calls: seq<Call>, before: seq<Call>) {
    before <= calls && forall i :: |before| <= i < |calls| ==> calls[i].Wrote?
  }

  lemma {:induction false} SectorsUnmarked(image: seq<byte>, k: nat, before: seq<Call>)
    requires k * SECTOR <= |image|
    ensures Unmarked(before + Sectors(image, k), before)
  {
    if k > 0 {
      SectorsUnmarked(image, k - 1, before);
      var last := Sectors(image, k)[k - 1];
      assert before + Sectors(image, k) == before + Sectors(image, k - 1) + [last];
    }
  }

  lemma WritesUnmarked(image: seq<byte>, before: seq<Call>)
    ensures Unmarked(before + Writes(image), before)
  {
    var k := |image| / SECTOR;
    SectorsUnmarked(image, k, before);
    if |image| % SECTOR != 0 {
      var tail := Wrote(k * SECTOR, Padded(image[k * SECTOR..]));
      assert before + Writes(image) == before + Sectors(image, k) + [tail];
    }
  }

  /** Bytes still to come do not change the sectors already handed over. */
  lemma {:induction false} SectorsStable(image: seq<byte>, more: seq<byte>, k: nat)
    requires k * SECTOR <= |image|
    ensures Sectors(image + more, k) == Sectors(image, k)
  {
    if k > 0 {
      SectorsStable(image, more, k - 1);
      assert (image + more)[(k - 1) * SECTOR..k * SECTOR] == image[(k - 1) * SECTOR..k * SECTOR];
    }
  }

  // --- what the calls amount to --------------------------------------------

  /** A partition after a list of calls. */
  function Placed(m: seq<byte>, calls: seq<Call>): (r: seq<byte>)
    ensures |r| == |m|
  {
    if calls == [] then m
    else
      var p := Placed(m, calls[..|calls| - 1]);
      match calls[|calls| - 1]
      case Wrote(at, data) => if at + |data| <= |m| then p[..at] + data + p[at + |data|..] else p
      case Marked => p
  }

  /** Every write is page-aligned, of whole pages and inside the partition. */
  predicate InRange(calls: seq<Call>) {
    forall c :: c in calls ==> c.Wrote? && c.at % 256 == 0 && |c.data| % 256 == 0 && c.at + |c.data| <= 0xA_1000
  }

  /** Writing `data` right after what is in place already. */
  lemma PlaceNext(m: seq<byte>, done: seq<byte>, data: seq<byte>)
    requires |done| + |data| <= |m|
    ensures var p := done + m[|done|..];
            p[..|done|] + data + p[|done| + |data|..] == done + data + m[|done| + |data|..]
  {}

  lemma {:induction false} SectorsPlaced(m: seq<byte>, image: seq<byte>, k: nat)
    requires k * SECTOR <= |image| && k * SECTOR <= |m| == DFU_SIZE
    ensures Placed(m, Sectors(image, k)) == image[..k * SECTOR] + m[k * SECTOR..]
  {
    if k == 0 {
      assert image[..0] + m[0..] == m;
    } else {
      SectorsPlaced(m, image, k - 1);
      var lo, hi := (k - 1) * SECTOR, k * SECTOR;
      PlacedOneMore(m, Sectors(image, k - 1), Wrote(lo, image[lo..hi]));
      PlaceNext(m, image[..lo], image[lo..hi]);
      assert image[..hi] == image[..lo] + image[lo..hi];
    }
  }

  lemma {:induction false} SectorsInRange(image: seq<byte>, k: nat)
    requires k * SECTOR <= |image| && k * SECTOR <= DFU_SIZE
    ensures InRange(Sectors(image, k))
  {
    if k > 0 {
      SectorsInRange(image, k - 1);
      assert (k - 1) * SECTOR % PAGE == 0;
    }
  }

  lemma WritesInRange(image: seq<byte>)
    requires |image| <= DFU_SIZE
    ensures InRange(Writes(image))
  {
    var k := |image| / SECTOR;
    SectorsInRange(image, k);
    if |image| % SECTOR != 0 {
      TailInRange(|image|, k);
    }
  }

  lemma PaddedSplit(image: seq<byte>, k: nat)
    requires k == |image| / SECTOR && |image| <= DFU_SIZE
    ensures CeilPages(|image|) <= DFU_SIZE
    ensures |image| % SECTOR == 0 ==> Padded(image) == image[..k * SECTOR]
    ensures |image| % SECTOR != 0 ==> Padded(image) == image[..k * SECTOR] + Padded(image[k * SECTOR..])
  {
    assert image == image[..k * SECTOR] + image[k * SECTOR..];
    if |image| % SECTOR != 0 {
      TailInRange(|image|, k);
      TailPadding(image, k * SECTOR);
    } else {
      assert k * SECTOR == |image| && CeilPages(|image|) == |image|;
    }
  }

  lemma TailPadding(image: seq<byte>, at: nat)
    requires at <= |image| && CeilPages(|image|) == at + CeilPages(|image| - at)
    ensures Padded(image) == image[..at] + Padded(image[at..])
  {}

  lemma PlacedOneMore(m: seq<byte>, calls: seq<Call>, c: Call)
    requires c.Wrote? && c.at + |c.data| <= |m|
    ensures var p := Placed(m, calls);
            Placed(m, calls + [c]) == p[..c.at] + c.data + p[c.at + |c.data|..]
  {
    assert (calls + [c])[..|calls + [c]| - 1] == calls;
  }

  /** The writes put the image, filled up to whole pages, at the start of the partition. */
  lemma WritesPlaceImage(m: seq<byte>, image: seq<byte>)
    requires |m| == DFU_SIZE && |image| <= DFU_SIZE
    ensures CeilPages(|image|) <= DFU_SIZE
    ensures Placed(m, Writes(image)) == Padded(image) + m[CeilPages(|image|)..]
    ensures InRange(Writes(image))
  {
    var k := |image| / SECTOR;
    var at := k * SECTOR;
    WritesInRange(image);
    PaddedSplit(image, k);
    SectorsPlaced(m, image, k);
    if |image| % SECTOR != 0 {
      TailPlaced(m, Sectors(image, k), image[..at], Padded(image[at..]));
    }
  }

  /** Byte for byte: the image, erased bytes to the end of its last page, and what was there. */
  lemma ImageInPlace(m: seq<byte>, image: seq<byte>, i: nat)
    requires |m| == DFU_SIZE && |image| <= DFU_SIZE && i < |m|
    ensures var end := (|image| + 255) / 256 * 256;
            Placed(m, Writes(image))[i] == if i < |image| then image[i] else if i < end then 0xFF else m[i]
  {
    WritesPlaceImage(m, image);
  }

  lemma TailPlaced(m: seq<byte>, calls: seq<Call>, done: seq<byte>, tail: seq<byte>)
    requires |done| + |tail| <= |m| && Placed(m, calls) == done + m[|done|..]
    ensures Placed(m, calls + [Wrote(|done|, tail)]) == done + tail + m[|done| + |tail|..]
  {
    PlacedOneMore(m, calls, Wrote(|done|, tail));
    PlaceNext(m, done, tail);
  }

  lemma RoundedUp(offset: nat, fill: nat)
    requires offset % SECTOR == 0 && 0 < fill <= SECTOR && offset + fill <= DFU_SIZE
    ensures fill <= CeilPages(fill) <= SECTOR && offset + CeilPages(fill) <= DFU_SIZE
    ensures offset % PAGE == 0 && CeilPages(fill) % PAGE == 0
  {}

  /** What is handed over next: one more sector, or the tail. */
  lemma WritesGrow(image: seq<byte>, offset: nat, fill: nat)
    requires offset % SECTOR == 0 && 0 < fill <= SECTOR && |image| == offset + fill
    ensures var more := [Wrote(offset, Padded(image[offset..]))];
            if fill == SECTOR
            then (offset + fill) / SECTOR * SECTOR == |image|
                 && Sectors(image, offset / SECTOR) + more == Sectors(image, (offset + fill) / SECTOR) == Writes(image)
            else Sectors(image, offset / SECTOR) + more == Writes(image)
  {
    var k := offset / SECTOR;
    assert k * SECTOR == offset;
    if fill == SECTOR {
      assert |image| / SECTOR == k + 1 && |image| % SECTOR == 0;
      assert Padded(image[offset..]) == image[offset..offset + SECTOR];
    } else {
      assert |image| / SECTOR == k && |image| % SECTOR == fill;
    }
  }

  lemma TailInRange(n: nat, k: nat)
    requires k == n / SECTOR && n % SECTOR != 0 && n <= DFU_SIZE
    ensures CeilPages(n) == k * SECTOR + CeilPages(n - k * SECTOR) <= DFU_SIZE
    ensures k * SECTOR % PAGE == 0 && CeilPages(n - k * SECTOR) % PAGE == 0
  {}
}
