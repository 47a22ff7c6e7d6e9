/**
 The body-streaming loops of the HTTP client. A connection is the list of what
 its reads return; when the body counts as complete is `BodyOf`.
 */
module Http {
  import opened Bytes
  import opened Wrappers
  import opened Flash
  import opened Blob
  import Crc32
  import Ota

  /** The head and whatever follows it fit one buffer of this size. */
  const HEAD_MAX := 1024

  datatype FetchError = Protocol | TooLarge | StorageFailed | UpdateFailed

  /** One read: some bytes, none when the peer closed, or an error. */
  datatype Read = Data(bytes: seq<byte>) | Broken

  predicate Declared(length: Option<u32>, n: nat) {
    length.None? || length.value == n
  }

  /** A body once reading stopped: complete if it is as long as declared. */
  function Settled(length: Option<u32>, got: seq<byte>): Result<seq<byte>, FetchError> {
    if Declared(length, |got|) then Ok(got) else Err(Protocol)
  }

  /**
   The body a connection delivers after `got`, or why it counts as incomplete.
   `cap` is the largest body accepted. A connection that goes silent times out.
   */
  function BodyOf(length: Option<u32>, got: seq<byte>, input: seq<Read>, cap: Option<nat>): Result<seq<byte>, FetchError>
    decreases |input|
  {
    if length.Some? && |got| >= length.value then Settled(length, got)
    else if input == [] || input[0].Broken? then Err(Protocol)
    else if input[0].bytes == [] then Settled(length, got)
    else if cap.Some? && |got| + |input[0].bytes| > cap.value then Err(TooLarge)
    else BodyOf(length, got + input[0].bytes, input[1..], cap)
  }

  /** The bytes of a list of successful reads. */
  function Joined(input: seq<Read>): seq<byte>
    requires forall r :: r in input ==> r.Data?
  {
    if input == [] then [] else input[0].bytes + Joined(input[1..])
  }

  /**
   A body declared to be complete is what arrived, in order: nothing dropped,
   and exactly as long as promised.
   */
  lemma {:induction false} CompleteBody(length: Option<u32>, got: seq<byte>, input: seq<Read>, cap: Option<nat>) returns (n: nat)
    requires BodyOf(length, got, input, cap).Ok?
    ensures n <= |input| && forall r :: r in input[..n] ==> r.Data?
    ensures BodyOf(length, got, input, cap).value == got + Joined(input[..n])
    ensures Declared(length, |BodyOf(length, got, input, cap).value|)
    ensures length.None? ==> n < |input| && input[n] == Data([])
    ensures cap.Some? && |got| <= cap.value ==> |BodyOf(length, got, input, cap).value| <= cap.value
    decreases |input|
  {
    if length.Some? && |got| >= length.value {
      n := 0;
    } else if input[0].bytes == [] {
      n := 0;
    } else {
      var m := CompleteBody(length, got + input[0].bytes, input[1..], cap);
      n := m + 1;
      assert input[..n][1..] == input[1..][..m];
      assert got + input[0].bytes + Joined(input[1..][..m]) == got + Joined(input[..n]);
    }
  }

  /** However a body of the declared length is cut into reads, it is accepted as that body. */
  lemma {:induction false} ChunkingIrrelevant(got: seq<byte>, input: seq<Read>, after: seq<Read>, cap: Option<nat>, length: u32)
    requires forall r :: r in input ==> r.Data? && r.bytes != []
    requires |got + Joined(input)| == length
    requires cap.Some? ==> length <= cap.value
    ensures BodyOf(Some(length), got, input + after, cap) == Ok(got + Joined(input))
    decreases |input|
  {
    if input == [] {
      assert got + Joined(input) == got;
    } else {
      assert got + input[0].bytes + Joined(input[1..]) == got + Joined(input);
      assert (input + after)[1..] == input[1..] + after;
      ChunkingIrrelevant(got + input[0].bytes, input[1..], after, cap, length);
    }
  }

  /** Without a declared length the peer's closing ends the body, and nothing else does. */
  lemma {:induction false} UndeclaredBody(got: seq<byte>, input: seq<Read>, after: seq<Read>, cap: Option<nat>)
    requires forall r :: r in input ==> r.Data? && r.bytes != []
    requires cap.Some? ==> |got + Joined(input)| <= cap.value
    ensures BodyOf(None, got, input + [Data([])] + after, cap) == Ok(got + Joined(input))
    ensures BodyOf(None, got, input, cap) == Err(Protocol) && BodyOf(None, got, input + [Broken] + after, cap) == Err(Protocol)
    decreases |input|
  {
    if input == [] {
      assert got + Joined(input) == got;
    } else {
      assert got + input[0].bytes + Joined(input[1..]) == got + Joined(input);
      assert (input + [Data([])] + after)[1..] == input[1..] + [Data([])] + after;
      assert (input + [Broken] + after)[1..] == input[1..] + [Broken] + after;
      UndeclaredBody(got + input[0].bytes, input[1..], after, cap);
    }
  }

  /** A body that ends before it is as long as declared is refused, however it ends. */
  lemma {:induction false} ShortBody(got: seq<byte>, input: seq<Read>, after: seq<Read>, cap: Option<nat>, length: u32)
    requires forall r :: r in input ==> r.Data? && r.bytes != []
    requires |got + Joined(input)| < length
    ensures BodyOf(Some(length), got, input, cap).Err? && BodyOf(Some(length), got, input + [Broken] + after, cap).Err?
    ensures BodyOf(Some(length), got, input + [Data([])] + after, cap).Err?
    decreases |input|
  {
    if input != [] {
      assert got + input[0].bytes + Joined(input[1..]) == got + Joined(input);
      assert (input + [Data([])] + after)[1..] == input[1..] + [Data([])] + after;
      assert (input + [Broken] + after)[1..] == input[1..] + [Broken] + after;
      ShortBody(got + input[0].bytes, input[1..], after, cap, length);
    }
  }

  /** `Sink::Blob`: the body goes straight into a slot. `early` came with the head. */
  method FetchBlob(flash: Nor, slot: nat, kind: u32, sequence: u32, length: Option<u32>, early: seq<byte>, input: seq<Read>)
    returns (r: Result<BlobHeader, FetchError>)
    requires flash.Valid() && slot < BLOB_SLOTS && |early| <= HEAD_MAX
    modifies flash, flash.mem
    ensures flash.Valid()
    ensures forall i :: 0 <= i < FLASH_SIZE && !InSlot(slot, i) ==> flash.mem[i] == old(flash.mem[i])
    ensures OnlyWithin(flash, slot)
    ensures length.Some? && length.value > BLOB_DATA_MAX ==> r == Err(TooLarge) && flash.Image() == old(flash.Image())
    ensures r.Ok? ==> Complete(flash.Image(), slot, kind, sequence, BodyOf(length, early, input, Some(BLOB_DATA_MAX)), r.value)
    ensures flash.failures == old(flash.failures) + if r == Err(StorageFailed) then 1 else 0
    ensures r.Ok? <==>
      && flash.failures == old(flash.failures)
      && (length.None? || length.value <= BLOB_DATA_MAX)
      && BodyOf(length, early, input, Some(BLOB_DATA_MAX)).Ok?
    ensures r.Err? && r.error != StorageFailed && (length.None? || length.value <= BLOB_DATA_MAX) ==>
      && BodyOf(length, early, input, Some(BLOB_DATA_MAX)) == Err(r.error)
      && Empty(flash.Image(), slot)
  {
    if length.Some? && length.value > BLOB_DATA_MAX {
      return Err(TooLarge);
    }
    var begun := Begin(flash, slot, kind, sequence);
    if begun.Err? {
      return Err(StorageFailed);
    }
    r := FillSlot(begun.value, length, early, input);
  }

  /** The body of a fetch, once its slot is empty. */
  method FillSlot(w: BlobWriter, length: Option<u32>, early: seq<byte>, input: seq<Read>) returns (r: Result<BlobHeader, FetchError>)
    requires w.Valid() && w.body == [] && |early| <= HEAD_MAX
    modifies w, w.buf, w.crc, w.flash, w.flash.mem
    ensures w.flash.Valid() && OnlyWithin(w.flash, w.slot)
    ensures forall i :: 0 <= i < FLASH_SIZE && !InSlot(w.slot, i) ==> w.flash.mem[i] == old(w.flash.mem[i])
    ensures w.flash.failures == old(w.flash.failures) + if r == Err(StorageFailed) then 1 else 0
    ensures r.Ok? ==> Complete(w.flash.Image(), w.slot, w.kind, w.sequence, BodyOf(length, early, input, Some(BLOB_DATA_MAX)), r.value)
    ensures r.Err? && r.error != StorageFailed ==>
      && BodyOf(length, early, input, Some(BLOB_DATA_MAX)) == Err(r.error)
      && Empty(w.flash.Image(), w.slot)
  {
    if early != [] {
      var ok := w.Write(early);
      if ok.Err? {
        return Err(StorageFailed);
      }
      assert [] + early == early;
    }
    var streamed := StreamBlob(w, length, input);
    if streamed.Err? {
      return Err(streamed.error);
    }
    if length.Some? && length.value != streamed.value {
      return Err(Protocol);
    }
    var finished := w.Finish();
    if finished.Err? {
      return Err(StorageFailed);
    }
    return Ok(finished.value);
  }

  /** `slot` holds the whole of a body that arrived complete. */
  predicate Complete(m: Mem, slot: nat, kind: u32, sequence: u32, body: Result<seq<byte>, FetchError>, h: BlobHeader)
    requires slot < BLOB_SLOTS
  {
    && body.Ok? && ReadData(m, slot) == Some(body.value) && ReadHeader(m, slot) == Some(h)
    && h == BlobHeader(kind, |body.value|, Crc32.Crc(body.value), sequence)
  }

  /** The read loop: feeds the writer until the declared length, the end, or trouble. */
  method StreamBlob(w: BlobWriter, length: Option<u32>, input: seq<Read>) returns (r: Result<nat, FetchError>)
    requires w.Valid() && |w.body| <= BLOB_DATA_MAX
    modifies w, w.buf, w.crc, w.flash, w.flash.mem
    ensures w.flash.Valid() && OnlyDataChanged(w.flash, w.slot)
    ensures w.flash.failures == old(w.flash.failures) + if r == Err(StorageFailed) then 1 else 0
    ensures r.Ok? ==> w.Valid() && r.value == |w.body| <= BLOB_DATA_MAX
    ensures r.Ok? ==>
      BodyOf(length, old(w.body), input, Some(BLOB_DATA_MAX)) == Settled(length, w.body)
    ensures r.Err? && r.error != StorageFailed ==>
      BodyOf(length, old(w.body), input, Some(BLOB_DATA_MAX)) == Err(r.error) && Empty(w.flash.Image(), w.slot)
  {
    var total := w.written + w.fill;
    var i := 0;
    assert input[0..] == input;
    while true
      invariant 0 <= i <= |input| && w.Valid() && OnlyDataChanged(w.flash, w.slot)
      invariant total == |w.body| <= BLOB_DATA_MAX
      invariant w.flash.failures == old(w.flash.failures)
      invariant BodyOf(length, w.body, input[i..], Some(BLOB_DATA_MAX)) == BodyOf(length, old(w.body), input, Some(BLOB_DATA_MAX))
      decreases |input| - i
    {
      if length.Some? && total >= length.value {
        break;
      }
      if i == |input| || input[i].Broken? {
        return Err(Protocol);
      }
      var piece := input[i].bytes;
      if piece == [] {
        break;
      }
      if total + |piece| > BLOB_DATA_MAX {
        return Err(TooLarge);
      }
      var ok := w.Write(piece);
      if ok.Err? {
        return Err(StorageFailed);
      }
      assert input[i..][1..] == input[i + 1..];
      total := total + |piece|;
      i := i + 1;
    }
    return Ok(total);
  }

  /** The body is complete and no longer than the update partition. */
  predicate Fits(length: Option<u32>, got: seq<byte>, input: seq<Read>) {
    BodyOf(length, got, input, None).Ok? && |BodyOf(length, got, input, None).value| <= Ota.DFU_SIZE
  }

  lemma {:induction false} BodyGrows(length: Option<u32>, got: seq<byte>, input: seq<Read>, cap: Option<nat>)
    ensures BodyOf(length, got, input, cap).Ok? ==> |BodyOf(length, got, input, cap).value| >= |got|
    decreases |input|
  {
    if BodyOf(length, got, input, cap).Ok? && !(length.Some? && |got| >= length.value) && input[0].bytes != [] {
      BodyGrows(length, got + input[0].bytes, input[1..], cap);
    }
  }

  /** `Sink::Firmware`: the image goes to the updater and is marked only if complete. */
  method FetchFirmware(updater: Ota.Updater, length: Option<u32>, early: seq<byte>, input: seq<Read>)
    returns (r: Result<nat, FetchError>)
    modifies updater
    ensures r.Ok? ==>
      && BodyOf(length, early, input, None).Ok?
      && var image := BodyOf(length, early, input, None).value;
        && r.value == |image| <= Ota.DFU_SIZE
        && updater.calls == old(updater.calls) + Ota.Writes(image) + [Ota.Marked]
    ensures r.Err? ==> Ota.Unmarked(updater.calls, old(updater.calls))
    ensures updater.failures >= old(updater.failures)
    ensures r.Ok? <==> updater.failures == old(updater.failures) && Fits(length, early, input)
    ensures r.Err? && r.error != UpdateFailed ==> BodyOf(length, early, input, None) == Err(r.error)
  {
    var w := new Ota.ImageWriter(updater);
    BodyGrows(length, early, input, None);
    if early != [] {
      var ok := w.Write(early);
      if !ok {
        return Err(UpdateFailed);
      }
      assert [] + early == early;
    }
    var streamed := StreamImage(w, length, input);
    if streamed.Err? {
      return Err(streamed.error);
    }
    if length.Some? && length.value != streamed.value {
      return Err(Protocol);
    }
    var finished := w.Finish();
    if finished.None? {
      return Err(UpdateFailed);
    }
    return Ok(finished.value);
  }

  method StreamImage(w: Ota.ImageWriter, length: Option<u32>, input: seq<Read>) returns (r: Result<nat, FetchError>)
    requires w.Valid() && Ota.Unmarked(w.updater.calls, w.before)
    modifies w, w.buf, w.updater
    ensures Ota.Unmarked(w.updater.calls, w.before)
    ensures r.Ok? ==> w.Valid() && r.value == |w.image|
    ensures r.Ok? ==> BodyOf(length, old(w.image), input, None) == Settled(length, w.image)
    ensures r.Err? && r.error != UpdateFailed ==> BodyOf(length, old(w.image), input, None) == Err(r.error)
    ensures w.updater.failures >= old(w.updater.failures) && (r.Ok? ==> w.updater.failures == old(w.updater.failures))
    ensures r.Err? && w.updater.failures == old(w.updater.failures) ==> !Fits(length, old(w.image), input)
  {
    var total := w.offset + w.fill;
    var i := 0;
    assert input[0..] == input;
    while true
      invariant 0 <= i <= |input| && w.Valid() && Ota.Unmarked(w.updater.calls, w.before)
      invariant total == |w.image| && w.updater.failures == old(w.updater.failures)
      invariant BodyOf(length, w.image, input[i..], None) == BodyOf(length, old(w.image), input, None)
      decreases |input| - i
    {
      if length.Some? && total >= length.value {
        break;
      }
      if i == |input| || input[i].Broken? {
        return Err(Protocol);
      }
      var piece := input[i].bytes;
      if piece == [] {
        break;
      }
      BodyGrows(length, w.image + piece, input[i + 1..], None);
      assert input[i..][1..] == input[i + 1..];
      var ok := w.Write(piece);
      if !ok {
        return Err(UpdateFailed);
      }
      assert input[i..][1..] == input[i + 1..];
      total := total + |piece|;
      i := i + 1;
    }
    return Ok(total);
  }
}
