/** What the Wi-Fi task does with an app's request for a blob, from taking it up to posting the outcome. */
module Serving {
  import opened Blob
  import opened Bytes
  import opened FixedStrs
  import opened Flash
  import opened Net
  import opened Wrappers
  import Http

  /** What the server's side of a connection comes to. */
  datatype Response =
    | NoHead(error: FetchError)
    | Head(status: u16, stamp: FixedStr, length: Option<u32>, early: seq<byte>, input: seq<Http.Read>)

  function Arrived(response: Response): Result<seq<byte>, Http.FetchError>
    requires response.Head?
  {
    Http.BodyOf(response.length, response.early, response.input, Some(BLOB_DATA_MAX))
  }

  /** The server sent a whole body that a slot can take. */
  predicate Whole(response: Response) {
    && response.Head? && response.status == 200
    && (response.length.None? || response.length.value <= BLOB_DATA_MAX) && Arrived(response).Ok?
  }

  predicate Good(job: JobState) {
    job.Done? && job.result.status == 200
  }

  /** The slot holds the body that arrived, under the header that was asked for. */
  predicate Stored(m: Mem, sink: Sink, response: Response)
    requires sink.Blob? && sink.slot < BLOB_SLOTS
  {
    && response.Head? && Arrived(response).Ok?
    && ReadData(m, sink.slot) == Some(Arrived(response).value)
    && ReadHeader(m, sink.slot).Some?
    && ReadHeader(m, sink.slot).value.kind == sink.kind
    && ReadHeader(m, sink.slot).value.len == |Arrived(response).value|
    && ReadHeader(m, sink.slot).value.sequence == sink.sequence
  }

  ghost predicate OnlySlot(m: Mem, left: Mem, slot: nat)
    requires slot < BLOB_SLOTS
  {
    forall i :: 0 <= i < FLASH_SIZE && !InSlot(slot, i) ==> left[i] == m[i]
  }

  /** Power cut anywhere among the operations of the log from `n` on leaves the other slots as in `m`. */
  ghost predicate CutsStayInSlot(m: Mem, slot: nat, log: seq<Op>, n: nat)
    requires slot < BLOB_SLOTS && forall op :: op in log ==> op.Legal()
  {
    n <= |log| && forall left :: Interrupted(m, log[n..], left) ==> OnlySlot(m, left, slot)
  }

  /**
   Serves one request. The job is good exactly if the whole body arrived and no driver
   call failed, and then the slot holds it; whatever happens, even to the power, the
   other slots stay as they are.
   */
  method ServeBlob(flash: Nor, net: Shared, req: Request, response: Response)
    requires flash.Valid() && net.Valid() && req.sink.Blob? && req.sink.slot < BLOB_SLOTS
    requires response.Head? ==> |response.early| <= Http.HEAD_MAX
    modifies flash, flash.mem, net
    ensures flash.Valid() && net.Valid() && Finished(net.jobs[0]) && flash.failures >= old(flash.failures)
    ensures Good(net.jobs[0]) <==> Whole(response) && flash.failures == old(flash.failures)
    ensures Good(net.jobs[0]) ==>
      && Stored(flash.Image(), req.sink, response)
      && net.jobs[0].result == FetchResult(200, |Arrived(response).value|, response.stamp)
    ensures net.jobs[0].Done? && !Good(net.jobs[0]) ==>
      && response.Head? && net.jobs[0].result == FetchResult(response.status, 0, response.stamp)
      && flash.Image() == old(flash.Image())
    ensures OnlySlot(old(flash.Image()), flash.Image(), req.sink.slot)
    ensures CutsStayInSlot(old(flash.Image()), req.sink.slot, flash.log, |old(flash.log)|)
  {
    ghost var before, n := flash.Image(), |flash.log|;
    var outcome := Fetched(flash, req.sink, response);
    net.PostOutcome(App, req, outcome, Repeat(0, SMALL_BODY_MAX));
    WithinStays(before, req.sink.slot, flash.log, n);
  }

  lemma WithinStays(m: Mem, slot: nat, log: seq<Op>, n: nat)
    requires slot < BLOB_SLOTS && n <= |log| && (forall op :: op in log ==> op.Legal())
    requires forall k :: n <= k < |log| ==> Within(slot, log[k])
    ensures CutsStayInSlot(m, slot, log, n)
  {
    var ops := log[n..];
    forall op | op in ops
      ensures op.Legal() && Within(slot, op)
    {
      var k :| 0 <= k < |ops| && ops[k] == op;
      assert log[n + k] == op;
    }
    forall left | Interrupted(m, ops, left)
      ensures OnlySlot(m, left, slot)
    {
      CutStaysWithin(m, slot, ops, left);
    }
  }

  /** The fetch itself: only a good head is followed by work on the flash. */
  method Fetched(flash: Nor, sink: Sink, response: Response) returns (outcome: Result<FetchResult, FetchError>)
    requires flash.Valid() && sink.Blob? && sink.slot < BLOB_SLOTS
    requires response.Head? ==> |response.early| <= Http.HEAD_MAX
    modifies flash, flash.mem
    ensures flash.Valid() && OnlyWithin(flash, sink.slot) && flash.failures >= old(flash.failures)
    ensures OnlySlot(old(flash.Image()), flash.Image(), sink.slot)
    ensures outcome.Ok? && outcome.value.status == 200 <==> Whole(response) && flash.failures == old(flash.failures)
    ensures outcome.Ok? && outcome.value.status == 200 ==>
      && Stored(flash.Image(), sink, response)
      && outcome.value == FetchResult(200, |Arrived(response).value|, response.stamp)
    ensures outcome.Ok? && outcome.value.status != 200 ==>
      && response.Head? && outcome.value == FetchResult(response.status, 0, response.stamp)
      && flash.Image() == old(flash.Image())
  {
    ghost var before := flash.Image();
    if response.NoHead? {
      return Err(response.error);
    }
    if response.status != 200 {
      return Ok(FetchResult(response.status, 0, response.stamp));
    }
    var r := Http.FetchBlob(flash, sink.slot, sink.kind, sink.sequence, response.length, response.early, response.input);
    assert forall i :: 0 <= i < FLASH_SIZE ==> flash.mem[i] == flash.Image()[i] && old(flash.mem[i]) == before[i];
    if r.Err? {
      return Err(FetchError.Other);
    }
    return Ok(FetchResult(200, r.value.len, response.stamp));
  }
}
