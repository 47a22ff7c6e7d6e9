/**
 The state shared between the shell task and the Wi-Fi task: one request slot
 and one job per lane. `Fetch`, `Take`, `TakeRequest` and `Post` say what one
 critical section does; the class is the critical sections.
 */
module Net {
  import opened Bytes
  import opened FixedStrs
  import opened Wrappers

  const SMALL_BODY_MAX := 1024
  const LANES := 2

  datatype Lane = App | System

  function Index(lane: Lane): (i: nat)
    ensures i < LANES
  {
    match lane
    case App => 0
    case System => 1
  }

  datatype Sink = Blob(slot: nat, kind: u32, sequence: u32) | Small | Firmware | Frame

  /** `id` only names the request in proofs; nothing reads it. */
  datatype Request = Request(id: nat, sink: Sink, ifModifiedSince: seq<byte>)

  datatype FetchResult = FetchResult(status: u16, len: u32, lastModified: FixedStr)

  datatype FetchError = NoNetwork | Busy | Other

  datatype JobState = Idle | Pending | Done(result: FetchResult) | Failed(error: FetchError)

  predicate Finished(job: JobState) {
    job.Done? || job.Failed?
  }

  datatype Lanes = Lanes(up: bool, requests: seq<Option<Request>>, jobs: seq<JobState>, small: seq<seq<byte>>) {
    predicate Shaped() {
      |requests| == LANES && |jobs| == LANES && |small| == LANES
    }
  }

  const START := Lanes(false, [None, None], [Idle, Idle], [[], []])

  /** `fetch_on`: what is refused, and what acceptance changes. */
  function Fetch(s: Lanes, hasRadio: bool, lane: Lane, req: Request): (Lanes, Result<(), FetchError>)
    requires s.Shaped()
  {
    if !hasRadio || !s.up then (s, Err(NoNetwork))
    else if s.jobs[Index(lane)] == Pending then (s, Err(Busy))
    else (s.(requests := s.requests[Index(lane) := Some(req)], jobs := s.jobs[Index(lane) := Pending]), Ok(()))
  }

  /** `take_job_on`: a finished job is handed out once. */
  function Take(s: Lanes, lane: Lane): (Lanes, JobState)
    requires s.Shaped()
  {
    var job := s.jobs[Index(lane)];
    (if Finished(job) then s.(jobs := s.jobs[Index(lane) := Idle]) else s, job)
  }

  /** The Wi-Fi task's pick: the system lane goes first. */
  function TakeRequest(s: Lanes): (Lanes, Option<(Lane, Request)>)
    requires s.Shaped()
  {
    if s.requests[1].Some? then (s.(requests := s.requests[1 := None]), Some((System, s.requests[1].value)))
    else if s.requests[0].Some? then (s.(requests := s.requests[0 := None]), Some((App, s.requests[0].value)))
    else (s, None)
  }

  /** What a small body keeps of `len` received bytes. */
  function Kept(body: seq<byte>, len: u32): (k: seq<byte>)
    requires |body| == SMALL_BODY_MAX
    ensures |k| == (if len < 1024 then len else 1024) <= |body| && k == body[..|k|]
  {
    body[..if len < SMALL_BODY_MAX then len else SMALL_BODY_MAX]
  }

  /** The Wi-Fi task's answer to a request it took. */
  function Post(s: Lanes, lane: Lane, req: Request, outcome: Result<FetchResult, FetchError>, body: seq<byte>): Lanes
    requires s.Shaped() && |body| == SMALL_BODY_MAX
  {
    match outcome
    case Ok(r) =>
      s.(jobs := s.jobs[Index(lane) := Done(r)],
         small := if req.sink.Small? then s.small[Index(lane) := Kept(body, r.len)] else s.small)
    case Err(e) => s.(jobs := s.jobs[Index(lane) := Failed(e)])
  }

  class Shared {
    var up: bool
    var requests: seq<Option<Request>>
    var jobs: seq<JobState>
    var smallBody: seq<seq<byte>>
    var smallLen: seq<nat>

    ghost predicate Valid()
      reads this
    {
      && |requests| == LANES && |jobs| == LANES && |smallBody| == LANES && |smallLen| == LANES
      && forall i :: 0 <= i < LANES ==> |smallBody[i]| == SMALL_BODY_MAX && smallLen[i] <= SMALL_BODY_MAX
    }

    ghost function Snapshot(): (s: Lanes)
      requires Valid()
      reads this
      ensures s.Shaped()
    {
      Lanes(up, requests, jobs, [smallBody[0][..smallLen[0]], smallBody[1][..smallLen[1]]])
    }

    constructor ()
      ensures Valid() && Snapshot() == START
    {
      up := false;
      requests := [None, None];
      jobs := [Idle, Idle];
      smallBody := [Repeat(0, SMALL_BODY_MAX), Repeat(0, SMALL_BODY_MAX)];
      smallLen := [0, 0];
    }

    method FetchOn(hasRadio: bool, lane: Lane, req: Request) returns (r: Result<(), FetchError>)
      requires Valid()
      modifies this
      ensures Valid() && (Snapshot(), r) == Fetch(old(Snapshot()), hasRadio, lane, req)
    {
      if !hasRadio {
        return Err(NoNetwork);
      }
      if !up {
        return Err(NoNetwork);
      }
      if jobs[Index(lane)] == Pending {
        return Err(Busy);
      }
      requests := requests[Index(lane) := Some(req)];
      jobs := jobs[Index(lane) := Pending];
      return Ok(());
    }

    method TakeJobOn(lane: Lane) returns (job: JobState)
      requires Valid()
      modifies this
      ensures Valid() && (Snapshot(), job) == Take(old(Snapshot()), lane)
    {
      job := jobs[Index(lane)];
      match job
      case Done(_) => jobs := jobs[Index(lane) := Idle];
      case Failed(_) => jobs := jobs[Index(lane) := Idle];
      case Idle =>
      case Pending =>
    }

    /** The body of the last small fetch that succeeded on `lane`. */
    method SmallBodyOn(lane: Lane) returns (body: seq<byte>)
      requires Valid()
      ensures body == Snapshot().small[Index(lane)]
    {
      body := smallBody[Index(lane)][..smallLen[Index(lane)]];
    }

    /** One pass of the serve loop: take the most urgent request, if any. */
    method NextRequest() returns (r: Option<(Lane, Request)>)
      requires Valid()
      modifies this
      ensures Valid() && (Snapshot(), r) == TakeRequest(old(Snapshot()))
    {
      var order := [System, App];
      for i := 0 to |order|
        invariant Valid() && Snapshot() == old(Snapshot())
        invariant i > 0 ==> requests[1].None?
        invariant i > 1 ==> requests[0].None?
      {
        var lane := order[i];
        var request := requests[Index(lane)];
        if request.Some? {
          requests := requests[Index(lane) := None];
          return Some((lane, request.value));
        }
      }
      return None;
    }

    method PostOutcome(lane: Lane, req: Request, outcome: Result<FetchResult, FetchError>, body: seq<byte>)
      requires Valid() && |body| == SMALL_BODY_MAX
      modifies this
      ensures Valid() && Snapshot() == Post(old(Snapshot()), lane, req, outcome, body)
    {
      var i := Index(lane);
      match outcome
      case Ok(r) =>
        if req.sink == Small {
          var n := if r.len < SMALL_BODY_MAX then r.len else SMALL_BODY_MAX;
          var kept := body[..n] + smallBody[i][n..];
          assert kept[..n] == body[..n];
          smallBody := smallBody[i := kept];
          smallLen := smallLen[i := n];
        }
        jobs := jobs[i := Done(r)];
      case Err(e) =>
        jobs := jobs[i := Failed(e)];
    }
  }
}
