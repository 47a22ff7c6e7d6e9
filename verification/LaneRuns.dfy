/**
 The lane protocol under every interleaving of the shell, the agent, the apps
 and the Wi-Fi task: what becomes of a request, and who sees its outcome.
 */
module LaneRuns {
  import opened Bytes
  import opened Wrappers
  import opened Net

  type AppId = nat

  /**
   The lanes, the request the Wi-Fi task is serving, the app on screen, the apps
   that believe a fetch of theirs is under way, and whether the agent does. The
   rest is bookkeeping that no step depends on.
   */
  datatype World = World(
    lanes: Lanes,
    flight: Option<(Lane, Request)>,
    running: Option<AppId>,
    waiting: set<AppId>,
    agentBusy: bool,
    book: Book)

  /**
   `current[l]` is the last request accepted on lane `l`; `mine` the request an
   app waits for; `body` the answers to small requests and `lastSmall[l]` the
   latest of them on lane `l`; `entered` is the first id not yet used when the
   app on screen was opened; `overtaken` counts the app requests completed
   while a system request was waiting to be taken.
   */
  datatype Book = Book(
    unused: nat,
    accepted: set<nat>,
    posted: set<nat>,
    returned: set<nat>,
    lost: set<nat>,
    current: seq<nat>,
    small: set<nat>,
    mine: map<AppId, nat>,
    body: map<nat, seq<byte>>,
    lastSmall: seq<Option<nat>>,
    entered: nat,
    overtaken: nat)

  datatype Event =
    /** The app on screen, waiting for nothing, asks for a fetch. */
    | AppFetch(sink: Sink, stamp: seq<byte>)
    /** The app on screen polls for the outcome it waits for. */
    | AppTake
    /** The shell opens an app; `on_enter` forgets what it waited for. */
    | Enter(app: AppId)
    | Leave
    | AgentFetch(sink: Sink)
    | AgentTake
    | WifiTake
    | WifiPost(outcome: Result<FetchResult, FetchError>, bytes: seq<byte>)
    | Link(up: bool)

  const NOTHING := Book(0, {}, {}, {}, {}, [0, 0], {}, map[], map[], [None, None], 0, 0)
  const POWER_ON := World(START, None, None, {}, false, NOTHING)

  predicate Shape(w: World) {
    w.lanes.Shaped() && |w.book.current| == |w.book.lastSmall| == LANES
  }

  predicate Enabled(w: World, e: Event) {
    match e
    case AppFetch(_, _) => w.running.Some? && w.running.value !in w.waiting
    case AppTake => w.running.Some? && w.running.value in w.waiting
    case Enter(_) => true
    case Leave => true
    case AgentFetch(_) => !w.agentBusy
    case AgentTake => w.agentBusy
    case WifiTake => w.flight.None? && w.lanes.up
    case WifiPost(_, bytes) => w.flight.Some? && |bytes| == SMALL_BODY_MAX
    case Link(_) => w.flight.None?
  }

  /** Accepting a request: an outcome nobody took is overwritten. */
  function Accepted(b: Book, lane: Lane, job: JobState, sink: Sink): Book
    requires |b.current| == LANES
  {
    b.(unused := b.unused + 1,
       accepted := b.accepted + {b.unused},
       lost := if Finished(job) then b.lost + {b.current[Index(lane)]} else b.lost,
       current := b.current[Index(lane) := b.unused],
       small := if sink.Small? then b.small + {b.unused} else b.small,
       overtaken := if lane == System then 0 else b.overtaken)
  }

  function Returned(b: Book, lane: Lane, job: JobState): Book
    requires |b.current| == LANES
  {
    if Finished(job) then b.(returned := b.returned + {b.current[Index(lane)]}) else b
  }

  function Next(w: World, e: Event): (w': World)
    requires Shape(w) && Enabled(w, e)
    ensures Shape(w')
  {
    match e
    case AppFetch(sink, stamp) =>
      var (lanes, r) := Fetch(w.lanes, true, App, Request(w.book.unused, sink, stamp));
      if r.Err? then w
      else
        var a := w.running.value;
        w.(lanes := lanes, waiting := w.waiting + {a},
           book := Accepted(w.book, App, w.lanes.jobs[0], sink).(mine := w.book.mine[a := w.book.unused]))
    case AppTake =>
      var (lanes, job) := Take(w.lanes, App);
      w.(lanes := lanes,
         waiting := if Finished(job) then w.waiting - {w.running.value} else w.waiting,
         book := Returned(w.book, App, job))
    case Enter(a) => w.(running := Some(a), waiting := w.waiting - {a}, book := w.book.(entered := w.book.unused))
    case Leave => w.(running := None)
    case AgentFetch(sink) =>
      var (lanes, r) := Fetch(w.lanes, true, System, Request(w.book.unused, sink, []));
      if r.Err? then w
      else w.(lanes := lanes, agentBusy := true, book := Accepted(w.book, System, w.lanes.jobs[1], sink))
    case AgentTake =>
      var (lanes, job) := Take(w.lanes, System);
      w.(lanes := lanes, agentBusy := !Finished(job), book := Returned(w.book, System, job))
    case WifiTake =>
      var (lanes, r) := TakeRequest(w.lanes);
      w.(lanes := lanes, flight := r)
    case WifiPost(outcome, bytes) =>
      var (lane, req) := w.flight.value;
      w.(lanes := Post(w.lanes, lane, req, outcome, bytes),
         flight := None,
         book := w.book.(
           posted := w.book.posted + {req.id},
           body := if outcome.Ok? && req.sink.Small? then w.book.body[req.id := Kept(bytes, outcome.value.len)] else w.book.body,
           lastSmall := if outcome.Ok? && req.sink.Small? then w.book.lastSmall[Index(lane) := Some(req.id)] else w.book.lastSmall,
           overtaken := if lane == App && w.lanes.requests[1].Some? then w.book.overtaken + 1 else w.book.overtaken))
    case Link(up) => w.(lanes := w.lanes.(up := up))
  }

  // --- the invariant -------------------------------------------------------

  predicate InFlight(w: World, l: nat) {
    w.flight.Some? && Index(w.flight.value.0) == l
  }

  /** A lane is pending exactly when its request is queued or being served, never both. */
  ghost predicate PendingOk(w: World, l: nat)
    requires w.lanes.Shaped() && |w.book.current| == LANES && l < LANES
  {
    && (w.lanes.jobs[l] == Pending <==> w.lanes.requests[l].Some? || InFlight(w, l))
    && !(w.lanes.requests[l].Some? && InFlight(w, l))
    && (w.lanes.requests[l].Some? ==> w.lanes.requests[l].value.id == w.book.current[l])
    && (w.lanes.requests[l].Some? ==> (w.lanes.requests[l].value.sink.Small? <==> w.book.current[l] in w.book.small))
    && (InFlight(w, l) ==> w.flight.value.1.id == w.book.current[l])
    && (InFlight(w, l) ==> (w.flight.value.1.sink.Small? <==> w.book.current[l] in w.book.small))
  }

  /** The requests whose outcome is still to come or still to be taken. */
  function Open(w: World): set<nat>
    requires w.lanes.Shaped() && |w.book.current| == LANES
  {
    (if w.lanes.jobs[0] == Idle then {} else {w.book.current[0]}) +
    (if w.lanes.jobs[1] == Idle then {} else {w.book.current[1]})
  }

  /** The requests whose outcome waits to be taken. */
  function Ready(w: World): set<nat>
    requires w.lanes.Shaped() && |w.book.current| == LANES
  {
    (if Finished(w.lanes.jobs[0]) then {w.book.current[0]} else {}) +
    (if Finished(w.lanes.jobs[1]) then {w.book.current[1]} else {})
  }

  /** Every accepted request is open, returned or lost, and only one of these. */
  ghost predicate Accounted(w: World)
    requires w.lanes.Shaped() && |w.book.current| == LANES
  {
    var b := w.book;
    && b.accepted == Open(w) + b.returned + b.lost
    && Open(w) !! b.returned && Open(w) !! b.lost && b.returned !! b.lost
    && b.posted == Ready(w) + b.returned + b.lost
    && b.entered <= b.unused
    && (forall id :: id in b.accepted ==> id < b.unused)
    && (w.lanes.jobs[0] != Idle && w.lanes.jobs[1] != Idle ==> b.current[0] != b.current[1])
  }

  /** The app on screen waits only for the request it issued since it was entered. */
  ghost predicate AppOk(w: World)
    requires w.lanes.Shaped() && |w.book.current| == LANES
  {
    w.running.Some? && w.running.value in w.waiting ==>
      && w.lanes.jobs[0] != Idle
      && w.running.value in w.book.mine && w.book.mine[w.running.value] == w.book.current[0]
      && w.book.current[0] >= w.book.entered
  }

  ghost predicate BodyOk(w: World, l: nat)
    requires w.lanes.Shaped() && |w.book.current| == |w.book.lastSmall| == LANES && l < LANES
  {
    var b := w.book;
    && (b.lastSmall[l].Some? ==> b.lastSmall[l].value in b.body && w.lanes.small[l] == b.body[b.lastSmall[l].value])
    && (w.lanes.jobs[l].Done? && b.current[l] in b.small ==> b.lastSmall[l] == Some(b.current[l]))
    && (w.lanes.jobs[l] == Pending ==> b.current[l] !in b.body)
    && (forall id :: id in b.body ==> id < b.unused)
  }

  ghost predicate Inv(w: World) {
    && Shape(w)
    && PendingOk(w, 0) && PendingOk(w, 1)
    && Accounted(w)
    && AppOk(w)
    && (w.agentBusy <==> w.lanes.jobs[1] != Idle)
    && BodyOk(w, 0) && BodyOk(w, 1)
    && (forall id :: id in w.book.small ==> id < w.book.unused)
    && (w.lanes.requests[1].Some? ==> w.book.overtaken <= 1 && (w.book.overtaken == 1 ==> w.flight.None?))
  }

  lemma StartKeeps()
    ensures Inv(POWER_ON)
  {}

  lemma AppFetchKeeps(w: World, sink: Sink, stamp: seq<byte>)
    requires Inv(w) && Enabled(w, AppFetch(sink, stamp))
    ensures Inv(Next(w, AppFetch(sink, stamp)))
  {
    AppFetchAccounts(w, sink, stamp);
  }

  lemma AppFetchAccounts(w: World, sink: Sink, stamp: seq<byte>)
    requires Inv(w) && Enabled(w, AppFetch(sink, stamp))
    ensures Accounted(Next(w, AppFetch(sink, stamp)))
  {}

  lemma AppTakeKeeps(w: World)
    requires Inv(w) && Enabled(w, AppTake)
    ensures Inv(Next(w, AppTake))
  {}

  lemma AgentFetchKeeps(w: World, sink: Sink)
    requires Inv(w) && Enabled(w, AgentFetch(sink))
    ensures Inv(Next(w, AgentFetch(sink)))
  {}

  lemma AgentTakeKeeps(w: World)
    requires Inv(w) && Enabled(w, AgentTake)
    ensures Inv(Next(w, AgentTake))
  {}

  lemma WifiTakeKeeps(w: World)
    requires Inv(w) && Enabled(w, WifiTake)
    ensures Inv(Next(w, WifiTake))
  {}

  lemma WifiPostAccounts(w: World, outcome: Result<FetchResult, FetchError>, bytes: seq<byte>)
    requires Inv(w) && Enabled(w, WifiPost(outcome, bytes))
    ensures Accounted(Next(w, WifiPost(outcome, bytes)))
  {
    var l := Index(w.flight.value.0);
    assert w.book.current[l] in Open(w);
  }

  lemma WifiPostBodies(w: World, outcome: Result<FetchResult, FetchError>, bytes: seq<byte>, l: nat)
    requires Inv(w) && Enabled(w, WifiPost(outcome, bytes)) && l < LANES
    ensures PendingOk(Next(w, WifiPost(outcome, bytes)), l) && BodyOk(Next(w, WifiPost(outcome, bytes)), l)
  {
    var k := Index(w.flight.value.0);
    assert w.book.current[k] in Open(w);
  }

  lemma WifiPostKeeps(w: World, outcome: Result<FetchResult, FetchError>, bytes: seq<byte>)
    requires Inv(w) && Enabled(w, WifiPost(outcome, bytes))
    ensures Inv(Next(w, WifiPost(outcome, bytes)))
  {
    WifiPostAccounts(w, outcome, bytes);
    WifiPostBodies(w, outcome, bytes, 0);
    WifiPostBodies(w, outcome, bytes, 1);
  }

  lemma StepKeeps(w: World, e: Event)
    requires Inv(w) && Enabled(w, e)
    ensures Inv(Next(w, e))
  {
    match e
    case AppFetch(sink, stamp) => AppFetchKeeps(w, sink, stamp);
    case AppTake => AppTakeKeeps(w);
    case Enter(a) =>
    case Leave =>
    case AgentFetch(sink) => AgentFetchKeeps(w, sink);
    case AgentTake => AgentTakeKeeps(w);
    case WifiTake => WifiTakeKeeps(w);
    case WifiPost(outcome, bytes) => WifiPostKeeps(w, outcome, bytes);
    case Link(up) =>
  }

  // --- every reachable world -----------------------------------------------

  /** Where a list of events leads from power-on, if each of them is possible in its turn. */
  function After(es: seq<Event>): (w: Option<World>)
    ensures w.Some? ==> Shape(w.value)
  {
    if es == [] then Some(POWER_ON)
    else
      var w := After(es[..|es| - 1]);
      if w.Some? && Enabled(w.value, es[|es| - 1]) then Some(Next(w.value, es[|es| - 1])) else None
  }

  ghost predicate Reachable(w: World) {
    exists es :: After(es) == Some(w)
  }

  lemma {:induction false} AfterKeeps(es: seq<Event>)
    ensures After(es).Some? ==> Inv(After(es).value)
  {
    if es == [] {
      StartKeeps();
    } else {
      var w := After(es[..|es| - 1]);
      AfterKeeps(es[..|es| - 1]);
      if w.Some? && Enabled(w.value, es[|es| - 1]) {
        StepKeeps(w.value, es[|es| - 1]);
      }
    }
  }

  /** The invariant holds in every reachable world. */
  lemma ReachableKeeps(w: World)
    requires Reachable(w)
    ensures Inv(w)
  {
    var es :| After(es) == Some(w);
    AfterKeeps(es);
  }

  /**
   The fate of a request: at every moment it is queued or being served, or its
   outcome waits, or was returned, or was overwritten; exactly one of these.
   */
  lemma OneFate(w: World, id: nat)
    requires Reachable(w) && id in w.book.accepted
    ensures Shape(w)
    ensures id in Open(w) || id in w.book.returned || id in w.book.lost
    ensures !(id in Open(w) && id in w.book.returned)
    ensures !(id in Open(w) && id in w.book.lost)
    ensures !(id in w.book.returned && id in w.book.lost)
    ensures id in w.book.posted <==> id in Ready(w) || id in w.book.returned || id in w.book.lost
  {
    ReachableKeeps(w);
  }

  /** The Wi-Fi task answers a request it serves for the first time, and the lane shows it. */
  lemma AnsweredOnce(w: World, outcome: Result<FetchResult, FetchError>, bytes: seq<byte>)
    requires Reachable(w) && Shape(w) && Enabled(w, WifiPost(outcome, bytes))
    ensures var id, l, after := w.flight.value.1.id, Index(w.flight.value.0), Next(w, WifiPost(outcome, bytes));
            && id in w.book.accepted && id !in w.book.posted
            && after.book.posted == w.book.posted + {id}
            && Finished(after.lanes.jobs[l]) && after.book.current[l] == id
  {
    ReachableKeeps(w);
    var l := Index(w.flight.value.0);
    assert w.book.current[l] in Open(w) && w.book.current[l] !in Ready(w);
  }

  /** A finished outcome is handed to one taker, once; nothing else is handed out. */
  lemma ReturnedOnce(w: World, lane: Lane)
    requires Reachable(w) && Shape(w)
    requires Enabled(w, if lane == App then AppTake else AgentTake)
    ensures var l := Index(lane);
            var id, after := w.book.current[l], Next(w, if lane == App then AppTake else AgentTake);
            if Finished(w.lanes.jobs[l])
            then && id in w.book.posted && id !in w.book.returned && id !in w.book.lost
                 && after.book.returned == w.book.returned + {id}
                 && after.lanes.jobs[l] == Idle
            else after.book.returned == w.book.returned
  {
    ReachableKeeps(w);
  }

  /** An app only ever takes the outcome of the request it issued since it was last opened. */
  lemma OwnOutcomeOnly(w: World)
    requires Reachable(w) && Shape(w) && Enabled(w, AppTake)
    ensures w.lanes.jobs[0] != Idle
    ensures var a := w.running.value;
            a in w.book.mine && w.book.mine[a] == w.book.current[0] >= w.book.entered
  {
    ReachableKeeps(w);
  }

  /** What an app calls its own is the request last accepted from it while it was on screen. */
  lemma MineIsTheAcceptedRequest(w: World, e: Event)
    requires Reachable(w) && Shape(w) && Enabled(w, e)
    ensures var after := Next(w, e);
            && (after.book.entered == w.book.entered || (e.Enter? && after.book.entered == w.book.unused))
            && (after.book.mine == w.book.mine ||
                (e.AppFetch? && w.running.Some?
                 && after.book.accepted == w.book.accepted + {w.book.unused} && w.book.unused !in w.book.accepted
                 && after.book.mine == w.book.mine[w.running.value := w.book.unused]))
  {
    ReachableKeeps(w);
  }

  /**
   When an outcome is lost: an app request is accepted while the previous
   outcome on the lane is still waiting. On the system lane this never happens.
   */
  lemma LostIff(w: World, e: Event)
    requires Reachable(w) && Shape(w) && Enabled(w, e)
    ensures Next(w, e).book.lost != w.book.lost <==> e.AppFetch? && w.lanes.up && Finished(w.lanes.jobs[0])
    ensures Next(w, e).book.lost == w.book.lost || Next(w, e).book.lost == w.book.lost + {w.book.current[0]}
  {
    ReachableKeeps(w);
    assert Finished(w.lanes.jobs[0]) ==> w.book.current[0] in Open(w);
  }

  /** It does happen on the app lane: one app leaves before its answer comes, the next one fetches. */
  lemma OutcomeMayBeLost(sink: Sink, r: FetchResult, bytes: seq<byte>)
    requires |bytes| == SMALL_BODY_MAX
    ensures var w1 := Next(Next(POWER_ON, Link(true)), Enter(1));
            var w2 := Next(Next(Next(w1, AppFetch(sink, [])), WifiTake), WifiPost(Ok(r), bytes));
            var w3 := Next(Next(w2, Enter(2)), AppFetch(sink, []));
            w3.book.posted == {0} && w3.book.returned == {} && w3.book.lost == {0}
  {}

  /** A lane is pending exactly while its request is queued or being served. */
  lemma PendingIff(w: World, l: nat)
    requires Reachable(w) && l < LANES
    ensures Shape(w)
    ensures w.lanes.jobs[l] == Pending <==> w.lanes.requests[l].Some? || InFlight(w, l)
    ensures !(w.lanes.requests[l].Some? && InFlight(w, l))
  {
    ReachableKeeps(w);
  }

  /** The agent waits exactly while the system lane has something for it, now or later. */
  lemma AgentNeverWaitsInVain(w: World)
    requires Reachable(w)
    ensures Shape(w) && (w.agentBusy <==> w.lanes.jobs[1] != Idle)
    ensures w.agentBusy ==> w.lanes.requests[1].Some? || InFlight(w, 1) || Finished(w.lanes.jobs[1])
  {
    ReachableKeeps(w);
  }

  /** Between a system request being queued and being taken at most one app request completes. */
  lemma SystemFirst(w: World)
    requires Reachable(w)
    ensures Shape(w)
    ensures w.lanes.requests[1].Some? ==> w.book.overtaken <= 1
    ensures w.lanes.requests[1].Some? && w.book.overtaken == 1 ==> w.flight.None?
    ensures w.lanes.requests[1].Some? && Enabled(w, WifiTake) ==> InFlight(Next(w, WifiTake), 1)
  {
    ReachableKeeps(w);
  }

  /** A small answer can be read once its request is done. */
  lemma SmallBodyIsTheReplys(w: World, l: nat)
    requires Reachable(w) && l < LANES
    ensures Shape(w)
    ensures w.lanes.jobs[l].Done? && w.book.current[l] in w.book.small ==>
      && w.book.lastSmall[l] == Some(w.book.current[l])
      && w.book.current[l] in w.book.body && w.lanes.small[l] == w.book.body[w.book.current[l]]
  {
    ReachableKeeps(w);
  }

  /** It stays readable until the lane's next request completes. */
  lemma SmallBodyStays(w: World, e: Event, l: nat)
    requires Reachable(w) && l < LANES && Shape(w) && Enabled(w, e)
    requires !(e.WifiPost? && InFlight(w, l))
    ensures Next(w, e).lanes.small[l] == w.lanes.small[l]
    ensures Next(w, e).book.lastSmall[l] == w.book.lastSmall[l]
    ensures w.book.lastSmall[l].Some? ==>
      var id := w.book.lastSmall[l].value;
      id in w.book.body && id in Next(w, e).book.body && Next(w, e).book.body[id] == w.book.body[id]
  {
    ReachableKeeps(w);
    if e.WifiPost? {
      PostsElsewhere(w, e, l);
    }
  }

  /** The body of a post goes to its own lane, and under its own request. */
  lemma PostsElsewhere(w: World, e: Event, l: nat)
    requires Inv(w) && l < LANES && e.WifiPost? && Enabled(w, e) && !InFlight(w, l)
    ensures Next(w, e).lanes.small[l] == w.lanes.small[l] && Next(w, e).book.lastSmall[l] == w.book.lastSmall[l]
    ensures forall id :: id in w.book.body ==> id in Next(w, e).book.body && Next(w, e).book.body[id] == w.book.body[id]
  {
    var k := Index(w.flight.value.0);
    assert InFlight(w, k) && w.flight.value.1.id == w.book.current[k] && w.book.current[k] !in w.book.body;
  }
}
