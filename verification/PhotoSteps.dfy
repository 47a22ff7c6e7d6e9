/**
 The methods of the photo frame and of the Wi-Fi task are the steps of `PhotoRuns`: every
 frame of the app, clearing the cache, a reset, and the service of a request. The settings
 that the agent and the portal store are in `SettingSteps`; other apps, and other flash
 traffic, are the runs' foreign events. A config write that the driver refuses is a step
 as long as torn sectors are as `TornDetected` says.
 */
module PhotoSteps {
  import opened Bytes
  import opened FixedStrs
  import opened Wrappers
  import opened Flash
  import opened Net
  import opened PhotoRuns
  import opened Serving
  import Blob
  import Cells
  import ConfigStore
  import Http
  import Photo
  import PhotoFrame
  import Record
  import Storage
  import StorageRuns

  /** What the app lane's job says about the phase. */
  predicate PhaseFits(lane: Phase, job: JobState) {
    match lane
    case Quiet => job == Idle
    case Queued(_) => job == Pending
    case Writing(_) => job == Pending
    case Answered(_, Reply(status, len, stamp)) =>
      job.Done? && job.result.status == status && job.result.len == len && job.result.lastModified == stamp
    case Answered(_, Trouble) => job.Failed?
    case Foreign(pending) => if pending then job == Pending else Finished(job)
  }

  /** The world `w` describes a running photo frame, its store, and its lane. */
  ghost predicate Describes(w: World, app: PhotoFrame.PhotoFrame, store: Storage.Storage, net: Shared)
    requires store.Valid() && net.Valid()
    reads app, store, store.flash, store.flash.mem, net
  {
    && w.dev == store.View() && w.running
    && w.fetching == app.fetching && w.pendingSlot == app.pendingSlot && w.force == app.force
    && PhaseFits(w.lane, net.jobs[0])
  }

  // --- the app -------------------------------------------------------------

  /** Opening the app. */
  method Enter(app: PhotoFrame.PhotoFrame, store: Storage.Storage, net: Shared, now: u32, ghost w: World) returns (ghost w': World)
    requires store.Valid() && net.Valid() && w.dev == store.View() && PhaseFits(w.lane, net.jobs[0])
    requires w.Named() < 2 && InLane(w) && w.pendingSlot == app.pendingSlot
    modifies app
    ensures LaneStep(w, Event.Enter, w') && Describes(w', app, store, net)
  {
    app.OnEnter(store, now);
    w' := w.(running := true, fetching := false, force := !Photo.Shows(w.dev.mem, w.Named()), spoiled := false);
  }

  /** Asking for a photo: a step if the lane takes part, and nothing at all without a link. */
  method Fetch(app: PhotoFrame.PhotoFrame, store: Storage.Storage, net: Shared, id: nat, now: u32, ghost w: World)
    returns (ghost w': World)
    requires store.Valid() && net.Valid() && Describes(w, app, store, net)
    requires w.Named() < 2 && InLane(w) && !w.fetching
    modifies app, net
    ensures net.Valid() && Describes(w', app, store, net)
    ensures w' == w || LaneStep(w, Event.Fetch, w')
    ensures old(net.up) ==> LaneStep(w, Event.Fetch, w')
  {
    app.StartFetch(net, store, id, now);
    w' := w;
    if app.fetching {
      w' := w.(lane := Queued(Photo.Target(w.Named())), fetching := true, pendingSlot := Photo.Target(w.Named()));
    }
  }

  /** What a refused config write left is as assumed of torn sectors. */
  ghost predicate AsAssumed(w: World, mem: Mem, next: Record.Config, left: Mem) {
    StorageRuns.TornDetected(Storage.ConfigCodec(), mem, left, next, Cells.Next(w.dev.sequence))
  }

  /** The world once an answer is taken in. */
  ghost function Polled(w: World, force: bool, d: StorageRuns.Device<Record.Config>, ok: bool): World
    requires w.Named() < 2
  {
    w.(lane := Quiet, fetching := false, force := force, dev := d,
       spoiled := if Adopts(w).None? then w.spoiled else !ok && !Photo.Shows(w.dev.mem, w.Named()))
  }

  /** The answer is taken in, or the driver refused to store what it brought. */
  ghost predicate PollSteps(w: World, ok: bool, w': World)
    requires w.Named() < 2
  {
    && (ok ==> PollStep(Storage.ConfigCodec(), w, w'))
    && (!ok ==> Adopts(w).Some?)
    && (!ok && AsAssumed(w, w.dev.mem, Adopts(w).value, w'.dev.mem) ==> PollFailsStep(Storage.ConfigCodec(), w, w'.dev.mem, w'))
  }

  lemma TakenIsPolled(w: World, job: JobState, force: bool, d': StorageRuns.Device<Record.Config>, outcome: Result<(), ConfigStore.StorageError>)
    requires w.running && w.fetching && w.lane.Answered? && w.pendingSlot < 2 && w.Named() < 2
    requires PhaseFits(w.lane, job) && PhotoFrame.TakenIn(w.dev, w.pendingSlot, job, outcome, d')
    requires force == (!PhotoFrame.Adopts(w.dev.mem, w.pendingSlot, job) && w.force)
    ensures PollSteps(w, outcome.Ok?, Polled(w, force, d', outcome.Ok?))
  {}

  /** Taking the answer that was waited for. The app goes on alike when the driver refuses to store the config. */
  method Poll(app: PhotoFrame.PhotoFrame, store: Storage.Storage, net: Shared, now: u32, saver: bool, ghost w: World)
    returns (ghost w': World, ghost outcome: Result<(), ConfigStore.StorageError>)
    requires store.Valid() && net.Valid() && Describes(w, app, store, net)
    requires w.fetching && w.lane.Answered? && w.lane.slot == w.pendingSlot < 2 && w.Named() < 2
    requires w.lane.answer.Reply? ==> w.lane.answer.stamp.Wf(Record.STAMP_MAX)
    modifies app, net, store, store.flash, store.flash.mem
    ensures net.Valid() && store.Valid() && Describes(w', app, store, net)
    ensures store.flash.failures == old(store.flash.failures) + if outcome.Ok? then 0 else 1
    ensures PollSteps(w, outcome.Ok?, w')
  {
    ghost var job := net.jobs[0];
    outcome := app.TakeAnswer(net, store, now, saver);
    w' := Polled(w, app.force, store.View(), outcome.Ok?);
    TakenIsPolled(w, job, app.force, store.View(), outcome);
  }

  /** A photo that is waited for is the one its lane has on the way. */
  predicate Waits(w: World) {
    w.fetching && (w.lane.Queued? || w.lane.Writing? || w.lane.Answered?) && w.lane.slot == w.pendingSlot
  }

  /** L has just been held for two seconds, or not. */
  ghost predicate HoldSteps(w: World, forces: bool, held: World)
    requires w.Named() < 2
  {
    if forces then LaneStep(w, Hold, held) else held == w
  }

  /** A frame of the app while it waits: at most a `Hold`, and then the answer is taken if it is there. */
  method FrameWaiting(app: PhotoFrame.PhotoFrame, store: Storage.Storage, net: Shared, id: nat, now: u32, saver: bool, lDown: bool, ghost w: World)
    returns (ghost held: World, ghost w': World, ghost outcome: Result<(), ConfigStore.StorageError>)
    requires store.Valid() && net.Valid() && Describes(w, app, store, net)
    requires w.Named() < 2 && InLane(w) && Waits(w)
    requires w.lane.Answered? && w.lane.answer.Reply? ==> w.lane.answer.stamp.Wf(Record.STAMP_MAX)
    modifies app, net, store, store.flash, store.flash.mem
    ensures net.Valid() && store.Valid() && Describes(w', app, store, net)
    ensures HoldSteps(w, old(app.Forces(now, lDown)), held)
    ensures if w.lane.Answered? then PollSteps(held, outcome.Ok?, w') else w' == held
  {
    held := w.(force := w.force || app.Forces(now, lDown));
    ghost var job := net.jobs[0];
    outcome := app.Update(net, store, id, now, saver, lDown);
    w' := held;
    if w.lane.Answered? {
      w' := Polled(held, app.force, store.View(), outcome.Ok?);
      TakenIsPolled(held, job, app.force, store.View(), outcome);
    }
  }

  /**
   What a request for a photo says of the world it is made in: it goes to the slot that
   is not named, and carries the stamp exactly if nothing forces the fetch and there is one.
   */
  predicate Carries(q: Request, w: World, slot: nat) {
    && q.sink == Sink.Blob(slot, 0x5048_4F54, 0) && slot < 2 && slot != w.Named()
    && (q.ifModifiedSince != [] <==> !w.force && !w.Stamp().IsEmpty())
    && (q.ifModifiedSince != [] ==> w.Stamp().len <= |w.Stamp().buf| && q.ifModifiedSince == w.Stamp().Text())
  }

  lemma AsksCarries(q: Request, c: Record.Config, slot: nat, w: World)
    requires c.Wf() && w.dev.value == c && w.Named() < 2 && PhotoFrame.Asks(q, c, w.force, slot)
    ensures Carries(q, w, slot)
  {
    Record.WfIs(c);
  }

  /** A frame while it does not: at most a `Hold`, and then it asks for a photo, if it is time and the link is up. */
  method FrameIdle(app: PhotoFrame.PhotoFrame, store: Storage.Storage, net: Shared, id: nat, now: u32, saver: bool, lDown: bool, ghost w: World)
    returns (ghost held: World, ghost w': World)
    requires store.Valid() && net.Valid() && Describes(w, app, store, net)
    requires w.Named() < 2 && InLane(w) && !w.fetching
    modifies app, net, store, store.flash, store.flash.mem
    ensures net.Valid() && store.Valid() && Describes(w', app, store, net)
    ensures HoldSteps(w, old(app.Forces(now, lDown)), held)
    ensures if old(app.DueToAsk(now, lDown) && net.up) then LaneStep(held, Event.Fetch, w') else w' == held
    ensures w'.fetching ==> net.requests[0].Some? && Carries(net.requests[0].value, held, w'.lane.slot)
  {
    held := w.(force := w.force || app.Forces(now, lDown));
    ghost var outcome := app.Update(net, store, id, now, saver, lDown);
    w' := if app.fetching then held.(lane := Queued(Photo.Target(w.Named())), fetching := true, pendingSlot := Photo.Target(w.Named())) else held;
    if app.fetching {
      AsksCarries(net.requests[0].value, store.config, app.pendingSlot, held);
    }
  }

  /**
   In every run: a conditional request carries the stamp that came with the very bytes in
   the named slot, and these are a complete photo unless the world is spoiled.
   */
  method FrameInRun(app: PhotoFrame.PhotoFrame, store: Storage.Storage, net: Shared, id: nat, now: u32, saver: bool, lDown: bool,
      ghost ws: seq<World>, ghost es: seq<Event>) returns (ghost w': World)
    requires Run(Storage.ConfigCodec(), ws, es) && StampSafeUpTo(Storage.ConfigCodec(), ws, es, |es|)
    requires store.Valid() && net.Valid() && Describes(ws[|es|], app, store, net) && !ws[|es|].fetching
    modifies app, net, store, store.flash, store.flash.mem
    ensures net.Valid() && store.Valid() && Describes(w', app, store, net) && w'.dev == ws[|es|].dev && w'.Named() < 2
    ensures w'.fetching ==> net.requests[0].Some?
    ensures w'.fetching && net.requests[0].value.ifModifiedSince != [] ==>
      && w'.Stamp().len <= |w'.Stamp().buf| && net.requests[0].value.ifModifiedSince == w'.Stamp().Text()
      && (w'.Stamp(), Photo.At(w'.dev.mem, w'.Named())) in w'.received
      && (Photo.Shows(w'.dev.mem, w'.Named()) <==> !w'.spoiled)
  {
    ghost var w := ws[|es|];
    RunKeeps(Storage.ConfigCodec(), ws, es, |es|);
    ghost var held;
    held, w' := FrameIdle(app, store, net, id, now, saver, lDown, w);
    if w'.fetching && net.requests[0].value.ifModifiedSince != [] {
      ConditionalFetchHasItsPhoto(Storage.ConfigCodec(), ws, es, |es|);
    }
  }

  /**
   From the server to the screen: the Wi-Fi task serves the app's request, and the next
   frame takes the answer. A whole photo that came without a refused driver call is
   then the one that the config names, with its stamp; otherwise the config stays.
   */
  method ServeAndTake(app: PhotoFrame.PhotoFrame, store: Storage.Storage, net: Shared, req: Request, response: Response, id: nat,
      now: u32, saver: bool, lDown: bool)
    requires store.Valid() && net.Valid() && app.fetching && app.pendingSlot < 2 && store.config.frameSlot < Blob.BLOB_SLOTS
    requires req.sink == Sink.Blob(app.pendingSlot, 0x5048_4F54, 0)
    requires response.Head? ==> |response.early| <= Http.HEAD_MAX && response.stamp.Wf(Record.STAMP_MAX)
    modifies app, net, store, store.flash, store.flash.mem
    ensures store.Valid() && net.Valid() && !app.fetching
    ensures Whole(response) && |Arrived(response).value| == 40960 && store.flash.failures == old(store.flash.failures) ==>
      && store.config == old(store.config).(frameSlot := old(app.pendingSlot), frameLastModified := response.stamp)
      && Blob.ReadData(store.flash.Image(), old(app.pendingSlot)) == Some(Arrived(response).value)
      && app.photoOnScreen && !app.force
    ensures !(Whole(response) && |Arrived(response).value| == 40960) ==> store.config == old(store.config)
  {
    ServeBlob(store.flash, net, req, response);
    if Good(net.jobs[0]) {
      StoredIsShown(store.flash.Image(), req.sink, response);
    }
    TakeFrame(app, store, net, id, now, saver, lDown);
  }

  /** The frame that takes a finished answer. */
  method TakeFrame(app: PhotoFrame.PhotoFrame, store: Storage.Storage, net: Shared, id: nat, now: u32, saver: bool, lDown: bool)
    requires store.Valid() && net.Valid() && app.fetching && app.pendingSlot < 2 && store.config.frameSlot < Blob.BLOB_SLOTS
    requires Finished(net.jobs[0]) && (net.jobs[0].Done? ==> net.jobs[0].result.lastModified.Wf(Record.STAMP_MAX))
    modifies app, net, store, store.flash, store.flash.mem
    ensures store.Valid() && net.Valid() && !app.fetching && store.flash.failures >= old(store.flash.failures)
    ensures if old(Brings(net.jobs[0], store.flash.Image(), app.pendingSlot)) && store.flash.failures == old(store.flash.failures)
            then && store.config == old(store.config).(frameSlot := old(app.pendingSlot), frameLastModified := old(net.jobs[0]).result.lastModified)
                 && Blob.ReadData(store.flash.Image(), old(app.pendingSlot)) == old(Blob.ReadData(store.flash.Image(), app.pendingSlot))
                 && app.photoOnScreen && !app.force
            else store.config == old(store.config)
  {
    ghost var before, slot, job := store.View(), app.pendingSlot, net.jobs[0];
    ghost var outcome := app.Update(net, store, id, now, saver, lDown);
    if Brings(job, before.mem, slot) && outcome.Ok? {
      WritingKeepsSlot(before, store.config, store.View(), slot);
    }
  }

  /** The answer is a whole photo, and the slot has it. */
  predicate Brings(job: JobState, m: Mem, slot: nat)
    requires slot < 2
  {
    job.Done? && job.result.status == 200 && job.result.len == 40960 && Photo.Shows(m, slot)
  }

  lemma StoredIsShown(m: Mem, sink: Sink, response: Response)
    requires sink.Blob? && sink.slot < 2 && sink.kind == 0x5048_4F54 && Serving.Stored(m, sink, response)
    ensures Photo.Shows(m, sink.slot) <==> |Arrived(response).value| == 40960
  {
    Photo.ShowsIs(m, sink.slot);
  }

  lemma WritingKeepsSlot(d: StorageRuns.Device<Record.Config>, next: Record.Config, d': StorageRuns.Device<Record.Config>, slot: nat)
    requires slot < 2 && StorageRuns.Moves(Storage.ConfigCodec(), d, StorageRuns.Completed(next), d')
    ensures Blob.ReadData(d'.mem, slot) == Blob.ReadData(d.mem, slot)
  {
    StorageRuns.MovesIs(Storage.ConfigCodec(), d, StorageRuns.Completed(next), d');
    CompletedKeepsSlots(Storage.ConfigCodec(), d, next, d', slot);
    SameSlotReads(d.mem, d'.mem, slot);
  }

  lemma SameSlotReads(m: Mem, left: Mem, slot: nat)
    requires slot < 2 && SameSlot(m, left, slot)
    ensures Blob.ReadData(left, slot) == Blob.ReadData(m, slot)
  {
    assert Photo.HeaderAt(left, slot) == Photo.HeaderAt(m, slot);
    var h := Blob.ReadHeader(m, slot);
    if h.Some? {
      assert left[Blob.DataStart(slot)..Blob.DataStart(slot) + h.value.len] == m[Blob.DataStart(slot)..Blob.DataStart(slot) + h.value.len];
    }
  }

  /** Clearing the cache: done, refused by an erase, or refused by the config write. */
  method Clear(app: PhotoFrame.PhotoFrame, store: Storage.Storage, net: Shared, ghost w: World)
    returns (r: Result<(), ConfigStore.StorageError>, ghost w': World, ghost erased: Mem, ghost cleared: bool)
    requires store.Valid() && net.Valid() && Describes(w, app, store, net)
    requires w.Named() < 2 && InLane(w)
    modifies store, store.flash, store.flash.mem
    ensures store.Valid() && Describes(w', app, store, net)
    ensures store.flash.failures == old(store.flash.failures) + if r.Ok? then 0 else 1
    ensures r.Ok? ==> ClearStep(Storage.ConfigCodec(), w, erased, Photo.Forgotten(w.dev.value), w')
    ensures r.Err? && !cleared ==> ClearFailsStep(w, erased, w')
    ensures r.Err? && cleared && AsAssumed(w, erased, Photo.Forgotten(w.dev.value), w'.dev.mem) ==>
      ClearStoreFailsStep(Storage.ConfigCodec(), w, erased, Photo.Forgotten(w.dev.value), w'.dev.mem, w')
  {
    r, erased, cleared := PhotoFrame.ClearCache(store);
    w' := w.(dev := store.View(), spoiled := if r.Ok? then w.spoiled else cleared || !Photo.Shows(erased, w.Named()));
  }

  /** A factory reset, which forgets the photo too: done, refused by an erase, or refused by the config write. */
  method Reset(app: PhotoFrame.PhotoFrame, store: Storage.Storage, net: Shared, ghost w: World)
    returns (r: Result<(), ConfigStore.StorageError>, ghost w': World, ghost erased: Mem, ghost at: nat)
    requires store.Valid() && net.Valid() && Describes(w, app, store, net)
    requires w.Named() < 2 && InLane(w)
    modifies store, store.flash, store.flash.mem
    ensures store.Valid() && Describes(w', app, store, net) && at <= Blob.BLOB_SLOTS
    ensures store.flash.failures == old(store.flash.failures) + if r.Ok? then 0 else 1
    ensures r.Ok? ==> ClearStep(Storage.ConfigCodec(), w, erased, store.defaults, w')
    ensures r.Err? && at < Blob.BLOB_SLOTS ==> ClearFailsStep(w, erased, w')
    ensures r.Err? && at == Blob.BLOB_SLOTS && AsAssumed(w, erased, store.defaults, w'.dev.mem) ==>
      ClearStoreFailsStep(Storage.ConfigCodec(), w, erased, store.defaults, w'.dev.mem, w')
  {
    r, erased, at := store.FactoryReset();
    SlotsErased(w.dev.mem, erased, at);
    w' := w.(dev := store.View(), spoiled := if r.Ok? then w.spoiled else at == Blob.BLOB_SLOTS || !Photo.Shows(erased, w.Named()));
  }

  lemma SlotsErased(m: Mem, erased: Mem, at: nat)
    requires Storage.OnlyHeadersErased(m, erased, at)
    ensures OnlyHeaders(m, erased) && (at == Blob.BLOB_SLOTS ==> BothErased(m, erased))
  {
    assert Storage.SameData(m, erased, Photo.SLOT_A) && Storage.SameData(m, erased, Photo.SLOT_B);
  }

  // --- the Wi-Fi task ------------------------------------------------------

  /** The world once the flash is `left` and the lane in `lane`. */
  ghost function Moved(w: World, lane: Phase, left: Mem): World {
    w.(lane := lane, dev := w.dev.(mem := left))
  }

  /** The photo's slot is emptied, or the fetch ends there. */
  method BeginSlot(flash: Nor, ghost w: World, slot: nat) returns (r: Result<Blob.BlobWriter, ConfigStore.StorageError>, ghost w': World)
    requires flash.Valid() && w.dev.mem == flash.Image() && w.lane == Queued(slot) && slot < 2
    modifies flash, flash.mem
    ensures flash.Valid() && w'.dev.mem == flash.Image()
    ensures flash.failures == old(flash.failures) + if r.Ok? then 0 else 1
    ensures r.Ok? ==>
      && fresh(r.value) && fresh(r.value.buf) && fresh(r.value.crc)
      && r.value.Valid() && r.value.flash == flash && r.value.slot == slot && r.value.body == [] && r.value.kind == Photo.KIND_PHOTO
      && BeginStep(w, flash.Image(), w')
    ensures r.Err? ==> EndedStep(w, Trouble, flash.Image(), w')
  {
    r := Blob.Begin(flash, slot, Photo.KIND_PHOTO, 0);
    SameMem(flash, flash.Image());
    w' := Moved(w, if r.Ok? then Writing(slot) else Answered(slot, Trouble), flash.Image());
  }

  /** A piece goes to the slot, or the fetch ends there. */
  method WritePiece(writer: Blob.BlobWriter, piece: seq<byte>, ghost w: World) returns (r: Result<(), ConfigStore.StorageError>, ghost w': World)
    requires writer.Valid() && w.dev.mem == writer.flash.Image() && w.lane == Writing(writer.slot) && writer.slot < 2
    modifies writer, writer.buf, writer.crc, writer.flash, writer.flash.mem
    ensures writer.flash.Valid() && w'.dev.mem == writer.flash.Image()
    ensures r.Ok? ==> writer.Valid() && writer.body == old(writer.body) + piece && PieceStep(w, writer.flash.Image(), w')
    ensures r.Err? ==> EndedStep(w, Trouble, writer.flash.Image(), w')
  {
    r := writer.Write(piece);
    SameMem(writer.flash, writer.flash.Image());
    w' := Moved(w, if r.Ok? then w.lane else Answered(writer.slot, Trouble), writer.flash.Image());
  }

  /** The header completes the slot, or the fetch ends without it. */
  method CompleteSlot(writer: Blob.BlobWriter, stamp: FixedStr, ghost w: World)
    returns (r: Result<Blob.BlobHeader, ConfigStore.StorageError>, ghost w': World)
    requires writer.Valid() && w.dev.mem == writer.flash.Image() && w.lane == Writing(writer.slot) && writer.slot < 2
    requires writer.kind == Photo.KIND_PHOTO
    modifies writer, writer.buf, writer.crc, writer.flash, writer.flash.mem
    ensures writer.flash.Valid() && w'.dev.mem == writer.flash.Image()
    ensures r.Ok? ==> CompleteStep(w, writer.body, stamp, writer.flash.Image(), w')
    ensures r.Err? ==> EndedStep(w, Trouble, writer.flash.Image(), w')
  {
    r := writer.Finish();
    SameMem(writer.flash, writer.flash.Image());
    if r.Ok? {
      Photo.HoldsIs(writer.flash.Image(), writer.slot, writer.body);
      w' := CompletedWorld(w, writer.slot, writer.body, stamp, writer.flash.Image());
    } else {
      w' := Moved(w, Answered(writer.slot, Trouble), writer.flash.Image());
    }
  }

  ghost function CompletedWorld(w: World, slot: nat, body: seq<byte>, stamp: FixedStr, left: Mem): World {
    Moved(w, Answered(slot, Reply(200, |body|, stamp)), left).(received := w.received + {(stamp, body)})
  }

  lemma SameMem(flash: Nor, image: Mem)
    requires flash.Valid() && image == flash.Image()
    ensures forall i :: 0 <= i < FLASH_SIZE ==> flash.mem[i] == image[i]
  {}

  /**
   A complete photo is the steps `Begin`, into `w1`, and `Complete`, with pieces in
   between; everything else is one `Ended`.
   */
  ghost predicate Served(w: World, response: Response, w1: World, w': World)
    requires InLane(w) && w.lane.Queued?
  {
    w'.lane.Answered? &&
    if w'.lane.answer.Reply? && w'.lane.answer.status == 200
    then response.Head? && Arrived(response).Ok? && BeginStep(w, w1.dev.mem, w1)
         && CompleteStep(w1, Arrived(response).value, response.stamp, w'.dev.mem, w')
    else EndedStep(w, w'.lane.answer, w'.dev.mem, w')
  }

  /** The whole of a photo request, from the lane and back. Power going anywhere among its operations is a `CutInSlot`. */
  method Serve(flash: Nor, net: Shared, req: Request, response: Response, ghost w: World) returns (ghost w1: World, ghost w': World)
    requires flash.Valid() && net.Valid() && w.dev.mem == flash.Image()
    requires req.sink.Blob? && req.sink.kind == Photo.KIND_PHOTO && w.lane == Queued(req.sink.slot) && req.sink.slot < 2
    requires response.Head? ==> |response.early| <= Http.HEAD_MAX
    modifies flash, flash.mem, net
    ensures flash.Valid() && net.Valid() && w'.dev.mem == flash.Image() && PhaseFits(w'.lane, net.jobs[0])
    ensures Served(w, response, w1, w')
    ensures CutsStayInSlot(w.dev.mem, req.sink.slot, flash.log, |old(flash.log)|)
  {
    ServeBlob(flash, net, req, response);
    w1, w' := ServedWorlds(w, req.sink, response, net.jobs[0], flash.Image());
  }

  lemma ServedWorlds(w: World, sink: Sink, response: Response, job: JobState, left: Mem) returns (w1: World, w': World)
    requires sink.Blob? && sink.kind == Photo.KIND_PHOTO && w.lane == Queued(sink.slot) && sink.slot < 2
    requires Finished(job) && Serving.OnlySlot(w.dev.mem, left, sink.slot)
    requires Good(job) ==> Serving.Stored(left, sink, response) && job.result == FetchResult(200, |Arrived(response).value|, response.stamp)
    ensures w'.dev.mem == left && PhaseFits(w'.lane, job) && Served(w, response, w1, w')
  {
    w1 := Moved(w, Writing(sink.slot), Erase(Blob.SlotBase(sink.slot), Blob.DataStart(sink.slot)).Applied(w.dev.mem));
    if Good(job) {
      Photo.HoldsIs(left, sink.slot, Arrived(response).value);
      w' := CompletedWorld(w1, sink.slot, Arrived(response).value, response.stamp, left);
    } else if job.Done? {
      w' := Moved(w, Answered(sink.slot, Reply(job.result.status, job.result.len, job.result.lastModified)), left);
    } else {
      w' := Moved(w, Answered(sink.slot, Trouble), left);
    }
  }
}
