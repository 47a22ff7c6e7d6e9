/**
 The methods of the slideshow and of the Wi-Fi task are the steps of `AlbumRuns`:
 what holds in every run holds on the device.
 */
module SlideshowSteps {
  import opened Album
  import opened AlbumFlash
  import opened AlbumRuns
  import opened Bytes
  import opened Flash
  import opened Net
  import opened Serving
  import opened Wrappers
  import Blob
  import Http
  import Photo
  import Slideshow
  import Storage

  /** The world `w` describes a slideshow, the flash, and the app lane. */
  ghost predicate Describes(w: World, app: Slideshow.Slideshow, flash: Nor, net: Shared)
    requires app.Valid() && flash.Valid() && net.Valid()
    reads app, app.ids, flash, flash.mem, net
  {
    w.ids == app.Listed() && w.mem == flash.Image() && (w.flight.Some? ==> net.jobs[0] == Pending)
  }

  // --- the app -------------------------------------------------------------

  method Enter(app: Slideshow.Slideshow, flash: Nor, net: Shared, ghost w: World) returns (ghost w': World)
    requires app.Valid() && flash.Valid() && net.Valid() && Describes(w, app, flash, net)
    modifies app, app.ids
    ensures app.Valid() && Describes(w', app, flash, net) && Step(w, Event.Enter, w')
  {
    app.OnEnter(flash);
    w' := w.(ids := app.Listed());
  }

  method TakeList(app: Slideshow.Slideshow, flash: Nor, net: Shared, listed: seq<u32>, ghost w: World) returns (ghost w': World)
    requires app.Valid() && flash.Valid() && net.Valid() && Describes(w, app, flash, net) && |listed| <= LIST_MAX
    modifies app, app.ids
    ensures app.Valid() && Describes(w', app, flash, net) && Step(w, Event.List(listed), w')
  {
    app.FinishList(listed);
    w' := w.(ids := listed);
  }

  /** Fetching what is missing: one `Start`, or nothing if nothing is missing or the request is refused. */
  method FetchMissing(app: Slideshow.Slideshow, flash: Nor, net: Shared, id: nat, ghost w: World) returns (ghost w': World)
    requires app.Valid() && flash.Valid() && net.Valid() && Describes(w, app, flash, net) && app.job == Slideshow.Nothing
    modifies app, net
    ensures app.Valid() && net.Valid() && Describes(w', app, flash, net)
    ensures if app.job.Photo?
            then Step(w, Start, w') && w'.flight == Some(Flight(app.job.id, app.job.entry, false))
                 && net.requests[0] == Some(Slideshow.PhotoRequest(app.job.id, app.job.entry, id))
            else w' == w
    ensures old(net.up) && old(net.jobs[0]) != Pending && NextMissing(w.ids, CacheOf(w.mem)).Some? ==> app.job.Photo?
  {
    app.FetchMissing(net, flash, id);
    w' := if app.job.Photo? then w.(flight := Some(Flight(app.job.id, app.job.entry, false))) else w;
  }

  /** The answer for a photo: nothing changes in the runs if it was one, else it leaves the list. */
  method TakePhoto(app: Slideshow.Slideshow, flash: Nor, net: Shared, r: FetchResult, photo: u32, ghost w: World) returns (ghost w': World)
    requires app.Valid() && flash.Valid() && net.Valid() && Describes(w, app, flash, net)
    modifies app, app.ids
    ensures app.Valid() && Describes(w', app, flash, net)
    ensures if r.status == 200 && r.len == Photo.BYTES then w' == w else Step(w, Reject(photo), w')
  {
    app.FinishPhoto(flash, r, photo);
    w' := w.(ids := app.Listed());
  }

  // --- the Wi-Fi task ------------------------------------------------------

  /** Served well: the steps `Begin`, into `w1`, and `Complete`, with pieces in between. Otherwise one `Ended`. */
  ghost predicate Served(w: World, good: bool, w1: World, w': World) {
    if good then Step(w, Begin(w1.mem), w1) && Step(w1, Complete(w'.mem), w') else Step(w, Ended(w'.mem), w')
  }

  /** The whole of a photo request, from the lane and back. Power going anywhere among its operations is a `PowerCut`. */
  method Serve(flash: Nor, net: Shared, req: Request, response: Response, ghost w: World) returns (ghost w1: World, ghost w': World)
    requires flash.Valid() && net.Valid() && w.mem == flash.Image() && InFlight(w) && !w.flight.value.begun
    requires req.sink == Sink.Blob(SlotOf(w.flight.value.entry), KIND_ALBUM, w.flight.value.id)
    requires response.Head? ==> |response.early| <= Http.HEAD_MAX
    modifies flash, flash.mem, net
    ensures flash.Valid() && net.Valid() && w'.mem == flash.Image() && Finished(net.jobs[0])
    ensures Served(w, Good(net.jobs[0]), w1, w')
    ensures Good(net.jobs[0]) && net.jobs[0].result.len == Photo.BYTES ==>
      SlotId(w'.mem, SlotOf(w.flight.value.entry)) == Some(w.flight.value.id)
    ensures CutsStayInSlot(w.mem, SlotOf(w.flight.value.entry), flash.log, |old(flash.log)|)
  {
    ServeBlob(flash, net, req, response);
    w1, w' := ServedWorlds(w, req.sink, response, net.jobs[0], flash.Image());
  }

  lemma ServedWorlds(w: World, sink: Sink, response: Response, job: JobState, left: Mem) returns (w1: World, w': World)
    requires InFlight(w) && !w.flight.value.begun && sink == Sink.Blob(SlotOf(w.flight.value.entry), KIND_ALBUM, w.flight.value.id)
    requires Finished(job) && Serving.OnlySlot(w.mem, left, sink.slot)
    requires Good(job) ==> Stored(left, sink, response) && job.result.len == |Arrived(response).value|
    ensures w'.mem == left && Served(w, Good(job), w1, w')
    ensures Good(job) && job.result.len == Photo.BYTES ==> SlotId(left, sink.slot) == Some(w.flight.value.id)
  {
    w1 := w.(mem := Emptying(sink.slot).Applied(w.mem), flight := Some(w.flight.value.(begun := true)));
    w' := w.(mem := left, flight := None);
    SlotIdIs(left, sink.slot);
  }

  // --- a reset -------------------------------------------------------------

  /**
   Emptying every blob slot is one `Reset`. Where the driver gives up, it is one
   `ResetBroken`, or traffic elsewhere if no album slot was reached.
   */
  method EraseBlobs(store: Storage.Storage, ghost w: World) returns (ok: bool, ghost w': World)
    requires store.Valid() && w.mem == store.flash.Image()
    modifies store.flash, store.flash.mem
    ensures store.Valid() && w'.mem == store.flash.Image()
    ensures store.flash.failures == old(store.flash.failures) + if ok then 0 else 1
    ensures ok ==> Step(w, Reset(w'.mem), w')
    ensures !ok ==> Step(w, Event.Elsewhere(w'.mem), w') || exists k :: Step(w, ResetBroken(k, w'.mem), w')
  {
    ghost var at;
    var r;
    r, at := store.EraseBlobs();
    ok := r.Ok?;
    w' := w.(mem := store.flash.Image());
    ErasedEntries(w.mem, w'.mem, at);
    assert FIRST_SLOT <= at < Blob.BLOB_SLOTS ==> Step(w, ResetBroken(at - FIRST_SLOT, w'.mem), w');
  }

  /** The entries before `at` are lost, those behind it stay. */
  lemma ErasedEntries(m: Mem, left: Mem, at: nat)
    requires at <= Blob.BLOB_SLOTS && Storage.OnlyHeadersErased(m, left, at)
    ensures forall j :: 0 <= j < SLOTS ==>
      (SlotOf(j) < at ==> CacheOf(left)[j] == None) && (at < SlotOf(j) ==> CacheOf(left)[j] == CacheOf(m)[j])
    ensures at < FIRST_SLOT ==> CacheOf(left) == CacheOf(m)
  {
    forall j | 0 <= j < SLOTS
      ensures SlotOf(j) < at ==> CacheOf(left)[j] == None
      ensures at < SlotOf(j) ==> CacheOf(left)[j] == CacheOf(m)[j]
    {
      ErasedEntry(m, left, at, j);
    }
  }

  lemma ErasedEntry(m: Mem, left: Mem, at: nat, j: nat)
    requires j < SLOTS
    requires SlotOf(j) < at ==> Blob.Empty(left, SlotOf(j))
    requires at < SlotOf(j) ==> Storage.SameHeader(m, left, SlotOf(j))
    ensures SlotOf(j) < at ==> CacheOf(left)[j] == None
    ensures at < SlotOf(j) ==> CacheOf(left)[j] == CacheOf(m)[j]
  {
    CacheAt(m, j);
    CacheAt(left, j);
    if SlotOf(j) < at {
      EmptyHoldsNothing(left, SlotOf(j));
    } else if at < SlotOf(j) {
      assert Photo.HeaderAt(left, SlotOf(j)) == Photo.HeaderAt(m, SlotOf(j));
    }
  }
}
