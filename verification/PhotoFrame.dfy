/** The photo frame app: what it asks for, and what it does with the answer. */
module PhotoFrame {
  import opened Bytes
  import opened Wrappers
  import opened Flash
  import opened Net
  import Blob
  import ConfigStore
  import Photo
  import PhotoRuns
  import Record
  import Storage
  import StorageRuns

  const POLL_MS: u32 := 15_000
  const POLL_SAVER_MS: u32 := 60_000
  const RETRY_MS: u32 := 5_000
  const FORCE_HOLD_MS: u32 := 2_000

  /** The pixels of a slot, if it holds a complete photo. */
  method ShowSlot(flash: Nor, slot: nat) returns (raw: Option<seq<byte>>)
    requires flash.Valid() && slot < Blob.BLOB_SLOTS
    ensures raw == if Photo.Shows(flash.Image(), slot) then Some(Photo.At(flash.Image(), slot)) else None
  {
    Photo.ShowsIs(flash.Image(), slot);
    var header := Blob.ReadHeader(flash.Image(), slot);
    if header.None? {
      return None;
    }
    if header.value.kind != Photo.KIND_PHOTO || header.value.len != Photo.BYTES {
      return None;
    }
    raw := Blob.ReadData(flash.Image(), slot);
  }

  /** Both headers, the first one first; stops at the first flash error. */
  method EraseBoth(flash: Nor) returns (r: Result<(), ConfigStore.StorageError>)
    requires flash.Valid()
    modifies flash, flash.mem
    ensures flash.Valid() && PhotoRuns.OnlyHeaders(old(flash.Image()), flash.Image())
    ensures flash.failures == old(flash.failures) + if r.Ok? then 0 else 1
    ensures r.Ok? || old(Blob.Empty(flash.Image(), 0)) ==> Blob.Empty(flash.Image(), 0)
    ensures r.Ok? || old(Blob.Empty(flash.Image(), 1)) ==> Blob.Empty(flash.Image(), 1)
  {
    ghost var before := flash.Image();
    r := Blob.EraseHeader(flash, Photo.SLOT_A);
    ghost var first := flash.Image();
    HeaderOnly(before, first, Photo.SLOT_A);
    if r.Err? {
      return;
    }
    r := Blob.EraseHeader(flash, Photo.SLOT_B);
    HeaderOnly(first, flash.Image(), Photo.SLOT_B);
  }

  /**
   Forgets the cached photo: both headers, then the stamp; `erased` is the flash in
   between. `cleared` says that both headers were erased, so that the rest is one
   update of the config, completed or refused.
   */
  method ClearCache(store: Storage.Storage) returns (r: Result<(), ConfigStore.StorageError>, ghost erased: Mem, ghost cleared: bool)
    requires store.Valid()
    modifies store, store.flash, store.flash.mem
    ensures store.Valid() && PhotoRuns.OnlyHeaders(old(store.flash.Image()), erased)
    ensures store.config == if r.Ok? then Photo.Forgotten(old(store.config)) else old(store.config)
    ensures store.flash.failures == old(store.flash.failures) + if r.Ok? then 0 else 1
    ensures !cleared ==> r.Err? && store.View() == old(store.View()).(mem := erased)
    ensures cleared ==>
      && PhotoRuns.BothErased(old(store.flash.Image()), erased)
      && Storage.Written(r, old(store.View()).(mem := erased), Photo.Forgotten(old(store.config)), store.View())
    ensures forall i :: 0 <= i < ConfigStore.CONFIG_START ==> store.flash.Image()[i] == erased[i]
    ensures old(Blob.Empty(store.flash.Image(), 0)) ==> Blob.Empty(erased, 0)
    ensures old(Blob.Empty(store.flash.Image(), 1)) ==> Blob.Empty(erased, 1)
  {
    r := EraseBoth(store.flash);
    erased := store.flash.Image();
    cleared := r.Ok?;
    if r.Err? {
      return;
    }
    Photo.ForgottenWf(store.config);
    r := Store(store, Photo.Forgotten);
  }

  /** Changes the config, or is refused. */
  method Store(store: Storage.Storage, f: Photo.Config -> Photo.Config) returns (r: Result<(), ConfigStore.StorageError>)
    requires store.Valid() && f(store.config).Wf()
    modifies store, store.flash, store.flash.mem
    ensures store.Valid()
    ensures store.config == if r.Ok? then f(old(store.config)) else old(store.config)
    ensures store.flash.failures == old(store.flash.failures) + if r.Ok? then 0 else 1
    ensures Storage.Written(r, old(store.View()), f(old(store.config)), store.View())
    ensures forall i :: 0 <= i < ConfigStore.CONFIG_START ==> store.flash.Image()[i] == old(store.flash.Image()[i])
  {
    r := store.UpdateConfig(f);
    assert forall i :: 0 <= i < FLASH_SIZE ==> store.flash.mem[i] == store.flash.Image()[i];
  }

  /** Erasing a header keeps the data of both slots, the config, and the other header. */
  lemma HeaderOnly(m: Mem, left: Mem, slot: nat)
    requires slot < 2
    requires forall i :: 0 <= i < FLASH_SIZE && !(Blob.SlotBase(slot) <= i < Blob.DataStart(slot)) ==> left[i] == m[i]
    ensures PhotoRuns.OnlyHeaders(m, left)
    ensures Blob.Empty(m, 1 - slot) ==> Blob.Empty(left, 1 - slot)
  {}

  /** Clearing the cache between two pieces of a photo on its way does not disturb its writer. */
  method ClearWhileWriting(store: Storage.Storage, w: Blob.BlobWriter) returns (r: Result<(), ConfigStore.StorageError>)
    requires store.Valid() && w.Valid() && w.flash == store.flash && w.slot < 2
    modifies store, store.flash, store.flash.mem
    ensures store.Valid() && w.Valid() && w.body == old(w.body)
  {
    ghost var before, slot, n := store.flash.Image(), w.slot, w.written;
    ghost var erased, cleared;
    r, erased, cleared := ClearCache(store);
    assert w.Shape();
    Undisturbed(before, erased, store.flash.Image(), slot, n);
  }

  lemma Undisturbed(m: Mem, erased: Mem, left: Mem, slot: nat, n: nat)
    requires slot < 2 && n <= Photo.BYTES && PhotoRuns.OnlyHeaders(m, erased)
    requires Blob.Empty(m, slot) && Blob.Empty(erased, slot)
    requires forall i :: 0 <= i < ConfigStore.CONFIG_START ==> left[i] == erased[i]
    ensures Blob.Empty(left, slot)
    ensures left[Blob.DataStart(slot)..Blob.DataStart(slot) + n] == m[Blob.DataStart(slot)..Blob.DataStart(slot) + n]
  {
    assert PhotoRuns.SameData(m, erased, slot);
  }

  class PhotoFrame {
    var photoOnScreen: bool
    var fetching: bool
    var pendingSlot: nat
    var nextPoll: u32
    var force: bool
    var fails: byte
    var holdStarted: Option<u32>

    constructor ()
      ensures !photoOnScreen && !fetching && !force && pendingSlot == 0 && nextPoll == 0 && fails == 0 && holdStarted == None
    {
      photoOnScreen, fetching, force := false, false, false;
      pendingSlot := Photo.SLOT_A;
      nextPoll := 0;
      fails := 0;
      holdStarted := None;
    }

    /** Shows the cached photo; without one the next fetch is unconditional. */
    method OnEnter(store: Storage.Storage, now: u32)
      requires store.Valid() && store.config.frameSlot < Blob.BLOB_SLOTS
      modifies this
      ensures photoOnScreen == Photo.Shows(store.flash.Image(), store.config.frameSlot)
      ensures force == !photoOnScreen && !fetching && nextPoll == now && fails == 0
      ensures pendingSlot == old(pendingSlot) && holdStarted == None
    {
      var raw := ShowSlot(store.flash, store.config.frameSlot);
      photoOnScreen := raw.Some?;
      fetching := false;
      force := !photoOnScreen;
      fails := 0;
      nextPoll := now;
      holdStarted := None;
    }

    /** Asks for a photo; a request that is refused counts as a failure. */
    method StartFetch(net: Shared, store: Storage.Storage, id: nat, now: u32)
      requires net.Valid() && store.Valid() && store.config.frameSlot < Blob.BLOB_SLOTS && !fetching
      modifies this`fetching, this`pendingSlot, this`fails, this`nextPoll, net
      ensures net.Valid()
      ensures (net.Snapshot(), if fetching then Ok(()) else Err(if old(net.up) then Busy else NoNetwork))
           == Fetch(old(net.Snapshot()), true, App, PhotoRequest(store.config, id, force))
      ensures pendingSlot == if fetching then Photo.Target(store.config.frameSlot) else old(pendingSlot)
      ensures fetching ==> Sent(net.requests[0], store.config, force, pendingSlot)
      ensures nextPoll == if fetching then old(nextPoll) else WrappingAdd(now, 5_000)
      ensures fails == if fetching then old(fails) else OneMore(old(fails))
    {
      PhotoRequestIs(store.config, id, force);
      var r := net.FetchOn(true, App, PhotoRequest(store.config, id, force));
      if r.Ok? {
        fetching := true;
        pendingSlot := Photo.Target(store.config.frameSlot);
      } else {
        Fail(now);
      }
    }

    method Fail(now: u32)
      modifies this`fails, this`nextPoll
      ensures fails == OneMore(old(fails)) && nextPoll == WrappingAdd(now, 5_000)
    {
      fails := if fails < 255 then fails + 1 else 255;
      nextPoll := WrappingAdd(now, RETRY_MS);
    }

    /**
     Takes in an answer. Only a complete photo in the slot it was fetched into
     makes that slot, and the stamp that came with it, current. Whether the config
     could be stored (`outcome`) is not looked at.
     */
    method Finish(store: Storage.Storage, r: FetchResult, now: u32, saver: bool)
      returns (ghost outcome: Result<(), ConfigStore.StorageError>)
      requires store.Valid() && pendingSlot < Blob.BLOB_SLOTS && r.lastModified.Wf(Record.STAMP_MAX)
      modifies this`photoOnScreen, this`fails, this`force, this`nextPoll, store, store.flash, store.flash.mem
      ensures store.Valid() && TakenIn(old(store.View()), pendingSlot, Done(r), outcome, store.View())
      ensures if r.status == 200 && r.len == 40960 && old(Photo.Shows(store.flash.Image(), pendingSlot)) && outcome.Ok?
              then store.config == old(store.config).(frameSlot := pendingSlot, frameLastModified := r.lastModified)
              else store.config == old(store.config)
      ensures var good := r.status == 200 && r.len == 40960 && old(Photo.Shows(store.flash.Image(), pendingSlot));
              && (good ==> photoOnScreen && !force)
              && nextPoll == WrappingAdd(now, if good || r.status == 304 then if saver then 60_000 else 15_000 else 5_000)
              && fails == if good || r.status == 304 then 0 else OneMore(old(fails))
      ensures var adopts := Adopts(old(store.flash.Image()), pendingSlot, Done(r));
              && photoOnScreen == (adopts || old(photoOnScreen))
              && force == (!adopts && old(force))
              && nextPoll == NextAsk(now, saver, Done(r), adopts)
      ensures store.flash.failures == old(store.flash.failures) + if outcome.Ok? then 0 else 1
    {
      outcome := Ok(());
      if r.status == 200 && r.len == Photo.BYTES {
        var raw := ShowSlot(store.flash, pendingSlot);
        if raw.Some? {
          var slot, stamp := pendingSlot, r.lastModified;
          Photo.AdoptedWf(store.config, slot, stamp);
          outcome := Store(store, c => Photo.Adopted(c, slot, stamp));
          photoOnScreen := true;
          fails := 0;
          force := false;
          nextPoll := WrappingAdd(now, if saver then POLL_SAVER_MS else POLL_MS);
        } else {
          Fail(now);
        }
      } else if r.status == 304 {
        fails := 0;
        nextPoll := WrappingAdd(now, if saver then POLL_SAVER_MS else POLL_MS);
      } else {
        Fail(now);
      }
    }

    /** The answer that is waited for, if it is there. */
    method TakeAnswer(net: Shared, store: Storage.Storage, now: u32, saver: bool)
      returns (ghost outcome: Result<(), ConfigStore.StorageError>)
      requires net.Valid() && store.Valid() && fetching && pendingSlot < Blob.BLOB_SLOTS
      requires net.jobs[0].Done? ==> net.jobs[0].result.lastModified.Wf(Record.STAMP_MAX)
      modifies this`photoOnScreen, this`fetching, this`fails, this`force, this`nextPoll, net, store, store.flash, store.flash.mem
      ensures net.Valid() && store.Valid()
      ensures net.Snapshot() == Take(old(net.Snapshot()), App).0 && fetching == !Finished(old(net.jobs[0]))
      ensures TakenIn(old(store.View()), pendingSlot, old(net.jobs[0]), outcome, store.View())
      ensures var adopts := Adopts(old(store.flash.Image()), pendingSlot, old(net.jobs[0]));
              && photoOnScreen == (adopts || old(photoOnScreen))
              && force == (!adopts && old(force))
              && nextPoll == if fetching then old(nextPoll) else NextAsk(now, saver, old(net.jobs[0]), adopts)
      ensures var good := Adopts(old(store.flash.Image()), pendingSlot, old(net.jobs[0])) || NothingNewer(old(net.jobs[0]));
              fails == if fetching then old(fails) else if good then 0 else OneMore(old(fails))
      ensures store.flash.failures == old(store.flash.failures) + if outcome.Ok? then 0 else 1
    {
      outcome := Ok(());
      var job := net.TakeJobOn(App);
      if job.Done? {
        fetching := false;
        outcome := Finish(store, job.result, now, saver);
      } else if job.Failed? {
        fetching := false;
        Fail(now);
      }
    }

    /** L has been down for two seconds, for the first time since a photo was last forced. */
    predicate Forces(now: u32, lDown: bool)
      reads this
    {
      lDown && !force && holdStarted.Some? && WrappingSub(now, holdStarted.value) >= 2_000
    }

    /** Holding L for two seconds forces a fetch, and at once. */
    method HoldL(now: u32, lDown: bool)
      modifies this`holdStarted, this`force, this`nextPoll
      ensures holdStarted == if !lDown then None else if old(holdStarted).Some? then old(holdStarted) else Some(now)
      ensures force == (old(force) || old(Forces(now, lDown)))
      ensures nextPoll == if old(Forces(now, lDown)) then now else old(nextPoll)
    {
      if lDown {
        if holdStarted.None? {
          holdStarted := Some(now);
        }
        if WrappingSub(now, holdStarted.value) >= FORCE_HOLD_MS && !force {
          force := true;
          nextPoll := now;
        }
      } else {
        holdStarted := None;
      }
    }

    /** It is time to ask for a photo. */
    predicate DueToAsk(now: u32, lDown: bool)
      reads this
    {
      Forces(now, lDown) || Due(now, nextPoll)
    }

    /**
     One frame: take the answer that is waited for, or ask for a photo when it
     is time. L held for two seconds makes it time, and the fetch unconditional.
     */
    method Update(net: Shared, store: Storage.Storage, id: nat, now: u32, saver: bool, lDown: bool)
      returns (ghost outcome: Result<(), ConfigStore.StorageError>)
      requires net.Valid() && store.Valid() && store.config.frameSlot < Blob.BLOB_SLOTS
      requires fetching ==> pendingSlot < Blob.BLOB_SLOTS
      requires fetching && net.jobs[0].Done? ==> net.jobs[0].result.lastModified.Wf(Record.STAMP_MAX)
      modifies this, net, store, store.flash, store.flash.mem
      ensures net.Valid() && store.Valid()
      ensures store.flash.failures == old(store.flash.failures) + if outcome.Ok? then 0 else 1
      ensures old(fetching) ==>
        && net.Snapshot() == Take(old(net.Snapshot()), App).0 && fetching == !Finished(old(net.jobs[0])) && pendingSlot == old(pendingSlot)
        && TakenIn(old(store.View()), pendingSlot, old(net.jobs[0]), outcome, store.View())
        && var adopts := Adopts(old(store.flash.Image()), pendingSlot, old(net.jobs[0]));
           && photoOnScreen == (adopts || old(photoOnScreen))
           && force == (!adopts && (old(force) || old(Forces(now, lDown))))
           && (!fetching ==> nextPoll == NextAsk(now, saver, old(net.jobs[0]), adopts))
      ensures !old(fetching) ==>
        && outcome.Ok? && store.View() == old(store.View()) && force == (old(force) || old(Forces(now, lDown)))
        && (if old(DueToAsk(now, lDown) && net.up)
            then (net.Snapshot(), if fetching then Ok(()) else Err(Busy)) == Fetch(old(net.Snapshot()), true, App, PhotoRequest(store.config, id, force))
            else net.Snapshot() == old(net.Snapshot()) && !fetching)
        && (fetching ==> Sent(net.requests[0], store.config, force, pendingSlot))
        && (!fetching ==> pendingSlot == old(pendingSlot))
        && fails == (if fetching || !old(DueToAsk(now, lDown) && net.up) then old(fails) else OneMore(old(fails)))
        && (!fetching ==> nextPoll == if old(DueToAsk(now, lDown)) then WrappingAdd(now, 5_000) else old(nextPoll))
    {
      outcome := Ok(());
      HoldL(now, lDown);
      if fetching {
        outcome := TakeAnswer(net, store, now, saver);
      } else if Due(now, nextPoll) {
        if net.up {
          StartFetch(net, store, id, now);
        } else {
          nextPoll := WrappingAdd(now, RETRY_MS);
        }
      }
    }
  }

  /** A count of failures that stays at its end. */
  function OneMore(fails: byte): byte {
    if fails < 255 then fails + 1 else 255
  }

  /** The request for a new photo: see `PhotoRequestIs`. */
  function PhotoRequest(c: Photo.Config, id: nat, force: bool): Request
    requires c.Wf()
  {
    Record.WfIs(c);
    Request(id, Sink.Blob(Photo.Target(c.frameSlot), Photo.KIND_PHOTO, 0), if force then [] else c.frameLastModified.Text())
  }

  /**
   What a request for a photo says: a photo is to go to the slot that the config does
   not name; and it is conditional, on the stamp in the config, exactly if the fetch is
   not forced and there is a stamp.
   */
  predicate Asks(q: Request, c: Photo.Config, force: bool, slot: nat)
    requires c.Wf()
  {
    Record.WfIs(c);
    && q.sink == Sink.Blob(slot, 0x5048_4F54, 0) && slot == (if c.frameSlot == 0 then 1 else 0)
    && (q.ifModifiedSince == [] <==> force || c.frameLastModified.len == 0)
    && (q.ifModifiedSince != [] ==> q.ifModifiedSince == c.frameLastModified.Text())
  }

  predicate Sent(request: Option<Request>, c: Photo.Config, force: bool, slot: nat)
    requires c.Wf()
  {
    request.Some? && Asks(request.value, c, force, slot)
  }

  lemma PhotoRequestIs(c: Photo.Config, id: nat, force: bool)
    requires c.Wf()
    ensures Asks(PhotoRequest(c, id, force), c, force, Photo.Target(c.frameSlot))
  {
    Record.WfIs(c);
  }

  /** The answer is a photo that the slot holds. */
  predicate Adopts(m: Mem, slot: nat, job: JobState)
    requires slot < Blob.BLOB_SLOTS
  {
    job.Done? && Photo.Adoptable(m, slot, job.result.status, job.result.len)
  }

  /** The server has nothing newer. */
  predicate NothingNewer(job: JobState) {
    job.Done? && job.result.status == 304
  }

  /** When to ask again after an answer. */
  function NextAsk(now: u32, saver: bool, job: JobState, adopts: bool): u32 {
    WrappingAdd(now, if adopts || NothingNewer(job) then if saver then 60_000 else 15_000 else 5_000)
  }

  /** What an answer makes of the store: a photo is adopted, or refused by the driver, and nothing else changes anything. */
  ghost predicate TakenIn(d: Device, slot: nat, job: JobState, outcome: Result<(), ConfigStore.StorageError>, d': Device)
    requires slot < Blob.BLOB_SLOTS
  {
    if Adopts(d.mem, slot, job)
    then var next := Photo.Adopted(d.value, slot, job.result.lastModified);
         d'.value == (if outcome.Ok? then next else d.value) && Storage.Written(outcome, d, next, d')
    else outcome.Ok? && d' == d
  }

  type Device = StorageRuns.Device<Photo.Config>
}
