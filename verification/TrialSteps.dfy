/** How the device makes the changes of `TrialRuns`: by one update of the stored config. */
module TrialSteps {
  import opened Wrappers
  import opened Flash
  import opened Record
  import opened TrialRuns
  import opened Veils
  import Blob
  import ConfigStore
  import Storage
  import StorageRuns
  import Trial

  ghost predicate Chained(x: (StorageRuns.Device<Config>, seq<Event>, StorageRuns.Device<Config>)) {
    Chain(Storage.ConfigCodec(), x.0, x.1, x.2)
  }

  /** The events of `TrialRuns` that led from `d` to `d'`. */
  ghost predicate Led(d: StorageRuns.Device<Config>, es: seq<Event>, d': StorageRuns.Device<Config>) {
    Veil(Chained, (d, es, d'), |es| + 3)
  }

  lemma LedIs(d: StorageRuns.Device<Config>, es: seq<Event>, d': StorageRuns.Device<Config>)
    ensures Led(d, es, d') <==> Chain(Storage.ConfigCodec(), d, es, d')
  {
    Lift(Chained, (d, es, d'), |es| + 3);
  }

  lemma LedNone(d: StorageRuns.Device<Config>)
    ensures Led(d, [], d)
  {
    LedIs(d, [], d);
    ChainNone(Storage.ConfigCodec(), d);
  }

  lemma LedOne(d: StorageRuns.Device<Config>, e: Event, d': StorageRuns.Device<Config>)
    requires Taken(Storage.ConfigCodec(), d, e, d')
    ensures Led(d, [e], d')
  {
    LedIs(d, [e], d');
    ChainOne(Storage.ConfigCodec(), d, e, d');
  }

  lemma LedOn(d: StorageRuns.Device<Config>, es: seq<Event>, m: StorageRuns.Device<Config>, more: seq<Event>, d': StorageRuns.Device<Config>)
    requires Led(d, es, m) && Led(m, more, d')
    ensures Led(d, es + more, d')
  {
    LedIs(d, es, m);
    LedIs(m, more, d');
    LedIs(d, es + more, d');
    ChainJoin(Storage.ConfigCodec(), d, es, m, more, d');
  }

  /** What a frame does continues the run that led to it, as long as torn sectors are as assumed. */
  lemma FramesContinue(ws: seq<World>, es: seq<Event>, more: seq<Event>, d': StorageRuns.Device<Config>) returns (ws': seq<World>)
    requires Run(Storage.ConfigCodec(), ws, es) && Led(ws[|es|].dev, more, d')
    requires forall e :: e in more ==> !e.Undetected?
    ensures Run(Storage.ConfigCodec(), ws', es + more) && ws <= ws' && ws'[|es + more|].dev == d'
  {
    LedIs(ws[|es|].dev, more, d');
    ws' := ChainContinues(Storage.ConfigCodec(), ws, es, more, d');
  }

  /** Makes a change: it is in force and stored, or the driver refused it. */
  method Apply(store: Storage.Storage, change: Trial.Change) returns (ghost e: Event)
    requires store.Valid() && Trial.Possible(store.config, change) && Trial.ChangeOk(change)
    modifies store, store.flash, store.flash.mem
    ensures store.Valid() && Led(old(store.View()), [e], store.View())
    ensures (e.Made? || e.Refused? || e.Undetected?) && e.change == change
    ensures store.config == if e.Made? then Trial.Changed(old(store.config), change) else old(store.config)
    ensures store.flash.failures == old(store.flash.failures) + if e.Made? then 0 else 1
  {
    ghost var d := store.View();
    Trial.ChangedWf(store.config, change);
    var r := store.UpdateConfig(c => Trial.Changed(c, change));
    e := WrittenEvent(d, change, r, store.View());
  }

  /** An update of the config, completed or refused, is an event. */
  lemma WrittenEvent(d: StorageRuns.Device<Config>, change: Trial.Change, r: Result<(), ConfigStore.StorageError>, d': StorageRuns.Device<Config>)
      returns (e: Event)
    requires Trial.Possible(d.value, change) && Storage.Written(r, d, Trial.Changed(d.value, change), d')
    ensures Led(d, [e], d') && (if r.Ok? then e.Made? else e.Refused? || e.Undetected?) && e.change == change
  {
    if r.Ok? {
      e := Made(change);
      LedOne(d, e, d');
    } else {
      e := RefusedEvent(d, change, d');
    }
  }

  lemma RefusedEvent(d: StorageRuns.Device<Config>, change: Trial.Change, d': StorageRuns.Device<Config>) returns (e: Event)
    requires Trial.Possible(d.value, change)
    requires StorageRuns.Refuses(Storage.ConfigCodec(), d, Trial.Changed(d.value, change), d')
    ensures (e.Refused? || e.Undetected?) && e.change == change && Led(d, [e], d')
  {
    var next := Trial.Changed(d.value, change);
    if StorageRuns.Moves(Storage.ConfigCodec(), d, StorageRuns.Failed(next, d'.mem), d') {
      e := Refused(change, d'.mem);
    } else {
      e := Undetected(change, d'.mem);
    }
    LedOne(d, e, d');
  }

  /** Flash traffic outside the config is an event. */
  lemma ErasedEvent(d: StorageRuns.Device<Config>, erased: Mem)
    requires forall i :: ConfigStore.CONFIG_START <= i < FLASH_SIZE ==> erased[i] == d.mem[i]
    ensures Led(d, [TrialRuns.Elsewhere(erased)], d.(mem := erased))
  {
    Storage.ConfigCodecIsLawful();
    StorageRuns.MovesIs(Storage.ConfigCodec(), d, StorageRuns.Elsewhere(erased), d.(mem := erased));
    LedOne(d, TrialRuns.Elsewhere(erased), d.(mem := erased));
  }

  /** Headers are erased, and then, if that went well, a change is stored. */
  lemma ErasedAndWritten(d: StorageRuns.Device<Config>, erased: Mem, cleared: bool, change: Trial.Change,
      r: Result<(), ConfigStore.StorageError>, d': StorageRuns.Device<Config>) returns (es: seq<Event>)
    requires Trial.Possible(d.value, change) && forall i :: ConfigStore.CONFIG_START <= i < FLASH_SIZE ==> erased[i] == d.mem[i]
    requires if cleared then Storage.Written(r, d.(mem := erased), Trial.Changed(d.value, change), d') else d' == d.(mem := erased)
    ensures Led(d, es, d') && forall e :: e in es && HasChange(e) ==> e.change == change
  {
    ErasedEvent(d, erased);
    es := [TrialRuns.Elsewhere(erased)];
    if cleared {
      var e := WrittenEvent(d.(mem := erased), change, r, d');
      LedOn(d, es, d.(mem := erased), [e], d');
      es := es + [e];
    }
  }

  /** A factory reset: every slot is emptied, then the built-in config stored. */
  method Reset(store: Storage.Storage) returns (ghost es: seq<Event>)
    requires store.Valid() && !Trial.OnTrial(store.defaults)
    modifies store, store.flash, store.flash.mem
    ensures store.Valid() && Led(old(store.View()), es, store.View())
    ensures forall e :: e in es && HasChange(e) ==> e.change == Trial.Reset(store.defaults)
    ensures store.config == if store.flash.failures == old(store.flash.failures) then store.defaults else old(store.config)
  {
    ghost var d := store.View();
    ghost var erased, at;
    var r;
    r, erased, at := store.FactoryReset();
    es := ErasedAndWritten(d, erased, at == Blob.BLOB_SLOTS, Trial.Reset(store.defaults), r, store.View());
  }
}
