/**
 The server trial over every run of the device: changes stored, refused or cut
 short, reboots, and other flash traffic. A boot may adopt a change whose storing
 was reported as failed.
 */
module TrialRuns {
  import opened Flash
  import opened Wrappers
  import opened Record
  import opened StorageRuns
  import opened Veils
  import Cells
  import Trial

  /** The device, and the pair in force when no trial was last running. */
  datatype World = World(dev: Device<Config>, base: Trial.Pair)

  datatype Event =
    | Made(change: Trial.Change)
    /** The flash driver reported an error and left `left`; the config in RAM stays. */
    | Refused(change: Trial.Change, left: Mem)
    /** The same, but the flash is not as assumed of torn sectors: no run goes on from here. */
    | Undetected(change: Trial.Change, left: Mem)
    /** Power was cut while the change was stored; the device booted again. */
    | Cut(change: Trial.Change, left: Mem)
    | Reboot
    | Elsewhere(left: Mem)

  predicate HasChange(e: Event) {
    e.Made? || e.Refused? || e.Undetected? || e.Cut?
  }

  /** What one event does to the device. */
  ghost predicate Taken(codec: Codec<Config>, d: Device<Config>, e: Event, d': Device<Config>) {
    && (HasChange(e) ==> Trial.Possible(d.value, e.change))
    && match e
       case Made(change) => Moves(codec, d, Completed(Trial.Changed(d.value, change)), d')
       case Refused(change, left) => Moves(codec, d, Failed(Trial.Changed(d.value, change), left), d')
       case Undetected(change, left) =>
         && !TornDetected(codec, d.mem, left, Trial.Changed(d.value, change), Cells.Next(d.sequence))
         && d' == d.(mem := left, attempts := d.attempts + {Trial.Changed(d.value, change)})
       case Cut(change, left) => Moves(codec, d, StorageRuns.Cut(Trial.Changed(d.value, change), left), d')
       case Reboot => Moves(codec, d, StorageRuns.Reboot, d')
       case Elsewhere(left) => Moves(codec, d, StorageRuns.Elsewhere(left), d')
  }

  ghost predicate Step(codec: Codec<Config>, w: World, e: Event, w': World) {
    && Taken(codec, w.dev, e, w'.dev) && !e.Undetected?
    && w'.base == if Trial.OnTrial(w'.dev.value) then w.base else Trial.PairOf(w'.dev.value)
  }

  /** `c` is a config in force, or one made from it by a change that was begun. */
  ghost predicate ComesFrom(c: Config, made: Config) {
    made == c || exists change :: Trial.Possible(c, change) && made == Trial.Changed(c, change)
  }

  ghost predicate Inv(codec: Codec<Config>, w: World) {
    && Lawful(codec) && Sound(codec, w.dev)
    && Trial.Base(w.dev.value) == w.base
    && ComesFrom(w.dev.value, Flashed(codec, w.dev))
  }

  lemma NextBase(c: Config, made: Config)
    requires ComesFrom(c, made)
    ensures Trial.Base(made) == if Trial.OnTrial(made) then Trial.Base(c) else Trial.PairOf(made)
  {
    if made != c {
      var change :| Trial.Possible(c, change) && made == Trial.Changed(c, change);
      Trial.ChangeKeepsBase(c, change);
    }
  }

  /** The config in RAM and the one the flash would boot to. */
  type Values = (Config, Config)

  ghost function ValuesOf(codec: Codec<Config>, w: World): Values {
    (w.dev.value, Flashed(codec, w.dev))
  }

  /** What an event makes of RAM and flash: nothing new, its own change, or what the flash held. */
  ghost predicate Makes(v: Values, e: Event, v': Values) {
    var (c, f) := v;
    var (c', f') := v';
    match e
    case Made(change) => c' == Trial.Changed(c, change) && (f' == c' || (c' == c && f' == f))
    case Refused(change, _) => c' == c && (f' == f || f' == c || f' == Trial.Changed(c, change))
    case Cut(change, _) => c' == f' && (c' == f || c' == c || c' == Trial.Changed(c, change))
    case Reboot => c' == f' == f
    case Elsewhere(_) => c' == c && f' == f
    case Undetected(_, _) => false
  }

  lemma StepMakes(codec: Codec<Config>, w: World, e: Event, w': World)
    requires Lawful(codec) && Sound(codec, w.dev) && Step(codec, w, e, w')
    ensures Sound(codec, w'.dev) && Makes(ValuesOf(codec, w), e, ValuesOf(codec, w'))
    ensures HasChange(e) ==> Trial.Possible(w.dev.value, e.change)
  {
    var d, d' := w.dev, w'.dev;
    var moved :=
      match e
      case Made(change) => Completed(Trial.Changed(d.value, change))
      case Refused(change, left) => Failed(Trial.Changed(d.value, change), left)
      case Cut(change, left) => StorageRuns.Cut(Trial.Changed(d.value, change), left)
      case Reboot => StorageRuns.Reboot
      case Elsewhere(left) => StorageRuns.Elsewhere(left);
    MovesIs(codec, d, moved, d');
    StepKeeps(codec, d, moved, d');
    FlashedAfter(codec, d, moved, d');
  }

  /** What the step makes of RAM and flash comes from the config that was in force. */
  lemma StepComesFrom(codec: Codec<Config>, w: World, e: Event, w': World)
    requires Inv(codec, w) && Step(codec, w, e, w')
    ensures Sound(codec, w'.dev) && ComesFrom(w.dev.value, w'.dev.value)
    ensures ComesFrom(w'.dev.value, Flashed(codec, w'.dev))
  {
    StepMakes(codec, w, e, w');
  }

  lemma StepKeepsInv(codec: Codec<Config>, w: World, e: Event, w': World)
    requires Inv(codec, w) && Step(codec, w, e, w')
    ensures Inv(codec, w')
  {
    StepComesFrom(codec, w, e, w');
    NextBase(w.dev.value, w'.dev.value);
  }

  // --- runs ----------------------------------------------------------------

  /** A device that is not on trial, and whose flash agrees. */
  ghost predicate Start(codec: Codec<Config>, w: World) {
    && Lawful(codec) && Sound(codec, w.dev) && Flashed(codec, w.dev) == w.dev.value
    && !Trial.OnTrial(w.dev.value) && w.base == Trial.PairOf(w.dev.value)
  }

  /** The first boot, with nothing stored yet, is such a device. */
  lemma FirstBootStarts(codec: Codec<Config>, mem: Mem, defaults: Config)
    requires Lawful(codec) && codec.good(defaults) && !Trial.OnTrial(defaults)
    requires Cells.Loaded(Reads(codec, mem)) == None
    ensures Start(codec, World(Boot(codec, mem, defaults), Trial.PairOf(defaults)))
  {}

  ghost predicate Run(codec: Codec<Config>, ws: seq<World>, es: seq<Event>) {
    && |ws| == |es| + 1 && Start(codec, ws[0])
    && forall i :: 0 <= i < |es| ==> Step(codec, ws[i], es[i], ws[i + 1])
  }

  lemma {:induction false} RunKeeps(codec: Codec<Config>, ws: seq<World>, es: seq<Event>, n: nat)
    requires Run(codec, ws, es) && n < |ws|
    ensures Inv(codec, ws[n])
  {
    if n > 0 {
      RunKeeps(codec, ws, es, n - 1);
      StepKeepsInv(codec, ws[n - 1], es[n - 1], ws[n]);
    }
  }

  /**
   In every run, at every moment: a trial that is on remembers the pair in force
   before it, also after reboots and in configs whose storing had failed.
   */
  lemma TrialRemembersBase(codec: Codec<Config>, ws: seq<World>, es: seq<Event>, n: nat)
    requires Run(codec, ws, es) && n < |ws|
    ensures if Trial.OnTrial(ws[n].dev.value) then Trial.Previous(ws[n].dev.value) == ws[n].base
            else Trial.PairOf(ws[n].dev.value) == ws[n].base
  {
    RunKeeps(codec, ws, es, n);
  }

  /** The pair kept on the side is the one in force at the last moment without a trial. */
  lemma {:induction false} BaseIsThePairBefore(codec: Codec<Config>, ws: seq<World>, es: seq<Event>, n: nat) returns (m: nat)
    requires Run(codec, ws, es) && n < |ws|
    ensures m <= n && !Trial.OnTrial(ws[m].dev.value) && ws[n].base == Trial.PairOf(ws[m].dev.value)
    ensures forall i :: m < i <= n ==> Trial.OnTrial(ws[i].dev.value)
  {
    if Trial.OnTrial(ws[n].dev.value) && n > 0 {
      assert Step(codec, ws[n - 1], es[n - 1], ws[n - 1 + 1]);
      m := BaseIsThePairBefore(codec, ws, es, n - 1);
    } else {
      m := n;
      if n > 0 {
        assert Step(codec, ws[n - 1], es[n - 1], ws[n - 1 + 1]);
      }
    }
  }

  /**
   Expiry restores exactly the pair in force before the trial, if and only if each
   half of it was non-empty or had not been changed.
   */
  lemma ExpiryRestores(codec: Codec<Config>, ws: seq<World>, es: seq<Event>, n: nat)
    requires Run(codec, ws, es) && n < |ws| && Trial.OnTrial(ws[n].dev.value)
    ensures var c, back := ws[n].dev.value, Trial.RolledBack(ws[n].dev.value);
            && !Trial.OnTrial(back) && back.frameLastModified.IsEmpty()
            && (n < |es| && es[n] == Made(Trial.Expiry) ==> ws[n + 1].dev.value == back)
            && (Trial.PairOf(back) == ws[n].base <==>
                  (!ws[n].base.0.IsEmpty() || c.frameServer == ws[n].base.0) &&
                  (!ws[n].base.1.IsEmpty() || c.frameName == ws[n].base.1))
  {
    RunKeeps(codec, ws, es, n);
    Trial.ExpiryRestoresIff(ws[n].dev.value);
    if n < |es| && es[n] == Made(Trial.Expiry) {
      assert Step(codec, ws[n], es[n], ws[n + 1]);
      MovesIs(codec, ws[n].dev, Completed(Trial.Changed(ws[n].dev.value, Trial.Expiry)), ws[n + 1].dev);
    }
  }

  /** However many changes were stacked since, and whatever was refused, cut or rebooted in between, expiry goes back to the pair before them all. */
  lemma StackedChanges(codec: Codec<Config>, ws: seq<World>, es: seq<Event>, m: nat, n: nat)
    requires Run(codec, ws, es) && m < n < |ws|
    requires !Trial.OnTrial(ws[m].dev.value) && forall i :: m < i <= n ==> Trial.OnTrial(ws[i].dev.value)
    requires !ws[m].dev.value.frameServer.IsEmpty() && !ws[m].dev.value.frameName.IsEmpty()
    ensures Trial.PairOf(Trial.RolledBack(ws[n].dev.value)) == Trial.PairOf(ws[m].dev.value)
  {
    var k := BaseIsThePairBefore(codec, ws, es, n);
    assert k == m;
    ExpiryRestores(codec, ws, es, n);
  }

  // --- how a trial ends ----------------------------------------------------

  /** Event `j` made, or began, a change of the config that has been in force ever since, up to moment `n`. */
  ghost predicate BegunOn(ws: seq<World>, es: seq<Event>, j: int, n: int) {
    && 0 <= j <= n < |ws| && j < |es| && HasChange(es[j])
    && (forall i :: j <= i <= n ==> ws[i].dev.value == ws[n].dev.value)
    && Trial.Possible(ws[n].dev.value, es[j].change)
  }

  /** What the flash would boot to is the config in force, or one that a change refused on it would have made. */
  ghost predicate Explained(codec: Codec<Config>, ws: seq<World>, es: seq<Event>, n: int)
    requires 0 <= n < |ws|
  {
    || Flashed(codec, ws[n].dev) == ws[n].dev.value
    || exists j :: BegunOn(ws, es, j, n) && j < n && es[j].Refused? && Flashed(codec, ws[n].dev) == Trial.Changed(ws[n].dev.value, es[j].change)
  }

  lemma {:induction false} AlwaysExplained(codec: Codec<Config>, ws: seq<World>, es: seq<Event>, n: nat)
    requires Run(codec, ws, es) && n < |ws|
    ensures Explained(codec, ws, es, n)
  {
    if n > 0 {
      AlwaysExplained(codec, ws, es, n - 1);
      RunKeeps(codec, ws, es, n - 1);
      StepMakes(codec, ws[n - 1], es[n - 1], ws[n - 1 + 1]);
      StaysExplained(codec, ws, es, n - 1);
    }
  }

  lemma StaysExplained(codec: Codec<Config>, ws: seq<World>, es: seq<Event>, n: nat)
    requires n + 1 < |ws| == |es| + 1 && Explained(codec, ws, es, n)
    requires Makes(ValuesOf(codec, ws[n]), es[n], ValuesOf(codec, ws[n + 1]))
    requires HasChange(es[n]) ==> Trial.Possible(ws[n].dev.value, es[n].change)
    ensures Explained(codec, ws, es, n + 1)
  {
    var (c, f) := ValuesOf(codec, ws[n]);
    var (c', f') := ValuesOf(codec, ws[n + 1]);
    if f' != c' {
      assert c' == c;
      if f' == f {
        var j :| BegunOn(ws, es, j, n) && j < n && es[j].Refused? && f == Trial.Changed(c, es[j].change);
        assert BegunOn(ws, es, j, n + 1);
      } else {
        assert BegunOn(ws, es, n, n + 1);
      }
    }
  }

  /**
   Every step of a run that ends a trial does so by a change that ends one: an answer,
   an expiry, a reset, or the wrapping one. It is the change of that very step; or the step
   boots, and the change was refused earlier, on the same config, and found in flash.
   */
  lemma TrialEndsBy(codec: Codec<Config>, ws: seq<World>, es: seq<Event>, n: nat) returns (j: nat)
    requires Run(codec, ws, es) && n < |es| && Trial.OnTrial(ws[n].dev.value) && !Trial.OnTrial(ws[n + 1].dev.value)
    ensures BegunOn(ws, es, j, n) && Trial.Ends(ws[n].dev.value, es[j].change)
    ensures ws[n + 1].dev.value == Trial.Changed(ws[n].dev.value, es[j].change)
    ensures if j == n then es[n].Made? || es[n].Cut? else es[j].Refused? && (es[n].Reboot? || es[n].Cut?)
  {
    RunKeeps(codec, ws, es, n);
    AlwaysExplained(codec, ws, es, n);
    StepMakes(codec, ws[n], es[n], ws[n + 1]);
    j := Culprit(codec, ws, es, n);
    Trial.EndsIff(ws[n].dev.value, es[j].change);
  }

  /** A step that changes the config makes a change of its own, or adopts a refused one. */
  lemma Culprit(codec: Codec<Config>, ws: seq<World>, es: seq<Event>, n: nat) returns (j: nat)
    requires n + 1 < |ws| == |es| + 1 && Explained(codec, ws, es, n) && ws[n].dev.value != ws[n + 1].dev.value
    requires Makes(ValuesOf(codec, ws[n]), es[n], ValuesOf(codec, ws[n + 1]))
    requires HasChange(es[n]) ==> Trial.Possible(ws[n].dev.value, es[n].change)
    ensures BegunOn(ws, es, j, n) && ws[n + 1].dev.value == Trial.Changed(ws[n].dev.value, es[j].change)
    ensures if j == n then es[n].Made? || es[n].Cut? else es[j].Refused? && (es[n].Reboot? || es[n].Cut?)
  {
    var (c, f) := ValuesOf(codec, ws[n]);
    var (c', f') := ValuesOf(codec, ws[n + 1]);
    if HasChange(es[n]) && c' == Trial.Changed(c, es[n].change) {
      j := n;
    } else {
      assert c' == f;
      j :| BegunOn(ws, es, j, n) && j < n && es[j].Refused? && f == Trial.Changed(c, es[j].change);
    }
  }

  /**
   So a trial lasts, whatever is changed, refused, cut or rebooted meanwhile, until a change
   that ends it is begun: until a heartbeat is answered, it expires, or the device is reset.
   */
  lemma {:induction false} TrialLasts(codec: Codec<Config>, ws: seq<World>, es: seq<Event>, m: nat, n: nat)
    requires Run(codec, ws, es) && m <= n < |ws| && Trial.OnTrial(ws[m].dev.value)
    requires forall j :: 0 <= j < n && HasChange(es[j]) && Trial.OnTrial(ws[j].dev.value) ==> !Trial.Ends(ws[j].dev.value, es[j].change)
    ensures Trial.OnTrial(ws[n].dev.value)
  {
    if m < n {
      TrialLasts(codec, ws, es, m, n - 1);
      if !Trial.OnTrial(ws[n - 1 + 1].dev.value) {
        var _ := TrialEndsBy(codec, ws, es, n - 1);
      }
    }
  }

  /** A refused change may be in force after a reboot: the driver gave up although the record was written in full. */
  lemma RefusedMayTakeEffect(codec: Codec<Config>, w: World, change: Trial.Change) returns (refused: World, booted: World)
    requires Inv(codec, w) && Trial.Possible(w.dev.value, change) && codec.good(Trial.Changed(w.dev.value, change))
    ensures refused.dev.value == w.dev.value && Step(codec, w, Refused(change, refused.dev.mem), refused)
    ensures booted.dev.value == Trial.Changed(w.dev.value, change) && Step(codec, refused, Event.Reboot, booted)
  {
    var next := Trial.Changed(w.dev.value, change);
    var d1 := WrittenButRefused(codec, w.dev, next);
    MovesIs(codec, w.dev, Failed(next, d1.mem), d1);
    refused := World(d1, if Trial.OnTrial(d1.value) then w.base else Trial.PairOf(d1.value));
    var d2 := Boot(codec, d1.mem, d1.defaults);
    MovesIs(codec, d1, StorageRuns.Reboot, d2);
    booted := World(d2, if Trial.OnTrial(d2.value) then w.base else Trial.PairOf(d2.value));
  }

  // --- what one frame of the device does -----------------------------------

  /** One device after another, each made from the one before by the event between them. */
  ghost predicate Linked(x: (Codec<Config>, seq<Device<Config>>, seq<Event>)) {
    && |x.1| == |x.2| + 1
    && forall i :: 0 <= i < |x.2| ==> Taken(x.0, x.1[i], x.2[i], x.1[i + 1])
  }

  ghost predicate Path(codec: Codec<Config>, ds: seq<Device<Config>>, es: seq<Event>)
    ensures Path(codec, ds, es) ==> |ds| == |es| + 1
  {
    |ds| == |es| + 1 && Veil(Linked, (codec, ds, es), |es| + 3)
  }

  lemma PathIs(codec: Codec<Config>, ds: seq<Device<Config>>, es: seq<Event>)
    ensures Path(codec, ds, es) <==> Linked((codec, ds, es))
  {
    Lift(Linked, (codec, ds, es), |es| + 3);
  }

  /** The events lead the device from `d` to `d'`, one after another. */
  ghost predicate Chain(codec: Codec<Config>, d: Device<Config>, es: seq<Event>, d': Device<Config>) {
    exists ds :: Path(codec, ds, es) && ds[0] == d && ds[|es|] == d'
  }

  lemma ChainNone(codec: Codec<Config>, d: Device<Config>)
    ensures Chain(codec, d, [], d)
  {
    PathIs(codec, [d], []);
    assert Path(codec, [d], []);
  }

  lemma ChainOne(codec: Codec<Config>, d: Device<Config>, e: Event, d': Device<Config>)
    requires Taken(codec, d, e, d')
    ensures Chain(codec, d, [e], d')
  {
    PathIs(codec, [d, d'], [e]);
    assert Path(codec, [d, d'], [e]);
  }

  lemma ChainJoin(codec: Codec<Config>, d: Device<Config>, es: seq<Event>, m: Device<Config>, more: seq<Event>, d': Device<Config>)
    requires Chain(codec, d, es, m) && Chain(codec, m, more, d')
    ensures Chain(codec, d, es + more, d')
  {
    var ds1 :| Path(codec, ds1, es) && ds1[0] == d && ds1[|es|] == m;
    var ds2 :| Path(codec, ds2, more) && ds2[0] == m && ds2[|more|] == d';
    PathsJoin(codec, ds1, es, ds2, more);
    assert Path(codec, ds1 + ds2[1..], es + more);
  }

  lemma PathsJoin(codec: Codec<Config>, ds1: seq<Device<Config>>, es: seq<Event>, ds2: seq<Device<Config>>, more: seq<Event>)
    requires Path(codec, ds1, es) && Path(codec, ds2, more) && ds1[|es|] == ds2[0]
    ensures Path(codec, ds1 + ds2[1..], es + more)
    ensures (ds1 + ds2[1..])[0] == ds1[0] && (ds1 + ds2[1..])[|es + more|] == ds2[|more|]
  {
    PathIs(codec, ds1, es);
    PathIs(codec, ds2, more);
    var ds := ds1 + ds2[1..];
    PathIs(codec, ds, es + more);
    forall i | 0 <= i < |es + more|
      ensures Taken(codec, ds[i], (es + more)[i], ds[i + 1])
    {
      if i < |es| {
        assert Taken(codec, ds1[i], es[i], ds1[i + 1]);
      } else {
        assert ds[i] == ds2[i - |es|];
        assert Taken(codec, ds2[i - |es|], more[i - |es|], ds2[i - |es| + 1]);
      }
    }
  }

  /** What a frame does continues the run that led to it, as long as torn sectors are as assumed. */
  lemma ChainContinues(codec: Codec<Config>, ws: seq<World>, es: seq<Event>, more: seq<Event>, d': Device<Config>)
      returns (ws': seq<World>)
    requires Run(codec, ws, es) && Chain(codec, ws[|es|].dev, more, d')
    requires forall e :: e in more ==> !e.Undetected?
    ensures Run(codec, ws', es + more) && ws <= ws' && ws'[|es + more|].dev == d'
  {
    var ds :| Path(codec, ds, more) && ds[0] == ws[|es|].dev && ds[|more|] == d';
    ws' := RunAlong(codec, ws, es, ds, more, |more|);
    assert more[..|more|] == more;
  }

  lemma {:induction false} RunAlong(codec: Codec<Config>, ws: seq<World>, es: seq<Event>, ds: seq<Device<Config>>, more: seq<Event>, n: nat)
      returns (ws': seq<World>)
    requires Run(codec, ws, es) && Path(codec, ds, more) && ds[0] == ws[|es|].dev && n <= |more|
    requires forall e :: e in more ==> !e.Undetected?
    ensures Run(codec, ws', es + more[..n]) && ws <= ws' && ws'[|es| + n].dev == ds[n]
  {
    if n == 0 {
      ws' := ws;
      assert es + more[..0] == es;
    } else {
      var ws1 := RunAlong(codec, ws, es, ds, more, n - 1);
      var w := ws1[|es| + n - 1];
      var w' := World(ds[n], if Trial.OnTrial(ds[n].value) then w.base else Trial.PairOf(ds[n].value));
      assert more[n - 1] in more;
      StepOfPath(codec, w, ds, more, n - 1, w');
      ws' := ws1 + [w'];
      RunExtends(codec, ws1, es + more[..n - 1], more[n - 1], w');
      assert es + more[..n] == es + more[..n - 1] + [more[n - 1]];
    }
  }

  lemma StepOfPath(codec: Codec<Config>, w: World, ds: seq<Device<Config>>, more: seq<Event>, i: nat, w': World)
    requires Path(codec, ds, more) && i < |more| && !more[i].Undetected? && w.dev == ds[i]
    requires w' == World(ds[i + 1], if Trial.OnTrial(ds[i + 1].value) then w.base else Trial.PairOf(ds[i + 1].value))
    ensures Step(codec, w, more[i], w')
  {
    PathIs(codec, ds, more);
  }

  lemma RunExtends(codec: Codec<Config>, ws: seq<World>, es: seq<Event>, e: Event, w': World)
    requires Run(codec, ws, es) && Step(codec, ws[|es|], e, w')
    ensures Run(codec, ws + [w'], es + [e])
  {
    forall i | 0 <= i < |es| + 1
      ensures Step(codec, (ws + [w'])[i], (es + [e])[i], (ws + [w'])[i + 1])
    {
      if i < |es| {
        assert Step(codec, ws[i], es[i], ws[i + 1]);
      }
    }
  }
}
