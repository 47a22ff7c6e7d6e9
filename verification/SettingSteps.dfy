/**
 What the agent and the portal do to the config is, for the photo, a change of
 settings: the events of the trial's runs are steps of the photo's runs too.
 */
module SettingSteps {
  import opened Bytes
  import opened Wrappers
  import opened Net
  import opened PhotoRuns
  import opened Record
  import opened TrialSteps
  import Agent
  import PhotoFrame
  import PhotoSteps
  import Shell
  import Storage
  import StorageRuns
  import Trial
  import TrialRuns

  /** A setting that was made or refused. */
  predicate Plain(e: TrialRuns.Event) {
    Agent.Setting(e) && !e.Undetected?
  }

  predicate AllPlain(es: seq<TrialRuns.Event>) {
    forall e :: e in es ==> Plain(e)
  }

  /** The same event in the photo's runs. */
  function SettingOf(c: Config, e: TrialRuns.Event): Event
    requires Plain(e)
  {
    if e.Made? then Settings(Trial.Changed(c, e.change)) else SettingsFail(Trial.Changed(c, e.change), e.left)
  }

  predicate OnlySettings(events: seq<Event>) {
    forall e :: e in events ==> e.Settings? || e.SettingsFail?
  }

  lemma SettingIsStep(codec: StorageRuns.Codec<Config>, w: World, e: TrialRuns.Event, w': World)
    requires w.Named() < 2 && InLane(w) && Plain(e)
    requires TrialRuns.Taken(codec, w.dev, e, w'.dev) && w' == w.(dev := w'.dev)
    ensures Step(codec, w, SettingOf(w.dev.value, e), w') && w'.Named() == w.Named()
  {
    var next := Trial.Changed(w.dev.value, e.change);
    Trial.ChangeKeepsPhoto(w.dev.value, e.change);
    StorageRuns.MovesIs(codec, w.dev, if e.Made? then StorageRuns.Completed(next) else StorageRuns.Failed(next, e.left), w'.dev);
  }

  /** The settings of a frame, one after another, are steps of the photo's runs. */
  lemma {:induction false} PathIsSteps(codec: StorageRuns.Codec<Config>, w: World, ds: seq<StorageRuns.Device<Config>>, es: seq<TrialRuns.Event>, n: nat)
      returns (ws: seq<World>, events: seq<Event>)
    requires w.Named() < 2 && InLane(w) && AllPlain(es) && n <= |es|
    requires TrialRuns.Path(codec, ds, es) && ds[0] == w.dev
    ensures Steps(codec, ws, events) && |events| == n && OnlySettings(events)
    ensures ws[0] == w && ws[n] == w.(dev := ds[n]) && ws[n].Named() < 2
  {
    if n == 0 {
      ws, events := [w], [];
    } else {
      ws, events := PathIsSteps(codec, w, ds, es, n - 1);
      var w1 := w.(dev := ds[n]);
      NextOnPath(codec, ws[n - 1], ds, es, n - 1, w1);
      ws, events := OneStepMore(codec, ws, events, SettingOf(ws[n - 1].dev.value, es[n - 1]), w1);
    }
  }

  lemma NextOnPath(codec: StorageRuns.Codec<Config>, w: World, ds: seq<StorageRuns.Device<Config>>, es: seq<TrialRuns.Event>, i: nat, w': World)
    requires TrialRuns.Path(codec, ds, es) && AllPlain(es) && i < |es|
    requires w.Named() < 2 && InLane(w) && w.dev == ds[i] && w' == w.(dev := ds[i + 1])
    ensures Plain(es[i]) && Step(codec, w, SettingOf(w.dev.value, es[i]), w') && w'.Named() == w.Named()
  {
    TrialRuns.PathIs(codec, ds, es);
    assert es[i] in es;
    SettingIsStep(codec, w, es[i], w');
  }

  lemma OneStepMore(codec: StorageRuns.Codec<Config>, ws: seq<World>, events: seq<Event>, e: Event, w': World) returns (ws': seq<World>, events': seq<Event>)
    requires Steps(codec, ws, events) && ws[|events|].Named() < 2 && InLane(ws[|events|])
    requires Step(codec, ws[|events|], e, w')
    ensures ws' == ws + [w'] && events' == events + [e] && Steps(codec, ws', events')
  {
    ws', events' := ws + [w'], events + [e];
    forall i | 0 <= i < |events'|
      ensures StepAt(codec, ws', events', i)
    {
      if i < |events| {
        assert StepAt(codec, ws, events, i);
      }
    }
  }

  /** What the trial's events did to the device, as worlds of the photo's runs. */
  lemma LedIsSteps(w: World, es: seq<TrialRuns.Event>, d': StorageRuns.Device<Config>) returns (ws: seq<World>, events: seq<Event>)
    requires w.Named() < 2 && InLane(w) && AllPlain(es) && Led(w.dev, es, d')
    ensures Steps(Storage.ConfigCodec(), ws, events) && |events| == |es| && OnlySettings(events)
    ensures ws[0] == w && ws[|es|] == w.(dev := d')
  {
    LedIs(w.dev, es, d');
    var ds :| TrialRuns.Path(Storage.ConfigCodec(), ds, es) && ds[0] == w.dev && ds[|es|] == d';
    ws, events := PathIsSteps(Storage.ConfigCodec(), w, ds, es, |es|);
  }

  /**
   A frame of the agent is settings, whatever it takes in: an expiry, an answer, a command,
   goal names. The one exception is the command to clear the photo cache, which is `PhotoSteps.Clear`.
   */
  method AgentFrame(agent: Agent.Agent, app: PhotoFrame.PhotoFrame, net: Shared, store: Storage.Storage, hasRadio: bool, now: u32,
      saver: bool, clock: Option<u32>, checkRequested: bool, unsent: bool, id: nat, seen: Agent.Seen, ghost w: World)
    returns (reboot: bool, ghost es: seq<TrialRuns.Event>, ghost ws: seq<World>, ghost events: seq<Event>)
    requires net.Valid() && store.Valid() && agent.InStep(net) && seen.Ok()
    requires PhotoSteps.Describes(w, app, store, net) && w.Named() < 2 && InLane(w)
    requires !(hasRadio && Agent.Clearing(agent.job, net.jobs[1], seen))
    modifies agent, net, store, store.flash, store.flash.mem
    ensures net.Valid() && store.Valid() && agent.InStep(net) && Led(old(store.View()), es, store.View())
    ensures AllPlain(es) ==>
      && Steps(Storage.ConfigCodec(), ws, events) && |events| == |es| && OnlySettings(events)
      && ws[0] == w && PhotoSteps.Describes(ws[|es|], app, store, net)
    ensures forall e :: e in es ==> Plain(e) || e.Undetected?
  {
    ghost var over, confirms := agent.Over(store.config, now, clock), Agent.Confirming(store.config, agent.job, net.jobs[1]);
    es, reboot := agent.Update(net, store, hasRadio, now, saver, clock, checkRequested, unsent, id, seen);
    if hasRadio {
      FrameIsSettings(es, over, confirms);
    }
    ws, events := [w], [];
    if AllPlain(es) {
      ws, events := LedIsSteps(w, es, store.View());
    }
  }

  lemma FrameIsSettings(es: seq<TrialRuns.Event>, over: bool, confirms: bool)
    requires Agent.FrameEvents(es, over, confirms, false)
    ensures forall e :: e in es ==> Agent.Setting(e)
  {
    Agent.FrameEventsIs(es, over, confirms, false);
    if over {
      assert es == [es[0]] + es[1..];
      AnswersAreSettings(es[1..], confirms && !es[0].Made?);
    } else {
      AnswersAreSettings(es, confirms);
    }
  }

  lemma AnswersAreSettings(es: seq<TrialRuns.Event>, confirms: bool)
    requires Agent.Answers(es, confirms, false)
    ensures forall e :: e in es ==> Agent.Setting(e)
  {
    if confirms {
      assert es == [es[0]] + es[1..];
    }
  }

  /** So is what is saved on the portal page. */
  method PortalSaved(agent: Agent.Agent, app: PhotoFrame.PhotoFrame, net: Shared, store: Storage.Storage,
      saved: Trial.PortalResult, now: u32, clock: Option<u32>, ghost w: World)
    returns (ghost e: TrialRuns.Event, ghost ws: seq<World>, ghost events: seq<Event>)
    requires net.Valid() && store.Valid() && Trial.SavedOk(saved)
    requires PhotoSteps.Describes(w, app, store, net) && w.Named() < 2 && InLane(w)
    modifies agent`trialStarted, store, store.flash, store.flash.mem
    ensures store.Valid() && Agent.IsChange(e, Trial.Portal(saved, clock))
    ensures !e.Undetected? ==>
      && Steps(Storage.ConfigCodec(), ws, events) && |events| == 1 && OnlySettings(events)
      && ws[0] == w && PhotoSteps.Describes(ws[1], app, store, net)
  {
    e := Shell.PortalSaved(agent, store, saved, now, clock);
    ws, events := [w], [];
    if !e.Undetected? {
      ws, events := LedIsSteps(w, [e], store.View());
    }
  }
}
