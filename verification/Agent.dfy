/** The OS agent: heartbeat, server commands, update checks, and the server trial. */
module Agent {
  import opened Bytes
  import opened Wrappers
  import opened FixedStrs
  import opened Record
  import opened Net
  import opened TrialSteps
  import opened Veils
  import Pets
  import Photo
  import PhotoFrame
  import Storage
  import Trial
  import TrialRuns
  import Utf8

  type Event = TrialRuns.Event

  const FIRST_POLL_MS: u32 := 5_000
  const HEARTBEAT_MS: u32 := 30_000
  const HEARTBEAT_SAVER_MS: u32 := 300_000
  const RETRY_MS: u32 := 15_000
  const OTA_FIRST_MS: u32 := 60_000
  const OTA_EVERY_MS: u32 := 21_600_000
  const LOG_POST_MS: u32 := 60_000

  datatype Job = None_ | Heartbeat | Warnings | Version | Firmware | Goals

  /** One instruction from the server, already split from its argument. */
  datatype Command = Nothing | Hug | Server(v: seq<byte>) | Name(v: seq<byte>) | Key(v: seq<byte>) | Refetch | ClearCache | Saver(mode: byte) | Update | Other

  /** What a heartbeat answer carries for the agent. */
  datatype Answer = Answer(command: Command, goalsStamp: u32)

  /** Update checks go before heartbeats, these before goal names, these before warnings. */
  function Rank(job: Job): nat {
    match job
    case Version => 0
    case Heartbeat => 1
    case Goals => 2
    case Warnings => 3
    case _ => 4
  }

  /** What the agent still means to do, and when. */
  datatype Agenda = Agenda(checkUpdate: bool, nextOta: u32, nextPoll: u32, fetchGoals: bool, nextLog: u32) {

    /** There is reason to start `next` now. */
    predicate Asked(next: Job, now: u32, unsent: bool) {
      match next
      case Version => checkUpdate || Due(now, nextOta)
      case Heartbeat => Due(now, nextPoll)
      case Goals => fetchGoals
      case Warnings => unsent && Due(now, nextLog)
      case _ => false
    }

    /** What a frame settles before it looks for something to do: the first timers, an expired trial, the menu's wish. */
    function Readied(started: bool, over: bool, checkRequested: bool, now: u32): Agenda {
      var a := if started then this
               else this.(nextPoll := WrappingAdd(now, 5_000), nextOta := WrappingAdd(now, 60_000), nextLog := now);
      var b := if over then a.(nextPoll := WrappingAdd(now, 2_000)) else a;
      if checkRequested then b.(checkUpdate := true, nextOta := now) else b
    }
  }

  /**
   `job` is the most urgent of those there was reason for, or none if there was reason
   for none. Its own timer or wish is settled; those of the others stay.
   */
  predicate Taken(before: Agenda, now: u32, saver: bool, unsent: bool, job: Job, after: Agenda) {
    && (job == None_ <==> forall other :: !before.Asked(other, now, unsent))
    && (job != None_ ==> before.Asked(job, now, unsent))
    && (forall other :: before.Asked(other, now, unsent) ==> Rank(job) <= Rank(other))
    && after.nextOta == (if job == Version then WrappingAdd(now, 21_600_000) else before.nextOta)
    && after.nextPoll == (if job == Heartbeat then WrappingAdd(now, if saver then 300_000 else 30_000) else before.nextPoll)
    && after.nextLog == (if job == Warnings then WrappingAdd(now, 60_000) else before.nextLog)
    && !after.checkUpdate && after.fetchGoals == (before.fetchGoals && job != Goals)
  }

  predicate Answered(status: u16) {
    status / 100 == 2 || status == 304
  }

  /** The effect of a command on the config. */
  function Obeyed(c: Config, command: Command, clock: Option<u32>): Config {
    match command
    case Server(v) => Trial.WithServer(c, v, clock)
    case Name(v) => Trial.WithName(c, v, clock)
    case Key(v) => Trial.WithKey(c, v)
    case Refetch => c.(frameLastModified := c.frameLastModified.Cleared())
    case ClearCache => Photo.Forgotten(c)
    case Saver(mode) => c.(powerMode := mode)
    case _ => c
  }

  predicate CommandOk(command: Command) {
    match command
    case Server(v) => Utf8.Valid(v)
    case Name(v) => Utf8.Valid(v)
    case Key(v) => Utf8.Valid(v)
    case _ => true
  }

  // --- what the server's commands are for ----------------------------------

  predicate Reads(f: FixedStr, text: seq<byte>) {
    f.len == |text| <= |f.buf| && f.buf[..f.len] == text
  }

  /** The text, or as many whole characters as there is room for. */
  function Cut(v: seq<byte>, room: nat): seq<byte> {
    if |v| <= room then v else v[..Utf8.ValidPrefixLen(v, room)]
  }

  /** When a trial begun now is over, in seconds; 1 if the clock is unknown. */
  function EndOf(clock: Option<u32>): u32 {
    if clock.None? then 1 else (clock.value + 1800) % 0x1_0000_0000
  }

  /**
   The config is `c'` after the command: its own setting is what the command says, a
   trial is begun for a new server or name, the photo is asked for afresh, and every
   other setting stays.
   */
  predicate Does(c: Config, command: Command, clock: Option<u32>, c': Config) {
    var onTrial := c.serverTrialUntil != 0;
    var moved := c.(frameLastModified := c'.frameLastModified, serverTrialUntil := EndOf(clock),
                    prevServer := if onTrial then c.prevServer else c.frameServer,
                    prevName := if onTrial then c.prevName else c.frameName);
    match command
    case Server(v) => Reads(c'.frameServer, Cut(v, 96)) && c'.frameLastModified.len == 0 && c' == moved.(frameServer := c'.frameServer)
    case Name(v) => Reads(c'.frameName, Cut(v, 24)) && c'.frameLastModified.len == 0 && c' == moved.(frameName := c'.frameName)
    case Key(v) => Reads(c'.deviceKey, Cut(v, 32)) && c' == c.(deviceKey := c'.deviceKey)
    case Refetch => c'.frameLastModified.len == 0 && c' == c.(frameLastModified := c'.frameLastModified)
    case ClearCache => c'.frameLastModified.len == 0 && c' == c.(frameLastModified := c'.frameLastModified, frameSlot := 0)
    case Saver(mode) => c' == c.(powerMode := mode)
    case _ => c' == c
  }

  lemma ReplacedReads(f: FixedStr, v: seq<byte>)
    requires f.len <= |f.buf| && Utf8.Valid(v)
    ensures Reads(Replaced(f, v), Cut(v, |f.buf|))
  {
    var room := |f.buf|;
    var g := f.Cleared();
    JoinedText(g, v, Fitting(g, v));
    assert g.Text() + v[..Fitting(g, v)] == v[..Fitting(g, v)];
    if |v| <= room {
      assert v[..|v|] == v;
    }
  }

  lemma TextReplaced(c: Config, v: seq<byte>)
    requires c.Wf() && Utf8.Valid(v)
    ensures Reads(Replaced(c.frameServer, v), Cut(v, 96)) && Reads(Replaced(c.frameName, v), Cut(v, 24)) && Reads(Replaced(c.deviceKey, v), Cut(v, 32))
  {
    WfIs(c);
    ReplacedReads(c.frameServer, v);
    ReplacedReads(c.frameName, v);
    ReplacedReads(c.deviceKey, v);
  }

  /** What is stored for a command does what the command is for. */
  lemma CommandsDo(c: Config, command: Command, clock: Option<u32>)
    requires c.Wf() && CommandOk(command)
    ensures Does(c, command, clock, Obeyed(c, command, clock))
  {
    if command.Server? || command.Name? || command.Key? {
      TextReplaced(c, command.v);
    }
  }

  predicate ChangesConfig(command: Command) {
    command.Server? || command.Name? || command.Key? || command.Refetch? || command.Saver?
  }

  lemma ObeyedWf(c: Config, command: Command, clock: Option<u32>)
    requires c.Wf() && CommandOk(command)
    ensures Obeyed(c, command, clock).Wf()
    ensures !ChangesConfig(command) && !command.ClearCache? ==> Obeyed(c, command, clock) == c
  {
    if command.Server? || command.Name? || command.Key? {
      Trial.ChangesKeepWf(c, command.v, clock);
    } else {
      WfIs(c);
      WfIs(Obeyed(c, command, clock));
    }
  }

  class Agent {
    var started: bool
    var job: Job
    var nextPoll: u32
    var nextOta: u32
    var nextLog: u32
    var checkUpdate: bool
    var fetchGoals: bool
    var goalsStamp: u32
    var fails: byte
    var heartbeatOk: bool
    var trialStarted: u32

    constructor ()
      ensures job == None_ && !started && !heartbeatOk && fails == 0 && trialStarted == goalsStamp == 0
      ensures ToDo() == Agenda(false, 0, 0, false, 0)
    {
      started := false;
      job := None_;
      nextPoll, nextOta, nextLog := 0, 0, 0;
      checkUpdate, fetchGoals := false, false;
      goalsStamp := 0;
      fails := 0;
      heartbeatOk := false;
      trialStarted := 0;
    }

    /** The agent has a job exactly while the system lane is not idle. */
    ghost predicate InStep(net: Shared)
      requires net.Valid()
      reads this, net
    {
      job != None_ <==> net.jobs[1] != Idle
    }

    /** A trial is running and its time is over. */
    predicate Over(c: Config, now: u32, clock: Option<u32>)
      reads this
    {
      Trial.OnTrial(c) && Trial.Expired(c.serverTrialUntil, clock, WrappingSub(now, trialStarted))
    }

    /** Gives up a new server or name when its time is over. */
    method CheckServerTrial(store: Storage.Storage, now: u32, clock: Option<u32>) returns (ghost es: seq<Event>)
      requires store.Valid()
      modifies this`nextPoll, store, store.flash, store.flash.mem
      ensures store.Valid()
      ensures Led(old(store.View()), es, store.View())
      ensures if old(Over(store.config, now, clock)) then |es| == 1 && IsChange(es[0], Trial.Expiry) else es == []
      ensures store.flash.failures >= old(store.flash.failures)
      ensures store.config == if es != [] && es[0].Made? then Trial.RolledBack(old(store.config)) else old(store.config)
      ensures es != [] && !es[0].Made? ==> store.flash.failures > old(store.flash.failures)
      ensures nextPoll == if old(Over(store.config, now, clock)) then WrappingAdd(now, 2_000) else old(nextPoll)
      ensures var until := old(store.config.serverTrialUntil);
              var early := if clock.Some? && until > 1 then clock.value < until else WrappingSub(now, trialStarted) < 1_800_000;
              es == [] <==> until == 0 || early
    {
      es := [];
      LedNone(store.View());
      var until := store.config.serverTrialUntil;
      if until == 0 {
        return;
      }
      var expired := if clock.Some? && until > 1 then clock.value >= until
                     else WrappingSub(now, trialStarted) >= Trial.TRIAL_MS;
      if !expired {
        return;
      }
      ghost var e := Apply(store, Trial.Expiry);
      es := [e];
      nextPoll := WrappingAdd(now, 2_000);
    }

    /** Carries out one command. */
    method RunCommand(store: Storage.Storage, now: u32, clock: Option<u32>, command: Command) returns (ghost es: seq<Event>)
      requires store.Valid() && CommandOk(command)
      modifies this`nextPoll, this`nextOta, this`checkUpdate, this`trialStarted, store, store.flash, store.flash.mem
      ensures store.Valid()
      ensures Led(old(store.View()), es, store.View()) && NoVerdict(es, command.ClearCache?)
      ensures store.config == old(store.config) || store.config == Obeyed(old(store.config), command, clock)
      ensures store.flash.failures == old(store.flash.failures) ==> store.config == Obeyed(old(store.config), command, clock)
      ensures store.flash.failures == old(store.flash.failures) ==> Does(old(store.config), command, clock, store.config)
      ensures store.flash.failures >= old(store.flash.failures)
      ensures trialStarted == if command.Server? || command.Name? then now else old(trialStarted)
      ensures nextPoll == if command.Server? || command.Name? || command.Key? then WrappingAdd(now, 2_000) else old(nextPoll)
      ensures checkUpdate == (old(checkUpdate) || command.Update?) && nextOta == if command.Update? then now else old(nextOta)
    {
      es := Obey(store, command, clock);
      if command.Server? || command.Name? {
        trialStarted := now;
      }
      if command.Server? || command.Name? || command.Key? {
        nextPoll := WrappingAdd(now, 2_000);
      }
      if command.Update? {
        checkUpdate := true;
        nextOta := now;
      }
    }

    /** Takes in the answer to a heartbeat: it ends a running trial, and may carry a command. */
    method FinishHeartbeat(store: Storage.Storage, now: u32, clock: Option<u32>, status: u16, answer: Answer) returns (ghost es: seq<Event>)
      requires store.Valid() && CommandOk(answer.command)
      modifies this`fails, this`heartbeatOk, this`goalsStamp, this`fetchGoals
      modifies this`nextPoll, this`nextOta, this`checkUpdate, this`trialStarted, store, store.flash, store.flash.mem
      ensures store.Valid()
      ensures Led(old(store.View()), es, store.View())
      ensures Answers(es, Answered(status) && Trial.OnTrial(old(store.config)), answer.command.ClearCache?)
      ensures es != [] && IsChange(es[0], Trial.Answer) <==> (200 <= status < 300 || status == 304) && old(store.config.serverTrialUntil) != 0
      ensures heartbeatOk == (old(heartbeatOk) || Answered(status))
      ensures fails == if Answered(status) then 0 else if old(fails) < 255 then old(fails) + 1 else 255
      ensures nextPoll == if answer.command.Server? || answer.command.Name? || answer.command.Key? then WrappingAdd(now, 2_000) else old(nextPoll)
      ensures if Answered(status) && answer.goalsStamp != 0 && answer.goalsStamp != old(store.config.goalsStamp)
              then fetchGoals && goalsStamp == answer.goalsStamp
              else fetchGoals == old(fetchGoals) && goalsStamp == old(goalsStamp)
      ensures store.flash.failures >= old(store.flash.failures)
      ensures store.flash.failures == old(store.flash.failures) ==>
        store.config == Obeyed(if Answered(status) && Trial.OnTrial(old(store.config)) then Trial.Confirmed(old(store.config)) else old(store.config),
                               answer.command, clock)
    {
      ghost var before := store.View();
      ghost var confirmed: seq<Event> := [];
      LedNone(before);
      if !Answered(status) {
        fails := if fails < 255 then fails + 1 else 255;
      } else {
        confirmed := Acknowledge(store, answer);
      }
      ghost var middle := store.View();
      ghost var more := RunCommand(store, now, clock, answer.command);
      LedOn(before, confirmed, middle, more, store.View());
      es := confirmed + more;
      assert confirmed != [] ==> es[1..] == more;
      AnswerComesFirst(es, Answered(status) && Trial.OnTrial(before.value), answer.command.ClearCache?);
    }

    /** The server answered: a running trial is over. */
    method Acknowledge(store: Storage.Storage, answer: Answer) returns (ghost es: seq<Event>)
      requires store.Valid()
      modifies this`fails, this`heartbeatOk, this`goalsStamp, this`fetchGoals, store, store.flash, store.flash.mem
      ensures store.Valid()
      ensures Led(old(store.View()), es, store.View())
      ensures if Trial.OnTrial(old(store.config)) then |es| == 1 && IsChange(es[0], Trial.Answer) else es == []
      ensures heartbeatOk && fails == 0
      ensures if answer.goalsStamp != 0 && answer.goalsStamp != old(store.config.goalsStamp)
              then fetchGoals && goalsStamp == answer.goalsStamp
              else fetchGoals == old(fetchGoals) && goalsStamp == old(goalsStamp)
      ensures store.flash.failures >= old(store.flash.failures)
      ensures store.config == if Trial.OnTrial(old(store.config)) && store.flash.failures == old(store.flash.failures)
                              then Trial.Confirmed(old(store.config)) else old(store.config)
    {
      es := [];
      LedNone(store.View());
      fails := 0;
      heartbeatOk := true;
      if store.config.serverTrialUntil != 0 {
        ghost var e := Apply(store, Trial.Answer);
        es := [e];
      }
      if answer.goalsStamp != 0 && answer.goalsStamp != store.config.goalsStamp {
        goalsStamp := answer.goalsStamp;
        fetchGoals := true;
      }
    }

    /** Asks for a request on the system lane; the job is on only if it was accepted. */
    method Start(net: Shared, next: Job, sink: Sink, id: nat)
      requires net.Valid() && InStep(net) && job == None_ && next != None_
      modifies this`job, net
      ensures net.Valid() && InStep(net) && OthersKept(old(net.Snapshot()), net.Snapshot())
      ensures job == if old(net.up) then next else None_
      ensures net.jobs[1] == if old(net.up) then Pending else old(net.jobs[1])
    {
      var r := net.FetchOn(true, System, Request(id, sink, []));
      if r.Ok? {
        job := next;
      }
    }

    function ToDo(): Agenda
      reads this
    {
      Agenda(checkUpdate, nextOta, nextPoll, fetchGoals, nextLog)
    }

    /** Starts the most urgent of the jobs there is reason for; the others get their turn later. */
    method StartNext(net: Shared, now: u32, saver: bool, unsent: bool, id: nat)
      requires net.Valid() && InStep(net) && job == None_ && net.up
      modifies this`job, this`nextOta, this`nextPoll, this`nextLog, this`checkUpdate, this`fetchGoals, net
      ensures net.Valid() && InStep(net) && OthersKept(old(net.Snapshot()), net.Snapshot())
      ensures Taken(old(ToDo()), now, saver, unsent, job, ToDo())
      ensures job == Version <==> old(checkUpdate || Due(now, nextOta))
      ensures job == Heartbeat <==> !old(checkUpdate || Due(now, nextOta)) && old(Due(now, nextPoll))
      ensures job == Goals <==> !old(checkUpdate || Due(now, nextOta) || Due(now, nextPoll)) && old(fetchGoals)
      ensures net.jobs[1] == if job == None_ then Idle else Pending
    {
      if checkUpdate || Due(now, nextOta) {
        assert ToDo().Asked(Version, now, unsent);
        checkUpdate := false;
        nextOta := WrappingAdd(now, OTA_EVERY_MS);
        Start(net, Version, Small, id);
      } else if Due(now, nextPoll) {
        assert ToDo().Asked(Heartbeat, now, unsent);
        nextPoll := WrappingAdd(now, if saver then HEARTBEAT_SAVER_MS else HEARTBEAT_MS);
        Start(net, Heartbeat, Small, id);
      } else if fetchGoals {
        assert ToDo().Asked(Goals, now, unsent);
        fetchGoals := false;
        Start(net, Goals, Small, id);
      } else if unsent && Due(now, nextLog) {
        assert ToDo().Asked(Warnings, now, unsent);
        nextLog := WrappingAdd(now, LOG_POST_MS);
        Start(net, Warnings, Small, id);
      }
    }

    /** Stores the goal names the server sent. */
    method FinishGoals(store: Storage.Storage, status: u16, names: seq<FixedStr>) returns (ghost es: seq<Event>)
      requires store.Valid() && NamesOk(names)
      modifies store, store.flash, store.flash.mem
      ensures store.Valid()
      ensures Led(old(store.View()), es, store.View())
      ensures NoVerdict(es, false)
      ensures store.flash.failures >= old(store.flash.failures)
      ensures store.config == if status == 200 && store.flash.failures == old(store.flash.failures)
                              then old(store.config).(goalNames := names, goalsStamp := goalsStamp) else old(store.config)
    {
      es := [];
      LedNone(store.View());
      if status == 200 {
        WfIs(store.config);
        WfIs(store.config.(goalNames := names, goalsStamp := goalsStamp));
        ghost var e := Apply(store, Trial.Unrelated(store.config.(goalNames := names, goalsStamp := goalsStamp)));
        es := [e];
      }
    }

    /** Takes in what came back for a job. `reboot` is the restart into new firmware. */
    method FinishJob(net: Shared, store: Storage.Storage, was: Job, r: FetchResult, now: u32, id: nat, seen: Seen)
      returns (ghost es: seq<Event>, reboot: bool)
      requires net.Valid() && store.Valid() && InStep(net) && job == None_ && seen.Ok()
      modifies this, net, store, store.flash, store.flash.mem
      ensures net.Valid() && store.Valid() && InStep(net) && OthersKept(old(net.Snapshot()), net.Snapshot())
      ensures Led(old(store.View()), es, store.View())
      ensures Answers(es, Confirming(old(store.config), was, Done(r)), Clearing(was, Done(r), seen))
      ensures store.flash.failures >= old(store.flash.failures)
      ensures store.flash.failures == old(store.flash.failures) ==>
        store.config == AfterAnswer(old(store.config), was, Done(r), seen, old(goalsStamp))
      ensures started == old(started) && job == NextJob(was, Done(r), seen, net.up)
      ensures net.jobs[1] == if job == None_ then old(net.jobs[1]) else Pending
      ensures reboot <==> Restarts(was, Done(r))
    {
      es, reboot := [], false;
      LedNone(store.View());
      match was
      case Heartbeat =>
        es := FinishHeartbeat(store, now, seen.clock, r.status, seen.answer);
      case Version =>
        if r.status == 200 && seen.newVersion {
          Start(net, Job.Firmware, Sink.Firmware, id);
        }
      case Firmware => reboot := r.status == 200 && r.len > 0;
      case Goals => es := FinishGoals(store, r.status, seen.names);
      case _ =>
    }

    /**
     A failed request is counted, without the count ever wrapping. After a failed
     heartbeat the next one is due fifteen seconds from now and not before.
     */
    method FinishFailure(was: Job, now: u32)
      modifies this`fails, this`nextPoll
      ensures fails == if old(fails) < 255 then old(fails) + 1 else 255
      ensures was == Heartbeat ==>
        forall later: u32 :: later < 0x8000_0000 + 15_000 ==> (Due(WrappingAdd(now, later), nextPoll) <==> later >= 15_000)
      ensures nextPoll == if was == Heartbeat then WrappingAdd(now, 15_000) else old(nextPoll)
    {
      fails := if fails < 255 then fails + 1 else 255;
      if was == Heartbeat {
        nextPoll := WrappingAdd(now, RETRY_MS);
        forall later: u32 | later < 0x8000_0000 + RETRY_MS
          ensures Due(WrappingAdd(now, later), nextPoll) <==> later >= RETRY_MS
        {
          DueAfter(now, RETRY_MS, later);
        }
      }
    }

    /** The first pass sets the timers. */
    method SetOut(now: u32)
      modifies this`started, this`nextPoll, this`nextOta, this`nextLog
      ensures started && ToDo() == old(ToDo()).Readied(old(started), false, false, now)
    {
      if !started {
        started := true;
        nextPoll := WrappingAdd(now, FIRST_POLL_MS);
        nextOta := WrappingAdd(now, OTA_FIRST_MS);
        nextLog := now;
      }
    }

    /** What is settled before anything is polled or started. */
    method Settle(store: Storage.Storage, now: u32, clock: Option<u32>, checkRequested: bool) returns (ghost es: seq<Event>)
      requires store.Valid()
      modifies this`started, this`nextPoll, this`nextOta, this`nextLog, this`checkUpdate, store, store.flash, store.flash.mem
      ensures store.Valid() && started
      ensures ToDo() == old(ToDo()).Readied(old(started), old(Over(store.config, now, clock)), checkRequested, now)
      ensures Led(old(store.View()), es, store.View())
      ensures if old(Over(store.config, now, clock)) then |es| == 1 && IsChange(es[0], Trial.Expiry) else es == []
      ensures store.flash.failures >= old(store.flash.failures)
      ensures store.config == if es != [] && es[0].Made? then Trial.RolledBack(old(store.config)) else old(store.config)
      ensures es != [] && !es[0].Made? ==> store.flash.failures > old(store.flash.failures)
    {
      SetOut(now);
      es := CheckServerTrial(store, now, clock);
      if checkRequested {
        checkUpdate := true;
        nextOta := now;
      }
    }

    /**
     Run once per frame. The first event of a frame is the expiry of a trial that is
     over; a heartbeat that was answered confirms a trial that then still runs; nothing
     else ends one. A finished job is taken and followed up, and when there is none, the
     most urgent thing to do is begun.
     */
    method Update(net: Shared, store: Storage.Storage, hasRadio: bool, now: u32, saver: bool,
        clock: Option<u32>, checkRequested: bool, unsent: bool, id: nat, seen: Seen)
      returns (ghost es: seq<Event>, reboot: bool)
      requires net.Valid() && store.Valid() && InStep(net) && seen.Ok()
      modifies this, net, store, store.flash, store.flash.mem
      ensures net.Valid() && store.Valid() && InStep(net) && OthersKept(old(net.Snapshot()), net.Snapshot())
      ensures Led(old(store.View()), es, store.View())
      ensures !hasRadio ==>
        es == [] && job == old(job) && ToDo() == old(ToDo()) && store.View() == old(store.View()) && net.Snapshot() == old(net.Snapshot())
      ensures hasRadio ==>
        FrameEvents(es, old(Over(store.config, now, clock)), Confirming(old(store.config), old(job), old(net.jobs[1])),
                    Clearing(old(job), old(net.jobs[1]), seen))
      ensures hasRadio && store.flash.failures == old(store.flash.failures) ==>
        store.config == AfterAnswer(if old(Over(store.config, now, clock)) then Trial.RolledBack(old(store.config)) else old(store.config),
                                    old(job), old(net.jobs[1]), seen, old(goalsStamp))
      ensures hasRadio && old(job) != None_ ==>
        && job == NextJob(old(job), old(net.jobs[1]), seen, net.up)
        && (Finished(old(net.jobs[1])) ==> net.jobs[1] == if job == None_ then Idle else Pending)
      ensures hasRadio && old(job) == None_ ==>
        var todo := old(ToDo()).Readied(old(started), old(Over(store.config, now, clock)), checkRequested, now);
        if net.up then Taken(todo, now, saver, unsent, job, ToDo()) else job == None_ && ToDo() == todo
      ensures reboot <==> hasRadio && Restarts(old(job), old(net.jobs[1]))
    {
      es, reboot := [], false;
      ghost var before := store.View();
      if !hasRadio {
        LedNone(before);
        return;
      }
      ghost var over, confirms := Over(store.config, now, clock), Confirming(store.config, job, net.jobs[1]);
      ghost var clears := Clearing(job, net.jobs[1], seen);
      es := Settle(store, now, clock, checkRequested);
      ghost var middle := store.View();
      ghost var more;
      more, reboot := Proceed(net, store, now, saver, unsent, id, seen);
      LedOn(before, es, middle, more, store.View());
      FramesJoin(es, more, over, confirms, clears);
      es := es + more;
    }

    /** Polls the job there is, or begins one. */
    method Proceed(net: Shared, store: Storage.Storage, now: u32, saver: bool, unsent: bool, id: nat, seen: Seen)
      returns (ghost es: seq<Event>, reboot: bool)
      requires net.Valid() && store.Valid() && InStep(net) && seen.Ok()
      modifies this, net, store, store.flash, store.flash.mem
      ensures net.Valid() && store.Valid() && InStep(net) && OthersKept(old(net.Snapshot()), net.Snapshot())
      ensures Led(old(store.View()), es, store.View())
      ensures Answers(es, Confirming(old(store.config), old(job), old(net.jobs[1])), Clearing(old(job), old(net.jobs[1]), seen))
      ensures store.flash.failures >= old(store.flash.failures)
      ensures store.flash.failures == old(store.flash.failures) ==>
        store.config == AfterAnswer(old(store.config), old(job), old(net.jobs[1]), seen, old(goalsStamp))
      ensures old(job) != None_ ==>
        && job == NextJob(old(job), old(net.jobs[1]), seen, net.up)
        && (Finished(old(net.jobs[1])) ==> net.jobs[1] == if job == None_ then Idle else Pending)
      ensures old(job) == None_ ==>
        if net.up then Taken(old(ToDo()), now, saver, unsent, job, ToDo()) else job == None_ && ToDo() == old(ToDo())
      ensures reboot <==> Restarts(old(job), old(net.jobs[1]))
    {
      es, reboot := [], false;
      if job != None_ {
        es, reboot := PollJob(net, store, now, id, seen);
      } else {
        LedNone(store.View());
        if net.up {
          StartNext(net, now, saver, unsent, id);
        }
      }
    }

    /** Takes a finished job. */
    method PollJob(net: Shared, store: Storage.Storage, now: u32, id: nat, seen: Seen)
      returns (ghost es: seq<Event>, reboot: bool)
      requires net.Valid() && store.Valid() && InStep(net) && job != None_ && seen.Ok()
      modifies this, net, store, store.flash, store.flash.mem
      ensures net.Valid() && store.Valid() && InStep(net) && OthersKept(old(net.Snapshot()), net.Snapshot())
      ensures Led(old(store.View()), es, store.View())
      ensures Answers(es, Confirming(old(store.config), old(job), old(net.jobs[1])), Clearing(old(job), old(net.jobs[1]), seen))
      ensures store.flash.failures >= old(store.flash.failures)
      ensures store.flash.failures == old(store.flash.failures) ==>
        store.config == AfterAnswer(old(store.config), old(job), old(net.jobs[1]), seen, old(goalsStamp))
      ensures job == NextJob(old(job), old(net.jobs[1]), seen, net.up)
      ensures Finished(old(net.jobs[1])) ==> net.jobs[1] == if job == None_ then Idle else Pending
      ensures old(net.jobs[1]).Failed? && old(job) == Heartbeat ==> nextPoll == WrappingAdd(now, 15_000)
      ensures old(net.jobs[1]).Failed? ==> fails == if old(fails) < 255 then old(fails) + 1 else 255
      ensures !Finished(old(net.jobs[1])) ==> net.jobs[1] == old(net.jobs[1]) && ToDo() == old(ToDo())
      ensures reboot <==> Restarts(old(job), old(net.jobs[1]))
    {
      es, reboot := [], false;
      LedNone(store.View());
      var outcome := net.TakeJobOn(System);
      match outcome
      case Done(r) =>
        var was := job;
        job := None_;
        es, reboot := FinishJob(net, store, was, r, now, id, seen);
      case Failed(_) =>
        FinishFailure(job, now);
        job := None_;
      case _ =>
    }
  }

  /** The expiry comes first, if there is one; only if it was refused is there still a trial to confirm. */
  predicate InOrder(x: (seq<Event>, bool, bool, bool)) {
    var (es, over, confirms, clears) := x;
    if over then |es| > 0 && IsChange(es[0], Trial.Expiry) && Answers(es[1..], confirms && !es[0].Made?, clears)
    else Answers(es, confirms, clears)
  }

  predicate FrameEvents(es: seq<Event>, over: bool, confirms: bool, clears: bool) {
    Veil(InOrder, (es, over, confirms, clears), |es| + 3)
  }

  lemma FrameEventsIs(es: seq<Event>, over: bool, confirms: bool, clears: bool)
    ensures FrameEvents(es, over, confirms, clears) <==>
      if over then |es| > 0 && IsChange(es[0], Trial.Expiry) && Answers(es[1..], confirms && !es[0].Made?, clears)
      else Answers(es, confirms, clears)
  {
    Lift(InOrder, (es, over, confirms, clears), |es| + 3);
  }

  lemma FramesJoin(es: seq<Event>, more: seq<Event>, over: bool, confirms: bool, clears: bool)
    requires if over then |es| == 1 && IsChange(es[0], Trial.Expiry) else es == []
    requires Answers(more, confirms && !(over && es[0].Made?), clears)
    ensures FrameEvents(es + more, over, confirms, clears)
  {
    FrameEventsIs(es + more, over, confirms, clears);
    if over {
      assert (es + more)[1..] == more;
    } else {
      assert es + more == more;
    }
  }

  /** The agent keeps to its own lane. */
  predicate OthersKept(before: Lanes, after: Lanes)
    requires before.Shaped() && after.Shaped()
  {
    && after.up == before.up && after.small == before.small
    && after.jobs[0] == before.jobs[0] && after.requests[0] == before.requests[0]
  }

  // --- what an answer means ------------------------------------------------

  /** The answer to a heartbeat that confirms the trial that is running. */
  predicate Confirming(c: Config, was: Job, state: JobState) {
    was == Heartbeat && state.Done? && Answered(state.result.status) && Trial.OnTrial(c)
  }

  /** The answer to a heartbeat that carries the command to clear the photo cache. */
  predicate Clearing(was: Job, state: JobState, seen: Seen) {
    was == Heartbeat && state.Done? && seen.answer.command.ClearCache?
  }

  /** The config after an answer, if the driver stores it. */
  function AfterAnswer(c: Config, was: Job, state: JobState, seen: Seen, stamp: u32): Config {
    if !state.Done? then c
    else
      match was
      case Heartbeat => Obeyed(if Confirming(c, was, state) then Trial.Confirmed(c) else c, seen.answer.command, seen.clock)
      case Goals => if state.result.status == 200 then c.(goalNames := seen.names, goalsStamp := stamp) else c
      case _ => c
  }

  /** The job the agent has then: the firmware follows upon a version that differs. */
  function NextJob(was: Job, state: JobState, seen: Seen, up: bool): Job {
    if !Finished(state) then was
    else if was == Version && state.Done? && state.result.status == 200 && seen.newVersion && up then Job.Firmware
    else None_
  }

  /** The device restarts into new firmware. */
  predicate Restarts(was: Job, state: JobState) {
    was == Job.Firmware && state.Done? && state.result.status == 200 && state.result.len > 0
  }

  /** What the rest of the device makes of an answer: parsed text, and the clock it set. */
  datatype Seen = Seen(answer: Answer, newVersion: bool, names: seq<FixedStr>, clock: Option<u32>) {
    predicate Ok() {
      CommandOk(answer.command) && NamesOk(names)
    }
  }

  predicate NamesOk(names: seq<FixedStr>) {
    |names| == 5 && forall i :: 0 <= i < 5 ==> names[i].Wf(Pets.GOAL_NAME_MAX)
  }

  /** The event is that change, made or refused. */
  predicate IsChange(e: Event, change: Trial.Change) {
    (e.Made? || e.Refused? || e.Undetected?) && e.change == change
  }

  /** A verdict on the trial: an answer, its expiry, or a reset. */
  predicate Verdict(e: Event) {
    TrialRuns.HasChange(e) && (e.change.Answer? || e.change.Expiry? || e.change.Reset?)
  }

  /** A setting is stored, or refused, and the photo is left alone. */
  predicate Setting(e: Event) {
    (e.Made? || e.Refused? || e.Undetected?) && !e.change.Picture? && !e.change.Reset?
  }

  /** No verdict on the trial, and nothing but settings, unless the photo cache is cleared. */
  predicate NoVerdict(es: seq<Event>, clears: bool) {
    forall e :: e in es ==> !Verdict(e) && (clears || Setting(e))
  }

  /** The events begin with a heartbeat's answer, if it confirms the trial, and hold no other verdict. */
  predicate Answers(es: seq<Event>, confirms: bool, clears: bool) {
    if confirms then |es| > 0 && IsChange(es[0], Trial.Answer) && NoVerdict(es[1..], clears) else NoVerdict(es, clears)
  }

  /** The first event is a heartbeat's answer exactly if it confirms the trial. */
  lemma AnswerComesFirst(es: seq<Event>, confirms: bool, clears: bool)
    requires Answers(es, confirms, clears)
    ensures es != [] && IsChange(es[0], Trial.Answer) <==> confirms
  {
    assert es != [] ==> es[0] in es;
  }

  /**
   Firmware is fetched exactly after a version that differs, with the link up; the device
   restarts exactly after an image with something in it; goal names are stored with their stamp.
   */
  lemma FollowUps(c: Config, was: Job, state: JobState, seen: Seen, stamp: u32, up: bool)
    requires Finished(state)
    ensures NextJob(was, state, seen, up) == Job.Firmware <==> was == Version && state.Done? && state.result.status == 200 && seen.newVersion && up
    ensures NextJob(was, state, seen, up) != Job.Firmware ==> NextJob(was, state, seen, up) == None_
    ensures Restarts(was, state) <==> was == Job.Firmware && state.Done? && state.result.status == 200 && state.result.len > 0
    ensures was == Goals && state.Done? && state.result.status == 200 ==>
      AfterAnswer(c, was, state, seen, stamp) == c.(goalNames := seen.names, goalsStamp := stamp)
    ensures !(was == Heartbeat && state.Done?) && !(was == Goals && state.Done? && state.result.status == 200) ==>
      AfterAnswer(c, was, state, seen, stamp) == c
  {}

  /** A command as a change of the stored config. */
  function ChangeOf(c: Config, command: Command, clock: Option<u32>): Trial.Change {
    match command
    case Server(v) => Trial.Change.Server(v, clock)
    case Name(v) => Trial.Change.Name(v, clock)
    case ClearCache => Trial.Picture(Obeyed(c, command, clock))
    case _ => Trial.Unrelated(Obeyed(c, command, clock))
  }

  lemma ChangeOfIs(c: Config, command: Command, clock: Option<u32>)
    requires c.Wf() && CommandOk(command)
    ensures var change := ChangeOf(c, command, clock);
            && Trial.Possible(c, change) && Trial.ChangeOk(change)
            && Trial.Changed(c, change) == Obeyed(c, command, clock)
            && !change.Answer? && !change.Expiry? && !change.Reset? && (change.Picture? <==> command.ClearCache?)
  {
    ObeyedWf(c, command, clock);
  }

  /** The part of a command that is stored. */
  method Obey(store: Storage.Storage, command: Command, clock: Option<u32>) returns (ghost es: seq<Event>)
    requires store.Valid() && CommandOk(command)
    modifies store, store.flash, store.flash.mem
    ensures store.Valid()
    ensures Led(old(store.View()), es, store.View()) && NoVerdict(es, command.ClearCache?)
    ensures store.config == old(store.config) || store.config == Obeyed(old(store.config), command, clock)
    ensures store.flash.failures == old(store.flash.failures) ==> store.config == Obeyed(old(store.config), command, clock)
    ensures store.flash.failures == old(store.flash.failures) ==> Does(old(store.config), command, clock, store.config)
    ensures store.flash.failures >= old(store.flash.failures)
  {
    es := [];
    LedNone(store.View());
    CommandsDo(store.config, command, clock);
    if command.ClearCache? {
      es := ForgetPhoto(store);
    } else if ChangesConfig(command) {
      ChangeOfIs(store.config, command, clock);
      ghost var e := Apply(store, ChangeOf(store.config, command, clock));
      es := [e];
    } else {
      ObeyedWf(store.config, command, clock);
    }
  }

  /** Clearing the photo cache: flash traffic outside the config, then an unrelated change. */
  method ForgetPhoto(store: Storage.Storage) returns (ghost es: seq<Event>)
    requires store.Valid()
    modifies store, store.flash, store.flash.mem
    ensures store.Valid()
    ensures Led(old(store.View()), es, store.View()) && NoVerdict(es, true)
    ensures store.config == if store.flash.failures == old(store.flash.failures) then Photo.Forgotten(old(store.config)) else old(store.config)
    ensures store.flash.failures >= old(store.flash.failures)
  {
    ghost var d := store.View();
    var r;
    ghost var erased, cleared;
    r, erased, cleared := PhotoFrame.ClearCache(store);
    es := ErasedAndWritten(d, erased, cleared, Trial.Picture(Photo.Forgotten(d.value)), r, store.View());
  }
}
