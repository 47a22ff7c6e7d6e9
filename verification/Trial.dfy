/**
 The server trial: a changed server or frame name is kept only once a heartbeat
 is answered; otherwise the device goes back to the pair it came from.
 */
module Trial {
  import opened Bytes
  import opened Wrappers
  import opened FixedStrs
  import opened Record
  import Photo
  import Utf8

  const TRIAL_SECS: u32 := 1800
  const TRIAL_MS: u32 := 1_800_000

  /** What the trial protects. */
  type Pair = (FixedStr, FixedStr)

  function PairOf(c: Config): Pair {
    (c.frameServer, c.frameName)
  }

  function Previous(c: Config): Pair {
    (c.prevServer, c.prevName)
  }

  predicate OnTrial(c: Config) {
    c.serverTrialUntil != 0
  }

  /** When a trial begun now ends; 1 while the clock is unknown. The sum wraps, as it does on the device. */
  function TrialUntil(clock: Option<u32>): u32 {
    match clock
    case None => 1
    case Some(secs) => WrappingAdd(secs, TRIAL_SECS)
  }

  /** `server:`, `name:` and portal saves remember where the device came from, once. */
  function Remember(c: Config): Config {
    if c.serverTrialUntil == 0 then c.(prevServer := c.frameServer, prevName := c.frameName) else c
  }

  function WithServer(c: Config, v: seq<byte>, clock: Option<u32>): Config {
    Remember(c).(serverTrialUntil := TrialUntil(clock), frameServer := Replaced(c.frameServer, v),
                 frameLastModified := c.frameLastModified.Cleared())
  }

  function WithName(c: Config, v: seq<byte>, clock: Option<u32>): Config {
    Remember(c).(serverTrialUntil := TrialUntil(clock), frameName := Replaced(c.frameName, v),
                 frameLastModified := c.frameLastModified.Cleared())
  }

  function WithKey(c: Config, v: seq<byte>): Config {
    c.(deviceKey := Replaced(c.deviceKey, v))
  }

  /** Settings entered on the portal page. */
  datatype PortalResult = PortalResult(ssid: FixedStr, password: FixedStr, server: FixedStr, name: FixedStr, key: FixedStr)

  /** Byte for byte: a server with the same text but other stale bytes counts as moved. */
  predicate Moved(c: Config, saved: PortalResult) {
    c.frameServer != saved.server || c.frameName != saved.name
  }

  function WithPortal(c: Config, saved: PortalResult, clock: Option<u32>): Config {
    var c1 := c.(wifiSsid := saved.ssid, wifiPassword := saved.password, deviceKey := saved.key);
    var c2 := if Moved(c, saved)
              then Remember(c1).(serverTrialUntil := TrialUntil(clock), frameLastModified := c.frameLastModified.Cleared())
              else c1;
    c2.(frameServer := saved.server, frameName := saved.name)
  }

  /** A heartbeat was answered: the change stays. */
  function Confirmed(c: Config): Config {
    c.(prevServer := c.prevServer.Cleared(), prevName := c.prevName.Cleared(), serverTrialUntil := 0)
  }

  /** Whether the time is over, by the clock if both ends are known, by uptime otherwise. */
  predicate Expired(until: u32, clock: Option<u32>, elapsedMs: u32) {
    if clock.Some? && until > 1 then clock.value >= until else elapsedMs >= TRIAL_MS
  }

  /** Back to the previous pair; an empty previous string leaves the current one. */
  function RolledBack(c: Config): Config {
    c.(frameServer := if c.prevServer.IsEmpty() then c.frameServer else c.prevServer,
       frameName := if c.prevName.IsEmpty() then c.frameName else c.prevName,
       prevServer := c.prevServer.Cleared(), prevName := c.prevName.Cleared(),
       serverTrialUntil := 0, frameLastModified := c.frameLastModified.Cleared())
  }

  // --- changes -------------------------------------------------------------

  datatype Change =
    | Server(v: seq<byte>, clock: Option<u32>)
    | Name(v: seq<byte>, clock: Option<u32>)
    | Portal(saved: PortalResult, clock: Option<u32>)
    /** Any answered heartbeat, whichever server it was sent to. */
    | Answer
    | Expiry
    /** Any other settings change, one of the photo, and a factory reset. */
    | Unrelated(next: Config)
    | Picture(next: Config)
    | Reset(defaults: Config)

  /** The pair, the one to go back to, and the trial stay. */
  predicate SameTrial(c: Config, next: Config) {
    PairOf(next) == PairOf(c) && Previous(next) == Previous(c) && next.serverTrialUntil == c.serverTrialUntil
  }

  predicate Possible(c: Config, change: Change) {
    match change
    case Answer => OnTrial(c)
    case Expiry => OnTrial(c)
    case Unrelated(next) => SameTrial(c, next) && Photo.KeepsPhoto(c, next)
    case Picture(next) => SameTrial(c, next)
    case Reset(defaults) => defaults.serverTrialUntil == 0
    case _ => true
  }

  function Changed(c: Config, change: Change): Config {
    match change
    case Server(v, clock) => WithServer(c, v, clock)
    case Name(v, clock) => WithName(c, v, clock)
    case Portal(saved, clock) => WithPortal(c, saved, clock)
    case Answer => Confirmed(c)
    case Expiry => RolledBack(c)
    case Unrelated(next) => next
    case Picture(next) => next
    case Reset(defaults) => defaults
  }

  /** Only what is said to concern the photo does: all else keeps its slot, and keeps or clears its stamp. */
  lemma ChangeKeepsPhoto(c: Config, change: Change)
    requires Possible(c, change) && !change.Picture? && !change.Reset?
    ensures Photo.KeepsPhoto(c, Changed(c, change))
  {}

  /** What a config takes for the pair to go back to: the previous one during a trial, else the one in force. */
  function Base(c: Config): Pair {
    if OnTrial(c) then Previous(c) else PairOf(c)
  }

  /** While a trial runs or begins, no change moves the pair to go back to; without one it is the pair in force. */
  lemma ChangeKeepsBase(c: Config, change: Change)
    requires Possible(c, change)
    ensures Base(Changed(c, change)) == if OnTrial(Changed(c, change)) then Base(c) else PairOf(Changed(c, change))
  {}

  /**
   The changes that end a trial: an answer, its expiry, a factory reset. Another change
   of server or name does so only in the one second in which the end of the new trial
   wraps to zero.
   */
  predicate Ends(c: Config, change: Change) {
    match change
    case Answer => true
    case Expiry => true
    case Reset(_) => true
    case Server(_, clock) => TrialUntil(clock) == 0
    case Name(_, clock) => TrialUntil(clock) == 0
    case Portal(saved, clock) => Moved(c, saved) && TrialUntil(clock) == 0
    case Unrelated(_) => false
    case Picture(_) => false
  }

  /** These, and no others, end a running trial. */
  lemma EndsIff(c: Config, change: Change)
    requires OnTrial(c) && Possible(c, change)
    ensures !OnTrial(Changed(c, change)) <==> Ends(c, change)
  {}

  /** Expiry restores the pair to go back to exactly if each half of it was non-empty or had not been changed. */
  lemma ExpiryRestoresIff(c: Config)
    requires OnTrial(c)
    ensures !OnTrial(RolledBack(c)) && RolledBack(c).frameLastModified.IsEmpty()
    ensures Previous(RolledBack(c)).0.IsEmpty() && Previous(RolledBack(c)).1.IsEmpty()
    ensures var c' := RolledBack(c);
            c' == c.(frameServer := c'.frameServer, frameName := c'.frameName, prevServer := c'.prevServer, prevName := c'.prevName,
                     serverTrialUntil := c'.serverTrialUntil, frameLastModified := c'.frameLastModified)
    ensures PairOf(RolledBack(c)) == Base(c) <==>
      (!Base(c).0.IsEmpty() || c.frameServer == Base(c).0) && (!Base(c).1.IsEmpty() || c.frameName == Base(c).1)
  {}

  /** With an empty server to begin with, expiry leaves the server that never answered in place. */
  lemma EmptyServerIsNotRestored(start: Config, v: seq<byte>)
    requires !OnTrial(start) && start.frameServer == Empty(SERVER_MAX)
    requires v == [0x61]
    ensures var c := WithServer(start, v, None);
            && OnTrial(c) && Base(c) == PairOf(start)
            && RolledBack(c).frameServer.len == 1
            && PairOf(RolledBack(c)) != PairOf(start)
  {
    assert v[..1] == v;
    assert Utf8.CharLen(v) == 1 && v[1..] == [];
    assert Utf8.Valid(v);
    assert Utf8.ValidPrefixLen(v, 1) == 1;
    assert Fitting(start.frameServer.Cleared(), v) == 1;
  }

  /** A change starts a trial unless its end wraps to zero, half an hour before the 32-bit clock runs out. */
  lemma TrialStartsIff(c: Config, v: seq<byte>, clock: Option<u32>)
    ensures OnTrial(WithServer(c, v, clock)) <==> clock != Some(0x1_0000_0000 - TRIAL_SECS)
    ensures OnTrial(WithName(c, v, clock)) <==> clock != Some(0x1_0000_0000 - TRIAL_SECS)
  {}

  lemma ReplacedText(f: FixedStr, v: seq<byte>)
    requires Utf8.Valid(v) && |v| <= |f.buf|
    ensures Replaced(f, v).Text() == v
  {
    assert v[..|v|] == v;
    JoinedText(f.Cleared(), v, Fitting(f.Cleared(), v));
    assert f.Cleared().Text() + v == v;
  }

  /** A command puts its text, if it fits, in its own half of the pair, and asks for the photo afresh; a key leaves both halves and the trial alone. */
  lemma CommandsTakeEffect(c: Config, v: seq<byte>, clock: Option<u32>)
    requires c.Wf() && Utf8.Valid(v)
    ensures |v| <= SERVER_MAX ==> WithServer(c, v, clock).frameServer.Text() == v
    ensures |v| <= NAME_MAX ==> WithName(c, v, clock).frameName.Text() == v
    ensures |v| <= KEY_MAX ==> WithKey(c, v).deviceKey.Text() == v
    ensures WithServer(c, v, clock).frameName == c.frameName && WithName(c, v, clock).frameServer == c.frameServer
    ensures WithServer(c, v, clock).frameLastModified.IsEmpty() && WithName(c, v, clock).frameLastModified.IsEmpty()
    ensures PairOf(WithKey(c, v)) == PairOf(c) && Previous(WithKey(c, v)) == Previous(c)
      && WithKey(c, v).serverTrialUntil == c.serverTrialUntil
  {
    WfIs(c);
    if |v| <= SERVER_MAX {
      ReplacedText(c.frameServer, v);
    }
    if |v| <= NAME_MAX {
      ReplacedText(c.frameName, v);
    }
    if |v| <= KEY_MAX {
      ReplacedText(c.deviceKey, v);
    }
  }

  /** The portal puts the saved pair in force; it touches the trial and the stamp only if that moved the device. An answer keeps the pair in force and forgets the other. */
  lemma PortalAndAnswer(c: Config, saved: PortalResult, clock: Option<u32>)
    ensures PairOf(WithPortal(c, saved, clock)) == (saved.server, saved.name)
    ensures !Moved(c, saved) ==>
      && PairOf(WithPortal(c, saved, clock)) == PairOf(c) && Previous(WithPortal(c, saved, clock)) == Previous(c)
      && WithPortal(c, saved, clock).serverTrialUntil == c.serverTrialUntil
      && WithPortal(c, saved, clock).frameLastModified == c.frameLastModified
    ensures Moved(c, saved) ==> WithPortal(c, saved, clock).frameLastModified.IsEmpty()
    ensures var c' := WithPortal(c, saved, clock);
            && c'.wifiSsid == saved.ssid && c'.wifiPassword == saved.password && c'.deviceKey == saved.key
            && c' == c.(wifiSsid := c'.wifiSsid, wifiPassword := c'.wifiPassword, deviceKey := c'.deviceKey,
                        frameServer := c'.frameServer, frameName := c'.frameName, frameLastModified := c'.frameLastModified,
                        prevServer := c'.prevServer, prevName := c'.prevName, serverTrialUntil := c'.serverTrialUntil)
    ensures Confirmed(c) == c.(prevServer := Confirmed(c).prevServer, prevName := Confirmed(c).prevName, serverTrialUntil := 0)
    ensures PairOf(Confirmed(c)) == PairOf(c) && !OnTrial(Confirmed(c))
    ensures Previous(Confirmed(c)).0.IsEmpty() && Previous(Confirmed(c)).1.IsEmpty()
    ensures Confirmed(c).frameLastModified == c.frameLastModified
  {}

  /** Every change keeps the config well formed. */
  lemma ChangesKeepWf(c: Config, v: seq<byte>, clock: Option<u32>)
    requires c.Wf() && Utf8.Valid(v)
    ensures WithServer(c, v, clock).Wf() && WithName(c, v, clock).Wf() && WithKey(c, v).Wf()
    ensures Confirmed(c).Wf() && RolledBack(c).Wf()
  {
    WfIs(c);
    ReplacedWf(c.frameServer, v);
    ReplacedWf(c.frameName, v);
    ReplacedWf(c.deviceKey, v);
    WfIs(WithServer(c, v, clock));
    WfIs(WithName(c, v, clock));
    WfIs(WithKey(c, v));
    WfIs(Confirmed(c));
    WfIs(RolledBack(c));
  }

  predicate SavedOk(saved: PortalResult) {
    && saved.ssid.Wf(SSID_MAX)
    && saved.password.Wf(PASSWORD_MAX)
    && saved.server.Wf(SERVER_MAX)
    && saved.name.Wf(NAME_MAX)
    && saved.key.Wf(KEY_MAX)
  }

  predicate ChangeOk(change: Change) {
    match change
    case Server(v, _) => Utf8.Valid(v)
    case Name(v, _) => Utf8.Valid(v)
    case Portal(saved, _) => SavedOk(saved)
    case Unrelated(next) => next.Wf()
    case Picture(next) => next.Wf()
    case Reset(defaults) => defaults.Wf()
    case _ => true
  }

  lemma ChangedWf(c: Config, change: Change)
    requires c.Wf() && ChangeOk(change)
    ensures Changed(c, change).Wf()
  {
    match change
    case Server(v, clock) => ChangesKeepWf(c, v, clock);
    case Name(v, clock) => ChangesKeepWf(c, v, clock);
    case Answer => ChangesKeepWf(c, [], None);
    case Expiry => ChangesKeepWf(c, [], None);
    case Portal(saved, clock) =>
      WfIs(c);
      WfIs(WithPortal(c, saved, clock));
    case _ =>
  }
}
