/** The shell's part in the server trial: what was entered on the portal page replaces the stored config. */
module Shell {
  import opened Bytes
  import opened Wrappers
  import opened TrialSteps
  import Agent
  import Storage
  import Trial
  import TrialRuns

  /** The saved settings are one change of the trial's runs; the trial is timed from now if they moved the device. */
  method PortalSaved(agent: Agent.Agent, store: Storage.Storage, saved: Trial.PortalResult, now: u32, clock: Option<u32>)
    returns (ghost e: TrialRuns.Event)
    requires store.Valid() && Trial.SavedOk(saved)
    modifies agent`trialStarted, store, store.flash, store.flash.mem
    ensures store.Valid() && Led(old(store.View()), [e], store.View())
    ensures Agent.IsChange(e, Trial.Portal(saved, clock))
    ensures store.config == if store.flash.failures == old(store.flash.failures)
                            then Trial.WithPortal(old(store.config), saved, clock) else old(store.config)
    ensures store.flash.failures == old(store.flash.failures) ==>
      && store.config.wifiSsid == saved.ssid && store.config.wifiPassword == saved.password && store.config.deviceKey == saved.key
      && store.config.frameServer == saved.server && store.config.frameName == saved.name
    ensures agent.trialStarted == if Trial.Moved(old(store.config), saved) then now else old(agent.trialStarted)
  {
    var moved := store.config.frameServer != saved.server || store.config.frameName != saved.name;
    e := Apply(store, Trial.Portal(saved, clock));
    if moved {
      agent.trialStarted := now;
    }
  }
}
