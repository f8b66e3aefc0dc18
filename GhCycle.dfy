/**
 One pass of the controller (ghc.c): start-up resolves the setpoints and fixes
 the alarm limits; each cycle then logs the reading, decides the actuators and
 evaluates the alarms. The reading, its local time and the outcomes of the
 file opens are inputs; display and the delay between cycles are not modelled.
 */
module GhCycle {
  import opened GhDefs
  import opened GhControl
  import opened GhAlarms
  import opened GhSetpoints
  import opened GhLog

  /** The log file the controller appends to. */
  const LOG_FILE: string := "ghdata.txt"

  /**
   Start-up: resolve the targets from the setpoint file and fix the alarm
   limits. The seeding of `rand()` by GhControllerInit is not modelled: the
   value `rand()` returns is an input of GetRandom.
   */
  method Initialize(store: SetpointFiles, readOk: bool, writeOk: bool) returns (sets: Setpoint, alimits: AlarmLimit)
    modifies store
    ensures sets == ResolveTargets(Load(old(store.files), SETPOINTS_FILE, readOk))
    ensures !IsUnset(sets)
    ensures store.files == StoreAfterTargets(old(store.files), readOk, writeOk)
    ensures alimits == SetAlarmLimits() && WellOrdered(alimits)
  {
    sets := store.SetTargets(readOk, writeOk);
    alimits := SetAlarmLimits();
  }

  /**
   One cycle: append the reading to the log (a failed open only makes
   `logged` 0), compute the controls and re-evaluate every alarm slot.
   */
  method Cycle(log: LogFiles, warn: array<Alarm>, sets: Setpoint, alimits: AlarmLimit,
               creadings: Reading, t: Tm, logOk: bool)
    returns (logged: int, ctrl: Control)
    requires ValidTm(t) && warn.Length == NALARMS
    modifies log, warn
    ensures logged == (if logOk then 1 else 0)
    ensures log.logs == if logOk then Appended(old(log.logs), LOG_FILE, RecordOf(creadings, t)) else old(log.logs)
    ensures ctrl == SetControls(sets, creadings)
    ensures warn[..] == Evaluated(old(warn[..]), alimits, creadings)
  {
    logged := log.LogData(LOG_FILE, creadings, t, logOk);
    ctrl := SetControls(sets, creadings);
    SetAlarms(warn, alimits, creadings);
  }
}
