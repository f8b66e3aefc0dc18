/**
 Constants, the alarm enumeration and the record types of the greenhouse
 controller (ghcontrol.h). The C `float` fields are modelled as `real`: the
 control and alarm logic only ever compares them.
 */
module GhDefs {

  // Simulation ranges for each sensor channel (inclusive integer bounds).
  const USTEMP: int := 50
  const LSTEMP: int := -10
  const USHUMID: int := 100
  const LSHUMID: int := 0
  const USPRESS: int := 1016
  const LSPRESS: int := 975

  // Default setpoints applied when none are stored.
  const STEMP: real := 25.0
  const SHUMID: real := 55.0

  // Actuator states.
  const ON: int := 1
  const OFF: int := 0

  // Size of the character buffer GhLogData copies the ctime text into.
  const CTIMESTRSZ: nat := 25

  // Pixel-matrix geometry and the column used for each metric.
  const NUMBARS: int := 8
  const TBAR: int := 7
  const HBAR: int := 5
  const PBAR: int := 3

  // Number of alarm slots, one per alarm code.
  const NALARMS: nat := 7

  // Alarm thresholds.
  const LOWERATEMP: int := 10
  const UPPERATEMP: int := 30
  const LOWERAHUMID: int := 25
  const UPPERAHUMID: int := 70
  const LOWERAPRESS: int := 985
  const UPPERAPRESS: int := 1016

  /** The alarm codes, in the order of the C enumeration (0 .. 6). */
  datatype AlarmCode = NoAlarm | HTemp | LTemp | HHumid | LHumid | HPress | LPress

  /** The integer value the C enumeration gives a code; it is a valid slot index. */
  function Ordinal(c: AlarmCode): (n: nat)
    ensures n < NALARMS
    ensures n == 0 <==> c == NoAlarm
  {
    match c
    case NoAlarm => 0
    case HTemp => 1
    case LTemp => 2
    case HHumid => 3
    case LHumid => 4
    case HPress => 5
    case LPress => 6
  }

  /** The code whose enumeration value is `k`. */
  function CodeAt(k: nat): (c: AlarmCode)
    requires k < NALARMS
    ensures Ordinal(c) == k
  {
    if k == 0 then NoAlarm
    else if k == 1 then HTemp
    else if k == 2 then LTemp
    else if k == 3 then HHumid
    else if k == 4 then LHumid
    else if k == 5 then HPress
    else LPress
  }

  /** Enumeration values are distinct and cover every slot: Ordinal is a bijection onto 0 .. NALARMS-1. */
  lemma OrdinalBijective(c: AlarmCode, d: AlarmCode)
    ensures CodeAt(Ordinal(c)) == c
    ensures Ordinal(c) == Ordinal(d) ==> c == d
  {
  }

  /** One sensor sample: time stamp (time_t) and the three measured values. */
  datatype Reading = Reading(rtime: int, temperature: real, humidity: real, pressure: real)

  /** Target values for the two controlled metrics. */
  datatype Setpoint = Setpoint(temperature: real, humidity: real)

  /** Actuator commands, each ON or OFF. */
  datatype Control = Control(heater: int, humidifier: int)

  /** High and low thresholds for each metric. */
  datatype AlarmLimit = AlarmLimit(hight: real, lowt: real, highh: real, lowh: real, highp: real, lowp: real)

  /** One alarm slot: its code, the time it was raised and the offending value. */
  datatype Alarm = Alarm(code: AlarmCode, atime: int, value: real)

  /** The fixed relations between the header's constants. */
  lemma HeaderConstantsConsistent()
    ensures ON != OFF
    ensures LSTEMP < USTEMP && LSHUMID < USHUMID && LSPRESS < USPRESS
    ensures LOWERATEMP < UPPERATEMP && LOWERAHUMID < UPPERAHUMID && LOWERAPRESS < UPPERAPRESS
    ensures STEMP != 0.0 && SHUMID != 0.0
    ensures 0 <= TBAR < NUMBARS && 0 <= HBAR < NUMBARS && 0 <= PBAR < NUMBARS
    ensures TBAR != HBAR && HBAR != PBAR && TBAR != PBAR
  {
  }
}
