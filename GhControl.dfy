/**
 The pure decision logic of ghcontrol.c: actuator commands, the fixed alarm
 limits, the choice between stored and default setpoints, and the bounded
 random numbers of the sensor simulator.
 */
module GhControl {
  import opened GhDefs

  /** GhSetControls: each actuator is ON exactly when its metric is strictly below the target. */
  function SetControls(target: Setpoint, rdata: Reading): (cset: Control)
    ensures cset.heater == ON <==> rdata.temperature < target.temperature
    ensures cset.humidifier == ON <==> rdata.humidity < target.humidity
    ensures cset.heater == ON || cset.heater == OFF
    ensures cset.humidifier == ON || cset.humidifier == OFF
  {
    Control(if rdata.temperature < target.temperature then ON else OFF,
            if rdata.humidity < target.humidity then ON else OFF)
  }

  /** There is no dead band: a reading exactly at a setpoint switches its actuator off. */
  lemma AtSetpointIsOff(target: Setpoint, rdata: Reading)
    requires rdata.temperature == target.temperature || rdata.humidity == target.humidity
    ensures rdata.temperature == target.temperature ==> SetControls(target, rdata).heater == OFF
    ensures rdata.humidity == target.humidity ==> SetControls(target, rdata).humidifier == OFF
  {
  }

  /** Target {25, 55} with reading {20, 60} gives heater ON and humidifier OFF. */
  lemma ControlScenario(rtime: int, pressure: real)
    ensures SetControls(Setpoint(25.0, 55.0), Reading(rtime, 20.0, 60.0, pressure)) == Control(ON, OFF)
  {
  }

  /** Low and high limit of one metric are strictly ordered. */
  predicate WellOrdered(lim: AlarmLimit)
  {
    lim.lowt < lim.hight && lim.lowh < lim.highh && lim.lowp < lim.highp
  }

  /** GhSetAlarmLimits: the header's thresholds, each low limit strictly below its high limit. */
  function SetAlarmLimits(): (lim: AlarmLimit)
    ensures WellOrdered(lim)
    ensures lim.lowt == LOWERATEMP as real && lim.hight == UPPERATEMP as real
    ensures lim.lowh == LOWERAHUMID as real && lim.highh == UPPERAHUMID as real
    ensures lim.lowp == LOWERAPRESS as real && lim.highp == UPPERAPRESS as real
  {
    AlarmLimit(UPPERATEMP as real, LOWERATEMP as real,
               UPPERAHUMID as real, LOWERAHUMID as real,
               UPPERAPRESS as real, LOWERAPRESS as real)
  }

  /** The record GhRetrieveSetpoints returns when nothing could be read. */
  const UNSET: Setpoint := Setpoint(0.0, 0.0)

  /** The defaults GhSetTargets substitutes and saves. */
  const DEFAULTS: Setpoint := Setpoint(STEMP, SHUMID)

  /** A retrieved temperature of exactly 0.0 means "no setpoints stored". */
  predicate IsUnset(s: Setpoint)
  {
    s.temperature == 0.0
  }

  /**
   The branch of GhSetTargets: the defaults replace a record whose temperature
   is the 0.0 sentinel; any other record, humidity included, is kept.
   The result never carries the sentinel.
   */
  function ResolveTargets(retrieved: Setpoint): (cpoints: Setpoint)
    ensures IsUnset(retrieved) ==> cpoints == DEFAULTS
    ensures !IsUnset(retrieved) ==> cpoints == retrieved
    ensures !IsUnset(cpoints)
  {
    if IsUnset(retrieved) then DEFAULTS else retrieved
  }

  /**
   GhGetRandom: `rand() % range`, where `randValue` is the value rand() returned
   (never negative). C's `%` truncates toward zero, so for a non-negative
   dividend it equals the remainder by |range|. The result lies in 0 .. |range|-1
   and differs from randValue by a multiple of range.
   */
  function GetRandom(randValue: nat, range: int): (r: int)
    requires range != 0
    ensures 0 <= r < (if range < 0 then -range else range)
    ensures range > 0 ==> r == randValue % range
    ensures range < 0 ==> r == randValue % -range
  {
    var m := if range < 0 then -range else range;
    randValue % m
  }

  /** The simulated temperature `GhGetRandom(USTEMP - LSTEMP + 1) + LSTEMP` lies in LSTEMP .. USTEMP inclusive. */
  function SimTemperature(randValue: nat): (t: int)
    ensures LSTEMP <= t <= USTEMP
  {
    GetRandom(randValue, USTEMP - LSTEMP + 1) + LSTEMP
  }

  /** The simulated humidity lies in LSHUMID .. USHUMID inclusive. */
  function SimHumidity(randValue: nat): (h: int)
    ensures LSHUMID <= h <= USHUMID
  {
    GetRandom(randValue, USHUMID - LSHUMID + 1) + LSHUMID
  }

  /** The simulated pressure lies in LSPRESS .. USPRESS inclusive. */
  function SimPressure(randValue: nat): (p: int)
    ensures LSPRESS <= p <= USPRESS
  {
    GetRandom(randValue, USPRESS - LSPRESS + 1) + LSPRESS
  }

  /** Both ends of the simulated range are reachable; the upper bound is included. */
  lemma SimTemperatureReachesBounds()
    ensures SimTemperature(0) == LSTEMP
    ensures SimTemperature((USTEMP - LSTEMP) as nat) == USTEMP
  {
  }
}
