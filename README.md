# Greenhouse controller: a verified model of its per-cycle logic

The greenhouse controller runs the same cycle forever. It samples temperature,
humidity and pressure. It appends the reading to a log file and switches a
heater and a humidifier on or off against two setpoints. It then re-evaluates
a fixed array of seven alarm slots against six limits, and draws bars on an
8x8 pixel matrix. At start-up it loads its setpoints from a file and writes
defaults there when none are stored.

This project models that logic in Dafny, one module per component:

- `GhDefs` (ghcontrol.h): the constants, the `alarm_e` enumeration as `AlarmCode` with its
  integer values, and the records `Reading`, `Setpoint`, `Control`, `AlarmLimit`, `Alarm`.
  C `float` fields are `real`, because the control and alarm code only compares them.
- `GhControl`: `GhSetControls`, `GhSetAlarmLimits`, the branch of `GhSetTargets`, `GhGetRandom`
  with the value `rand()` returned as an input, and the simulated sensor values built from it.
- `GhAlarms`: `GhSetAlarms`, as a method that updates the caller's array in place. It is
  specified by `Evaluated`, which gives the array after the call as a function of the array
  before it. The module also models the choice of slots `GhDisplayAlarms` reports.
- `GhSetpoints`: `GhRetrieveSetpoints`, `GhSaveSetpoints` and `GhSetTargets`, as methods of a
  class holding the setpoint files as a map from path to record.
- `GhLog`: `GhLogData`, as a method of a class holding each log file as a sequence of records.
  The `ctime` text is built from a broken-down time in the `asctime` layout of ISO C11
  section 7.27.3.1. It is copied into a character array, and indices 3, 7, 10 and 19 are
  overwritten with commas.
- `GhDisplay`: `ShSetVerticalBar`, as a method over an 8x8 `array2` of colours, with its two
  loops.
- `GhCycle`: the start-up and one iteration of the main loop in ghc.c.

Whether `fopen` succeeds is an input of each file operation (`readOk`, `writeOk`, `openOk`).
A retrieve also finds nothing when the path is absent from the store. The current time comes
in as the broken-down local time (`Tm`) that `ctime` formats. The sensor values come in as
the `Reading` of the cycle.

Three facts about the code shape the model:

- The simulated values are drawn from inclusive ranges: temperature from -10 to 50, humidity
  from 0 to 100, and pressure from 975 to 1016.
- The actuator states are the integers `ON` = 1 and `OFF` = 0.
- The bar height passed to `ShSetVerticalBar` is truncated and wrapped to `uint8_t`.

## Model

| member | source | states |
|---|---|---|
| `GhDefs.Ordinal` | ghcontrol.h:61 | each alarm code's enumeration value is a valid index below NALARMS = 7, and only NOALARM has value 0 |
| `GhDefs.CodeAt` | ghcontrol.h:49-61 | every index 0 .. NALARMS-1 is the value of some code, so NALARMS equals the number of codes |
| `GhDefs.OrdinalBijective` | ghcontrol.h:61 | the enumeration values are distinct, and CodeAt inverts Ordinal |
| `GhDefs.HeaderConstantsConsistent` | ghcontrol.h:27-58 | ON differs from OFF; each simulation range and each alarm-limit pair has lower < upper; the default setpoints are nonzero; TBAR, HBAR and PBAR are distinct columns within 0 .. NUMBARS-1 |
| `GhControl.SetControls` | ghcontrol.c:97-117 | heater is ON exactly when temperature < target temperature, humidifier is ON exactly when humidity < target humidity, and each field is always ON or OFF |
| `GhControl.AtSetpointIsOff` | ghcontrol.c:100-115 | there is no dead band: a reading exactly at a setpoint switches its actuator OFF |
| `GhControl.ControlScenario` | ghcontrol.c:97-117 | target {25, 55} with reading {20, 60} gives heater ON and humidifier OFF |
| `GhControl.SetAlarmLimits` | ghcontrol.c:365-374 | the limits are the header's thresholds, and each low limit is strictly below its high limit |
| `GhControl.ResolveTargets` | ghcontrol.c:126-130 | a retrieved temperature of 0.0 is replaced by the defaults {STEMP, SHUMID}; any other record is kept whole, humidity included; the result never carries the 0.0 sentinel |
| `GhControl.GetRandom` | ghcontrol.c:33-36 | `rand() % range` lies in 0 .. abs(range)-1 and is the remainder of the non-negative rand() value |
| `GhControl.SimTemperature` | ghcontrol.c:160-167 | the simulated temperature lies in LSTEMP .. USTEMP inclusive |
| `GhControl.SimHumidity` | ghcontrol.c:137-144 | the simulated humidity lies in LSHUMID .. USHUMID inclusive |
| `GhControl.SimPressure` | ghcontrol.c:149-156 | the simulated pressure lies in LSPRESS .. USPRESS inclusive |
| `GhControl.SimTemperatureReachesBounds` | ghcontrol.c:162-163 | the lowest and the highest simulated temperature are both reachable, so the range is closed at 50 |
| `GhAlarms.Evaluated` | ghcontrol.c:383-418 | after an evaluation, slot 0 is NOALARM and every slot k holds NOALARM or code k. Slot k is active exactly when its inclusive test holds (>= high, <= low). An active slot carries the reading's time and the tested value. An inactive slot keeps its previous time and value, since only its code is reset |
| `GhAlarms.SetAlarms` | ghcontrol.c:383-418 | the reset loop and the six in-place tests leave the array equal to Evaluated of its previous contents |
| `GhAlarms.HighAndLowExclusive` | ghcontrol.c:388-417 | with low < high limits, the high and the low alarm of one metric are never active together |
| `GhAlarms.InsideLimitsNoAlarm` | ghcontrol.c:388-417 | a reading strictly inside all six limits leaves every slot NOALARM |
| `GhAlarms.HighTemperatureScenario` | ghcontrol.c:388-417 | under the fixed limits, reading {35, 50, 1000} raises exactly one alarm: High Temperature with value 35 |
| `GhAlarms.ReportIgnoresPrevious` | ghcontrol.c:384-417 | the alarms reported after an evaluation do not depend on what the array held before it, so no state carries between cycles |
| `GhAlarms.ActiveSlots` | ghcontrol.c:428-431 | the reported slots are never more than the slots scanned, and every reported slot is active |
| `GhAlarms.ActiveSlotsMembers` | ghcontrol.c:428-431 | a slot is reported exactly when it is one of the scanned slots and its code is not NOALARM |
| `GhAlarms.DisplayedAlarms` | ghcontrol.c:426-433 | the scan of slots 1 .. 6 reports, in slot order, exactly the active slots; each one reported is active and comes from the array |
| `GhAlarms.InsideLimitsNothingDisplayed` | ghcontrol.c:388-433 | after an evaluation of a reading inside all limits, no alarm is reported |
| `GhSetpoints.SaveThenLoad` | ghcontrol.c:218-249 | round trip: a save that opens its file, followed by a retrieve that opens it, returns the saved record |
| `GhSetpoints.SaveIsolated` | ghcontrol.c:218-230 | a save changes only the file it names |
| `GhSetpoints.TargetsPersist` | ghcontrol.c:122-133 | after GhSetTargets with a save that opens its file, a later retrieve returns the targets it chose, which never hit the 0.0 sentinel again |
| `GhSetpoints.FirstRunDefaults` | ghcontrol.c:122-133 | on an empty store the targets are {25.0, 55.0}, and a fresh retrieve returns the same |
| `GhSetpoints.SetpointFiles.Retrieve` | ghcontrol.c:236-249 | the record is {0.0, 0.0} when the file cannot be opened, otherwise the stored record; nothing changes |
| `GhSetpoints.SetpointFiles.Save` | ghcontrol.c:218-230 | returns 0 and changes nothing when the open fails; otherwise overwrites the whole record at that path and returns 1 |
| `GhSetpoints.SetpointFiles.SetTargets` | ghcontrol.c:122-133 | returns ResolveTargets of the record retrieved from "setpoints.dat". The defaults are saved there only when that record was the 0.0 sentinel; otherwise no file changes |
| `GhLog.CtimeText` | ghcontrol.c:198 | the `ctime` text is 25 characters, ending in a newline, with spaces at indices 3, 7, 10 and 19 |
| `GhLog.LogTimestamp` | ghcontrol.c:198-204 | the record's 24-character time stamp equals the `ctime` text except that indices 3, 7, 10 and 19 are commas |
| `GhLog.TimestampIsJoinedDate` | ghcontrol.c:199-204 | the time stamp is weekday, month, day, clock time and year joined by commas |
| `GhLog.TimestampNewlineFree` | ghcontrol.c:204 | the 24-character stamp printed with `%.24s` holds no newline: it stops before the newline that ends the `ctime` text |
| `GhLog.SplitJoin` | ghcontrol.c:204 | splitting at commas undoes joining with commas when no field contains a comma |
| `GhLog.RecordTextFields` | ghcontrol.c:204-206 | a record's text begins with a newline and the 24-character time stamp; after the newline it is one line, holding no newline, of eight comma-separated fields: the five date fields, then temperature, humidity and pressure, given renderings of the three numbers that hold no comma and no newline |
| `GhLog.RecordOf` | ghcontrol.c:198-206 | the record carries a 24-character stamp and the reading's temperature, humidity and pressure |
| `GhLog.AppendAddsOne` | ghcontrol.c:192-209 | an append adds exactly one record at the end of its file, keeps the earlier records and leaves every other file alone |
| `GhLog.LogFiles.LogData` | ghcontrol.c:187-210 | returns 0 with every log unchanged when the open fails; otherwise appends the one record for the reading and returns 1 |
| `GhLog.CtimeOverflowsLogBuffer` | ghcontrol.c:190-198 | as written, the `ctime` text and its NUL do not fit in the CTIMESTRSZ = 25 character buffer `strcpy` copies them into |
| `GhLog.CtimeOverflowExample` | ghcontrol.c:190-198 | for Wed Jun 30 21:49:08 1993, the `ctime` text is "Wed Jun 30 21:49:08 1993\n", which overflows that buffer |
| `GhLog.TimeBuffer` | ghcontrol.c:190-198 | a buffer of 26 characters holds the whole `ctime` text and its NUL |
| `GhDisplay.ToUint8` | ghcontrol.c:336-338 | passing an int height as `uint8_t` reduces it modulo 256 and keeps 0 .. 255 unchanged |
| `GhDisplay.BarHeight` | ghcontrol.c:301-303 | a height above 7 is treated as 7, and 0 .. 7 is kept |
| `GhDisplay.FillColumn` | ghcontrol.c:309-316 | rows 0 .. h of the column become the colour and the rows above become black; no other column changes |
| `GhDisplay.SetVerticalBar` | ghcontrol.c:297-320 | a column outside 0 .. 7 gives EXIT_FAILURE and no pixel changes. Otherwise rows 0 .. min(value, 7) of that column take the colour, the rows above turn black, every other column is untouched, and EXIT_SUCCESS is returned |
| `GhDisplay.MetricBarsAccepted` | ghcontrol.h:42-46 | the temperature, humidity and pressure columns are all accepted |
| `GhDisplay.NegativeHeightDrawsFullBar` | ghcontrol.c:336-338 | a negative height from -248 to -1 wraps to 8 .. 255 and is drawn as a full bar |
| `GhDisplay.MinusOneDrawsFullBar` | ghcontrol.c:297-305 | a height of -1 arrives as 255 and lights all eight rows, though the `value < 0` check was meant to reject it |
| `GhDisplay.SignedBarHeight` | ghcontrol.c:301-303 | with the height kept signed, 0 .. 7 is kept and larger values become 7, agreeing with the unsigned clamp on 0 .. 255 |
| `GhDisplay.SetVerticalBarSigned` | ghcontrol.c:297-320 | corrected bar routine: a bad column or a negative height gives EXIT_FAILURE with no pixel changed; otherwise the clamped bar is drawn as before |
| `GhCycle.Initialize` | ghc.c:20-22 | start-up resolves the setpoints, which are never the 0.0 sentinel, and fixes the well-ordered alarm limits |
| `GhCycle.Cycle` | ghc.c:26-29 | one cycle appends one record to "ghdata.txt" when it can open it; it returns the controls for the reading and leaves the alarm array equal to Evaluated of its previous contents |

## Left out

- The endless `while (1)` loop of ghc.c: only one iteration (`GhCycle.Cycle`) and the start-up are modelled.
- `GhDelay`: a busy-wait on the processor clock, whose only content is timing.
- `GhGetSerial`: it reads /proc/cpuinfo, runs shell commands and scans their text. It probes the environment.
- `GhControllerInit`: it seeds `rand()` from the clock with `srand((unsigned) time(NULL))` and prints the header. Neither is modelled, because the value `rand()` returns is an input of `GetRandom`.
- `GhDisplayHeader`, `GhDisplayReadings`, `GhDisplayTargets`, `GhDisplayControls`, and the printing and alarm-name table of `GhDisplayAlarms`: console output. Only the choice of the slots that get printed is modelled.
- `GhDisplayAll`: the floating-point scaling of readings to bar heights, the screen wipe and the two setpoint marker pixels, which are unclamped driver calls. The height is an input of `ShSetVerticalBar`.
- `GhGetReadings`, `GhGetTemperature`, `GhGetHumidity`, `GhGetPressure`: the Sense HAT sensor calls are foreign code, and the clock is an input. The reading is a parameter of `GhCycle.Cycle`. The simulated branches are compiled out in the source; the values they would give are modelled by `SimTemperature`, `SimHumidity` and `SimPressure`.
- sensehat.h is not part of this model. Colours are 16-bit values with black as 0, and pixel (i, bar) of the matrix is array element [i, bar].
- The header prototype `GhSetVerticalBar(..., struct fb_t *fb)` at ghcontrol.h:132 has no definition. The defined `ShSetVerticalBar` is modelled instead.
- The "%5.1lf" and "%6.1lf" renderings of the numbers in a log line are inputs of `GhLog.RecordText`. The records keep the readings as numbers.
- The binary layout that `fwrite` and `fread` give a setpoint record, and short or corrupt reads of an existing file: a file holds one whole record.
- Floating point: values are exact reals, with no NaN (which fails every comparison) and no negative zero (which compares equal to 0.0 and so also counts as unset).
- `localtime`: the broken-down time is an input of `GhLog.LogFiles.LogData` and is not derived from the reading's `time_t`. Years outside 1000 .. 9999, for which the `ctime` text has another length, are excluded by `ValidTm`.
- `GhControl.GetRandom`: the upper bound RAND_MAX of `rand()` is not modelled, because the result's range depends only on `range`.

## Findings

| source | as written | input that shows it | evidently intended | confidence | as-written member | corrected member |
|---|---|---|---|---|---|---|
| ghcontrol.c:190-198 | `char ltime[CTIMESTRSZ]` with CTIMESTRSZ = 25 receives `strcpy` of the `ctime` text, which is 25 characters plus a NUL, so one byte is written past the buffer | any time with a four-digit year, e.g. Wed Jun 30 21:49:08 1993 | a buffer of 26 characters; the printed "%.24s" stamp is the same | high (not executed) | `GhLog.CtimeOverflowsLogBuffer` | `GhLog.TimeBuffer` |
| ghcontrol.c:297-305 | the test `value < 0` can never hold for a `uint8_t` parameter, so a negative height from `GhDisplayAll` wraps to 8 .. 255 and is drawn as a full bar | a bar height of -1, which the scaling at ghcontrol.c:336 gives for a temperature of -20 | a negative height is rejected with EXIT_FAILURE, as the check and the documented range 0 .. 7 say | medium (not executed) | `GhDisplay.MinusOneDrawsFullBar` | `GhDisplay.SetVerticalBarSigned` |
