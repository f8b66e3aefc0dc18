/**
 Alarm evaluation (GhSetAlarms) over the caller's fixed array of NALARMS slots,
 and the choice of slots GhDisplayAlarms reports.
 */
module GhAlarms {
  import opened GhDefs
  import GhControl

  /** The inclusive threshold test guarding slot `c`; NoAlarm has no test. */
  predicate Breached(c: AlarmCode, lim: AlarmLimit, r: Reading)
  {
    match c
    case NoAlarm => false
    case HTemp => r.temperature >= lim.hight
    case LTemp => r.temperature <= lim.lowt
    case HHumid => r.humidity >= lim.highh
    case LHumid => r.humidity <= lim.lowh
    case HPress => r.pressure >= lim.highp
    case LPress => r.pressure <= lim.lowp
  }

  /** The metric value that test `c` inspects. */
  function Metric(c: AlarmCode, r: Reading): real
  {
    match c
    case NoAlarm => 0.0
    case HTemp => r.temperature
    case LTemp => r.temperature
    case HHumid => r.humidity
    case LHumid => r.humidity
    case HPress => r.pressure
    case LPress => r.pressure
  }

  /** An alarm slot is active when its code is not NoAlarm. */
  predicate IsActive(a: Alarm)
  {
    a.code != NoAlarm
  }

  /** Slot `k` after a call, given its content before the call. */
  function SlotAfter(prev: Alarm, k: nat, lim: AlarmLimit, r: Reading): Alarm
    requires k < NALARMS
  {
    var c := CodeAt(k);
    if Breached(c, lim, r) then Alarm(c, r.rtime, Metric(c, r)) else prev.(code := NoAlarm)
  }

  /**
   The alarm array after GhSetAlarms, in terms of the array before it. Slot 0
   is never active; any other slot k holds either NoAlarm or code k, and is
   active exactly when its inclusive test holds. An active slot carries the
   reading's time and the tested value; an inactive slot keeps its previous
   time and value, since only its code is reset.
   */
  function Evaluated(prev: seq<Alarm>, lim: AlarmLimit, r: Reading): (s: seq<Alarm>)
    requires |prev| == NALARMS
    ensures |s| == NALARMS
    ensures s[0].code == NoAlarm
    ensures forall k :: 0 <= k < NALARMS ==> s[k].code == NoAlarm || Ordinal(s[k].code) == k
    ensures forall k :: 0 <= k < NALARMS ==> (IsActive(s[k]) <==> Breached(CodeAt(k), lim, r))
    ensures forall k :: 0 <= k < NALARMS && IsActive(s[k]) ==>
              s[k].atime == r.rtime && s[k].value == Metric(CodeAt(k), r)
    ensures forall k :: 0 <= k < NALARMS && !IsActive(s[k]) ==>
              s[k].atime == prev[k].atime && s[k].value == prev[k].value
  {
    seq(NALARMS, k requires 0 <= k < NALARMS => SlotAfter(prev[k], k, lim, r))
  }

  /**
   GhSetAlarms: reset every code to NoAlarm, then raise each of the six alarms
   whose inclusive test holds, writing the slots in place.
   */
  method SetAlarms(calarm: array<Alarm>, alarmpt: AlarmLimit, rdata: Reading)
    requires calarm.Length == NALARMS
    modifies calarm
    ensures calarm[..] == Evaluated(old(calarm[..]), alarmpt, rdata)
  {
    for i := 0 to NALARMS
      invariant forall k :: 0 <= k < i ==> calarm[k] == old(calarm[k]).(code := NoAlarm)
      invariant forall k :: i <= k < NALARMS ==> calarm[k] == old(calarm[k])
    {
      calarm[i] := calarm[i].(code := NoAlarm);
    }

    if rdata.temperature >= alarmpt.hight {
      calarm[1] := Alarm(HTemp, rdata.rtime, rdata.temperature);
    }
    if rdata.temperature <= alarmpt.lowt {
      calarm[2] := Alarm(LTemp, rdata.rtime, rdata.temperature);
    }
    if rdata.humidity >= alarmpt.highh {
      calarm[3] := Alarm(HHumid, rdata.rtime, rdata.humidity);
    }
    if rdata.humidity <= alarmpt.lowh {
      calarm[4] := Alarm(LHumid, rdata.rtime, rdata.humidity);
    }
    if rdata.pressure >= alarmpt.highp {
      calarm[5] := Alarm(HPress, rdata.rtime, rdata.pressure);
    }
    if rdata.pressure <= alarmpt.lowp {
      calarm[6] := Alarm(LPress, rdata.rtime, rdata.pressure);
    }
  }

  /**
   With well-ordered limits the high and the low alarm of one metric are never
   active together.
   */
  lemma HighAndLowExclusive(prev: seq<Alarm>, lim: AlarmLimit, r: Reading)
    requires |prev| == NALARMS
    requires GhControl.WellOrdered(lim)
    ensures var s := Evaluated(prev, lim, r);
      !(IsActive(s[1]) && IsActive(s[2])) &&
      !(IsActive(s[3]) && IsActive(s[4])) &&
      !(IsActive(s[5]) && IsActive(s[6]))
  {
    var s := Evaluated(prev, lim, r);
    assert CodeAt(1) == HTemp && CodeAt(2) == LTemp;
    assert CodeAt(3) == HHumid && CodeAt(4) == LHumid;
    assert CodeAt(5) == HPress && CodeAt(6) == LPress;
  }

  /** A reading strictly inside all six limits leaves every slot NoAlarm. */
  predicate InsideLimits(lim: AlarmLimit, r: Reading)
  {
    lim.lowt < r.temperature < lim.hight &&
    lim.lowh < r.humidity < lim.highh &&
    lim.lowp < r.pressure < lim.highp
  }

  lemma InsideLimitsNoAlarm(prev: seq<Alarm>, lim: AlarmLimit, r: Reading)
    requires |prev| == NALARMS
    requires InsideLimits(lim, r)
    ensures forall k :: 0 <= k < NALARMS ==> Evaluated(prev, lim, r)[k].code == NoAlarm
  {
    forall k | 0 <= k < NALARMS
      ensures !Breached(CodeAt(k), lim, r)
    {
      var c := CodeAt(k);
      assert c.NoAlarm? || c.HTemp? || c.LTemp? || c.HHumid? || c.LHumid? || c.HPress? || c.LPress?;
    }
  }

  /**
   The active slots from left to right: what GhDisplayAlarms reports when given
   the slots from index 1 onwards.
   */
  function ActiveSlots(s: seq<Alarm>): (r: seq<Alarm>)
    ensures |r| <= |s|
    ensures forall a :: a in r ==> IsActive(a)
  {
    if s == [] then []
    else if IsActive(s[0]) then [s[0]] + ActiveSlots(s[1..])
    else ActiveSlots(s[1..])
  }

  /** ActiveSlots keeps exactly the active slots. */
  lemma {:induction false} ActiveSlotsMembers(s: seq<Alarm>, a: Alarm)
    ensures a in ActiveSlots(s) <==> a in s && IsActive(a)
  {
    if s != [] {
      ActiveSlotsMembers(s[1..], a);
      assert s == [s[0]] + s[1..];
    }
  }

  /** A sequence of inactive slots reports nothing. */
  lemma {:induction false} NoActiveSlots(s: seq<Alarm>)
    requires forall k :: 0 <= k < |s| ==> !IsActive(s[k])
    ensures ActiveSlots(s) == []
  {
    if s != [] {
      NoActiveSlots(s[1..]);
    }
  }

  /** ActiveSlots of a concatenation is the concatenation of the parts' active slots. */
  lemma {:induction false} ActiveSlotsAppend(s: seq<Alarm>, t: seq<Alarm>)
    ensures ActiveSlots(s + t) == ActiveSlots(s) + ActiveSlots(t)
  {
    if s == [] {
      assert s + t == t;
    } else {
      assert (s + t)[1..] == s[1..] + t;
      ActiveSlotsAppend(s[1..], t);
    }
  }

  /**
   The active-slot filter of GhDisplayAlarms: scan slots 1 .. NALARMS-1 in
   order and report each one whose code is not NoAlarm.
   */
  method DisplayedAlarms(calarm: array<Alarm>) returns (shown: seq<Alarm>)
    requires calarm.Length == NALARMS
    ensures shown == ActiveSlots(calarm[1..])
    ensures forall a :: a in shown ==> IsActive(a) && a in calarm[1..]
  {
    shown := [];
    for i := 1 to NALARMS
      invariant shown == ActiveSlots(calarm[1..i])
    {
      if calarm[i].code != NoAlarm {
        shown := shown + [calarm[i]];
      }
      assert calarm[1..i + 1] == calarm[1..i] + [calarm[i]];
      ActiveSlotsAppend(calarm[1..i], [calarm[i]]);
    }
    assert calarm[1..] == calarm[1..NALARMS];
    forall a | a in shown
      ensures IsActive(a) && a in calarm[1..]
    {
      ActiveSlotsMembers(calarm[1..], a);
    }
  }

  /** After an evaluation with a reading inside all limits, nothing is displayed. */
  lemma InsideLimitsNothingDisplayed(prev: seq<Alarm>, lim: AlarmLimit, r: Reading)
    requires |prev| == NALARMS
    requires InsideLimits(lim, r)
    ensures ActiveSlots(Evaluated(prev, lim, r)[1..]) == []
  {
    InsideLimitsNoAlarm(prev, lim, r);
    NoActiveSlots(Evaluated(prev, lim, r)[1..]);
  }

  /**
   Temperature 35, humidity 50 and pressure 1000 under the fixed limits raise
   exactly one alarm, High Temperature with value 35.
   */
  lemma HighTemperatureScenario(prev: seq<Alarm>, rtime: int)
    requires |prev| == NALARMS
    ensures var s := Evaluated(prev, GhControl.SetAlarmLimits(), Reading(rtime, 35.0, 50.0, 1000.0));
      ActiveSlots(s[1..]) == [Alarm(HTemp, rtime, 35.0)]
  {
    var lim := GhControl.SetAlarmLimits();
    var r := Reading(rtime, 35.0, 50.0, 1000.0);
    var s := Evaluated(prev, lim, r);
    assert CodeAt(1) == HTemp;
    forall k | 2 <= k < NALARMS
      ensures !Breached(CodeAt(k), lim, r)
    {
    }
    assert s[1..] == [s[1]] + s[2..];
    ActiveSlotsAppend([s[1]], s[2..]);
    NoActiveSlots(s[2..]);
  }

  /** Two slot sequences with the same active slots, position by position, report the same alarms. */
  lemma {:induction false} ActiveSlotsAgree(s: seq<Alarm>, t: seq<Alarm>)
    requires |s| == |t|
    requires forall k :: 0 <= k < |s| ==> (IsActive(s[k]) <==> IsActive(t[k]))
    requires forall k :: 0 <= k < |s| && IsActive(s[k]) ==> s[k] == t[k]
    ensures ActiveSlots(s) == ActiveSlots(t)
  {
    if s != [] {
      ActiveSlotsAgree(s[1..], t[1..]);
    }
  }

  /**
   No state carries over between cycles: the alarms an evaluation reports do
   not depend on what the array held before it.
   */
  lemma ReportIgnoresPrevious(prev1: seq<Alarm>, prev2: seq<Alarm>, lim: AlarmLimit, r: Reading)
    requires |prev1| == NALARMS && |prev2| == NALARMS
    ensures ActiveSlots(Evaluated(prev1, lim, r)[1..]) == ActiveSlots(Evaluated(prev2, lim, r)[1..])
  {
    var s1 := Evaluated(prev1, lim, r);
    var s2 := Evaluated(prev2, lim, r);
    forall k | 0 <= k < NALARMS && IsActive(s1[k])
      ensures s1[k] == s2[k]
    {
      assert s1[k].code == CodeAt(k) && s2[k].code == CodeAt(k);
    }
    ActiveSlotsAgree(s1[1..], s2[1..]);
  }
}
