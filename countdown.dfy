/** The countdown panel: a clock that is set every 250 ms, the next bell
    derived from it, the bell that rings when that instant has passed and
    the sound is on, and the two labels shown to the class. */
module Countdown {
  import opened Wrappers
  import opened JsText
  import opened Schedule

  /** The calls the panel makes on the bell player. */
  datatype AudioEvent = Unlock | Ring

  // ---------------------------------------------------------------------------
  // Ringing and re-arming
  // ---------------------------------------------------------------------------

  /** `diff <= 0 && enabled` with `diff = target - now`, reached only past
      `if (!target) return`. The invalid date has a `NaN` difference, and
      `NaN <= 0` is false. */
  predicate Due(target: Option<Date>, now: int, enabled: bool) {
    enabled && target.Some? && target.value.Time? && target.value.ms - now <= 0
  }

  /** The bell calls made by one run of the firing effect. */
  function Rings(target: Option<Date>, now: int, enabled: bool): (r: seq<AudioEvent>)
    ensures |r| <= 1
    ensures r == [Ring] <==> Due(target, now, enabled)
    ensures !enabled ==> r == []
  {
    if Due(target, now, enabled) then [Ring] else []
  }

  /** The target once the effects of a render have run. The firing effect
      sees the target of that render (`seen`); when it rings, its re-arm
      from `now + 1000` is the last update queued and wins, otherwise the
      value queued before it (`queued`) stays. */
  function Rearm(s: seq<Period>, now: int, seen: Option<Date>, queued: Option<Date>, enabled: bool)
    : Option<Date>
  {
    if Due(seen, now, enabled) then NextBellDate(s, now + 1000) else queued
  }

  /** The target is the next bell from `now` or, just after a ring, from
      one second later. */
  predicate Armed(s: seq<Period>, now: int, target: Option<Date>) {
    target == NextBellDate(s, now) || target == NextBellDate(s, now + 1000)
  }

  /** After a ring on a schedule whose ends are minute counts that are not
      negative (every normalised schedule), the new target is later than
      one second past `now`, so later than the target that rang: the same
      bell cannot ring twice. */
  lemma RearmAfterRing(s: seq<Period>, now: int, seen: Option<Date>, queued: Option<Date>, enabled: bool)
    requires |s| > 0 && EndsWellFormed(s)
    requires Due(seen, now, enabled)
    ensures Rearm(s, now, seen, queued, enabled).Some?
    ensures Rearm(s, now, seen, queued, enabled).value.Time?
    ensures Rearm(s, now, seen, queued, enabled).value.ms > now + 1000
    ensures Rearm(s, now, seen, queued, enabled).value.ms > seen.value.ms
  {
    NextBellAfterNow(s, now + 1000);
  }

  /** On such a schedule an armed target lies after `now`: it is not due,
      so the firing effect that runs again on the new target stays quiet. */
  lemma ArmedNotDue(s: seq<Period>, now: int, target: Option<Date>, enabled: bool)
    requires |s| > 0 && EndsWellFormed(s)
    requires Armed(s, now, target)
    ensures !Due(target, now, enabled)
  {
    NextBellAfterNow(s, now);
    NextBellAfterNow(s, now + 1000);
  }

  /** The target after the effects is armed whenever the queued one is. */
  lemma RearmArmed(s: seq<Period>, now: int, seen: Option<Date>, queued: Option<Date>, enabled: bool)
    requires Armed(s, now, queued)
    ensures Armed(s, now, Rearm(s, now, seen, queued, enabled))
    ensures Rearm(s, now, seen, queued, enabled).None? <==> |s| == 0
  {
  }

  // ---------------------------------------------------------------------------
  // Labels
  // ---------------------------------------------------------------------------

  const LoadingText: string := "Loading..."
  const NoBellsText: string := "No bells scheduled"
  const NaNText: string := "NaN"
  /** `"—"`, the em dash. */
  const Dash: string := "\U{2014}"

  /** `remainingLabel`. The invalid date gives `NaN` in every field. */
  function RemainingLabel(loading: bool, target: Option<Date>, now: int): (r: string)
    ensures loading ==> r == LoadingText
    ensures !loading && target.None? ==> r == NoBellsText
    ensures !loading && target.Some? && target.value.Time? ==> r == TimeLabel(target.value.ms, now)
  {
    if loading then LoadingText
    else match target
      case None => NoBellsText
      case Some(InvalidDate) => NaNText + ":" + NaNText + ":" + NaNText
      case Some(Time(x)) => TimeLabel(x, now)
  }

  /** The label for a bell at instant `x`. */
  function TimeLabel(x: int, now: int): string {
    var totalSeconds := Max(0, x - now) / 1000;
    FormatHMS(totalSeconds / 3600, (totalSeconds % 3600) / 60, totalSeconds % 60)
  }

  /** The remaining time is shown as hours, minutes and seconds of the
      whole seconds left (none once the bell is due); the hours are not
      reduced to a day. */
  lemma TimeLabelFields(x: int, now: int) returns (h: int, m: int, s: int)
    ensures TimeLabel(x, now) == FormatHMS(h, m, s)
    ensures h >= 0 && 0 <= m < 60 && 0 <= s < 60
    ensures h * 3600 + m * 60 + s == Max(0, x - now) / 1000
  {
    var total := Max(0, x - now) / 1000;
    h := total / 3600;
    m := (total % 3600) / 60;
    s := total % 60;
    LabelOfSeconds(x, now, total);
    HoursMinutesSeconds(total, h, m, s);
  }

  lemma LabelOfSeconds(x: int, now: int, total: int)
    requires total == Max(0, x - now) / 1000
    ensures TimeLabel(x, now) == FormatHMS(total / 3600, (total % 3600) / 60, total % 60)
  {
  }

  lemma HoursMinutesSeconds(total: nat, h: int, m: int, s: int)
    requires h == total / 3600 && m == (total % 3600) / 60 && s == total % 60
    ensures h * 3600 + m * 60 + s == total
  {
    var b := total % 3600;
    ModOfSum(h * 60 + b / 60, 60, b % 60, total);
  }

  /** The label holds the same fields as `getTimeRemaining`, with the days
      folded into the hours. */
  lemma TimeLabelAgrees(x: int, now: int)
    ensures var r := GetTimeRemaining(x, now);
      TimeLabel(x, now) == FormatHMS(r.days * 24 + r.hours, r.minutes, r.seconds)
  {
    var total := Max(0, x - now) / 1000;
    var r := GetTimeRemaining(x, now);
    RemainingOfSeconds(x, now, total);
    DaysIntoHours(total);
    LabelOfFields(x, now, total, r.days * 24 + r.hours, r.minutes, r.seconds);
  }

  lemma LabelOfFields(x: int, now: int, total: int, h: int, m: int, s: int)
    requires total == Max(0, x - now) / 1000
    requires h == total / 3600 && m == (total % 3600) / 60 && s == total % 60
    ensures TimeLabel(x, now) == FormatHMS(h, m, s)
  {
    LabelOfSeconds(x, now, total);
  }

  lemma RemainingOfSeconds(x: int, now: int, total: int)
    requires total == Max(0, x - now) / 1000
    ensures var r := GetTimeRemaining(x, now);
      r.days == total / 86400 && r.hours == (total % 86400) / 3600
      && r.minutes == (total % 3600) / 60 && r.seconds == total % 60
  {
    assert Max(x - now, 0) == Max(0, x - now);
  }

  lemma DaysIntoHours(total: nat)
    ensures total / 3600 == (total / 86400) * 24 + (total % 86400) / 3600
  {
    var c := total % 86400;
    ModOfSum((total / 86400) * 24 + c / 3600, 3600, c % 3600, total);
  }

  /** A bell more than a day away shows an hour field of 24 or more. */
  lemma TimeLabelPastADay(x: int, now: int) returns (h: int, m: int, s: int)
    requires x - now >= DayMs
    ensures TimeLabel(x, now) == FormatHMS(h, m, s)
    ensures h >= 24
  {
    h, m, s := TimeLabelFields(x, now);
    assert Max(0, x - now) / 1000 >= 86400;
  }

  /** `currentPeriodName`: the name of the period containing the minute
      of `now`, or the dash when there is none. */
  function CurrentPeriodName(s: seq<Period>, now: int): (r: string)
    ensures (forall i :: 0 <= i < |s| ==> !Contains(s[i], GetNowMinutes(now))) ==> r == Dash
  {
    match GetCurrentPeriod(s, GetNowMinutes(now))
    case Some(p) => p.name
    case None => Dash
  }

  /** The name shown is the first containing period's, in list order. */
  lemma CurrentPeriodNameFirst(s: seq<Period>, now: int, i: int)
    requires 0 <= i < |s| && Contains(s[i], GetNowMinutes(now))
    requires forall j :: 0 <= j < i ==> !Contains(s[j], GetNowMinutes(now))
    ensures CurrentPeriodName(s, now) == s[i].name
  {
    GetCurrentPeriodFirst(s, GetNowMinutes(now), i);
  }

  // ---------------------------------------------------------------------------
  // The panel
  // ---------------------------------------------------------------------------

  /** The panel's state: the schedule it is given and its four state
      variables, with the calls made on the bell player logged. */
  class BellLoop {
    var schedule: seq<Period>
    var now: int
    var target: Option<Date>
    var enabled: bool
    var loading: bool
    ghost var events: seq<AudioEvent>

    ghost predicate Valid()
      reads this
    {
      Armed(schedule, now, target)
    }

    /** Mounting: the first render, then the target effect arms the next
        bell; the firing effect returns at once on the `null` target. */
    constructor(s: seq<Period>, start: int)
      ensures Valid()
      ensures schedule == s && now == start && target == NextBellDate(s, start)
      ensures !enabled && loading && events == []
    {
      schedule := s;
      now := start;
      enabled := false;
      loading := true;
      events := [];
      target := NextBellDate(s, start);
    }

    /** One step of the 250 ms interval: the clock moves to `t`, the target
        effect queues the next bell from `t`, and the firing effect, which
        still sees the previous target, may ring and re-arm. */
    method Tick(t: int)
      requires Valid()
      modifies this
      ensures Valid()
      ensures now == t && schedule == old(schedule)
      ensures enabled == old(enabled) && loading == old(loading)
      ensures events == old(events) + Rings(old(target), t, enabled)
      ensures target == Rearm(schedule, t, old(target), NextBellDate(schedule, t), enabled)
      ensures target.None? <==> |schedule| == 0
    {
      var seen := target;
      now := t;
      var queued := NextBellDate(schedule, t);
      Fire(seen, queued);
      RearmArmed(schedule, t, seen, queued, enabled);
    }

    /** A new schedule from the parent: both effects run again at the same
        `now`. */
    method SetSchedule(s: seq<Period>)
      requires Valid()
      modifies this
      ensures Valid()
      ensures schedule == s && now == old(now)
      ensures enabled == old(enabled) && loading == old(loading)
      ensures events == old(events) + Rings(old(target), now, enabled)
      ensures target == Rearm(s, now, old(target), NextBellDate(s, now), enabled)
      ensures target.None? <==> |schedule| == 0
    {
      var seen := target;
      schedule := s;
      var queued := NextBellDate(s, now);
      Fire(seen, queued);
      RearmArmed(s, now, seen, queued, enabled);
    }

    /** The sound switch: turning it on first unlocks audio; then the
        firing effect runs again, since `enabled` is one of its inputs. */
    method Toggle()
      requires Valid()
      modifies this
      ensures Valid()
      ensures enabled == !old(enabled)
      ensures schedule == old(schedule) && now == old(now) && loading == old(loading)
      ensures events == old(events) + (if old(enabled) then [] else [Unlock])
                        + Rings(old(target), now, enabled)
      ensures target == Rearm(schedule, now, old(target), old(target), enabled)
    {
      if !enabled {
        events := events + [Unlock];
      }
      enabled := !enabled;
      var seen := target;
      Fire(seen, seen);
      RearmArmed(schedule, now, seen, seen, enabled);
    }

    /** The 100 ms timer of the target effect. */
    method LoadingDone()
      modifies this
      ensures !loading
      ensures schedule == old(schedule) && now == old(now) && target == old(target)
      ensures enabled == old(enabled) && events == old(events)
    {
      loading := false;
    }

    /** The "Test bell" button rings whether or not the sound is on. */
    method TestBell()
      modifies this
      ensures events == old(events) + [Ring]
      ensures schedule == old(schedule) && now == old(now) && target == old(target)
      ensures enabled == old(enabled) && loading == old(loading)
    {
      events := events + [Ring];
    }

    /** One run of the firing effect on the target `seen`, after `queued`
        was set. */
    method Fire(seen: Option<Date>, queued: Option<Date>)
      modifies this
      ensures schedule == old(schedule) && now == old(now)
      ensures enabled == old(enabled) && loading == old(loading)
      ensures events == old(events) + Rings(seen, now, enabled)
      ensures target == Rearm(schedule, now, seen, queued, enabled)
    {
      if Due(seen, now, enabled) {
        events := events + [Ring];
      }
      target := Rearm(schedule, now, seen, queued, enabled);
    }

    function RemainingText(): string
      reads this
    {
      RemainingLabel(loading, target, now)
    }

    function PeriodText(): string
      reads this
    {
      CurrentPeriodName(schedule, now)
    }
  }
}
