/** The schedule library: `HH:MM` arithmetic, validation, normalisation and
    the next-bell projection (src/lib/schedule.ts).

    A `Date` is an integer count of milliseconds in one fixed time zone
    without daylight saving, so a calendar day is exactly `DayMs` long and
    `setHours`/`setDate` are arithmetic on the day index. A number that may
    be `NaN` is an `Option<int>` whose `None` is `NaN`. */
module Schedule {
  import opened Wrappers
  import opened JsText
  import opened JsArray

  datatype Period = Period(id: string, name: string, start: string, end: string)

  const DayMinutes: int := 1440
  const MinuteMs: int := 60000
  const HourMs: int := 3600000
  const DayMs: int := 86400000

  // ---------------------------------------------------------------------------
  // HH:MM parsing and formatting
  // ---------------------------------------------------------------------------

  /** `timeStringToMinutes`: `hh * 60 + mm` for the first two `:`-separated
      fields read by `parseInt(_, 10)`. A field that does not parse gives 0.
      A string without `:` whose first field parses gives `NaN`: the
      missing `mm` is `undefined`, which `Number.isNaN` does not flag, and
      `hh * 60 + undefined` is `NaN`. */
  function TimeStringToMinutes(time: string): Option<int> {
    var parts := Split(time, ':');
    match ParseInt(parts[0])
    case None => Some(0)
    case Some(hh) =>
      if |parts| < 2 then None
      else
        match ParseInt(parts[1])
        case None => Some(0)
        case Some(mm) => Some(hh * 60 + mm)
  }

  /** Only a string without `:` reads as `NaN`. */
  lemma NaNHasNoColon(time: string)
    requires TimeStringToMinutes(time).None?
    ensures ':' !in time
  {
    JoinSplit(time, ':');
  }

  /** Two colon-free fields joined by `:` are read field by field. */
  lemma TimeStringOfFields(hh: string, mm: string)
    requires ':' !in hh && ':' !in mm
    ensures TimeStringToMinutes(hh + ":" + mm)
         == if ParseInt(hh).None? || ParseInt(mm).None? then Some(0)
            else Some(ParseInt(hh).value * 60 + ParseInt(mm).value)
  {
    SplitTwoFields(hh, mm);
    var parts := Split(hh + ":" + mm, ':');
    assert |parts| == 2 && parts[0] == hh && parts[1] == mm;
  }

  /** Without a `:` the result is 0 when the text is not a number and `NaN`
      when it is. */
  lemma TimeStringWithoutColon(time: string)
    requires ':' !in time
    ensures TimeStringToMinutes(time) == if ParseInt(time).None? then Some(0) else None
  {
    SplitWithout(time, ':');
  }

  /** `((totalMinutes % 1440) + 1440) % 1440` with JavaScript's `%`. */
  function Wrap(total: int): (m: int)
    ensures 0 <= m < DayMinutes
    ensures m == total % DayMinutes
  {
    WrapIsModulo(total);
    Rem(Rem(total, DayMinutes) + DayMinutes, DayMinutes)
  }

  lemma WrapIsModulo(total: int)
    ensures Rem(Rem(total, DayMinutes) + DayMinutes, DayMinutes) == total % DayMinutes
  {
    if total < 0 {
      var q := (-total) % DayMinutes;
      var k := (-total) / DayMinutes;
      assert -total == k * DayMinutes + q;
      if q == 0 {
        assert total == (-k) * DayMinutes;
      } else {
        assert total == (-k - 1) * DayMinutes + (DayMinutes - q);
      }
    }
  }

  /** `minutesToTimeString`. */
  function MinutesToTimeString(total: int): (r: string)
    ensures |r| == 5 && r[2] == ':'
  {
    var minutes := Wrap(total);
    // `minutes` is not negative, so `Math.floor(minutes / 60)` and
    // `minutes % 60` agree with Dafny's `/` and `%`.
    PadStartTwoDigits(minutes / 60);
    PadStartTwoDigits(minutes % 60);
    PadStart(IntToString(minutes / 60), 2) + ":" + PadStart(IntToString(minutes % 60), 2)
  }

  /** `/^\d{2}:\d{2}$/`. */
  predicate MatchesHHMM(v: string) {
    |v| == 5 && IsDigit(v[0]) && IsDigit(v[1]) && v[2] == ':' && IsDigit(v[3]) && IsDigit(v[4])
  }

  function HoursField(v: string): nat
    requires MatchesHHMM(v)
  {
    DigitValue(v[0], false) * 10 + DigitValue(v[1], false)
  }

  function MinutesField(v: string): nat
    requires MatchesHHMM(v)
  {
    DigitValue(v[3], false) * 10 + DigitValue(v[4], false)
  }

  /** The output is `HH:MM` with both fields zero-padded, `HH` below 24 and
      `MM` below 60, spelling the wrapped minute count. */
  lemma MinutesToTimeStringShape(total: int)
    ensures MatchesHHMM(MinutesToTimeString(total))
    ensures HoursField(MinutesToTimeString(total)) == Wrap(total) / 60 < 24
    ensures MinutesField(MinutesToTimeString(total)) == Wrap(total) % 60
    ensures HoursField(MinutesToTimeString(total)) * 60
          + MinutesField(MinutesToTimeString(total)) == Wrap(total)
  {
    var m := Wrap(total);
    PadStartTwoDigits(m / 60);
    PadStartTwoDigits(m % 60);
  }

  /** A whole number of days more or less does not change the text. */
  lemma MinutesToTimeStringPeriodic(m: int, k: int)
    ensures MinutesToTimeString(m + DayMinutes * k) == MinutesToTimeString(m)
  {
    var a := m % DayMinutes;
    var q := m / DayMinutes;
    assert m + DayMinutes * k == (q + k) * DayMinutes + a;
    assert Wrap(m + DayMinutes * k) == Wrap(m);
  }

  /** A string of the `HH:MM` shape reads as `HH * 60 + MM`. */
  lemma ReadsAs(v: string, total: int)
    requires MatchesHHMM(v) && total == HoursField(v) * 60 + MinutesField(v)
    ensures TimeStringToMinutes(v) == Some(total)
  {
    var hh, mm := HHMMFields(v);
    FieldsRead(v, hh, mm, HoursField(v), MinutesField(v), total);
  }

  /** The two fields of an `HH:MM` string and what they read as. */
  lemma HHMMFields(v: string) returns (hh: string, mm: string)
    requires MatchesHHMM(v)
    ensures v == hh + ":" + mm
    ensures ':' !in hh && ':' !in mm
    ensures ParseInt(hh) == Some(HoursField(v)) && ParseInt(mm) == Some(MinutesField(v))
  {
    hh := v[..2];
    mm := v[3..];
    assert v == hh + ":" + mm;
    assert hh[0] == v[0] && hh[1] == v[1] && mm[0] == v[3] && mm[1] == v[4];
    TwoDigitField(hh, HoursField(v));
    TwoDigitField(mm, MinutesField(v));
  }

  lemma TwoDigitField(d: string, value: int)
    requires |d| == 2 && IsDigit(d[0]) && IsDigit(d[1])
    requires value == DigitValue(d[0], false) * 10 + DigitValue(d[1], false)
    ensures ':' !in d
    ensures ParseInt(d) == Some(value)
  {
    DigitIsNotSpecial(d[0]);
    DigitIsNotSpecial(d[1]);
    assert d + [] == d;
    TwoDigitsValue(d);
    ParseIntOfDigits(d, [], false, value);
  }

  /** Two colon-free fields that read as `h` and `m` make `h * 60 + m`. */
  lemma FieldsRead(text: string, hh: string, mm: string, h: int, m: int, total: int)
    requires ':' !in hh && ':' !in mm && text == hh + ":" + mm
    requires ParseInt(hh) == Some(h) && ParseInt(mm) == Some(m) && total == h * 60 + m
    ensures TimeStringToMinutes(text) == Some(total)
  {
    SplitTwoFields(hh, mm);
    var parts := Split(text, ':');
    assert |parts| == 2 && parts[0] == hh && parts[1] == mm;
  }

  /** Formatting, then parsing, gives back the wrapped minute count. */
  lemma MinutesRoundTrip(total: int)
    ensures TimeStringToMinutes(MinutesToTimeString(total)) == Some(Wrap(total))
  {
    MinutesToTimeStringShape(total);
    ReadsAs(MinutesToTimeString(total), Wrap(total));
  }

  /** Every minute of the day comes back unchanged. */
  lemma MinutesRoundTripInRange(m: int)
    requires 0 <= m < DayMinutes
    ensures TimeStringToMinutes(MinutesToTimeString(m)) == Some(m)
  {
    MinutesRoundTrip(m);
    WrapInRange(m);
  }

  lemma WrapInRange(m: int)
    requires 0 <= m < DayMinutes
    ensures Wrap(m) == m
  {
  }

  /** A clock time below 24:00 survives parsing, then formatting. */
  lemma TimeStringRoundTrip(v: string)
    requires MatchesHHMM(v) && HoursField(v) < 24 && MinutesField(v) < 60
    ensures TimeStringToMinutes(v).Some?
    ensures MinutesToTimeString(TimeStringToMinutes(v).value) == v
  {
    var m := HoursField(v) * 60 + MinutesField(v);
    ReadsAs(v, m);
    FormatOfFields(v, m);
  }

  lemma FormatOfFields(v: string, m: int)
    requires MatchesHHMM(v) && HoursField(v) < 24 && MinutesField(v) < 60
    requires m == HoursField(v) * 60 + MinutesField(v)
    ensures MinutesToTimeString(m) == v
  {
    WrapInRange(m);
    ModOfSum(HoursField(v), 60, MinutesField(v), m);
    MinutesToTimeStringShape(m);
    SameFieldsSameText(MinutesToTimeString(m), v);
  }

  /** The fields' values determine an `HH:MM` string. */
  lemma SameFieldsSameText(a: string, b: string)
    requires MatchesHHMM(a) && MatchesHHMM(b)
    requires HoursField(a) == HoursField(b) && MinutesField(a) == MinutesField(b)
    ensures a == b
  {
    assert a[0] == b[0] && a[1] == b[1] && a[3] == b[3] && a[4] == b[4];
  }

  /** `isValidTime`. The second test never fails for a string of the right
      shape. */
  predicate IsValidTime(v: string) {
    MatchesHHMM(v)
    && match TimeStringToMinutes(v)
       case Some(m) => m >= 0
       case None => false
  }

  lemma IsValidTimeIff(v: string)
    ensures IsValidTime(v) <==> MatchesHHMM(v)
  {
    if MatchesHHMM(v) {
      var m := HoursField(v) * 60 + MinutesField(v);
      ReadsAs(v, m);
    }
  }

  /** An hour field of 24 or more (`"99:99"`, say) is still valid, reads
      as a minute count past the end of the day, and does not come back
      from formatting. */
  lemma ValidTimeOutOfRange(v: string)
    requires MatchesHHMM(v) && HoursField(v) >= 24
    ensures IsValidTime(v)
    ensures TimeStringToMinutes(v).Some? && TimeStringToMinutes(v).value >= DayMinutes
    ensures MinutesToTimeString(TimeStringToMinutes(v).value) != v
  {
    var m := HoursField(v) * 60 + MinutesField(v);
    ReadsAs(v, m);
    IsValidTimeIff(v);
    MinutesToTimeStringShape(m);
    assert HoursField(MinutesToTimeString(m)) < 24;
  }

  /** `minutesToTimeString12h`. */
  function MinutesToTimeString12h(total: int): string {
    var minutes := Wrap(total);
    var hours24 := minutes / 60;
    var mm := PadStart(IntToString(minutes % 60), 2);
    var period := if hours24 >= 12 then "PM" else "AM";
    var hours12 := ((hours24 + 11) % 12) + 1;
    IntToString(hours12) + ":" + mm + " " + period
  }

  /** The suffix is `PM` exactly from minute 720 of the day on. */
  lemma TwelveHourSuffix(total: int)
    ensures var r := MinutesToTimeString12h(total);
      |r| >= 3 && r[|r| - 3] == ' '
      && (r[|r| - 2..] == "PM" <==> Wrap(total) >= 720)
      && (r[|r| - 2..] == "AM" <==> Wrap(total) < 720)
  {
  }

  /** The text splits at its one `:` into two fields. */
  lemma TwelveHourFieldCount(total: int)
    ensures |Split(MinutesToTimeString12h(total), ':')| == 2
  {
    var hours12, parts := TwelveHourSplit(total);
  }

  /** The minutes field reads back as the minute within the hour. */
  lemma TwelveHourMinuteField(total: int)
    ensures var parts := Split(MinutesToTimeString12h(total), ':');
      |parts| == 2 && ParseInt(parts[1]) == Some(Wrap(total) % 60)
  {
    var hours12, parts := TwelveHourSplit(total);
  }

  /** The hour reads back as a number in 1..12, 0 and 12 both become 12,
      and together with the suffix it gives back the 24-hour hour. */
  lemma TwelveHourHourField(total: int)
    ensures var parts := Split(MinutesToTimeString12h(total), ':');
      |parts| == 2 && ParseInt(parts[0]).Some?
      && 1 <= ParseInt(parts[0]).value <= 12
      && ParseInt(parts[0]).value % 12 + (if Wrap(total) / 60 >= 12 then 12 else 0) == Wrap(total) / 60
  {
    var hours12, parts := TwelveHourSplit(total);
  }

  lemma TwelveHourSplit(total: int) returns (hours12: nat, parts: seq<string>)
    ensures parts == Split(MinutesToTimeString12h(total), ':')
    ensures |parts| == 2
    ensures ParseInt(parts[0]) == Some(hours12) && ParseInt(parts[1]) == Some(Wrap(total) % 60)
    ensures 1 <= hours12 <= 12
    ensures hours12 % 12 + (if Wrap(total) / 60 >= 12 then 12 else 0) == Wrap(total) / 60
  {
    var period;
    hours12, period := TwelveHourPieces(total);
    var text := MinutesToTimeString12h(total);
    TwelveHourText(text, hours12, Wrap(total) % 60, period);
    parts := Split(text, ':');
  }

  lemma TwelveHourPieces(total: int) returns (hours12: nat, period: string)
    ensures 1 <= hours12 <= 12
    ensures hours12 % 12 + (if Wrap(total) / 60 >= 12 then 12 else 0) == Wrap(total) / 60
    ensures ':' !in period
    ensures MinutesToTimeString12h(total)
         == IntToString(hours12) + ":" + PadStart(IntToString(Wrap(total) % 60), 2) + " " + period
  {
    var hours24 := Wrap(total) / 60;
    hours12 := ((hours24 + 11) % 12) + 1;
    period := if hours24 >= 12 then "PM" else "AM";
    TwelveHourClock(hours24);
  }

  /** The text `hour:MM period` splits at its one `:` into two fields that
      read back as the hour and the minute. */
  lemma TwelveHourText(text: string, hour: nat, minute: int, period: string)
    requires ':' !in period
    requires text == IntToString(hour) + ":" + PadStart(IntToString(minute), 2) + " " + period
    ensures var parts := Split(text, ':');
      |parts| == 2 && ParseInt(parts[0]) == Some(hour) && ParseInt(parts[1]) == Some(minute)
  {
    var a := IntToString(hour);
    var mm := PadStart(IntToString(minute), 2);
    var b := mm + (" " + period);
    assert a == NatToString(hour);
    ConcatAssoc(a + ":" + mm, " ", period);
    ConcatAssoc(a + ":", mm, " " + period);
    HourAndMinuteFields(a, b, hour, minute, period);
    var parts := Split(a + ":" + b, ':');
    assert parts[0] == a && parts[1] == b;
  }

  lemma ConcatAssoc(x: string, y: string, z: string)
    ensures x + y + z == x + (y + z)
  {
  }

  lemma HourAndMinuteFields(a: string, b: string, hour: nat, minute: int, period: string)
    requires a == NatToString(hour)
    requires ':' !in period
    requires b == PadStart(IntToString(minute), 2) + (" " + period)
    ensures Split(a + ":" + b, ':') == [a, b]
    ensures ParseInt(a) == Some(hour) && ParseInt(b) == Some(minute)
  {
    PaddedThenTextHasNoColon(minute, period);
    NumeralHasNoColon(hour);
    SplitTwoFields(a, b);
    ParseNumeral(hour);
    ParseIntOfPadded(minute, " " + period, false);
  }

  lemma NumeralHasNoColon(n: nat)
    ensures ':' !in NatToString(n)
  {
    var a := NatToString(n);
    forall k | 0 <= k < |a| ensures a[k] != ':' {
      DigitIsNotSpecial(a[k]);
    }
  }

  lemma PaddedThenTextHasNoColon(minute: int, period: string)
    requires ':' !in period
    ensures ':' !in PadStart(IntToString(minute), 2) + (" " + period)
  {
    PaddedHasNoColon(minute, 2);
  }

  lemma ParseNumeral(n: nat)
    ensures ParseInt(NatToString(n)) == Some(n)
  {
    var a := NatToString(n);
    assert a + [] == a;
    ParseIntOfDigits(a, [], false, n);
  }

  /** Two colon-free fields joined by `:` split back into those fields. */
  lemma SplitTwoFields(a: string, b: string)
    requires ':' !in a && ':' !in b
    ensures Split(a + ":" + b, ':') == [a, b]
  {
    assert a + ":" + b == a + [':'] + b;
    SplitAtFirst(a, ':', b);
    SplitWithout(b, ':');
  }

  /** `((hours24 + 11) % 12) + 1` is the clock-face hour of `hours24`. */
  lemma TwelveHourClock(hours24: int)
    requires 0 <= hours24 < 24
    ensures var h := ((hours24 + 11) % 12) + 1;
      1 <= h <= 12 && h % 12 + (if hours24 >= 12 then 12 else 0) == hours24
  {
    var h := ((hours24 + 11) % 12) + 1;
    if hours24 == 0 {
      assert h == 12;
    } else if hours24 < 12 {
      assert h == hours24;
    } else if hours24 == 12 {
      assert h == 12;
    } else {
      assert h == hours24 - 12;
    }
  }

  // ---------------------------------------------------------------------------
  // Dates
  // ---------------------------------------------------------------------------

  /** A `Date`: a time value, or the invalid date whose time value is `NaN`. */
  datatype Date = Time(ms: int) | InvalidDate

  function Day(t: int): int { t / DayMs }

  function MsOfDay(t: int): (r: int)
    ensures 0 <= r < DayMs && t == Day(t) * DayMs + r
  {
    t % DayMs
  }

  /** `getNowMinutes`: `getHours() * 60 + getMinutes()`, the minute of the
      day that contains `now`. */
  function GetNowMinutes(now: int): (r: int)
    ensures 0 <= r < DayMinutes
    ensures r * MinuteMs <= MsOfDay(now) < (r + 1) * MinuteMs
  {
    var q := now / MinuteMs;
    MinuteOfDay(now, q);
    ((now / HourMs) % 24) * 60 + q % 60
  }

  lemma MinuteOfDay(now: int, q: int)
    requires q == now / MinuteMs
    ensures ((now / HourMs) % 24) * 60 + q % 60 == MsOfDay(now) / MinuteMs
  {
    var a := now % MinuteMs;
    var p := q / 60;
    var b := q % 60;
    assert now == 60 * MinuteMs * p + MinuteMs * b + a;
    assert now / HourMs == p;
    var h := p % 24;
    var d := p / 24;
    assert now == d * DayMs + (h * 60 + b) * MinuteMs + a;
    assert Day(now) == d;
  }

  /** The day and the minute of the day of an instant given by them. */
  lemma MinuteOfInstant(day: int, k: int, sub: int)
    requires 0 <= k < DayMinutes && 0 <= sub < MinuteMs
    ensures Day(day * DayMs + k * MinuteMs + sub) == day
    ensures GetNowMinutes(day * DayMs + k * MinuteMs + sub) == k
  {
    var t := day * DayMs + k * MinuteMs + sub;
    var d := Day(t);
    var r := MsOfDay(t);
    assert (d - day) * DayMs == k * MinuteMs + sub - r;
    assert d > day ==> (d - day) * DayMs >= DayMs;
    assert d < day ==> (d - day) * DayMs <= -DayMs;
    assert r == k * MinuteMs + sub;
    var g := GetNowMinutes(t);
    assert g < k ==> (g + 1) * MinuteMs <= k * MinuteMs;
    assert g > k ==> g * MinuteMs >= (k + 1) * MinuteMs;
  }

  lemma MinuteOfWholeMinute(day: int, k: int)
    requires 0 <= k < DayMinutes
    ensures Day(day * DayMs + k * MinuteMs) == day
    ensures GetNowMinutes(day * DayMs + k * MinuteMs) == k
  {
    MinuteOfInstant(day, k, 0);
    assert day * DayMs + k * MinuteMs + 0 == day * DayMs + k * MinuteMs;
  }

  /** `date.setHours(Math.floor(minutes / 60), minutes % 60, 0, 0)` on a
      date of day `day`. */
  function AtMinute(day: int, minutes: int): int {
    day * DayMs + (minutes / 60) * HourMs + Rem(minutes, 60) * MinuteMs
  }

  /** The seconds and milliseconds are zero. */
  lemma AtMinuteWholeMinute(day: int, minutes: int)
    ensures AtMinute(day, minutes) % MinuteMs == 0
  {
    var k := day * 1440 + (minutes / 60) * 60 + Rem(minutes, 60);
    assert AtMinute(day, minutes) == k * MinuteMs;
  }

  /** For a minute count that is not negative this is that many minutes
      into the day. */
  lemma AtMinuteOfNatural(day: int, minutes: int)
    requires minutes >= 0
    ensures AtMinute(day, minutes) == day * DayMs + minutes * MinuteMs
  {
    assert minutes == (minutes / 60) * 60 + minutes % 60;
  }

  /** For a negative count the hour is floored and the minute truncated,
      so a count that is not a whole number of hours lands one hour
      earlier than it says: -90 minutes is 150 minutes before midnight. */
  lemma AtMinuteOfNegative(day: int, minutes: int)
    requires minutes < 0
    ensures AtMinute(day, minutes)
         == day * DayMs + (if minutes % 60 == 0 then minutes else minutes - 60) * MinuteMs
  {
    var n := -minutes;
    var q := n / 60;
    var r := n % 60;
    assert n == q * 60 + r;
    assert Rem(minutes, 60) == -r;
    if r == 0 {
      ModOfSum(-q, 60, 0, minutes);
    } else {
      ModOfSum(-q - 1, 60, 60 - r, minutes);
    }
  }

  // ---------------------------------------------------------------------------
  // Sorting and normalisation
  // ---------------------------------------------------------------------------

  /** The sort key of `sortSchedule`. */
  function StartMinutes(p: Period): int {
    match TimeStringToMinutes(p.start)
    case Some(m) => m
    case None => 0
  }

  /** `sortSchedule`. */
  function SortSchedule(s: seq<Period>): (r: seq<Period>)
    ensures SortedBy(r, StartMinutes)
    ensures multiset(r) == multiset(s)
  {
    SortBy(s, StartMinutes)
  }

  /** The filter of `normalizeSchedule`. */
  predicate IsValidPeriod(p: Period) {
    IsValidTime(p.start) && IsValidTime(p.end) && |Trim(p.name)| > 0
  }

  /** `normalizeSchedule`. */
  function NormalizeSchedule(s: seq<Period>): (r: seq<Period>)
    ensures forall p :: p in r <==> p in s && IsValidPeriod(p)
    ensures SortedBy(r, StartMinutes)
    ensures multiset(r) == multiset(Filter(s, IsValidPeriod))
  {
    var kept := Filter(s, IsValidPeriod);
    var r := SortSchedule(kept);
    SameElements(r, kept);
    r
  }

  lemma SameElements(a: seq<Period>, b: seq<Period>)
    requires multiset(a) == multiset(b)
    ensures forall p :: p in a <==> p in b
  {
    forall p ensures p in a <==> p in b {
      assert p in a <==> p in multiset(a);
      assert p in b <==> p in multiset(b);
    }
  }

  /** Periods with the same start keep their relative order. */
  lemma NormalizeStable(s: seq<Period>, k: int)
    ensures WithKey(NormalizeSchedule(s), StartMinutes, k)
         == WithKey(Filter(s, IsValidPeriod), StartMinutes, k)
  {
    SortByStable(Filter(s, IsValidPeriod), StartMinutes, k);
  }

  /** A blank name (white space only) is dropped. */
  lemma NormalizeDropsBlankName(s: seq<Period>, p: Period)
    requires forall i :: 0 <= i < |p.name| ==> IsWhiteSpace(p.name[i])
    ensures p !in NormalizeSchedule(s)
  {
    TrimEmptyIff(p.name);
  }

  lemma NormalizeIdempotent(s: seq<Period>)
    ensures NormalizeSchedule(NormalizeSchedule(s)) == NormalizeSchedule(s)
  {
    var r := NormalizeSchedule(s);
    FilterKeepsAll(r, IsValidPeriod);
    SortBySorted(r, StartMinutes);
  }

  /** Every end in a normalised schedule reads as a minute count in
      `[0, 6039]`. */
  lemma NormalizedEnds(s: seq<Period>, p: Period)
    requires p in NormalizeSchedule(s)
    ensures TimeStringToMinutes(p.end).Some?
    ensures 0 <= TimeStringToMinutes(p.end).value <= 99 * 60 + 99
  {
    IsValidTimeIff(p.end);
    var m := HoursField(p.end) * 60 + MinutesField(p.end);
    ReadsAs(p.end, m);
  }

  // ---------------------------------------------------------------------------
  // Current period
  // ---------------------------------------------------------------------------

  /** `nowMinutes >= start && nowMinutes < end`; a `NaN` bound fails. */
  predicate Contains(p: Period, nowMinutes: int) {
    match (TimeStringToMinutes(p.start), TimeStringToMinutes(p.end))
    case (Some(start), Some(end)) => start <= nowMinutes < end
    case _ => false
  }

  /** `getCurrentPeriod`: the first period whose `[start, end)` contains
      `nowMinutes`. */
  function GetCurrentPeriod(s: seq<Period>, nowMinutes: int): (r: Option<Period>)
    ensures r.None? <==> forall i :: 0 <= i < |s| ==> !Contains(s[i], nowMinutes)
    ensures r.Some? ==> r.value in s && Contains(r.value, nowMinutes)
  {
    if |s| == 0 then None
    else if Contains(s[0], nowMinutes) then Some(s[0])
    else
      var r := GetCurrentPeriod(s[1..], nowMinutes);
      assert forall i :: 1 <= i < |s| ==> s[i] == s[1..][i - 1];
      r
  }

  /** The period found is the first one that contains the minute. */
  lemma {:induction false} GetCurrentPeriodFirst(s: seq<Period>, nowMinutes: int, i: int)
    requires 0 <= i < |s| && Contains(s[i], nowMinutes)
    requires forall j :: 0 <= j < i ==> !Contains(s[j], nowMinutes)
    ensures GetCurrentPeriod(s, nowMinutes) == Some(s[i])
    decreases i
  {
    if i > 0 {
      GetCurrentPeriodFirst(s[1..], nowMinutes, i - 1);
    }
  }

  // ---------------------------------------------------------------------------
  // Next bell
  // ---------------------------------------------------------------------------

  /** The end minutes of the periods, in list order, leaving out those
      that are `NaN`. */
  function ParsedEnds(s: seq<Period>): (r: seq<int>)
    ensures |r| <= |s|
    ensures forall i :: 0 <= i < |s| && TimeStringToMinutes(s[i].end).Some?
              ==> TimeStringToMinutes(s[i].end).value in r
    ensures forall e :: e in r ==> exists i :: 0 <= i < |s| && TimeStringToMinutes(s[i].end) == Some(e)
  {
    if |s| == 0 then []
    else
      var rest := ParsedEnds(s[1..]);
      assert forall i :: 1 <= i < |s| ==> s[i] == s[1..][i - 1];
      match TimeStringToMinutes(s[0].end)
      case Some(e) => [e] + rest
      case None => rest
  }

  /** One period gives its end minute, or nothing when the end is `NaN`. */
  lemma ParsedEndsOne(p: Period)
    ensures ParsedEnds([p]) == if TimeStringToMinutes(p.end).Some? then [TimeStringToMinutes(p.end).value] else []
  {
    assert [p][1..] == [];
  }

  /** The ends of a concatenation are the ends of each part, in order:
      with `ParsedEndsOne`, the list keeps the order and the repetitions
      of the periods' ends. */
  lemma {:induction false} ParsedEndsAppend(a: seq<Period>, b: seq<Period>)
    ensures ParsedEnds(a + b) == ParsedEnds(a) + ParsedEnds(b)
    decreases |a|
  {
    if |a| == 0 {
      assert a + b == b;
    } else {
      assert (a + b)[0] == a[0];
      assert (a + b)[1..] == a[1..] + b;
      ParsedEndsAppend(a[1..], b);
    }
  }

  function Identity(x: int): int { x }

  function After(m: int): int -> bool { x => x > m }

  /** `getNextBellDate`. When some end is later than `now`'s minute the
      earliest such end is chosen today, otherwise the earliest of all
      tomorrow.
      The sort of the second branch is given only the ends that are not
      `NaN`; when every end is `NaN` the result is the invalid date. */
  function NextBellDate(s: seq<Period>, now: int): (r: Option<Date>)
    ensures r.None? <==> |s| == 0
  {
    if |s| == 0 then None
    else
      var todayMinutes := GetNowMinutes(now);
      var ends := ParsedEnds(s);
      var endsToday := SortBy(Filter(ends, After(todayMinutes)), Identity);
      if |endsToday| > 0 then Some(Time(AtMinute(Day(now), endsToday[0])))
      else if |ends| == 0 then Some(InvalidDate)
      else Some(Time(AtMinute(Day(now) + 1, SortBy(ends, Identity)[0])))
  }

  /** `.sort((a, b) => a - b)[0]` is the minimum. */
  lemma SortedHeadIsMinimum(xs: seq<int>, e: int)
    requires e in xs && forall x :: x in xs ==> e <= x
    ensures SortBy(xs, Identity)[0] == e
  {
    SortByHead(xs, Identity);
    var h := SortBy(xs, Identity)[0];
    assert h in xs;
  }

  /** The ends later than minute `m`. */
  lemma LaterEnds(xs: seq<int>, m: int)
    ensures forall x :: x in Filter(xs, After(m)) <==> x in xs && x > m
  {
    forall x ensures x in Filter(xs, After(m)) <==> x in xs && x > m {
      assert After(m)(x) == (x > m);
    }
  }

  /** With a later end today, the bell is today at the earliest such end. */
  lemma NextBellToday(s: seq<Period>, now: int, e: int)
    requires e in ParsedEnds(s) && e > GetNowMinutes(now)
    requires forall x :: x in ParsedEnds(s) && x > GetNowMinutes(now) ==> e <= x
    ensures NextBellDate(s, now) == Some(Time(AtMinute(Day(now), e)))
  {
    var m := GetNowMinutes(now);
    var later := Filter(ParsedEnds(s), After(m));
    LaterEnds(ParsedEnds(s), m);
    SortedHeadIsMinimum(later, e);
  }

  /** With no later end today, the bell is tomorrow at the earliest end. */
  lemma NextBellTomorrow(s: seq<Period>, now: int, e: int)
    requires e in ParsedEnds(s)
    requires forall x :: x in ParsedEnds(s) ==> x <= GetNowMinutes(now) && e <= x
    ensures NextBellDate(s, now) == Some(Time(AtMinute(Day(now) + 1, e)))
  {
    var m := GetNowMinutes(now);
    var ends := ParsedEnds(s);
    forall i | 0 <= i < |ends| ensures !After(m)(ends[i]) {
      assert ends[i] in ends;
    }
    FilterRejectsAll(ends, After(m));
    SortedHeadIsMinimum(ends, e);
  }

  /** With no end that is a number, the result is the invalid date. */
  lemma NextBellInvalid(s: seq<Period>, now: int)
    requires |s| > 0
    requires forall i :: 0 <= i < |s| ==> TimeStringToMinutes(s[i].end).None?
    ensures NextBellDate(s, now) == Some(InvalidDate)
  {
    NoParsedEnds(s);
  }

  lemma {:induction false} NoParsedEnds(s: seq<Period>)
    requires forall i :: 0 <= i < |s| ==> TimeStringToMinutes(s[i].end).None?
    ensures ParsedEnds(s) == []
    decreases |s|
  {
    if |s| > 0 {
      assert forall i :: 0 <= i < |s[1..]| ==> s[1..][i] == s[i + 1];
      NoParsedEnds(s[1..]);
    }
  }

  /** Seconds and milliseconds of the result are zero. */
  lemma NextBellWholeMinute(s: seq<Period>, now: int)
    requires NextBellDate(s, now).Some? && NextBellDate(s, now).value.Time?
    ensures NextBellDate(s, now).value.ms % MinuteMs == 0
  {
    var m := GetNowMinutes(now);
    var ends := ParsedEnds(s);
    var endsToday := SortBy(Filter(ends, After(m)), Identity);
    if |endsToday| > 0 {
      AtMinuteWholeMinute(Day(now), endsToday[0]);
    } else {
      AtMinuteWholeMinute(Day(now) + 1, SortBy(ends, Identity)[0]);
    }
  }

  /** Every end is a number that is not negative. */
  predicate EndsWellFormed(s: seq<Period>) {
    forall i :: 0 <= i < |s| ==>
      match TimeStringToMinutes(s[i].end)
      case Some(e) => e >= 0
      case None => false
  }

  lemma NormalizedEndsWellFormed(s: seq<Period>)
    ensures EndsWellFormed(NormalizeSchedule(s))
  {
    var r := NormalizeSchedule(s);
    forall i | 0 <= i < |r|
      ensures TimeStringToMinutes(r[i].end).Some? && TimeStringToMinutes(r[i].end).value >= 0
    {
      NormalizedEnds(s, r[i]);
    }
  }

  /** The end `getNextBellDate` chooses, and whether it is today's. */
  lemma NextBellChoice(s: seq<Period>, now: int) returns (e: int, today: bool)
    requires |ParsedEnds(s)| > 0
    ensures e in ParsedEnds(s)
    ensures today ==> (e > GetNowMinutes(now)
      && (forall x :: x in ParsedEnds(s) && x > GetNowMinutes(now) ==> e <= x)
      && NextBellDate(s, now) == Some(Time(AtMinute(Day(now), e))))
    ensures !today ==> ((forall x :: x in ParsedEnds(s) ==> x <= GetNowMinutes(now) && e <= x)
      && NextBellDate(s, now) == Some(Time(AtMinute(Day(now) + 1, e))))
  {
    if |Filter(ParsedEnds(s), After(GetNowMinutes(now)))| > 0 {
      e := ChoiceToday(s, now);
      today := true;
    } else {
      e := ChoiceTomorrow(s, now);
      today := false;
    }
  }

  lemma ChoiceToday(s: seq<Period>, now: int) returns (e: int)
    requires |Filter(ParsedEnds(s), After(GetNowMinutes(now)))| > 0
    ensures e in ParsedEnds(s) && e > GetNowMinutes(now)
    ensures forall x :: x in ParsedEnds(s) && x > GetNowMinutes(now) ==> e <= x
    ensures NextBellDate(s, now) == Some(Time(AtMinute(Day(now), e)))
  {
    var m := GetNowMinutes(now);
    var ends := ParsedEnds(s);
    var later := Filter(ends, After(m));
    SortByHead(later, Identity);
    e := SortBy(later, Identity)[0];
    assert e in later;
    assert e in ends && After(m)(e);
    forall x | x in ends && x > m ensures e <= x {
      assert After(m)(x);
      assert x in later;
    }
    NextBellToday(s, now, e);
  }

  lemma ChoiceTomorrow(s: seq<Period>, now: int) returns (e: int)
    requires |ParsedEnds(s)| > 0
    requires |Filter(ParsedEnds(s), After(GetNowMinutes(now)))| == 0
    ensures e in ParsedEnds(s)
    ensures forall x :: x in ParsedEnds(s) ==> x <= GetNowMinutes(now) && e <= x
    ensures NextBellDate(s, now) == Some(Time(AtMinute(Day(now) + 1, e)))
  {
    var m := GetNowMinutes(now);
    var ends := ParsedEnds(s);
    var later := Filter(ends, After(m));
    SortByHead(ends, Identity);
    e := SortBy(ends, Identity)[0];
    forall x | x in ends ensures x <= m {
      assert x > m ==> After(m)(x) && x in later;
    }
    NextBellTomorrow(s, now, e);
  }

  /** Under `EndsWellFormed` some end is a number. */
  lemma WellFormedEndsParse(s: seq<Period>)
    requires |s| > 0 && EndsWellFormed(s)
    ensures |ParsedEnds(s)| > 0
  {
    assert TimeStringToMinutes(s[0].end).Some?;
    assert TimeStringToMinutes(s[0].end).value in ParsedEnds(s);
  }

  lemma WellFormedEndNatural(s: seq<Period>, e: int)
    requires EndsWellFormed(s) && e in ParsedEnds(s)
    ensures e >= 0
  {
    var i :| 0 <= i < |s| && TimeStringToMinutes(s[i].end) == Some(e);
  }

  /** When every end reads as a minute count that is not negative (every
      normalised schedule), the next bell is strictly after `now`. */
  lemma NextBellAfterNow(s: seq<Period>, now: int)
    requires |s| > 0 && EndsWellFormed(s)
    ensures NextBellDate(s, now).Some? && NextBellDate(s, now).value.Time?
    ensures NextBellDate(s, now).value.ms > now
  {
    WellFormedEndsParse(s);
    var e, today := NextBellChoice(s, now);
    WellFormedEndNatural(s, e);
    var d := Day(now);
    var m := GetNowMinutes(now);
    assert now == d * DayMs + MsOfDay(now);
    if today {
      AtMinuteOfNatural(d, e);
      assert e * MinuteMs >= (m + 1) * MinuteMs;
    } else {
      AtMinuteOfNatural(d + 1, e);
    }
  }

  /** The smallest bell instant after `now`: when every end is a minute of
      the day, no end on any day falls strictly between `now` and the
      result. */
  lemma NextBellEarliest(s: seq<Period>, now: int, day: int, end: int)
    requires |s| > 0 && EndsWellFormed(s)
    requires forall x :: x in ParsedEnds(s) ==> x < DayMinutes
    requires end in ParsedEnds(s) && AtMinute(day, end) > now
    ensures NextBellDate(s, now).Some? && NextBellDate(s, now).value.Time?
    ensures NextBellDate(s, now).value.ms <= AtMinute(day, end)
  {
    WellFormedEndsParse(s);
    var e, today := NextBellChoice(s, now);
    WellFormedEndNatural(s, e);
    WellFormedEndNatural(s, end);
    var d := Day(now);
    var m := GetNowMinutes(now);
    var r := MsOfDay(now);
    assert today ==> (end > m ==> e <= end);
    assert !today ==> end <= m && e <= end;
    AtMinuteOfNatural(day, end);
    AtMinuteOfNatural(d, e);
    AtMinuteOfNatural(d + 1, e);
    BellNotLater(now, d, r, m, e, end, day, today);
  }

  /** The arithmetic behind `NextBellEarliest`: `now` is `r` ms into day
      `d` and in minute `m`; the bell is at end `e` today or tomorrow. */
  lemma BellNotLater(now: int, d: int, r: int, m: int, e: int, end: int, day: int, today: bool)
    requires now == d * DayMs + r && 0 <= r < DayMs
    requires m * MinuteMs <= r < (m + 1) * MinuteMs
    requires 0 <= e < DayMinutes && 0 <= end < DayMinutes
    requires today ==> m < e && (m < end ==> e <= end)
    requires !today ==> end <= m && e <= end
    requires day * DayMs + end * MinuteMs > now
    ensures today ==> d * DayMs + e * MinuteMs <= day * DayMs + end * MinuteMs
    ensures !today ==> (d + 1) * DayMs + e * MinuteMs <= day * DayMs + end * MinuteMs
  {
    assert day < d ==> day * DayMs <= (d - 1) * DayMs;
    assert day > d + 1 ==> day * DayMs >= (d + 2) * DayMs;
    assert day == d ==> end * MinuteMs > m * MinuteMs;
    assert end * MinuteMs > m * MinuteMs ==> end > m;
  }

  /** An end past midnight (such as `"99:99"`, 6039 minutes, which
      normalisation keeps) counts as later today, so the bell can skip an
      earlier bell tomorrow: the result lies past tomorrow's bell at `x`. */
  lemma NextBellPastMidnight(s: seq<Period>, now: int, e: int, x: int)
    requires e in ParsedEnds(s) && e > GetNowMinutes(now)
    requires forall y :: y in ParsedEnds(s) && y > GetNowMinutes(now) ==> e <= y
    requires x in ParsedEnds(s) && 0 <= x && DayMinutes + x < e
    ensures NextBellDate(s, now) == Some(Time(AtMinute(Day(now), e)))
    ensures now < AtMinute(Day(now) + 1, x) < AtMinute(Day(now), e)
  {
    NextBellToday(s, now, e);
    var d := Day(now);
    assert now == d * DayMs + MsOfDay(now);
    AtMinuteOfNatural(d, e);
    AtMinuteOfNatural(d + 1, x);
    assert (DayMinutes + x) * MinuteMs < e * MinuteMs;
  }

  // ---------------------------------------------------------------------------
  // Remaining time
  // ---------------------------------------------------------------------------

  datatype Remaining = Remaining(diffMs: int, days: int, hours: int, minutes: int, seconds: int)

  function Max(a: int, b: int): int { if a >= b then a else b }

  /** `getTimeRemaining`: the signed difference, and the clamped difference
      in whole seconds split into days, hours, minutes and seconds. */
  function GetTimeRemaining(target: int, now: int): (r: Remaining)
    ensures r.diffMs == target - now
    ensures r.days >= 0 && 0 <= r.hours < 24 && 0 <= r.minutes < 60 && 0 <= r.seconds < 60
    ensures r.days * 86400 + r.hours * 3600 + r.minutes * 60 + r.seconds == Max(target - now, 0) / 1000
  {
    var diffMs := target - now;
    var clamped := Max(diffMs, 0);
    var totalSeconds := clamped / 1000;
    var days := totalSeconds / (24 * 3600);
    var hours := (totalSeconds % (24 * 3600)) / 3600;
    var minutes := (totalSeconds % 3600) / 60;
    var seconds := totalSeconds % 60;
    SecondsSplit(totalSeconds);
    Remaining(diffMs, days, hours, minutes, seconds)
  }

  lemma SecondsSplit(n: nat)
    ensures (n / 86400) * 86400 + ((n % 86400) / 3600) * 3600 + ((n % 3600) / 60) * 60 + n % 60 == n
    ensures (n % 86400) / 3600 < 24
  {
    var d := n / 86400;
    var h := (n % 86400) / 3600;
    var b := n % 3600;
    ModOfSum(d * 24 + h, 3600, n % 86400 % 3600, n);
    ModOfSum(b / 60, 60, b % 60, b);
    ModOfSum((d * 24 + h) * 60 + b / 60, 60, b % 60, n);
  }

  /** `n` is `q * k + r` with `r` in `[0, k)` exactly when `r` is `n % k`. */
  lemma ModOfSum(q: int, k: int, r: int, n: int)
    requires k > 0 && 0 <= r < k && n == q * k + r
    ensures n % k == r && n / k == q
  {
    var q2 := n / k;
    var r2 := n % k;
    assert (q - q2) * k == r2 - r by {
      assert (q - q2) * k == q * k - q2 * k;
    }
    MulSign(q - q2, k);
  }

  lemma MulSign(a: int, k: int)
    requires k > 0
    ensures a >= 1 ==> a * k >= k
    ensures a <= -1 ==> a * k <= -k
  {
    assert a >= 1 ==> a * k - k == (a - 1) * k;
    assert a <= -1 ==> a * k + k == (a + 1) * k;
  }

  /** A target in the past (or now) leaves nothing. */
  lemma RemainingWhenDue(target: int, now: int)
    requires target <= now
    ensures var r := GetTimeRemaining(target, now);
      r.days == 0 && r.hours == 0 && r.minutes == 0 && r.seconds == 0
  {
  }

  /** `formatHMS`. */
  function FormatHMS(hours: int, minutes: int, seconds: int): string {
    PadStart(IntToString(hours), 2) + ":" + PadStart(IntToString(minutes), 2) + ":"
      + PadStart(IntToString(seconds), 2)
  }

  /** The three fields are separated by `:` and read back as the numbers. */
  lemma FormatHMSFields(hours: int, minutes: int, seconds: int)
    ensures var parts := Split(FormatHMS(hours, minutes, seconds), ':');
      |parts| == 3
      && ParseInt(parts[0]) == Some(hours)
      && ParseInt(parts[1]) == Some(minutes)
      && ParseInt(parts[2]) == Some(seconds)
  {
    var h := PadStart(IntToString(hours), 2);
    var m := PadStart(IntToString(minutes), 2);
    var c := PadStart(IntToString(seconds), 2);
    PaddedHasNoColon(hours, 2);
    PaddedHasNoColon(minutes, 2);
    PaddedHasNoColon(seconds, 2);
    var text := FormatHMS(hours, minutes, seconds);
    assert text == h + ":" + m + ":" + c;
    SplitThreeFields(h, m, c);
    var parts := Split(text, ':');
    assert parts[0] == h && parts[1] == m && parts[2] == c;
    ParsePadded(hours);
    ParsePadded(minutes);
    ParsePadded(seconds);
  }

  /** With all three fields in 0..99 the text is `HH:MM:SS`. */
  lemma FormatHMSLength(hours: int, minutes: int, seconds: int)
    requires 0 <= hours < 100 && 0 <= minutes < 100 && 0 <= seconds < 100
    ensures |FormatHMS(hours, minutes, seconds)| == 8
  {
    PadStartTwoDigits(hours);
    PadStartTwoDigits(minutes);
    PadStartTwoDigits(seconds);
  }

  lemma SplitThreeFields(a: string, b: string, c: string)
    requires ':' !in a && ':' !in b && ':' !in c
    ensures Split(a + ":" + b + ":" + c, ':') == [a, b, c]
  {
    assert a + ":" + b + ":" + c == a + [':'] + (b + ":" + c);
    SplitAtFirst(a, ':', b + ":" + c);
    SplitTwoFields(b, c);
  }

  lemma ParsePadded(i: int)
    ensures ParseInt(PadStart(IntToString(i), 2)) == Some(i)
  {
    var p := PadStart(IntToString(i), 2);
    assert p + [] == p;
    ParseIntOfPadded(i, [], false);
  }
}
