# Classroom bell scheduler: a verified model

The system is a web page for a classroom bell. A schedule is a list of
periods, each with an id, a name and a start and an end time written
`HH:MM`. The page shows the current period and a countdown to the next
bell. It rings when the countdown runs out and the sound is on, and it
lets the teacher edit the schedule.

The model has three parts, plus small modules for the JavaScript library
behaviour they rest on:

- `Schedule` (`schedule.dfy`) is the schedule library. It covers parsing
  and formatting `HH:MM` times, validation, normalisation (filter, then a
  stable sort by start), the current period, the next bell instant and
  the remaining time.
- `Countdown` (`countdown.dfy`) is the countdown panel. The class
  `BellLoop` holds the panel's state: `now`, `target`, `enabled` and
  `loading`. Its methods are the steps the effects take: a clock tick, a
  new schedule, the sound switch, the end of loading and the test bell.
  Calls on the bell player are kept as a log of `AudioEvent`s. The two
  labels are functions.
- `ScheduleEditor` (`schedule_editor.dfy`) is the editor. The class
  `Editor` holds the draft and the parent's value. Each of its methods
  replaces the draft with a pure sequence function: add from the modal,
  update one field, remove by id. Propagating upward is a function of the
  draft and the value.
- `JsText` (`js_text.dfy`) models `parseInt` (with radix 10, and without a
  radix, where a `0x` prefix selects hex), `toString`, `padStart`,
  `split`, `trim` and the truncating `%`. `JsArray` (`js_array.dfy`)
  models `filter` and the stable `Array.prototype.sort`. `Wrappers`
  (`wrappers.dfy`) holds `Option`, whose `None` stands for `NaN`.

Time is an integer count of milliseconds. A day is exactly 86 400 000 ms,
with no time zone and no daylight saving time. An instant `t` falls on day
`t / 86400000` at millisecond `t % 86400000` of that day, so `setHours` and
`setDate` become arithmetic. `Date` is `Time(ms)` or `InvalidDate`; the
library builds the invalid date when every end time reads as `NaN`.

Behaviours of the code that the model keeps and states:

- `timeStringToMinutes` returns 0 when a part of `HH:MM` does not parse.
  A string with no colon whose text parses (`"12"`) gives `NaN`, not 0:
  the missing minutes part is `undefined`, which passes the `isNaN` test,
  and the sum with it is `NaN`. The model follows the code (see
  `Schedule.TimeStringWithoutColon`).
- `isValidTime` accepts any two digits, a colon and two digits, so
  `"99:99"` is valid. Such a time reads as 6039 minutes and does not
  survive the round trip through `minutesToTimeString`.
- An end time past midnight counts as "later today" in `getNextBellDate`.
  It beats an earlier end that would ring tomorrow.
- `setHours` with a negative minute count floors the hour and truncates
  the minute. A count that is not a whole number of hours lands an hour
  earlier than it says: -90 minutes is 150 minutes before midnight.
- The add guard `endMinutes <= startMinutes` is false when either side is
  `NaN`. A period with a cleared time field is therefore appended to the
  draft, and normalisation then drops it.
- `createEmptyPeriod` does not wrap the end at midnight: 23:30 plus 45
  minutes gives `"24:15"`.
- As written, the editor's sync effect also runs after every edit. An
  edit that changes the normalised schedule is then never settled: the
  draft and the parent's value swap on every commit (see "## Findings").
- The remaining label does not reduce hours to a day: a bell more than a
  day away shows an hour field of 24 or more. For the invalid date the
  label is `NaN:NaN:NaN`.

## Model

| member | source | states |
|---|---|---|
| Schedule.TimeStringToMinutes | src/lib/schedule.ts:10-14 | no ensures of its own: its contract is stated by `TimeStringOfFields`, `TimeStringWithoutColon`, `NaNHasNoColon` and `ReadsAs` |
| Schedule.TimeStringOfFields | src/lib/schedule.ts:10-14 | `hh + ":" + mm` reads as `hh * 60 + mm` when both parts parse in base 10, and as 0 when either does not |
| Schedule.TimeStringWithoutColon | src/lib/schedule.ts:10-14 | a string with no colon reads as 0 when it does not parse and as `NaN` when it does |
| Schedule.NaNHasNoColon | src/lib/schedule.ts:10-14 | only a string with no colon can read as `NaN` |
| Schedule.ReadsAs | src/lib/schedule.ts:10-14 | a string of the `HH:MM` shape reads as `HH * 60 + MM` |
| Schedule.Wrap | src/lib/schedule.ts:17 | the double truncating remainder lands in 0..1439 and equals the mathematical modulo of 1440 |
| Schedule.MinutesToTimeString | src/lib/schedule.ts:16-23 | the text has five characters with the colon in the middle |
| Schedule.MinutesToTimeStringShape | src/lib/schedule.ts:16-23 | the text is two digits, a colon and two digits, holding the hours (below 24) and minutes of the wrapped count |
| Schedule.MinutesToTimeStringPeriodic | src/lib/schedule.ts:16-23 | adding any whole number of days leaves the text unchanged |
| Schedule.MinutesRoundTrip | src/lib/schedule.ts:10-23 | formatting then parsing gives the wrapped minute count, for any integer |
| Schedule.MinutesRoundTripInRange | src/lib/schedule.ts:10-23 | formatting then parsing gives back every minute count in 0..1439 |
| Schedule.TimeStringRoundTrip | src/lib/schedule.ts:10-23 | parsing then formatting gives back every `HH:MM` text with hours below 24 and minutes below 60 |
| Schedule.IsValidTime | src/lib/schedule.ts:44-46 | no ensures of its own: its contract is stated by `IsValidTimeIff` and `ValidTimeOutOfRange` |
| Schedule.IsValidTimeIff | src/lib/schedule.ts:44-46 | a time is valid exactly when it is two digits, a colon and two digits |
| Schedule.ValidTimeOutOfRange | src/lib/schedule.ts:44-46 | a valid time with an hour field of 24 or more reads as at least 1440 minutes and does not come back from formatting |
| Schedule.TwelveHourSuffix | src/lib/schedule.ts:25-32 | the text ends in a space and `PM` exactly when the wrapped count is at least 720, and in `AM` otherwise |
| Schedule.MinutesToTimeString12h | src/lib/schedule.ts:25-32 | no ensures of its own: its contract is stated by `TwelveHourSuffix`, `TwelveHourFieldCount`, `TwelveHourMinuteField` and `TwelveHourHourField` |
| Schedule.TwelveHourFieldCount | src/lib/schedule.ts:25-32 | the text has exactly one colon, so it splits into two fields |
| Schedule.TwelveHourMinuteField | src/lib/schedule.ts:28-31 | the second field reads as the minute within the hour of the wrapped count |
| Schedule.TwelveHourHourField | src/lib/schedule.ts:27-31 | the first field reads as 1..12 and, with the suffix, gives back the 24-hour hour; 0 is shown as 12 |
| Schedule.TwelveHourSplit | src/lib/schedule.ts:25-32 | the two fields read as the clock-face hour, in 1..12, and the minute within the hour |
| Schedule.TwelveHourClock | src/lib/schedule.ts:30 | `((h + 11) % 12) + 1` is the clock-face hour of every hour 0..23 |
| Schedule.MsOfDay | src/lib/schedule.ts:34-36 | an instant is its day times the length of a day plus a millisecond of that day |
| Schedule.GetNowMinutes | src/lib/schedule.ts:34-36 | the result is in 0..1439, and it is the minute of the day that holds the instant |
| Schedule.MinuteOfInstant | src/lib/schedule.ts:34-36 | any instant within minute `k` of a day gives that day and minute `k` |
| Schedule.MinuteOfWholeMinute | src/lib/schedule.ts:34-36 | the instant at the start of minute `k` gives that day and minute `k` |
| Schedule.AtMinute | src/lib/schedule.ts:82-92 | no ensures of its own: `setHours(Math.floor(m / 60), m % 60, 0, 0)` on a day, whose contract is stated by `AtMinuteWholeMinute`, `AtMinuteOfNatural` and `AtMinuteOfNegative` |
| Schedule.AtMinuteWholeMinute | src/lib/schedule.ts:82 | `setHours(h, m, 0, 0)` gives an instant at a whole minute |
| Schedule.AtMinuteOfNatural | src/lib/schedule.ts:82 | for a minute count that is not negative, the instant is that many minutes after midnight of the day |
| Schedule.AtMinuteOfNegative | src/lib/schedule.ts:82 | for every negative count, the instant is that many minutes from midnight when the count is a whole number of hours, and an hour earlier otherwise, because of the floored hour and the truncated minute |
| Schedule.StartMinutes | src/lib/schedule.ts:40 | no ensures of its own: the sort key, the start's minute count, with a `NaN` start taken as 0 (see "## Left out"); `SortSchedule` and `NormalizeStable` state what sorting by it gives |
| Schedule.SortSchedule | src/lib/schedule.ts:38-42 | the result is sorted by start minutes and is a permutation of the input |
| JsArray.SortByStable | src/lib/schedule.ts:38-42 | the sort keeps the input order among periods with equal keys |
| Schedule.IsValidPeriod | src/lib/schedule.ts:50 | no ensures of its own: the filter's test, whose consequences `NormalizeSchedule`, `NormalizeDropsBlankName` and `NormalizedEnds` state |
| Schedule.NormalizeSchedule | src/lib/schedule.ts:48-53 | a period is in the result exactly when it is in the input with a valid start, a valid end and a non-blank name; the result is sorted and a permutation of the filtered input |
| Schedule.NormalizeStable | src/lib/schedule.ts:48-53 | among periods with the same start, the result keeps the input order |
| Schedule.NormalizeDropsBlankName | src/lib/schedule.ts:50 | a period whose name is all white space is never kept |
| Schedule.NormalizeIdempotent | src/lib/schedule.ts:48-53 | normalising twice gives what normalising once gives |
| Schedule.NormalizedEnds | src/lib/schedule.ts:48-53 | every kept end reads as a number in 0..6039 |
| Schedule.NormalizedEndsWellFormed | src/lib/schedule.ts:48-53 | every end in a normalised schedule parses to a count that is not negative |
| Schedule.Contains | src/lib/schedule.ts:60-62 | no ensures of its own: the half-open test `start <= now < end` on the read minute counts, used by `GetCurrentPeriod` and `GetCurrentPeriodFirst` |
| Schedule.GetCurrentPeriod | src/lib/schedule.ts:55-65 | the result is empty exactly when no period contains the minute in `[start, end)`; otherwise it is a listed period that contains it |
| Schedule.GetCurrentPeriodFirst | src/lib/schedule.ts:59-63 | the result is the first period in list order that contains the minute |
| Schedule.ParsedEnds | src/lib/schedule.ts:74-75 | no more minute counts than periods, and it holds exactly the minute counts of the ends that parse |
| Schedule.ParsedEndsOne | src/lib/schedule.ts:74-75 | one period gives its end's minute count, or nothing when the end is `NaN` |
| Schedule.ParsedEndsAppend | src/lib/schedule.ts:74-75 | the ends of a concatenation are the ends of each part in turn, so with `ParsedEndsOne` the list keeps the periods' order and repetitions |
| Schedule.NextBellDate | src/lib/schedule.ts:67-71 | there is no bell exactly when the schedule is empty |
| Schedule.SortedHeadIsMinimum | src/lib/schedule.ts:77-80 | the head of the numerically sorted list is its least element |
| Schedule.NextBellToday | src/lib/schedule.ts:74-84 | with an end later than the current minute, the bell is today at the least such end |
| Schedule.NextBellTomorrow | src/lib/schedule.ts:86-93 | with no end later than the current minute, the bell is tomorrow at the least end |
| Schedule.NextBellInvalid | src/lib/schedule.ts:86-93 | when no end parses, the result is the invalid date |
| Schedule.NextBellWholeMinute | src/lib/schedule.ts:67-94 | a valid bell instant is at a whole minute |
| Schedule.NextBellAfterNow | src/lib/schedule.ts:67-94 | on a non-empty schedule whose ends parse to counts that are not negative, the bell is strictly after `now` |
| Schedule.NextBellEarliest | src/lib/schedule.ts:67-94 | with every end inside the day, no end instant on any day lies between `now` and the bell |
| Schedule.NextBellPastMidnight | src/lib/schedule.ts:74-84 | an end past midnight counts as today and is chosen over an earlier bell tomorrow |
| Schedule.GetTimeRemaining | src/lib/schedule.ts:96-105 | `diffMs` is the difference; days are not negative, hours are below 24, minutes and seconds below 60, and together they make the whole seconds of the clamped difference |
| Schedule.RemainingWhenDue | src/lib/schedule.ts:98 | a target now or in the past leaves zero in every field |
| Schedule.FormatHMS | src/lib/schedule.ts:107-116 | no ensures of its own: its contract is stated by `FormatHMSFields` and `FormatHMSLength` |
| Schedule.FormatHMSFields | src/lib/schedule.ts:107-116 | the text is three colon-separated fields that read back as the three numbers |
| Schedule.FormatHMSLength | src/lib/schedule.ts:107-116 | with each number in 0..99 the text is eight characters |
| Countdown.Due | src/components/Countdown.tsx:37-39 | no ensures of its own: a ring needs a target that is a valid date, not after `now`, and the sound on; `Rings` and `ArmedNotDue` state its use |
| Countdown.Rings | src/components/Countdown.tsx:36-40 | a run rings at most once, rings exactly when the target is a date that is due and the sound is on, and never rings with the sound off |
| Countdown.Rearm | src/components/Countdown.tsx:42-43 | no ensures of its own: the target left by the effects, whose contract is stated by `RearmAfterRing` and `RearmArmed` |
| Countdown.RearmAfterRing | src/components/Countdown.tsx:42-43 | after a ring, the new target is strictly later than one second past `now` and later than the target that rang |
| Countdown.ArmedNotDue | src/components/Countdown.tsx:23-46 | a target armed from `now` or `now + 1000` is not due, so the effect that runs again on it stays quiet |
| Countdown.RearmArmed | src/components/Countdown.tsx:23-46 | the target after the effects stays armed, and is empty exactly when the schedule is |
| Countdown.RemainingLabel | src/components/Countdown.tsx:53-62 | "Loading..." while loading, then "No bells scheduled" without a target, then the time label of the target |
| Countdown.TimeLabel | src/components/Countdown.tsx:56-61 | no ensures of its own: its contract is stated by `TimeLabelFields`, `TimeLabelAgrees` and `TimeLabelPastADay` |
| Countdown.TimeLabelFields | src/components/Countdown.tsx:56-61 | the label is hours, minutes below 60 and seconds below 60 that make the whole seconds left, or zero once due |
| Countdown.TimeLabelAgrees | src/components/Countdown.tsx:56-61 | the label holds the fields of `getTimeRemaining` with the days folded into the hours |
| Countdown.TimeLabelPastADay | src/components/Countdown.tsx:58 | a bell a day or more away shows an hour field of at least 24 |
| Countdown.CurrentPeriodName | src/components/Countdown.tsx:48-51 | the dash when no period contains the current minute |
| Countdown.CurrentPeriodNameFirst | src/components/Countdown.tsx:48-51 | otherwise the name of the first period in list order that contains it |
| Countdown.BellLoop.RemainingText | src/components/Countdown.tsx:53-62 | no ensures of its own: the remaining label of the panel's state, stated by `RemainingLabel` |
| Countdown.BellLoop.PeriodText | src/components/Countdown.tsx:48-51 | no ensures of its own: the current period's name for the panel's state, stated by `CurrentPeriodName` and `CurrentPeriodNameFirst` |
| Countdown.BellLoop.constructor | src/components/Countdown.tsx:18-29 | mounting arms the next bell from the start instant, with the sound off, loading on and nothing played |
| Countdown.BellLoop.Tick | src/components/Countdown.tsx:23-46 | a tick sets `now`, rings when the previous target is due and the sound is on, and leaves the next bell from `now`, or from one second later after a ring; the target is empty exactly when the schedule is |
| Countdown.BellLoop.SetSchedule | src/components/Countdown.tsx:23-46 | a new schedule re-runs both effects at the same `now`, with the same outcome as a tick |
| Countdown.BellLoop.Toggle | src/components/Countdown.tsx:80-85 | turning the sound on logs an unlock first and turning it off does not; `enabled` is negated and the firing effect runs again |
| Countdown.BellLoop.LoadingDone | src/components/Countdown.tsx:27 | loading ends and nothing else changes |
| Countdown.BellLoop.TestBell | src/components/Countdown.tsx:107 | the test button logs a ring whatever the sound switch says, and nothing else changes |
| Countdown.BellLoop.Fire | src/components/Countdown.tsx:36-46 | one run of the firing effect logs a ring exactly when due and leaves the re-armed or queued target |
| ScheduleEditor.ClockText | src/components/ScheduleEditor.tsx:21-22 | no ensures of its own: its contract is stated by `ClockTextReads`, `ClockTextFields`, `ClockTextInDay` and `ClockTextNotWrapped` |
| ScheduleEditor.CreateEmptyPeriod | src/components/ScheduleEditor.tsx:13-24 | no ensures of its own: its contract is stated by `EmptyPeriodStart` and, for its end, `ClockTextReads` and `ClockTextNotWrapped` |
| ScheduleEditor.ClockTextReads | src/components/ScheduleEditor.tsx:21-22 | a minute count that is not negative reads back from its text, past midnight too |
| ScheduleEditor.ClockTextFields | src/components/ScheduleEditor.tsx:21-22 | the text is an hour field of at least two digits and a minute field of exactly two, holding the whole hours and the minutes left over |
| ScheduleEditor.ClockTextInDay | src/components/ScheduleEditor.tsx:21 | within a day the text is the one `minutesToTimeString` writes |
| ScheduleEditor.EmptyPeriodStart | src/components/ScheduleEditor.tsx:13-24 | the empty period has the given id, an empty name and the clock time as its start |
| ScheduleEditor.ClockTextNotWrapped | src/components/ScheduleEditor.tsx:16-22 | an end at or past 24:00 is not wrapped: it differs from the text of `minutesToTimeString` |
| ScheduleEditor.ModalMinutes | src/components/ScheduleEditor.tsx:52-53 | no ensures of its own: its contract is stated by `ModalMinutesAgree` and, for a cleared field, `AddWithClearedStart` |
| ScheduleEditor.ModalMinutesAgree | src/components/ScheduleEditor.tsx:52-53 | for an `HH:MM` text the modal's minute count is the one `timeStringToMinutes` gives |
| ScheduleEditor.AddAccepted | src/components/ScheduleEditor.tsx:54 | no ensures of its own: the guard, whose contract is stated by `AcceptedIff` and `AddWithClearedStart` |
| ScheduleEditor.AddPeriod | src/components/ScheduleEditor.tsx:51-66 | no ensures of its own: its contract is stated by `AddRejectsBackwards`, `AddedPeriodAppended`, `AddedPeriodShown` and `AddWithClearedStart` |
| ScheduleEditor.AcceptedIff | src/components/ScheduleEditor.tsx:54-57 | with two `HH:MM` times the guard lets the period through exactly when the end is after the start |
| ScheduleEditor.AddRejectsBackwards | src/components/ScheduleEditor.tsx:52-57 | an end not after the start leaves the draft as it was |
| ScheduleEditor.NewPeriod | src/components/ScheduleEditor.tsx:58-63 | the new period keeps the id and both times verbatim, with the trimmed name or `Untitled` when that is empty |
| ScheduleEditor.NewPeriodNamed | src/components/ScheduleEditor.tsx:60 | the new name is never blank |
| ScheduleEditor.AddedPeriodAppended | src/components/ScheduleEditor.tsx:58-64 | an accepted period is appended once at the end, the earlier entries unchanged |
| ScheduleEditor.AddedPeriodShown | src/components/ScheduleEditor.tsx:58-64 | an accepted period with `HH:MM` times is in the list shown |
| ScheduleEditor.NewPeriodValid | src/components/ScheduleEditor.tsx:58-63 | a period built from two `HH:MM` times passes normalisation's filter |
| ScheduleEditor.AddWithClearedStart | src/components/ScheduleEditor.tsx:52-64 | a cleared start field lets the period into the draft, yet the normalised list is unchanged |
| ScheduleEditor.WithField | src/components/ScheduleEditor.tsx:69 | the spread sets the named field and keeps the other three |
| ScheduleEditor.Updated | src/components/ScheduleEditor.tsx:69 | no ensures of its own: the callback of the map, stated through `WithField` and `UpdateField` |
| ScheduleEditor.UpdateField | src/components/ScheduleEditor.tsx:68-70 | same length and order, the named field of each period with that id set, every other field and period unchanged |
| ScheduleEditor.UpdateFieldAbsent | src/components/ScheduleEditor.tsx:68-70 | without a period of that id the draft is unchanged |
| ScheduleEditor.UpdateFieldIdempotent | src/components/ScheduleEditor.tsx:68-70 | applying the same update twice is applying it once |
| ScheduleEditor.OtherId | src/components/ScheduleEditor.tsx:73 | no ensures of its own: the callback of the filter, stated through `Remove` |
| ScheduleEditor.Remove | src/components/ScheduleEditor.tsx:72-74 | a period stays exactly when it was in the draft with another id |
| ScheduleEditor.RemoveAppend | src/components/ScheduleEditor.tsx:72-74 | removal distributes over concatenation, so the order of what stays is kept |
| ScheduleEditor.RemoveAbsent | src/components/ScheduleEditor.tsx:72-74 | without a period of that id the draft is unchanged |
| ScheduleEditor.RemoveIdempotent | src/components/ScheduleEditor.tsx:72-74 | removing twice is removing once |
| ScheduleEditor.RemoveLength | src/components/ScheduleEditor.tsx:72-74 | exactly the periods with that id are dropped |
| ScheduleEditor.Propagate | src/components/ScheduleEditor.tsx:77-82 | `onChange` is called exactly when the normalised draft differs from the value, and then with the normalised draft |
| ScheduleEditor.PropagateSettles | src/components/ScheduleEditor.tsx:77-82 | once the parent normalises what it was sent and passes it back, the next run sends nothing, with the draft unchanged (the run as intended; see `EditorPingPong` for the sync effect as written) |
| ScheduleEditor.ParentValue | src/components/ScheduleEditor.tsx:77-82 | the parent's value stays when nothing is sent, and becomes the normalised draft when it is (the page normalises again, to the same list) |
| ScheduleEditor.CommitAsWritten | src/components/ScheduleEditor.tsx:36-41 | no ensures of its own: one commit of the sync and propagate effects as written; see `EditorPingPong` |
| ScheduleEditor.EditorPingPong | src/components/ScheduleEditor.tsx:36-41 | after an edit that changes the normalised schedule, the draft is reset to the old value while the edit goes up, and every later commit swaps draft and value |
| ScheduleEditor.EditorPingPongOnFirstPeriod | src/components/ScheduleEditor.tsx:36-41 | the same swap from an empty schedule with one valid period added |
| ScheduleEditor.CommitOnValue | src/components/ScheduleEditor.tsx:36-41 | no ensures of its own: one commit with the sync effect run only on a new value; see `CorrectedCommitSettles` |
| ScheduleEditor.CorrectedCommitSettles | src/components/ScheduleEditor.tsx:36-41 | with the sync effect run only on a new value, after two commits the value and the list shown are the normalised edit, and further commits change nothing |
| ScheduleEditor.Editor.constructor | src/components/ScheduleEditor.tsx:27 | the draft starts as the parent's value |
| ScheduleEditor.Editor.Shown | src/components/ScheduleEditor.tsx:33 | the list shown holds exactly the draft's periods that normalisation keeps |
| ScheduleEditor.Editor.Add | src/components/ScheduleEditor.tsx:51-66 | the draft becomes the guarded append, the value is untouched |
| ScheduleEditor.Editor.Update | src/components/ScheduleEditor.tsx:68-70 | the draft becomes the field update, the value is untouched |
| ScheduleEditor.Editor.RemovePeriod | src/components/ScheduleEditor.tsx:72-74 | the draft becomes the removal, the value is untouched |
| ScheduleEditor.Editor.PropagateChange | src/components/ScheduleEditor.tsx:77-82 | what is sent upward is the draft's propagation against the value |
| ScheduleEditor.Editor.Receive | src/components/ScheduleEditor.tsx:36-41 | a new value from the parent becomes the draft: the sync effect's run after a change of `value` (see "## Left out" for its runs after an edit) |

## Left out

- The bell player (`src/lib/bell.ts`): Web Audio, fetching and decoding a
  sound file, and floating-point envelopes. The panel's calls on it are
  logged as `Unlock` and `Ring` events. The `await` before `setEnabled` is
  taken to finish.
- The screen wake lock (`src/lib/useWakeLock.ts`), storage
  (`src/lib/storage.ts`), the page layout and wiring (`src/app/`), and the
  schedule preview (`src/components/SchedulePreview.tsx`) are not part of
  this model. The page's one piece of logic, normalise-then-save in
  `onChange` (`src/app/page.tsx:50-54`), is `NormalizeSchedule`, which
  `PropagateSettles` uses.
- Markup, styles, the modal's open and close state, and the alert shown
  when the guard rejects.
- React's scheduling. The 250 ms interval is the caller of
  `BellLoop.Tick`. The 100 ms timer is `BellLoop.LoadingDone`. Each step
  runs the firing effect once. React would run it once more after a
  re-arm, and `Countdown.ArmedNotDue` shows that run cannot ring on a
  schedule whose ends are not negative, which every normalised schedule
  is.
- Editor.Receive: models the sync effect (`ScheduleEditor.tsx:36-41`)
  only in the run after a change of `value`. As written, the effect also
  runs after every edit of the draft and resets the draft to the value.
  An edit that changes the normalised schedule is then never settled:
  draft and value swap on every commit. `CommitAsWritten` and
  `EditorPingPong` state that swap. `Editor`'s methods, and
  `PropagateSettles`, describe the evidently intended behaviour,
  `CommitOnValue`, not the page as written.
- `JSON.stringify` comparison is sequence equality of periods.
- The clock and `crypto.randomUUID`: the current instant and the new id
  are parameters.
- The `en-US` `toLocaleTimeString` label of the next bell
  (`Countdown.tsx:64-67`): its output depends on the locale data.
- Time zones and daylight saving time: every day is 86 400 000 ms.
- Strings are sequences of Unicode characters. JavaScript's `slice`,
  `length` and `padStart` count UTF-16 code units, so the two differ on
  characters outside the Basic Multilingual Plane.
- Floating point: minute counts and instants are unbounded integers, so
  the rounding of numbers beyond 2^53 and `Infinity` are not modelled.
- SortSchedule: a start with no colon whose text parses (`"12"`) reads as
  `NaN`, and the model sorts it as minute 0. The code's comparator then
  returns `NaN`, and the order this gives is left to the JavaScript
  engine. The model's only caller, `NormalizeSchedule`, drops such periods
  before sorting (`schedule.ts:49-52`), so the normalised result is not
  affected.
- NextBellDate: when no end is later today and some ends are `NaN` while
  others parse, the model rings tomorrow at the least end that parses.
  The code sorts the `NaN`s together with the numbers using a comparator
  that returns `NaN`, and the order that gives is left to the JavaScript
  engine. A normalised schedule has no `NaN` end.
- EmptyPeriodStart: stated for the default duration of 45 minutes, the only
  one `openAddModal` uses (`ScheduleEditor.tsx:44`); the end of any empty
  period is covered by `ClockTextReads` and `ClockTextNotWrapped`.

## Findings

| source | as written | input that shows it | evidently intended | confidence | as-written member | corrected member |
|---|---|---|---|---|---|---|
| src/components/ScheduleEditor.tsx:36-41 | the sync effect depends on `[value, draft]`, so it also runs after an edit: it resets the draft to the old value while the propagate effect sends the edit up, and from then on draft and value swap on every commit | an empty schedule, then one valid period added from the modal | the draft follows the parent's value only when that value changes ("when parent value changes"), so the edit is sent once and both settle on it | medium, not executed | ScheduleEditor.EditorPingPong | ScheduleEditor.CorrectedCommitSettles |
