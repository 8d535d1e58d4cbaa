/** The schedule editor: a draft list of periods that the user edits (add
    from the modal, change one field, remove), shown normalised, and sent
    upward normalised whenever that differs from the parent's value. */
module ScheduleEditor {
  import opened Wrappers
  import opened JsText
  import opened JsArray
  import opened Schedule

  // ---------------------------------------------------------------------------
  // An empty period
  // ---------------------------------------------------------------------------

  /** `${Math.floor(m / 60).toString().padStart(2, '0')}:${(m % 60).toString().padStart(2, '0')}`,
      with a floored hour and a truncated minute. */
  function ClockText(minutes: int): string {
    PadStart(IntToString(minutes / 60), 2) + ":" + PadStart(IntToString(Rem(minutes, 60)), 2)
  }

  /** `createEmptyPeriod(durationMinutes)`, given the id and the clock's
      minute of the day `startMinutes`; the end lies `durationMinutes`
      later, without wrapping at midnight. */
  function CreateEmptyPeriod(id: string, startMinutes: int, durationMinutes: int): Period {
    Period(id, [], ClockText(startMinutes), ClockText(startMinutes + durationMinutes))
  }

  /** A minute count that is not negative reads back from its text, past
      midnight too. */
  lemma ClockTextReads(m: int)
    requires m >= 0
    ensures TimeStringToMinutes(ClockText(m)) == Some(m)
  {
    var hh := PadStart(IntToString(m / 60), 2);
    var mm := PadStart(IntToString(Rem(m, 60)), 2);
    PaddedHasNoColon(m / 60, 2);
    PaddedHasNoColon(Rem(m, 60), 2);
    ParsePadded(m / 60);
    ParsePadded(Rem(m, 60));
    FieldsRead(ClockText(m), hh, mm, m / 60, Rem(m, 60), m);
  }

  /** For a minute count that is not negative, the text is an hour field
      of at least two digits and a minute field of exactly two, around one
      colon, denoting the whole hours and the minutes left over. */
  lemma ClockTextFields(m: int) returns (hh: string, mm: string)
    requires m >= 0
    ensures ClockText(m) == hh + ":" + mm
    ensures |hh| >= 2 && AllDigits(hh, false) && DigitsValue(hh, false) == m / 60
    ensures |mm| == 2 && AllDigits(mm, false) && DigitsValue(mm, false) == m % 60
  {
    hh := PadStart(IntToString(m / 60), 2);
    mm := PadStart(IntToString(Rem(m, 60)), 2);
    PaddedNumeral(m / 60, hh);
    PaddedNumeral(m % 60, mm);
    PadStartTwoDigits(m % 60);
  }

  /** Within a day the text is the one `minutesToTimeString` writes. */
  lemma ClockTextInDay(m: int)
    requires 0 <= m < DayMinutes
    ensures ClockText(m) == MinutesToTimeString(m)
  {
    WrapInRange(m);
  }

  /** The duration `createEmptyPeriod` is called with: its default. */
  const DefaultDuration := 45

  /** The empty period the editor creates starts at the clock time, written
      as `minutesToTimeString` writes it, with an empty name. */
  lemma EmptyPeriodStart(id: string, startMinutes: int)
    requires 0 <= startMinutes < DayMinutes
    ensures var p := CreateEmptyPeriod(id, startMinutes, DefaultDuration);
      p.id == id && p.name == [] && p.start == MinutesToTimeString(startMinutes)
  {
    ClockTextInDay(startMinutes);
  }

  /** A clock text at or past 24:00, such as the end of an empty period
      that runs past midnight, is not wrapped: it differs from the text
      `minutesToTimeString` gives for the same number of minutes. */
  lemma ClockTextNotWrapped(e: int)
    requires e >= DayMinutes
    ensures ClockText(e) != MinutesToTimeString(e)
  {
    ClockTextReads(e);
    MinutesRoundTrip(e);
    TextsDiffer(ClockText(e), MinutesToTimeString(e), e, Wrap(e));
  }

  /** Texts that read as different numbers differ. */
  lemma TextsDiffer(a: string, b: string, x: int, y: int)
    requires TimeStringToMinutes(a) == Some(x) && TimeStringToMinutes(b) == Some(y) && x != y
    ensures a != b
  {
  }

  // ---------------------------------------------------------------------------
  // Adding from the modal
  // ---------------------------------------------------------------------------

  const Untitled: string := "Untitled"

  /** `s.slice(0, k)`. */
  function SliceTo(s: string, k: nat): (r: string)
    ensures |r| == if |s| <= k then |s| else k
  {
    if |s| <= k then s else s[..k]
  }

  /** `s.slice(k)`. */
  function SliceFrom(s: string, k: nat): (r: string)
    ensures |r| == if |s| <= k then 0 else |s| - k
  {
    if |s| <= k then [] else s[k..]
  }

  /** `parseInt(v.slice(0, 2)) * 60 + parseInt(v.slice(3))`; `parseInt`
      without a radix, and `NaN` when either part is. */
  function ModalMinutes(v: string): Option<int> {
    HoursAndMinutes(ParseIntAuto(SliceTo(v, 2)), ParseIntAuto(SliceFrom(v, 3)))
  }

  /** `h * 60 + m`, `NaN` when either is. */
  function HoursAndMinutes(h: Option<int>, m: Option<int>): Option<int> {
    if h.Some? && m.Some? then Some(h.value * 60 + m.value) else None
  }

  /** An `HH:MM` string gives the modal the minute count that
      `timeStringToMinutes` gives. */
  lemma ModalMinutesAgree(v: string)
    requires MatchesHHMM(v)
    ensures ModalMinutes(v) == TimeStringToMinutes(v)
  {
    var total := HoursField(v) * 60 + MinutesField(v);
    ReadsAs(v, total);
    ModalReads(v, total);
  }

  lemma ModalReads(v: string, total: int)
    requires MatchesHHMM(v) && total == HoursField(v) * 60 + MinutesField(v)
    ensures ModalMinutes(v) == Some(total)
  {
    var hh := SliceTo(v, 2);
    var mm := SliceFrom(v, 3);
    assert hh == v[..2] && mm == v[3..];
    assert hh[0] == v[0] && hh[1] == v[1] && mm[0] == v[3] && mm[1] == v[4];
    TwoDigitAuto(hh, HoursField(v));
    TwoDigitAuto(mm, MinutesField(v));
    ModalOfFields(ParseIntAuto(hh), ParseIntAuto(mm), HoursField(v), MinutesField(v), total);
  }

  lemma ModalOfFields(a: Option<int>, b: Option<int>, h: int, m: int, total: int)
    requires a == Some(h) && b == Some(m) && total == h * 60 + m
    ensures HoursAndMinutes(a, b) == Some(total)
  {
  }

  lemma TwoDigitAuto(d: string, value: int)
    requires |d| == 2 && IsDigit(d[0]) && IsDigit(d[1])
    requires value == DigitValue(d[0], false) * 10 + DigitValue(d[1], false)
    ensures ParseIntAuto(d) == Some(value)
  {
    assert d + [] == d;
    TwoDigitsValue(d);
    PaddedHasNoHexPrefix(d, []);
    ParseIntOfDigits(d, [], true, value);
  }

  /** The guard `endMinutes <= startMinutes` rejects; a `NaN` on either
      side makes the comparison false, so it lets the period through. */
  predicate AddAccepted(start: string, end: string) {
    match (ModalMinutes(start), ModalMinutes(end))
    case (Some(a), Some(b)) => !(b <= a)
    case _ => true
  }

  /** The period the modal builds. `addName.trim() || "Untitled"`: the
      empty string is falsy. */
  function NewPeriod(id: string, name: string, start: string, end: string): (r: Period)
    ensures r.id == id && r.start == start && r.end == end
    ensures |Trim(name)| > 0 ==> r.name == Trim(name)
    ensures |Trim(name)| == 0 ==> r.name == Untitled
  {
    var trimmed := Trim(name);
    Period(id, if |trimmed| > 0 then trimmed else Untitled, start, end)
  }

  /** The new name is never blank: trimming it again leaves something. */
  lemma NewPeriodNamed(id: string, name: string, start: string, end: string)
    ensures |Trim(NewPeriod(id, name, start, end).name)| > 0
  {
    var trimmed := Trim(name);
    if |trimmed| > 0 {
      NonBlank(trimmed);
    } else {
      UntitledNonBlank();
    }
  }

  /** A string that ends in something other than white space is not blank. */
  lemma NonBlank(n: string)
    requires |n| > 0 && !IsWhiteSpace(n[|n| - 1])
    ensures |Trim(n)| > 0
  {
    TrimEmptyIff(n);
  }

  lemma UntitledNonBlank()
    ensures |Trim(Untitled)| > 0
  {
    assert Untitled[|Untitled| - 1] == 'd';
    NonBlank(Untitled);
  }

  /** `addPeriodFromModal` on the draft. */
  function AddPeriod(draft: seq<Period>, id: string, name: string, start: string, end: string)
    : seq<Period>
  {
    if AddAccepted(start, end) then draft + [NewPeriod(id, name, start, end)] else draft
  }

  /** With two `HH:MM` times the guard compares their minute counts. */
  lemma AcceptedIff(start: string, end: string)
    requires MatchesHHMM(start) && MatchesHHMM(end)
    ensures AddAccepted(start, end)
        <==> HoursField(start) * 60 + MinutesField(start) < HoursField(end) * 60 + MinutesField(end)
  {
    ModalReads(start, HoursField(start) * 60 + MinutesField(start));
    ModalReads(end, HoursField(end) * 60 + MinutesField(end));
  }

  /** Two `HH:MM` times with the end not after the start leave the draft
      as it was. */
  lemma AddRejectsBackwards(draft: seq<Period>, id: string, name: string, start: string, end: string)
    requires MatchesHHMM(start) && MatchesHHMM(end)
    requires HoursField(end) * 60 + MinutesField(end) <= HoursField(start) * 60 + MinutesField(start)
    ensures AddPeriod(draft, id, name, start, end) == draft
  {
    AcceptedIff(start, end);
  }

  /** A period with `HH:MM` times, the end after the start, is appended. */
  lemma AddedPeriodAppended(draft: seq<Period>, id: string, name: string, start: string, end: string)
    requires MatchesHHMM(start) && MatchesHHMM(end)
    requires HoursField(start) * 60 + MinutesField(start) < HoursField(end) * 60 + MinutesField(end)
    ensures AddPeriod(draft, id, name, start, end) == draft + [NewPeriod(id, name, start, end)]
  {
    AcceptedIff(start, end);
  }

  /** ... and it is then shown, and sent upward. */
  lemma AddedPeriodShown(draft: seq<Period>, id: string, name: string, start: string, end: string)
    requires MatchesHHMM(start) && MatchesHHMM(end)
    requires HoursField(start) * 60 + MinutesField(start) < HoursField(end) * 60 + MinutesField(end)
    ensures NewPeriod(id, name, start, end) in NormalizeSchedule(AddPeriod(draft, id, name, start, end))
  {
    AddedPeriodAppended(draft, id, name, start, end);
    NewPeriodValid(id, name, start, end);
    AppendedValidShown(draft, NewPeriod(id, name, start, end));
  }

  /** A period the modal builds from two `HH:MM` times is one that
      normalisation keeps. */
  lemma NewPeriodValid(id: string, name: string, start: string, end: string)
    requires MatchesHHMM(start) && MatchesHHMM(end)
    ensures IsValidPeriod(NewPeriod(id, name, start, end))
  {
    NewPeriodNamed(id, name, start, end);
    IsValidTimeIff(start);
    IsValidTimeIff(end);
  }

  lemma AppendedValidShown(draft: seq<Period>, p: Period)
    requires IsValidPeriod(p)
    ensures p in NormalizeSchedule(draft + [p])
  {
    assert p in draft + [p];
  }

  /** A cleared start field reads as `NaN`, so the guard lets the period
      into the draft; normalisation then drops it, and neither the list
      shown nor the value sent upward changes. */
  lemma AddWithClearedStart(draft: seq<Period>, id: string, name: string, end: string)
    ensures AddPeriod(draft, id, name, [], end) == draft + [NewPeriod(id, name, [], end)]
    ensures NormalizeSchedule(AddPeriod(draft, id, name, [], end)) == NormalizeSchedule(draft)
  {
    var p := NewPeriod(id, name, [], end);
    ClearedFieldIsNaN();
    assert AddAccepted([], end);
    assert !IsValidPeriod(p);
    FilterAppend(draft, [p], IsValidPeriod);
    assert Filter([p], IsValidPeriod) == [];
    assert Filter(draft, IsValidPeriod) + [] == Filter(draft, IsValidPeriod);
    NormalizeSameFilter(draft + [p], draft);
  }

  lemma ClearedFieldIsNaN()
    ensures ModalMinutes([]) == None
  {
    assert SliceTo([], 2) == [];
    assert ParseIntAuto([]) == None;
  }

  /** Normalisation sees only the periods the filter keeps. */
  lemma NormalizeSameFilter(a: seq<Period>, b: seq<Period>)
    requires Filter(a, IsValidPeriod) == Filter(b, IsValidPeriod)
    ensures NormalizeSchedule(a) == NormalizeSchedule(b)
  {
  }

  // ---------------------------------------------------------------------------
  // Changing one field
  // ---------------------------------------------------------------------------

  /** The keys of `Period`. */
  datatype Field = Id | Name | Start | End

  /** `p[field]`. */
  function FieldOf(p: Period, f: Field): string {
    match f
    case Id => p.id
    case Name => p.name
    case Start => p.start
    case End => p.end
  }

  /** `{ ...p, [field]: val }`. */
  function WithField(p: Period, f: Field, val: string): (r: Period)
    ensures FieldOf(r, f) == val
    ensures forall g :: g != f ==> FieldOf(r, g) == FieldOf(p, g)
  {
    match f
    case Id => p.(id := val)
    case Name => p.(name := val)
    case Start => p.(start := val)
    case End => p.(end := val)
  }

  /** A period is its four fields. */
  lemma SameFields(p: Period, q: Period)
    requires forall g :: FieldOf(p, g) == FieldOf(q, g)
    ensures p == q
  {
    assert FieldOf(p, Id) == FieldOf(q, Id) && FieldOf(p, Name) == FieldOf(q, Name);
    assert FieldOf(p, Start) == FieldOf(q, Start) && FieldOf(p, End) == FieldOf(q, End);
  }

  /** The callback of `prev.map`. */
  function Updated(p: Period, id: string, f: Field, val: string): Period {
    if p.id == id then WithField(p, f, val) else p
  }

  /** `updateField(id, field, val)` on the draft: the same number of
      periods in the same order, the named field of every period with that
      id set, and nothing else changed. */
  function UpdateField(draft: seq<Period>, id: string, f: Field, val: string): (r: seq<Period>)
    ensures |r| == |draft|
    ensures forall i, g :: 0 <= i < |r| ==>
      FieldOf(r[i], g) == if draft[i].id == id && g == f then val else FieldOf(draft[i], g)
  {
    if |draft| == 0 then []
    else
      var rest := UpdateField(draft[1..], id, f, val);
      assert forall i :: 1 <= i < |draft| ==> draft[i] == draft[1..][i - 1];
      [Updated(draft[0], id, f, val)] + rest
  }

  /** Without a period of that id nothing changes. */
  lemma UpdateFieldAbsent(draft: seq<Period>, id: string, f: Field, val: string)
    requires forall i :: 0 <= i < |draft| ==> draft[i].id != id
    ensures UpdateField(draft, id, f, val) == draft
  {
    var r := UpdateField(draft, id, f, val);
    forall i | 0 <= i < |r| ensures r[i] == draft[i] {
      SameFields(r[i], draft[i]);
    }
  }

  /** Setting the same field to the same value twice is setting it once,
      the id field included. */
  lemma UpdateFieldIdempotent(draft: seq<Period>, id: string, f: Field, val: string)
    ensures UpdateField(UpdateField(draft, id, f, val), id, f, val) == UpdateField(draft, id, f, val)
  {
    var r := UpdateField(draft, id, f, val);
    var r2 := UpdateField(r, id, f, val);
    forall i | 0 <= i < |r| ensures r2[i] == r[i] {
      forall g ensures FieldOf(r2[i], g) == FieldOf(r[i], g) {
        assert r[i].id == FieldOf(r[i], Id);
      }
      SameFields(r2[i], r[i]);
    }
  }

  // ---------------------------------------------------------------------------
  // Removing
  // ---------------------------------------------------------------------------

  /** The callback of `prev.filter`. */
  function OtherId(id: string): Period -> bool { (p: Period) => p.id != id }

  /** `remove(id)` on the draft: every period of that id goes, the others
      stay. */
  function Remove(draft: seq<Period>, id: string): (r: seq<Period>)
    ensures forall p :: p in r <==> p in draft && p.id != id
  {
    var r := Filter(draft, OtherId(id));
    assert forall p :: OtherId(id)(p) == (p.id != id);
    r
  }

  /** Removing distributes over concatenation: the order of what stays is
      kept. */
  lemma RemoveAppend(a: seq<Period>, b: seq<Period>, id: string)
    ensures Remove(a + b, id) == Remove(a, id) + Remove(b, id)
  {
    FilterAppend(a, b, OtherId(id));
  }

  /** Without a period of that id the draft is unchanged. */
  lemma RemoveAbsent(draft: seq<Period>, id: string)
    requires forall i :: 0 <= i < |draft| ==> draft[i].id != id
    ensures Remove(draft, id) == draft
  {
    forall i | 0 <= i < |draft| ensures OtherId(id)(draft[i]) {
    }
    FilterKeepsAll(draft, OtherId(id));
  }

  /** Removing twice is removing once. */
  lemma RemoveIdempotent(draft: seq<Period>, id: string)
    ensures Remove(Remove(draft, id), id) == Remove(draft, id)
  {
    FilterIdempotent(draft, OtherId(id));
  }

  /** The number of periods with id `id`. */
  function CountWithId(s: seq<Period>, id: string): nat {
    if |s| == 0 then 0 else (if s[0].id == id then 1 else 0) + CountWithId(s[1..], id)
  }

  /** Exactly the periods of that id are dropped. */
  lemma {:induction false} RemoveLength(draft: seq<Period>, id: string)
    ensures |Remove(draft, id)| == |draft| - CountWithId(draft, id)
    decreases |draft|
  {
    if |draft| > 0 {
      RemoveLength(draft[1..], id);
      assert OtherId(id)(draft[0]) == (draft[0].id != id);
    }
  }

  // ---------------------------------------------------------------------------
  // Propagating upward
  // ---------------------------------------------------------------------------

  /** The propagate effect: `onChange(normalizeSchedule(draft))` when the
      serialisations differ, modelled as sequence equality; `None` when it
      is not called. */
  function Propagate(draft: seq<Period>, value: seq<Period>): (r: Option<seq<Period>>)
    ensures r.Some? <==> NormalizeSchedule(draft) != value
    ensures r.Some? ==> r.value == NormalizeSchedule(draft)
  {
    var normalized := NormalizeSchedule(draft);
    if normalized != value then Some(normalized) else None
  }

  /** The parent normalises what it receives and passes it back: the next
      run of the effect sends nothing. */
  lemma PropagateSettles(draft: seq<Period>, value: seq<Period>)
    requires Propagate(draft, value).Some?
    ensures Propagate(draft, NormalizeSchedule(Propagate(draft, value).value)) == None
  {
    NormalizeIdempotent(draft);
  }

  // ---------------------------------------------------------------------------
  // The two effects across commits
  // ---------------------------------------------------------------------------

  /** The draft and the parent's value after a commit, and whether the
      value was replaced in it. */
  datatype EditorState = EditorState(draft: seq<Period>, value: seq<Period>, valueChanged: bool)

  /** The parent's value once the propagate effect has run: the page
      normalises what it receives and passes it back as a new array. */
  function ParentValue(st: EditorState): (r: seq<Period>)
    ensures Propagate(st.draft, st.value).None? ==> r == st.value
    ensures Propagate(st.draft, st.value).Some? ==> r == NormalizeSchedule(st.draft)
  {
    match Propagate(st.draft, st.value)
    case Some(sent) =>
      NormalizeIdempotent(st.draft);
      NormalizeSchedule(sent)
    case None => st.value
  }

  /** One commit as written: both effects see the draft and value of the
      render; the sync effect, which depends on `[value, draft]`, runs
      after every edit too and queues the value as the draft. */
  function CommitAsWritten(st: EditorState): EditorState {
    EditorState(if st.value != st.draft then st.value else st.draft, ParentValue(st),
                Propagate(st.draft, st.value).Some?)
  }

  /** One commit with the sync effect run only when the value changed, as
      its comment says it is meant to ("when parent value changes"). */
  function CommitOnValue(st: EditorState): EditorState {
    EditorState(if st.valueChanged && st.value != st.draft then st.value else st.draft, ParentValue(st),
                Propagate(st.draft, st.value).Some?)
  }

  /** As written, an edit whose normalised draft `w` differs from the
      normalised value `v` is never settled: the draft is reset to `v`
      while `w` goes up, and from then on every commit swaps the two. */
  lemma EditorPingPong(v: seq<Period>, edited: seq<Period>)
    requires NormalizeSchedule(v) == v && NormalizeSchedule(edited) != v
    ensures var w := NormalizeSchedule(edited);
      CommitAsWritten(EditorState(edited, v, false)) == EditorState(v, w, true)
      && CommitAsWritten(EditorState(v, w, true)) == EditorState(w, v, true)
      && CommitAsWritten(EditorState(w, v, true)) == EditorState(v, w, true)
  {
    NormalizeIdempotent(edited);
  }

  /** The smallest case: an empty schedule and one period added. */
  lemma EditorPingPongOnFirstPeriod(p: Period)
    requires IsValidPeriod(p)
    ensures CommitAsWritten(EditorState([p], [], false)) == EditorState([], NormalizeSchedule([p]), true)
    ensures CommitAsWritten(EditorState([], NormalizeSchedule([p]), true)) == EditorState(NormalizeSchedule([p]), [], true)
  {
    assert p in [p];
    assert NormalizeSchedule([]) == [];
    EditorPingPong([], [p]);
  }

  /** With the sync effect run only on a new value, an edit is sent once,
      after two commits the value and the list shown are the normalised
      edit, and nothing changes any more. */
  lemma CorrectedCommitSettles(v: seq<Period>, edited: seq<Period>)
    requires NormalizeSchedule(v) == v
    ensures var after := CommitOnValue(CommitOnValue(EditorState(edited, v, false)));
      after.value == NormalizeSchedule(edited)
      && NormalizeSchedule(after.draft) == NormalizeSchedule(edited)
      && CommitOnValue(after) == after
  {
    NormalizeIdempotent(edited);
  }

  // ---------------------------------------------------------------------------
  // The editor
  // ---------------------------------------------------------------------------

  /** The editor's draft and the parent's value it was given. */
  class Editor {
    var draft: seq<Period>
    var value: seq<Period>

    constructor(v: seq<Period>)
      ensures draft == v && value == v
    {
      draft := v;
      value := v;
    }

    /** `sortedDraft`, the list shown. */
    function Shown(): (r: seq<Period>)
      reads this
      ensures forall p :: p in r <==> p in draft && IsValidPeriod(p)
    {
      NormalizeSchedule(draft)
    }

    /** `addPeriodFromModal`: the draft gains the period when the guard
        lets it through. */
    method Add(id: string, name: string, start: string, end: string)
      modifies this
      ensures draft == AddPeriod(old(draft), id, name, start, end)
      ensures value == old(value)
    {
      draft := AddPeriod(draft, id, name, start, end);
    }

    method Update(id: string, f: Field, val: string)
      modifies this
      ensures draft == UpdateField(old(draft), id, f, val)
      ensures value == old(value)
    {
      draft := UpdateField(draft, id, f, val);
    }

    method RemovePeriod(id: string)
      modifies this
      ensures draft == Remove(old(draft), id)
      ensures value == old(value)
    {
      draft := Remove(draft, id);
    }

    /** What the propagate effect passes to `onChange`, if anything. */
    method PropagateChange() returns (sent: Option<seq<Period>>)
      ensures sent == Propagate(draft, value)
    {
      var normalized := NormalizeSchedule(draft);
      if normalized != value {
        sent := Some(normalized);
      } else {
        sent := None;
      }
    }

    /** A new value from the parent (after loading from storage, say): the
        sync effect copies it into the draft when the two differ. This is
        the sync effect run only on a new value, as in `CommitOnValue`;
        the effect as written also runs after every edit
        (`EditorPingPong`). */
    method Receive(v: seq<Period>)
      modifies this
      ensures value == v && draft == v
    {
      value := v;
      if value != draft {
        draft := value;
      }
    }
  }
}
