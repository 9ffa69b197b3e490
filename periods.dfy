/** Periods: the deterministic id and label of a date range, the
    Monday-to-Sunday week around a weekday, and the demo-mode upsert. */
module Periods {
  import opened Types
  import opened Text
  import opened Lists

  /** `periodId`: `"<start>__<end>"`. */
  function PeriodId(start: string, end: string): string {
    start + "__" + end
  }

  /** `formatLabel`: `"<start> ~ <end>"`. */
  function FormatLabel(start: string, end: string): string {
    start + " ~ " + end
  }

  predicate NoUnderscore(s: string) {
    forall k :: 0 <= k < |s| ==> s[k] != '_'
  }

  predicate NoSpace(s: string) {
    forall k :: 0 <= k < |s| ==> s[k] != ' '
  }

  lemma PeriodIdAt(start: string, end: string, k: int)
    requires 0 <= k < |start| + 2 + |end|
    ensures PeriodId(start, end)[k]
      == if k < |start| then start[k] else if k < |start| + 2 then '_' else end[k - |start| - 2]
  {
  }

  /** Start dates without `_` (every `YYYY-MM-DD` date) make the id
      injective: the id determines both dates. */
  lemma PeriodIdInjective(s1: string, e1: string, s2: string, e2: string)
    requires NoUnderscore(s1) && NoUnderscore(s2)
    requires PeriodId(s1, e1) == PeriodId(s2, e2)
    ensures s1 == s2 && e1 == e2
  {
    var id := PeriodId(s1, e1);
    if |s1| != |s2| {
      var k := if |s1| < |s2| then |s1| else |s2|;
      PeriodIdAt(s1, e1, k);
      PeriodIdAt(s2, e2, k);
      assert false;
    }
    assert s1 == id[..|s1|] == s2;
    assert e1 == id[|s1| + 2..] == e2;
  }

  /** The label is the start date, `" ~ "`, then the end date. */
  lemma FormatLabelParts(start: string, end: string)
    ensures var r := FormatLabel(start, end);
      && |r| == |start| + 3 + |end|
      && r[..|start|] == start && r[|start|..|start| + 3] == " ~ " && r[|start| + 3..] == end
  {
    var r := FormatLabel(start, end);
    assert r == start + " ~ " + end;
  }

  lemma FormatLabelAt(start: string, end: string, k: int)
    requires 0 <= k < |start| + 3 + |end|
    ensures FormatLabel(start, end)[k]
      == if k < |start| then start[k] else if k < |start| + 3 then " ~ "[k - |start|] else end[k - |start| - 3]
  {
  }

  /** Start dates without spaces (every `YYYY-MM-DD` date) make the label
      injective: the label determines both dates. */
  lemma FormatLabelInjective(s1: string, e1: string, s2: string, e2: string)
    requires NoSpace(s1) && NoSpace(s2)
    requires FormatLabel(s1, e1) == FormatLabel(s2, e2)
    ensures s1 == s2 && e1 == e2
  {
    var r := FormatLabel(s1, e1);
    if |s1| != |s2| {
      var k := if |s1| < |s2| then |s1| else |s2|;
      FormatLabelAt(s1, e1, k);
      FormatLabelAt(s2, e2, k);
      assert false;
    }
    FormatLabelParts(s1, e1);
    FormatLabelParts(s2, e2);
  }

  /** The day offset from a date to the Monday of its week, where `day` is
      JavaScript's `getDay()` (0 is Sunday): the week runs Monday to
      Sunday, so a Sunday goes back six days. */
  function MondayOffset(day: int): (r: int)
    requires 0 <= day <= 6
    ensures -6 <= r <= 0
    ensures (day + r) % 7 == 1
  {
    (if day == 0 then -6 else 1) - day
  }

  /** No other offset in the last seven days lands on a Monday. */
  lemma MondayOffsetUnique(day: int, r: int)
    requires 0 <= day <= 6
    requires -6 <= r <= 0 && (day + r) % 7 == 1
    ensures r == MondayOffset(day)
  {
  }

  /** `sundayOfWeek`: six days after that Monday. */
  function SundayOffset(day: int): (r: int)
    requires 0 <= day <= 6
    ensures 0 <= r <= 6
    ensures (day + r) % 7 == 0
  {
    MondayOffset(day) + 6
  }

  /** The period record `createPeriod` builds for a date range. */
  function MakePeriod(start: string, end: string, now: int): Period {
    Period(PeriodId(start, end), start, end, FormatLabel(start, end), now)
  }

  /** A period's id and label depend only on its dates: creating the same
      range at another time yields the same id and label, and for start
      dates without `_` two different ranges never share an id. */
  lemma MakePeriodIds(s1: string, e1: string, n1: int, s2: string, e2: string, n2: int)
    ensures s1 == s2 && e1 == e2 ==>
      MakePeriod(s1, e1, n1).id == MakePeriod(s2, e2, n2).id
      && MakePeriod(s1, e1, n1).labelText == MakePeriod(s2, e2, n2).labelText
    ensures NoUnderscore(s1) && NoUnderscore(s2) && (s1 != s2 || e1 != e2) ==>
      MakePeriod(s1, e1, n1).id != MakePeriod(s2, e2, n2).id
  {
    if NoUnderscore(s1) && NoUnderscore(s2) && PeriodId(s1, e1) == PeriodId(s2, e2) {
      PeriodIdInjective(s1, e1, s2, e2);
    }
  }

  /** The date check of `createPeriod`: the end lies before the start.
      Dates are compared as strings, which for zero-padded `YYYY-MM-DD`
      dates is calendar order. */
  predicate EndBeforeStart(start: string, end: string) {
    LexLess(end, start)
  }

  /** A one-day period passes the date check, and of a range and its reverse at
      most one is refused. */
  lemma EndBeforeStartOrder(start: string, end: string)
    ensures !EndBeforeStart(start, start)
    ensures EndBeforeStart(start, end) ==> !EndBeforeStart(end, start)
  {
    LexLessIrreflexive(start);
    if EndBeforeStart(start, end) {
      LexLessAsymmetric(end, start);
    }
  }

  /** The demo-mode upsert: the new period first, then the old list
      without any period of the same id. */
  function UpsertPeriod(periods: seq<Period>, p: Period): (r: seq<Period>)
    ensures |r| >= 1 && r[0] == p
    ensures forall i :: 0 < i < |r| ==> r[i].id != p.id
    ensures forall i :: 0 < i < |r| ==> r[i] in periods
    ensures forall i :: 0 <= i < |periods| && periods[i].id != p.id ==> periods[i] in r
  {
    [p] + WithoutId(periods, PeriodIdOf, p.id)
  }

  function PeriodIdOf(p: Period): string { p.id }

  /** Creating the same range twice leaves one period of that id: the
      second upsert only replaces the record of the first. */
  lemma UpsertPeriodIdempotent(periods: seq<Period>, p: Period, q: Period)
    requires p.id == q.id
    ensures UpsertPeriod(UpsertPeriod(periods, p), q) == UpsertPeriod(periods, q)
  {
    var rest := WithoutId(periods, PeriodIdOf, p.id);
    assert WithoutId([p] + rest, PeriodIdOf, q.id) == WithoutId(rest, PeriodIdOf, q.id) by {
      assert ([p] + rest)[1..] == rest;
    }
    WithoutIdIdempotent(periods, PeriodIdOf, p.id);
  }

  /** `startDate.slice(0, 7)`: the `YYYY-MM` of a period. */
  function YearMonthOf(p: Period): (r: string)
    ensures |r| == if |p.startDate| < 7 then |p.startDate| else 7
    ensures r == p.startDate[..|r|]
  {
    SliceTo(p.startDate, 7)
  }
}
