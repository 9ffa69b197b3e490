/** The record shapes of the board and the two domain helpers that go with
    them: the weekly availability total and duration normalisation. */
module Types {
  import opened Wrappers

  /** The weekday keys of a member's availability. */
  datatype DayKey = Mon | Tue | Wed | Thu | Fri | Sat | Sun

  /** `DAY_KEYS`: every weekday once, Monday first. */
  const DAY_KEYS: seq<DayKey> := [Mon, Tue, Wed, Thu, Fri, Sat, Sun]

  /** Minutes available per weekday. A day without an entry counts as 0. */
  type Availability = map<DayKey, int>

  /** A task's business category tag; treated as an open set of names. */
  type BusinessKey = string

  /** A number as JavaScript sees it: finite, NaN, or an infinity. */
  datatype Num = Finite(value: real) | NaN | Infinity(negative: bool)

  /** A period; `labelText` is the source's `label` field (`label` is a Dafny keyword). */
  datatype Period = Period(id: string, startDate: string, endDate: string, labelText: string, createdAt: int)

  /** A task. `assignedTo` is `None` when the field is absent; `order` and
      `createdAt` are `None` when missing or not a finite number. */
  datatype Task = Task(
    id: string,
    title: string,
    description: string,
    minutes: int,
    business: BusinessKey,
    important: bool,
    assignedTo: Option<string>,
    order: Option<int>,
    createdAt: Option<int>)

  datatype Member = Member(
    id: string,
    name: string,
    availabilityByDay: Availability,
    order: Option<int>,
    createdAt: Option<int>)

  /** JavaScript truthiness of an optional id: present and not empty. */
  predicate IsTruthy(o: Option<string>) {
    o.Some? && o.value != ""
  }

  function TaskId(t: Task): string { t.id }
  function MemberId(m: Member): string { m.id }

  /** The value one day contributes: a missing entry reads as 0. */
  function DayMinutes(a: Availability, k: DayKey): int {
    if k in a then a[k] else 0
  }

  /** Left fold of the day values of `keys`, as `reduce` does. */
  function SumDays(a: Availability, keys: seq<DayKey>): int
    decreases |keys|
  {
    if keys == [] then 0 else SumDays(a, keys[..|keys| - 1]) + DayMinutes(a, keys[|keys| - 1])
  }

  /** `sumAvailabilityMinutes`: the member's capacity for the period. */
  function SumAvailabilityMinutes(m: Member): int {
    SumDays(m.availabilityByDay, DAY_KEYS)
  }

  lemma DayKeysComplete()
    ensures |DAY_KEYS| == 7
    ensures forall k: DayKey :: k in DAY_KEYS
    ensures forall i, j :: 0 <= i < j < |DAY_KEYS| ==> DAY_KEYS[i] != DAY_KEYS[j]
  {
    forall k: DayKey ensures k in DAY_KEYS {
      match k
      case Mon => assert DAY_KEYS[0] == k;
      case Tue => assert DAY_KEYS[1] == k;
      case Wed => assert DAY_KEYS[2] == k;
      case Thu => assert DAY_KEYS[3] == k;
      case Fri => assert DAY_KEYS[4] == k;
      case Sat => assert DAY_KEYS[5] == k;
      case Sun => assert DAY_KEYS[6] == k;
    }
  }

  lemma SumDaysSnoc(a: Availability, s: seq<DayKey>, d: DayKey)
    ensures SumDays(a, s + [d]) == SumDays(a, s) + DayMinutes(a, d)
  {
    assert (s + [d])[..|s|] == s;
  }

  /** The total is exactly the seven weekday values and nothing else. */
  lemma SumAvailabilityExplicit(m: Member)
    ensures var a := m.availabilityByDay;
      SumAvailabilityMinutes(m)
      == DayMinutes(a, Mon) + DayMinutes(a, Tue) + DayMinutes(a, Wed) + DayMinutes(a, Thu)
       + DayMinutes(a, Fri) + DayMinutes(a, Sat) + DayMinutes(a, Sun)
  {
    SumDaysSix(m.availabilityByDay, Mon, Tue, Wed, Thu, Fri, Sat);
    SumDaysSnoc(m.availabilityByDay, [Mon, Tue, Wed, Thu, Fri, Sat], Sun);
    assert [Mon, Tue, Wed, Thu, Fri, Sat] + [Sun] == DAY_KEYS;
  }

  lemma SumAvailabilityNonNegative(m: Member)
    requires forall k :: DayMinutes(m.availabilityByDay, k) >= 0
    ensures SumAvailabilityMinutes(m) >= 0
  {
    SumAvailabilityExplicit(m);
  }

  /** The six weekdays other than `k`, in `DAY_KEYS` order. */
  function OtherDays(k: DayKey): (r: seq<DayKey>)
    ensures |r| == 6 && k !in r
  {
    match k
    case Mon => [Tue, Wed, Thu, Fri, Sat, Sun]
    case Tue => [Mon, Wed, Thu, Fri, Sat, Sun]
    case Wed => [Mon, Tue, Thu, Fri, Sat, Sun]
    case Thu => [Mon, Tue, Wed, Fri, Sat, Sun]
    case Fri => [Mon, Tue, Wed, Thu, Sat, Sun]
    case Sat => [Mon, Tue, Wed, Thu, Fri, Sun]
    case Sun => [Mon, Tue, Wed, Thu, Fri, Sat]
  }

  lemma SumDaysSix(a: Availability, d1: DayKey, d2: DayKey, d3: DayKey, d4: DayKey, d5: DayKey, d6: DayKey)
    ensures SumDays(a, [d1, d2, d3, d4, d5, d6])
      == DayMinutes(a, d1) + DayMinutes(a, d2) + DayMinutes(a, d3)
       + DayMinutes(a, d4) + DayMinutes(a, d5) + DayMinutes(a, d6)
  {
    var s1 := [d1];
    var s2 := s1 + [d2];
    var s3 := s2 + [d3];
    var s4 := s3 + [d4];
    var s5 := s4 + [d5];
    var s6 := s5 + [d6];
    SumDaysSnoc(a, [], d1);
    assert [] + [d1] == s1;
    SumDaysSnoc(a, s1, d2);
    SumDaysSnoc(a, s2, d3);
    SumDaysSnoc(a, s3, d4);
    SumDaysSnoc(a, s4, d5);
    SumDaysSnoc(a, s5, d6);
    assert s6 == [d1, d2, d3, d4, d5, d6];
  }

  /** The total is one day's value plus the total of the other six. */
  lemma SumAvailabilitySplit(m: Member, k: DayKey)
    ensures SumAvailabilityMinutes(m)
      == DayMinutes(m.availabilityByDay, k) + SumDays(m.availabilityByDay, OtherDays(k))
  {
    var a := m.availabilityByDay;
    SumAvailabilityExplicit(m);
    var o := OtherDays(k);
    SumDaysSix(a, o[0], o[1], o[2], o[3], o[4], o[5]);
    assert o == [o[0], o[1], o[2], o[3], o[4], o[5]];
  }

  /** Setting one day to `v` moves the total by exactly the difference. */
  lemma SumAvailabilityUpdate(m: Member, k: DayKey, v: int)
    ensures var m' := m.(availabilityByDay := m.availabilityByDay[k := v]);
      SumAvailabilityMinutes(m') == SumAvailabilityMinutes(m) - DayMinutes(m.availabilityByDay, k) + v
  {
    var m' := m.(availabilityByDay := m.availabilityByDay[k := v]);
    SumAvailabilityExplicit(m);
    SumAvailabilityExplicit(m');
  }

  /** `minutes`: a duration normalised to a non-negative whole number of
      minutes. NaN, the infinities and negative numbers give 0; anything
      else is rounded to the nearest integer, halves rounding up
      (`Math.round`). */
  function Minutes(n: Num): (r: int)
    ensures r >= 0
    ensures !n.Finite? || n.value < 0.0 ==> r == 0
    ensures n.Finite? && n.value >= 0.0 ==> r as real - 0.5 <= n.value < r as real + 0.5
  {
    if !n.Finite? || n.value < 0.0 then 0 else (n.value + 0.5).Floor
  }

  /** On a whole number of minutes that is not negative, `minutes` changes nothing. */
  lemma MinutesIdentity(k: int)
    requires k >= 0
    ensures Minutes(Finite(k as real)) == k
  {
  }

  lemma MinutesIdempotent(n: Num)
    ensures Minutes(Finite(Minutes(n) as real)) == Minutes(n)
  {
    MinutesIdentity(Minutes(n));
  }
}
