/** The store's ordering of tasks and members: the comparator
    `sortByOrder`, and the stable sort (`Array.prototype.sort`) every list
    the store writes goes through. */
module SortByOrder {
  import opened Wrappers

  /** What a missing or non-finite `order` counts as. */
  const MISSING_ORDER: int := 999999

  /** The two sort fields of a task or member; `None` is missing or not finite. */
  datatype SortKey = SortKey(order: Option<int>, createdAt: Option<int>)

  function EffectiveOrder(k: SortKey): int {
    k.order.GetOr(MISSING_ORDER)
  }

  function EffectiveCreatedAt(k: SortKey): int {
    k.createdAt.GetOr(0)
  }

  /** `sortByOrder(a, b)`: negative when `a` goes first, positive when `b`
      does, zero on a tie. Order decides first, then `createdAt`. */
  function Compare(a: SortKey, b: SortKey): (r: int)
    ensures r < 0 <==> (EffectiveOrder(a) < EffectiveOrder(b)
      || (EffectiveOrder(a) == EffectiveOrder(b) && EffectiveCreatedAt(a) < EffectiveCreatedAt(b)))
    ensures r == 0 <==> EffectiveOrder(a) == EffectiveOrder(b) && EffectiveCreatedAt(a) == EffectiveCreatedAt(b)
  {
    var ao := EffectiveOrder(a);
    var bo := EffectiveOrder(b);
    if ao != bo then ao - bo else EffectiveCreatedAt(a) - EffectiveCreatedAt(b)
  }

  /** Swapping the arguments flips the sign: the comparator is consistent. */
  lemma CompareAntisymmetric(a: SortKey, b: SortKey)
    ensures Compare(a, b) == -Compare(b, a)
  {
  }

  lemma CompareTransitive(a: SortKey, b: SortKey, c: SortKey)
    requires Compare(a, b) <= 0 && Compare(b, c) <= 0
    ensures Compare(a, c) <= 0
  {
  }

  /** An entity with no order sorts after every entity whose order is
      below the sentinel, whatever the creation times. */
  lemma MissingOrderSortsLast(a: SortKey, b: SortKey)
    requires a.order.Some? && a.order.value < MISSING_ORDER && b.order.None?
    ensures Compare(a, b) < 0
  {
  }

  predicate Leq(a: SortKey, b: SortKey) {
    Compare(a, b) <= 0
  }

  ghost predicate SortedBy<T>(s: seq<T>, key: T -> SortKey) {
    forall i, j :: 0 <= i < j < |s| ==> Leq(key(s[i]), key(s[j]))
  }

  /** Places `x` in front of the first element it does not sort after. */
  function Insert<T>(x: T, s: seq<T>, key: T -> SortKey): (r: seq<T>)
    ensures multiset(r) == multiset(s) + multiset{x}
  {
    if s == [] then [x]
    else if Leq(key(x), key(s[0])) then [x] + s
    else
      assert s == [s[0]] + s[1..];
      [s[0]] + Insert(x, s[1..], key)
  }

  /** Inserting into a sorted list keeps it sorted. */
  lemma {:induction false} InsertSorted<T>(x: T, s: seq<T>, key: T -> SortKey)
    requires SortedBy(s, key)
    ensures SortedBy(Insert(x, s, key), key)
  {
    if s != [] && !Leq(key(x), key(s[0])) {
      var rest := Insert(x, s[1..], key);
      assert SortedBy(s[1..], key);
      InsertSorted(x, s[1..], key);
      assert Compare(key(x), key(s[0])) == -Compare(key(s[0]), key(x));
      LowerBoundRest(s[0], x, s[1..], rest, key);
      SortedCons(s[0], rest, key);
    } else if s != [] {
      SortedCons(x, s, key);
    }
  }

  /** An element placed before a sorted list it is a lower bound of keeps it sorted. */
  lemma SortedCons<T>(y: T, rest: seq<T>, key: T -> SortKey)
    requires SortedBy(rest, key)
    requires forall i :: 0 <= i < |rest| ==> Leq(key(y), key(rest[i]))
    ensures SortedBy([y] + rest, key)
  {
    var r := [y] + rest;
    forall i, j | 0 <= i < j < |r| ensures Leq(key(r[i]), key(r[j])) {
      if i > 0 {
        assert r[i] == rest[i - 1] && r[j] == rest[j - 1];
      } else {
        assert r[j] == rest[j - 1];
      }
    }
  }

  /** A lower bound of `t` and of `x` bounds every element of a
      permutation of `t` plus `x`. */
  lemma LowerBoundRest<T>(y: T, x: T, t: seq<T>, rest: seq<T>, key: T -> SortKey)
    requires multiset(rest) == multiset(t) + multiset{x}
    requires Leq(key(y), key(x))
    requires forall j :: 0 <= j < |t| ==> Leq(key(y), key(t[j]))
    ensures forall i :: 0 <= i < |rest| ==> Leq(key(y), key(rest[i]))
  {
    forall i | 0 <= i < |rest| ensures Leq(key(y), key(rest[i])) {
      assert rest[i] in multiset(rest);
      if rest[i] != x {
        assert rest[i] in multiset(t);
        var j :| 0 <= j < |t| && t[j] == rest[i];
      }
    }
  }

  /** `s.sort(sortByOrder)`: a sorted permutation of `s`. */
  function Sort<T>(s: seq<T>, key: T -> SortKey): (r: seq<T>)
    ensures multiset(r) == multiset(s)
    ensures SortedBy(r, key)
  {
    if s == [] then []
    else
      assert s == [s[0]] + s[1..];
      InsertSorted(s[0], Sort(s[1..], key), key);
      Insert(s[0], Sort(s[1..], key), key)
  }

  /** The elements of `s` whose key ties with `k`, in order. */
  function Tied<T>(s: seq<T>, key: T -> SortKey, k: SortKey): seq<T> {
    if s == [] then []
    else (if Compare(key(s[0]), k) == 0 then [s[0]] else []) + Tied(s[1..], key, k)
  }

  lemma TiedCons<T>(y: T, t: seq<T>, key: T -> SortKey, k: SortKey)
    ensures Tied([y] + t, key, k) == (if Compare(key(y), k) == 0 then [y] else []) + Tied(t, key, k)
  {
    assert ([y] + t)[1..] == t;
  }

  lemma {:induction false} TiedInsert<T>(x: T, s: seq<T>, key: T -> SortKey, k: SortKey)
    ensures Tied(Insert(x, s, key), key, k)
      == (if Compare(key(x), k) == 0 then [x] else []) + Tied(s, key, k)
  {
    if s == [] || Leq(key(x), key(s[0])) {
      TiedCons(x, s, key, k);
    } else {
      TiedInsert(x, s[1..], key, k);
      TiedAfterHead(s[0], x, Insert(x, s[1..], key), s[1..], key, k);
      assert [s[0]] + s[1..] == s;
    }
  }

  /** Putting a head that does not tie with `x` in front of both lists
      keeps `x`'s tie contribution in front. */
  lemma TiedAfterHead<T>(y: T, x: T, rest: seq<T>, t: seq<T>, key: T -> SortKey, k: SortKey)
    requires Compare(key(x), key(y)) != 0
    requires Tied(rest, key, k) == (if Compare(key(x), k) == 0 then [x] else []) + Tied(t, key, k)
    ensures Tied([y] + rest, key, k)
      == (if Compare(key(x), k) == 0 then [x] else []) + Tied([y] + t, key, k)
  {
    var cx := if Compare(key(x), k) == 0 then [x] else [];
    var cy := if Compare(key(y), k) == 0 then [y] else [];
    TiedCons(y, rest, key, k);
    TiedCons(y, t, key, k);
    NotBothTied(key(x), key(y), k);
    SwapDisjoint(cy, cx, Tied(t, key, k));
  }

  /** Two keys that compare unequal cannot both tie with a third. */
  lemma NotBothTied(a: SortKey, b: SortKey, k: SortKey)
    requires Compare(a, b) != 0
    ensures Compare(a, k) != 0 || Compare(b, k) != 0
  {
  }

  /** Two prefixes of which one is empty can be swapped. */
  lemma SwapDisjoint<T>(a: seq<T>, b: seq<T>, t: seq<T>)
    requires a == [] || b == []
    ensures a + (b + t) == b + (a + t)
  {
    if a == [] {
      assert a + (b + t) == b + t;
    } else {
      assert b + (a + t) == a + t;
    }
  }

  /** The sort is stable: tied elements keep their relative input order. */
  lemma {:induction false} SortStable<T>(s: seq<T>, key: T -> SortKey, k: SortKey)
    ensures Tied(Sort(s, key), key, k) == Tied(s, key, k)
  {
    if s != [] {
      SortStable(s[1..], key, k);
      TiedInsert(s[0], Sort(s[1..], key), key, k);
    }
  }

  /** In a sorted list, an element that compares strictly lower sits strictly earlier. */
  lemma SortedPrecedes<T>(s: seq<T>, key: T -> SortKey, p: int, q: int)
    requires SortedBy(s, key)
    requires 0 <= p < |s| && 0 <= q < |s|
    requires Compare(key(s[p]), key(s[q])) < 0
    ensures p < q
  {
  }

  /** Rewriting elements without touching their keys keeps a list sorted. */
  lemma SortedSameKeys<T>(s: seq<T>, r: seq<T>, key: T -> SortKey)
    requires SortedBy(s, key)
    requires |r| == |s| && forall i :: 0 <= i < |s| ==> key(r[i]) == key(s[i])
    ensures SortedBy(r, key)
  {
    forall i, j | 0 <= i < j < |r| ensures Leq(key(r[i]), key(r[j])) {
      assert Leq(key(s[i]), key(s[j]));
    }
  }

  function MapSeq<T, U>(s: seq<T>, f: T -> U): (r: seq<U>)
    ensures |r| == |s| && forall i :: 0 <= i < |s| ==> r[i] == f(s[i])
  {
    if s == [] then [] else [f(s[0])] + MapSeq(s[1..], f)
  }

  lemma {:induction false} MapInsert<T, U>(x: T, s: seq<T>, key: T -> SortKey, f: T -> U)
    ensures multiset(MapSeq(Insert(x, s, key), f)) == multiset(MapSeq(s, f)) + multiset{f(x)}
  {
    if s == [] || Leq(key(x), key(s[0])) {
      MapCons(x, s, f);
    } else {
      MapInsert(x, s[1..], key, f);
      MapAfterHead(s, Insert(x, s[1..], key), f, f(x));
    }
  }

  /** Putting the head of `s` back in front of a list whose projection is
      that of `s[1..]` plus one value gives the projection of `s` plus it. */
  lemma MapAfterHead<T, U>(s: seq<T>, rest: seq<T>, f: T -> U, fx: U)
    requires s != []
    requires multiset(MapSeq(rest, f)) == multiset(MapSeq(s[1..], f)) + multiset{fx}
    ensures multiset(MapSeq([s[0]] + rest, f)) == multiset(MapSeq(s, f)) + multiset{fx}
  {
    var m := MapSeq(rest, f);
    var m1 := MapSeq(s[1..], f);
    MapCons(s[0], rest, f);
    assert MapSeq(s, f) == [f(s[0])] + m1;
    assert multiset([f(s[0])] + m) == multiset{f(s[0])} + multiset(m);
    assert multiset([f(s[0])] + m1) == multiset{f(s[0])} + multiset(m1);
  }

  lemma MapCons<T, U>(y: T, t: seq<T>, f: T -> U)
    ensures MapSeq([y] + t, f) == [f(y)] + MapSeq(t, f)
  {
    assert ([y] + t)[1..] == t;
  }

  /** Sorting permutes any projection of the elements too (their ids, say). */
  lemma {:induction false} SortPermutesProjection<T, U>(s: seq<T>, key: T -> SortKey, f: T -> U)
    ensures multiset(MapSeq(Sort(s, key), f)) == multiset(MapSeq(s, f))
  {
    if s != [] {
      SortPermutesProjection(s[1..], key, f);
      MapInsert(s[0], Sort(s[1..], key), key, f);
      assert MapSeq(s, f) == [f(s[0])] + MapSeq(s[1..], f);
    }
  }
}
