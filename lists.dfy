/** List operations the store performs on its entity lists by id:
    `find`, `filter(x => x.id !== id)`, and the distinct-id condition. */
module Lists {
  import opened Wrappers
  import opened SortByOrder

  /** No two elements share an id. */
  ghost predicate DistinctIds<T>(s: seq<T>, idOf: T -> string) {
    forall i, j :: 0 <= i < j < |s| ==> idOf(s[i]) != idOf(s[j])
  }

  /** The tail of a list with distinct ids has distinct ids, none of them
      the head's. */
  lemma DistinctIdsTail<T>(s: seq<T>, idOf: T -> string)
    requires DistinctIds(s, idOf) && s != []
    ensures DistinctIds(s[1..], idOf)
    ensures forall i :: 0 <= i < |s[1..]| ==> idOf(s[1..][i]) != idOf(s[0])
  {
    var rest := s[1..];
    forall i, j | 0 <= i < j < |rest| ensures idOf(rest[i]) != idOf(rest[j]) {
      assert idOf(s[i + 1]) != idOf(s[j + 1]);
    }
    forall i | 0 <= i < |rest| ensures idOf(rest[i]) != idOf(s[0]) {
      assert idOf(s[0]) != idOf(s[i + 1]);
    }
  }

  /** A list of distinct strings, such as the id lists the drop handlers
      send. */
  predicate Distinct(s: seq<string>) {
    forall i, j :: 0 <= i < j < |s| ==> s[i] != s[j]
  }

  /** `s.find(x => x.id === id)`: the first element with that id, if any. */
  function FindById<T>(s: seq<T>, idOf: T -> string, id: string): (r: Option<T>)
    ensures r.None? <==> forall i :: 0 <= i < |s| ==> idOf(s[i]) != id
    ensures r.Some? ==> exists i :: (0 <= i < |s| && s[i] == r.value && idOf(s[i]) == id
      && forall j :: 0 <= j < i ==> idOf(s[j]) != id)
  {
    if s == [] then None
    else if idOf(s[0]) == id then Some(s[0])
    else
      var r := FindById(s[1..], idOf, id);
      assert r.Some? ==> exists i :: (1 <= i < |s| && s[i] == r.value && idOf(s[i]) == id
        && forall j :: 0 <= j < i ==> idOf(s[j]) != id) by {
        if r.Some? {
          var i :| 0 <= i < |s[1..]| && s[1..][i] == r.value && idOf(s[1..][i]) == id
            && forall j :: 0 <= j < i ==> idOf(s[1..][j]) != id;
          assert s[i + 1] == r.value;
          forall j | 0 <= j < i + 1 ensures idOf(s[j]) != id {
            if j > 0 { assert s[j] == s[1..][j - 1]; }
          }
        }
      }
      r
  }

  /** With distinct ids, `find` returns the one element that has the id. */
  lemma FindByIdUnique<T>(s: seq<T>, idOf: T -> string, i: int)
    requires DistinctIds(s, idOf) && 0 <= i < |s|
    ensures FindById(s, idOf, idOf(s[i])) == Some(s[i])
  {
    var r := FindById(s, idOf, idOf(s[i]));
    var k :| 0 <= k < |s| && s[k] == r.value && idOf(s[k]) == idOf(s[i])
      && forall j :: 0 <= j < k ==> idOf(s[j]) != idOf(s[i]);
    assert k == i;
  }

  /** `s.filter(x => x.id !== id)`. */
  function WithoutId<T>(s: seq<T>, idOf: T -> string, id: string): (r: seq<T>)
    ensures |r| <= |s|
    ensures forall i :: 0 <= i < |r| ==> r[i] in s && idOf(r[i]) != id
    ensures forall i :: 0 <= i < |s| && idOf(s[i]) != id ==> s[i] in r
  {
    if s == [] then []
    else
      assert s == [s[0]] + s[1..];
      (if idOf(s[0]) != id then [s[0]] else []) + WithoutId(s[1..], idOf, id)
  }

  /** The filter distributes over concatenation, so the kept elements keep
      their order and their multiplicity. */
  lemma {:induction false} WithoutIdAppend<T>(a: seq<T>, b: seq<T>, idOf: T -> string, id: string)
    ensures WithoutId(a + b, idOf, id) == WithoutId(a, idOf, id) + WithoutId(b, idOf, id)
  {
    if a != [] {
      assert (a + b)[1..] == a[1..] + b;
      WithoutIdAppend(a[1..], b, idOf, id);
    } else {
      assert a + b == b;
    }
  }

  /** Filtering leaves a list with no element of that id unchanged. */
  lemma {:induction false} WithoutIdAbsent<T>(s: seq<T>, idOf: T -> string, id: string)
    requires forall i :: 0 <= i < |s| ==> idOf(s[i]) != id
    ensures WithoutId(s, idOf, id) == s
  {
    if s != [] {
      WithoutIdAbsent(s[1..], idOf, id);
      assert s == [s[0]] + s[1..];
    }
  }

  lemma WithoutIdIdempotent<T>(s: seq<T>, idOf: T -> string, id: string)
    ensures WithoutId(WithoutId(s, idOf, id), idOf, id) == WithoutId(s, idOf, id)
  {
    var r := WithoutId(s, idOf, id);
    forall i | 0 <= i < |r| ensures idOf(r[i]) != id {
      assert r[i] in r;
    }
    WithoutIdAbsent(r, idOf, id);
  }

  /** Dropping elements from a sorted list keeps it sorted. */
  lemma {:induction false} WithoutIdSorted<T>(s: seq<T>, idOf: T -> string, id: string, key: T -> SortKey)
    requires SortedBy(s, key)
    ensures SortedBy(WithoutId(s, idOf, id), key)
  {
    if s != [] {
      var rest := WithoutId(s[1..], idOf, id);
      WithoutIdSorted(s[1..], idOf, id, key);
      if idOf(s[0]) != id {
        var r := [s[0]] + rest;
        forall i, j | 0 <= i < j < |r| ensures Leq(key(r[i]), key(r[j])) {
          if i == 0 {
            assert r[j] in rest;
            var k :| 0 <= k < |s[1..]| && s[1..][k] == r[j];
            assert s[k + 1] == r[j];
          } else {
            assert r[i] == rest[i - 1] && r[j] == rest[j - 1];
          }
        }
      }
    }
  }

  /** Filtering keeps distinct ids distinct. */
  lemma {:induction false} WithoutIdDistinct<T>(s: seq<T>, idOf: T -> string, id: string)
    requires DistinctIds(s, idOf)
    ensures DistinctIds(WithoutId(s, idOf, id), idOf)
  {
    if s != [] {
      var rest := WithoutId(s[1..], idOf, id);
      WithoutIdDistinct(s[1..], idOf, id);
      if idOf(s[0]) != id {
        var r := [s[0]] + rest;
        forall i, j | 0 <= i < j < |r| ensures idOf(r[i]) != idOf(r[j]) {
          if i == 0 {
            assert r[j] in rest;
            var k :| 0 <= k < |s[1..]| && s[1..][k] == r[j];
            assert s[k + 1] == r[j];
          } else {
            assert r[i] == rest[i - 1] && r[j] == rest[j - 1];
          }
        }
      }
    }
  }
}
