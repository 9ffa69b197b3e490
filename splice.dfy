/** The drag-and-drop "move" both list views compute: copy the visible ids,
    `splice` the dragged id out of its index and back in at the index of
    the id it was dropped on. */
module Splice {
  import opened Wrappers
  import opened Types

  /** `ids.indexOf(x)`: the first index of `x`, or -1. */
  function IndexOf(ids: seq<string>, x: string): (r: int)
    ensures -1 <= r < |ids|
    ensures r == -1 <==> x !in ids
    ensures r >= 0 ==> ids[r] == x && x !in ids[..r]
  {
    if ids == [] then -1
    else if ids[0] == x then 0
    else
      var k := IndexOf(ids[1..], x);
      assert k >= 0 ==> ids[..k + 1] == [ids[0]] + ids[1..][..k];
      if k < 0 then -1 else k + 1
  }

  /** The sequence without its element at `i`. */
  function RemoveAt(s: seq<string>, i: int): (r: seq<string>)
    requires 0 <= i < |s|
    ensures |r| == |s| - 1
    ensures forall k :: 0 <= k < i ==> r[k] == s[k]
    ensures forall k :: i <= k < |r| ==> r[k] == s[k + 1]
  {
    s[..i] + s[i + 1..]
  }

  /** `next = [...ids]; next.splice(fromIdx, 1); next.splice(toIdx, 0, ids[fromIdx])`.
      The result holds the same ids, the moved id sits at `toIdx`, and the
      other ids keep their relative order. */
  method MoveId(ids: seq<string>, fromIdx: int, toIdx: int) returns (next: seq<string>)
    requires 0 <= fromIdx < |ids| && 0 <= toIdx < |ids|
    ensures |next| == |ids| && multiset(next) == multiset(ids)
    ensures next[toIdx] == ids[fromIdx]
    ensures RemoveAt(next, toIdx) == RemoveAt(ids, fromIdx)
  {
    var moved := ids[fromIdx];
    next := ids;
    next := next[..fromIdx] + next[fromIdx + 1..];
    ghost var rest := next;
    assert ids == ids[..fromIdx] + [moved] + ids[fromIdx + 1..];
    next := next[..toIdx] + [moved] + next[toIdx..];
    assert next[..toIdx] == rest[..toIdx] && next[toIdx + 1..] == rest[toIdx..];
    assert rest[..toIdx] + rest[toIdx..] == rest;
    assert rest == ids[..fromIdx] + ids[fromIdx + 1..];
    calc {
      multiset(next);
      multiset(rest[..toIdx]) + multiset{moved} + multiset(rest[toIdx..]);
      multiset(rest) + multiset{moved};
      multiset(ids[..fromIdx]) + multiset(ids[fromIdx + 1..]) + multiset{moved};
      multiset(ids);
    }
  }

  /** The guard and move of a drop handler: nothing happens without a
      (truthy) dragged id, on a drop onto the dragged item itself, or when
      either id is not among `ids`. */
  method DropMove(ids: seq<string>, dragged: Option<string>, target: string) returns (r: Option<seq<string>>)
    ensures r.None? <==> !IsTruthy(dragged) || dragged.value == target || dragged.value !in ids || target !in ids
    ensures r.Some? ==> |r.value| == |ids| && multiset(r.value) == multiset(ids)
    ensures r.Some? ==> r.value[IndexOf(ids, target)] == dragged.value
    ensures r.Some? ==> RemoveAt(r.value, IndexOf(ids, target)) == RemoveAt(ids, IndexOf(ids, dragged.value))
  {
    if !IsTruthy(dragged) || dragged.value == target {
      return None;
    }
    var from := dragged.value;
    var fromIdx := IndexOf(ids, from);
    var toIdx := IndexOf(ids, target);
    if fromIdx < 0 || toIdx < 0 {
      return None;
    }
    var next := MoveId(ids, fromIdx, toIdx);
    return Some(next);
  }

  /** Moving and moving back restores the list: a drop is undone by the
      opposite drop. */
  lemma MoveBack(ids: seq<string>, next: seq<string>, fromIdx: int, toIdx: int)
    requires 0 <= fromIdx < |ids| && 0 <= toIdx < |ids|
    requires |next| == |ids| && next[toIdx] == ids[fromIdx]
    requires RemoveAt(next, toIdx) == RemoveAt(ids, fromIdx)
    ensures ids == RemoveAt(next, toIdx)[..fromIdx] + [next[toIdx]] + RemoveAt(next, toIdx)[fromIdx..]
  {
    var rest := RemoveAt(ids, fromIdx);
    assert rest[..fromIdx] == ids[..fromIdx];
    assert rest[fromIdx..] == ids[fromIdx + 1..];
  }
}
