/** The member grid's drop handler: the new member id order it sends to
    `onReorderMembers`, or `None` when it returns early. */
module MemberGrid {
  import opened Wrappers
  import opened Types
  import opened SortByOrder
  import opened Splice
  import opened Lists

  method OnDrop(members: seq<Member>, dragged: Option<string>, target: string) returns (r: Option<seq<string>>)
    ensures var ids := MapSeq(members, MemberId);
      r.None? <==> !IsTruthy(dragged) || dragged.value == target || dragged.value !in ids || target !in ids
    ensures r.Some? ==> |r.value| == |members| && multiset(r.value) == multiset(MapSeq(members, MemberId))
    ensures var ids := MapSeq(members, MemberId);
      r.Some? ==>
        && r.value[IndexOf(ids, target)] == dragged.value
        && RemoveAt(r.value, IndexOf(ids, target)) == RemoveAt(ids, IndexOf(ids, dragged.value))
  {
    var ids := MapSeq(members, MemberId);
    r := DropMove(ids, dragged, target);
  }

  /** A drop that goes through sends every member id exactly as often as
      the grid shows it: with distinct ids, each member id once. */
  lemma DropSendsEachMemberOnce(members: seq<Member>, next: seq<string>, i: int)
    requires multiset(next) == multiset(MapSeq(members, MemberId))
    requires DistinctIds(members, MemberId)
    requires 0 <= i < |members|
    ensures multiset(next)[members[i].id] == 1
  {
    var ids := MapSeq(members, MemberId);
    forall p, q | 0 <= p < q < |ids| ensures ids[p] != ids[q] {
      assert ids[p] == MemberId(members[p]) && ids[q] == MemberId(members[q]);
    }
    CountOnce(ids, i);
  }

  lemma CountOnce(s: seq<string>, i: int)
    requires 0 <= i < |s|
    requires Distinct(s)
    ensures multiset(s)[s[i]] == 1
  {
    var x := s[i];
    var pre, post := s[..i], s[i + 1..];
    assert s == pre + [x] + post;
    assert multiset(pre)[x] == 0 by {
      forall k | 0 <= k < |pre| ensures pre[k] != x {
        assert pre[k] == s[k];
      }
    }
    assert multiset(post)[x] == 0 by {
      forall k | 0 <= k < |post| ensures post[k] != x {
        assert post[k] == s[i + 1 + k];
      }
    }
  }
}
