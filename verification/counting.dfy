/** Occurrences in a list of numbers, lists in increasing order, and failures in a row. */
module Counting {
  function Count(ids: seq<nat>, id: nat): nat {
    if ids == [] then 0 else Count(ids[..|ids| - 1], id) + if ids[|ids| - 1] == id then 1 else 0
  }

  lemma CountAppend(ids: seq<nat>, other: nat, id: nat)
    ensures Count(ids + [other], id) == Count(ids, id) + if other == id then 1 else 0
  {
    assert (ids + [other])[..|ids|] == ids;
  }

  lemma CountOne(other: nat, id: nat)
    ensures Count([other], id) == (if other == id then 1 else 0) && Count([], id) == 0
  {
    assert [other][..0] == [];
  }

  lemma {:induction false} CountTail(ids: seq<nat>, id: nat)
    requires ids != []
    ensures Count(ids, id) == Count(ids[1..], id) + if ids[0] == id then 1 else 0
  {
    if |ids| == 1 {
      assert ids[..0] == [] && ids[1..] == [];
    } else {
      var front, last := ids[..|ids| - 1], ids[|ids| - 1];
      CountTail(front, id);
      assert front[1..] + [last] == ids[1..];
      CountAppend(front[1..], last, id);
    }
  }

  ghost predicate Increasing(ids: seq<nat>, bound: nat) {
    && (forall i, j :: 0 <= i < j < |ids| ==> ids[i] < ids[j])
    && (forall i :: 0 <= i < |ids| ==> ids[i] < bound)
  }

  /** Leaving out a part of an increasing list keeps it increasing. */
  lemma IncreasingWithout(a: seq<nat>, b: seq<nat>, c: seq<nat>, bound: nat)
    requires Increasing(a + b + c, bound)
    ensures Increasing(a + c, bound)
  {
    var whole, part := a + b + c, a + c;
    forall i | 0 <= i < |part|
      ensures part[i] == whole[if i < |a| then i else i + |b|]
    {
    }
  }

  lemma IncreasingMore(a: seq<nat>, bound: nat)
    requires Increasing(a, bound)
    ensures Increasing(a + [bound], bound + 1)
  {
  }

  /** The failures in a row after these results, when there were `start` of them before. */
  function Streak(start: nat, results: seq<bool>): nat {
    if results == [] then start else if results[|results| - 1] then 0 else Streak(start, results[..|results| - 1]) + 1
  }

  lemma {:induction false} StreakAfterFirst(start: nat, first: bool, results: seq<bool>)
    ensures Streak(start, [first] + results) == Streak(if first then 0 else start + 1, results)
  {
    if results == [] {
      assert ([first] + results)[..0] == [];
      assert Streak(start, []) == start;
    } else {
      assert ([first] + results)[..|results|] == [first] + results[..|results| - 1];
      StreakAfterFirst(start, first, results[..|results| - 1]);
    }
  }

  lemma StreakGrows(start: nat, results: seq<bool>, ok: bool)
    ensures Streak(start, results + [ok]) == if ok then 0 else Streak(start, results) + 1
  {
    assert (results + [ok])[..|results|] == results;
  }
}
