/** The search's priority queue: a binary heap of node ids whose comparator looks the ids' scores up in
    the live score map. */
module OpenSets {

  ghost predicate AllScored(ids: seq<nat>, scores: map<nat, int>) {
    forall k :: 0 <= k < |ids| ==> ids[k] in scores
  }

  function Parent(k: nat): nat { if k == 0 then 0 else (k - 1) / 2 }

  /** The children of entry `p` score at least `p`. */
  ghost predicate Above(ids: seq<nat>, scores: map<nat, int>, p: nat, k: nat)
    requires AllScored(ids, scores)
  {
    p < |ids| && k < |ids| ==> scores[ids[p]] <= scores[ids[k]]
  }

  ghost predicate IsHeap(ids: seq<nat>, scores: map<nat, int>) {
    AllScored(ids, scores) && forall k :: 1 <= k < |ids| ==> Above(ids, scores, Parent(k), k)
  }

  /** A heap but for the order of entry `hole` and its parent. */
  ghost predicate IsHeapButUp(ids: seq<nat>, scores: map<nat, int>, hole: nat) {
    && AllScored(ids, scores)
    && (forall k :: 1 <= k < |ids| && k != hole ==> Above(ids, scores, Parent(k), k))
    && (forall k :: 1 <= k < |ids| && hole > 0 && Parent(k) == hole ==> Above(ids, scores, Parent(hole), k))
  }

  /** A heap but for the order of entry `hole` and its children. */
  ghost predicate IsHeapButDown(ids: seq<nat>, scores: map<nat, int>, hole: nat) {
    && AllScored(ids, scores)
    && (forall k :: 1 <= k < |ids| && Parent(k) != hole ==> Above(ids, scores, Parent(k), k))
    && (forall k :: 1 <= k < |ids| && hole > 0 && Parent(k) == hole ==> Above(ids, scores, Parent(hole), k))
  }

  lemma {:induction false} TopIsLeast(ids: seq<nat>, scores: map<nat, int>, k: nat)
    requires IsHeap(ids, scores) && k < |ids|
    ensures scores[ids[0]] <= scores[ids[k]]
  {
    if k > 0 {
      TopIsLeast(ids, scores, Parent(k));
      assert Above(ids, scores, Parent(k), k);
    }
  }

  /** The comparator may read the live map: a map that only ever gains entries reorders nothing queued. */
  lemma HeapSurvivesInserts(ids: seq<nat>, scores: map<nat, int>, more: map<nat, int>)
    requires IsHeap(ids, scores)
    requires forall id :: id in scores ==> id in more && more[id] == scores[id]
    ensures IsHeap(ids, more)
  {
    forall k | 1 <= k < |ids|
      ensures Above(ids, more, Parent(k), k)
    {
      assert Above(ids, scores, Parent(k), k);
    }
  }

  function Swapped(ids: seq<nat>, i: nat, j: nat): (r: seq<nat>)
    requires i < |ids| && j < |ids|
    ensures |r| == |ids|
    ensures multiset(r) == multiset(ids)
  {
    ids[i := ids[j]][j := ids[i]]
  }

  lemma RaiseKeepsOrder(ids: seq<nat>, scores: map<nat, int>, k: nat)
    requires IsHeapButUp(ids, scores, k) && 0 < k < |ids| && scores[ids[Parent(k)]] > scores[ids[k]]
    ensures IsHeapButUp(Swapped(ids, k, Parent(k)), scores, Parent(k))
  {
    var p := Parent(k);
    var r := Swapped(ids, k, p);
    forall c | 1 <= c < |r| && c != p
      ensures Above(r, scores, Parent(c), c)
    {
      assert c != k ==> Above(ids, scores, Parent(c), c);
    }
    if p > 0 {
      assert Above(ids, scores, Parent(p), p);
      forall c | 1 <= c < |r| && Parent(c) == p
        ensures Above(r, scores, Parent(p), c)
      {
        assert c != k ==> Above(ids, scores, Parent(c), c);
      }
    }
  }

  lemma LowerKeepsOrder(ids: seq<nat>, scores: map<nat, int>, p: nat, k: nat)
    requires IsHeapButDown(ids, scores, p) && 1 <= k < |ids| && Parent(k) == p
    requires forall c :: 1 <= c < |ids| && Parent(c) == p ==> Above(ids, scores, k, c)
    requires scores[ids[k]] < scores[ids[p]]
    ensures IsHeapButDown(Swapped(ids, p, k), scores, k)
  {
    var r := Swapped(ids, p, k);
    forall c | 1 <= c < |r| && Parent(c) != k
      ensures Above(r, scores, Parent(c), c)
    {
      if Parent(c) == p {
        assert Above(ids, scores, k, c);
      } else if c == p {
        assert Above(ids, scores, Parent(p), k);
      } else {
        assert Above(ids, scores, Parent(c), c);
      }
    }
    forall c | 1 <= c < |r| && Parent(c) == k
      ensures Above(r, scores, Parent(k), c)
    {
      assert Above(ids, scores, Parent(c), c);
    }
  }

  class OpenSet {
    var ids: seq<nat>

    constructor ()
      ensures ids == []
    {
      ids := [];
    }

    method Push(scores: map<nat, int>, id: nat)
      requires IsHeap(ids, scores) && id in scores
      modifies this
      ensures IsHeap(ids, scores)
      ensures multiset(ids) == multiset(old(ids)) + multiset{id}
    {
      ghost var before := ids;
      ids := ids + [id];
      var k := |ids| - 1;
      forall c | 1 <= c < |ids| && c != k
        ensures Above(ids, scores, Parent(c), c)
      {
        assert Above(before, scores, Parent(c), c);
      }
      while k > 0 && scores[ids[Parent(k)]] > scores[ids[k]]
        invariant 0 <= k < |ids|
        invariant IsHeapButUp(ids, scores, k)
        invariant multiset(ids) == multiset(old(ids)) + multiset{id}
      {
        RaiseKeepsOrder(ids, scores, k);
        ids := Swapped(ids, k, Parent(k));
        k := Parent(k);
      }
    }

    /** Removes the top, which no other queued id scores less than. */
    method Pop(scores: map<nat, int>) returns (top: nat)
      requires IsHeap(ids, scores) && ids != []
      modifies this
      ensures IsHeap(ids, scores)
      ensures top == old(ids)[0]
      ensures multiset(old(ids)) == multiset(ids) + multiset{top}
      ensures |ids| == |old(ids)| - 1
    {
      top := ids[0];
      var last := ids[|ids| - 1];
      ghost var before := ids;
      assert before == before[..|before| - 1] + [last];
      ids := ids[..|ids| - 1];
      if ids != [] {
        assert ids == [top] + ids[1..];
        ids := ids[0 := last];
        assert ids == [last] + before[1..|before| - 1];
        assert before == [top] + before[1..|before| - 1] + [last];
        assert IsHeapButDown(ids, scores, 0) by {
          forall k | 1 <= k < |ids| && Parent(k) != 0
            ensures Above(ids, scores, Parent(k), k)
          {
            assert Above(before, scores, Parent(k), k);
          }
        }
        SiftDown(scores);
      }
    }

    method SiftDown(scores: map<nat, int>)
      requires ids != [] && IsHeapButDown(ids, scores, 0)
      modifies this
      ensures IsHeap(ids, scores)
      ensures multiset(ids) == multiset(old(ids)) && |ids| == |old(ids)|
    {
      var p, moving := 0, true;
      while moving
        invariant 0 <= p < |ids| == |old(ids)|
        invariant if moving then IsHeapButDown(ids, scores, p) else IsHeap(ids, scores)
        invariant multiset(ids) == multiset(old(ids))
        decreases moving, |ids| - p
      {
        var least := 2 * p + 1;
        if least + 1 < |ids| && scores[ids[least + 1]] < scores[ids[least]] {
          least := least + 1;
        }
        if least < |ids| && scores[ids[least]] < scores[ids[p]] {
          assert forall c :: 1 <= c < |ids| && Parent(c) == p ==> c == 2 * p + 1 || c == 2 * p + 2;
          LowerKeepsOrder(ids, scores, p, least);
          ids := Swapped(ids, p, least);
          p := least;
        } else {
          forall k | 1 <= k < |ids|
            ensures Above(ids, scores, Parent(k), k)
          {
            assert Parent(k) == p ==> k == 2 * p + 1 || k == 2 * p + 2;
          }
          moving := false;
        }
      }
    }
  }
}
