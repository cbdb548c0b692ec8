/** What every run of the write-once best-first search achieves, for every graph, whichever way ties
    between equal scores fall. */
module SearchTheorems {
  import opened Numbers
  import opened Graphs
  import opened BestFirst

  // ---------------------------------------------------------------- routes

  /** A discovered node's route is a walk from the start to it over links of the trace. */
  lemma {:induction false} RouteIsWalk(nodes: seq<Node>, start: nat, trace: seq<Hop>, v: nat)
    requires Grounded(start, trace) && Found(start, trace, v)
    requires forall h :: h in trace ==> IsHop(nodes, h)
    ensures IsWalk(nodes, start, RouteTo(start, trace, v), v)
    decreases |trace|
  {
    if v != start {
      var i := FirstInto(trace, v);
      GroundedPrefix(start, trace, i);
      RouteIsWalk(nodes, start, trace[..i], trace[i].from);
      var r := RouteTo(start, trace, v);
      assert r[..|r| - 1] == RouteTo(start, trace[..i], trace[i].from);
    }
  }

  lemma GroundedPrefix(start: nat, trace: seq<Hop>, i: nat)
    requires Grounded(start, trace) && i <= |trace|
    ensures Grounded(start, trace[..i])
  {
    forall j | 0 <= j < i
      ensures Found(start, trace[..i][..j], trace[..i][j].from)
    {
      assert trace[..i][..j] == trace[..j];
    }
  }

  ghost predicate Distinct(ids: seq<nat>) {
    forall i, j :: 0 <= i < j < |ids| ==> ids[i] != ids[j]
  }

  lemma {:induction false} RouteVisitsFound(start: nat, trace: seq<Hop>, v: nat, id: nat)
    requires Grounded(start, trace) && Found(start, trace, v)
    requires id in Ids(start, RouteTo(start, trace, v))
    ensures Found(start, trace, id)
    decreases |trace|
  {
    if v != start && id != v {
      var i := FirstInto(trace, v);
      var r := RouteTo(start, trace, v);
      assert r[..|r| - 1] == RouteTo(start, trace[..i], trace[i].from);
      GroundedPrefix(start, trace, i);
      RouteVisitsFound(start, trace[..i], trace[i].from, id);
      PrefixStaysFixed(start, trace, i, id);
    }
  }

  lemma NotFoundBeforeItsFirstHop(start: nat, trace: seq<Hop>, v: nat)
    requires v != start
    ensures !Found(start, trace[..FirstInto(trace, v)], v)
  {
    var i := FirstInto(trace, v);
    FirstIntoIs(trace[..i], v, i);
  }

  /** A route runs from the start to its node and never repeats a node. */
  lemma {:induction false} RouteIsSimple(start: nat, trace: seq<Hop>, v: nat)
    requires Grounded(start, trace) && Found(start, trace, v)
    ensures var ids := Ids(start, RouteTo(start, trace, v));
      Distinct(ids) && ids[0] == start && ids[|ids| - 1] == v
    decreases |trace|
  {
    if v != start {
      var i := FirstInto(trace, v);
      var r := RouteTo(start, trace, v);
      var shorter := RouteTo(start, trace[..i], trace[i].from);
      assert r[..|r| - 1] == shorter;
      GroundedPrefix(start, trace, i);
      RouteIsSimple(start, trace[..i], trace[i].from);
      var ids := Ids(start, shorter);
      NotFoundBeforeItsFirstHop(start, trace, v);
      if v in ids { RouteVisitsFound(start, trace[..i], trace[i].from, v); }
      assert Ids(start, r) == ids + [v];
    }
  }

  // ---------------------------------------------------------------- reachability

  /** Following any walk from the start, one either ends at a settled node or meets one still pending. */
  lemma {:induction false} WalkEndsSettledOrPending(nodes: seq<Node>, start: nat, order: seq<nat>,
      walk: seq<Hop>, v: nat)
    returns (w: nat)
    requires SettleOrder(nodes, start, order) && IsWalk(nodes, start, walk, v)
    ensures (w in order && w == v) || Pending(nodes, start, order, w)
    decreases |walk|
  {
    if walk == [] {
      return start;
    }
    var h := walk[|walk| - 1];
    w := WalkEndsSettledOrPending(nodes, start, order, walk[..|walk| - 1], h.from);
    if !Pending(nodes, start, order, w) {
      assert h in Examined(nodes, order);
      w := v;
    }
  }

  /** Completeness: when nothing is left to settle, the settled nodes are exactly the reachable ones. */
  lemma ExhaustedMeansAllReached(nodes: seq<Node>, start: nat, order: seq<nat>, v: nat)
    requires SettleOrder(nodes, start, order) && Exhausted(nodes, start, order)
    ensures v in order <==> Reachable(nodes, start, v)
  {
    if v in order {
      SettledNodesAreFound(nodes, start, order, v);
      FoundIsReachable(nodes, start, order, v);
    }
    if Reachable(nodes, start, v) {
      var walk :| IsWalk(nodes, start, walk, v);
      var w := WalkEndsSettledOrPending(nodes, start, order, walk, v);
    }
  }

  /** Soundness: whatever is discovered is reachable, by its recorded route. */
  lemma FoundIsReachable(nodes: seq<Node>, start: nat, order: seq<nat>, v: nat)
    requires SettleOrder(nodes, start, order) && Found(start, Examined(nodes, order), v)
    ensures IsWalk(nodes, start, RouteTo(start, Examined(nodes, order), v), v)
    ensures Reachable(nodes, start, v)
  {
    SettledTraceIsGrounded(nodes, start, order);
    RouteIsWalk(nodes, start, Examined(nodes, order), v);
  }

  // ---------------------------------------------------------------- scores

  /** A node first found among the hops leaving `u` scores at least what `u` does. */
  lemma {:induction false} NewlyFoundScoresMore(nodes: seq<Node>, start: nat, trace: seq<Hop>, u: nat, n: nat, v: nat)
    requires NonNegative(nodes) && n <= |HopsFrom(nodes, u)| && Found(start, trace, u)
    requires !Found(start, trace, v) && Found(start, trace + HopsFrom(nodes, u)[..n], v)
    ensures Score(start, trace + HopsFrom(nodes, u)[..n], v) >= Score(start, trace, u)
  {
    var hops := HopsFrom(nodes, u);
    assert trace + hops[..0] == trace;
    if n > 0 {
      var shorter, h := trace + hops[..n - 1], hops[n - 1];
      assert trace + hops[..n] == shorter + [h];
      assert h in hops;
      if Found(start, shorter, v) {
        NewlyFoundScoresMore(nodes, start, trace, u, n - 1, v);
        FoundStaysFixed(start, shorter, [h], v);
      } else if h.link.toId == v {
        FirstHopDecides(start, shorter, h);
        FoundStaysFixed(start, trace, hops[..n - 1], u);
      } else {
        NotFoundByOthers(start, shorter, h, v);
      }
    }
  }

  /** Whatever is still pending scores at least as much as everything settled. */
  lemma {:induction false} PendingScoresMore(nodes: seq<Node>, start: nat, order: seq<nat>, u: nat, v: nat)
    requires NonNegative(nodes) && SettleOrder(nodes, start, order)
    requires u in order && Pending(nodes, start, order, v)
    ensures Score(start, Examined(nodes, order), u) <= Score(start, Examined(nodes, order), v)
    decreases |order|
  {
    hide RouteTo, FirstInto, Found, Score, HopsFrom;
    var before, last := order[..|order| - 1], order[|order| - 1];
    assert order == before + [last];
    var earlier, hops := Examined(nodes, before), HopsFrom(nodes, last);
    assert hops[..|hops|] == hops;
    FoundStaysFixed(start, earlier, hops, last);
    if u in before {
      SettledNodesAreFound(nodes, start, before, u);
      FoundStaysFixed(start, earlier, hops, u);
      PendingScoresMore(nodes, start, before, u, last);
    }
    if Found(start, earlier, v) {
      FoundStaysFixed(start, earlier, hops, v);
      assert Pending(nodes, start, before, v);
    } else {
      NewlyFoundScoresMore(nodes, start, earlier, last, |hops|, v);
    }
  }

  /** Settling one more node leaves the scores of the nodes settled before as they were. */
  lemma SettledScoreKept(nodes: seq<Node>, start: nat, before: seq<nat>, last: nat, u: nat)
    requires SettleOrder(nodes, start, before + [last]) && u in before + [last]
    ensures Found(start, Examined(nodes, before), u)
    ensures Score(start, Examined(nodes, before + [last]), u) == Score(start, Examined(nodes, before), u)
  {
    var order := before + [last];
    assert order[..|order| - 1] == before;
    if u in before { SettledNodesAreFound(nodes, start, before, u); }
    FoundStaysFixed(start, Examined(nodes, before), HopsFrom(nodes, last), u);
  }

  /** With non-negative costs, nodes are settled in non-decreasing score order. */
  lemma {:induction false} SettledInScoreOrder(nodes: seq<Node>, start: nat, order: seq<nat>, i: nat, j: nat)
    requires NonNegative(nodes) && SettleOrder(nodes, start, order) && i < j < |order|
    ensures Score(start, Examined(nodes, order), order[i]) <= Score(start, Examined(nodes, order), order[j])
    decreases |order|
  {
    var before, last := order[..|order| - 1], order[|order| - 1];
    assert order == before + [last] && before[i] == order[i];
    SettledScoreKept(nodes, start, before, last, order[i]);
    SettledScoreKept(nodes, start, before, last, order[j]);
    if j < |before| {
      SettledInScoreOrder(nodes, start, before, i, j);
    } else {
      PendingScoresMore(nodes, start, before, order[i], last);
    }
  }

  lemma {:induction false} ScoresNonNegative(nodes: seq<Node>, walk: seq<Hop>, from: nat, to: nat)
    requires NonNegative(nodes) && IsWalk(nodes, from, walk, to)
    ensures 0 <= Cost(walk)
    decreases |walk|
  {
    if walk != [] { ScoresNonNegative(nodes, walk[..|walk| - 1], from, walk[|walk| - 1].from); }
  }

  // ---------------------------------------------------------------- the re-pricing bound

  /** Every examined link is respected up to re-pricing. */
  lemma {:induction false} ExaminedHopBound(nodes: seq<Node>, start: nat, order: seq<nat>, h: Hop)
    requires NonNegative(nodes) && SettleOrder(nodes, start, order) && h in Examined(nodes, order)
    ensures Found(start, Examined(nodes, order), h.link.toId)
    ensures Score(start, Examined(nodes, order), h.link.toId)
         <= Score(start, Examined(nodes, order), h.from) + MaxInto(nodes, h.link.toId)
    decreases |order|
  {
    var before, u := order[..|order| - 1], order[|order| - 1];
    var earlier, trace, v := Examined(nodes, before), Examined(nodes, order), h.link.toId;
    if h in earlier {
      ExaminedHopBound(nodes, start, before, h);
      SettledNodesAreFound(nodes, start, before, h.from);
      FoundStaysFixed(start, earlier, HopsFrom(nodes, u), h.from);
      FoundStaysFixed(start, earlier, HopsFrom(nodes, u), v);
    } else {
      assert h.from == u;
      FoundStaysFixed(start, earlier, HopsFrom(nodes, u), u);
      LatestHopBound(nodes, start, before, u, h);
    }
  }

  /** The same for a link of the node settled last: its target was discovered from a node no dearer. */
  lemma LatestHopBound(nodes: seq<Node>, start: nat, before: seq<nat>, u: nat, h: Hop)
    requires NonNegative(nodes) && SettleOrder(nodes, start, before + [u]) && h in HopsFrom(nodes, u)
    ensures var trace := Examined(nodes, before + [u]);
      Score(start, trace, h.link.toId) <= Score(start, trace, u) + MaxInto(nodes, h.link.toId)
  {
    var order := before + [u];
    var trace, v := Examined(nodes, order), h.link.toId;
    hide RouteTo, FirstInto, Found, Score, SettleOrder;
    assert u in order && h in trace && IsHop(nodes, h);
    MaxIntoIsMax(nodes, v);
    SettledNodesAreFound(nodes, start, order, u);
    FoundIsReachable(nodes, start, order, u);
    SettledTraceIsGrounded(nodes, start, order);
    if v == start {
      ScoreOfStart(nodes, start, trace, u);
    } else {
      var first := FirstHopScores(start, trace, h);
      if first.from != u {
        var k :| 0 <= k < |order| && order[k] == first.from;
        SettledInScoreOrder(nodes, start, order, k, |order| - 1);
      }
    }
  }

  lemma ScoreOfStart(nodes: seq<Node>, start: nat, trace: seq<Hop>, u: nat)
    requires NonNegative(nodes) && IsWalk(nodes, start, RouteTo(start, trace, u), u)
    ensures Score(start, trace, start) == 0 <= Score(start, trace, u)
  {
    ScoresNonNegative(nodes, RouteTo(start, trace, u), start, u);
  }

  /** A node scores what the first hop into it says. */
  lemma FirstHopScores(start: nat, trace: seq<Hop>, h: Hop) returns (first: Hop)
    requires Grounded(start, trace) && h in trace && h.link.toId != start
    ensures first in trace && first.link.toId == h.link.toId
    ensures Score(start, trace, h.link.toId) == Score(start, trace, first.from) + first.link.cost
  {
    var v := h.link.toId;
    var i := FirstInto(trace, v);
    first := trace[i];
    var r := RouteTo(start, trace, v);
    assert r[..|r| - 1] == RouteTo(start, trace[..i], first.from);
    PrefixStaysFixed(start, trace, i, first.from);
  }

  /** Along any walk from the start, either the end is settled within the re-priced cost, or some
      pending node is within it. */
  lemma {:induction false} WalkBound(nodes: seq<Node>, start: nat, order: seq<nat>, walk: seq<Hop>, v: nat)
    returns (w: nat)
    requires NonNegative(nodes) && SettleOrder(nodes, start, order) && IsWalk(nodes, start, walk, v)
    ensures Score(start, Examined(nodes, order), w) <= RepricedCost(nodes, walk)
    ensures (w in order && w == v) || Pending(nodes, start, order, w)
    decreases |walk|
  {
    var trace := Examined(nodes, order);
    if walk == [] {
      return start;
    }
    var h := walk[|walk| - 1];
    MaxIntoIsMax(nodes, v);
    w := WalkBound(nodes, start, order, walk[..|walk| - 1], h.from);
    if !Pending(nodes, start, order, w) {
      assert h in trace;
      ExaminedHopBound(nodes, start, order, h);
      w := v;
    }
  }

  /** The main bound: the route found to the goal costs no more than any walk to it does once every link
      of that walk is re-priced to the dearest link into the same node. */
  lemma RouteBeatsEveryRepricedWalk(nodes: seq<Node>, start: nat, order: seq<nat>, goal: nat)
    requires NonNegative(nodes) && SettleOrder(nodes, start, order) && LeastPending(nodes, start, order, goal)
    ensures forall walk :: IsWalk(nodes, start, walk, goal) ==>
      Score(start, Examined(nodes, order), goal) <= RepricedCost(nodes, walk)
  {
    hide IsWalk, RepricedCost, Score, Found, Examined, SettleOrder;
    forall walk | IsWalk(nodes, start, walk, goal)
      ensures Score(start, Examined(nodes, order), goal) <= RepricedCost(nodes, walk)
    {
      var w := WalkBound(nodes, start, order, walk, goal);
    }
  }

  /** In terms of the costs themselves: at most the walk plus, for each of its links, the spread of the costs. */
  lemma RouteWithinSpreadOfEveryWalk(nodes: seq<Node>, start: nat, order: seq<nat>, goal: nat, lo: int, hi: int)
    requires CostsWithin(nodes, lo, hi) && 0 <= lo
    requires SettleOrder(nodes, start, order) && LeastPending(nodes, start, order, goal)
    ensures forall walk :: IsWalk(nodes, start, walk, goal) ==>
      Score(start, Examined(nodes, order), goal) <= Cost(walk) + |walk| * (hi - lo)
  {
    assert NonNegative(nodes);
    hide IsWalk, RepricedCost, Cost, Score, Found, Examined, SettleOrder, LeastPending, CostsWithin, NonNegative;
    RouteBeatsEveryRepricedWalk(nodes, start, order, goal);
    forall walk | IsWalk(nodes, start, walk, goal)
      ensures Score(start, Examined(nodes, order), goal) <= Cost(walk) + |walk| * (hi - lo)
    {
      RepricingCostsAtMostTheSpread(nodes, start, walk, goal, lo, hi);
    }
  }

  /** Where a link's cost depends only on the node it enters, the route is a true shortest path. */
  lemma TargetPricedRouteIsShortest(nodes: seq<Node>, start: nat, order: seq<nat>, goal: nat)
    requires NonNegative(nodes) && TargetPriced(nodes)
    requires SettleOrder(nodes, start, order) && LeastPending(nodes, start, order, goal)
    ensures forall walk :: IsWalk(nodes, start, walk, goal) ==> Score(start, Examined(nodes, order), goal) <= Cost(walk)
  {
    hide IsWalk, RepricedCost, Cost, Score, Found, Examined, SettleOrder, LeastPending, NonNegative, TargetPriced;
    RouteBeatsEveryRepricedWalk(nodes, start, order, goal);
    forall walk | IsWalk(nodes, start, walk, goal)
      ensures Score(start, Examined(nodes, order), goal) <= Cost(walk)
    {
      RepricingIsExactWhenTargetPriced(nodes, start, walk, goal);
    }
  }

  // ---------------------------------------------------------------- negative costs and the start node

  /** The examined link `h` leads back into the start and undercuts the start's own score, which is 0. */
  ghost predicate Improves(start: nat, trace: seq<Hop>, h: Hop) {
    h in trace && h.link.toId == start && Score(start, trace, h.from) + h.link.cost < 0
  }

  /** The start has been given a predecessor, so following predecessors never comes to an end. */
  ghost predicate StartImproved(start: nat, trace: seq<Hop>) {
    exists h :: Improves(start, trace, h)
  }

  /** That takes a closed walk of negative cost through the start, so it never happens with costs >= 0. */
  lemma StartImprovedNeedsNegativeCycle(nodes: seq<Node>, start: nat, order: seq<nat>)
    requires SettleOrder(nodes, start, order) && StartImproved(start, Examined(nodes, order))
    ensures exists walk :: IsWalk(nodes, start, walk, start) && Cost(walk) < 0
    ensures !NonNegative(nodes)
  {
    var trace := Examined(nodes, order);
    var h :| Improves(start, trace, h);
    SettledNodesAreFound(nodes, start, order, h.from);
    FoundIsReachable(nodes, start, order, h.from);
    var r := RouteTo(start, trace, h.from);
    var cycle := r + [h];
    assert cycle[..|cycle| - 1] == r;
    assert IsWalk(nodes, start, cycle, start) && Cost(cycle) < 0;
    if NonNegative(nodes) { ScoresNonNegative(nodes, cycle, start, start); }
  }

  // ---------------------------------------------------------------- exact arithmetic and work done

  lemma {:induction false} DistinctFits(ids: seq<nat>, n: nat)
    requires Distinct(ids) && forall id :: id in ids ==> id < n
    ensures |ids| <= n
  {
    assert ids == [] || ids[0] in ids;
    if n > 0 && n - 1 in ids {
      var k :| 0 <= k < |ids| && ids[k] == n - 1;
      var others := ids[..k] + ids[k + 1..];
      assert forall id :: id in others ==> id in ids && id != n - 1;
      DistinctFits(others, n - 1);
    } else if n > 0 {
      DistinctFits(ids, n - 1);
    }
  }

  lemma {:induction false} CostWithinLength(nodes: seq<Node>, from: nat, walk: seq<Hop>, to: nat, hi: int)
    requires 0 <= hi && IsWalk(nodes, from, walk, to) && CostsWithin(nodes, -hi, hi)
    ensures -(|walk| * hi) <= Cost(walk) <= |walk| * hi
    decreases |walk|
  {
    if walk != [] {
      CostWithinLength(nodes, from, walk[..|walk| - 1], walk[|walk| - 1].from, hi);
      OneMore(|walk| - 1, hi);
    }
  }

  lemma RouteIsShort(nodes: seq<Node>, start: nat, order: seq<nat>, v: nat)
    requires LinksClosed(nodes) && start < |nodes|
    requires SettleOrder(nodes, start, order) && Found(start, Examined(nodes, order), v)
    ensures |RouteTo(start, Examined(nodes, order), v)| < |nodes|
  {
    var trace := Examined(nodes, order);
    var r := RouteTo(start, trace, v);
    SettledTraceIsGrounded(nodes, start, order);
    RouteIsSimple(start, trace, v);
    FoundIsReachable(nodes, start, order, v);
    WalkStaysInside(nodes, start, r, v);
    DistinctFits(Ids(start, r), |nodes|);
  }

  /** A score is a sum of at most `|nodes| - 1` link costs. */
  lemma ScoreIsShortSum(nodes: seq<Node>, start: nat, order: seq<nat>, v: nat, hi: int)
    requires 0 <= hi && LinksClosed(nodes) && start < |nodes| && CostsWithin(nodes, -hi, hi)
    requires SettleOrder(nodes, start, order) && Found(start, Examined(nodes, order), v)
    ensures -((|nodes| - 1) * hi) <= Score(start, Examined(nodes, order), v) <= (|nodes| - 1) * hi
  {
    hide RouteTo, FirstInto, Found, Examined, SettleOrder, Cost, IsWalk;
    var r := RouteTo(start, Examined(nodes, order), v);
    RouteIsShort(nodes, start, order, v);
    assert -(|r| * hi) <= Cost(r) <= |r| * hi by {
      FoundIsReachable(nodes, start, order, v);
      CostWithinLength(nodes, start, r, v, hi);
    }
    TimesMonotone(|r|, |nodes| - 1, hi);
  }

  /** With 32-bit costs and at most 2^22 nodes, every score and every tentative score is an integer a
      double represents exactly, so modelling them as integers loses nothing. */
  lemma ScoresAreExactInDouble(nodes: seq<Node>, start: nat, order: seq<nat>, v: nat, cost: int)
    requires LinksClosed(nodes) && start < |nodes| <= 0x40_0000
    requires CostsWithin(nodes, -0x8000_0000, 0x7FFF_FFFF) && -0x8000_0000 <= cost <= 0x7FFF_FFFF
    requires SettleOrder(nodes, start, order) && Found(start, Examined(nodes, order), v)
    ensures -0x20_0000_0000_0000 <= Score(start, Examined(nodes, order), v) + cost <= 0x20_0000_0000_0000
    ensures -0x20_0000_0000_0000 <= Score(start, Examined(nodes, order), v) <= 0x20_0000_0000_0000
  {
    ScoreIsShortSum(nodes, start, order, v, 0x8000_0000);
  }

  function TotalLinks(nodes: seq<Node>): nat {
    if nodes == [] then 0 else TotalLinks(nodes[..|nodes| - 1]) + |nodes[|nodes| - 1].links|
  }

  /** The number of links leaving the nodes of `among` whose id is below `n`. */
  ghost function LinkCount(nodes: seq<Node>, n: nat, among: set<nat>): nat
    requires n <= |nodes|
  {
    if n == 0 then 0
    else LinkCount(nodes, n - 1, among) + if n - 1 in among then |nodes[n - 1].links| else 0
  }

  lemma {:induction false} LinkCountGrows(nodes: seq<Node>, n: nat, among: set<nat>, u: nat)
    requires n <= |nodes| && u !in among
    ensures LinkCount(nodes, n, among + {u}) == LinkCount(nodes, n, among) + if u < n then |nodes[u].links| else 0
  {
    if n > 0 { LinkCountGrows(nodes, n - 1, among, u); }
  }

  lemma {:induction false} LinkCountAtMostTotal(nodes: seq<Node>, n: nat, among: set<nat>)
    requires n <= |nodes|
    ensures LinkCount(nodes, n, among) <= TotalLinks(nodes[..n])
  {
    if n > 0 {
      LinkCountAtMostTotal(nodes, n - 1, among);
      assert nodes[..n][..n - 1] == nodes[..n - 1];
    }
  }

  lemma {:induction false} NoLinksFromNowhere(nodes: seq<Node>, n: nat)
    requires n <= |nodes|
    ensures LinkCount(nodes, n, {}) == 0
  {
    if n > 0 { NoLinksFromNowhere(nodes, n - 1); }
  }

  ghost function Elements(order: seq<nat>): set<nat> { set u | u in order }

  lemma {:induction false} ExaminedCount(nodes: seq<Node>, order: seq<nat>)
    requires Distinct(order)
    ensures |Examined(nodes, order)| == LinkCount(nodes, |nodes|, Elements(order))
    decreases |order|
  {
    if order == [] {
      NoLinksFromNowhere(nodes, |nodes|);
      assert Elements(order) == {};
    } else {
      var before, u := order[..|order| - 1], order[|order| - 1];
      ExaminedCount(nodes, before);
      assert Elements(order) == Elements(before) + {u} by { assert order == before + [u]; }
      LinkCountGrows(nodes, |nodes|, Elements(before), u);
      HopCount(nodes, u);
    }
  }

  lemma HopCount(nodes: seq<Node>, u: nat)
    ensures |HopsFrom(nodes, u)| == if u < |nodes| then |nodes[u].links| else 0
  {
    var hops := HopsFrom(nodes, u);
    assert hops == [] || hops[0] in hops;
  }

  /** Each link of the graph is examined at most once. */
  lemma ExaminedAtMostTotal(nodes: seq<Node>, start: nat, order: seq<nat>)
    requires SettleOrder(nodes, start, order)
    ensures |Examined(nodes, order)| <= TotalLinks(nodes)
  {
    forall i, j | 0 <= i < j < |order|
      ensures order[i] != order[j]
    {
      SettledOnce(nodes, start, order, i, j);
    }
    ExaminedCount(nodes, order);
    LinkCountAtMostTotal(nodes, |nodes|, Elements(order));
    assert nodes[..|nodes|] == nodes;
  }

  lemma {:induction false} LinkCountOfAll(nodes: seq<Node>, n: nat, among: set<nat>)
    requires n <= |nodes| && forall u: nat :: u < n ==> u in among
    ensures LinkCount(nodes, n, among) == TotalLinks(nodes[..n])
  {
    if n > 0 {
      LinkCountOfAll(nodes, n - 1, among);
      assert nodes[..n][..n - 1] == nodes[..n - 1];
    }
  }

  /** A search that settles every node examines them all. */
  lemma AllSettledExaminesTotal(nodes: seq<Node>, start: nat, order: seq<nat>)
    requires SettleOrder(nodes, start, order) && forall u: nat :: u < |nodes| ==> u in order
    ensures |Examined(nodes, order)| == TotalLinks(nodes)
  {
    forall i, j | 0 <= i < j < |order|
      ensures order[i] != order[j]
    {
      SettledOnce(nodes, start, order, i, j);
    }
    ExaminedCount(nodes, order);
    LinkCountOfAll(nodes, |nodes|, Elements(order));
    assert nodes[..|nodes|] == nodes;
  }

  lemma OrderGrows(nodes: seq<Node>, start: nat, order: seq<nat>, u: nat)
    requires LinksClosed(nodes) && start < |nodes|
    requires SettleOrder(nodes, start, order) && LeastPending(nodes, start, order, u)
    ensures u < |nodes| && |order| < |nodes| && SettleOrder(nodes, start, order + [u])
    ensures Examined(nodes, order + [u]) == Examined(nodes, order) + HopsFrom(nodes, u)
    ensures Elements(order + [u]) == Elements(order) + {u}
  {
    var longer := order + [u];
    assert longer[..|longer| - 1] == order;
    FoundIsReachable(nodes, start, order, u);
    WalkStaysInside(nodes, start, RouteTo(start, Examined(nodes, order), u), u);
    OrderFits(nodes, start, longer);
  }

  lemma OrderFits(nodes: seq<Node>, start: nat, order: seq<nat>)
    requires LinksClosed(nodes) && start < |nodes| && SettleOrder(nodes, start, order)
    ensures |order| <= |nodes|
  {
    forall i, j | 0 <= i < j < |order|
      ensures order[i] != order[j]
    {
      SettledOnce(nodes, start, order, i, j);
    }
    forall u | u in order
      ensures u < |nodes|
    {
      SettledNodesAreFound(nodes, start, order, u);
      FoundIsReachable(nodes, start, order, u);
      WalkStaysInside(nodes, start, RouteTo(start, Examined(nodes, order), u), u);
    }
    DistinctFits(order, |nodes|);
  }
}
