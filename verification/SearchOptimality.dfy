/** When the write-once inserts cost something, and when not: exactly, for all nodes at once and for a single
    goal, and on the graphs where it is easiest to see. */
module SearchOptimality {
  import opened Graphs
  import opened BestFirst
  import opened SearchTheorems

  /** No examined link offered its target less than the score already recorded for it: the branch
      that finds an improvement was never entered for a node that had a score. */
  ghost predicate NothingDiscarded(start: nat, trace: seq<Hop>) {
    forall h :: h in trace ==> Score(start, trace, h.link.toId) <= Score(start, trace, h.from) + h.link.cost
  }

  ghost predicate WalkOver(nodes: seq<Node>, start: nat, trace: seq<Hop>, walk: seq<Hop>, v: nat) {
    IsWalk(nodes, start, walk, v) && forall h :: h in walk ==> h in trace
  }

  /** Every score is the least cost of any walk over the links examined so far. */
  ghost predicate ScoresAreDistances(nodes: seq<Node>, start: nat, trace: seq<Hop>) {
    forall walk, v :: WalkOver(nodes, start, trace, walk, v) ==> Score(start, trace, v) <= Cost(walk)
  }

  lemma {:induction false} NothingDiscardedBoundsWalk(nodes: seq<Node>, start: nat, trace: seq<Hop>,
      walk: seq<Hop>, v: nat)
    requires NothingDiscarded(start, trace) && WalkOver(nodes, start, trace, walk, v)
    ensures Score(start, trace, v) <= Cost(walk)
    decreases |walk|
  {
    if walk != [] {
      var h, rest := walk[|walk| - 1], walk[..|walk| - 1];
      assert h in walk;
      assert forall k :: k in rest ==> k in walk;
      NothingDiscardedBoundsWalk(nodes, start, trace, rest, h.from);
    }
  }

  lemma DistancesRespectHop(nodes: seq<Node>, start: nat, trace: seq<Hop>, h: Hop)
    requires ScoresAreDistances(nodes, start, trace)
    requires h in trace && IsHop(nodes, h) && IsWalk(nodes, start, RouteTo(start, trace, h.from), h.from)
    ensures Score(start, trace, h.link.toId) <= Score(start, trace, h.from) + h.link.cost
  {
    var r := RouteTo(start, trace, h.from);
    RouteOverTrace(start, trace, h.from);
    var longer := r + [h];
    assert longer[..|longer| - 1] == r;
    assert WalkOver(nodes, start, trace, longer, h.link.toId);
  }

  /** Exactly when the write-once scores are right, for costs of any sign: no improvement was discarded. */
  lemma ScoresAreDistancesIffNothingDiscarded(nodes: seq<Node>, start: nat, order: seq<nat>)
    requires SettleOrder(nodes, start, order)
    ensures var trace := Examined(nodes, order);
      ScoresAreDistances(nodes, start, trace) <==> NothingDiscarded(start, trace)
  {
    var trace := Examined(nodes, order);
    if ScoresAreDistances(nodes, start, trace) {
      forall h | h in trace
        ensures Score(start, trace, h.link.toId) <= Score(start, trace, h.from) + h.link.cost
      {
        SettledNodesAreFound(nodes, start, order, h.from);
        FoundIsReachable(nodes, start, order, h.from);
        DistancesRespectHop(nodes, start, trace, h);
      }
    } else {
      var walk, v :| WalkOver(nodes, start, trace, walk, v) && Score(start, trace, v) > Cost(walk);
      if NothingDiscarded(start, trace) { NothingDiscardedBoundsWalk(nodes, start, trace, walk, v); }
    }
  }

  lemma {:induction false} RouteOverTrace(start: nat, trace: seq<Hop>, v: nat)
    ensures forall h :: h in RouteTo(start, trace, v) ==> h in trace
    decreases |trace|
  {
    var i := FirstInto(trace, v);
    if v != start && i < |trace| { RouteOverTrace(start, trace[..i], trace[i].from); }
  }

  /** After an exhausted search every walk from the start runs over examined links, so `ScoresAreDistances`
      speaks of all of them. */
  lemma {:induction false} ExhaustedCoversEveryWalk(nodes: seq<Node>, start: nat, order: seq<nat>,
      walk: seq<Hop>, v: nat)
    requires SettleOrder(nodes, start, order) && Exhausted(nodes, start, order) && IsWalk(nodes, start, walk, v)
    ensures WalkOver(nodes, start, Examined(nodes, order), walk, v)
    decreases |walk|
  {
    hide SettleOrder, Found;
    if walk != [] {
      var h, rest := walk[|walk| - 1], walk[..|walk| - 1];
      ExhaustedCoversEveryWalk(nodes, start, order, rest, h.from);
      var w := WalkEndsSettledOrPending(nodes, start, order, rest, h.from);
      assert walk == rest + [h];
    }
  }

  /** Where the cost of a link depends only on the node it enters, no improvement is ever discarded, so
      every score is a distance, not the goal's alone. */
  lemma TargetPricedDiscardsNothing(nodes: seq<Node>, start: nat, order: seq<nat>)
    requires NonNegative(nodes) && TargetPriced(nodes) && SettleOrder(nodes, start, order)
    ensures NothingDiscarded(start, Examined(nodes, order))
    ensures ScoresAreDistances(nodes, start, Examined(nodes, order))
  {
    hide Score, SettleOrder, NothingDiscarded, ScoresAreDistances;
    var trace := Examined(nodes, order);
    forall h | h in trace
      ensures Score(start, trace, h.link.toId) <= Score(start, trace, h.from) + h.link.cost
    {
      ExaminedHopBound(nodes, start, order, h);
      MaxIntoIsMax(nodes, h.link.toId);
    }
    NothingIsDiscarded(start, trace);
    ScoresAreDistancesIffNothingDiscarded(nodes, start, order);
  }

  lemma NothingIsDiscarded(start: nat, trace: seq<Hop>)
    requires forall h :: h in trace ==> Score(start, trace, h.link.toId) <= Score(start, trace, h.from) + h.link.cost
    ensures NothingDiscarded(start, trace)
  {}

  // ---------------------------------------------------------------- one goal

  /** The examined link `h` offered its target less than the recorded score, and that was discarded. */
  ghost predicate Discarded(start: nat, trace: seq<Hop>, h: Hop) {
    h in trace && Score(start, trace, h.from) + h.link.cost < Score(start, trace, h.link.toId)
  }

  /** Going on to the goal from a discarded improvement would have cost less than the goal's score. */
  ghost predicate DiscardHurts(nodes: seq<Node>, start: nat, trace: seq<Hop>, goal: nat, h: Hop, onward: seq<Hop>) {
    && Discarded(start, trace, h) && IsWalk(nodes, h.link.toId, onward, goal)
    && Score(start, trace, h.from) + h.link.cost + Cost(onward) < Score(start, trace, goal)
  }

  lemma {:induction false} WalksJoin(nodes: seq<Node>, a: nat, first: seq<Hop>, b: nat, second: seq<Hop>, c: nat)
    requires IsWalk(nodes, a, first, b) && IsWalk(nodes, b, second, c)
    ensures IsWalk(nodes, a, first + second, c) && Cost(first + second) == Cost(first) + Cost(second)
    decreases |second|
  {
    if second == [] {
      assert first + second == first;
    } else {
      var rest, h := second[..|second| - 1], second[|second| - 1];
      WalksJoin(nodes, a, first, b, rest, h.from);
      assert (first + second)[..|first + second| - 1] == first + rest;
    }
  }

  lemma HopIsWalk(nodes: seq<Node>, h: Hop)
    requires IsHop(nodes, h)
    ensures IsWalk(nodes, h.from, [h], h.link.toId) && Cost([h]) == h.link.cost
  {
    assert [h][..0] == [];
  }

  /** From a walk to the goal that beats its score, the discarded improvement it goes through. `walk` leads to
      `v`, where it is ahead of the search, and `onward` leads on to the goal. */
  lemma {:induction false} FindDiscard(nodes: seq<Node>, start: nat, order: seq<nat>, goal: nat,
      walk: seq<Hop>, v: nat, onward: seq<Hop>) returns (h: Hop, rest: seq<Hop>)
    requires NonNegative(nodes) && SettleOrder(nodes, start, order) && LeastPending(nodes, start, order, goal)
    requires IsWalk(nodes, start, walk, v) && IsWalk(nodes, v, onward, goal)
    requires Cost(walk) + Cost(onward) < Score(start, Examined(nodes, order), goal)
    requires !(Found(start, Examined(nodes, order), v) && Score(start, Examined(nodes, order), v) <= Cost(walk))
    ensures DiscardHurts(nodes, start, Examined(nodes, order), goal, h, rest)
    decreases |walk|
  {
    hide Found, Score, SettleOrder;
    var trace := Examined(nodes, order);
    StartIsFound(start, trace);
    assert walk != [];
    var before := walk[..|walk| - 1];
    h := walk[|walk| - 1];
    if Found(start, trace, h.from) && Score(start, trace, h.from) <= Cost(before) {
      ScoresNonNegative(nodes, onward, v, goal);
      assert h.from in order;
      assert h in trace;
      ExaminedHopBound(nodes, start, order, h);
      rest := onward;
    } else {
      HopIsWalk(nodes, h);
      WalksJoin(nodes, h.from, [h], v, onward, goal);
      h, rest := FindDiscard(nodes, start, order, goal, before, h.from, [h] + onward);
    }
  }

  lemma StartIsFound(start: nat, trace: seq<Hop>)
    ensures Found(start, trace, start) && Score(start, trace, start) == 0
  {
    assert RouteTo(start, trace, start) == [];
  }

  /** Exactly when the route to a goal is a shortest path: no improvement was discarded from which some walk
      on to the goal would have beaten it. */
  lemma RouteIsShortestIffNoDiscardHurts(nodes: seq<Node>, start: nat, order: seq<nat>, goal: nat)
    requires NonNegative(nodes) && SettleOrder(nodes, start, order) && LeastPending(nodes, start, order, goal)
    ensures var trace := Examined(nodes, order);
      (forall walk :: IsWalk(nodes, start, walk, goal) ==> Score(start, trace, goal) <= Cost(walk))
      <==> !exists h, onward :: DiscardHurts(nodes, start, trace, goal, h, onward)
  {
    hide Found, Score, SettleOrder, IsWalk, Cost, LeastPending, Pending;
    var trace := Examined(nodes, order);
    if h, onward :| DiscardHurts(nodes, start, trace, goal, h, onward) {
      var walk := CheaperWalk(nodes, start, order, goal, h, onward);
    }
    if walk :| IsWalk(nodes, start, walk, goal) && Score(start, trace, goal) > Cost(walk) {
      NoHops(nodes, goal);
      var h, onward := FindDiscard(nodes, start, order, goal, walk, goal, []);
    }
  }

  lemma NoHops(nodes: seq<Node>, v: nat)
    ensures IsWalk(nodes, v, [], v) && Cost([]) == 0
  {}

  lemma CheaperWalk(nodes: seq<Node>, start: nat, order: seq<nat>, goal: nat, h: Hop, onward: seq<Hop>)
      returns (walk: seq<Hop>)
    requires SettleOrder(nodes, start, order) && DiscardHurts(nodes, start, Examined(nodes, order), goal, h, onward)
    ensures IsWalk(nodes, start, walk, goal) && Cost(walk) < Score(start, Examined(nodes, order), goal)
  {
    hide Found, SettleOrder, IsWalk, Cost;
    var trace := Examined(nodes, order);
    SettledNodesAreFound(nodes, start, order, h.from);
    FoundIsReachable(nodes, start, order, h.from);
    var route := RouteTo(start, trace, h.from);
    HopIsWalk(nodes, h);
    WalksJoin(nodes, start, route, h.from, [h], h.link.toId);
    WalksJoin(nodes, start, route + [h], h.link.toId, onward, goal);
    walk := route + [h] + onward;
  }

  /** In particular a run that discards nothing before it reaches the goal returns a shortest path. */
  lemma NothingDiscardedRouteIsShortest(nodes: seq<Node>, start: nat, order: seq<nat>, goal: nat)
    requires NonNegative(nodes) && SettleOrder(nodes, start, order) && LeastPending(nodes, start, order, goal)
    requires NothingDiscarded(start, Examined(nodes, order))
    ensures forall walk :: IsWalk(nodes, start, walk, goal) ==> Score(start, Examined(nodes, order), goal) <= Cost(walk)
  {
    hide IsWalk, Cost, Score, Found, SettleOrder, LeastPending;
    RouteIsShortestIffNoDiscardHurts(nodes, start, order, goal);
  }

  // ---------------------------------------------------------------- a goal next to the start

  lemma {:induction false} FirstSettledIsStart(nodes: seq<Node>, start: nat, order: seq<nat>)
    requires SettleOrder(nodes, start, order) && order != []
    ensures order[0] == start
    ensures HopsFrom(nodes, start) <= Examined(nodes, order)
    decreases |order|
  {
    var before := order[..|order| - 1];
    if before == [] {
      assert Examined(nodes, before) == [];
    } else {
      FirstSettledIsStart(nodes, start, before);
    }
  }

  /** On every graph, a node the start has a link to is reached by the first such link the start lists,
      whatever that costs: it is examined before any detour can be. */
  lemma DirectLinkIsTaken(nodes: seq<Node>, start: nat, order: seq<nat>, goal: nat)
    requires SettleOrder(nodes, start, order) && order != [] && goal != start
    requires FirstInto(HopsFrom(nodes, start), goal) < |HopsFrom(nodes, start)|
    ensures var hops := HopsFrom(nodes, start);
      RouteTo(start, Examined(nodes, order), goal) == [hops[FirstInto(hops, goal)]]
  {
    var hops, trace := HopsFrom(nodes, start), Examined(nodes, order);
    FirstSettledIsStart(nodes, start, order);
    var i := FirstInto(hops, goal);
    assert forall j :: 0 <= j <= i ==> trace[j] == hops[j];
    FirstIntoIs(trace, goal, i);
    assert hops[i] in hops;
    assert RouteTo(start, trace[..i], start) == [];
  }

  lemma GoalPendingMeansStarted(nodes: seq<Node>, start: nat, order: seq<nat>, goal: nat)
    requires Pending(nodes, start, order, goal) && goal != start
    ensures order != []
  {
    assert Examined(nodes, []) == [];
  }

  /** Nodes 0 (start), 1 and 2 (goal): a direct link of cost `direct`, and a detour over node 1. */
  function Triangle(direct: nat, out: nat, back: nat): seq<Node> {
    [Node(NodePoint(0, 0, 0), [Link(2, direct), Link(1, out)]),
     Node(NodePoint(1, 0, 0), [Link(2, back)]),
     Node(NodePoint(2, 0, 0), [])]
  }

  lemma TriangleRouteIsDirect(direct: nat, out: nat, back: nat, order: seq<nat>)
    requires SettleOrder(Triangle(direct, out, back), 0, order) && Pending(Triangle(direct, out, back), 0, order, 2)
    ensures RouteTo(0, Examined(Triangle(direct, out, back), order), 2) == [Hop(0, Link(2, direct))]
  {
    hide SettleOrder, RouteTo, FirstInto;
    var nodes := Triangle(direct, out, back);
    GoalPendingMeansStarted(nodes, 0, order, 2);
    FirstIntoIs(HopsFrom(nodes, 0), 2, 0);
    DirectLinkIsTaken(nodes, 0, order, 2);
  }

  lemma OneHop(from: nat, link: Link)
    ensures Cost([Hop(from, link)]) == link.cost && Ids(from, [Hop(from, link)]) == [from, link.toId]
  {
    var route := [Hop(from, link)];
    assert route[..0] == [];
    assert Ids(from, route) == [from] + [link.toId];
  }

  lemma TriangleDetour(direct: nat, out: nat, back: nat) returns (detour: seq<Hop>)
    ensures IsWalk(Triangle(direct, out, back), 0, detour, 2) && Cost(detour) == out + back
  {
    var nodes := Triangle(direct, out, back);
    var first, second := Hop(0, Link(1, out)), Hop(1, Link(2, back));
    detour := [first, second];
    assert IsHop(nodes, first) by { assert nodes[0].links[1] == first.link; }
    assert IsHop(nodes, second) by { assert nodes[1].links[0] == second.link; }
    assert detour[..1] == [first] && [first][..0] == [];
    assert IsWalk(nodes, 0, [first], 1) && Cost([first]) == out;
  }

  /** So on this triangle the route is a shortest path exactly when the detour is no cheaper; with the costs
      10, 1, 1 it is not. */
  lemma DirectLinkWins(direct: nat, out: nat, back: nat, order: seq<nat>)
    requires SettleOrder(Triangle(direct, out, back), 0, order)
    requires LeastPending(Triangle(direct, out, back), 0, order, 2)
    ensures var nodes := Triangle(direct, out, back);
      var trace := Examined(nodes, order);
      && Ids(0, RouteTo(0, trace, 2)) == [0, 2]
      && ((forall walk :: IsWalk(nodes, 0, walk, 2) ==> Score(0, trace, 2) <= Cost(walk)) <==> direct <= out + back)
  {
    hide IsWalk, Cost, Ids, RouteTo, FirstInto, Examined, HopsFrom, SettleOrder;
    var nodes := Triangle(direct, out, back);
    TriangleRouteIsDirect(direct, out, back, order);
    OneHop(0, Link(2, direct));
    var detour := TriangleDetour(direct, out, back);
    if direct <= out + back {
      forall walk | IsWalk(nodes, 0, walk, 2)
        ensures direct <= Cost(walk)
      {
        TriangleWalkCost(direct, out, back, walk, 2);
      }
    }
  }

  lemma {:induction false} TriangleWalkCost(direct: nat, out: nat, back: nat, walk: seq<Hop>, v: nat)
    requires IsWalk(Triangle(direct, out, back), 0, walk, v) && direct <= out + back
    ensures v <= 2 && Cost(walk) >= (if v == 0 then 0 else if v == 1 then out else direct)
    decreases |walk|
  {
    if walk != [] {
      var h := walk[|walk| - 1];
      TriangleWalkCost(direct, out, back, walk[..|walk| - 1], h.from);
    }
  }
}
