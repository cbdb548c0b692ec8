/** Which graphs the search finds shortest routes on, told from the graph alone: exactly, over all goals and all
    ways ties between equal scores may fall.

    A node's score is that of the link it is first discovered by. So it is enough to look at the links that can
    be first to discover their target. */
module ShortestRoutes {
  import opened Graphs
  import opened BestFirst
  import opened SearchTheorems
  import opened SearchOptimality

  /** `walk` leads to `v`, and none that does costs less. */
  ghost predicate Shortest(nodes: seq<Node>, start: nat, walk: seq<Hop>, v: nat) {
    IsWalk(nodes, start, walk, v) && forall other :: IsWalk(nodes, start, other, v) ==> Cost(walk) <= Cost(other)
  }

  predicate LinksTo(nodes: seq<Node>, u: nat, v: nat) {
    FirstInto(HopsFrom(nodes, u), v) < |HopsFrom(nodes, u)|
  }

  /** The first link to `v` that `u` lists. */
  function FirstLink(nodes: seq<Node>, u: nat, v: nat): (h: Hop)
    requires LinksTo(nodes, u, v)
    ensures h in HopsFrom(nodes, u) && h.link.toId == v
  {
    HopsFrom(nodes, u)[FirstInto(HopsFrom(nodes, u), v)]
  }

  /** The search can come along `walk` to `u` without having met `v`, and `u` links to it: of the nodes closer than
      `u`, and of those the walk has left behind, none does. */
  ghost predicate FirstContact(nodes: seq<Node>, start: nat, walk: seq<Hop>, u: nat, v: nat) {
    && Shortest(nodes, start, walk, u) && LinksTo(nodes, u, v)
    && (forall h :: h in walk ==> !LinksTo(nodes, h.from, v))
    && NoneCloserLinks(nodes, start, walk, v)
  }

  /** No node with a walk that costs less than `walk` links to `v`. */
  ghost predicate NoneCloserLinks(nodes: seq<Node>, start: nat, walk: seq<Hop>, v: nat) {
    forall other, w :: IsWalk(nodes, start, other, w) && Cost(other) < Cost(walk) ==> !LinksTo(nodes, w, v)
  }

  /** Each link by which a node can be discovered first ends a shortest walk to it. */
  ghost predicate FirstLinksAreShortest(nodes: seq<Node>, start: nat) {
    forall walk, u, v :: v != start && FirstContact(nodes, start, walk, u, v) ==>
      Shortest(nodes, start, walk + [FirstLink(nodes, u, v)], v)
  }

  /** The route to every node discovered so far is a shortest one. */
  ghost predicate RoutesAreShortest(nodes: seq<Node>, start: nat, order: seq<nat>) {
    forall v :: Found(start, Examined(nodes, order), v) ==>
      Shortest(nodes, start, RouteTo(start, Examined(nodes, order), v), v)
  }

  /** Whatever the goal, and however ties fall, the search answers with a shortest route. */
  ghost predicate AlwaysShortest(nodes: seq<Node>, start: nat) {
    forall order, goal :: SettleOrder(nodes, start, order) && LeastPending(nodes, start, order, goal) ==>
      Shortest(nodes, start, RouteTo(start, Examined(nodes, order), goal), goal)
  }

  // ---------------------------------------------------------------- the condition suffices

  lemma LinksOfSettledAreFound(nodes: seq<Node>, start: nat, order: seq<nat>, w: nat, v: nat)
    requires w in order && LinksTo(nodes, w, v)
    ensures Found(start, Examined(nodes, order), v)
  {
    var h := FirstLink(nodes, w, v);
    assert h in HopsFrom(nodes, w);
    assert h in Examined(nodes, order);
  }

  /** What is closer than the node settled next has been settled. */
  lemma {:induction false} CloserIsSettled(nodes: seq<Node>, start: nat, order: seq<nat>, u: nat,
      walk: seq<Hop>, w: nat)
    requires NonNegative(nodes) && LeastPending(nodes, start, order, u) && RoutesAreShortest(nodes, start, order)
    requires IsWalk(nodes, start, walk, w) && Cost(walk) < Score(start, Examined(nodes, order), u)
    ensures w in order
    decreases |walk|
  {
    var trace := Examined(nodes, order);
    StartIsFound(start, trace);
    hide RouteTo, FirstInto;
    if walk == [] {
      assert !Pending(nodes, start, order, start);
    } else {
      var h := walk[|walk| - 1];
      CloserIsSettled(nodes, start, order, u, walk[..|walk| - 1], h.from);
      assert h in trace;
      HopFindsTarget(start, trace, h);
      assert !Pending(nodes, start, order, w);
    }
  }

  lemma HopFindsTarget(start: nat, trace: seq<Hop>, h: Hop)
    requires h in trace
    ensures Found(start, trace, h.link.toId)
  {}

  lemma FirstIntoJoined(earlier: seq<Hop>, hops: seq<Hop>, v: nat)
    requires FirstInto(earlier, v) == |earlier|
    ensures FirstInto(earlier + hops, v) == |earlier| + FirstInto(hops, v)
  {
    var i := FirstInto(hops, v);
    forall j | 0 <= j < |earlier| + i ensures (earlier + hops)[j].link.toId != v {
      if j < |earlier| { assert earlier[j].link.toId != v; }
    }
    FirstIntoIs(earlier + hops, v, |earlier| + i);
  }

  /** A node discovered among `hops`, which leave `u`, is discovered by the first of them into it. */
  lemma NewlyFoundRoute(start: nat, earlier: seq<Hop>, hops: seq<Hop>, u: nat, v: nat)
    requires Found(start, earlier, u) && forall h :: h in hops ==> h.from == u
    requires !Found(start, earlier, v) && Found(start, earlier + hops, v)
    ensures FirstInto(hops, v) < |hops|
    ensures RouteTo(start, earlier + hops, v) == RouteTo(start, earlier, u) + [hops[FirstInto(hops, v)]]
  {
    hide FirstInto;
    var i := FirstInto(hops, v);
    FirstIntoJoined(earlier, hops, v);
    assert (earlier + hops)[..|earlier| + i] == earlier + hops[..i];
    assert hops[i] in hops;
    FoundStaysFixed(start, earlier, hops[..i], u);
  }

  lemma DiscoveryIsFirstContact(nodes: seq<Node>, start: nat, before: seq<nat>, u: nat, v: nat)
    requires NonNegative(nodes) && LeastPending(nodes, start, before, u) && RoutesAreShortest(nodes, start, before)
    requires !Found(start, Examined(nodes, before), v) && LinksTo(nodes, u, v)
    ensures FirstContact(nodes, start, RouteTo(start, Examined(nodes, before), u), u, v)
  {
    hide LinksTo, RouteTo, FirstInto, Found, Cost;
    var trace := Examined(nodes, before);
    var route := RouteTo(start, trace, u);
    RouteOverTrace(start, trace, u);
    forall h | h in route ensures !LinksTo(nodes, h.from, v) {
      if LinksTo(nodes, h.from, v) { LinksOfSettledAreFound(nodes, start, before, h.from, v); }
    }
    forall other, w | IsWalk(nodes, start, other, w) && Cost(other) < Cost(route) ensures !LinksTo(nodes, w, v) {
      CloserIsSettled(nodes, start, before, u, other, w);
      if LinksTo(nodes, w, v) { LinksOfSettledAreFound(nodes, start, before, w, v); }
    }
  }

  /** If every possible first link ends a shortest walk, every node is discovered by a shortest route. */
  lemma {:induction false} FirstLinksSuffice(nodes: seq<Node>, start: nat, order: seq<nat>)
    requires NonNegative(nodes) && FirstLinksAreShortest(nodes, start) && SettleOrder(nodes, start, order)
    ensures RoutesAreShortest(nodes, start, order)
    decreases |order|
  {
    hide RouteTo, FirstInto, Found, Shortest, FirstContact, LinksTo, FirstLink, RoutesAreShortest;
    if order == [] {
      NothingSettled(nodes, start);
    } else {
      var before, u := order[..|order| - 1], order[|order| - 1];
      FirstLinksSuffice(nodes, start, before);
      forall v | Found(start, Examined(nodes, order), v)
        ensures Shortest(nodes, start, RouteTo(start, Examined(nodes, order), v), v)
      {
        StepIsShortest(nodes, start, before, u, v);
      }
      RoutesAreShortestFor(nodes, start, order);
    }
  }

  lemma RoutesAreShortestFor(nodes: seq<Node>, start: nat, order: seq<nat>)
    requires forall v :: Found(start, Examined(nodes, order), v) ==>
      Shortest(nodes, start, RouteTo(start, Examined(nodes, order), v), v)
    ensures RoutesAreShortest(nodes, start, order)
  {}

  lemma NothingSettled(nodes: seq<Node>, start: nat)
    requires NonNegative(nodes)
    ensures RoutesAreShortest(nodes, start, [])
  {
    assert Examined(nodes, []) == [];
    assert RouteTo(start, [], start) == [];
    forall other | IsWalk(nodes, start, other, start) ensures 0 <= Cost(other) {
      ScoresNonNegative(nodes, other, start, start);
    }
  }

  lemma StepIsShortest(nodes: seq<Node>, start: nat, before: seq<nat>, u: nat, v: nat)
    requires NonNegative(nodes) && FirstLinksAreShortest(nodes, start)
    requires LeastPending(nodes, start, before, u) && RoutesAreShortest(nodes, start, before)
    requires Found(start, Examined(nodes, before) + HopsFrom(nodes, u), v)
    ensures Shortest(nodes, start, RouteTo(start, Examined(nodes, before) + HopsFrom(nodes, u), v), v)
  {
    hide RouteTo, FirstInto, Found, Shortest, FirstContact;
    var earlier := Examined(nodes, before);
    if Found(start, earlier, v) {
      FoundStaysFixed(start, earlier, HopsFrom(nodes, u), v);
    } else {
      NewlyFoundRoute(start, earlier, HopsFrom(nodes, u), u, v);
      DiscoveryIsFirstContact(nodes, start, before, u, v);
      StartIsFound(start, earlier);
    }
  }

  // ---------------------------------------------------------------- the condition is needed

  /** Of the nodes discovered but not settled, one that scores least. */
  lemma SomeLeastPending(nodes: seq<Node>, start: nat, order: seq<nat>, p: nat) returns (q: nat)
    requires LinksClosed(nodes) && start < |nodes|
    requires SettleOrder(nodes, start, order) && Pending(nodes, start, order, p)
    ensures LeastPending(nodes, start, order, q)
    ensures Score(start, Examined(nodes, order), q) <= Score(start, Examined(nodes, order), p)
  {
    hide Found, Score, Examined, SettleOrder, Pending;
    var trace := Examined(nodes, order);
    PendingIsInside(nodes, start, order, p);
    q := p;
    for i := 0 to |nodes|
      invariant Pending(nodes, start, order, q)
      invariant Score(start, trace, q) <= Score(start, trace, p)
      invariant forall w: nat :: w < i && Pending(nodes, start, order, w) ==>
        Score(start, trace, q) <= Score(start, trace, w)
    {
      if Pending(nodes, start, order, i) && Score(start, trace, i) < Score(start, trace, q) { q := i; }
    }
    forall w | Pending(nodes, start, order, w) ensures Score(start, trace, q) <= Score(start, trace, w) {
      PendingIsInside(nodes, start, order, w);
    }
  }

  lemma PendingIsInside(nodes: seq<Node>, start: nat, order: seq<nat>, p: nat)
    requires LinksClosed(nodes) && start < |nodes|
    requires SettleOrder(nodes, start, order) && Pending(nodes, start, order, p)
    ensures p < |nodes|
  {
    FoundIsReachable(nodes, start, order, p);
    WalkStaysInside(nodes, start, RouteTo(start, Examined(nodes, order), p), p);
  }

  /** The search can go on until `v` is the goal; its route stays what it is. */
  lemma SettleUpTo(nodes: seq<Node>, start: nat, order: seq<nat>, v: nat) returns (longer: seq<nat>)
    requires LinksClosed(nodes) && start < |nodes|
    requires SettleOrder(nodes, start, order) && Pending(nodes, start, order, v)
    ensures SettleOrder(nodes, start, longer) && LeastPending(nodes, start, longer, v)
    ensures RouteTo(start, Examined(nodes, longer), v) == RouteTo(start, Examined(nodes, order), v)
    decreases |nodes| - |order|
  {
    hide Found, Score, Examined, SettleOrder, RouteTo;
    var q := SomeLeastPending(nodes, start, order, v);
    if q == v { return order; }
    OrderGrows(nodes, start, order, q);
    FoundStaysFixed(start, Examined(nodes, order), HopsFrom(nodes, q), v);
    longer := SettleUpTo(nodes, start, order + [q], v);
  }

  /** If every goal gets a shortest route, so does every node discovered on the way. */
  lemma EveryRouteIsShortest(nodes: seq<Node>, start: nat, order: seq<nat>)
    requires LinksClosed(nodes) && start < |nodes| && AlwaysShortest(nodes, start)
    requires SettleOrder(nodes, start, order)
    ensures RoutesAreShortest(nodes, start, order)
    decreases |order|
  {
    hide Found, Shortest, RouteTo, FirstInto;
    var trace := Examined(nodes, order);
    forall v | Found(start, trace, v) ensures Shortest(nodes, start, RouteTo(start, trace, v), v) {
      if v !in order {
        var longer := SettleUpTo(nodes, start, order, v);
      } else {
        var before, u := order[..|order| - 1], order[|order| - 1];
        assert order == before + [u];
        EveryRouteIsShortest(nodes, start, before);
        if v in before { SettledNodesAreFound(nodes, start, before, v); }
        FoundStaysFixed(start, Examined(nodes, before), HopsFrom(nodes, u), v);
      }
    }
  }

  /** On the way along `walk`, the first node not settled. */
  lemma {:induction false} NextOnWalk(nodes: seq<Node>, start: nat, order: seq<nat>, walk: seq<Hop>, u: nat)
      returns (p: nat)
    requires NonNegative(nodes) && RoutesAreShortest(nodes, start, order)
    requires IsWalk(nodes, start, walk, u)
    ensures (u in order && p == u && Found(start, Examined(nodes, order), u))
         || (Pending(nodes, start, order, p) && (p == u || exists h :: h in walk && h.from == p))
    ensures Score(start, Examined(nodes, order), p) <= Cost(walk)
    decreases |walk|
  {
    var trace := Examined(nodes, order);
    StartIsFound(start, trace);
    hide RouteTo, FirstInto, Found;
    if walk == [] {
      p := start;
    } else {
      var h, rest := walk[|walk| - 1], walk[..|walk| - 1];
      assert walk == rest + [h];
      p := NextOnWalk(nodes, start, order, rest, h.from);
      if !Pending(nodes, start, order, p) {
        assert h in trace;
        HopFindsTarget(start, trace, h);
        p := u;
      }
    }
  }

  /** The next node to settle on the way to `u`: `u` itself, or one that does not link to `v`. */
  lemma NextTowards(nodes: seq<Node>, start: nat, order: seq<nat>, walk: seq<Hop>, u: nat, v: nat) returns (q: nat)
    requires NonNegative(nodes) && LinksClosed(nodes) && start < |nodes| && SettleOrder(nodes, start, order)
    requires RoutesAreShortest(nodes, start, order) && FirstContact(nodes, start, walk, u, v) && u !in order
    ensures LeastPending(nodes, start, order, q) && (q == u || !LinksTo(nodes, q, v))
  {
    hide LinksTo, RouteTo, FirstInto, Found, SettleOrder, Cost;
    var p := NextOnWalk(nodes, start, order, walk, u);
    q := SomeLeastPending(nodes, start, order, p);
    var trace := Examined(nodes, order);
    if Score(start, trace, q) == Score(start, trace, p) {
      q := p;
    } else {
      FoundIsReachable(nodes, start, order, q);
      assert IsWalk(nodes, start, RouteTo(start, trace, q), q);
    }
  }

  /** The search can come to `u` with nothing settled that links to `v`. */
  lemma ContactIsMade(nodes: seq<Node>, start: nat, walk: seq<Hop>, u: nat, v: nat) returns (order: seq<nat>)
    requires NonNegative(nodes) && LinksClosed(nodes) && start < |nodes| && AlwaysShortest(nodes, start)
    requires FirstContact(nodes, start, walk, u, v)
    ensures SettleOrder(nodes, start, order) && LeastPending(nodes, start, order, u)
    ensures forall w :: w in order ==> !LinksTo(nodes, w, v)
  {
    assert SettleOrder(nodes, start, []);
    hide LinksTo, Found, SettleOrder, RoutesAreShortest, AlwaysShortest, LeastPending, Shortest;
    order := [];
    while true
      invariant SettleOrder(nodes, start, order) && |order| <= |nodes|
      invariant forall w :: w in order ==> !LinksTo(nodes, w, v)
      decreases |nodes| - |order|
    {
      EveryRouteIsShortest(nodes, start, order);
      var q := NextTowards(nodes, start, order, walk, u, v);
      if q == u { return; }
      OrderGrows(nodes, start, order, q);
      order := order + [q];
    }
  }

  lemma {:induction false} NotFoundUnlessLinked(nodes: seq<Node>, start: nat, order: seq<nat>, v: nat)
    requires v != start && forall w :: w in order ==> !LinksTo(nodes, w, v)
    ensures !Found(start, Examined(nodes, order), v)
  {
    var trace := Examined(nodes, order);
    var i := FirstInto(trace, v);
    if i < |trace| {
      var h := trace[i];
      assert h in trace;
      assert h in HopsFrom(nodes, h.from);
      assert LinksTo(nodes, h.from, v);
    }
  }

  /** A node that `u` links to is then discovered by the first such link. */
  lemma DiscoveredByFirstLink(nodes: seq<Node>, start: nat, earlier: seq<Hop>, u: nat, v: nat)
    requires Found(start, earlier, u) && !Found(start, earlier, v) && LinksTo(nodes, u, v)
    ensures var trace := earlier + HopsFrom(nodes, u);
      Found(start, trace, v) && RouteTo(start, trace, v) == RouteTo(start, earlier, u) + [FirstLink(nodes, u, v)]
  {
    var hops := HopsFrom(nodes, u);
    FirstIntoJoined(earlier, hops, v);
    hide FirstInto, RouteTo;
    NewlyFoundRoute(start, earlier, hops, u, v);
  }

  lemma FirstLinkIsNeeded(nodes: seq<Node>, start: nat, walk: seq<Hop>, u: nat, v: nat)
    requires NonNegative(nodes) && LinksClosed(nodes) && start < |nodes| && AlwaysShortest(nodes, start)
    requires v != start && FirstContact(nodes, start, walk, u, v)
    ensures Shortest(nodes, start, walk + [FirstLink(nodes, u, v)], v)
  {
    hide RouteTo, Found, SettleOrder, AlwaysShortest, Shortest, LinksTo, Examined, FirstLink;
    var order := ContactIsMade(nodes, start, walk, u, v);
    OrderGrows(nodes, start, order, u);
    NotFoundUnlessLinked(nodes, start, order, v);
    DiscoveredByFirstLink(nodes, start, Examined(nodes, order), u, v);
    EveryRouteIsShortest(nodes, start, order);
    EveryRouteIsShortest(nodes, start, order + [u]);
    assert FirstLink(nodes, u, v).from == u;
    SameEnd(nodes, start, RouteTo(start, Examined(nodes, order), u), walk, u, FirstLink(nodes, u, v), v);
  }

  lemma SameEnd(nodes: seq<Node>, start: nat, a: seq<Hop>, b: seq<Hop>, u: nat, h: Hop, v: nat)
    requires Shortest(nodes, start, a, u) && Shortest(nodes, start, b, u) && Shortest(nodes, start, a + [h], v)
    requires h.from == u
    ensures Shortest(nodes, start, b + [h], v)
  {
    assert (a + [h])[..|a|] == a && (b + [h])[..|b|] == b;
  }

  /** Exactly the graphs on which every goal is answered with a shortest route, whichever way ties fall: those
      where each link that can be the first to discover its target ends a shortest walk. */
  lemma AlwaysShortestIffFirstLinksAre(nodes: seq<Node>, start: nat)
    requires NonNegative(nodes) && LinksClosed(nodes) && start < |nodes|
    ensures AlwaysShortest(nodes, start) <==> FirstLinksAreShortest(nodes, start)
  {
    hide Shortest, Found, SettleOrder, RouteTo, FirstLink, LinksTo;
    if AlwaysShortest(nodes, start) {
      forall walk, u, v | v != start && FirstContact(nodes, start, walk, u, v)
        ensures Shortest(nodes, start, walk + [FirstLink(nodes, u, v)], v)
      {
        FirstLinkIsNeeded(nodes, start, walk, u, v);
      }
    }
    if FirstLinksAreShortest(nodes, start) {
      forall order, goal | SettleOrder(nodes, start, order) && LeastPending(nodes, start, order, goal)
        ensures Shortest(nodes, start, RouteTo(start, Examined(nodes, order), goal), goal)
      {
        FirstLinksSuffice(nodes, start, order);
      }
    }
  }

  // ---------------------------------------------------------------- graphs that meet it, and one that does not

  /** Where the cost of a link depends only on the node it enters, the condition is met. */
  lemma TargetPricedMeetsIt(nodes: seq<Node>, start: nat)
    requires NonNegative(nodes) && LinksClosed(nodes) && start < |nodes| && TargetPriced(nodes)
    ensures FirstLinksAreShortest(nodes, start)
  {
    hide FirstLinksAreShortest, LeastPending, SettleOrder, TargetPriced, RouteTo;
    forall order, goal | SettleOrder(nodes, start, order) && LeastPending(nodes, start, order, goal)
      ensures Shortest(nodes, start, RouteTo(start, Examined(nodes, order), goal), goal)
    {
      TargetPricedRouteIsShortest(nodes, start, order, goal);
      LeastPendingIsReached(nodes, start, order, goal);
    }
    AlwaysShortestIffFirstLinksAre(nodes, start);
  }

  lemma LeastPendingIsReached(nodes: seq<Node>, start: nat, order: seq<nat>, goal: nat)
    requires SettleOrder(nodes, start, order) && LeastPending(nodes, start, order, goal)
    ensures IsWalk(nodes, start, RouteTo(start, Examined(nodes, order), goal), goal)
  {
    FoundIsReachable(nodes, start, order, goal);
  }

  ghost predicate Positive(nodes: seq<Node>) {
    forall h :: IsHop(nodes, h) ==> 1 <= h.link.cost
  }

  lemma {:induction false} WalkPasses(nodes: seq<Node>, start: nat, walk: seq<Hop>, u: nat, h: Hop)
      returns (part: seq<Hop>)
    requires Positive(nodes) && IsWalk(nodes, start, walk, u) && h in walk
    ensures IsWalk(nodes, start, part, h.from) && Cost(part) < Cost(walk)
    decreases |walk|
  {
    var rest, last := walk[..|walk| - 1], walk[|walk| - 1];
    assert walk == rest + [last];
    part := rest;
    if h != last { part := WalkPasses(nodes, start, rest, last.from, h); }
  }

  /** Where every link costs something, a node makes first contact simply if it is closest among those that link
      to the target. */
  lemma ContactIsClosestWhenPositive(nodes: seq<Node>, start: nat, walk: seq<Hop>, u: nat, v: nat)
    requires Positive(nodes)
    ensures FirstContact(nodes, start, walk, u, v) <==>
      Shortest(nodes, start, walk, u) && LinksTo(nodes, u, v) && NoneCloserLinks(nodes, start, walk, v)
  {
    hide LinksTo;
    if Shortest(nodes, start, walk, u) && NoneCloserLinks(nodes, start, walk, v) {
      forall h | h in walk ensures !LinksTo(nodes, h.from, v) {
        var part := WalkPasses(nodes, start, walk, u, h);
      }
    }
  }

  /** The triangle meets the condition exactly when its detour is no cheaper; with 10, 1, 1 it does not. */
  lemma TriangleMeetsItIff(direct: nat, out: nat, back: nat)
    ensures FirstLinksAreShortest(Triangle(direct, out, back), 0) <==> direct <= out + back
  {
    hide FirstLinksAreShortest, FirstContact, AlwaysShortest;
    var nodes := Triangle(direct, out, back);
    TriangleIsGraph(direct, out, back);
    AlwaysShortestIffFirstLinksAre(nodes, 0);
    if direct <= out + back {
      TriangleRoutesAreShortest(direct, out, back);
    } else if FirstLinksAreShortest(nodes, 0) {
      TriangleContact(direct, out, back);
      var detour := TriangleDetour(direct, out, back);
      OneHop(0, Link(2, direct));
    }
  }

  lemma TriangleIsGraph(direct: nat, out: nat, back: nat)
    ensures NonNegative(Triangle(direct, out, back)) && LinksClosed(Triangle(direct, out, back))
  {}

  lemma TriangleContact(direct: nat, out: nat, back: nat)
    requires FirstLinksAreShortest(Triangle(direct, out, back), 0)
    ensures Shortest(Triangle(direct, out, back), 0, [Hop(0, Link(2, direct))], 2)
  {
    var nodes := Triangle(direct, out, back);
    FirstIntoIs(HopsFrom(nodes, 0), 2, 0);
    forall other, w | IsWalk(nodes, 0, other, w) ensures 0 <= Cost(other) {
      ScoresNonNegative(nodes, other, 0, w);
    }
    assert FirstContact(nodes, 0, [], 0, 2);
    assert [] + [FirstLink(nodes, 0, 2)] == [Hop(0, Link(2, direct))];
  }

  lemma TriangleRoutesAreShortest(direct: nat, out: nat, back: nat)
    requires direct <= out + back
    ensures AlwaysShortest(Triangle(direct, out, back), 0)
  {
    var nodes := Triangle(direct, out, back);
    forall order, goal | SettleOrder(nodes, 0, order) && LeastPending(nodes, 0, order, goal)
      ensures Shortest(nodes, 0, RouteTo(0, Examined(nodes, order), goal), goal)
    {
      TriangleRouteIsShortest(direct, out, back, order, goal);
    }
  }

  lemma TriangleRouteIsShortest(direct: nat, out: nat, back: nat, order: seq<nat>, goal: nat)
    requires direct <= out + back
    requires SettleOrder(Triangle(direct, out, back), 0, order)
    requires LeastPending(Triangle(direct, out, back), 0, order, goal)
    ensures var nodes := Triangle(direct, out, back);
      Shortest(nodes, 0, RouteTo(0, Examined(nodes, order), goal), goal)
  {
    hide SettleOrder, FirstInto, HopsFrom, Found;
    var nodes := Triangle(direct, out, back);
    LeastPendingIsReached(nodes, 0, order, goal);
    hide LeastPending, RouteTo, Examined;
    forall other | IsWalk(nodes, 0, other, goal) ensures Score(0, Examined(nodes, order), goal) <= Cost(other) {
      TriangleWalkCost(direct, out, back, other, goal);
      TriangleScore(direct, out, back, order, goal);
    }
  }

  lemma TriangleScore(direct: nat, out: nat, back: nat, order: seq<nat>, goal: nat)
    requires SettleOrder(Triangle(direct, out, back), 0, order) && goal <= 2
    requires Pending(Triangle(direct, out, back), 0, order, goal)
    ensures Score(0, Examined(Triangle(direct, out, back), order), goal)
         == if goal == 0 then 0 else if goal == 1 then out else direct
  {
    hide SettleOrder, RouteTo, FirstInto;
    var nodes := Triangle(direct, out, back);
    StartIsFound(0, Examined(nodes, order));
    if goal > 0 {
      GoalPendingMeansStarted(nodes, 0, order, goal);
      FirstIntoIs(HopsFrom(nodes, 0), goal, 2 - goal);
      DirectLinkIsTaken(nodes, 0, order, goal);
      OneHop(0, if goal == 1 then Link(1, out) else Link(2, direct));
    }
  }
}
