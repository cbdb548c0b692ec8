/** `PointGraph`: a growing graph of integer points with an index from points to ids, and its path search. */
module PointGraphs {
  import opened Graphs
  import opened BestFirst
  import opened SearchTheorems
  import opened SearchOptimality
  import opened ShortestRoutes
  import opened OpenSets
  import opened Options

  datatype LinkResult = Linked | FromOutOfRange | InvalidTarget

  /** `NeverReturns` stands for a reconstruction that follows predecessors for ever. */
  datatype SearchResult = OutOfRange | NoPath | NeverReturns | Path(ids: seq<nat>)

  /** `unordered_map::insert`: a key that is present keeps its value. */
  function Insert<K, V>(m: map<K, V>, k: K, v: V): map<K, V> {
    if k in m then m else m[k := v]
  }

  // ---------------------------------------------------------------- what the maps hold

  ghost predicate ScoresFollow(start: nat, trace: seq<Hop>, gScores: map<nat, int>) {
    && (forall v :: v in gScores <==> Found(start, trace, v))
    && (forall v :: v in gScores ==> gScores[v] == Score(start, trace, v))
  }

  function Lookup(m: map<nat, nat>, k: nat): Option<nat> {
    if k in m then Some(m[k]) else None
  }

  /** The node from which `v` was first discovered. */
  function Discoverer(start: nat, trace: seq<Hop>, v: nat): Option<nat> {
    if Found(start, trace, v) && v != start then Some(trace[FirstInto(trace, v)].from) else None
  }

  /** Each discovered node came from its discoverer; the start came from nowhere unless a link back to
      it undercuts its score. */
  ghost predicate CameFromFollows(start: nat, trace: seq<Hop>, cameFrom: map<nat, nat>) {
    && (forall v :: v != start ==> Lookup(cameFrom, v) == Discoverer(start, trace, v))
    && (start in cameFrom <==> StartImproved(start, trace))
    && (start in cameFrom ==> exists h :: Improves(start, trace, h) && h.from == cameFrom[start])
  }

  ghost predicate FromFound(start: nat, trace: seq<Hop>) {
    forall h :: h in trace ==> Found(start, trace, h.from)
  }

  lemma OthersKeep(start: nat, trace: seq<Hop>, h: Hop, v: nat)
    requires Found(start, trace, v) || v != h.link.toId
    ensures Found(start, trace + [h], v) <==> Found(start, trace, v)
    ensures Found(start, trace, v) ==> Score(start, trace + [h], v) == Score(start, trace, v)
  {
    if Found(start, trace, v) {
      FoundStaysFixed(start, trace, [h], v);
    } else {
      NotFoundByOthers(start, trace, h, v);
    }
  }

  /** The score of any node once one more hop has been examined. */
  lemma ScoreAfterHop(start: nat, trace: seq<Hop>, h: Hop, v: nat)
    ensures Found(start, trace + [h], v) <==> Found(start, trace, v) || v == h.link.toId
    ensures Found(start, trace, v) ==> Score(start, trace + [h], v) == Score(start, trace, v)
    ensures !Found(start, trace, v) && v == h.link.toId ==>
      Score(start, trace + [h], v) == Score(start, trace, h.from) + h.link.cost
  {
    if !Found(start, trace, v) && v == h.link.toId {
      FirstHopDecides(start, trace, h);
    } else {
      OthersKeep(start, trace, h, v);
    }
  }

  /** A hop into a node without a score gives it one. */
  lemma InsertGivesScore(start: nat, trace: seq<Hop>, h: Hop, gScores: map<nat, int>)
    requires ScoresFollow(start, trace, gScores)
    requires h.from in gScores && h.link.toId !in gScores
    ensures ScoresFollow(start, trace + [h], gScores[h.link.toId := gScores[h.from] + h.link.cost])
  {
    var g := gScores[h.link.toId := gScores[h.from] + h.link.cost];
    forall v
      ensures v in g <==> Found(start, trace + [h], v)
      ensures v in g ==> g[v] == Score(start, trace + [h], v)
    {
      ScoreAfterHop(start, trace, h, v);
    }
  }

  /** A hop into a node with a score changes no score. */
  lemma InsertKeepsScores(start: nat, trace: seq<Hop>, h: Hop, gScores: map<nat, int>)
    requires ScoresFollow(start, trace, gScores)
    requires Found(start, trace, h.link.toId)
    ensures ScoresFollow(start, trace + [h], gScores)
  {
    forall v
      ensures v in gScores <==> Found(start, trace + [h], v)
      ensures v in gScores ==> gScores[v] == Score(start, trace + [h], v)
    {
      OthersKeep(start, trace, h, v);
    }
  }

  lemma ImprovesKept(start: nat, trace: seq<Hop>, h: Hop, k: Hop)
    requires Found(start, trace, k.from)
    ensures Improves(start, trace, k) ==> Improves(start, trace + [h], k)
    ensures k in trace && Improves(start, trace + [h], k) ==> Improves(start, trace, k)
    ensures Improves(start, trace + [h], k) <==>
      k in trace + [h] && k.link.toId == start && Score(start, trace, k.from) + k.link.cost < 0
  {
    FoundStaysFixed(start, trace, [h], k.from);
  }

  /** The start counts as improved from the first hop on that undercuts it. */
  lemma StartImprovedBy(start: nat, trace: seq<Hop>, h: Hop)
    requires FromFound(start, trace) && Found(start, trace, h.from)
    ensures StartImproved(start, trace + [h]) <==>
      StartImproved(start, trace) || (h.link.toId == start && Score(start, trace, h.from) + h.link.cost < 0)
  {
    ImprovesKept(start, trace, h, h);
    if StartImproved(start, trace) {
      var k :| Improves(start, trace, k);
      ImprovesKept(start, trace, h, k);
    }
    if StartImproved(start, trace + [h]) {
      var k :| Improves(start, trace + [h], k);
      if k in trace { ImprovesKept(start, trace, h, k); }
    }
  }

  lemma DiscovererAfterHop(start: nat, trace: seq<Hop>, h: Hop, v: nat)
    ensures Discoverer(start, trace + [h], v)
         == if !Found(start, trace, v) && v == h.link.toId then Some(h.from) else Discoverer(start, trace, v)
  {
    if v != start {
      var i := FirstInto(trace, v);
      FirstIntoIs(trace + [h], v, if i == |trace| && v != h.link.toId then |trace| + 1 else i);
    }
  }

  /** Recording `h.from` as predecessor whenever the tentative score beats the recorded one, but never over
      a predecessor already there, follows the trace by one hop. */
  lemma InsertFollows(start: nat, trace: seq<Hop>, h: Hop, cameFrom: map<nat, nat>, better: bool)
    requires CameFromFollows(start, trace, cameFrom) && FromFound(start, trace) && Found(start, trace, h.from)
    requires better <==>
      !Found(start, trace, h.link.toId) || Score(start, trace, h.from) + h.link.cost < Score(start, trace, h.link.toId)
    ensures CameFromFollows(start, trace + [h], if better then Insert(cameFrom, h.link.toId, h.from) else cameFrom)
  {
    var c := if better then Insert(cameFrom, h.link.toId, h.from) else cameFrom;
    forall v | v != start
      ensures Lookup(c, v) == Discoverer(start, trace + [h], v)
    {
      DiscovererAfterHop(start, trace, h, v);
      assert Lookup(cameFrom, v) == Discoverer(start, trace, v);
    }
    StartImprovedBy(start, trace, h);
    assert Score(start, trace, start) == 0 by { assert RouteTo(start, trace, start) == []; }
    if start in c { StartPredecessor(start, trace, h, cameFrom, c); }
  }

  lemma StartPredecessor(start: nat, trace: seq<Hop>, h: Hop, cameFrom: map<nat, nat>, c: map<nat, nat>)
    requires CameFromFollows(start, trace, cameFrom) && FromFound(start, trace) && Found(start, trace, h.from)
    requires start in c
    requires if start in cameFrom then c[start] == cameFrom[start]
      else c[start] == h.from && h.link.toId == start && Score(start, trace, h.from) + h.link.cost < 0
    ensures exists k :: Improves(start, trace + [h], k) && k.from == c[start]
  {
    if start in cameFrom {
      var k :| Improves(start, trace, k) && k.from == cameFrom[start];
      ImprovesKept(start, trace, h, k);
    } else {
      ImprovesKept(start, trace, h, h);
    }
  }

  lemma FromFoundExtends(start: nat, trace: seq<Hop>, h: Hop)
    requires FromFound(start, trace) && Found(start, trace, h.from)
    ensures FromFound(start, trace + [h])
  {
    forall k | k in trace + [h]
      ensures Found(start, trace + [h], k.from)
    {
      FoundStaysFixed(start, trace, [h], k.from);
    }
  }

  /** The state of the search after the hops of `trace`: the maps follow it, and the heap holds every
      discovered node not yet visited. */
  ghost predicate InStep(start: nat, trace: seq<Hop>, gScores: map<nat, int>, cameFrom: map<nat, nat>,
      queue: seq<nat>, hasVisited: set<nat>) {
    && ScoresFollow(start, trace, gScores)
    && CameFromFollows(start, trace, cameFrom)
    && FromFound(start, trace)
    && IsHeap(queue, gScores)
    && Queued(gScores, queue, hasVisited)
  }

  ghost predicate Queued(gScores: map<nat, int>, queue: seq<nat>, hasVisited: set<nat>) {
    forall v :: v in gScores && v !in hasVisited ==> v in queue
  }

  /** A hop that beats no recorded score leaves everything as it is. */
  lemma StepWithoutPush(start: nat, trace: seq<Hop>, h: Hop, gScores: map<nat, int>, cameFrom: map<nat, nat>,
      queue: seq<nat>, hasVisited: set<nat>)
    requires InStep(start, trace, gScores, cameFrom, queue, hasVisited)
    requires h.from in gScores && h.link.toId in gScores && gScores[h.from] + h.link.cost >= gScores[h.link.toId]
    ensures InStep(start, trace + [h], gScores, cameFrom, queue, hasVisited)
  {
    InsertFollows(start, trace, h, cameFrom, false);
    InsertKeepsScores(start, trace, h, gScores);
    FromFoundExtends(start, trace, h);
  }

  /** Any other hop writes the maps once and pushes its target. */
  lemma StepWithPush(start: nat, trace: seq<Hop>, h: Hop, gScores: map<nat, int>, cameFrom: map<nat, nat>,
      queue: seq<nat>, hasVisited: set<nat>, pushed: seq<nat>)
    requires InStep(start, trace, gScores, cameFrom, queue, hasVisited)
    requires h.from in gScores && (h.link.toId in gScores ==> gScores[h.from] + h.link.cost < gScores[h.link.toId])
    requires IsHeap(pushed, Insert(gScores, h.link.toId, gScores[h.from] + h.link.cost))
    requires multiset(pushed) == multiset(queue) + multiset{h.link.toId}
    ensures InStep(start, trace + [h], Insert(gScores, h.link.toId, gScores[h.from] + h.link.cost),
                   Insert(cameFrom, h.link.toId, h.from), pushed, hasVisited)
  {
    InsertFollows(start, trace, h, cameFrom, true);
    if h.link.toId in gScores {
      InsertKeepsScores(start, trace, h, gScores);
    } else {
      InsertGivesScore(start, trace, h, gScores);
    }
    FromFoundExtends(start, trace, h);
    PushKeepsQueued(gScores, queue, hasVisited, h.link.toId, gScores[h.from] + h.link.cost, pushed);
  }

  lemma PushKeepsQueued(gScores: map<nat, int>, queue: seq<nat>, hasVisited: set<nat>, id: nat, score: int,
      pushed: seq<nat>)
    requires Queued(gScores, queue, hasVisited) && multiset(pushed) == multiset(queue) + multiset{id}
    ensures Queued(Insert(gScores, id, score), pushed, hasVisited)
  {
    forall v | v in queue || v == id
      ensures v in pushed
    {
      assert v in multiset(queue) || v == id;
      assert v in multiset(pushed);
    }
  }

  lemma PopKeepsQueued(gScores: map<nat, int>, queue: seq<nat>, hasVisited: set<nat>, top: nat, popped: seq<nat>)
    requires Queued(gScores, queue, hasVisited) && multiset(queue) == multiset(popped) + multiset{top}
    ensures Queued(gScores, popped, hasVisited + {top})
    ensures top in hasVisited ==> Queued(gScores, popped, hasVisited)
  {
    forall v | v in queue && v != top
      ensures v in popped
    {
      assert v in multiset(queue);
    }
  }

  // ---------------------------------------------------------------- reconstruction

  /** From `id`, `k + 1` predecessors can be followed one after the other. */
  ghost predicate LeadsOn(cameFrom: map<nat, nat>, id: nat, k: nat)
    decreases k
  {
    id in cameFrom && (k > 0 ==> LeadsOn(cameFrom, cameFrom[id], k - 1))
  }

  lemma {:induction false} NoWayOut(start: nat, trace: seq<Hop>, cameFrom: map<nat, nat>, id: nat, k: nat)
    requires CameFromFollows(start, trace, cameFrom) && FromFound(start, trace) && StartImproved(start, trace)
    requires Found(start, trace, id)
    ensures LeadsOn(cameFrom, id, k)
    decreases k
  {
    if id != start {
      assert Lookup(cameFrom, id) == Discoverer(start, trace, id);
      assert trace[FirstInto(trace, id)] in trace;
    }
    if k > 0 {
      NoWayOut(start, trace, cameFrom, cameFrom[id], k - 1);
    }
  }

  /** One step back along a route, from the node `v` found within the first `t` hops. */
  lemma StepBack(start: nat, trace: seq<Hop>, t: nat, v: nat, cameFrom: map<nat, nat>) returns (i: nat)
    requires Grounded(start, trace) && t <= |trace| && Found(start, trace[..t], v) && v != start
    requires CameFromFollows(start, trace, cameFrom)
    ensures i < t && v in cameFrom && Found(start, trace[..i], cameFrom[v])
    ensures Ids(start, RouteTo(start, trace[..t], v)) == Ids(start, RouteTo(start, trace[..i], cameFrom[v])) + [v]
  {
    i := FirstInto(trace[..t], v);
    FirstIntoIs(trace, v, i);
    assert Lookup(cameFrom, v) == Discoverer(start, trace, v) == Some(trace[i].from);
    assert trace[..t][..i] == trace[..i];
    var r := RouteTo(start, trace[..t], v);
    assert r[..|r| - 1] == RouteTo(start, trace[..i], trace[i].from);
  }

  /** `path` is the tail of the route to `id` from node `v` on, and `v` is found within `t` hops. */
  ghost predicate BackAt(start: nat, trace: seq<Hop>, id: nat, t: nat, v: nat, path: seq<nat>) {
    && t <= |trace| && Found(start, trace[..t], v)
    && path != [] && path[0] == v
    && Ids(start, RouteTo(start, trace[..t], v)) + path[1..] == Ids(start, RouteTo(start, trace, id))
  }

  lemma BackOneMore(start: nat, trace: seq<Hop>, id: nat, t: nat, v: nat, path: seq<nat>, cameFrom: map<nat, nat>)
    returns (i: nat)
    requires BackAt(start, trace, id, t, v, path) && v != start
    requires Grounded(start, trace) && CameFromFollows(start, trace, cameFrom)
    ensures v in cameFrom && i < t && BackAt(start, trace, id, i, cameFrom[v], [cameFrom[v]] + path)
  {
    hide RouteTo, FirstInto, Found, Ids, CameFromFollows, Grounded;
    i := StepBack(start, trace, t, v, cameFrom);
    assert path == [v] + path[1..];
    assert ([cameFrom[v]] + path)[1..] == path;
  }

  lemma BackAtStart(start: nat, trace: seq<Hop>, id: nat, t: nat, path: seq<nat>)
    requires BackAt(start, trace, id, t, start, path)
    ensures path == Ids(start, RouteTo(start, trace, id))
  {
    assert path == [start] + path[1..];
    assert RouteTo(start, trace[..t], start) == [];
  }

  lemma OnlyStartHasNoPredecessor(start: nat, trace: seq<Hop>, id: nat, t: nat, v: nat, path: seq<nat>,
      cameFrom: map<nat, nat>)
    requires BackAt(start, trace, id, t, v, path)
    requires CameFromFollows(start, trace, cameFrom) && !StartImproved(start, trace)
    ensures v in cameFrom <==> v != start
  {
    PrefixStaysFixed(start, trace, t, v);
    if v != start { assert Lookup(cameFrom, v) == Discoverer(start, trace, v); }
  }

  method ReconstructPath(cameFrom: map<nat, nat>, nodeId: nat, ghost start: nat, ghost trace: seq<Hop>)
    returns (path: seq<nat>)
    requires CameFromFollows(start, trace, cameFrom) && !StartImproved(start, trace)
    requires Grounded(start, trace) && Found(start, trace, nodeId)
    ensures path == Ids(start, RouteTo(start, trace, nodeId))
  {
    path := [nodeId];
    var currentNodeId := nodeId;
    ghost var t: nat := |trace|;
    RouteEndsAt(start, trace, nodeId);
    while currentNodeId in cameFrom
      invariant BackAt(start, trace, nodeId, t, currentNodeId, path)
      decreases t
    {
      OnlyStartHasNoPredecessor(start, trace, nodeId, t, currentNodeId, path, cameFrom);
      t := BackOneMore(start, trace, nodeId, t, currentNodeId, path, cameFrom);
      currentNodeId := cameFrom[currentNodeId];
      path := [currentNodeId] + path;
    }
    OnlyStartHasNoPredecessor(start, trace, nodeId, t, currentNodeId, path, cameFrom);
    BackAtStart(start, trace, nodeId, t, path);
  }

  lemma RouteEndsAt(start: nat, trace: seq<Hop>, id: nat)
    requires Found(start, trace, id)
    ensures BackAt(start, trace, id, |trace|, id, [id])
  {
    assert trace[..|trace|] == trace;
  }

  // ---------------------------------------------------------------- what an answer means

  /** The answer `r` is the one a run that settles `order` gives. */
  ghost predicate Answers(nodes: seq<Node>, start: nat, goal: nat, order: seq<nat>, r: SearchResult) {
    if start >= |nodes| || goal >= |nodes| then r == OutOfRange
    else
      var trace := Examined(nodes, order);
      && SettleOrder(nodes, start, order)
      && goal !in order
      && match r
         case OutOfRange => false
         case NoPath => Exhausted(nodes, start, order)
         case NeverReturns => LeastPending(nodes, start, order, goal) && StartImproved(start, trace)
         case Path(ids) =>
           && LeastPending(nodes, start, order, goal) && !StartImproved(start, trace)
           && ids == Ids(start, RouteTo(start, trace, goal))
  }

  /** Sound and complete for costs of any sign: a list comes back iff the goal is reachable, unless the
      reconstruction never ends; and the list is a repeat-free path from start to goal over links whose
      recorded costs add up to the goal's score. */
  lemma AnswerIsSoundAndComplete(nodes: seq<Node>, start: nat, goal: nat, order: seq<nat>, r: SearchResult)
    requires LinksClosed(nodes) && Answers(nodes, start, goal, order, r)
    ensures r.OutOfRange? <==> start >= |nodes| || goal >= |nodes|
    ensures !r.OutOfRange? ==> (r.NoPath? <==> !Reachable(nodes, start, goal))
    ensures r.Path? ==> Distinct(r.ids) && r.ids[0] == start && r.ids[|r.ids| - 1] == goal
    ensures r.Path? ==> exists walk ::
      IsWalk(nodes, start, walk, goal) && Ids(start, walk) == r.ids
      && Cost(walk) == Score(start, Examined(nodes, order), goal)
    ensures r.NeverReturns? ==> exists walk :: IsWalk(nodes, start, walk, start) && Cost(walk) < 0
  {
    match r {
      case OutOfRange =>
      case NoPath => ExhaustedMeansAllReached(nodes, start, order, goal);
      case NeverReturns =>
        FoundIsReachable(nodes, start, order, goal);
        StartImprovedNeedsNegativeCycle(nodes, start, order);
      case Path(ids) =>
        FoundIsReachable(nodes, start, order, goal);
        SettledTraceIsGrounded(nodes, start, order);
        RouteIsSimple(start, Examined(nodes, order), goal);
    }
  }

  /** On the graphs that `ShortestRoutes` finds, whatever list comes back is that of a shortest walk. */
  lemma AnswerIsShortest(nodes: seq<Node>, start: nat, goal: nat, order: seq<nat>, r: SearchResult)
    requires NonNegative(nodes) && LinksClosed(nodes) && FirstLinksAreShortest(nodes, start)
    requires Answers(nodes, start, goal, order, r) && r.Path?
    ensures exists walk :: Shortest(nodes, start, walk, goal) && Ids(start, walk) == r.ids
  {
    AlwaysShortestIffFirstLinksAre(nodes, start);
    hide FirstLinksAreShortest, Shortest, RouteTo;
    assert Shortest(nodes, start, RouteTo(start, Examined(nodes, order), goal), goal);
  }

  /** 0 (start) to 1 to 2 (goal), and a link from 1 back to 0. */
  function WithReturn(out: int, back: int, on: int): seq<Node> {
    [Node(NodePoint(0, 0, 0), [Link(1, out)]),
     Node(NodePoint(1, 0, 0), [Link(0, back), Link(2, on)]),
     Node(NodePoint(2, 0, 0), [])]
  }

  lemma WithReturnHops(out: int, back: int, on: int, h: Hop)
    ensures IsHop(WithReturn(out, back, on), h) <==>
      h == Hop(0, Link(1, out)) || h == Hop(1, Link(0, back)) || h == Hop(1, Link(2, on))
  {
    var nodes := WithReturn(out, back, on);
    assert nodes[0].links[0] in nodes[0].links;
    assert nodes[1].links[0] in nodes[1].links && nodes[1].links[1] in nodes[1].links;
  }

  /** Here the search does not return exactly when going out and back costs less than nothing, as with the
      costs 1, -5 and 1. */
  lemma ReturnsIffCycleNotNegative(out: int, back: int, on: int, order: seq<nat>, r: SearchResult)
    requires Answers(WithReturn(out, back, on), 0, 2, order, r)
    ensures r == NeverReturns <==> out + back < 0
  {
    hide SettleOrder, Found, Score, RouteTo, FirstInto, Exhausted, Reachable, Examined;
    var nodes := WithReturn(out, back, on);
    forall h ensures IsHop(nodes, h) <==>
      h == Hop(0, Link(1, out)) || h == Hop(1, Link(0, back)) || h == Hop(1, Link(2, on))
    {
      WithReturnHops(out, back, on, h);
    }
    AnswerIsSoundAndComplete(nodes, 0, 2, order, r);
    WithReturnReaches(out, back, on);
    GoalPendingMeansStarted(nodes, 0, order, 2);
    var trace := Examined(nodes, order);
    SecondIsSettled(out, back, on, order);
    assert Hop(1, Link(0, back)) in trace;
    assert Improves(0, trace, Hop(1, Link(0, back))) <==> out + back < 0;
    if h :| Improves(0, trace, h) { assert IsHop(nodes, h); }
  }

  lemma WithReturnReaches(out: int, back: int, on: int)
    ensures Reachable(WithReturn(out, back, on), 0, 2)
  {
    var nodes := WithReturn(out, back, on);
    var first, second := Hop(0, Link(1, out)), Hop(1, Link(2, on));
    WithReturnHops(out, back, on, first);
    WithReturnHops(out, back, on, second);
    HopIsWalk(nodes, first);
    HopIsWalk(nodes, second);
    WalksJoin(nodes, 0, [first], 1, [second], 2);
  }

  lemma SecondIsSettled(out: int, back: int, on: int, order: seq<nat>)
    requires SettleOrder(WithReturn(out, back, on), 0, order) && Pending(WithReturn(out, back, on), 0, order, 2)
    ensures 1 in order && Score(0, Examined(WithReturn(out, back, on), order), 1) == out
  {
    hide SettleOrder, RouteTo, Cost;
    var nodes := WithReturn(out, back, on);
    var trace := Examined(nodes, order);
    var h := trace[FirstInto(trace, 2)];
    assert h in trace;
    WithReturnHops(out, back, on, h);
    GoalPendingMeansStarted(nodes, 0, order, 2);
    FirstIntoIs(HopsFrom(nodes, 0), 1, 0);
    DirectLinkIsTaken(nodes, 0, order, 1);
    OneHop(0, Link(1, out));
  }

  ghost predicate IndexAgrees(nodes: seq<Node>, index: map<NodePoint, nat>) {
    && (forall i :: 0 <= i < |nodes| ==> nodes[i].point in index && index[nodes[i].point] <= i)
    && (forall p :: p in index ==> index[p] < |nodes| && nodes[index[p]].point == p)
  }

  lemma IndexGrows(nodes: seq<Node>, index: map<NodePoint, nat>, n: Node)
    requires IndexAgrees(nodes, index)
    ensures IndexAgrees(nodes + [n], Insert(index, n.point, |nodes|))
  {}

  lemma IndexIgnoresLinks(nodes: seq<Node>, index: map<NodePoint, nat>, u: nat, links: seq<Link>)
    requires IndexAgrees(nodes, index) && u < |nodes|
    ensures IndexAgrees(nodes[u := nodes[u].(links := links)], index)
  {}

  lemma IsolatedNodeKeepsClosed(nodes: seq<Node>, n: Node)
    requires LinksClosed(nodes) && n.links == []
    ensures LinksClosed(nodes + [n])
  {
    forall h | IsHop(nodes + [n], h)
      ensures h.link.toId < |nodes + [n]|
    {
      assert IsHop(nodes, h);
    }
  }

  lemma GoodLinkKeepsClosed(nodes: seq<Node>, fromId: nat, link: Link)
    requires LinksClosed(nodes) && fromId < |nodes| && link.toId < |nodes|
    ensures LinksClosed(nodes[fromId := nodes[fromId].(links := nodes[fromId].links + [link])])
  {
    var more := nodes[fromId := nodes[fromId].(links := nodes[fromId].links + [link])];
    forall h | IsHop(more, h)
      ensures h.link.toId < |more|
    {
      assert IsHop(nodes, h) || h == Hop(fromId, link);
    }
  }

  class PointGraph {
    var nodes: seq<Node>
    var nodeIdByPoint: map<NodePoint, nat>

    /** Links end inside the graph, and the index gives the least id with a point. */
    ghost predicate Valid()
      reads this
    {
      LinksClosed(nodes) && IndexAgrees(nodes, nodeIdByPoint)
    }

    constructor ()
      ensures Valid() && nodes == []
    {
      nodes := [];
      nodeIdByPoint := map[];
    }

    method AddNode(x: int, y: int, z: int)
      requires Valid()
      modifies this
      ensures Valid()
      ensures nodes == old(nodes) + [Node(NodePoint(x, y, z), [])]
    {
      var point := NodePoint(x, y, z);
      hide LinksClosed, IndexAgrees;
      nodes := nodes + [Node(point, [])];
      nodeIdByPoint := Insert(nodeIdByPoint, point, |nodes| - 1);
      IsolatedNodeKeepsClosed(old(nodes), Node(point, []));
      IndexGrows(old(nodes), old(nodeIdByPoint), Node(point, []));
    }

    /** A link is refused, and nothing changes, iff one of its ends is not a node. */
    method AddLink(fromId: nat, toId: nat, cost: int) returns (r: LinkResult)
      requires Valid()
      modifies this
      ensures Valid()
      ensures r == if fromId >= |old(nodes)| then FromOutOfRange
                   else if toId >= |old(nodes)| then InvalidTarget
                   else Linked
      ensures r != Linked ==> nodes == old(nodes)
      ensures r == Linked ==>
        var from := old(nodes)[fromId];
        nodes == old(nodes)[fromId := from.(links := from.links + [Link(toId, cost)])]
    {
      hide LinksClosed, IndexAgrees;
      if fromId >= |nodes| { return FromOutOfRange; }
      if toId >= |nodes| { return InvalidTarget; }
      nodes := nodes[fromId := nodes[fromId].(links := nodes[fromId].links + [Link(toId, cost)])];
      GoodLinkKeepsClosed(old(nodes), fromId, Link(toId, cost));
      IndexIgnoresLinks(old(nodes), nodeIdByPoint, fromId, nodes[fromId].links);
      r := Linked;
    }

    /** What a linear scan would find: the least id with the point, and nothing iff no node has it. */
    method GetNodeByPoint(x: int, y: int, z: int) returns (r: Option<nat>)
      requires Valid()
      ensures r.None? <==> forall i :: 0 <= i < |nodes| ==> nodes[i].point != NodePoint(x, y, z)
      ensures r.Some? ==> r.value < |nodes| && nodes[r.value].point == NodePoint(x, y, z)
      ensures r.Some? ==> forall i :: 0 <= i < r.value ==> nodes[i].point != NodePoint(x, y, z)
    {
      var point := NodePoint(x, y, z);
      if point in nodeIdByPoint { r := Some(nodeIdByPoint[point]); } else { r := None; }
    }

    /** The search. Whatever the costs, its answer is that of a settle order; the remaining clauses say
        what this comes to. `order`, `cameFrom` and `pushes` record the run. */
    method FindShortestPath(startNodeId: nat, goalNodeId: nat)
      returns (r: SearchResult, ghost order: seq<nat>, ghost cameFromAtEnd: map<nat, nat>, ghost pushes: nat)
      requires Valid()
      ensures Answers(nodes, startNodeId, goalNodeId, order, r)
      ensures NonNegative(nodes) ==> !r.NeverReturns?
      ensures NonNegative(nodes) && r.Path? ==>
        forall walk :: IsWalk(nodes, startNodeId, walk, goalNodeId) ==>
          Score(startNodeId, Examined(nodes, order), goalNodeId) <= RepricedCost(nodes, walk)
      ensures r.NeverReturns? ==> forall k: nat :: LeadsOn(cameFromAtEnd, goalNodeId, k)
      ensures pushes <= 1 + TotalLinks(nodes)
    {
      hide InStep, TotalLinks, IsWalk, RepricedCost, LeadsOn, RouteTo, FirstInto, Examined, SettleOrder;
      hide Exhausted, HopsFrom, CameFromFollows, StartImproved, Found, Grounded;
      order, cameFromAtEnd, pushes := [], map[], 0;
      if goalNodeId >= |nodes| { return OutOfRange, order, cameFromAtEnd, pushes; }
      if startNodeId >= |nodes| { return OutOfRange, order, cameFromAtEnd, pushes; }

      var gScores: map<nat, int> := map[startNodeId := 0];
      var openSet := new OpenSet();
      openSet.Push(gScores, startNodeId);
      pushes := 1;
      var cameFrom: map<nat, nat> := map[];
      var hasVisited: set<nat> := {};
      SearchStartsInStep(nodes, startNodeId, openSet.ids);

      while openSet.ids != []
        invariant fresh(openSet)
        invariant SettleOrder(nodes, startNodeId, order) && goalNodeId !in order
        invariant InStep(startNodeId, Examined(nodes, order), gScores, cameFrom, openSet.ids, hasVisited)
        invariant hasVisited == Elements(order)
        invariant pushes <= 1 + |Examined(nodes, order)|
        decreases |nodes| - |order|, |openSet.ids|
      {
        var currentNodeId := openSet.ids[0];
        TopIsLeastPending(nodes, startNodeId, order, openSet.ids, gScores, cameFrom);
        if currentNodeId == goalNodeId {
          ExaminedAtMostTotal(nodes, startNodeId, order);
          cameFromAtEnd := cameFrom;
          if startNodeId in cameFrom {
            // reconstructPath would follow predecessors for ever
            ReconstructionNeverEnds(nodes, startNodeId, order, goalNodeId, gScores, cameFrom, openSet.ids, hasVisited);
            return NeverReturns, order, cameFromAtEnd, pushes;
          }
          ReconstructionMayStart(nodes, startNodeId, order, gScores, cameFrom, openSet.ids, hasVisited);
          var path := ReconstructPath(cameFrom, currentNodeId, startNodeId, Examined(nodes, order));
          if NonNegative(nodes) { RouteBeatsEveryRepricedWalk(nodes, startNodeId, order, goalNodeId); }
          return Path(path), order, cameFromAtEnd, pushes;
        }
        ghost var queued := openSet.ids;
        InStepQueue(startNodeId, Examined(nodes, order), gScores, cameFrom, queued, hasVisited);
        var top := openSet.Pop(gScores);
        PopKeepsStep(startNodeId, Examined(nodes, order), gScores, cameFrom, queued, hasVisited, top, openSet.ids);

        if currentNodeId !in hasVisited {
          hasVisited := hasVisited + {currentNodeId};
          OrderGrows(nodes, startNodeId, order, currentNodeId);
          gScores, cameFrom, pushes := ExamineLinks(openSet, startNodeId, currentNodeId, Examined(nodes, order),
                                                    gScores, cameFrom, hasVisited, pushes);
          order := order + [currentNodeId];
        }
      }
      ExaminedAtMostTotal(nodes, startNodeId, order);
      NothingQueuedMeansExhausted(nodes, startNodeId, order, gScores, cameFrom);
      return NoPath, order, cameFrom, pushes;
    }

    /** The inner loop: examines the links of the node just settled, in their order. */
    method ExamineLinks(openSet: OpenSet, startNodeId: nat, currentNodeId: nat, ghost trace: seq<Hop>,
        scores: map<nat, int>, predecessors: map<nat, nat>, ghost hasVisited: set<nat>, ghost pushed: nat)
      returns (gScores: map<nat, int>, cameFrom: map<nat, nat>, ghost pushes: nat)
      requires currentNodeId < |nodes| && currentNodeId in scores
      requires InStep(startNodeId, trace, scores, predecessors, openSet.ids, hasVisited)
      requires pushed <= 1 + |trace|
      modifies openSet
      ensures InStep(startNodeId, trace + HopsFrom(nodes, currentNodeId), gScores, cameFrom, openSet.ids, hasVisited)
      ensures pushes <= 1 + |trace + HopsFrom(nodes, currentNodeId)|
    {
      hide *;
      gScores, cameFrom, pushes := scores, predecessors, pushed;
      var links := nodes[currentNodeId].links;
      ghost var seen := trace;
      HopsUpTo(nodes, currentNodeId, trace, 0);
      for i := 0 to |links|
        invariant currentNodeId in gScores
        invariant seen == trace + HopsFrom(nodes, currentNodeId)[..i]
        invariant InStep(startNodeId, seen, gScores, cameFrom, openSet.ids, hasVisited)
        invariant pushes <= 1 + |trace| + i
      {
        gScores, cameFrom, pushes := ExamineLink(openSet, startNodeId, currentNodeId, links[i], seen,
                                                 gScores, cameFrom, hasVisited, pushes);
        HopsUpTo(nodes, currentNodeId, trace, i);
        seen := seen + [Hop(currentNodeId, links[i])];
      }
      HopsUpTo(nodes, currentNodeId, trace, |links|);
    }

    method ExamineLink(openSet: OpenSet, startNodeId: nat, currentNodeId: nat, link: Link, ghost trace: seq<Hop>,
        scores: map<nat, int>, predecessors: map<nat, nat>, ghost hasVisited: set<nat>, ghost pushed: nat)
      returns (gScores: map<nat, int>, cameFrom: map<nat, nat>, ghost pushes: nat)
      requires currentNodeId in scores
      requires InStep(startNodeId, trace, scores, predecessors, openSet.ids, hasVisited)
      modifies openSet
      ensures currentNodeId in gScores
      ensures InStep(startNodeId, trace + [Hop(currentNodeId, link)], gScores, cameFrom, openSet.ids, hasVisited)
      ensures pushed <= pushes <= pushed + 1
    {
      gScores, cameFrom, pushes := scores, predecessors, pushed;
      ghost var h := Hop(currentNodeId, link);
      var tentativeGScore := gScores[currentNodeId] + link.cost;
      // a node without a score counts as infinitely far away
      if link.toId !in gScores || tentativeGScore < gScores[link.toId] {
        ghost var queued := openSet.ids;
        cameFrom := Insert(cameFrom, link.toId, currentNodeId);
        gScores := Insert(gScores, link.toId, tentativeGScore);
        HeapSurvivesInserts(openSet.ids, scores, gScores);
        openSet.Push(gScores, link.toId);
        StepWithPush(startNodeId, trace, h, scores, predecessors, queued, hasVisited, openSet.ids);
        pushes := pushes + 1;
      } else {
        StepWithoutPush(startNodeId, trace, h, gScores, cameFrom, openSet.ids, hasVisited);
      }
    }
  }

  lemma HopsUpTo(nodes: seq<Node>, u: nat, trace: seq<Hop>, i: nat)
    requires u < |nodes| && i <= |nodes[u].links|
    ensures var hops := HopsFrom(nodes, u);
      && |hops| == |nodes[u].links|
      && (i == 0 ==> trace + hops[..i] == trace)
      && (if i == |hops| then trace + hops[..i] == trace + hops
          else trace + hops[..i + 1] == trace + hops[..i] + [Hop(u, nodes[u].links[i])])
  {
    var hops := HopsFrom(nodes, u);
    if i == |hops| { assert hops[..i] == hops; }
  }

  lemma SearchStartsInStep(nodes: seq<Node>, start: nat, queue: seq<nat>)
    requires multiset(queue) == multiset{start} && IsHeap(queue, map[start := 0])
    ensures SettleOrder(nodes, start, []) && |Examined(nodes, [])| == 0
    ensures InStep(start, Examined(nodes, []), map[start := 0], map[], queue, {})
  {
    assert Examined(nodes, []) == [];
    assert RouteTo(start, [], start) == [];
    assert start in multiset(queue);
  }

  lemma InStepQueue(start: nat, trace: seq<Hop>, gScores: map<nat, int>, cameFrom: map<nat, nat>,
      queue: seq<nat>, hasVisited: set<nat>)
    requires InStep(start, trace, gScores, cameFrom, queue, hasVisited)
    ensures IsHeap(queue, gScores)
  {}

  lemma PopKeepsStep(start: nat, trace: seq<Hop>, gScores: map<nat, int>, cameFrom: map<nat, nat>,
      queue: seq<nat>, hasVisited: set<nat>, top: nat, popped: seq<nat>)
    requires InStep(start, trace, gScores, cameFrom, queue, hasVisited)
    requires IsHeap(popped, gScores) && multiset(queue) == multiset(popped) + multiset{top}
    ensures InStep(start, trace, gScores, cameFrom, popped, hasVisited + {top})
    ensures top in hasVisited ==> InStep(start, trace, gScores, cameFrom, popped, hasVisited)
  {
    PopKeepsQueued(gScores, queue, hasVisited, top, popped);
  }

  lemma ReconstructionNeverEnds(nodes: seq<Node>, start: nat, order: seq<nat>, goal: nat, gScores: map<nat, int>,
      cameFrom: map<nat, nat>, queue: seq<nat>, hasVisited: set<nat>)
    requires InStep(start, Examined(nodes, order), gScores, cameFrom, queue, hasVisited)
    requires SettleOrder(nodes, start, order) && Found(start, Examined(nodes, order), goal) && start in cameFrom
    ensures StartImproved(start, Examined(nodes, order)) && !NonNegative(nodes)
    ensures forall k: nat :: LeadsOn(cameFrom, goal, k)
  {
    hide Found, Score, RouteTo, FirstInto, IsHeap, Queued;
    StartImprovedNeedsNegativeCycle(nodes, start, order);
    forall k: nat
      ensures LeadsOn(cameFrom, goal, k)
    {
      NoWayOut(start, Examined(nodes, order), cameFrom, goal, k);
    }
  }

  lemma ReconstructionMayStart(nodes: seq<Node>, start: nat, order: seq<nat>, gScores: map<nat, int>,
      cameFrom: map<nat, nat>, queue: seq<nat>, hasVisited: set<nat>)
    requires InStep(start, Examined(nodes, order), gScores, cameFrom, queue, hasVisited)
    requires SettleOrder(nodes, start, order) && start !in cameFrom
    ensures !StartImproved(start, Examined(nodes, order)) && Grounded(start, Examined(nodes, order))
    ensures CameFromFollows(start, Examined(nodes, order), cameFrom)
  {
    SettledTraceIsGrounded(nodes, start, order);
  }

  lemma TopIsLeastPending(nodes: seq<Node>, start: nat, order: seq<nat>, queue: seq<nat>, gScores: map<nat, int>,
      cameFrom: map<nat, nat>)
    requires InStep(start, Examined(nodes, order), gScores, cameFrom, queue, Elements(order))
    requires SettleOrder(nodes, start, order) && queue != []
    ensures Found(start, Examined(nodes, order), queue[0]) && queue[0] in gScores
    ensures queue[0] !in order ==> LeastPending(nodes, start, order, queue[0])
  {
    var u := queue[0];
    if u !in order {
      forall w | Pending(nodes, start, order, w)
        ensures Score(start, Examined(nodes, order), u) <= Score(start, Examined(nodes, order), w)
      {
        assert w in gScores && w !in Elements(order);
        var k :| 0 <= k < |queue| && queue[k] == w;
        TopIsLeast(queue, gScores, k);
      }
    }
  }

  lemma NothingQueuedMeansExhausted(nodes: seq<Node>, start: nat, order: seq<nat>, gScores: map<nat, int>,
      cameFrom: map<nat, nat>)
    requires InStep(start, Examined(nodes, order), gScores, cameFrom, [], Elements(order))
    ensures Exhausted(nodes, start, order)
  {
    forall v ensures !Pending(nodes, start, order, v) {
      assert v in gScores <==> Found(start, Examined(nodes, order), v);
      assert v in Elements(order) <==> v in order;
    }
  }
}
