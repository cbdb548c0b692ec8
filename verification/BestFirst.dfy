/** The write-once best-first search, without its maps and its queue.

    All that a run of `findShortestPath` decides is the order in which it settles (visits) nodes. The
    links leaving the settled nodes, in the order they are examined, form a trace. Because every map
    insert keeps the value already there, a node's predecessor and score are fixed by the FIRST hop
    of the trace that enters it. Everything here is stated about that trace; `PointGraph` proves that
    the loop over maps and heap computes the same thing. */
module BestFirst {
  import opened Graphs

  function HopsFrom(nodes: seq<Node>, u: nat): (hops: seq<Hop>)
    ensures forall h {:trigger h in hops} :: h in hops <==> h.from == u && IsHop(nodes, h)
    ensures u < |nodes| ==> |hops| == |nodes[u].links|
    ensures u < |nodes| ==> forall i :: 0 <= i < |hops| ==> hops[i] == Hop(u, nodes[u].links[i])
  {
    var links := if u < |nodes| then nodes[u].links else [];
    var hops := seq(|links|, i requires 0 <= i < |links| => Hop(u, links[i]));
    assert forall h: Hop :: h.from == u && h.link in links ==>
      exists i :: 0 <= i < |links| && links[i] == h.link && hops[i] == h;
    hops
  }

  /** The links of the settled nodes, in the order the search examines them. */
  function Examined(nodes: seq<Node>, order: seq<nat>): (trace: seq<Hop>)
    ensures forall h {:trigger h in trace} :: h in trace <==> h.from in order && IsHop(nodes, h)
  {
    if order == [] then []
    else
      var before, u := order[..|order| - 1], order[|order| - 1];
      assert order == before + [u];
      Examined(nodes, before) + HopsFrom(nodes, u)
  }

  /** Position of the first hop into `v`; the length of the trace when there is none. */
  function FirstInto(trace: seq<Hop>, v: nat): (i: nat)
    ensures i <= |trace|
    ensures i < |trace| ==> trace[i].link.toId == v
    ensures forall j :: 0 <= j < i ==> trace[j].link.toId != v
  {
    if trace == [] then 0
    else if trace[0].link.toId == v then 0
    else 1 + FirstInto(trace[1..], v)
  }

  /** `v` has been reached by the trace, so it has a score. */
  predicate Found(start: nat, trace: seq<Hop>, v: nat) {
    v == start || FirstInto(trace, v) < |trace|
  }

  /** The route by which `v` was first discovered. */
  function RouteTo(start: nat, trace: seq<Hop>, v: nat): seq<Hop>
    decreases |trace|
  {
    var i := FirstInto(trace, v);
    if v == start || i == |trace| then []
    else RouteTo(start, trace[..i], trace[i].from) + [trace[i]]
  }

  function Score(start: nat, trace: seq<Hop>, v: nat): int {
    Cost(RouteTo(start, trace, v))
  }

  ghost predicate Pending(nodes: seq<Node>, start: nat, order: seq<nat>, v: nat)
  {
    v !in order && Found(start, Examined(nodes, order), v)
  }

  /** `v` is discovered, not yet settled, and no such node has a smaller score. */
  ghost predicate LeastPending(nodes: seq<Node>, start: nat, order: seq<nat>, v: nat)
  {
    && Pending(nodes, start, order, v)
    && forall w :: Pending(nodes, start, order, w) ==>
        Score(start, Examined(nodes, order), v) <= Score(start, Examined(nodes, order), w)
  }

  /** Nothing discovered is left to settle. */
  ghost predicate Exhausted(nodes: seq<Node>, start: nat, order: seq<nat>)
  {
    forall v :: !Pending(nodes, start, order, v)
  }

  /** `order` is an order in which the search can settle nodes: each a least pending one when its turn
      came. Ties may fall either way, so this covers every heap implementation. */
  ghost predicate SettleOrder(nodes: seq<Node>, start: nat, order: seq<nat>)
    decreases |order|
  {
    if order == [] then true
    else
      var before, u := order[..|order| - 1], order[|order| - 1];
      assert order == before + [u];
      && SettleOrder(nodes, start, before)
      && LeastPending(nodes, start, before, u)
  }

  // ---------------------------------------------------------------- the trace only ever grows

  lemma FirstIntoIs(trace: seq<Hop>, v: nat, i: nat)
    requires i <= |trace| && (i < |trace| ==> trace[i].link.toId == v)
    requires forall j :: 0 <= j < i ==> trace[j].link.toId != v
    ensures FirstInto(trace, v) == i
  {}

  /** Write-once: what a longer trace adds never changes the route or the score of a node found before. */
  lemma {:induction false} FoundStaysFixed(start: nat, trace: seq<Hop>, more: seq<Hop>, v: nat)
    requires Found(start, trace, v)
    ensures Found(start, trace + more, v)
    ensures RouteTo(start, trace + more, v) == RouteTo(start, trace, v)
    ensures Score(start, trace + more, v) == Score(start, trace, v)
  {
    if v != start {
      var i := FirstInto(trace, v);
      FirstIntoIs(trace + more, v, i);
      assert (trace + more)[..i] == trace[..i];
    }
  }

  lemma PrefixStaysFixed(start: nat, trace: seq<Hop>, k: nat, v: nat)
    requires k <= |trace| && Found(start, trace[..k], v)
    ensures Found(start, trace, v)
    ensures RouteTo(start, trace, v) == RouteTo(start, trace[..k], v)
    ensures Score(start, trace, v) == Score(start, trace[..k], v)
  {
    assert trace == trace[..k] + trace[k..];
    FoundStaysFixed(start, trace[..k], trace[k..], v);
  }

  /** The first hop into a node fixes its route and its score. */
  lemma FirstHopDecides(start: nat, trace: seq<Hop>, h: Hop)
    requires !Found(start, trace, h.link.toId)
    ensures Found(start, trace + [h], h.link.toId)
    ensures RouteTo(start, trace + [h], h.link.toId) == RouteTo(start, trace, h.from) + [h]
    ensures Score(start, trace + [h], h.link.toId) == Score(start, trace, h.from) + h.link.cost
  {
    FirstIntoIs(trace + [h], h.link.toId, |trace|);
    assert (trace + [h])[..|trace|] == trace;
    var r := RouteTo(start, trace, h.from) + [h];
    assert r[..|r| - 1] == RouteTo(start, trace, h.from);
  }

  lemma NotFoundByOthers(start: nat, trace: seq<Hop>, h: Hop, v: nat)
    requires !Found(start, trace, v) && h.link.toId != v
    ensures !Found(start, trace + [h], v)
  {
    FirstIntoIs(trace + [h], v, |trace| + 1);
  }

  /** Every hop of the trace leaves a node found earlier. */
  ghost predicate Grounded(start: nat, trace: seq<Hop>) {
    forall i :: 0 <= i < |trace| ==> Found(start, trace[..i], trace[i].from)
  }

  lemma GroundedExtends(start: nat, trace: seq<Hop>, more: seq<Hop>)
    requires Grounded(start, trace)
    requires forall i :: 0 <= i < |more| ==> Found(start, trace, more[i].from)
    ensures Grounded(start, trace + more)
  {
    forall i | 0 <= i < |trace + more|
      ensures Found(start, (trace + more)[..i], (trace + more)[i].from)
    {
      if i < |trace| {
        assert (trace + more)[..i] == trace[..i];
      } else {
        var k := i - |trace|;
        assert (trace + more)[..i] == trace + more[..k];
        FoundStaysFixed(start, trace, more[..k], more[k].from);
      }
    }
  }

  lemma {:induction false} SettledTraceIsGrounded(nodes: seq<Node>, start: nat, order: seq<nat>)
    requires SettleOrder(nodes, start, order)
    ensures Grounded(start, Examined(nodes, order))
    decreases |order|
  {
    if order != [] {
      var before, u := order[..|order| - 1], order[|order| - 1];
      SettledTraceIsGrounded(nodes, start, before);
      var hops := HopsFrom(nodes, u);
      assert forall i :: 0 <= i < |hops| ==> hops[i] in hops;
      GroundedExtends(start, Examined(nodes, before), hops);
    }
  }

  lemma {:induction false} SettledNodesAreFound(nodes: seq<Node>, start: nat, order: seq<nat>, u: nat)
    requires SettleOrder(nodes, start, order) && u in order
    ensures Found(start, Examined(nodes, order), u)
    decreases |order|
  {
    hide RouteTo, FirstInto, Found, Score, HopsFrom;
    var before, last := order[..|order| - 1], order[|order| - 1];
    assert order == before + [last];
    if u in before { SettledNodesAreFound(nodes, start, before, u); }
    FoundStaysFixed(start, Examined(nodes, before), HopsFrom(nodes, last), u);
  }

  /** No node is settled twice. */
  lemma {:induction false} SettledOnce(nodes: seq<Node>, start: nat, order: seq<nat>, i: nat, j: nat)
    requires SettleOrder(nodes, start, order) && i < j < |order|
    ensures order[i] != order[j]
    decreases |order|
  {
    hide Found, Score, Examined;
    var before, u := order[..|order| - 1], order[|order| - 1];
    if j < |before| {
      SettledOnce(nodes, start, before, i, j);
    } else {
      assert u !in before by { assert LeastPending(nodes, start, before, u); }
      assert before[i] == order[i];
    }
  }
}
