/** Weighted directed graphs as `PointGraph` stores them, and the walks through them.

    A walk is a sequence of hops, so parallel links with different costs stay apart. It is taken
    apart from its last hop, because that is how the search builds its routes. */
module Graphs {
  import opened Numbers

  datatype NodePoint = NodePoint(x: int, y: int, z: int)

  datatype Link = Link(toId: nat, cost: int)

  datatype Node = Node(point: NodePoint, links: seq<Link>)

  /** One link together with the node it leaves. */
  datatype Hop = Hop(from: nat, link: Link)

  ghost predicate IsHop(nodes: seq<Node>, h: Hop) {
    h.from < |nodes| && h.link in nodes[h.from].links
  }

  /** Every link ends at a node of the graph. */
  ghost predicate LinksClosed(nodes: seq<Node>) {
    forall h :: IsHop(nodes, h) ==> h.link.toId < |nodes|
  }

  ghost predicate NonNegative(nodes: seq<Node>) {
    forall h :: IsHop(nodes, h) ==> 0 <= h.link.cost
  }

  ghost predicate CostsWithin(nodes: seq<Node>, lo: int, hi: int) {
    forall h :: IsHop(nodes, h) ==> lo <= h.link.cost <= hi
  }

  /** What a link costs depends only on the node it enters. */
  ghost predicate TargetPriced(nodes: seq<Node>) {
    forall h, k :: IsHop(nodes, h) && IsHop(nodes, k) && h.link.toId == k.link.toId ==> h.link.cost == k.link.cost
  }

  ghost predicate IsWalk(nodes: seq<Node>, from: nat, walk: seq<Hop>, to: nat)
    decreases |walk|
  {
    if walk == [] then from == to
    else
      var h := walk[|walk| - 1];
      IsHop(nodes, h) && h.link.toId == to && IsWalk(nodes, from, walk[..|walk| - 1], h.from)
  }

  ghost predicate Reachable(nodes: seq<Node>, from: nat, to: nat) {
    exists walk :: IsWalk(nodes, from, walk, to)
  }

  function Cost(walk: seq<Hop>): int {
    if walk == [] then 0 else Cost(walk[..|walk| - 1]) + walk[|walk| - 1].link.cost
  }

  /** The node ids a walk passes through. */
  function Ids(from: nat, walk: seq<Hop>): (ids: seq<nat>)
    ensures |ids| == |walk| + 1
  {
    if walk == [] then [from] else Ids(from, walk[..|walk| - 1]) + [walk[|walk| - 1].link.toId]
  }

  function Max(a: int, b: int): int { if a < b then b else a }

  function MaxAmong(links: seq<Link>, to: nat): int {
    if links == [] then 0
    else
      var l := links[|links| - 1];
      Max(MaxAmong(links[..|links| - 1], to), if l.toId == to then l.cost else 0)
  }

  /** The largest cost of any link entering `to`, and 0 when that is negative or no link enters it. */
  function MaxInto(nodes: seq<Node>, to: nat): int {
    if nodes == [] then 0
    else Max(MaxInto(nodes[..|nodes| - 1], to), MaxAmong(nodes[|nodes| - 1].links, to))
  }

  /** What the walk would cost if each of its links were as dear as the dearest link into the same node. */
  function RepricedCost(nodes: seq<Node>, walk: seq<Hop>): int {
    if walk == [] then 0
    else RepricedCost(nodes, walk[..|walk| - 1]) + MaxInto(nodes, walk[|walk| - 1].link.toId)
  }

  lemma {:induction false} MaxAmongIsMax(links: seq<Link>, to: nat)
    ensures 0 <= MaxAmong(links, to)
    ensures forall l :: l in links && l.toId == to ==> l.cost <= MaxAmong(links, to)
    ensures MaxAmong(links, to) == 0 || exists l :: l in links && l.toId == to && l.cost == MaxAmong(links, to)
  {
    if links != [] {
      var rest, l := links[..|links| - 1], links[|links| - 1];
      MaxAmongIsMax(rest, to);
      assert links == rest + [l];
      if MaxAmong(links, to) != 0 && MaxAmong(links, to) == MaxAmong(rest, to) {
        var w :| w in rest && w.toId == to && w.cost == MaxAmong(rest, to);
        assert w in links;
      } else {
        assert l in links;
      }
    }
  }

  /** `MaxInto` is an upper bound on the links entering a node, and the least one. */
  lemma {:induction false} MaxIntoIsMax(nodes: seq<Node>, to: nat)
    ensures 0 <= MaxInto(nodes, to)
    ensures forall h :: IsHop(nodes, h) && h.link.toId == to ==> h.link.cost <= MaxInto(nodes, to)
    ensures MaxInto(nodes, to) == 0
      || exists h :: IsHop(nodes, h) && h.link.toId == to && h.link.cost == MaxInto(nodes, to)
  {
    if nodes != [] {
      var rest, last := nodes[..|nodes| - 1], nodes[|nodes| - 1];
      MaxIntoIsMax(rest, to);
      MaxAmongIsMax(last.links, to);
      forall h | IsHop(nodes, h) && h.link.toId == to
        ensures h.link.cost <= MaxInto(nodes, to)
      {
        if h.from < |rest| { assert IsHop(rest, h); } else { assert h.link in last.links; }
      }
      if MaxInto(nodes, to) != 0 {
        if MaxInto(nodes, to) == MaxInto(rest, to) {
          var h :| IsHop(rest, h) && h.link.toId == to && h.link.cost == MaxInto(rest, to);
          assert IsHop(nodes, h);
        } else {
          var l :| l in last.links && l.toId == to && l.cost == MaxAmong(last.links, to);
          assert IsHop(nodes, Hop(|nodes| - 1, l));
        }
      }
    }
  }

  /** Re-pricing adds at most the spread of the costs for each link. */
  lemma {:induction false} RepricingCostsAtMostTheSpread(nodes: seq<Node>, from: nat, walk: seq<Hop>, to: nat,
      lo: int, hi: int)
    requires IsWalk(nodes, from, walk, to) && CostsWithin(nodes, lo, hi) && 0 <= lo
    ensures Cost(walk) <= RepricedCost(nodes, walk) <= Cost(walk) + |walk| * (hi - lo)
    decreases |walk|
  {
    if walk != [] {
      var rest, h := walk[..|walk| - 1], walk[|walk| - 1];
      RepricingCostsAtMostTheSpread(nodes, from, rest, h.from, lo, hi);
      assert h.link.cost <= MaxInto(nodes, h.link.toId) <= hi by { MaxIntoIsMax(nodes, h.link.toId); }
      assert h.link.cost >= lo;
      OneMore(|rest|, hi - lo);
    }
  }

  /** Where the cost depends on the target alone, re-pricing changes nothing. */
  lemma {:induction false} RepricingIsExactWhenTargetPriced(nodes: seq<Node>, from: nat, walk: seq<Hop>, to: nat)
    requires IsWalk(nodes, from, walk, to) && NonNegative(nodes) && TargetPriced(nodes)
    ensures RepricedCost(nodes, walk) == Cost(walk)
    decreases |walk|
  {
    if walk != [] {
      var h := walk[|walk| - 1];
      RepricingIsExactWhenTargetPriced(nodes, from, walk[..|walk| - 1], h.from);
      MaxIntoIsMax(nodes, h.link.toId);
    }
  }

  /** A walk between two nodes of the graph stays in it. */
  lemma {:induction false} WalkStaysInside(nodes: seq<Node>, from: nat, walk: seq<Hop>, to: nat)
    requires LinksClosed(nodes) && from < |nodes| && IsWalk(nodes, from, walk, to)
    ensures to < |nodes| && forall id :: id in Ids(from, walk) ==> id < |nodes|
    decreases |walk|
  {
    if walk != [] {
      var h := walk[|walk| - 1];
      WalkStaysInside(nodes, from, walk[..|walk| - 1], h.from);
    }
  }
}
