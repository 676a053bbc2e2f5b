/** Single-target shortest paths on a directed graph of nodes and links that are changed in place. */
module Topology {
  import opened FewestHops
  import opened Lists
  import opened Optional
  import opened ShortestPaths

  class Link {
    var srcNode: Node?
    var srcGateId: int
    var destNode: Node?
    var destGateId: int
    var weight: Dist
    var enabled: bool

    /** A gate is forgotten when the end moves to another node. */
    method SetEnds(newSource: Node, newDest: Node)
      modifies this`srcNode, this`srcGateId, this`destNode, this`destGateId
      ensures srcNode == newSource && destNode == newDest
      ensures srcGateId == if old(srcNode) == newSource then old(srcGateId) else -1
      ensures destGateId == if old(destNode) == newDest then old(destGateId) else -1
    {
      if srcNode != newSource {
        srcGateId := -1;
      }
      if destNode != newDest {
        destGateId := -1;
      }
      srcNode, destNode := newSource, newDest;
    }
  }

  class Node {
    const moduleId: int
    var weight: Dist
    var enabled: bool
    var inLinks: seq<Link>
    var outLinks: seq<Link>
    var dist: Dist
    var outPath: Link?
  }

  class Topology {
    var nodes: seq<Node>
    var target: Node?
    ghost var links: set<Link>

    // ---------------------------------------------------------------- the graph as a value

    ghost predicate NodeMirrored(g: Graph, i: int)
      requires 0 <= i < |nodes| == |g.inEdges| == |g.nodeWeight|
      reads this`nodes, this`links, nodes`weight, nodes`inLinks
    {
      && g.nodeWeight[i] == nodes[i].weight
      && |g.inEdges[i]| == |nodes[i].inLinks|
      && forall k :: 0 <= k < |nodes[i].inLinks| ==> nodes[i].inLinks[k] in links
    }

    ghost predicate LinkMirrored(g: Graph, h: Hop)
      requires |nodes| == |g.inEdges|
      reads this`nodes, this`links, nodes`inLinks, nodes`enabled, links`srcNode, links`weight, links`enabled
    {
      HopOf(g, h) && h.k < |nodes[h.dest].inLinks| && nodes[h.dest].inLinks[h.k] in links ==>
        var l := nodes[h.dest].inLinks[h.k];
        var e := EdgeOf(g, h);
        && NodeOf(g, e.src)
        && l.srcNode == nodes[e.src]
        && l.weight == e.weight
        && e.usable == (l.enabled && nodes[e.src].enabled)
    }

    /** g is the graph that the nodes and links form. */
    ghost predicate Mirrors(g: Graph)
      reads this`nodes, this`links, nodes`weight, nodes`inLinks, nodes`enabled, links`srcNode, links`weight,
            links`enabled
    {
      && |nodes| == |g.inEdges| == |g.nodeWeight|
      && Distinct(nodes)
      && (forall i :: 0 <= i < |nodes| ==> NodeMirrored(g, i))
      && (forall h :: LinkMirrored(g, h))
    }

    ghost function LinkOf(o: Option<Hop>): Link?
      reads this`nodes, nodes`inLinks
    {
      if o.Some? && 0 <= o.value.dest < |nodes| && 0 <= o.value.k < |nodes[o.value.dest].inLinks|
      then nodes[o.value.dest].inLinks[o.value.k] else null
    }

    ghost predicate Labelled(i: int, e: Dist, o: Option<Hop>)
      requires 0 <= i < |nodes|
      reads this`nodes, nodes`inLinks, nodes`dist, nodes`outPath
    {
      nodes[i].dist == e && nodes[i].outPath == LinkOf(o)
    }

    /** The nodes carry the labels d and the next hops out. */
    ghost predicate Carry(d: seq<Dist>, out: seq<Option<Hop>>)
      reads this`nodes, nodes`inLinks, nodes`dist, nodes`outPath
    {
      |d| == |out| == |nodes| && forall i :: 0 <= i < |nodes| ==> Labelled(i, d[i], out[i])
    }

    ghost predicate Queued(q: seq<Node>, qi: seq<int>)
      reads this`nodes
    {
      |q| == |qi| && forall m :: 0 <= m < |q| ==> QueuedAt(q[m], qi[m])
    }

    ghost predicate QueuedAt(n: Node, i: int)
      reads this`nodes
    {
      0 <= i < |nodes| && n == nodes[i]
    }

    // ---------------------------------------------------------------- std::list operations

    /** list::remove on a list without duplicates; `a` is where x was. */
    method Remove(q: seq<Node>, x: Node, ghost a: int) returns (rest: seq<Node>)
      requires 0 <= a < |q| && q[a] == x && forall m :: 0 <= m < |q| && m != a ==> q[m] != x
      ensures rest == q[..a] + q[a + 1..]
    {
      rest := [];
      var i := 0;
      while i < |q|
        invariant 0 <= i <= |q|
        invariant rest == if i <= a then q[..i] else q[..a] + q[a + 1..i]
      {
        if q[i] != x {
          rest := rest + [q[i]];
        }
        i := i + 1;
      }
    }

    /** Inserts x before the first node with a larger label. */
    method InsertInOrder(q: seq<Node>, x: Node, newdist: Dist) returns (r: seq<Node>, ghost pos: int)
      ensures 0 <= pos <= |q| && r == q[..pos] + [x] + q[pos..]
      ensures forall m :: 0 <= m < pos ==> AtMost(q[m].dist, newdist)
      ensures pos < |q| ==> Greater(q[pos].dist, newdist)
    {
      var it := 0;
      while it < |q| && !Greater(q[it].dist, newdist)
        invariant 0 <= it <= |q|
        invariant forall m :: 0 <= m < it ==> AtMost(q[m].dist, newdist)
      {
        it := it + 1;
      }
      r, pos := q[..it] + [x] + q[it..], it;
    }

    /** Clears all labels, then marks the target. */
    method Initialise(newTarget: Node, ghost g: Graph, ghost u: Graph)
      requires Mirrors(g) && Priced(u) && |u.inEdges| == |g.inEdges| && newTarget == nodes[u.target]
      modifies nodes`dist, nodes`outPath
      ensures Carry(StartLabels(u), StartHops(u))
    {
      var i := 0;
      while i < |nodes|
        invariant 0 <= i <= |nodes|
        invariant forall j :: 0 <= j < i ==> nodes[j].dist == Infinite && nodes[j].outPath == null
      {
        nodes[i].dist := Infinite;
        nodes[i].outPath := null;
        i := i + 1;
      }
      newTarget.dist := ZERO;
      forall j | 0 <= j < |nodes| ensures Labelled(j, StartLabels(u)[j], StartHops(u)[j]) {
        assert Differ(nodes, j, u.target);
      }
    }

    // ---------------------------------------------------------------- weighted search

    method CalculateWeightedSingleShortestPathsTo(newTarget: Node?, ghost g: Graph)
      returns (ok: bool, ghost order: seq<int>)
      requires newTarget != null ==> Mirrors(g) && Priced(g) && newTarget == nodes[g.target]
      modifies this`target, nodes`dist, nodes`outPath
      ensures ok == (newTarget != null)
      ensures ok ==> target == newTarget && exists d, out :: Carry(d, out) && Final(g, d, out, order)
      ensures ok ==> forall i :: 0 <= i < |nodes| ==> Shortest(g, i, nodes[i].dist)
      ensures !ok ==> target == old(target) && forall n :: n in nodes ==>
          n.dist == old(n.dist) && n.outPath == old(n.outPath)
    {
      order := [];
      if newTarget == null {
        return false, order;
      }
      ok, target := true, newTarget;
      ghost var d, out := StartLabels(g), StartHops(g);
      Initialise(newTarget, g, g);
      Start(g);
      var q: seq<Node> := [newTarget];
      ghost var qi := [g.target];
      assert QueuedAt(q[0], qi[0]);
      while q != []
        invariant Frontier(g, d, out, order, qi) && Carry(d, out) && Queued(q, qi) && target == newTarget
        invariant forall h :: HopOf(g, h) && h.dest in order ==> Relaxed(g, d, h)
        decreases |g.inEdges| - |order|
      {
        assert QueuedAt(q[0], qi[0]);
        Pop(g, d, out, order, qi);
        FrontierFits(g, d, out, order, qi);
        var dest := q[0];
        q := q[1..];
        order, qi := order + [qi[0]], qi[1..];
        q, d, out, qi := RelaxLinks(dest, q, g, d, out, order, qi);
        RoundDone(g, d, order, |dest.inLinks|);
      }
      assert qi == [];
      SearchDone(g, d, out, order);
      LabelsShortest(g, d, out, order);
    }

    /** Tries to improve the labels at the other ends of all links into dest. */
    method RelaxLinks(dest: Node, q0: seq<Node>, ghost g: Graph, ghost d0: seq<Dist>, ghost out0: seq<Option<Hop>>,
            ghost order: seq<int>, ghost qi0: seq<int>)
      returns (q: seq<Node>, ghost d: seq<Dist>, ghost out: seq<Option<Hop>>, ghost qi: seq<int>)
      requires Mirrors(g) && Frontier(g, d0, out0, order, qi0) && Carry(d0, out0) && Queued(q0, qi0)
      requires target == nodes[g.target]
      requires order != [] && QueuedAt(dest, Last(order)) && RelaxedUpTo(g, d0, order, 0)
      modifies nodes`dist, nodes`outPath
      ensures Frontier(g, d, out, order, qi) && Carry(d, out) && Queued(q, qi)
      ensures RelaxedUpTo(g, d, order, |dest.inLinks|) && |dest.inLinks| == |g.inEdges[Last(order)]|
    {
      q, d, out, qi := q0, d0, out0, qi0;
      var i := 0;
      assert NodeMirrored(g, Last(order));
      while i < |dest.inLinks|
        invariant 0 <= i <= |dest.inLinks|
        invariant Frontier(g, d, out, order, qi) && Carry(d, out) && Queued(q, qi)
        invariant RelaxedUpTo(g, d, order, i)
      {
        q, d, out, qi := RelaxLink(dest, i, q, g, d, out, order, qi);
        i := i + 1;
      }
    }

    method RelaxLink(dest: Node, k: int, q0: seq<Node>, ghost g: Graph, ghost d0: seq<Dist>,
            ghost out0: seq<Option<Hop>>, ghost order: seq<int>, ghost qi0: seq<int>)
      returns (q: seq<Node>, ghost d: seq<Dist>, ghost out: seq<Option<Hop>>, ghost qi: seq<int>)
      requires Mirrors(g) && Frontier(g, d0, out0, order, qi0) && Carry(d0, out0) && Queued(q0, qi0)
      requires target == nodes[g.target]
      requires order != [] && QueuedAt(dest, Last(order)) && 0 <= k < |dest.inLinks| && RelaxedUpTo(g, d0, order, k)
      modifies nodes`dist, nodes`outPath
      ensures Frontier(g, d, out, order, qi) && Carry(d, out) && Queued(q, qi)
      ensures RelaxedUpTo(g, d, order, k + 1)
    {
      q, d, out, qi := q0, d0, out0, qi0;
      ghost var h := Hop(Last(order), k);
      var link := dest.inLinks[k];
      LinkEnds(g, d, out, h);
      if !link.enabled {
        Skip(g, d, order, h);
        return;
      }
      var src := link.srcNode;
      if !src.enabled {
        Skip(g, d, order, h);
        return;
      }
      var newdist := Plus(dest.dist, link.weight);
      TargetFacts(g, h.dest);
      if dest != target {
        newdist := Plus(newdist, dest.weight);
      }
      assert newdist == Plus(d[h.dest], Step(g, h));
      if newdist != Infinite && Greater(src.dist, newdist) {
        q, d, out, qi := Requeue(src, link, newdist, q, g, d, out, order, qi, h);
      } else {
        Skip(g, d, order, h);
      }
    }

    /** A link and the nodes it joins are as g and the labels say. */
    lemma LinkEnds(g: Graph, d: seq<Dist>, out: seq<Option<Hop>>, h: Hop)
      requires Mirrors(g) && Carry(d, out) && NodeOf(g, h.dest) && 0 <= h.k < |nodes[h.dest].inLinks|
      ensures HopOf(g, h)
      ensures var l, e := nodes[h.dest].inLinks[h.k], EdgeOf(g, h);
        && NodeOf(g, e.src) && l.srcNode == nodes[e.src] && l.weight == e.weight
        && e.usable == (l.enabled && nodes[e.src].enabled)
        && nodes[e.src].dist == d[e.src] && nodes[h.dest].dist == d[h.dest]
        && nodes[h.dest].weight == g.nodeWeight[h.dest]
    {
      assert NodeMirrored(g, h.dest) && nodes[h.dest].inLinks[h.k] in links;
      assert LinkMirrored(g, h);
      assert Labelled(h.dest, d[h.dest], out[h.dest]);
      assert Labelled(EdgeOf(g, h).src, d[EdgeOf(g, h).src], out[EdgeOf(g, h).src]);
    }

    lemma TargetFacts(g: Graph, i: int)
      requires Mirrors(g) && Priced(g) && NodeOf(g, i)
      ensures nodes[i] == nodes[g.target] <==> i == g.target
    {
      assert Differ(nodes, i, g.target);
    }

    /** Gives src a better label and its new place in the queue. */
    method Requeue(src: Node, link: Link, newdist: Dist, q0: seq<Node>, ghost g: Graph, ghost d0: seq<Dist>,
            ghost out0: seq<Option<Hop>>, ghost order: seq<int>, ghost qi0: seq<int>, ghost h: Hop)
      returns (q: seq<Node>, ghost d: seq<Dist>, ghost out: seq<Option<Hop>>, ghost qi: seq<int>)
      requires Mirrors(g) && Frontier(g, d0, out0, order, qi0) && Carry(d0, out0) && Queued(q0, qi0)
      requires order != [] && Usable(g, h) && h.dest == Last(order) && RelaxedUpTo(g, d0, order, h.k)
      requires NodeOf(g, EdgeOf(g, h).src) && src == nodes[EdgeOf(g, h).src] && link == LinkOf(Some(h))
      requires newdist == Plus(d0[h.dest], Step(g, h)) && Greater(d0[EdgeOf(g, h).src], newdist)
      modifies src`dist, src`outPath
      ensures Frontier(g, d, out, order, qi) && Carry(d, out) && Queued(q, qi)
      ensures RelaxedUpTo(g, d, order, h.k + 1)
    {
      ghost var s, rest := EdgeOf(g, h).src, qi0;
      assert Labelled(s, d0[s], out0[s]);
      NotExpanded(g, d0, out0, order, qi0, h);
      q := q0;
      if src.dist != Infinite {
        ghost var a := WhereQueued(g, d0, out0, order, qi0, s, q0);
        q := Remove(q0, src, a);
        rest := Dropped(qi0, a);
        WithoutQueued(q0, qi0, a);
      }
      RestOrdered(g, d0, out0, order, qi0, s, rest);
      assert s in rest ==> s in order + rest;
      q, d, out, qi := Enqueue(src, link, newdist, q, g, d0, out0, rest, s, h);
      ghost var pos := PositionOf(d0, rest, s, newdist, qi);
      Improve(g, d0, out0, order, qi0, h, rest, pos);
    }

    /** A reached node that is not expanded is queued, once. */
    lemma WhereQueued(g: Graph, d: seq<Dist>, out: seq<Option<Hop>>, order: seq<int>, qi: seq<int>, s: int,
            q: seq<Node>)
      returns (a: int)
      requires Mirrors(g) && Frontier(g, d, out, order, qi) && Queued(q, qi)
      requires NodeOf(g, s) && s !in order && d[s].Finite?
      ensures 0 <= a < |qi| && qi[a] == s
      ensures forall m :: 0 <= m < |q| && m != a ==> q[m] != nodes[s]
    {
      assert Reached(d, order + qi, s);
      a :| 0 <= a < |qi| && qi[a] == s;
      forall m | 0 <= m < |q| && m != a ensures q[m] != nodes[s] {
        assert QueuedAt(q[m], qi[m]) && QueuedAt(q[a], qi[a]);
        assert InOrder(d, order + qi, |order| + m, |order| + a) && InOrder(d, order + qi, |order| + a, |order| + m);
        assert Differ(nodes, qi[m], s);
      }
    }

    lemma WithoutQueued(q: seq<Node>, qi: seq<int>, a: int)
      requires Queued(q, qi) && 0 <= a < |q|
      ensures Queued(q[..a] + q[a + 1..], Dropped(qi, a))
    {
      var q', qi' := q[..a] + q[a + 1..], Dropped(qi, a);
      forall m | 0 <= m < |q'| ensures QueuedAt(q'[m], qi'[m]) {
        assert QueuedAt(q[if m < a then m else m + 1], qi[if m < a then m else m + 1]);
      }
    }

    ghost predicate Placed(d: seq<Dist>, rest: seq<int>, s: int, e: Dist, qi: seq<int>, pos: int) {
      && 0 <= pos <= |rest| && qi == Inserted(rest, pos, s)
      && (forall m :: 0 <= m < |rest| ==> 0 <= rest[m] < |d|)
      && (pos > 0 ==> AtMost(d[rest[pos - 1]], e))
      && (pos < |rest| ==> Greater(d[rest[pos]], e))
    }

    lemma PositionOf(d: seq<Dist>, rest: seq<int>, s: int, e: Dist, qi: seq<int>) returns (pos: int)
      requires exists p :: Placed(d, rest, s, e, qi, p)
      ensures Placed(d, rest, s, e, qi, pos)
    {
      pos :| Placed(d, rest, s, e, qi, pos);
    }

    /** Sets the label of a node that is not queued, and queues it. */
    method Enqueue(src: Node, link: Link, newdist: Dist, q0: seq<Node>, ghost g: Graph, ghost d0: seq<Dist>,
            ghost out0: seq<Option<Hop>>, ghost rest: seq<int>, ghost s: int, ghost h: Hop)
      returns (q: seq<Node>, ghost d: seq<Dist>, ghost out: seq<Option<Hop>>, ghost qi: seq<int>)
      requires Mirrors(g) && Carry(d0, out0) && Queued(q0, rest) && NodeOf(g, s) && s !in rest && src == nodes[s]
      requires link == LinkOf(Some(h))
      modifies src`dist, src`outPath
      ensures d == d0[s := newdist] && out == out0[s := Some(h)] && Carry(d, out) && Queued(q, qi)
      ensures exists pos :: Placed(d0, rest, s, newdist, qi, pos)
    {
      src.dist := newdist;
      src.outPath := link;
      d, out := d0[s := newdist], out0[s := Some(h)];
      forall i | 0 <= i < |nodes| ensures Labelled(i, d[i], out[i]) {
        assert old(Labelled(i, d0[i], out0[i]));
        assert Differ(nodes, i, s);
      }
      forall m | 0 <= m < |rest| ensures QueuedAt(q0[m], rest[m]) && q0[m].dist == d0[rest[m]] {
        assert QueuedAt(q0[m], rest[m]);
        assert Labelled(rest[m], d[rest[m]], out[rest[m]]);
      }
      ghost var pos;
      q, pos := InsertInOrder(q0, src, newdist);
      qi := Inserted(rest, pos, s);
      assert Placed(d0, rest, s, newdist, qi, pos);
      forall m | 0 <= m < |q| ensures QueuedAt(q[m], qi[m]) {
        assert m < pos ==> QueuedAt(q0[m], rest[m]);
        assert m > pos ==> QueuedAt(q0[m - 1], rest[m - 1]);
      }
    }

    // ---------------------------------------------------------------- breadth-first search

    method CalculateUnweightedSingleShortestPathsTo(newTarget: Node?, ghost g: Graph)
      returns (ok: bool, ghost order: seq<int>)
      requires newTarget != null ==> Mirrors(g) && Joined(g) && newTarget == nodes[g.target]
      modifies this`target, nodes`dist, nodes`outPath
      ensures ok == (newTarget != null)
      ensures ok ==> target == newTarget && exists d, out :: Carry(d, out) && Final(Unit(g), d, out, order)
      ensures ok ==> Priced(Unit(g)) && forall i :: 0 <= i < |nodes| ==>
          Shortest(Unit(g), i, nodes[i].dist) && FewestLinks(g, i, nodes[i].dist)
      ensures !ok ==> target == old(target) && forall n :: n in nodes ==>
          n.dist == old(n.dist) && n.outPath == old(n.outPath)
    {
      hide Witnessed, Relaxed, Reached, InOrder;
      order := [];
      if newTarget == null {
        return false, order;
      }
      ok, target := true, newTarget;
      UnitPriced(g);
      ghost var u := Unit(g);
      ghost var d, out := StartLabels(u), StartHops(u);
      Initialise(newTarget, g, u);
      Start(u);
      var q: seq<Node> := [newTarget];
      ghost var qi := [g.target];
      assert QueuedAt(q[0], qi[0]);
      while q != []
        invariant Frontier(u, d, out, order, qi) && Carry(d, out) && Queued(q, qi) && target == newTarget
        invariant qi != [] ==> Close(g, d, order, qi)
        invariant forall h :: HopOf(u, h) && h.dest in order ==> Relaxed(u, d, h)
        decreases |g.inEdges| - |order|
      {
        q, d, out, order, qi := DiscoverRound(q, g, d, out, order, qi);
      }
      assert qi == [];
      SearchDone(u, d, out, order);
      LabelsShortest(u, d, out, order);
      forall i | 0 <= i < |nodes| ensures FewestLinks(g, i, nodes[i].dist) {
        UnitShortest(g, i, nodes[i].dist);
      }
    }

    lemma LabelsShortest(g: Graph, d: seq<Dist>, out: seq<Option<Hop>>, order: seq<int>)
      requires Carry(d, out) && Final(g, d, out, order)
      ensures forall i :: 0 <= i < |nodes| ==> Shortest(g, i, nodes[i].dist)
    {
      forall i | 0 <= i < |nodes| ensures Shortest(g, i, nodes[i].dist) {
        FinalIsShortest(g, d, out, order, i);
        assert Labelled(i, d[i], out[i]);
      }
    }

    method DiscoverRound(q0: seq<Node>, ghost g: Graph, ghost d0: seq<Dist>, ghost out0: seq<Option<Hop>>,
            ghost order0: seq<int>, ghost qi0: seq<int>)
      returns (q: seq<Node>, ghost d: seq<Dist>, ghost out: seq<Option<Hop>>, ghost order: seq<int>, ghost qi: seq<int>)
      requires Mirrors(g) && Joined(g) && Frontier(Unit(g), d0, out0, order0, qi0) && Carry(d0, out0) && Queued(q0, qi0)
      requires q0 != [] && Close(g, d0, order0, qi0)
      requires forall h :: HopOf(Unit(g), h) && h.dest in order0 ==> Relaxed(Unit(g), d0, h)
      modifies nodes`dist, nodes`outPath
      ensures Frontier(Unit(g), d, out, order, qi) && Carry(d, out) && Queued(q, qi) && Close(g, d, order, qi)
      ensures forall h :: HopOf(Unit(g), h) && h.dest in order ==> Relaxed(Unit(g), d, h)
      ensures |order0| < |order| <= |g.inEdges|
    {
      ghost var u := Unit(g);
      assert QueuedAt(q0[0], qi0[0]);
      Pop(u, d0, out0, order0, qi0);
      PopClose(g, d0, out0, order0, qi0);
      FrontierFits(u, d0, out0, order0, qi0);
      var v := q0[0];
      q, order, qi := q0[1..], order0 + [qi0[0]], qi0[1..];
      QueuedTail(q0, qi0);
      q, d, out, qi := DiscoverLinks(v, q, g, d0, out0, order, qi);
      RoundDone(u, d, order, |v.inLinks|);
    }

    lemma QueuedTail(q: seq<Node>, qi: seq<int>)
      requires Queued(q, qi) && q != []
      ensures Queued(q[1..], qi[1..])
    {
      forall m | 0 <= m < |q[1..]| ensures QueuedAt(q[1..][m], qi[1..][m]) { assert QueuedAt(q[m + 1], qi[m + 1]); }
    }

    /** Labels and queues the nodes not reached before at the other ends of the links into v. */
    method DiscoverLinks(v: Node, q0: seq<Node>, ghost g: Graph, ghost d0: seq<Dist>, ghost out0: seq<Option<Hop>>,
            ghost order: seq<int>, ghost qi0: seq<int>)
      returns (q: seq<Node>, ghost d: seq<Dist>, ghost out: seq<Option<Hop>>, ghost qi: seq<int>)
      requires Mirrors(g) && Joined(g) && Frontier(Unit(g), d0, out0, order, qi0) && Carry(d0, out0) && Queued(q0, qi0)
      requires order != [] && QueuedAt(v, Last(order)) && RelaxedUpTo(Unit(g), d0, order, 0) && Close(g, d0, order, qi0)
      modifies nodes`dist, nodes`outPath
      ensures Frontier(Unit(g), d, out, order, qi) && Carry(d, out) && Queued(q, qi) && Close(g, d, order, qi)
      ensures RelaxedUpTo(Unit(g), d, order, |v.inLinks|) && |v.inLinks| == |g.inEdges[Last(order)]|
    {
      q, d, out, qi := q0, d0, out0, qi0;
      var i := 0;
      assert NodeMirrored(g, Last(order));
      while i < |v.inLinks|
        invariant 0 <= i <= |v.inLinks|
        invariant Frontier(Unit(g), d, out, order, qi) && Carry(d, out) && Queued(q, qi) && Close(g, d, order, qi)
        invariant RelaxedUpTo(Unit(g), d, order, i)
      {
        q, d, out, qi := DiscoverLink(v, i, q, g, d, out, order, qi);
        i := i + 1;
      }
    }

    method DiscoverLink(v: Node, k: int, q0: seq<Node>, ghost g: Graph, ghost d0: seq<Dist>,
            ghost out0: seq<Option<Hop>>, ghost order: seq<int>, ghost qi0: seq<int>)
      returns (q: seq<Node>, ghost d: seq<Dist>, ghost out: seq<Option<Hop>>, ghost qi: seq<int>)
      requires Mirrors(g) && Joined(g) && Frontier(Unit(g), d0, out0, order, qi0) && Carry(d0, out0) && Queued(q0, qi0)
      requires order != [] && QueuedAt(v, Last(order)) && 0 <= k < |v.inLinks| && RelaxedUpTo(Unit(g), d0, order, k)
        && Close(g, d0, order, qi0)
      modifies nodes`dist, nodes`outPath
      ensures Frontier(Unit(g), d, out, order, qi) && Carry(d, out) && Queued(q, qi) && Close(g, d, order, qi)
      ensures RelaxedUpTo(Unit(g), d, order, k + 1)
    {
      q, d, out, qi := q0, d0, out0, qi0;
      ghost var h := Hop(Last(order), k);
      LinkEnds(g, d, out, h);
      UnitEdge(g, h);
      var link := v.inLinks[k];
      var w := link.srcNode;
      ghost var s := EdgeOf(g, h).src;
      if link.enabled && w.enabled && w.dist == Infinite {
        Discover(g, d, out, order, qi, h);
        w.dist := Plus(v.dist, ONE);
        w.outPath := link;
        q := q + [w];
        d, out, qi := d[s := Plus(d[h.dest], ONE)], out[s := Some(h)], qi + [s];
        forall i | 0 <= i < |nodes| ensures Labelled(i, d[i], out[i]) {
          assert old(Labelled(i, d0[i], out0[i]));
          assert Differ(nodes, i, s);
        }
        forall m | 0 <= m < |q| ensures QueuedAt(q[m], qi[m]) {
          assert m < |q0| ==> QueuedAt(q0[m], qi0[m]);
        }
      } else {
        Known(g, d, out, order, qi, h);
        Skip(Unit(g), d, order, h);
      }
    }

    // ---------------------------------------------------------------- changing the graph

    /** The lists of a node hold links of the graph that start or end there, each once. */
    ghost predicate NodeFits(n: Node)
      reads this`links, n`outLinks, n`inLinks, links`srcNode, links`destNode
    {
      && Distinct(n.outLinks) && Distinct(n.inLinks)
      && (forall l :: l in n.outLinks ==> l in links && l.srcNode == n)
      && (forall l :: l in n.inLinks ==> l in links && l.destNode == n)
    }

    /** A link joins nodes of the graph and is in the lists of both. */
    ghost predicate LinkFits(l: Link)
      reads this`nodes, l`srcNode, l`destNode, nodes`outLinks, nodes`inLinks
    {
      && l.srcNode in nodes && l.destNode in nodes
      && l in l.srcNode.outLinks && l in l.destNode.inLinks
    }

    ghost predicate Consistent()
      reads this`nodes, this`links, nodes`outLinks, nodes`inLinks, links`srcNode, links`destNode
    {
      && Distinct(nodes)
      && (forall n :: n in nodes ==> NodeFits(n))
      && (forall l :: l in links ==> LinkFits(l))
    }

    method UnlinkFromSourceNode(link: Link)
      requires link.srcNode != null && link in link.srcNode.outLinks
      modifies link.srcNode`outLinks
      ensures link.srcNode.outLinks == Removed(old(link.srcNode.outLinks), link)
    {
      var n := link.srcNode;
      n.outLinks := Erased(n.outLinks, link);
    }

    method UnlinkFromDestNode(link: Link)
      requires link.destNode != null && link in link.destNode.inLinks
      modifies link.destNode`inLinks
      ensures link.destNode.inLinks == Removed(old(link.destNode.inLinks), link)
    {
      var n := link.destNode;
      n.inLinks := Erased(n.inLinks, link);
    }

    /** Takes a link out of the lists it is in. */
    method Unlink(link: Link)
      requires Consistent() && (link in links || (link.srcNode == null && link.destNode == null))
      modifies nodes`outLinks, nodes`inLinks
      ensures forall n :: n in nodes ==> n.outLinks == Removed(old(n.outLinks), link)
      ensures forall n :: n in nodes ==> n.inLinks == Removed(old(n.inLinks), link)
    {
      assert link in links ==> LinkFits(link);
      forall n | n in nodes && n != link.srcNode ensures Removed(n.outLinks, link) == n.outLinks {
        assert NodeFits(n) && (link in links ==> LinkFits(link));
        RemovedAbsent(n.outLinks, link);
      }
      forall n | n in nodes && n != link.destNode ensures Removed(n.inLinks, link) == n.inLinks {
        assert NodeFits(n);
        RemovedAbsent(n.inLinks, link);
      }
      if link.srcNode != null {
        UnlinkFromSourceNode(link);
      }
      if link.destNode != null {
        UnlinkFromDestNode(link);
      }
    }

    /** Takes a link out of the graph, if it is in. */
    method TakeOut(link: Link)
      requires Consistent() && (link in links || (link.srcNode == null && link.destNode == null))
      modifies this`links, nodes`outLinks, nodes`inLinks
      ensures Consistent() && links == old(links) - {link}
      ensures forall n :: n in nodes ==> n.outLinks == Removed(old(n.outLinks), link)
      ensures forall n :: n in nodes ==> n.inLinks == Removed(old(n.inLinks), link)
    {
      Unlink(link);
      links := links - {link};
      forall n | n in nodes ensures NodeFits(n) {
        assert old(NodeFits(n));
        RemovedFacts(old(n.outLinks), link);
        RemovedFacts(old(n.inLinks), link);
      }
      forall l | l in links ensures LinkFits(l) {
        assert old(LinkFits(l));
        RemovedFacts(old(l.srcNode.outLinks), link);
        RemovedFacts(old(l.destNode.inLinks), link);
      }
    }

    /** Puts a link between two nodes, taking it from where it was before. */
    method AddLink(link: Link, srcNode: Node, destNode: Node)
      requires Consistent() && srcNode in nodes && destNode in nodes
      requires link in links || (link.srcNode == null && link.destNode == null)
      modifies this`links, link`srcNode, link`destNode, link`srcGateId, link`destGateId, nodes`outLinks, nodes`inLinks
      ensures Consistent() && links == old(links) + {link}
      ensures link.srcNode == srcNode && link.destNode == destNode
      ensures link.srcGateId == if old(link.srcNode) == srcNode then old(link.srcGateId) else -1
      ensures link.destGateId == if old(link.destNode) == destNode then old(link.destGateId) else -1
      ensures forall n :: n in nodes ==>
          n.outLinks == Removed(old(n.outLinks), link) + (if n == srcNode then [link] else [])
      ensures forall n :: n in nodes ==>
          n.inLinks == Removed(old(n.inLinks), link) + (if n == destNode then [link] else [])
    {
      TakeOut(link);
      Attach(link, srcNode, destNode);
    }

    method Attach(link: Link, srcNode: Node, destNode: Node)
      requires Consistent() && srcNode in nodes && destNode in nodes && link !in links
      modifies this`links, link`srcNode, link`destNode, link`srcGateId, link`destGateId, srcNode`outLinks,
               destNode`inLinks
      ensures Consistent() && links == old(links) + {link}
      ensures link.srcNode == srcNode && link.destNode == destNode
      ensures link.srcGateId == if old(link.srcNode) == srcNode then old(link.srcGateId) else -1
      ensures link.destGateId == if old(link.destNode) == destNode then old(link.destGateId) else -1
      ensures srcNode.outLinks == old(srcNode.outLinks) + [link] && destNode.inLinks == old(destNode.inLinks) + [link]
    {
      assert NodeFits(srcNode) && NodeFits(destNode);
      link.SetEnds(srcNode, destNode);
      srcNode.outLinks := srcNode.outLinks + [link];
      destNode.inLinks := destNode.inLinks + [link];
      links := links + {link};
      forall n | n in nodes ensures NodeFits(n) {
        assert old(NodeFits(n));
        LastDistinct(old(n.outLinks), link);
        LastDistinct(old(n.inLinks), link);
      }
      forall l | l in links ensures LinkFits(l) {
        assert l != link ==> old(LinkFits(l));
      }
    }

    method DeleteLink(link: Link)
      requires Consistent() && link in links
      modifies this`links, nodes`outLinks, nodes`inLinks
      ensures Consistent() && links == old(links) - {link}
      ensures forall n :: n in nodes ==> n.outLinks == Removed(old(n.outLinks), link)
      ensures forall n :: n in nodes ==> n.inLinks == Removed(old(n.inLinks), link)
    {
      TakeOut(link);
    }

    // ---------------------------------------------------------------- deleting a node

    /** The links that start or end at a node. */
    ghost function Touching(node: Node): set<Link>
      reads this`links, links`srcNode, links`destNode
    {
      set l | l in links && (l.srcNode == node || l.destNode == node)
    }

    ghost predicate InFits(n: Node)
      reads this`links, n`inLinks, links`destNode
    {
      Distinct(n.inLinks) && forall l :: l in n.inLinks ==> l in links && l.destNode == n
    }

    method UnlinkOutgoing(node: Node)
      requires node in nodes && Distinct(node.outLinks)
      requires forall l :: l in node.outLinks ==> l.destNode in nodes && l in l.destNode.inLinks
      requires forall n :: n in nodes ==> InFits(n)
      modifies nodes`inLinks, node`outLinks
      ensures node.outLinks == []
      ensures forall n :: n in nodes ==> n.inLinks == Kept(old(n.inLinks), Elements(old(node.outLinks)))
    {
      ghost var outs := node.outLinks;
      forall n | n in nodes ensures n.inLinks == Kept(n.inLinks, Elements(outs[..0])) {
        KeptAll(n.inLinks, Elements(outs[..0]));
      }
      var i := 0;
      while i < |node.outLinks|
        invariant 0 <= i <= |outs| && node.outLinks == outs
        invariant forall n :: n in nodes ==> n.inLinks == Kept(old(n.inLinks), Elements(outs[..i]))
      {
        var link := node.outLinks[i];
        NotBefore(outs, i);
        KeptHas(old(link.destNode.inLinks), Elements(outs[..i]), link);
        UnlinkFromDestNode(link);
        ElementsNext(outs, i);
        forall n | n in nodes ensures n.inLinks == Kept(old(n.inLinks), Elements(outs[..i + 1])) {
          assert old(InFits(n));
          KeptStep(old(n.inLinks), Elements(outs[..i]), link, n == link.destNode);
        }
        i := i + 1;
      }
      assert outs[..i] == outs;
      node.outLinks := [];
    }

    ghost predicate OutFits(n: Node)
      reads this`links, n`outLinks, links`srcNode
    {
      Distinct(n.outLinks) && forall l :: l in n.outLinks ==> l in links && l.srcNode == n
    }

    method UnlinkIncoming(node: Node)
      requires node in nodes && Distinct(node.inLinks)
      requires forall l :: l in node.inLinks ==> l.srcNode in nodes && l.srcNode != node && l in l.srcNode.outLinks
      requires forall n :: n in nodes ==> OutFits(n)
      modifies nodes`outLinks, node`inLinks
      ensures node.inLinks == []
      ensures forall n :: n in nodes ==> n.outLinks == Kept(old(n.outLinks), Elements(old(node.inLinks)))
    {
      ghost var ins := node.inLinks;
      forall n | n in nodes ensures n.outLinks == Kept(n.outLinks, Elements(ins[..0])) {
        KeptAll(n.outLinks, Elements(ins[..0]));
      }
      var i := 0;
      while i < |node.inLinks|
        invariant 0 <= i <= |ins| && node.inLinks == ins
        invariant forall n :: n in nodes ==> n.outLinks == Kept(old(n.outLinks), Elements(ins[..i]))
      {
        var link := node.inLinks[i];
        NotBefore(ins, i);
        KeptHas(old(link.srcNode.outLinks), Elements(ins[..i]), link);
        UnlinkFromSourceNode(link);
        ElementsNext(ins, i);
        forall n | n in nodes ensures n.outLinks == Kept(old(n.outLinks), Elements(ins[..i + 1])) {
          assert old(OutFits(n));
          KeptStep(old(n.outLinks), Elements(ins[..i]), link, n == link.srcNode);
        }
        i := i + 1;
      }
      assert ins[..i] == ins;
      node.inLinks := [];
    }

    /** Takes all links of a node out of the lists of the other nodes. */
    method UnlinkAll(node: Node)
      requires Consistent() && node in nodes
      modifies nodes`outLinks, nodes`inLinks
      ensures node.outLinks == [] && node.inLinks == []
      ensures forall n :: n in nodes && n != node ==> n.inLinks == Kept(old(n.inLinks), Touching(node))
      ensures forall n :: n in nodes && n != node ==> n.outLinks == Kept(old(n.outLinks), Touching(node))
    {
      assert NodeFits(node);
      forall l | l in node.outLinks ensures l.destNode in nodes && l in l.destNode.inLinks { assert LinkFits(l); }
      forall n | n in nodes ensures InFits(n) { assert NodeFits(n); }
      UnlinkOutgoing(node);
      KeptDistinct(old(node.inLinks), Elements(old(node.outLinks)));
      forall l | l in node.inLinks
        ensures l.srcNode in nodes && l.srcNode != node && l in l.srcNode.outLinks
      {
        KeptHas(old(node.inLinks), Elements(old(node.outLinks)), l);
        assert old(LinkFits(l));
      }
      forall n | n in nodes ensures OutFits(n) {
        assert old(NodeFits(n));
      }
      ghost var ins := node.inLinks;
      UnlinkIncoming(node);
      forall n | n in nodes && n != node ensures n.inLinks == Kept(old(n.inLinks), Touching(node)) {
        assert old(NodeFits(n));
        OnlyOutgoing(old(n.inLinks), old(node.outLinks), node);
      }
      forall n | n in nodes && n != node ensures n.outLinks == Kept(old(n.outLinks), Touching(node)) {
        assert old(NodeFits(n));
        forall l | l in old(n.outLinks) ensures l in Elements(ins) <==> l in Touching(node) {
          KeptHas(old(node.inLinks), Elements(old(node.outLinks)), l);
          assert old(LinkFits(l));
        }
        KeptSame(old(n.outLinks), Elements(ins), Touching(node));
      }
    }

    /** Of the links that end elsewhere, those that touch the node are the ones that start there. */
    lemma OnlyOutgoing(s: seq<Link>, outs: seq<Link>, node: Node)
      requires forall l :: l in s ==> l in links && l.destNode != node
      requires forall l :: l in outs ==> l.srcNode == node
      requires forall l :: l in s && l.srcNode == node ==> l in outs
      ensures Kept(s, Elements(outs)) == Kept(s, Touching(node))
    {
      KeptSame(s, Elements(outs), Touching(node));
    }

    /** Deletes a node and all links that touch it; the other lists keep their order. */
    method DeleteNode(node: Node)
      requires Consistent() && node in nodes
      modifies this`nodes, this`links, nodes`outLinks, nodes`inLinks
      ensures Consistent() && nodes == Removed(old(nodes), node)
      ensures links == old(links) - old(Touching(node))
      ensures forall n :: n in old(nodes) && n != node ==> n.inLinks == Kept(old(n.inLinks), old(Touching(node)))
      ensures forall n :: n in old(nodes) && n != node ==> n.outLinks == Kept(old(n.outLinks), old(Touching(node)))
    {
      ghost var gone := Touching(node);
      Isolate(node);
      Forget(node, gone);
    }

    method Forget(node: Node, ghost gone: set<Link>)
      requires node in nodes && Distinct(nodes)
      requires forall n :: n in nodes && n != node ==> NodeFits(n) && Spares(n, gone)
      requires forall l :: l in links && l !in gone ==> LinkFits(l) && l.srcNode != node && l.destNode != node
      modifies this`nodes, this`links
      ensures Consistent() && nodes == Removed(old(nodes), node) && links == old(links) - gone
    {
      RemovedFacts(nodes, node);
      nodes := Erased(nodes, node);
      links := links - gone;
      forall n | n in nodes ensures NodeFits(n) {
        assert old(NodeFits(n)) && Spares(n, gone);
      }
      forall l | l in links ensures LinkFits(l) {
        assert old(LinkFits(l));
      }
    }

    /** After this the node and its links can be forgotten. */
    method Isolate(node: Node)
      requires Consistent() && node in nodes
      modifies nodes`outLinks, nodes`inLinks
      ensures forall n :: n in nodes && n != node ==> n.inLinks == Kept(old(n.inLinks), Touching(node))
      ensures forall n :: n in nodes && n != node ==> n.outLinks == Kept(old(n.outLinks), Touching(node))
      ensures forall n :: n in nodes && n != node ==> NodeFits(n) && Spares(n, Touching(node))
      ensures forall l :: l in links && l !in Touching(node) ==> LinkFits(l)
    {
      UnlinkAll(node);
      ghost var gone := Touching(node);
      forall n | n in nodes && n != node ensures NodeFits(n) && Spares(n, gone) {
        assert old(NodeFits(n));
        KeptFacts(old(n.outLinks), gone);
        KeptFacts(old(n.inLinks), gone);
      }
      forall l | l in links && l !in gone ensures LinkFits(l) {
        assert old(LinkFits(l));
        KeptHas(old(l.srcNode.outLinks), gone, l);
        KeptHas(old(l.destNode.inLinks), gone, l);
      }
    }

    ghost predicate Spares(n: Node, gone: set<Link>)
      reads n`outLinks, n`inLinks
    {
      (forall l :: l in n.outLinks ==> l !in gone) && (forall l :: l in n.inLinks ==> l !in gone)
    }

    // ---------------------------------------------------------------- the graph that the objects form

    ghost function IndexOf(n: Node?): (i: int)
      reads this`nodes
      ensures n in nodes ==> 0 <= i < |nodes| && nodes[i] == n
    {
      if n in nodes then var i :| 0 <= i < |nodes| && nodes[i] == n; i else -1
    }

    ghost function EdgeFor(l: Link): Edge
      reads this`nodes, this`links, nodes`enabled, links`srcNode, links`weight, links`enabled
    {
      if l in links && l.srcNode in nodes
      then Edge(IndexOf(l.srcNode), l.weight, l.enabled && l.srcNode.enabled)
      else Edge(-1, Infinite, false)
    }

    ghost function EdgesFor(ls: seq<Link>): (s: seq<Edge>)
      reads this`nodes, this`links, nodes`enabled, links`srcNode, links`weight, links`enabled
      ensures |s| == |ls| && forall k :: 0 <= k < |s| ==> s[k] == EdgeFor(ls[k])
    {
      if ls == [] then [] else [EdgeFor(ls[0])] + EdgesFor(ls[1..])
    }

    ghost function EdgesInto(n: nat): (s: seq<seq<Edge>>)
      requires n <= |nodes|
      reads this`nodes, this`links, nodes`inLinks, nodes`enabled, links`srcNode, links`weight, links`enabled
      ensures |s| == n && forall i :: 0 <= i < n ==> s[i] == EdgesFor(nodes[i].inLinks)
    {
      if n == 0 then [] else EdgesInto(n - 1) + [EdgesFor(nodes[n - 1].inLinks)]
    }

    ghost function Weights(n: nat): (s: seq<Dist>)
      requires n <= |nodes|
      reads this`nodes, nodes`weight
      ensures |s| == n && forall i :: 0 <= i < n ==> s[i] == nodes[i].weight
    {
      if n == 0 then [] else Weights(n - 1) + [nodes[n - 1].weight]
    }

    ghost function GraphOf(t: int): Graph
      reads this`nodes, this`links, nodes`weight, nodes`inLinks, nodes`enabled, links`srcNode, links`weight,
            links`enabled
    {
      Graph(t, EdgesInto(|nodes|), Weights(|nodes|))
    }

    /** What the searches need to know about the objects holds of every consistent topology. */
    lemma ConsistentMirrors(t: int)
      requires Consistent()
      ensures Mirrors(GraphOf(t))
    {
      var g := GraphOf(t);
      forall i | 0 <= i < |nodes| ensures NodeMirrored(g, i) {
        assert NodeFits(nodes[i]);
      }
      forall h ensures LinkMirrored(g, h) {
        if HopOf(g, h) {
          var l := nodes[h.dest].inLinks[h.k];
          assert NodeFits(nodes[h.dest]) && LinkFits(l);
          assert EdgeOf(g, h) == EdgeFor(l);
        }
      }
    }

    /** Weights as the search demands them. */
    ghost predicate GoodWeights()
      reads this`nodes, this`links, nodes`weight, nodes`enabled, links`srcNode, links`weight, links`enabled
    {
      && (forall n :: n in nodes ==> AtMost(ZERO, n.weight))
      && (forall l :: l in links && l.enabled && l.srcNode in nodes && l.srcNode.enabled ==> Greater(l.weight, ZERO))
    }

    lemma ConsistentPriced(t: int)
      requires Consistent() && GoodWeights() && 0 <= t < |nodes|
      ensures Priced(GraphOf(t)) && Joined(GraphOf(t))
    {
      var g := GraphOf(t);
      forall h ensures EdgeOk(g, h) {
        if HopOf(g, h) {
          var l := nodes[h.dest].inLinks[h.k];
          assert NodeFits(nodes[h.dest]) && LinkFits(l);
          assert EdgeOf(g, h) == EdgeFor(l);
        }
      }
      forall h ensures SourceOk(g, h) { assert EdgeOk(g, h); }
    }

    // ---------------------------------------------------------------- the order of the nodes

    /** std::lower_bound on the nodes, which are ordered by module id. */
    method LowerBound(moduleId: int) returns (p: nat)
      requires Ascends(nodes)
      ensures p <= |nodes|
      ensures forall i :: 0 <= i < p ==> Unsigned(nodes[i].moduleId) < Unsigned(moduleId)
      ensures forall i :: p <= i < |nodes| ==> Unsigned(nodes[i].moduleId) >= Unsigned(moduleId)
    {
      p := 0;
      var hi := |nodes|;
      while p < hi
        invariant p <= hi <= |nodes|
        invariant forall i :: 0 <= i < p ==> Unsigned(nodes[i].moduleId) < Unsigned(moduleId)
        invariant forall i :: hi <= i < |nodes| ==> Unsigned(nodes[i].moduleId) >= Unsigned(moduleId)
      {
        var mid := (p + hi) / 2;
        if Unsigned(nodes[mid].moduleId) < Unsigned(moduleId) {
          p := mid + 1;
        } else {
          hi := mid;
        }
      }
    }

    method AddNode(node: Node) returns (index: nat)
      requires Consistent() && Ascends(nodes) && IdOk(node.moduleId)
      requires node !in nodes && node.inLinks == [] && node.outLinks == []
      modifies this`nodes
      ensures Consistent() && Ascends(nodes)
      ensures index <= |old(nodes)| && nodes == old(nodes)[..index] + [node] + old(nodes)[index..]
    {
      if node.moduleId == -1 {
        index := |nodes|;
        nodes := nodes + [node];
      } else {
        index := LowerBound(node.moduleId);
        nodes := nodes[..index] + [node] + nodes[index..];
      }
      assert nodes == Inserted(old(nodes), index, node);
      InsertedDistinct(old(nodes), index, node);
      forall n | n in nodes ensures NodeFits(n) {
        assert n == node || old(NodeFits(n));
      }
      forall l | l in links ensures LinkFits(l) {
        assert old(LinkFits(l));
      }
    }

    /** The node with a module id, if there is one. */
    method GetNodeFor(moduleId: int) returns (n: Node?)
      requires Ascends(nodes) && IdOk(moduleId)
      ensures n != null ==> n in nodes && n.moduleId == moduleId
      ensures n == null ==> forall m :: m in nodes ==> m.moduleId != moduleId
    {
      var it := LowerBound(moduleId);
      if it == |nodes| || nodes[it].moduleId != moduleId {
        n := null;
      } else {
        n := nodes[it];
      }
    }
  }

  /** The comparison of module ids is unsigned, so that nodes without one come last. */
  function Unsigned(moduleId: int): int {
    moduleId % 0x1_0000_0000
  }

  predicate IdOk(moduleId: int) {
    -1 <= moduleId < 0x8000_0000
  }

  ghost predicate Ascends(s: seq<Node>) {
    && (forall i :: 0 <= i < |s| ==> IdOk(s[i].moduleId))
    && (forall i, j :: 0 <= i < j < |s| ==> Unsigned(s[i].moduleId) <= Unsigned(s[j].moduleId))
  }

  /** Deleting a node keeps the order. */
  lemma {:induction false} RemovedAscends(s: seq<Node>, x: Node)
    requires Ascends(s)
    ensures Ascends(Removed(s, x))
    ensures forall y :: y in Removed(s, x) ==> y in s
  {
    if s != [] && s[0] != x {
      RemovedAscends(s[1..], x);
      var r := Removed(s[1..], x);
      forall j | 0 <= j < |r| ensures Unsigned(s[0].moduleId) <= Unsigned(r[j].moduleId) {
        assert r[j] in r;
      }
    }
  }
}
