/** The breadth-first search: the same frontier argument on a graph whose links all cost one. */
module FewestHops {
  import opened Lists
  import opened Optional
  import opened ShortestPaths

  const ONE := Finite(1.0)

  ghost predicate Joined(g: Graph) {
    NodeOf(g, g.target) && forall h :: SourceOk(g, h)
  }

  ghost predicate SourceOk(g: Graph, h: Hop) {
    HopOf(g, h) ==> NodeOf(g, EdgeOf(g, h).src)
  }

  ghost function UnitEdges(edges: seq<Edge>): seq<Edge> {
    seq(|edges|, k requires 0 <= k < |edges| => edges[k].(weight := ONE))
  }

  /** The graph with weight one for links and none for nodes. */
  ghost function Unit(g: Graph): Graph {
    Graph(g.target,
          seq(|g.inEdges|, i requires 0 <= i < |g.inEdges| => UnitEdges(g.inEdges[i])),
          seq(|g.inEdges|, i => ZERO))
  }

  lemma UnitEdge(g: Graph, h: Hop)
    ensures HopOf(Unit(g), h) <==> HopOf(g, h)
    ensures HopOf(g, h) ==> EdgeOf(Unit(g), h) == EdgeOf(g, h).(weight := ONE)
  {
  }

  lemma UnitPriced(g: Graph)
    requires Joined(g)
    ensures Priced(Unit(g))
  {
    forall h ensures EdgeOk(Unit(g), h) {
      UnitEdge(g, h);
      assert SourceOk(g, h);
    }
  }

  lemma UnitStep(g: Graph, h: Hop)
    requires Joined(g) && HopOf(g, h)
    ensures Priced(Unit(g)) && HopOf(Unit(g), h) && Step(Unit(g), h) == ONE
  {
    UnitPriced(g);
    UnitEdge(g, h);
  }

  // ------------------------------------------------------------------ hops and costs

  lemma {:induction false} UnitPath(g: Graph, p: seq<Hop>, x: int)
    ensures IsPath(Unit(g), p, x) <==> IsPath(g, p, x)
  {
    if p != [] {
      UnitEdge(g, p[0]);
      UnitPath(g, p[1..], p[0].dest);
    }
  }

  lemma {:induction false} UnitCost(g: Graph, p: seq<Hop>, x: int)
    requires Priced(Unit(g)) && IsPath(Unit(g), p, x)
    ensures PathCosts(Unit(g), p, x, Finite(|p| as real))
  {
    PathHops(Unit(g), p, x);
    if p != [] {
      UnitEdge(g, p[0]);
      UnitCost(g, p[1..], p[0].dest);
    }
  }

  ghost predicate Walk(g: Graph, p: seq<Hop>, x: int, n: nat) {
    IsPath(g, p, x) && |p| == n
  }

  /** d is the number of links on a walk with the fewest links, or infinite if there is no walk. */
  ghost predicate FewestLinks(g: Graph, x: int, d: Dist) {
    if d.Infinite? then forall p, n :: !Walk(g, p, x, n)
    else
      && (exists p, n :: Walk(g, p, x, n) && d.value == n as real)
      && (forall p, n :: Walk(g, p, x, n) ==> d.value <= n as real)
  }

  lemma UnitShortest(g: Graph, x: int, d: Dist)
    requires Priced(Unit(g)) && Shortest(Unit(g), x, d)
    ensures FewestLinks(g, x, d)
  {
    forall p, n | Walk(g, p, x, n) ensures d.Finite? && d.value <= n as real {
      UnitPath(g, p, x);
      UnitCost(g, p, x);
    }
    if d.Finite? {
      var p :| PathCosts(Unit(g), p, x, d);
      UnitPath(g, p, x);
      UnitCost(g, p, x);
      assert Walk(g, p, x, |p|);
    }
  }

  /** Weights that do not distinguish links: one for every usable link, none for nodes. */
  ghost predicate Uniform(g: Graph) {
    && |g.nodeWeight| == |g.inEdges|
    && (forall i :: 0 <= i < |g.nodeWeight| ==> g.nodeWeight[i] == ZERO)
    && (forall h :: UniformAt(g, h))
  }

  ghost predicate UniformAt(g: Graph, h: Hop) {
    Usable(g, h) ==> EdgeOf(g, h).weight == ONE
  }

  lemma {:induction false} UniformCost(g: Graph, p: seq<Hop>, x: int)
    requires Priced(g) && Priced(Unit(g)) && Uniform(g) && IsPath(g, p, x)
    ensures PathCosts(g, p, x, Finite(|p| as real))
  {
    PathHops(g, p, x);
    if p != [] {
      assert UniformAt(g, p[0]);
      UniformCost(g, p[1..], p[0].dest);
    }
  }

  /** On uniform weights the two searches give the same labels. */
  lemma SearchesAgree(g: Graph, x: int, weighted: Dist, unweighted: Dist)
    requires Priced(g) && Priced(Unit(g)) && Uniform(g)
    requires Shortest(g, x, weighted) && Shortest(Unit(g), x, unweighted)
    ensures weighted == unweighted
  {
    forall p, c | PathCosts(g, p, x, c) ensures PathCosts(Unit(g), p, x, c) {
      UniformCost(g, p, x);
      UnitPath(g, p, x);
      UnitCost(g, p, x);
    }
    forall p, c | PathCosts(Unit(g), p, x, c) ensures PathCosts(g, p, x, c) {
      UnitPath(g, p, x);
      UniformCost(g, p, x);
      UnitCost(g, p, x);
    }
    assert Shortest(g, x, unweighted);
    ShortestUnique(g, x, weighted, unweighted);
  }

  // ------------------------------------------------------------------ the rounds of the search

  /** No queued label is more than one above that of the node expanded last. */
  ghost predicate Close(g: Graph, d: seq<Dist>, order: seq<int>, q: seq<int>)
    requires |d| == |g.inEdges|
  {
    if order == [] then |q| == 1
    else NodeOf(g, Last(order)) && forall m :: 0 <= m < |q| ==> CloseAt(d, Last(order), q[m])
  }

  ghost predicate CloseAt(d: seq<Dist>, last: int, i: int)
    requires 0 <= last < |d|
  {
    0 <= i < |d| && AtMost(d[i], Plus(d[last], ONE))
  }

  lemma PopClose(g: Graph, d: seq<Dist>, out: seq<Option<Hop>>, order: seq<int>, q: seq<int>)
    requires Frontier(Unit(g), d, out, order, q) && q != [] && Close(g, d, order, q)
    ensures Close(g, d, order + [q[0]], q[1..])
  {
    assert (order + q)[|order|] == q[0];
    if order != [] {
      assert InOrder(d, order + q, |order| - 1, |order|);
      assert (order + q)[|order| - 1] == Last(order);
      forall m | 0 <= m < |q| - 1 ensures CloseAt(d, q[0], q[1..][m]) {
        assert CloseAt(d, Last(order), q[m + 1]);
      }
    }
  }

  /** An unreached node goes to the end of the queue, one further than the node that led to it. */
  lemma Discover(g: Graph, d: seq<Dist>, out: seq<Option<Hop>>, order: seq<int>, q: seq<int>, h: Hop)
    requires Joined(g) && Frontier(Unit(g), d, out, order, q) && order != [] && Close(g, d, order, q)
    requires Usable(g, h) && h.dest == Last(order) && RelaxedUpTo(Unit(g), d, order, h.k)
    requires 0 <= EdgeOf(g, h).src < |d| && d[EdgeOf(g, h).src].Infinite?
    ensures d[h.dest].Finite?
    ensures var src, nd := EdgeOf(g, h).src, Plus(d[h.dest], ONE);
      && Frontier(Unit(g), d[src := nd], out[src := Some(h)], order, q + [src])
      && RelaxedUpTo(Unit(g), d[src := nd], order, h.k + 1)
      && Close(g, d[src := nd], order, q + [src])
  {
    var u, src, nd := Unit(g), EdgeOf(g, h).src, Plus(d[h.dest], ONE);
    UnitStep(g, h);
    UnitEdge(g, h);
    assert (order + q)[|order| - 1] == h.dest;
    assert Reached(d, order + q, h.dest);
    forall m | 0 <= m < |q| ensures 0 <= q[m] < |d| { assert CloseAt(d, Last(order), q[m]); }
    if q != [] { assert CloseAt(d, Last(order), q[|q| - 1]); }
    NotExpanded(u, d, out, order, q, h);
    Improve(u, d, out, order, q, h, q, |q|);
    assert Inserted(q, |q|, src) == q + [src];
    forall m | 0 <= m < |q + [src]| ensures CloseAt(d[src := nd], Last(order), (q + [src])[m]) {
      if m < |q| { assert CloseAt(d, Last(order), q[m]); }
    }
  }

  /** A reached node needs no better label. */
  lemma Known(g: Graph, d: seq<Dist>, out: seq<Option<Hop>>, order: seq<int>, q: seq<int>, h: Hop)
    requires Joined(g) && Frontier(Unit(g), d, out, order, q) && order != [] && Close(g, d, order, q)
    requires HopOf(g, h) && h.dest == Last(order)
    requires 0 <= EdgeOf(g, h).src < |d| && (Usable(g, h) ==> d[EdgeOf(g, h).src].Finite?)
    ensures Relaxed(Unit(g), d, h)
  {
    UnitStep(g, h);
    UnitEdge(g, h);
    var src, s := EdgeOf(g, h).src, order + q;
    assert s[|order| - 1] == h.dest;
    assert Reached(d, s, src) && Reached(d, s, h.dest);
    if d[src].Finite? {
      var m :| 0 <= m < |s| && s[m] == src;
      if m < |order| - 1 { assert InOrder(d, s, m, |order| - 1); }
      if m >= |order| { assert CloseAt(d, Last(order), q[m - |order|]); }
    }
  }
}
