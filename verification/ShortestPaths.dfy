/** Shortest paths to one target, as labels on a graph whose nodes are numbers.

    A label is final when no link can improve it and every finite one is witnessed by the next hop;
    that makes it the least cost over all paths.  `Frontier` is the state between two rounds of the
    search: the nodes already expanded, in that order, followed by the sorted queue. */
module ShortestPaths {
  import opened Lists
  import opened Optional

  datatype Dist = Finite(value: real) | Infinite

  function Plus(a: Dist, b: Dist): Dist {
    if a.Finite? && b.Finite? then Finite(a.value + b.value) else Infinite
  }

  predicate Greater(a: Dist, b: Dist) {
    b.Finite? && (a.Infinite? || a.value > b.value)
  }

  predicate AtMost(a: Dist, b: Dist) {
    !Greater(a, b)
  }

  const ZERO := Finite(0.0)

  /** A link as seen from the node it enters; `usable` means the link and its source are enabled. */
  datatype Edge = Edge(src: int, weight: Dist, usable: bool)

  datatype Graph = Graph(target: int, inEdges: seq<seq<Edge>>, nodeWeight: seq<Dist>)

  /** The k-th link into node dest. */
  datatype Hop = Hop(dest: int, k: int)

  ghost predicate NodeOf(g: Graph, i: int) {
    0 <= i < |g.inEdges|
  }

  ghost predicate HopOf(g: Graph, h: Hop) {
    NodeOf(g, h.dest) && 0 <= h.k < |g.inEdges[h.dest]|
  }

  ghost function EdgeOf(g: Graph, h: Hop): Edge
    requires HopOf(g, h)
  {
    g.inEdges[h.dest][h.k]
  }

  ghost predicate Usable(g: Graph, h: Hop) {
    HopOf(g, h) && EdgeOf(g, h).usable
  }

  ghost predicate EdgeOk(g: Graph, h: Hop) {
    HopOf(g, h) ==>
      && NodeOf(g, EdgeOf(g, h).src)
      && (EdgeOf(g, h).usable ==> Greater(EdgeOf(g, h).weight, ZERO))
  }

  /** Links join nodes, usable ones have positive weights, and no node weight is negative. */
  ghost predicate Priced(g: Graph) {
    && NodeOf(g, g.target)
    && |g.nodeWeight| == |g.inEdges|
    && (forall i :: 0 <= i < |g.nodeWeight| ==> AtMost(ZERO, g.nodeWeight[i]))
    && (forall h :: EdgeOk(g, h))
  }

  // ------------------------------------------------------------------ what a shortest path is

  /** A walk over usable links from node x to the target. */
  ghost predicate IsPath(g: Graph, p: seq<Hop>, x: int) {
    if p == [] then x == g.target
    else Usable(g, p[0]) && EdgeOf(g, p[0]).src == x && IsPath(g, p[1..], p[0].dest)
  }

  /** Link weights plus the weights of the nodes passed on the way, the last node not counted. */
  ghost function Cost(g: Graph, p: seq<Hop>): Dist
    requires Priced(g) && forall i :: 0 <= i < |p| ==> HopOf(g, p[i])
  {
    if p == [] then ZERO
    else if |p| == 1 then EdgeOf(g, p[0]).weight
    else Plus(Plus(EdgeOf(g, p[0]).weight, g.nodeWeight[p[0].dest]), Cost(g, p[1..]))
  }

  lemma {:induction false} PathHops(g: Graph, p: seq<Hop>, x: int)
    requires IsPath(g, p, x)
    ensures forall i :: 0 <= i < |p| ==> HopOf(g, p[i])
  {
    if p != [] {
      PathHops(g, p[1..], p[0].dest);
      forall i | 0 <= i < |p| ensures HopOf(g, p[i]) {
        if i > 0 { assert p[1..][i - 1] == p[i]; }
      }
    }
  }

  ghost predicate PathCosts(g: Graph, p: seq<Hop>, x: int, d: Dist)
    requires Priced(g)
  {
    IsPath(g, p, x) && (PathHops(g, p, x); Cost(g, p) == d)
  }

  /** No path costs less than d, and d is the cost of some path unless it is infinite. */
  ghost predicate Shortest(g: Graph, x: int, d: Dist)
    requires Priced(g)
  {
    && (forall p, c :: PathCosts(g, p, x, c) ==> AtMost(d, c))
    && (d.Finite? ==> exists p :: PathCosts(g, p, x, d))
  }

  /** There is only one such label; it is infinite exactly when no path has a finite cost. */
  lemma ShortestUnique(g: Graph, x: int, d: Dist, d': Dist)
    requires Priced(g) && Shortest(g, x, d) && Shortest(g, x, d')
    ensures d == d'
    ensures d.Infinite? <==> forall p, c :: PathCosts(g, p, x, c) ==> c.Infinite?
  {
    if d.Finite? { var p :| PathCosts(g, p, x, d); }
    if d'.Finite? { var p :| PathCosts(g, p, x, d'); }
  }

  // ------------------------------------------------------------------ labels

  /** The price of a hop: the target itself is not charged for. */
  ghost function Step(g: Graph, h: Hop): Dist
    requires Priced(g) && HopOf(g, h)
  {
    if h.dest == g.target then EdgeOf(g, h).weight else Plus(EdgeOf(g, h).weight, g.nodeWeight[h.dest])
  }

  ghost predicate Labels(g: Graph, d: seq<Dist>, out: seq<Option<Hop>>) {
    |d| == |out| == |g.inEdges|
  }

  ghost predicate Relaxed(g: Graph, d: seq<Dist>, h: Hop)
    requires Priced(g) && |d| == |g.inEdges|
  {
    Usable(g, h) ==>
      assert EdgeOk(g, h);
      AtMost(d[EdgeOf(g, h).src], Plus(d[h.dest], Step(g, h)))
  }

  /** The label of node i is the target's zero, or comes from its next hop to an expanded node. */
  ghost predicate Witnessed(g: Graph, d: seq<Dist>, out: seq<Option<Hop>>, order: seq<int>, i: int)
    requires Priced(g) && Labels(g, d, out) && NodeOf(g, i)
  {
    && AtMost(ZERO, d[i])
    && if i == g.target then d[i] == ZERO && out[i] == None
    else if d[i].Infinite? then out[i] == None
    else
      && out[i].Some?
      && Usable(g, out[i].value)
      && EdgeOf(g, out[i].value).src == i
      && out[i].value.dest in order
      && NodeOf(g, out[i].value.dest)
      && d[i] == Plus(d[out[i].value.dest], Step(g, out[i].value))
      && Greater(d[i], d[out[i].value.dest])
  }

  ghost predicate InOrder(d: seq<Dist>, s: seq<int>, a: int, b: int)
    requires 0 <= a < |s| && 0 <= b < |s|
  {
    a < b && 0 <= s[a] < |d| && 0 <= s[b] < |d| ==> s[a] != s[b] && AtMost(d[s[a]], d[s[b]])
  }

  /** Distinct nodes in order of their labels. */
  ghost predicate Ascending(d: seq<Dist>, s: seq<int>) {
    && (forall a :: 0 <= a < |s| ==> 0 <= s[a] < |d|)
    && (forall a, b :: 0 <= a < |s| && 0 <= b < |s| ==> InOrder(d, s, a, b))
  }

  ghost predicate Reached(d: seq<Dist>, s: seq<int>, i: int)
    requires 0 <= i < |d|
  {
    d[i].Finite? <==> i in s
  }

  /** Expanded nodes and queue together hold the reached nodes once each, in order of their labels. */
  ghost predicate Frontier(g: Graph, d: seq<Dist>, out: seq<Option<Hop>>, order: seq<int>, q: seq<int>) {
    && Priced(g) && Labels(g, d, out)
    && Ascending(d, order + q)
    && (forall i :: 0 <= i < |d| ==> Reached(d, order + q, i))
    && (forall i :: 0 <= i < |d| ==> Witnessed(g, d, out, order, i))
  }

  /** All links into expanded nodes are relaxed; of the links into the last one, the first k. */
  ghost predicate RelaxedUpTo(g: Graph, d: seq<Dist>, order: seq<int>, k: int)
    requires Priced(g) && |d| == |g.inEdges|
  {
    forall h :: Expanded(g, order, h, k) ==> Relaxed(g, d, h)
  }

  ghost predicate Expanded(g: Graph, order: seq<int>, h: Hop, k: int) {
    HopOf(g, h) && h.dest in order && (h.dest == order[|order| - 1] ==> h.k < k)
  }

  /** The search is over: nothing is queued. */
  ghost predicate Final(g: Graph, d: seq<Dist>, out: seq<Option<Hop>>, order: seq<int>) {
    Frontier(g, d, out, order, []) && forall h :: HopOf(g, h) ==> Relaxed(g, d, h)
  }

  // ------------------------------------------------------------------ final labels are shortest

  lemma {:induction false} LowerBound(g: Graph, d: seq<Dist>, p: seq<Hop>, x: int, c: Dist)
    requires Priced(g) && |d| == |g.inEdges| && d[g.target] == ZERO && NodeOf(g, x)
    requires forall h :: HopOf(g, h) ==> Relaxed(g, d, h)
    requires PathCosts(g, p, x, c)
    ensures AtMost(d[x], c)
  {
    if p != [] {
      PathHops(g, p, x);
      var h := p[0];
      assert Relaxed(g, d, h) && EdgeOk(g, h);
      assert AtMost(ZERO, g.nodeWeight[h.dest]);
      if |p| > 1 {
        PathHops(g, p[1..], h.dest);
        LowerBound(g, d, p[1..], h.dest, Cost(g, p[1..]));
        CostPositive(g, p[1..], h.dest);
      } else {
        assert IsPath(g, [], h.dest) by { assert p[1..] == []; }
      }
    }
  }

  lemma {:induction false} CostPositive(g: Graph, p: seq<Hop>, x: int)
    requires Priced(g) && IsPath(g, p, x)
    ensures forall i :: 0 <= i < |p| ==> HopOf(g, p[i])
    ensures AtMost(ZERO, Cost(g, p))
  {
    PathHops(g, p, x);
    if p != [] {
      CostPositive(g, p[1..], p[0].dest);
      assert EdgeOk(g, p[0]) && AtMost(ZERO, g.nodeWeight[p[0].dest]);
    }
  }

  /** The path that the next hops lead along. */
  ghost function Follow(g: Graph, d: seq<Dist>, out: seq<Option<Hop>>, order: seq<int>, x: int, n: nat): seq<Hop>
    requires Final(g, d, out, order) && n <= |order|
    requires NodeOf(g, x) && d[x].Finite? && x in order[..n]
    decreases n
  {
    assert Witnessed(g, d, out, order, x);
    if x == g.target then []
    else
      var h := out[x].value;
      var m := Position(order, h.dest);
      Earlier(g, d, out, order, x, n);
      [h] + Follow(g, d, out, order, h.dest, m + 1)
  }

  ghost function Position(s: seq<int>, x: int): (m: int)
    requires x in s
    ensures 0 <= m < |s| && s[m] == x
  {
    var m :| 0 <= m < |s| && s[m] == x; m
  }

  /** A next hop leads to a node that was expanded earlier. */
  lemma Earlier(g: Graph, d: seq<Dist>, out: seq<Option<Hop>>, order: seq<int>, x: int, n: nat)
    requires Final(g, d, out, order) && n <= |order|
    requires NodeOf(g, x) && d[x].Finite? && x in order[..n] && x != g.target
    ensures Witnessed(g, d, out, order, x)
    ensures Position(order, out[x].value.dest) + 1 < n
    ensures d[out[x].value.dest].Finite?
  {
    assert order + [] == order;
    assert Witnessed(g, d, out, order, x);
    var y := out[x].value.dest;
    var i :| 0 <= i < n && order[i] == x;
    assert InOrder(d, order + [], i, Position(order, y));
    assert Reached(d, order + [], y);
  }

  lemma {:induction false} FollowCosts(g: Graph, d: seq<Dist>, out: seq<Option<Hop>>, order: seq<int>, x: int, n: nat)
    requires Final(g, d, out, order) && n <= |order|
    requires NodeOf(g, x) && d[x].Finite? && x in order[..n]
    ensures PathCosts(g, Follow(g, d, out, order, x, n), x, d[x])
    decreases n
  {
    assert Witnessed(g, d, out, order, x);
    var p := Follow(g, d, out, order, x, n);
    if x != g.target {
      Earlier(g, d, out, order, x, n);
      var h := out[x].value;
      var m := Position(order, h.dest);
      assert order[..m + 1][m] == h.dest;
      FollowCosts(g, d, out, order, h.dest, m + 1);
      var rest := Follow(g, d, out, order, h.dest, m + 1);
      assert p == [h] + rest && p[1..] == rest;
      PathHops(g, p, x);
      FollowEnds(g, d, out, order, h.dest, m + 1);
      assert Witnessed(g, d, out, order, h.dest);
    }
  }

  lemma FollowEnds(g: Graph, d: seq<Dist>, out: seq<Option<Hop>>, order: seq<int>, x: int, n: nat)
    requires Final(g, d, out, order) && n <= |order|
    requires NodeOf(g, x) && d[x].Finite? && x in order[..n]
    ensures Follow(g, d, out, order, x, n) == [] <==> x == g.target
  {
  }

  /** Final labels are the least costs, and following the next hops realises them. */
  lemma FinalIsShortest(g: Graph, d: seq<Dist>, out: seq<Option<Hop>>, order: seq<int>, x: int)
    requires Final(g, d, out, order) && NodeOf(g, x)
    ensures Shortest(g, x, d[x])
  {
    assert Witnessed(g, d, out, order, g.target);
    forall p, c | PathCosts(g, p, x, c) ensures AtMost(d[x], c) {
      LowerBound(g, d, p, x, c);
    }
    if d[x].Finite? {
      assert order + [] == order && order[..|order|] == order;
      assert Reached(d, order + [], x);
      FollowCosts(g, d, out, order, x, |order|);
    }
  }

  // ------------------------------------------------------------------ the rounds of the search

  ghost function Last(s: seq<int>): int
    requires s != []
  {
    s[|s| - 1]
  }

  lemma AscendingDropped(d: seq<Dist>, s: seq<int>, a: int)
    requires Ascending(d, s) && 0 <= a < |s|
    ensures Ascending(d, Dropped(s, a))
    ensures forall i :: i in Dropped(s, a) <==> i in s && i != s[a]
  {
    var s' := Dropped(s, a);
    forall m, n | 0 <= m < |s'| && 0 <= n < |s'| ensures InOrder(d, s', m, n) {
      assert InOrder(d, s, if m < a then m else m + 1, if n < a then n else n + 1);
    }
    forall i | i in s' ensures i in s && i != s[a] {
      var m :| 0 <= m < |s'| && s'[m] == i;
      assert m < a ==> InOrder(d, s, m, a);
      assert m >= a ==> InOrder(d, s, a, m + 1);
    }
    forall i | i in s && i != s[a] ensures i in s' {
      var m :| 0 <= m < |s| && s[m] == i;
      assert s'[if m < a then m else m - 1] == i;
    }
  }

  /** A node whose label drops to e and that is put before the first larger label. */
  lemma AscendingInserted(d: seq<Dist>, s: seq<int>, a: int, x: int, e: Dist)
    requires Ascending(d, s) && 0 <= a <= |s| && 0 <= x < |d| && x !in s
    requires a > 0 ==> AtMost(d[s[a - 1]], e)
    requires a < |s| ==> Greater(d[s[a]], e)
    ensures Ascending(d[x := e], Inserted(s, a, x))
    ensures forall i :: i in Inserted(s, a, x) <==> i in s || i == x
  {
    var s', d' := Inserted(s, a, x), d[x := e];
    forall m, n | 0 <= m < |s'| && 0 <= n < |s'| ensures InOrder(d', s', m, n) {
      if m < n && m != a && n != a { assert InOrder(d, s, if m < a then m else m - 1, if n < a then n else n - 1); }
      if m < n && n == a { assert m < a - 1 ==> InOrder(d, s, m, a - 1); }
      if m < n && m == a { assert a < n - 1 ==> InOrder(d, s, a, n - 1); }
    }
    forall i | i in s ensures i in s' {
      var m :| 0 <= m < |s| && s[m] == i;
      assert s'[if m < a then m else m + 1] == i;
    }
    assert s'[a] == x;
  }

  ghost function StartLabels(g: Graph): seq<Dist>
    requires Priced(g)
  {
    seq(|g.inEdges|, i => if i == g.target then ZERO else Infinite)
  }

  ghost function StartHops(g: Graph): seq<Option<Hop>> {
    seq(|g.inEdges|, i => None)
  }

  /** At first only the target is reached and queued. */
  lemma Start(g: Graph)
    requires Priced(g)
    ensures Frontier(g, StartLabels(g), StartHops(g), [], [g.target])
  {
  }

  /** Taking the first node off the queue. */
  lemma Pop(g: Graph, d: seq<Dist>, out: seq<Option<Hop>>, order: seq<int>, q: seq<int>)
    requires Frontier(g, d, out, order, q) && q != []
    requires forall h :: HopOf(g, h) && h.dest in order ==> Relaxed(g, d, h)
    ensures Frontier(g, d, out, order + [q[0]], q[1..])
    ensures RelaxedUpTo(g, d, order + [q[0]], 0)
    ensures q[0] !in order
  {
    assert (order + [q[0]]) + q[1..] == order + q;
    forall i | 0 <= i < |d| ensures Witnessed(g, d, out, order + [q[0]], i) {
      assert Witnessed(g, d, out, order, i);
    }
    forall m | 0 <= m < |order| ensures order[m] != q[0] { assert InOrder(d, order + q, m, |order|); }
  }

  /** The node just taken off was the first queued, so no expanded label exceeds its label and every
      label that a link into it can still improve belongs to a node not expanded yet. */
  lemma NotExpanded(g: Graph, d: seq<Dist>, out: seq<Option<Hop>>, order: seq<int>, q: seq<int>, h: Hop)
    requires Frontier(g, d, out, order, q) && order != [] && Usable(g, h) && h.dest == Last(order)
    requires NodeOf(g, EdgeOf(g, h).src)
    requires Greater(d[EdgeOf(g, h).src], Plus(d[h.dest], Step(g, h)))
    ensures EdgeOf(g, h).src !in order && EdgeOf(g, h).src != g.target
    ensures d[h.dest].Finite? && Greater(Plus(d[h.dest], Step(g, h)), d[h.dest]) && AtMost(ZERO, d[h.dest])
  {
    assert EdgeOk(g, h);
    var s, src := order + q, EdgeOf(g, h).src;
    assert s[|order| - 1] == h.dest;
    assert Reached(d, s, h.dest) && Witnessed(g, d, out, order, h.dest);
    assert AtMost(ZERO, g.nodeWeight[h.dest]);
    assert Witnessed(g, d, out, order, g.target);
    forall m | 0 <= m < |order| ensures order[m] != src { assert InOrder(d, s, m, |order| - 1); }
  }

  /** A better label for the source of a link into the last expanded node: the source leaves the queue
      if it was there (`a` says where, or None) and is put back in its place. */
  lemma Improve(g: Graph, d: seq<Dist>, out: seq<Option<Hop>>, order: seq<int>, q: seq<int>, h: Hop,
                rest: seq<int>, pos: int)
    requires Frontier(g, d, out, order, q) && order != [] && Usable(g, h) && h.dest == Last(order)
    requires NodeOf(g, EdgeOf(g, h).src)
    requires Greater(d[EdgeOf(g, h).src], Plus(d[h.dest], Step(g, h)))
    requires if d[EdgeOf(g, h).src].Finite?
             then exists a :: 0 <= a < |q| && q[a] == EdgeOf(g, h).src && rest == Dropped(q, a)
             else rest == q
    requires 0 <= pos <= |rest| && forall m :: 0 <= m < |rest| ==> 0 <= rest[m] < |d|
    requires pos > 0 ==> AtMost(d[rest[pos - 1]], Plus(d[h.dest], Step(g, h)))
    requires pos < |rest| ==> Greater(d[rest[pos]], Plus(d[h.dest], Step(g, h)))
    requires RelaxedUpTo(g, d, order, h.k)
    ensures var src, nd := EdgeOf(g, h).src, Plus(d[h.dest], Step(g, h));
      && Frontier(g, d[src := nd], out[src := Some(h)], order, Inserted(rest, pos, src))
      && RelaxedUpTo(g, d[src := nd], order, h.k + 1)
  {
    var src, nd := EdgeOf(g, h).src, Plus(d[h.dest], Step(g, h));
    var d', out', q' := d[src := nd], out[src := Some(h)], Inserted(rest, pos, src);
    NotExpanded(g, d, out, order, q, h);
    ImproveOrder(g, d, out, order, q, h.dest, src, nd, rest, pos);
    assert h.dest in order;
    forall i | 0 <= i < |d'| ensures Reached(d', order + q', i) && Witnessed(g, d', out', order, i) {
      assert Reached(d, order + q, i) && Witnessed(g, d, out, order, i);
      WitnessKept(g, d, out, order, h, i);
    }
    forall k | Expanded(g, order, k, h.k + 1) ensures Relaxed(g, d', k) {
      assert k != h ==> Expanded(g, order, k, h.k);
      RelaxedKept(g, d, order, h, k);
    }
  }

  lemma WitnessKept(g: Graph, d: seq<Dist>, out: seq<Option<Hop>>, order: seq<int>, h: Hop, i: int)
    requires Priced(g) && Labels(g, d, out) && NodeOf(g, i) && Usable(g, h) && NodeOf(g, EdgeOf(g, h).src)
    requires EdgeOf(g, h).src !in order && EdgeOf(g, h).src != g.target && h.dest in order
    requires Plus(d[h.dest], Step(g, h)).Finite? && Greater(Plus(d[h.dest], Step(g, h)), d[h.dest])
      && AtMost(ZERO, d[h.dest])
    requires Witnessed(g, d, out, order, i)
    ensures var src, nd := EdgeOf(g, h).src, Plus(d[h.dest], Step(g, h));
      Witnessed(g, d[src := nd], out[src := Some(h)], order, i)
  {
  }

  lemma RelaxedKept(g: Graph, d: seq<Dist>, order: seq<int>, h: Hop, k: Hop)
    requires Priced(g) && |d| == |g.inEdges| && Usable(g, h) && NodeOf(g, EdgeOf(g, h).src)
    requires EdgeOf(g, h).src !in order && h.dest in order && HopOf(g, k) && k.dest in order
    requires Greater(d[EdgeOf(g, h).src], Plus(d[h.dest], Step(g, h)))
    requires k == h || Relaxed(g, d, k)
    ensures Relaxed(g, d[EdgeOf(g, h).src := Plus(d[h.dest], Step(g, h))], k)
  {
    assert EdgeOk(g, k);
  }

  lemma ImproveOrder(g: Graph, d: seq<Dist>, out: seq<Option<Hop>>, order: seq<int>, q: seq<int>, dest: int,
                     src: int, nd: Dist, rest: seq<int>, pos: int)
    requires Frontier(g, d, out, order, q) && NodeOf(g, src) && src !in order && order != [] && dest == Last(order)
    requires if d[src].Finite? then exists a :: 0 <= a < |q| && q[a] == src && rest == Dropped(q, a) else rest == q
    requires NodeOf(g, dest) && Greater(nd, d[dest])
    requires 0 <= pos <= |rest| && forall m :: 0 <= m < |rest| ==> 0 <= rest[m] < |d|
    requires pos > 0 ==> AtMost(d[rest[pos - 1]], nd)
    requires pos < |rest| ==> Greater(d[rest[pos]], nd)
    ensures Ascending(d[src := nd], order + Inserted(rest, pos, src))
    ensures forall i :: i in order + Inserted(rest, pos, src) <==> i in order + q || i == src
  {
    RestOrdered(g, d, out, order, q, src, rest);
    QueuedAfter(d, order, rest, pos, src, nd);
  }

  lemma QueuedAfter(d: seq<Dist>, order: seq<int>, rest: seq<int>, pos: int, src: int, nd: Dist)
    requires Ascending(d, order + rest) && order != [] && 0 <= src < |d| && src !in order + rest
    requires 0 <= Last(order) < |d| && AtMost(d[Last(order)], nd)
    requires 0 <= pos <= |rest| && forall m :: 0 <= m < |rest| ==> 0 <= rest[m] < |d|
    requires pos > 0 ==> AtMost(d[rest[pos - 1]], nd)
    requires pos < |rest| ==> Greater(d[rest[pos]], nd)
    ensures Ascending(d[src := nd], order + Inserted(rest, pos, src))
    ensures forall i :: i in order + Inserted(rest, pos, src) <==> i in order + rest || i == src
  {
    var s, a := order + rest, |order| + pos;
    assert s[a - 1] == (if pos > 0 then rest[pos - 1] else Last(order));
    assert pos < |rest| ==> s[a] == rest[pos];
    WithAfter(order, rest, pos, src);
    AscendingInserted(d, s, a, src, nd);
  }

  lemma WithAfter(a: seq<int>, b: seq<int>, pos: int, x: int)
    requires 0 <= pos <= |b|
    ensures Inserted(a + b, |a| + pos, x) == a + Inserted(b, pos, x)
  {
  }

  lemma RestOrdered(g: Graph, d: seq<Dist>, out: seq<Option<Hop>>, order: seq<int>, q: seq<int>, src: int,
          rest: seq<int>)
    requires Frontier(g, d, out, order, q) && NodeOf(g, src) && src !in order
    requires if d[src].Finite? then exists a :: 0 <= a < |q| && q[a] == src && rest == Dropped(q, a) else rest == q
    ensures Ascending(d, order + rest)
    ensures forall i :: i in order + rest <==> i in order + q && i != src
  {
    hide InOrder;
    assert Reached(d, order + q, src);
    if d[src].Finite? {
      var a :| 0 <= a < |q| && q[a] == src && rest == Dropped(q, a);
      AscendingDropped(d, order + q, |order| + a);
      assert Dropped(order + q, |order| + a) == order + rest;
    }
  }

  /** A link that improves nothing counts as relaxed. */
  lemma Skip(g: Graph, d: seq<Dist>, order: seq<int>, h: Hop)
    requires Priced(g) && |d| == |g.inEdges| && order != [] && HopOf(g, h) && h.dest == Last(order)
    requires RelaxedUpTo(g, d, order, h.k)
    requires Relaxed(g, d, h)
    ensures RelaxedUpTo(g, d, order, h.k + 1)
  {
    forall k | Expanded(g, order, k, h.k + 1) ensures Relaxed(g, d, k) {
      assert k != h ==> Expanded(g, order, k, h.k);
    }
  }

  /** Once the links into the last node are done, so are all links into expanded nodes. */
  lemma RoundDone(g: Graph, d: seq<Dist>, order: seq<int>, k: int)
    requires Priced(g) && |d| == |g.inEdges| && order != [] && NodeOf(g, Last(order)) && k >= |g.inEdges[Last(order)]|
    requires RelaxedUpTo(g, d, order, k)
    ensures forall h :: HopOf(g, h) && h.dest in order ==> Relaxed(g, d, h)
  {
    forall h | HopOf(g, h) && h.dest in order ensures Relaxed(g, d, h) {
      assert Expanded(g, order, h, k);
    }
  }

  /** An empty queue ends the search: links into unreached nodes cannot improve anything. */
  lemma SearchDone(g: Graph, d: seq<Dist>, out: seq<Option<Hop>>, order: seq<int>)
    requires Frontier(g, d, out, order, [])
    requires forall h :: HopOf(g, h) && h.dest in order ==> Relaxed(g, d, h)
    ensures Final(g, d, out, order)
  {
    assert order + [] == order;
    forall h | HopOf(g, h) ensures Relaxed(g, d, h) {
      assert Reached(d, order + [], h.dest);
      assert EdgeOk(g, h);
    }
  }

  lemma FrontierFits(g: Graph, d: seq<Dist>, out: seq<Option<Hop>>, order: seq<int>, q: seq<int>)
    requires Frontier(g, d, out, order, q)
    ensures |order| + |q| <= |g.inEdges|
  {
    var s := order + q;
    forall i, j | 0 <= i < |s| && 0 <= j < |s| ensures Differ(s, i, j) {
      assert InOrder(d, s, i, j) && InOrder(d, s, j, i);
    }
    AtMostAll(s, |d|);
  }
}
