/** Every connected network of dispatchers without cycles can be numbered from any of its dispatchers outwards. */
module DispatcherNumbering {
  import opened DispatcherTree
  import opened Lists

  // ------------------------------------------------------------------ connected networks without cycles

  ghost predicate Paired(net: Net) {
    forall v, i :: GateOf(net, v, i) ==> PairedAt(net, v, i)
  }

  /** Leaving a dispatcher through one of its gates. */
  datatype Exit = Exit(at: int, out: int)

  /** The gate is connected to a dispatcher. */
  ghost predicate Leaves(net: Net, e: Exit) {
    GateOf(net, e.at, e.out) && net[e.at][e.out].Dispatcher?
  }

  ghost function Next(net: Net, e: Exit): int
    requires Leaves(net, e)
  {
    net[e.at][e.out].at
  }

  /** After a one goes on with b, and not back through the gate one came in by. */
  ghost predicate GoesOn(net: Net, a: Exit, b: Exit)
    requires Leaves(net, a)
  {
    b.at == Next(net, a) && b.out != net[a.at][a.out].gate
  }

  ghost predicate LeavesAt(net: Net, w: seq<Exit>, k: int)
    requires 0 <= k < |w|
  {
    Leaves(net, w[k]) && (k + 1 < |w| ==> GoesOn(net, w[k], w[k + 1]))
  }

  /** A walk that never turns back. */
  ghost predicate Walk(net: Net, w: seq<Exit>) {
    w != [] && forall k :: 0 <= k < |w| ==> LeavesAt(net, w, k)
  }

  ghost function EndOf(net: Net, w: seq<Exit>): int
    requires Walk(net, w)
  {
    assert LeavesAt(net, w, |w| - 1);
    Next(net, w[|w| - 1])
  }

  /** No such walk comes back to where it began. */
  ghost predicate Acyclic(net: Net) {
    forall w: seq<Exit> :: Walk(net, w) ==> EndOf(net, w) != w[0].at
  }

  ghost predicate Neighbours(net: Net, v: int, u: int) {
    exists i :: Leaves(net, Exit(v, i)) && Next(net, Exit(v, i)) == u
  }

  ghost predicate Way(net: Net, p: seq<int>, v: int, u: int) {
    && p != [] && p[0] == v && p[|p| - 1] == u
    && forall k :: 0 <= k < |p| - 1 ==> Neighbours(net, p[k], p[k + 1])
  }

  ghost predicate ConnectedFrom(net: Net, r: int) {
    Has(net, r) && forall v :: Has(net, v) ==> exists p: seq<int> :: Way(net, p, r, v)
  }

  // ------------------------------------------------------------------ parts of the network

  ghost predicate Into(net: Net, e: Exit, xs: set<int>) {
    Leaves(net, e) && Next(net, e) in xs
  }

  ghost predicate LeadsOut(net: Net, e: Exit, xs: set<int>, part: set<int>) {
    e.at in part && Into(net, e, xs) && Next(net, e) !in part
  }

  ghost predicate Open(net: Net, xs: set<int>, part: set<int>) {
    exists e: Exit :: LeadsOut(net, e, xs, part)
  }

  ghost predicate Opens(net: Net, xs: set<int>, r: int, part: set<int>) {
    r in part && part <= xs && part != xs ==> Open(net, xs, part)
  }

  /** Whatever part of xs has r in it, a gate leads from there to the others. */
  ghost predicate Joined(net: Net, xs: set<int>, r: int) {
    && r in xs && (forall v :: v in xs ==> Has(net, v))
    && forall part: set<int> :: Opens(net, xs, r, part)
  }

  ghost function All(net: Net): set<int> {
    set v | 0 <= v < |net| && Has(net, v)
  }

  lemma AllJoined(net: Net, r: int)
    requires Paired(net) && ConnectedFrom(net, r)
    ensures Joined(net, All(net), r)
  {
    forall part: set<int> ensures Opens(net, All(net), r, part) {
      if r in part && part <= All(net) && part != All(net) {
        SameOrMore(All(net), part);
        var v :| v in All(net) && v !in part;
        assert Has(net, v);
        var p: seq<int> :| Way(net, p, r, v);
        Crossing(net, p, part);
      }
    }
  }

  lemma SameOrMore(xs: set<int>, part: set<int>)
    requires part <= xs
    ensures xs == part || exists v :: v in xs && v !in part
  {
    if forall v :: v in xs ==> v in part { assert xs == part; }
  }

  lemma {:induction false} Crossing(net: Net, p: seq<int>, part: set<int>)
    requires Paired(net) && p != [] && Way(net, p, p[0], p[|p| - 1]) && p[0] in part && p[|p| - 1] !in part
    ensures Open(net, All(net), part)
    decreases |p|
  {
    assert Neighbours(net, p[0], p[1]);
    if p[1] in part {
      forall k | 0 <= k < |p| - 2 ensures Neighbours(net, p[1..][k], p[1..][k + 1]) {
        assert Neighbours(net, p[k + 1], p[k + 2]);
      }
      Crossing(net, p[1..], part);
    } else {
      var i :| Leaves(net, Exit(p[0], i)) && Next(net, Exit(p[0], i)) == p[1];
      assert PairedAt(net, p[0], i);
      assert LeadsOut(net, Exit(p[0], i), All(net), part);
    }
  }

  // ------------------------------------------------------------------ a leaf

  /** The dispatchers that a walk leaves. */
  ghost function Left(w: seq<Exit>): (s: seq<int>)
    ensures |s| == |w| && forall k :: 0 <= k < |w| ==> s[k] == w[k].at
  {
    seq(|w|, k requires 0 <= k < |w| => w[k].at)
  }

  lemma PartOfWalk(net: Net, w: seq<Exit>, a: int, b: int)
    requires Walk(net, w) && 0 <= a < b < |w|
    ensures Walk(net, w[a..b]) && EndOf(net, w[a..b]) == w[b].at
  {
    forall k | 0 <= k < b - a ensures LeavesAt(net, w[a..b], k) { assert LeavesAt(net, w, a + k); }
    assert LeavesAt(net, w, b - 1);
  }

  /** Without cycles a walk is not longer than there are dispatchers. */
  lemma WalkBounded(net: Net, w: seq<Exit>)
    requires Acyclic(net) && Walk(net, w)
    ensures |w| <= |net|
  {
    var s := Left(w);
    forall a, b | 0 <= a < |s| && 0 <= b < |s| ensures Differ(s, a, b) {
      if a < b { PartOfWalk(net, w, a, b); }
      if b < a { PartOfWalk(net, w, b, a); }
    }
    forall k | 0 <= k < |s| ensures 0 <= s[k] < |net| { assert LeavesAt(net, w, k); }
    AtMostAll(s, |net|);
  }

  ghost predicate Inside(net: Net, w: seq<Exit>, xs: set<int>) {
    forall k :: 0 <= k < |w| ==> w[k].at in xs && Into(net, w[k], xs)
  }

  lemma OneMoreExit(net: Net, w: seq<Exit>, e: Exit)
    requires Walk(net, w) && Leaves(net, w[|w| - 1]) && Leaves(net, e) && GoesOn(net, w[|w| - 1], e)
    ensures Walk(net, w + [e])
  {
    forall k | 0 <= k < |w| + 1 ensures LeavesAt(net, w + [e], k) {
      if k < |w| { assert LeavesAt(net, w, k); }
    }
  }

  /** Where a walk cannot be continued, one gate only leads to the others. */
  lemma {:induction false} WalkToLeaf(net: Net, xs: set<int>, w: seq<Exit>) returns (v: int, i: int)
    requires Paired(net) && Acyclic(net) && Walk(net, w) && Inside(net, w, xs)
    ensures v in xs && v != w[0].at && Into(net, Exit(v, i), xs)
    ensures forall j :: Into(net, Exit(v, j), xs) ==> j == i
    decreases |net| - |w|
  {
    var last := w[|w| - 1];
    assert LeavesAt(net, w, |w| - 1) && PairedAt(net, last.at, last.out);
    v, i := EndOf(net, w), net[last.at][last.out].gate;
    assert Into(net, last, xs);
    if j :| Into(net, Exit(v, j), xs) && j != i {
      OneMoreExit(net, w, Exit(v, j));
      WalkBounded(net, w + [Exit(v, j)]);
      v, i := WalkToLeaf(net, xs, w + [Exit(v, j)]);
    }
  }

  lemma Leaf(net: Net, xs: set<int>, r: int) returns (v: int, i: int)
    requires Paired(net) && Acyclic(net) && Joined(net, xs, r) && xs != {r}
    ensures v in xs && v != r && Into(net, Exit(v, i), xs)
    ensures forall j :: Into(net, Exit(v, j), xs) ==> j == i
  {
    assert Opens(net, xs, r, {r});
    var e: Exit :| LeadsOut(net, e, xs, {r});
    assert LeavesAt(net, [e], 0);
    v, i := WalkToLeaf(net, xs, [e]);
  }

  /** The others are joined without it. */
  lemma LeafCut(net: Net, xs: set<int>, r: int, v: int, i: int)
    requires Paired(net) && Joined(net, xs, r) && v in xs && v != r
    requires forall j :: Into(net, Exit(v, j), xs) ==> j == i
    ensures Joined(net, xs - {v}, r)
  {
    var ys := xs - {v};
    forall part: set<int> ensures Opens(net, ys, r, part) {
      if r in part && part <= ys && part != ys { LeafCutAt(net, xs, r, v, i, part); }
    }
  }

  lemma LeafCutAt(net: Net, xs: set<int>, r: int, v: int, i: int, part: set<int>)
    requires Paired(net) && Joined(net, xs, r) && v in xs && v != r
    requires forall j :: Into(net, Exit(v, j), xs) ==> j == i
    requires r in part && part <= xs - {v} && part != xs - {v}
    ensures Open(net, xs - {v}, part)
  {
    assert Opens(net, xs, r, part);
    var e: Exit :| LeadsOut(net, e, xs, part);
    if Next(net, e) == v {
      assert PairedAt(net, e.at, e.out) && Into(net, Exit(v, net[e.at][e.out].gate), xs);
      assert Opens(net, xs, r, part + {v});
      e :| LeadsOut(net, e, xs, part + {v});
      assert e.at == v ==> Into(net, Exit(v, e.out), xs);
    }
    assert LeadsOut(net, e, xs - {v}, part);
  }

  // ------------------------------------------------------------------ the numbering

  /** Of the gates of the k-th dispatcher exactly one, ups[k], leads to an earlier one; none does from the first. */
  ghost predicate UpAt(net: Net, order: seq<int>, ups: seq<int>, k: int)
    requires |order| == |ups| && 0 <= k < |order|
  {
    && (k > 0 ==> Earlier(net, order, k, ups[k]))
    && forall i :: Earlier(net, order, k, i) ==> k > 0 && i == ups[k]
  }

  ghost predicate Earlier(net: Net, order: seq<int>, k: int, i: int)
    requires 0 <= k < |order|
  {
    Leaves(net, Exit(order[k], i)) && Next(net, Exit(order[k], i)) in order[..k]
  }

  ghost predicate Numbers(net: Net, xs: set<int>, r: int, order: seq<int>, ups: seq<int>) {
    && |order| == |ups| > 0 && order[0] == r && Distinct(order)
    && (forall v :: v in xs <==> v in order)
    && forall k :: 0 <= k < |order| ==> UpAt(net, order, ups, k)
  }

  lemma {:induction false} Number(net: Net, xs: set<int>, r: int) returns (order: seq<int>, ups: seq<int>)
    requires Paired(net) && Acyclic(net) && Joined(net, xs, r)
    ensures Numbers(net, xs, r, order, ups)
    decreases |xs|
  {
    if xs == {r} {
      order, ups := [r], [0];
    } else {
      var v, i := Leaf(net, xs, r);
      LeafCut(net, xs, r, v, i);
      order, ups := Number(net, xs - {v}, r);
      NumberLeaf(net, xs, r, order, ups, v, i);
      order, ups := order + [v], ups + [i];
    }
  }

  lemma NumberLeaf(net: Net, xs: set<int>, r: int, order: seq<int>, ups: seq<int>, v: int, i: int)
    requires Acyclic(net) && v in xs && Numbers(net, xs - {v}, r, order, ups)
    requires Into(net, Exit(v, i), xs) && forall j :: Into(net, Exit(v, j), xs) ==> j == i
    ensures Numbers(net, xs, r, order + [v], ups + [i])
  {
    var order', ups' := order + [v], ups + [i];
    LastDistinct(order, v);
    NotItself(net, Exit(v, i));
    forall k | 0 <= k < |order'| ensures UpAt(net, order', ups', k) {
      if k < |order| {
        assert UpAt(net, order, ups, k) && order'[..k] == order[..k];
        forall j | Earlier(net, order', k, j) ensures k > 0 && j == ups'[k] { assert Earlier(net, order, k, j); }
        if k > 0 { assert Earlier(net, order, k, ups[k]); }
      } else {
        assert order'[..k] == order;
        forall j | Earlier(net, order', k, j) ensures j == i { assert Into(net, Exit(v, j), xs); }
      }
    }
  }

  lemma NotItself(net: Net, e: Exit)
    requires Acyclic(net) && Leaves(net, e)
    ensures Next(net, e) != e.at
  {
    assert LeavesAt(net, [e], 0) && Walk(net, [e]);
    assert EndOf(net, [e]) == Next(net, e);
  }

  // ------------------------------------------------------------------ the network with these numbers

  ghost function Place(order: seq<int>, v: int): (k: int)
    ensures v in order ==> 0 <= k < |order| && order[k] == v
  {
    if v in order then
      var k :| 0 <= k < |order| && order[k] == v;
      k
    else -1
  }

  ghost function Renamed(order: seq<int>, p: Peer): Peer {
    if p.Endpoint? then p else Dispatcher(Place(order, p.at), p.gate)
  }

  ghost predicate RowOf(net: Net, order: seq<int>, k: int, row: seq<Peer>)
    requires 0 <= k < |order| && Has(net, order[k])
  {
    |row| == |net[order[k]]| && forall i :: 0 <= i < |row| ==> row[i] == Renamed(order, net[order[k]][i])
  }

  ghost function Row(net: Net, order: seq<int>, k: int): (row: seq<Peer>)
    requires 0 <= k < |order| && Has(net, order[k])
    ensures RowOf(net, order, k, row)
  {
    seq(|net[order[k]]|, i requires 0 <= i < |net[order[k]]| => Renamed(order, net[order[k]][i]))
  }

  /** The same network with the k-th dispatcher of the order as number k. */
  ghost predicate SameNet(net: Net, order: seq<int>, net': Net) {
    && |net'| == |order| && Distinct(order) && (forall v :: v in order <==> Has(net, v))
    && forall k :: 0 <= k < |order| ==> Has(net, order[k]) && RowOf(net, order, k, net'[k])
  }

  ghost function Renumbered(net: Net, order: seq<int>): (net': Net)
    requires Distinct(order) && forall v :: v in order <==> Has(net, v)
    ensures SameNet(net, order, net')
  {
    assert forall k :: 0 <= k < |order| ==> order[k] in order;
    seq(|order|, k requires 0 <= k < |order| && Has(net, order[k]) => Row(net, order, k))
  }

  /** Where a gate leads in the renumbered network. */
  lemma GateRenamed(net: Net, order: seq<int>, net': Net, k: int, i: int)
    requires Paired(net) && SameNet(net, order, net') && GateOf(net', k, i)
    ensures var e := Exit(order[k], i);
      && GateOf(net, order[k], i)
      && (net'[k][i].Dispatcher? <==> Leaves(net, e))
      && (Leaves(net, e) ==>
            && Has(net', net'[k][i].at) && order[net'[k][i].at] == Next(net, e)
            && net'[k][i].gate == net[order[k]][i].gate)
  {
    assert RowOf(net, order, k, net'[k]);
    if Leaves(net, Exit(order[k], i)) { assert PairedAt(net, order[k], i); }
  }

  lemma PairRenamed(net: Net, order: seq<int>, net': Net, k: int, i: int)
    requires Paired(net) && SameNet(net, order, net') && GateOf(net', k, i)
    ensures PairedAt(net', k, i)
  {
    GateRenamed(net, order, net', k, i);
    if net'[k][i].Dispatcher? {
      var m, g := net'[k][i].at, net'[k][i].gate;
      assert PairedAt(net, order[k], i);
      assert RowOf(net, order, m, net'[m]);
      GateRenamed(net, order, net', m, g);
      assert Differ(order, net'[m][g].at, k);
    }
  }

  lemma UpRenamed(net: Net, order: seq<int>, ups: seq<int>, net': Net, k: int, i: int)
    requires Paired(net) && Acyclic(net) && SameNet(net, order, net') && GateOf(net', k, i)
    requires |order| == |ups| && UpAt(net, order, ups, k)
    ensures UpwardAt(net', ups, k, i)
  {
    GateRenamed(net, order, net', k, i);
    if net'[k][i].Dispatcher? {
      var m := net'[k][i].at;
      NotItself(net, Exit(order[k], i));
      if m < k { assert order[m] in order[..k] && Earlier(net, order, k, i); }
      if k > 0 && i == ups[k] {
        assert Earlier(net, order, k, i);
        var a :| 0 <= a < k && order[..k][a] == order[m];
        assert Differ(order, a, m);
      }
    }
  }

  /** From any of its dispatchers the network can be numbered outwards. */
  lemma CanBeNumbered(net: Net, r: int) returns (order: seq<int>, net': Net, up: seq<int>)
    requires Paired(net) && Acyclic(net) && ConnectedFrom(net, r)
    ensures SameNet(net, order, net') && order[0] == r
    ensures IsTree(net', up)
  {
    AllJoined(net, r);
    order, up := Number(net, All(net), r);
    net' := Renumbered(net, order);
    forall k, i | GateOf(net', k, i) ensures PairedAt(net', k, i) { PairRenamed(net, order, net', k, i); }
    forall k, i | GateOf(net', k, i) ensures UpwardAt(net', up, k, i) {
      assert UpAt(net, order, up, k);
      UpRenamed(net, order, up, net', k, i);
    }
    forall k | Has(net', k) ensures HasUp(net', up, k) {
      assert UpAt(net, order, up, k);
      if k > 0 {
        assert Earlier(net, order, k, up[k]) && RowOf(net, order, k, net'[k]);
        GateRenamed(net, order, net', k, up[k]);
      }
    }
  }
}
