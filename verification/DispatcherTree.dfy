/** Message dispatchers connected to a tree: which gate of a dispatcher leads towards which other one. */
module DispatcherTree {

  /** What a pair of gates (one in, one out, with the same index) is connected to: the pair of gates with
      some index of another dispatcher, or something that is no dispatcher. */
  datatype Peer = Dispatcher(at: int, gate: int) | Endpoint

  /** net[v][i] is what gate i of dispatcher v is connected to. */
  type Net = seq<seq<Peer>>

  ghost predicate Has(net: Net, v: int) {
    0 <= v < |net|
  }

  ghost predicate GateOf(net: Net, v: int, i: int) {
    Has(net, v) && 0 <= i < |net[v]|
  }

  /** Connections go both ways. */
  ghost predicate PairedAt(net: Net, v: int, i: int)
    requires GateOf(net, v, i)
  {
    net[v][i].Dispatcher? ==>
      var u, j := net[v][i].at, net[v][i].gate;
      GateOf(net, u, j) && net[u][j] == Dispatcher(v, i)
  }

  /** The dispatchers are numbered from a root outwards: up[v] is the one gate of v that is connected to a
      dispatcher with a smaller number. Every connected network without cycles has such a numbering, from any of
      its dispatchers (DispatcherNumbering). */
  ghost predicate UpwardAt(net: Net, up: seq<int>, v: int, i: int)
    requires |up| == |net| && GateOf(net, v, i)
  {
    net[v][i].Dispatcher? ==> if v > 0 && i == up[v] then net[v][i].at < v else net[v][i].at > v
  }

  ghost predicate HasUp(net: Net, up: seq<int>, v: int)
    requires |up| == |net| && Has(net, v)
  {
    v > 0 ==> GateOf(net, v, up[v]) && net[v][up[v]].Dispatcher?
  }

  ghost predicate IsTree(net: Net, up: seq<int>) {
    && |up| == |net|
    && (forall v, i :: GateOf(net, v, i) ==> PairedAt(net, v, i))
    && (forall v, i :: GateOf(net, v, i) ==> UpwardAt(net, up, v, i))
    && (forall v :: Has(net, v) ==> HasUp(net, up, v))
  }

  ghost function Parent(net: Net, up: seq<int>, v: int): (p: int)
    requires IsTree(net, up) && Has(net, v) && v > 0
    ensures 0 <= p < v && net[v][up[v]] == Dispatcher(p, net[v][up[v]].gate)
    ensures GateOf(net, p, net[v][up[v]].gate) && net[p][net[v][up[v]].gate] == Dispatcher(v, up[v])
  {
    assert HasUp(net, up, v) && PairedAt(net, v, up[v]) && UpwardAt(net, up, v, up[v]);
    net[v][up[v]].at
  }

  /** w is v or further away from the root behind v. */
  ghost predicate Below(net: Net, up: seq<int>, v: int, w: int)
    requires IsTree(net, up) && Has(net, v) && Has(net, w)
    decreases w
  {
    w == v || (w > v && Below(net, up, v, Parent(net, up, w)))
  }

  /** The gate of v behind which w is. */
  ghost function Toward(net: Net, up: seq<int>, v: int, w: int): (i: int)
    requires IsTree(net, up) && Has(net, v) && Has(net, w) && v != w
    ensures GateOf(net, v, i) && net[v][i].Dispatcher?
    decreases w
  {
    if !Below(net, up, v, w) then
      RootAbove(net, up, w);
      assert HasUp(net, up, v);
      up[v]
    else if Parent(net, up, w) == v then net[w][up[w]].gate
    else Toward(net, up, v, Parent(net, up, w))
  }

  lemma {:induction false} RootAbove(net: Net, up: seq<int>, w: int)
    requires IsTree(net, up) && Has(net, w)
    ensures Below(net, up, 0, w)
    decreases w
  {
    if w > 0 { RootAbove(net, up, Parent(net, up, w)); }
  }

  lemma {:induction false} BelowLater(net: Net, up: seq<int>, v: int, w: int)
    requires IsTree(net, up) && Has(net, v) && Has(net, w) && Below(net, up, v, w)
    ensures v <= w
  {
  }

  // ------------------------------------------------------------------ across one connection

  /** x is a child of u, behind gate j of u; then whatever is below x is behind that gate, and only that. */
  lemma {:induction false} AcrossDown(net: Net, up: seq<int>, u: int, x: int, w: int)
    requires IsTree(net, up) && Has(net, u) && Has(net, x) && Has(net, w) && x > 0 && Parent(net, up, x) == u
    ensures w != u ==> (Toward(net, up, u, w) == net[x][up[x]].gate <==> Below(net, up, x, w))
    ensures w != x ==> (Toward(net, up, x, w) == up[x] <==> !Below(net, up, x, w))
    ensures Below(net, up, x, w) ==> w != u
    decreases w
  {
    var j := net[x][up[x]].gate;
    ChildBelow(net, up, u, x, w);
    if w != u { DownGate(net, up, u, x, w); }
    if w != x && Below(net, up, x, w) { DownNotUp(net, up, x, w); }
  }

  lemma {:induction false} ChildBelow(net: Net, up: seq<int>, u: int, x: int, w: int)
    requires IsTree(net, up) && Has(net, u) && Has(net, x) && Has(net, w) && x > 0 && Parent(net, up, x) == u
    ensures Below(net, up, x, w) ==> Below(net, up, u, w) && w > u
    decreases w
  {
    if w > x && Below(net, up, x, w) { ChildBelow(net, up, u, x, Parent(net, up, w)); }
  }

  lemma {:induction false} DownGate(net: Net, up: seq<int>, u: int, x: int, w: int)
    requires IsTree(net, up) && Has(net, u) && Has(net, x) && Has(net, w) && x > 0 && Parent(net, up, x) == u && w != u
    ensures Toward(net, up, u, w) == net[x][up[x]].gate <==> Below(net, up, x, w)
    decreases w
  {
    var j := net[x][up[x]].gate;
    ChildBelow(net, up, u, x, w);
    if !Below(net, up, u, w) {
      // up[u] leads to a smaller number, j to x
      if u == 0 { RootAbove(net, up, w); }
      else { assert Parent(net, up, u) < u; }
    } else if Parent(net, up, w) == u {
      // the gates of u to w and to x are the same exactly when w is x
      if w > x { BelowParent(net, up, x, w, u); }
    } else {
      var p := Parent(net, up, w);
      DownGate(net, up, u, x, p);
      if w == x { assert false; }
    }
  }

  /** What has u as its parent is not below a child of u unless it is that child. */
  lemma BelowParent(net: Net, up: seq<int>, x: int, w: int, u: int)
    requires IsTree(net, up) && Has(net, x) && Has(net, w) && w > x > u && Has(net, u) && Parent(net, up, w) == u
    ensures !Below(net, up, x, w)
  {
    if Below(net, up, x, u) { BelowLater(net, up, x, u); }
  }

  lemma {:induction false} DownNotUp(net: Net, up: seq<int>, x: int, w: int)
    requires IsTree(net, up) && Has(net, x) && Has(net, w) && x > 0 && w != x && Below(net, up, x, w)
    ensures Toward(net, up, x, w) != up[x]
    decreases w
  {
    var p := Parent(net, up, w);
    if p == x {
      assert Parent(net, up, x) < x;
    } else {
      DownNotUp(net, up, x, p);
    }
  }

  // ------------------------------------------------------------------ regions

  /** The dispatchers that a registration entering u through gate i has to visit: u and all that is not
      behind gate i. */
  ghost predicate InRegion(net: Net, up: seq<int>, u: int, i: int, w: int)
    requires IsTree(net, up) && Has(net, u) && Has(net, w)
  {
    w == u || Toward(net, up, u, w) != i
  }

  /** Behind gate j of u are exactly the dispatchers that a registration visits that leaves u through j. */
  lemma Behind(net: Net, up: seq<int>, u: int, j: int, w: int)
    requires IsTree(net, up) && GateOf(net, u, j) && net[u][j].Dispatcher? && Has(net, w)
    ensures var x, k := net[u][j].at, net[u][j].gate;
      && GateOf(net, x, k) && net[x][k] == Dispatcher(u, j) && x != u
      && (InRegion(net, up, x, k, w) <==> w != u && Toward(net, up, u, w) == j)
  {
    assert PairedAt(net, u, j) && UpwardAt(net, up, u, j);
    var x, k := net[u][j].at, net[u][j].gate;
    assert UpwardAt(net, up, x, k) && HasUp(net, up, u) && HasUp(net, up, x);
    if u > 0 && j == up[u] {
      AcrossDown(net, up, x, u, w);
    } else {
      AcrossDown(net, up, u, x, w);
    }
  }

  /** Seen from what is behind a gate, the way back leads through the other end of the connection. */
  lemma WayBack(net: Net, up: seq<int>, u: int, j: int, w: int)
    requires IsTree(net, up) && GateOf(net, u, j) && net[u][j].Dispatcher? && Has(net, w)
    requires w != u && Toward(net, up, u, w) == j
    ensures var x, k := net[u][j].at, net[u][j].gate;
      Has(net, x) && Toward(net, up, w, u) == if w == x then k else Toward(net, up, w, x)
  {
    Behind(net, up, u, j, w);
    var x, k := net[u][j].at, net[u][j].gate;
    assert UpwardAt(net, up, u, j) && UpwardAt(net, up, x, k) && HasUp(net, up, u) && HasUp(net, up, x);
    if u > 0 && j == up[u] {
      AcrossDown(net, up, x, u, w);
      assert Parent(net, up, u) == x;
      if w == x {
        assert Below(net, up, x, x) && Below(net, up, x, u);
      } else {
        if Below(net, up, w, x) { BelowLater(net, up, w, x); }
        assert Below(net, up, w, u) <==> Below(net, up, w, x);
      }
    } else {
      AcrossDown(net, up, u, x, w);
      BelowLater(net, up, x, w);
      if Below(net, up, w, u) { BelowLater(net, up, w, u); }
      if w != x && Below(net, up, w, x) { BelowLater(net, up, w, x); }
    }
  }

  ghost function Region(net: Net, up: seq<int>, u: int, i: int): set<int>
    requires IsTree(net, up) && Has(net, u)
  {
    set w | 0 <= w < |net| && InRegion(net, up, u, i, w)
  }

  /** What lies behind another gate is less. */
  lemma RegionShrinks(net: Net, up: seq<int>, u: int, i: int, j: int)
    requires IsTree(net, up) && GateOf(net, u, j) && net[u][j].Dispatcher? && i != j
    ensures Has(net, net[u][j].at)
    ensures |Region(net, up, net[u][j].at, net[u][j].gate)| < |Region(net, up, u, i)|
  {
    Behind(net, up, u, j, u);
    var a, b := Region(net, up, net[u][j].at, net[u][j].gate), Region(net, up, u, i);
    forall w | w in a ensures w in b && w != u {
      Behind(net, up, u, j, w);
    }
    assert u in b;
    Fewer(a, b, u);
  }

  lemma Fewer(a: set<int>, b: set<int>, x: int)
    requires a <= b && x in b && x !in a
    ensures |a| < |b|
  {
    assert b == a + (b - a);
    assert x in b - a;
  }

  // ------------------------------------------------------------------ the way to a dispatcher

  /** How many dispatchers lie behind the gate of v towards r. */
  ghost function Away(net: Net, up: seq<int>, v: int, r: int): nat
    requires IsTree(net, up) && Has(net, v) && Has(net, r)
  {
    if v == r then 0
    else
      var i := Toward(net, up, v, r);
      Behind(net, up, v, i, r);
      |Region(net, up, net[v][i].at, net[v][i].gate)|
  }

  lemma OneHopCloser(net: Net, up: seq<int>, v: int, r: int)
    requires IsTree(net, up) && Has(net, v) && Has(net, r) && v != r
    ensures var x := net[v][Toward(net, up, v, r)].at; Has(net, x) && Away(net, up, x, r) < Away(net, up, v, r)
  {
    var i := Toward(net, up, v, r);
    Behind(net, up, v, i, r);
    var x, k := net[v][i].at, net[v][i].gate;
    if x == r {
      assert r in Region(net, up, x, k);
    } else {
      var j := Toward(net, up, x, r);
      RegionShrinks(net, up, x, k, j);
    }
  }

  lemma AwayBounded(net: Net, up: seq<int>, v: int, r: int)
    requires IsTree(net, up) && Has(net, v) && Has(net, r)
    ensures Away(net, up, v, r) < |net|
  {
    if v != r {
      var i := Toward(net, up, v, r);
      Behind(net, up, v, i, v);
      var a := Region(net, up, net[v][i].at, net[v][i].gate);
      var all := Numbers(|net|);
      NumbersRange(|net|, v);
      forall w | w in a ensures w in all { NumbersRange(|net|, w); }
      Fewer(a, all, v);
    }
  }

  ghost function Numbers(n: nat): set<int> {
    if n == 0 then {} else Numbers(n - 1) + {n - 1}
  }

  lemma {:induction false} NumbersRange(n: nat, w: int)
    ensures w in Numbers(n) <==> 0 <= w < n
    ensures |Numbers(n)| == n
  {
    if n > 0 {
      NumbersRange(n - 1, w);
      NumbersRange(n - 1, n - 1);
    }
  }

  // ------------------------------------------------------------------ registrations

  datatype Key = Key(protocolId: int, servicePrimitive: int)

  type Table = map<Key, int>

  /** The gate under which w learns of a registration that entered v through gate out. */
  ghost function GateFor(net: Net, up: seq<int>, v: int, out: int, w: int): int
    requires IsTree(net, up) && Has(net, v) && Has(net, w)
  {
    if w == v then out else Toward(net, up, w, v)
  }

  /** The table of w before and after: an entry in the region, nothing elsewhere. */
  ghost predicate LearntAt(net: Net, up: seq<int>, v: int, out: int, key: Key, w: int, before: Table, after: Table)
    requires IsTree(net, up) && Has(net, v) && Has(net, w)
  {
    after == if InRegion(net, up, v, out, w) then before[key := GateFor(net, up, v, out, w)] else before
  }

  ghost predicate Learnt(net: Net, up: seq<int>, v: int, out: int, key: Key, before: seq<Table>, after: seq<Table>)
    requires IsTree(net, up) && Has(net, v)
  {
    && |before| == |after| == |net|
    && forall w :: 0 <= w < |net| ==> LearntAt(net, up, v, out, key, w, before[w], after[w])
  }

  /** Nobody in the region knows the key. */
  ghost predicate Fresh(net: Net, up: seq<int>, v: int, out: int, key: Key, tables: seq<Table>)
    requires IsTree(net, up) && Has(net, v) && |tables| == |net|
  {
    forall w :: 0 <= w < |net| && InRegion(net, up, v, out, w) ==> key !in tables[w]
  }

  /** What a registration that was refused on the way leaves: entries in part of the region. */
  ghost predicate PartlyAt(net: Net, up: seq<int>, v: int, out: int, key: Key, w: int, before: Table, after: Table)
    requires IsTree(net, up) && Has(net, v) && Has(net, w)
  {
    after == before || LearntAt(net, up, v, out, key, w, before, after)
  }

  ghost predicate Partly(net: Net, up: seq<int>, v: int, out: int, key: Key, before: seq<Table>, after: seq<Table>)
    requires IsTree(net, up) && Has(net, v)
  {
    && |before| == |after| == |net|
    && forall w :: 0 <= w < |net| ==> PartlyAt(net, up, v, out, key, w, before[w], after[w])
  }

  /** v and what is behind its first n gates, but for gate out, has learnt of the registration. */
  ghost predicate ReachedAt(net: Net, up: seq<int>, v: int, out: int, key: Key, n: int, w: int, before: Table,
          now: Table)
    requires IsTree(net, up) && Has(net, v) && Has(net, w)
  {
    if w == v || (Toward(net, up, v, w) != out && Toward(net, up, v, w) < n)
    then key !in before && now == before[key := GateFor(net, up, v, out, w)]
    else now == before
  }

  ghost predicate Reached(net: Net, up: seq<int>, v: int, out: int, key: Key, n: int, before: seq<Table>,
          now: seq<Table>)
    requires IsTree(net, up) && Has(net, v)
  {
    && |before| == |now| == |net|
    && forall w :: 0 <= w < |net| ==> ReachedAt(net, up, v, out, key, n, w, before[w], now[w])
  }

  /** A registration sent on through gate n reaches what is behind that gate. */
  lemma SentOn(net: Net, up: seq<int>, v: int, out: int, key: Key, n: int, before: seq<Table>, now: seq<Table>,
          after: seq<Table>)
    requires IsTree(net, up) && GateOf(net, v, n) && n != out && net[v][n].Dispatcher?
    requires Reached(net, up, v, out, key, n, before, now)
    requires Has(net, net[v][n].at)
    requires Learnt(net, up, net[v][n].at, net[v][n].gate, key, now, after)
    requires Fresh(net, up, net[v][n].at, net[v][n].gate, key, now)
    ensures Reached(net, up, v, out, key, n + 1, before, after)
  {
    forall w | 0 <= w < |net| ensures ReachedAt(net, up, v, out, key, n + 1, w, before[w], after[w]) {
      assert ReachedAt(net, up, v, out, key, n, w, before[w], now[w]);
      assert LearntAt(net, up, net[v][n].at, net[v][n].gate, key, w, now[w], after[w]);
      Behind(net, up, v, n, w);
      if w != v && Toward(net, up, v, w) == n { WayBack(net, up, v, n, w); }
    }
  }

  /** When it is refused there, somebody in the whole region knew the key, and only part has learnt. */
  lemma RefusedThere(net: Net, up: seq<int>, v: int, out: int, key: Key, n: int, before: seq<Table>, now: seq<Table>,
          after: seq<Table>)
    requires IsTree(net, up) && GateOf(net, v, n) && n != out && net[v][n].Dispatcher?
    requires Reached(net, up, v, out, key, n, before, now)
    requires Has(net, net[v][n].at)
    requires Partly(net, up, net[v][n].at, net[v][n].gate, key, now, after)
    requires !Fresh(net, up, net[v][n].at, net[v][n].gate, key, now)
    ensures Partly(net, up, v, out, key, before, after) && !Fresh(net, up, v, out, key, before)
  {
    forall w | 0 <= w < |net| ensures PartlyAt(net, up, v, out, key, w, before[w], after[w]) {
      assert ReachedAt(net, up, v, out, key, n, w, before[w], now[w]);
      assert PartlyAt(net, up, net[v][n].at, net[v][n].gate, key, w, now[w], after[w]);
      Behind(net, up, v, n, w);
      if w != v && Toward(net, up, v, w) == n { WayBack(net, up, v, n, w); }
    }
    var w :| 0 <= w < |net| && InRegion(net, up, net[v][n].at, net[v][n].gate, w) && key in now[w];
    assert ReachedAt(net, up, v, out, key, n, w, before[w], now[w]);
    Behind(net, up, v, n, w);
  }

  /** Nothing is behind a gate without a dispatcher. */
  lemma NobodyThere(net: Net, up: seq<int>, v: int, out: int, key: Key, n: int, before: seq<Table>, now: seq<Table>)
    requires IsTree(net, up) && GateOf(net, v, n) && (n == out || net[v][n].Endpoint?)
    requires Reached(net, up, v, out, key, n, before, now)
    ensures Reached(net, up, v, out, key, n + 1, before, now)
  {
    forall w | 0 <= w < |net| ensures ReachedAt(net, up, v, out, key, n + 1, w, before[w], now[w]) {
      assert ReachedAt(net, up, v, out, key, n, w, before[w], now[w]);
    }
  }

  lemma AllReached(net: Net, up: seq<int>, v: int, out: int, key: Key, before: seq<Table>, now: seq<Table>)
    requires IsTree(net, up) && Has(net, v)
    requires Reached(net, up, v, out, key, |net[v]|, before, now)
    ensures Learnt(net, up, v, out, key, before, now) && Fresh(net, up, v, out, key, before)
  {
    forall w | 0 <= w < |net|
      ensures LearntAt(net, up, v, out, key, w, before[w], now[w])
      ensures InRegion(net, up, v, out, w) ==> key !in before[w]
    {
      assert ReachedAt(net, up, v, out, key, |net[v]|, w, before[w], now[w]);
    }
  }

  /** A registration that comes from outside the tree concerns every dispatcher. */
  lemma FromOutside(net: Net, up: seq<int>, r: int, g: int, w: int)
    requires IsTree(net, up) && GateOf(net, r, g) && net[r][g].Endpoint? && Has(net, w)
    ensures InRegion(net, up, r, g, w)
  {
  }
}
