module IntervalTree {
  import opened IntervalCells
  import opened IntervalColours
  import opened IntervalDelete
  import opened IntervalEdits
  import opened IntervalGraft
  import opened IntervalInsert
  import opened IntervalQuery
  import opened Lists

  class Interval {
    const low: int
    const high: int

    constructor (low: int, high: int)
      ensures this.low == low && this.high == high
    {
      this.low := low;
      this.high := high;
    }
  }

  class Node {
    var storedInterval: Interval?
    var key: int
    var high: int
    var maxHigh: int
    var red: bool
    var left: Node?
    var right: Node?
    var parent: Node?

    constructor Sentinel(time: int)
      ensures key == high == maxHigh == time && !red && storedInterval == null
    {
      storedInterval := null;
      key, high, maxHigh := time, time, time;
      red := false;
      left, right, parent := null, null, null;
    }

    constructor (newInterval: Interval)
      ensures storedInterval == newInterval && key == newInterval.low
      ensures high == maxHigh == newInterval.high && !red
    {
      storedInterval := newInterval;
      key, high, maxHigh := newInterval.low, newInterval.high, newInterval.high;
      red := false;
      left, right, parent := null, null, null;
    }
  }

  /** A visited node whose left subtree is being searched, and whether to try its right one. */
  datatype RecursionNode = RecursionNode(startNode: Node?, parentIndex: nat, tryRightBranch: bool)

  class IntervalTree {
    var root: Node
    var nil: Node
    var recursionNodeStackSize: nat
    var recursionNodeStack: array<RecursionNode>
    var currentParent: nat
    var recursionNodeStackTop: nat

    /** The stored nodes in key order, their links as a value and the witness of black heights. */
    ghost var nodes: seq<Node>
    ghost var t: Tree
    ghost var bh: seq<int>
    ghost var repr: set<Node>

    constructor ()
      ensures Valid() && fresh(root) && fresh(nil) && fresh(recursionNodeStack)
      ensures nodes == []
    {
      nil := new Node.Sentinel(-MAX_TIME);
      root := new Node.Sentinel(MAX_TIME);
      recursionNodeStackSize := 128;
      recursionNodeStack := new RecursionNode[128](_ => RecursionNode(null, 0, false));
      recursionNodeStackTop := 1;
      currentParent := 0;
      nodes, t, bh, repr := [], Tree([], None), [], {};
      new;
      nil.left, nil.right, nil.parent := nil, nil, nil;
      root.parent, root.left, root.right := nil, nil, nil;
    }

    /** All nodes hold intervals, in key order; the tree is a search tree with exact maxHigh and a
        red-black colouring; no search is under way. */
    ghost predicate Valid()
      reads this, repr, root, nil, recursionNodeStack
    {
      && Linked(t) && Shape(t) && Highs(t) && Coloured(t, bh)
      && Sorted() && Stored()
      && recursionNodeStackTop == 1 < recursionNodeStackSize == recursionNodeStack.Length
    }

    ghost predicate Stored()
      reads this`nodes, nodes
    {
      forall i :: 0 <= i < |nodes| ==> StoredAt(i)
    }

    ghost predicate StoredAt(i: int)
      requires 0 <= i < |nodes|
      reads this`nodes, nodes[i]
    {
      var n := nodes[i];
      n.storedInterval != null && n.key == n.storedInterval.low && n.high == n.storedInterval.high
    }

    ghost function Contents(): (s: seq<Interval?>)
      reads this, nodes
      ensures |s| == |nodes|
    {
      seq(|nodes|, i requires 0 <= i < |nodes| reads this, nodes => nodes[i].storedInterval)
    }

    /** The node object at a position, with `nil` for None. */
    ghost function At(j: int): Node
      reads this`nodes, this`nil, this`root
    {
      if 0 <= j < |nodes| then nodes[j] else nil
    }

    ghost function Above(j: int): Node
      reads this`nodes, this`nil, this`root
    {
      if 0 <= j < |nodes| then nodes[j] else root
    }

    ghost predicate Objects()
      reads this`nodes, this`nil, this`root, this`repr
    {
      && root != nil
      && root !in nodes && nil !in nodes
      && repr == (set n | n in nodes)
      && Distinct(nodes)
    }

    ghost predicate Link(u: Tree, i: int)
      requires 0 <= i < |nodes| == |u.cells|
      reads this`nodes, this`nil, this`root, nodes[i]
    {
      var n := nodes[i];
      var c := u.cells[i];
      && n.left == At(c.left)
      && n.right == At(c.right)
      && n.parent == Above(c.parent)
      && n.red == c.red
      && n.key == c.key
      && n.high == c.high
      && n.maxHigh == c.maxHigh
    }

    ghost predicate Sentinels(u: Tree)
      reads this`nodes, this`nil, this`root, root, nil
    {
      && root.left == At(u.top)
      && root.right == nil
      && root.parent == nil
      && root.storedInterval == null
      && !root.red
      && !nil.red
      && nil.maxHigh == -MAX_TIME
    }

    ghost predicate Linked(u: Tree)
      reads this`nodes, this`nil, this`root, this`repr, repr, root, nil
    {
      && |nodes| == |u.cells|
      && Objects()
      && Sentinels(u)
      && (forall i :: 0 <= i < |nodes| ==> Link(u, i))
    }

    // Assignments to one field, with the same change made to the value u.

    method SetLeft(n: Node, c: Node, ghost u: Tree, ghost i: int, ghost j: int)
      requires Linked(u) && n == Above(i) && c == At(j)
      modifies n`left
      ensures Linked(WithLeft(u, i, j))
    {
      n.left := c;
      forall k | 0 <= k < |nodes| ensures Link(WithLeft(u, i, j), k) {
        assert old(Link(u, k));
        assert Has(u, i) ==> Differ(nodes, i, k);
      }
    }

    method SetRight(n: Node, c: Node, ghost u: Tree, ghost i: int, ghost j: int)
      requires Linked(u) && Has(u, i) && n == nodes[i] && c == At(j)
      modifies n`right
      ensures Linked(WithRight(u, i, j))
    {
      n.right := c;
      forall k | 0 <= k < |nodes| ensures Link(WithRight(u, i, j), k) {
        assert old(Link(u, k));
        assert Has(u, i) ==> Differ(nodes, i, k);
      }
    }

    method SetParent(n: Node, p: Node, ghost u: Tree, ghost i: int, ghost j: int)
      requires Linked(u) && Has(u, i) && n == nodes[i] && p == Above(j)
      modifies n`parent
      ensures Linked(WithParent(u, i, j))
    {
      n.parent := p;
      forall k | 0 <= k < |nodes| ensures Link(WithParent(u, i, j), k) {
        assert old(Link(u, k));
        assert Has(u, i) ==> Differ(nodes, i, k);
      }
    }

    method SetRed(n: Node, b: bool, ghost u: Tree, ghost i: int)
      requires Linked(u) && Has(u, i) && n == nodes[i]
      modifies n`red
      ensures Linked(WithRed(u, i, b))
    {
      n.red := b;
      forall k | 0 <= k < |nodes| ensures Link(WithRed(u, i, b), k) {
        assert old(Link(u, k));
        assert Has(u, i) ==> Differ(nodes, i, k);
      }
    }

    method SetMaxHigh(n: Node, m: int, ghost u: Tree, ghost i: int)
      requires Linked(u) && Has(u, i) && n == nodes[i]
      modifies n`maxHigh
      ensures Linked(WithMaxHigh(u, i, m))
    {
      n.maxHigh := m;
      forall k | 0 <= k < |nodes| ensures Link(WithMaxHigh(u, i, m), k) {
        assert old(Link(u, k));
        assert Has(u, i) ==> Differ(nodes, i, k);
      }
    }

    method HighestOf(x: Node, ghost u: Tree, ghost i: int) returns (m: int)
      requires Linked(u) && Has(u, i) && x == nodes[i] && Slotted(u, i)
      ensures m == Highest(u, i)
    {
      assert Link(u, i);
      assert u.cells[i].left != None ==> Link(u, u.cells[i].left);
      assert u.cells[i].right != None ==> Link(u, u.cells[i].right);
      m := Max(x.high, Max(x.left.maxHigh, x.right.maxHigh));
    }

    /** `(x == x.parent.left ? x.parent.left : x.parent.right) := y` */
    method ReplaceBelow(p: Node, x: Node, y: Node, ghost u: Tree, ghost i: int, ghost j: int, ghost k: int)
      requires Linked(u) && Has(u, j) && x == nodes[j] && (k == None || Has(u, k)) && y == At(k)
      requires p == Above(i) && (if i == None then u.top == j else Has(u, i) && Slotted(u, i))
      modifies p`left, p`right
      ensures Linked(Replaced(u, i, j, k))
    {
      if i != None {
        assert Link(u, i);
        assert u.cells[i].left != None ==> Differ(nodes, u.cells[i].left, j);
      }
      if x == p.left {
        SetLeft(p, y, u, i, k);
      } else {
        SetRight(p, y, u, i, k);
      }
    }

    method LeftRelink(x: Node, y: Node, ghost u: Tree, ghost v: Pivot)
      requires Linked(u) && LeftLinks(u, v) && x == nodes[v.x] && y == nodes[v.y]
      modifies root`left, root`right, repr`left, repr`right, repr`parent
      ensures Linked(LeftRelinked(u, v))
    {
      assert x in repr && y in repr;
      ghost var u1 := WithRight(u, v.x, v.b);
      ghost var u2 := if v.b != None then WithParent(u1, v.b, v.x) else u1;
      ghost var u3 := WithParent(u2, v.y, v.p);
      ghost var u4 := Replaced(u3, v.p, v.x, v.y);
      assert Link(u, v.x) && Link(u, v.y);
      SetRight(x, y.left, u, v.x, v.b);
      assert Link(u1, v.y);
      if y.left != nil {
        SetParent(y.left, x, u1, v.b, v.x);
      }
      assert Link(u2, v.x);
      SetParent(y, x.parent, u2, v.y, v.p);
      assert Link(u3, v.x);
      ReplaceBelow(x.parent, x, y, u3, v.p, v.x, v.y);
      SetLeft(y, x, u4, v.y, v.x);
      SetParent(x, y, WithLeft(u4, v.y, v.x), v.x, v.y);
    }

    method LeftRotate(x: Node, ghost u: Tree, ghost v: Pivot)
      requires Linked(u) && LeftPivot(u, v) && x == nodes[v.x]
      requires HighOk(u, v.x) && HighOk(u, v.y)
      modifies root`left, root`right, repr`left, repr`right, repr`parent, repr`maxHigh
      ensures Linked(LeftRotation(u, v))
    {
      PivotApart(u, v);
      LeftRotateSteps(x, u, v);
      LeftStepsRotate(u, v);
      LinkedAlike(LeftSteps(u, v), LeftRotation(u, v));
    }

    method LeftRotateSteps(x: Node, ghost u: Tree, ghost v: Pivot)
      requires Linked(u) && LeftLinks(u, v) && x == nodes[v.x]
      requires Slotted(u, v.x) && Slotted(u, v.y)
      modifies root`left, root`right, repr`left, repr`right, repr`parent, repr`maxHigh
      ensures Linked(LeftSteps(u, v))
    {
      assert Link(u, v.x);
      var y := x.right;
      assert x in repr && y in repr;
      LeftRelink(x, y, u, v);
      ghost var u1 := LeftRelinked(u, v);
      LeftRelinkedAt(u, v, v.x);
      LeftRelinkedAt(u, v, v.y);
      var mx := HighestOf(x, u1, v.x);
      SetMaxHigh(x, mx, u1, v.x);
      ghost var u2 := WithMaxHigh(u1, v.x, mx);
      var my := HighestOf(y, u2, v.y);
      SetMaxHigh(y, my, u2, v.y);
    }

    method RightRelink(x: Node, y: Node, ghost u: Tree, ghost v: Pivot)
      requires Linked(u) && RightLinks(u, v) && x == nodes[v.x] && y == nodes[v.y]
      modifies root`right, root`left, repr`right, repr`left, repr`parent
      ensures Linked(RightRelinked(u, v))
    {
      assert x in repr && y in repr;
      ghost var u1 := WithLeft(u, v.x, v.b);
      ghost var u2 := if v.b != None then WithParent(u1, v.b, v.x) else u1;
      ghost var u3 := WithParent(u2, v.y, v.p);
      ghost var u4 := Replaced(u3, v.p, v.x, v.y);
      assert Link(u, v.x) && Link(u, v.y);
      SetLeft(x, y.right, u, v.x, v.b);
      assert Link(u1, v.y);
      if y.right != nil {
        SetParent(y.right, x, u1, v.b, v.x);
      }
      assert Link(u2, v.x);
      SetParent(y, x.parent, u2, v.y, v.p);
      assert Link(u3, v.x);
      ReplaceBelow(x.parent, x, y, u3, v.p, v.x, v.y);
      SetRight(y, x, u4, v.y, v.x);
      SetParent(x, y, WithRight(u4, v.y, v.x), v.x, v.y);
    }

    method RightRotate(x: Node, ghost u: Tree, ghost v: Pivot)
      requires Linked(u) && RightPivot(u, v) && x == nodes[v.x]
      requires HighOk(u, v.x) && HighOk(u, v.y)
      modifies root`right, root`left, repr`right, repr`left, repr`parent, repr`maxHigh
      ensures Linked(RightRotation(u, v))
    {
      PivotApart(u, v);
      RightRotateSteps(x, u, v);
      RightStepsRotate(u, v);
      LinkedAlike(RightSteps(u, v), RightRotation(u, v));
    }

    method RightRotateSteps(x: Node, ghost u: Tree, ghost v: Pivot)
      requires Linked(u) && RightLinks(u, v) && x == nodes[v.x]
      requires Slotted(u, v.x) && Slotted(u, v.y)
      modifies root`right, root`left, repr`right, repr`left, repr`parent, repr`maxHigh
      ensures Linked(RightSteps(u, v))
    {
      assert Link(u, v.x);
      var y := x.left;
      assert x in repr && y in repr;
      RightRelink(x, y, u, v);
      ghost var u1 := RightRelinked(u, v);
      RightRelinkedAt(u, v, v.x);
      RightRelinkedAt(u, v, v.y);
      var mx := HighestOf(x, u1, v.x);
      SetMaxHigh(x, mx, u1, v.x);
      ghost var u2 := WithMaxHigh(u1, v.x, mx);
      var my := HighestOf(y, u2, v.y);
      SetMaxHigh(y, my, u2, v.y);
    }

    lemma LinkedAlike(u: Tree, w: Tree)
      requires Linked(u) && Alike(u, w)
      ensures Linked(w)
    {
      forall k | 0 <= k < |nodes| ensures Link(w, k) { assert Link(u, k) && AlikeAt(u, w, k); }
    }

    // ---------------------------------------------------------------- insertion

    method FixupMaxHigh(start: Node, ghost u: Tree, ghost i: int) returns (ghost w: Tree)
      requires Linked(u) && Shape(u) && start == Above(i)
      requires if i == None then Highs(u) else Has(u, i) && HighsBut(u, i)
      modifies repr`maxHigh
      ensures Linked(w) && Shape(w) && Rehighed(u, w) && Highs(w)
    {
      var x := start;
      w := u;
      ghost var j := i;
      while x != root
        invariant Linked(w) && Shape(w) && Rehighed(u, w) && x == Above(j)
        invariant if j == None then Highs(w) else Has(w, j) && HighsBut(w, j)
        decreases if j == None then 0 else 1 + |nodes| - (w.cells[j].hi - w.cells[j].lo)
      {
        assert x in repr;
        FixupStep(w, j);
        var m := HighestOf(x, w, j);
        RefreshStep(w, j);
        RehighedTwice(u, w, HighRefreshed(w, j), j);
        SetMaxHigh(x, m, w, j);
        w := HighRefreshed(w, j);
        assert Link(w, j);
        x := x.parent;
        j := w.cells[j].parent;
      }
    }

    /** The colour flip below a red uncle. */
    method RecolourUp(x: Node, p: Node, y: Node, g: Node, ghost u: Tree, ghost bh: seq<int>, ghost i: int)
      returns (ghost w: Tree, ghost bh': seq<int>)
      requires Linked(u) && Inserting(u, bh, i) && IsRed(u, u.cells[i].parent)
      requires var ip := u.cells[i].parent; var ig := u.cells[ip].parent;
        && Has(u, ig) && x == nodes[i] && p == nodes[ip] && g == nodes[ig]
        && IsRed(u, Brother(u, ig, ip)) && y == nodes[Brother(u, ig, ip)]
      modifies repr`red
      ensures Linked(w) && Inserting(w, bh', u.cells[u.cells[i].parent].parent)
      ensures w == Flipped(u, u.cells[i].parent, Brother(u, u.cells[u.cells[i].parent].parent, u.cells[i].parent),
          u.cells[u.cells[i].parent].parent)
    {
      assert p in repr && y in repr && g in repr;
      ghost var ip := u.cells[i].parent;
      ghost var ig := u.cells[ip].parent;
      ghost var iy := Brother(u, ig, ip);
      InsertFamily(u, bh, i);
      InsertFlip(u, bh, i, ip, iy, ig);
      SetRed(p, false, u, ip);
      SetRed(y, false, WithRed(u, ip, false), iy);
      SetRed(g, true, WithRed(WithRed(u, ip, false), iy, false), ig);
      w, bh' := Flipped(u, ip, iy, ig), bh[ig := bh[ig] + 1];
    }

    /** One round of insert's loop for a parent that is a left child. */
    method InsertFixLeft(x0: Node, ghost u: Tree, ghost bh: seq<int>, ghost i0: int)
      returns (x: Node, ghost w: Tree, ghost bh': seq<int>, ghost i: int)
      requires Linked(u) && Inserting(u, bh, i0) && IsRed(u, u.cells[i0].parent) && x0 == nodes[i0]
      requires Has(u, u.cells[u.cells[i0].parent].parent)
      requires u.cells[u.cells[u.cells[i0].parent].parent].left == u.cells[i0].parent
      modifies root`left, root`right, repr`left, repr`right, repr`parent, repr`maxHigh, repr`red
      ensures Linked(w) && Inserting(w, bh', i) && x == nodes[i]
      ensures !IsRed(w, w.cells[i].parent) || w.cells[i].hi - w.cells[i].lo > u.cells[i0].hi - u.cells[i0].lo
    {
      x, w, bh', i := x0, u, bh, i0;
      ghost var ip := u.cells[i].parent;
      ghost var ig := u.cells[ip].parent;
      InsertFamily(u, bh, i);
      assert Link(u, i) && Link(u, ip) && Link(u, ig);
      assert x in repr && x.parent in repr && x.parent.parent in repr;
      var y := x.parent.parent.right;
      assert u.cells[ig].right != None ==> Link(u, u.cells[ig].right);
      if y.red {
        w, bh' := RecolourUp(x, x.parent, y, x.parent.parent, u, bh, i);
        x, i := x.parent.parent, ig;
      } else {
        x, w, i := InsertBlackUncleLeft(x, u, bh, i);
      }
    }

    method InsertBlackUncleLeft(x0: Node, ghost u: Tree, ghost bh: seq<int>, ghost i0: int)
      returns (x: Node, ghost w: Tree, ghost i: int)
      requires Linked(u) && Inserting(u, bh, i0) && IsRed(u, u.cells[i0].parent) && x0 == nodes[i0]
      requires var ig := u.cells[u.cells[i0].parent].parent;
        Has(u, ig) && u.cells[ig].left == u.cells[i0].parent && !IsRed(u, u.cells[ig].right)
      modifies root`left, root`right, repr`left, repr`right, repr`parent, repr`maxHigh, repr`red
      ensures Linked(w) && Inserting(w, bh, i) && x == nodes[i]
      ensures !IsRed(w, w.cells[i].parent)
    {
      hide Shape, Highs, Coloured;
      x, w, i := x0, u, i0;
      ghost var ip := u.cells[i].parent;
      InsertFamily(u, bh, i);
      assert Link(u, i) && Link(u, ip);
      assert u.cells[ip].right != None ==> Differ(nodes, u.cells[ip].right, i);
      if x == x.parent.right {
        x := x.parent;
        InsertInnerLeft(u, bh, i);
        LeftRotate(x, u, InnerPivotLeft(u, i));
        w, i := LeftRotation(u, InnerPivotLeft(u, i)), ip;
      }
      assert Link(w, i);
      w := InsertTurnLeft(x, x.parent, w, bh, i);
    }

    method InsertTurnLeft(x: Node, p: Node, ghost u: Tree, ghost bh: seq<int>, ghost i: int) returns (ghost w: Tree)
      requires Linked(u) && Inserting(u, bh, i) && IsRed(u, u.cells[i].parent)
      requires x == nodes[i] && p == nodes[u.cells[i].parent] && u.cells[u.cells[i].parent].left == i
      requires var ig := u.cells[u.cells[i].parent].parent;
        Has(u, ig) && u.cells[ig].left == u.cells[i].parent && !IsRed(u, u.cells[ig].right)
      modifies root`left, root`right, repr`left, repr`right, repr`parent, repr`maxHigh, repr`red
      ensures Linked(w) && Inserting(w, bh, i) && !IsRed(w, w.cells[i].parent)
    {
      ghost var v := OuterPivotLeft(u, i);
      InsertOuterLeft(u, bh, i);
      assert p in repr;
      assert Link(u, v.y);
      var g := p.parent;
      assert g in repr;
      SetRed(p, false, u, v.y);
      ghost var t1 := WithRed(u, v.y, false);
      SetRed(g, true, t1, v.x);
      ghost var t2 := WithRed(t1, v.x, true);
      RightRotate(g, t2, v);
      w := RightRotation(t2, v);
    }

    /** One round of insert's loop for a parent that is a right child. */
    method InsertFixRight(x0: Node, ghost u: Tree, ghost bh: seq<int>, ghost i0: int)
      returns (x: Node, ghost w: Tree, ghost bh': seq<int>, ghost i: int)
      requires Linked(u) && Inserting(u, bh, i0) && IsRed(u, u.cells[i0].parent) && x0 == nodes[i0]
      requires Has(u, u.cells[u.cells[i0].parent].parent)
      requires u.cells[u.cells[u.cells[i0].parent].parent].right == u.cells[i0].parent
      modifies root`right, root`left, repr`right, repr`left, repr`parent, repr`maxHigh, repr`red
      ensures Linked(w) && Inserting(w, bh', i) && x == nodes[i]
      ensures !IsRed(w, w.cells[i].parent) || w.cells[i].hi - w.cells[i].lo > u.cells[i0].hi - u.cells[i0].lo
    {
      x, w, bh', i := x0, u, bh, i0;
      ghost var ip := u.cells[i].parent;
      ghost var ig := u.cells[ip].parent;
      InsertFamily(u, bh, i);
      assert Link(u, i) && Link(u, ip) && Link(u, ig);
      assert x in repr && x.parent in repr && x.parent.parent in repr;
      var y := x.parent.parent.left;
      assert u.cells[ig].left != None ==> Link(u, u.cells[ig].left);
      if y.red {
        w, bh' := RecolourUp(x, x.parent, y, x.parent.parent, u, bh, i);
        x, i := x.parent.parent, ig;
      } else {
        x, w, i := InsertBlackUncleRight(x, u, bh, i);
      }
    }

    method InsertBlackUncleRight(x0: Node, ghost u: Tree, ghost bh: seq<int>, ghost i0: int)
      returns (x: Node, ghost w: Tree, ghost i: int)
      requires Linked(u) && Inserting(u, bh, i0) && IsRed(u, u.cells[i0].parent) && x0 == nodes[i0]
      requires var ig := u.cells[u.cells[i0].parent].parent;
        Has(u, ig) && u.cells[ig].right == u.cells[i0].parent && !IsRed(u, u.cells[ig].left)
      modifies root`right, root`left, repr`right, repr`left, repr`parent, repr`maxHigh, repr`red
      ensures Linked(w) && Inserting(w, bh, i) && x == nodes[i]
      ensures !IsRed(w, w.cells[i].parent)
    {
      hide Shape, Highs, Coloured;
      x, w, i := x0, u, i0;
      ghost var ip := u.cells[i].parent;
      InsertFamily(u, bh, i);
      assert Link(u, i) && Link(u, ip);
      assert u.cells[ip].left != None ==> Differ(nodes, u.cells[ip].left, i);
      if x == x.parent.left {
        x := x.parent;
        InsertInnerRight(u, bh, i);
        RightRotate(x, u, InnerPivotRight(u, i));
        w, i := RightRotation(u, InnerPivotRight(u, i)), ip;
      }
      assert Link(w, i);
      w := InsertTurnRight(x, x.parent, w, bh, i);
    }

    method InsertTurnRight(x: Node, p: Node, ghost u: Tree, ghost bh: seq<int>, ghost i: int) returns (ghost w: Tree)
      requires Linked(u) && Inserting(u, bh, i) && IsRed(u, u.cells[i].parent)
      requires x == nodes[i] && p == nodes[u.cells[i].parent] && u.cells[u.cells[i].parent].right == i
      requires var ig := u.cells[u.cells[i].parent].parent;
        Has(u, ig) && u.cells[ig].right == u.cells[i].parent && !IsRed(u, u.cells[ig].left)
      modifies root`right, root`left, repr`right, repr`left, repr`parent, repr`maxHigh, repr`red
      ensures Linked(w) && Inserting(w, bh, i) && !IsRed(w, w.cells[i].parent)
    {
      ghost var v := OuterPivotRight(u, i);
      InsertOuterRight(u, bh, i);
      assert p in repr;
      assert Link(u, v.y);
      var g := p.parent;
      assert g in repr;
      SetRed(p, false, u, v.y);
      ghost var t1 := WithRed(u, v.y, false);
      SetRed(g, true, t1, v.x);
      ghost var t2 := WithRed(t1, v.x, true);
      LeftRotate(g, t2, v);
      w := LeftRotation(t2, v);
    }

    ghost predicate InOrder(i: int, j: int)
      requires 0 <= i < |nodes| && 0 <= j < |nodes|
      reads this`nodes, nodes[i], nodes[j]
    {
      i <= j ==> nodes[i].key <= nodes[j].key
    }

    ghost predicate Sorted()
      reads this`nodes, nodes
    {
      forall i, j :: 0 <= i < |nodes| && 0 <= j < |nodes| ==> InOrder(i, j)
    }

    /** The keys before lo are at most `key`, those from hi on are above it. */
    ghost predicate Splits(key: int, lo: int, hi: int)
      requires 0 <= lo <= hi <= |nodes|
      reads this`nodes, nodes
    {
      && (forall j :: 0 <= j < lo ==> nodes[j].key <= key)
      && (forall j :: hi <= j < |nodes| ==> nodes[j].key > key)
    }

    lemma SplitAt(key: int, lo: int, hi: int, i: int)
      requires Sorted() && 0 <= lo <= i < hi <= |nodes| && Splits(key, lo, hi)
      ensures if nodes[i].key > key then Splits(key, lo, i) else Splits(key, i + 1, hi)
    {
      forall j | i <= j < |nodes| ensures nodes[i].key <= nodes[j].key { assert InOrder(i, j); }
      forall j | 0 <= j <= i ensures nodes[j].key <= nodes[i].key { assert InOrder(j, i); }
    }

    /** Descends to the gap after the last key not above z's, and hangs z there. */
    method RecursiveInsert(z: Node, ghost u: Tree) returns (ghost iy: int, ghost k: int)
      requires Linked(u) && Shape(u) && Sorted()
      requires z != nil && z != root && z !in repr && z.maxHigh == z.high && !z.red
      modifies this`nodes, this`repr, z`left, z`right, z`parent, root`left, repr`left, repr`right
      ensures Gap(u, iy, k) && nodes == Inserted(old(nodes), k, z) && repr == old(repr) + {z}
      ensures Linked(Grafted(u, iy, k, z.high, z.key))
      ensures old(Splits(z.key, k, k))
    {
      z.left, z.right := nil, nil;
      var y;
      y, iy, k := FindGap(z.key, u);
      AttachLeaf(z, y, u, iy, k);
    }

    method FindGap(key: int, ghost u: Tree) returns (y: Node, ghost iy: int, ghost k: int)
      requires Linked(u) && Shape(u) && Sorted()
      ensures Gap(u, iy, k) && y == Above(iy) && Splits(key, k, k)
    {
      y := root;
      var x := root.left;
      iy := None;
      ghost var ix, lo, hi := u.top, 0, |nodes|;
      SpotTop(u);
      while x != nil
        invariant x == At(ix) && y == Above(iy) && Spot(u, iy, ix, lo, hi) && Splits(key, lo, hi)
        decreases if ix == None then 0 else 1 + hi - lo
      {
        assert Link(u, ix);
        SpotBelow(u, ix);
        SplitAt(key, lo, hi, ix);
        y := x;
        iy := ix;
        if x.key > key {
          x := x.left;
          ix, hi := u.cells[ix].left, ix;
        } else {
          x := x.right;
          ix, lo := u.cells[ix].right, ix + 1;
        }
      }
      k := lo;
    }

    method AttachLeaf(z: Node, y: Node, ghost u: Tree, ghost iy: int, ghost k: int)
      requires Linked(u) && Gap(u, iy, k) && y == Above(iy)
      requires z != nil && z != root && z !in repr && z.maxHigh == z.high && !z.red
      requires z.left == nil && z.right == nil
      requires iy != None ==> (k == iy <==> y.key > z.key)
      modifies this`nodes, this`repr, z`parent, root`left, repr`left, repr`right
      ensures nodes == Inserted(old(nodes), k, z) && repr == old(repr) + {z}
      ensures Linked(Grafted(u, iy, k, z.high, z.key))
    {
      HangLeaf(z, y, u, iy, k);
      ghost var was := nodes;
      nodes := Inserted(nodes, k, z);
      repr := repr + {z};
      InsertedDistinct(was, k, z);
      Shifted(was, k, z, iy, root);
      Shifted(was, k, z, u.top, nil);
      assert Link(Grafted(u, iy, k, z.high, z.key), k);
      forall i | 0 <= i < |nodes| && i != k ensures Link(Grafted(u, iy, k, z.high, z.key), i) {
        AttachedLink(was, z, u, iy, k, i);
      }
    }

    static ghost function NodeIn(ns: seq<Node>, j: int, end: Node): Node {
      if 0 <= j < |ns| then ns[j] else end
    }

    /** Node o has the links u says, among the nodes `ns`, except that z hangs at the gap k next to iy. */
    ghost predicate HungLink(ns: seq<Node>, u: Tree, z: Node, iy: int, k: int, o: int)
      requires 0 <= o < |ns| == |u.cells|
      reads this`nil, this`root, ns[o]
    {
      var n := ns[o];
      var c := u.cells[o];
      && n.left == (if o == iy && k == iy then z else NodeIn(ns, c.left, nil))
      && n.right == (if o == iy && k == iy + 1 then z else NodeIn(ns, c.right, nil))
      && n.parent == NodeIn(ns, c.parent, root)
      && n.red == c.red && n.key == c.key && n.high == c.high && n.maxHigh == c.maxHigh
    }

    method HangLeaf(z: Node, y: Node, ghost u: Tree, ghost iy: int, ghost k: int)
      requires Linked(u) && Gap(u, iy, k) && y == Above(iy) && z !in repr && z != root && z != nil
      requires iy != None ==> (k == iy <==> y.key > z.key)
      modifies z`parent, root`left, repr`left, repr`right
      ensures z.parent == y && root.left == (if iy == None then z else old(root.left))
      ensures forall i :: 0 <= i < |nodes| ==> HungLink(nodes, u, z, iy, k, i)
    {
      assert iy != None ==> y in repr;
      z.parent := y;
      if y == root || y.key > z.key {
        y.left := z;
      } else {
        y.right := z;
      }
      forall i | 0 <= i < |nodes| ensures HungLink(nodes, u, z, iy, k, i) {
        assert old(Link(u, i));
        assert iy != None ==> Differ(nodes, i, iy);
      }
    }

    lemma AttachedLink(was: seq<Node>, z: Node, u: Tree, iy: int, k: int, i: int)
      requires |was| == |u.cells| && Gap(u, iy, k) && nodes == Inserted(was, k, z) && 0 <= i < |nodes| && i != k
      requires HungLink(was, u, z, iy, k, Shrink(i, k))
      ensures Link(Grafted(u, iy, k, z.high, z.key), i)
    {
      var o := Shrink(i, k);
      assert nodes[i] == was[o];
      Shifted(was, k, z, u.cells[o].left, nil);
      Shifted(was, k, z, u.cells[o].right, nil);
      Shifted(was, k, z, u.cells[o].parent, root);
    }

    static lemma Shifted(was: seq<Node>, k: int, z: Node, j: int, end: Node)
      requires 0 <= k <= |was|
      ensures j < |was| ==> NodeIn(Inserted(was, k, z), Grow(j, k), end) == NodeIn(was, j, end)
    {
    }

    method Insert(newInterval: Interval) returns (newNode: Node, ghost k: int)
      requires Valid() && -MAX_TIME <= newInterval.high
      modifies this`nodes, this`repr, this`t, this`bh, root`left, root`right
      modifies repr`left, repr`right, repr`parent, repr`maxHigh, repr`red
      ensures Valid()
      ensures fresh(newNode) && newNode.storedInterval == newInterval
      ensures 0 <= k <= |old(nodes)| && nodes == Inserted(old(nodes), k, newNode)
      ensures Contents() == Inserted(old(Contents()), k, newInterval)
    {
      ghost var was, ivs := nodes, Contents();
      StoredAscend(ivs);
      newNode := new Node(newInterval);
      k := InsertNode(newNode);
      InsertKeeps(was, ivs, k, newNode, newInterval);
    }

    method InsertNode(x: Node) returns (ghost k: int)
      requires Linked(t) && Shape(t) && Highs(t) && Coloured(t, bh) && Sorted()
      requires x != nil && x != root && x !in repr && !x.red && -MAX_TIME <= x.high == x.maxHigh
      modifies this`nodes, this`repr, this`t, this`bh, root`left, root`right
      modifies x`left, x`right, x`parent, x`maxHigh, x`red, repr`left, repr`right, repr`parent, repr`maxHigh, repr`red
      ensures Linked(t) && Shape(t) && Highs(t) && Coloured(t, bh)
      ensures 0 <= k <= |old(nodes)| && nodes == Inserted(old(nodes), k, x) && old(Splits(x.key, k, k))
    {
      ghost var iy;
      iy, k := RecursiveInsert(x, t);
      t, bh := Settle(x, t, bh, iy, k);
    }

    /** Restores maxHigh above the new leaf, reddens it and rebalances. */
    method Settle(x: Node, ghost t0: Tree, ghost bh0: seq<int>, ghost iy: int, ghost k: int)
      returns (ghost u: Tree, ghost b: seq<int>)
      requires Shape(t0) && Highs(t0) && Coloured(t0, bh0) && Gap(t0, iy, k) && -MAX_TIME <= x.high
      requires Linked(Grafted(t0, iy, k, x.high, x.key)) && 0 <= k < |nodes| && x == nodes[k]
      modifies root`left, root`right, repr`left, repr`right, repr`parent, repr`maxHigh, repr`red
      ensures Linked(u) && Shape(u) && Highs(u) && Coloured(u, b)
    {
      u := Grafted(t0, iy, k, x.high, x.key);
      GraftedShape(t0, iy, k, x.high, x.key);
      GraftedHighs(t0, iy, k, x.high, x.key);
      assert Link(u, k);
      assert x in repr;
      ghost var w := FixupMaxHigh(x.parent, u, Grow(iy, k));
      SetRed(x, true, w, k);
      GraftedColours(t0, bh0, iy, k, x.high, x.key, w);
      u, b := InsertFixup(x, WithRed(w, k, true), Inserted(bh0, k, 0), k);
    }

    // Keys, highs and intervals of stored nodes are never assigned.

    static ghost predicate Holds(n: Node, ivl: Interval?)
      reads n`storedInterval, n`key, n`high
    {
      ivl != null && n.storedInterval == ivl && n.key == ivl.low && n.high == ivl.high
    }

    static ghost predicate Hold(ns: seq<Node>, ivs: seq<Interval?>)
      reads ns`storedInterval, ns`key, ns`high
    {
      |ns| == |ivs| && forall i :: 0 <= i < |ns| ==> Holds(ns[i], ivs[i])
    }

    static ghost function LowOf(ivl: Interval?): int {
      if ivl == null then 0 else ivl.low
    }

    static ghost predicate LowsInOrder(ivs: seq<Interval?>, i: int, j: int)
      requires 0 <= i < |ivs| && 0 <= j < |ivs|
    {
      i <= j ==> LowOf(ivs[i]) <= LowOf(ivs[j])
    }

    static ghost predicate LowsAscend(ivs: seq<Interval?>) {
      forall i, j :: 0 <= i < |ivs| && 0 <= j < |ivs| ==> LowsInOrder(ivs, i, j)
    }

    lemma StoredAscend(ivs: seq<Interval?>)
      requires Sorted() && Stored() && ivs == Contents()
      ensures LowsAscend(ivs) && Hold(nodes, ivs)
    {
      forall i | 0 <= i < |nodes| ensures Holds(nodes[i], ivs[i]) { assert StoredAt(i); }
      forall i, j | 0 <= i < |ivs| && 0 <= j < |ivs| ensures LowsInOrder(ivs, i, j) {
        assert InOrder(i, j) && Holds(nodes[i], ivs[i]) && Holds(nodes[j], ivs[j]);
      }
    }

    lemma AscendStored(ivs: seq<Interval?>)
      requires LowsAscend(ivs) && Hold(nodes, ivs)
      ensures Sorted() && Stored() && Contents() == ivs
    {
      forall i, j | 0 <= i < |ivs| && 0 <= j < |ivs| ensures InOrder(i, j) {
        assert LowsInOrder(ivs, i, j) && Holds(nodes[i], ivs[i]) && Holds(nodes[j], ivs[j]);
      }
      forall i | 0 <= i < |ivs| ensures StoredAt(i) && Contents()[i] == ivs[i] { assert Holds(nodes[i], ivs[i]); }
    }

    lemma InsertKeeps(was: seq<Node>, ivs: seq<Interval?>, k: int, n: Node, ivl: Interval)
      requires |was| == |ivs| && 0 <= k <= |was| && nodes == Inserted(was, k, n) && LowsAscend(ivs)
      requires Hold(was, ivs)
      requires Holds(n, ivl)
      requires forall j :: 0 <= j < k ==> LowOf(ivs[j]) <= ivl.low
      requires forall j :: k <= j < |ivs| ==> ivl.low < LowOf(ivs[j])
      ensures Sorted() && Stored() && Contents() == Inserted(ivs, k, ivl)
    {
      var ivs' := Inserted(ivs, k, ivl);
      forall i, j | 0 <= i < |ivs'| && 0 <= j < |ivs'| ensures LowsInOrder(ivs', i, j) {
        if i != k && j != k { assert LowsInOrder(ivs, Shrink(i, k), Shrink(j, k)); }
      }
      forall i | 0 <= i < |nodes| ensures Holds(nodes[i], ivs'[i]) {
        if i != k { assert Holds(was[Shrink(i, k)], ivs[Shrink(i, k)]); }
      }
      AscendStored(ivs');
    }

    lemma DeleteKeeps(was: seq<Node>, ivs: seq<Interval?>, k: int)
      requires |was| == |ivs| && 0 <= k < |was| && nodes == Dropped(was, k) && LowsAscend(ivs)
      requires Hold(was, ivs)
      ensures Sorted() && Stored() && Contents() == Dropped(ivs, k)
    {
      var ivs' := Dropped(ivs, k);
      forall i, j | 0 <= i < |ivs'| && 0 <= j < |ivs'| ensures LowsInOrder(ivs', i, j) {
        assert LowsInOrder(ivs, Grow(i, k), Grow(j, k));
      }
      forall i | 0 <= i < |nodes| ensures Holds(nodes[i], ivs'[i]) {
        assert Holds(was[Grow(i, k)], ivs[Grow(i, k)]);
      }
      AscendStored(ivs');
    }

    method InsertFixup(x0: Node, ghost u0: Tree, ghost bh0: seq<int>, ghost i0: int)
      returns (ghost u: Tree, ghost b: seq<int>)
      requires Linked(u0) && Inserting(u0, bh0, i0) && x0 == nodes[i0]
      modifies root`left, root`right, repr`left, repr`right, repr`parent, repr`maxHigh, repr`red
      ensures Linked(u) && Shape(u) && Highs(u) && Coloured(u, b)
    {
      var x := x0;
      ghost var i := i0;
      u, b := u0, bh0;
      assert Link(u, i);
      while x.parent.red
        invariant Linked(u) && Inserting(u, b, i) && x == nodes[i]
        invariant x.parent == Above(u.cells[i].parent)
        decreases if IsRed(u, u.cells[i].parent) then 1 + |nodes| - (u.cells[i].hi - u.cells[i].lo) else 0
      {
        assert Link(u, u.cells[i].parent);
        InsertFamily(u, b, i);
        ghost var ip := u.cells[i].parent;
        ghost var ig := u.cells[ip].parent;
        assert Link(u, ig);
        if x.parent == x.parent.parent.left {
          assert Differ(nodes, u.cells[ig].left, ip);
          x, u, b, i := InsertFixLeft(x, u, b, i);
        } else {
          x, u, b, i := InsertFixRight(x, u, b, i);
        }
        assert Link(u, i);
      }
      assert Has(u, u.cells[i].parent) ==> Link(u, u.cells[i].parent);
      InsertDone(u, b, i);
      assert root.left in repr;
      SetRed(root.left, false, u, u.top);
      u := WithRed(u, u.top, false);
    }

    // ---------------------------------------------------------------- deletion

    ghost function Width(u: Tree, i: int): int
      requires Has(u, i)
    {
      u.cells[i].hi - u.cells[i].lo
    }

    lemma WidthUp(u: Tree, p: int)
      requires Shape(u) && Has(u, p)
      ensures 0 < Width(u, p) <= |u.cells|
      ensures Has(u, u.cells[p].parent) ==> Width(u, u.cells[p].parent) > Width(u, p)
    {
      assert Slot(u, p);
      if Has(u, u.cells[p].parent) { ParentContains(u, p); }
    }

    lemma SlottedAll(u: Tree, i: int)
      requires Shape(u) && Has(u, i)
      ensures Slotted(u, i)
    {
      assert Slot(u, i);
    }

    lemma HasTop(u: Tree, p: int)
      requires Shape(u) && Has(u, p)
      ensures Has(u, u.top)
    {
    }

    lemma KidsOf(u: Tree, p: int)
      requires Shape(u) && Has(u, p)
      ensures u.cells[p].left != None ==> Has(u, u.cells[p].left) && u.cells[u.cells[p].left].parent == p
      ensures u.cells[p].right != None ==> Has(u, u.cells[p].right) && u.cells[u.cells[p].right].parent == p
    {
      assert Slot(u, p);
    }

    method RecolourFar(xp: Node, w: Node, f: Node, ghost u: Tree, ghost p: int, ghost iw: int, ghost i: int)
      requires Linked(u) && Has(u, p) && Has(u, iw) && Has(u, i)
      requires xp == nodes[p] && w == nodes[iw] && f == nodes[i]
      modifies repr`red
      ensures Linked(FarRecoloured(u, p, iw, i))
    {
      assert Link(u, p);
      assert xp in repr && w in repr && f in repr;
      SetRed(w, xp.red, u, iw);
      SetRed(xp, false, WithRed(u, iw, u.cells[p].red), p);
      SetRed(f, false, WithRed(WithRed(u, iw, u.cells[p].red), p, false), i);
    }

    /** The debt is paid; x, a black node, was only assigned to leave the loop. */
    ghost predicate Settled(u: Tree, b: seq<int>, x: Node)
      reads nodes, this`nodes, this`nil, nil
    {
      Shape(u) && Highs(u) && Coloured(u, b) && (x in nodes || x == nil) && !x.red
    }

    /** x is short of one black node.  The cached `rootLeftNode` may have been rotated away from the
        top, but only when it is x itself and x is red, so the loop is about to end. */
    ghost predicate Pending(u: Tree, b: seq<int>, p: int, i: int, x: Node, rootLeftNode: Node)
      reads this`nodes, this`nil, this`root, root`left, x`parent
    {
      && Lacking(u, b, p, i) && x == At(i) && x.parent == Above(p)
      && (rootLeftNode == root.left || (rootLeftNode == x && IsRed(u, i)))
    }

    /** Black sibling with black children: it turns red, and the parent is short in turn. */
    method PassUp(xp: Node, w: Node, ghost u: Tree, ghost b: seq<int>, ghost p: int, ghost i: int, ghost iw: int)
      requires Linked(u) && Lacking(u, b, p, i) && Has(u, p) && iw == Brother(u, p, i) && Has(u, iw)
      requires xp == nodes[p] && w == nodes[iw]
      requires !IsRed(u, i) && !IsRed(u, iw) && !IsRed(u, u.cells[iw].left) && !IsRed(u, u.cells[iw].right)
      modifies w`red
      ensures Linked(WithRed(u, iw, true))
      ensures Lacking(WithRed(u, iw, true), b[p := b[p] - 1], u.cells[p].parent, p)
      ensures xp.parent == Above(u.cells[p].parent)
    {
      assert Link(u, p);
      LackingPassUp(u, b, p, i, iw);
      SetRed(w, true, u, iw);
    }

    /** The sibling of a left child x is made black. */
    method BlackSiblingLeft(x: Node, ghost u0: Tree, ghost b: seq<int>, ghost p: int, ghost i: int)
      returns (w: Node, ghost u: Tree)
      requires Linked(u0) && LackingLeft(u0, b, p, i) && x == At(i) && x.parent == nodes[p]
      modifies root`left, root`right, repr`left, repr`right, repr`parent, repr`maxHigh, repr`red
      ensures Linked(u) && LackingLeft(u, b, p, i) && x.parent == nodes[p]
      ensures var iw := u.cells[p].right; Has(u, iw) && w == nodes[iw] && !IsRed(u, iw)
      ensures u == u0 || (IsRed(u, p) && (u.top == u0.top || u0.top == p))
    {
      u := u0;
      SiblingExists(u, b, p, i);
      assert Link(u, p) && Link(u, u.cells[p].right);
      assert x.parent in repr && x.parent.right in repr;
      w := x.parent.right;
      if w.red {
        u := DeleteTurnLeft(x.parent, w, u, b, p, i);
        SiblingExists(u, b, p, i);
        KidsOf(u, p);
        assert Link(u, p) && (i != None ==> Link(u, i));
        w := x.parent.right;
      }
    }

    /** The part of a round below a black sibling w. */
    method DeleteBlackLeft(x0: Node, w: Node, rootLeftNode: Node, ghost u0: Tree, ghost bh0: seq<int>, ghost p0: int,
            ghost top: int, ghost i0: int)
      returns (x: Node, ghost u: Tree, ghost b: seq<int>, ghost p: int, ghost i: int, ghost done: bool)
      requires Linked(u0) && LackingLeft(u0, bh0, p0, i0) && x0.parent == nodes[p0]
      requires var iw := u0.cells[p0].right; Has(u0, iw) && w == nodes[iw] && !IsRed(u0, iw)
      requires Has(u0, top) && rootLeftNode == nodes[top] && (u0.top == top || (top == p0 && IsRed(u0, p0)))
      modifies root`left, root`right, repr`left, repr`right, repr`parent, repr`maxHigh, repr`red
      ensures Linked(u)
      ensures done ==> Settled(u, b, x) && x == rootLeftNode
      ensures !done ==> Pending(u, b, p, i, x, rootLeftNode)
      ensures done || IsRed(u, i) || !Has(u, p) || (!IsRed(u0, p0) && Width(u, p) > Width(u0, p0))
    {
      ghost var iw := u0.cells[p0].right;
      SlottedAll(u0, iw);
      assert Link(u0, iw) && Link(u0, p0);
      assert Has(u0, u0.cells[iw].left) ==> Link(u0, u0.cells[iw].left);
      assert Has(u0, u0.cells[iw].right) ==> Link(u0, u0.cells[iw].right);
      if !w.right.red && !w.left.red {
        WidthUp(u0, p0);
        assert w in repr;
        PassUp(x0.parent, w, u0, bh0, p0, i0, iw);
        x, i, b := x0.parent, p0, bh0[p0 := bh0[p0] - 1];
        u, p := WithRed(u0, iw, true), u0.cells[p0].parent;
        done := false;
      } else {
        u, b := DeleteRotateLeft(x0.parent, w, u0, bh0, p0, i0);
        x, p, i, done := rootLeftNode, p0, i0, true;
        assert Link(u, top);
      }
    }

    /** One round of deleteFixup's loop for a left child x0 of node p0. */
    method DeleteFixLeft(x0: Node, rootLeftNode: Node, ghost u0: Tree, ghost bh0: seq<int>, ghost p0: int,
            ghost i0: int)
      returns (x: Node, ghost u: Tree, ghost b: seq<int>, ghost p: int, ghost i: int, ghost done: bool)
      requires Linked(u0) && LackingLeft(u0, bh0, p0, i0) && x0 == At(i0) && x0.parent == nodes[p0]
      requires rootLeftNode == root.left
      modifies root`left, root`right, repr`left, repr`right, repr`parent, repr`maxHigh, repr`red
      ensures Linked(u)
      ensures done ==> Settled(u, b, x) && x == rootLeftNode
      ensures !done ==> Pending(u, b, p, i, x, rootLeftNode)
      ensures done || IsRed(u, i) || !Has(u, p) || Width(u, p) > Width(u0, p0)
    {
      HasTop(u0, p0);
      var w;
      w, u := BlackSiblingLeft(x0, u0, bh0, p0, i0);
      x, u, b, p, i, done := DeleteBlackLeft(x0, w, rootLeftNode, u, bh0, p0, u0.top, i0);
    }

    /** Red sibling: turned above p, so that the new sibling is black. */
    method DeleteTurnLeft(xp: Node, w: Node, ghost u0: Tree, ghost bh: seq<int>, ghost p: int, ghost i: int)
      returns (ghost u: Tree)
      requires Linked(u0) && LackingLeft(u0, bh, p, i) && IsRed(u0, u0.cells[p].right)
      requires xp == nodes[p] && w == nodes[u0.cells[p].right]
      modifies root`left, root`right, repr`left, repr`right, repr`parent, repr`maxHigh, repr`red
      ensures Linked(u) && LackingLeft(u, bh, p, i) && IsRed(u, p) && !IsRed(u, u.cells[p].right)
      ensures u.top == (if u0.top == p then u0.cells[p].right else u0.top)
    {
      ghost var v := SiblingPivotLeft(u0, p);
      DeleteRedSiblingLeft(u0, bh, p, i);
      assert xp in repr && w in repr;
      SetRed(w, false, u0, v.y);
      SetRed(xp, true, WithRed(u0, v.y, false), p);
      LeftRotate(xp, SiblingReddened(u0, p, v.y), v);
      u := LeftRotation(SiblingReddened(u0, p, v.y), v);
    }

    /** Black sibling with a red child: one or two rotations restore the colouring. */
    method DeleteRotateLeft(xp: Node, w0: Node, ghost u0: Tree, ghost bh: seq<int>, ghost p: int, ghost i: int)
      returns (ghost u: Tree, ghost b: seq<int>)
      requires Linked(u0) && LackingLeft(u0, bh, p, i) && xp == nodes[p]
      requires Has(u0, u0.cells[p].right) && w0 == nodes[u0.cells[p].right] && Slotted(u0, u0.cells[p].right)
      requires !IsRed(u0, u0.cells[p].right)
      requires IsRed(u0, u0.cells[u0.cells[p].right].left) || IsRed(u0, u0.cells[u0.cells[p].right].right)
      modifies root`left, root`right, repr`left, repr`right, repr`parent, repr`maxHigh, repr`red
      ensures Linked(u) && Shape(u) && Highs(u) && Coloured(u, b)
      ensures !IsRed(u, p) && (u.top == u0.top || u0.top == p)
    {
      var w := w0;
      u := u0;
      ghost var iw := u.cells[p].right;
      assert Link(u, iw);
      assert Has(u, u.cells[iw].right) ==> Link(u, u.cells[iw].right);
      if !w.right.red {
        u := DeleteStraightenLeft(w, u, bh, p, i);
        assert Link(u, p);
        w := xp.right;
        iw := u.cells[p].right;
      }
      u, b := DeleteFarLeft(xp, w, u, bh, p, i);
    }

    method DeleteStraightenLeft(w: Node, ghost u0: Tree, ghost bh: seq<int>, ghost p: int, ghost i: int)
      returns (ghost u: Tree)
      requires Linked(u0) && LackingLeft(u0, bh, p, i)
      requires Has(u0, u0.cells[p].right) && w == nodes[u0.cells[p].right]
      requires var iw := u0.cells[p].right;
        !IsRed(u0, iw) && IsRed(u0, u0.cells[iw].left) && !IsRed(u0, u0.cells[iw].right)
      modifies root`left, root`right, repr`left, repr`right, repr`parent, repr`maxHigh, repr`red
      ensures Linked(u) && LackingLeft(u, bh, p, i) && u.top == u0.top
      ensures var iw := u.cells[p].right; Has(u, iw) && !IsRed(u, iw) && IsRed(u, u.cells[iw].right)
    {
      ghost var v := NearPivotLeft(u0, p);
      DeleteNearRedLeft(u0, bh, p, i);
      assert Link(u0, v.x);
      assert w in repr && w.left in repr;
      SetRed(w.left, false, u0, v.y);
      SetRed(w, true, WithRed(u0, v.y, false), v.x);
      RightRotate(w, SiblingReddened(u0, v.x, v.y), v);
      u := RightRotation(SiblingReddened(u0, v.x, v.y), v);
    }

    method DeleteFarLeft(xp: Node, w: Node, ghost u0: Tree, ghost bh: seq<int>, ghost p: int, ghost i: int)
      returns (ghost u: Tree, ghost b: seq<int>)
      requires Linked(u0) && LackingLeft(u0, bh, p, i) && xp == nodes[p]
      requires Has(u0, u0.cells[p].right) && w == nodes[u0.cells[p].right]
      requires var iw := u0.cells[p].right; !IsRed(u0, iw) && IsRed(u0, u0.cells[iw].right)
      modifies root`left, root`right, repr`left, repr`right, repr`parent, repr`maxHigh, repr`red
      ensures Linked(u) && Shape(u) && Highs(u) && Coloured(u, b)
      ensures !IsRed(u, p) && u.top == (if u0.top == p then u0.cells[p].right else u0.top)
    {
      hide Shape, Highs, Coloured;
      ghost var v := SiblingPivotLeft(u0, p);
      ghost var f := u0.cells[v.y].right;
      DeleteFarRedLeft(u0, bh, p, i);
      TurnFarLeft(xp, w, u0, v, f);
      u, b := LeftRotation(FarRecoloured(u0, p, v.y, f), v), bh[v.x := bh[v.x] - 1][v.y := bh[v.x]];
    }

    method TurnFarLeft(xp: Node, w: Node, ghost u: Tree, ghost v: Pivot, ghost f: int)
      requires Linked(u) && Has(u, v.x) && Has(u, v.y) && Has(u, f) && f == u.cells[v.y].right
      requires xp == nodes[v.x] && w == nodes[v.y]
      requires LeftPivot(FarRecoloured(u, v.x, v.y, f), v)
      requires HighOk(FarRecoloured(u, v.x, v.y, f), v.x) && HighOk(FarRecoloured(u, v.x, v.y, f), v.y)
      modifies root`left, root`right, repr`left, repr`right, repr`parent, repr`maxHigh, repr`red
      ensures Linked(LeftRotation(FarRecoloured(u, v.x, v.y, f), v))
    {
      assert Link(u, v.y);
      assert xp in repr;
      RecolourFar(xp, w, w.right, u, v.x, v.y, f);
      LeftRotate(xp, FarRecoloured(u, v.x, v.y, f), v);
    }

    /** The sibling of a right child x is made black. */
    method BlackSiblingRight(x: Node, ghost u0: Tree, ghost b: seq<int>, ghost p: int, ghost i: int)
      returns (w: Node, ghost u: Tree)
      requires Linked(u0) && LackingRight(u0, b, p, i) && x == At(i) && x.parent == nodes[p]
      modifies root`right, root`left, repr`right, repr`left, repr`parent, repr`maxHigh, repr`red
      ensures Linked(u) && LackingRight(u, b, p, i) && x.parent == nodes[p]
      ensures var iw := u.cells[p].left; Has(u, iw) && w == nodes[iw] && !IsRed(u, iw)
      ensures u == u0 || (IsRed(u, p) && (u.top == u0.top || u0.top == p))
    {
      u := u0;
      SiblingExists(u, b, p, i);
      assert Link(u, p) && Link(u, u.cells[p].left);
      assert x.parent in repr && x.parent.left in repr;
      w := x.parent.left;
      if w.red {
        u := DeleteTurnRight(x.parent, w, u, b, p, i);
        SiblingExists(u, b, p, i);
        KidsOf(u, p);
        assert Link(u, p) && (i != None ==> Link(u, i));
        w := x.parent.left;
      }
    }

    /** The part of a round below a black sibling w. */
    method DeleteBlackRight(x0: Node, w: Node, rootLeftNode: Node, ghost u0: Tree, ghost bh0: seq<int>, ghost p0: int,
            ghost top: int, ghost i0: int)
      returns (x: Node, ghost u: Tree, ghost b: seq<int>, ghost p: int, ghost i: int, ghost done: bool)
      requires Linked(u0) && LackingRight(u0, bh0, p0, i0) && x0.parent == nodes[p0]
      requires var iw := u0.cells[p0].left; Has(u0, iw) && w == nodes[iw] && !IsRed(u0, iw)
      requires Has(u0, top) && rootLeftNode == nodes[top] && (u0.top == top || (top == p0 && IsRed(u0, p0)))
      modifies root`right, root`left, repr`right, repr`left, repr`parent, repr`maxHigh, repr`red
      ensures Linked(u)
      ensures done ==> Settled(u, b, x) && x == rootLeftNode
      ensures !done ==> Pending(u, b, p, i, x, rootLeftNode)
      ensures done || IsRed(u, i) || !Has(u, p) || (!IsRed(u0, p0) && Width(u, p) > Width(u0, p0))
    {
      ghost var iw := u0.cells[p0].left;
      SlottedAll(u0, iw);
      assert Link(u0, iw) && Link(u0, p0);
      assert Has(u0, u0.cells[iw].left) ==> Link(u0, u0.cells[iw].left);
      assert Has(u0, u0.cells[iw].right) ==> Link(u0, u0.cells[iw].right);
      if !w.right.red && !w.left.red {
        WidthUp(u0, p0);
        assert w in repr;
        PassUp(x0.parent, w, u0, bh0, p0, i0, iw);
        x, i, b := x0.parent, p0, bh0[p0 := bh0[p0] - 1];
        u, p := WithRed(u0, iw, true), u0.cells[p0].parent;
        done := false;
      } else {
        u, b := DeleteRotateRight(x0.parent, w, u0, bh0, p0, i0);
        x, p, i, done := rootLeftNode, p0, i0, true;
        assert Link(u, top);
      }
    }

    /** One round of deleteFixup's loop for a right child x0 of node p0. */
    method DeleteFixRight(x0: Node, rootLeftNode: Node, ghost u0: Tree, ghost bh0: seq<int>, ghost p0: int,
            ghost i0: int)
      returns (x: Node, ghost u: Tree, ghost b: seq<int>, ghost p: int, ghost i: int, ghost done: bool)
      requires Linked(u0) && LackingRight(u0, bh0, p0, i0) && x0 == At(i0) && x0.parent == nodes[p0]
      requires rootLeftNode == root.left
      modifies root`right, root`left, repr`right, repr`left, repr`parent, repr`maxHigh, repr`red
      ensures Linked(u)
      ensures done ==> Settled(u, b, x) && x == rootLeftNode
      ensures !done ==> Pending(u, b, p, i, x, rootLeftNode)
      ensures done || IsRed(u, i) || !Has(u, p) || Width(u, p) > Width(u0, p0)
    {
      HasTop(u0, p0);
      var w;
      w, u := BlackSiblingRight(x0, u0, bh0, p0, i0);
      x, u, b, p, i, done := DeleteBlackRight(x0, w, rootLeftNode, u, bh0, p0, u0.top, i0);
    }

    /** Red sibling: turned above p, so that the new sibling is black. */
    method DeleteTurnRight(xp: Node, w: Node, ghost u0: Tree, ghost bh: seq<int>, ghost p: int, ghost i: int)
      returns (ghost u: Tree)
      requires Linked(u0) && LackingRight(u0, bh, p, i) && IsRed(u0, u0.cells[p].left)
      requires xp == nodes[p] && w == nodes[u0.cells[p].left]
      modifies root`right, root`left, repr`right, repr`left, repr`parent, repr`maxHigh, repr`red
      ensures Linked(u) && LackingRight(u, bh, p, i) && IsRed(u, p) && !IsRed(u, u.cells[p].left)
      ensures u.top == (if u0.top == p then u0.cells[p].left else u0.top)
    {
      ghost var v := SiblingPivotRight(u0, p);
      DeleteRedSiblingRight(u0, bh, p, i);
      assert xp in repr && w in repr;
      SetRed(w, false, u0, v.y);
      SetRed(xp, true, WithRed(u0, v.y, false), p);
      RightRotate(xp, SiblingReddened(u0, p, v.y), v);
      u := RightRotation(SiblingReddened(u0, p, v.y), v);
    }

    /** Black sibling with a red child: one or two rotations restore the colouring. */
    method DeleteRotateRight(xp: Node, w0: Node, ghost u0: Tree, ghost bh: seq<int>, ghost p: int, ghost i: int)
      returns (ghost u: Tree, ghost b: seq<int>)
      requires Linked(u0) && LackingRight(u0, bh, p, i) && xp == nodes[p]
      requires Has(u0, u0.cells[p].left) && w0 == nodes[u0.cells[p].left] && Slotted(u0, u0.cells[p].left)
      requires !IsRed(u0, u0.cells[p].left)
      requires IsRed(u0, u0.cells[u0.cells[p].left].right) || IsRed(u0, u0.cells[u0.cells[p].left].left)
      modifies root`right, root`left, repr`right, repr`left, repr`parent, repr`maxHigh, repr`red
      ensures Linked(u) && Shape(u) && Highs(u) && Coloured(u, b)
      ensures !IsRed(u, p) && (u.top == u0.top || u0.top == p)
    {
      var w := w0;
      u := u0;
      ghost var iw := u.cells[p].left;
      assert Link(u, iw);
      assert Has(u, u.cells[iw].left) ==> Link(u, u.cells[iw].left);
      if !w.left.red {
        u := DeleteStraightenRight(w, u, bh, p, i);
        assert Link(u, p);
        w := xp.left;
        iw := u.cells[p].left;
      }
      u, b := DeleteFarRight(xp, w, u, bh, p, i);
    }

    method DeleteStraightenRight(w: Node, ghost u0: Tree, ghost bh: seq<int>, ghost p: int, ghost i: int)
      returns (ghost u: Tree)
      requires Linked(u0) && LackingRight(u0, bh, p, i)
      requires Has(u0, u0.cells[p].left) && w == nodes[u0.cells[p].left]
      requires var iw := u0.cells[p].left;
        !IsRed(u0, iw) && IsRed(u0, u0.cells[iw].right) && !IsRed(u0, u0.cells[iw].left)
      modifies root`right, root`left, repr`right, repr`left, repr`parent, repr`maxHigh, repr`red
      ensures Linked(u) && LackingRight(u, bh, p, i) && u.top == u0.top
      ensures var iw := u.cells[p].left; Has(u, iw) && !IsRed(u, iw) && IsRed(u, u.cells[iw].left)
    {
      ghost var v := NearPivotRight(u0, p);
      DeleteNearRedRight(u0, bh, p, i);
      assert Link(u0, v.x);
      assert w in repr && w.right in repr;
      SetRed(w.right, false, u0, v.y);
      SetRed(w, true, WithRed(u0, v.y, false), v.x);
      LeftRotate(w, SiblingReddened(u0, v.x, v.y), v);
      u := LeftRotation(SiblingReddened(u0, v.x, v.y), v);
    }

    method DeleteFarRight(xp: Node, w: Node, ghost u0: Tree, ghost bh: seq<int>, ghost p: int, ghost i: int)
      returns (ghost u: Tree, ghost b: seq<int>)
      requires Linked(u0) && LackingRight(u0, bh, p, i) && xp == nodes[p]
      requires Has(u0, u0.cells[p].left) && w == nodes[u0.cells[p].left]
      requires var iw := u0.cells[p].left; !IsRed(u0, iw) && IsRed(u0, u0.cells[iw].left)
      modifies root`right, root`left, repr`right, repr`left, repr`parent, repr`maxHigh, repr`red
      ensures Linked(u) && Shape(u) && Highs(u) && Coloured(u, b)
      ensures !IsRed(u, p) && u.top == (if u0.top == p then u0.cells[p].left else u0.top)
    {
      hide Shape, Highs, Coloured;
      ghost var v := SiblingPivotRight(u0, p);
      ghost var f := u0.cells[v.y].left;
      DeleteFarRedRight(u0, bh, p, i);
      TurnFarRight(xp, w, u0, v, f);
      u, b := RightRotation(FarRecoloured(u0, p, v.y, f), v), bh[v.x := bh[v.x] - 1][v.y := bh[v.x]];
    }

    method TurnFarRight(xp: Node, w: Node, ghost u: Tree, ghost v: Pivot, ghost f: int)
      requires Linked(u) && Has(u, v.x) && Has(u, v.y) && Has(u, f) && f == u.cells[v.y].left
      requires xp == nodes[v.x] && w == nodes[v.y]
      requires RightPivot(FarRecoloured(u, v.x, v.y, f), v)
      requires HighOk(FarRecoloured(u, v.x, v.y, f), v.x) && HighOk(FarRecoloured(u, v.x, v.y, f), v.y)
      modifies root`right, root`left, repr`right, repr`left, repr`parent, repr`maxHigh, repr`red
      ensures Linked(RightRotation(FarRecoloured(u, v.x, v.y, f), v))
    {
      assert Link(u, v.y);
      assert xp in repr;
      RecolourFar(xp, w, w.left, u, v.x, v.y, f);
      RightRotate(xp, FarRecoloured(u, v.x, v.y, f), v);
    }

    method DeleteFixup(x0: Node, ghost u0: Tree, ghost bh0: seq<int>, ghost p0: int, ghost i0: int)
      returns (ghost u: Tree, ghost b: seq<int>)
      requires Linked(u0) && Lacking(u0, bh0, p0, i0) && x0 == At(i0) && x0.parent == Above(p0)
      modifies root`left, root`right, nil`red, repr`left, repr`right, repr`parent, repr`maxHigh, repr`red
      ensures Linked(u) && Shape(u) && Highs(u) && Coloured(u, b)
    {
      var rootLeftNode := root.left;
      var x := x0;
      u, b := u0, bh0;
      ghost var p, i, done := p0, i0, false;
      while !x.red && rootLeftNode != x
        invariant Linked(u)
        invariant if done then Settled(u, b, x) && x == rootLeftNode else Pending(u, b, p, i, x, rootLeftNode)
        decreases if done || IsRed(u, i) || !Has(u, p) then 0 else 1 + |nodes| - Width(u, p)
      {
        RedAt(u, i);
        assert Has(u, p);
        KidsOf(u, p);
        assert Link(u, p);
        WidthUp(u, p);
        if x == x.parent.left {
          SideLeft(u, b, p, i);
          x, u, b, p, i, done := DeleteFixLeft(x, rootLeftNode, u, b, p, i);
        } else {
          SideRight(u, b, p, i);
          x, u, b, p, i, done := DeleteFixRight(x, rootLeftNode, u, b, p, i);
        }
      }
      u := Blacken(x, u, b, p, i, done, rootLeftNode);
    }

    lemma RedAt(u: Tree, i: int)
      requires Linked(u) && (i == None || Has(u, i))
      ensures At(i).red == IsRed(u, i)
    {
      if i != None { assert Link(u, i); }
    }

    lemma SideLeft(u: Tree, b: seq<int>, p: int, i: int)
      requires Linked(u) && Lacking(u, b, p, i) && Has(u, p) && nodes[p].left == At(i) && !IsRed(u, i)
      ensures LackingLeft(u, b, p, i)
    {
      assert Link(u, p);
      SiblingExists(u, b, p, i);
      var l := u.cells[p].left;
      if l != None && i != None { assert Differ(nodes, l, i); }
      SlottedAll(u, p);
    }

    lemma SideRight(u: Tree, b: seq<int>, p: int, i: int)
      requires Linked(u) && Lacking(u, b, p, i) && Has(u, p) && nodes[p].left != At(i) && !IsRed(u, i)
      ensures LackingRight(u, b, p, i)
    {
      assert Link(u, p);
      SiblingExists(u, b, p, i);
    }

    method Blacken(x: Node, ghost u: Tree, ghost b: seq<int>, ghost p: int, ghost i: int, ghost done: bool,
            rootLeftNode: Node)
      returns (ghost w: Tree)
      requires Linked(u) && (x.red || rootLeftNode == x)
      requires if done then Settled(u, b, x) else Pending(u, b, p, i, x, rootLeftNode)
      modifies nil`red, repr`red
      ensures Linked(w) && Shape(w) && Highs(w) && Coloured(w, b)
    {
      w := u;
      if !done {
        RedAt(u, i);
        SameTop(u, i);
        LackingPaid(u, b, p, i);
        w := if Has(u, i) then WithRed(u, i, false) else u;
      }
      x.red := false;
      forall j | 0 <= j < |nodes| ensures Link(w, j) {
        assert old(Link(u, j));
        if !done && Has(u, i) { assert Differ(nodes, i, j); }
      }
    }

    lemma SameTop(u: Tree, i: int)
      requires Linked(u) && Shape(u) && (i == None || Has(u, i))
      ensures root.left == At(i) <==> u.top == i
    {
      if Has(u, u.top) && Has(u, i) { assert Differ(nodes, i, u.top); }
    }

    // ---------------------------------------------------------------- neighbours in key order

    method GetMinimum(x0: Node, ghost u: Tree, ghost i: int) returns (x: Node)
      requires Linked(u) && Shape(u) && Has(u, i) && x0 == nodes[i]
      ensures 0 <= u.cells[i].lo < |nodes| && x == nodes[u.cells[i].lo]
    {
      x := x0;
      ghost var j := i;
      assert Link(u, j) && Slot(u, j);
      while x.left != nil
        invariant Has(u, j) && Link(u, j) && Slot(u, j) && x == nodes[j] && u.cells[j].lo == u.cells[i].lo
        decreases j - u.cells[i].lo
      {
        x := x.left;
        j := u.cells[j].left;
        assert Link(u, j) && Slot(u, j);
      }
    }

    method GetMaximum(x0: Node, ghost u: Tree, ghost i: int) returns (x: Node)
      requires Linked(u) && Shape(u) && Has(u, i) && x0 == nodes[i]
      ensures 0 < u.cells[i].hi <= |nodes| && x == nodes[u.cells[i].hi - 1]
    {
      x := x0;
      ghost var j := i;
      assert Link(u, j) && Slot(u, j);
      while x.right != nil
        invariant Has(u, j) && Link(u, j) && Slot(u, j) && x == nodes[j] && u.cells[j].hi == u.cells[i].hi
        decreases u.cells[i].hi - j
      {
        x := x.right;
        j := u.cells[j].right;
        assert Link(u, j) && Slot(u, j);
      }
    }

    /** The next node in key order; after the last one, the `root` sentinel. */
    method GetSuccessor(x0: Node, ghost u: Tree, ghost i: int) returns (y: Node)
      requires Linked(u) && Shape(u) && Has(u, i) && x0 == nodes[i]
      ensures y == Above(if i + 1 < |nodes| then i + 1 else None)
    {
      var x := x0;
      assert Link(u, i) && Slot(u, i);
      if nil != x.right {
        y := GetMinimum(x.right, u, u.cells[i].right);
      } else {
        y := x.parent;
        ghost var j := i;
        Climb(u, j);
        while y != nil && x == y.right
          invariant Has(u, j) && x == nodes[j] && u.cells[j].hi == i + 1 && y == Above(u.cells[j].parent)
          decreases |nodes| - Width(u, j)
        {
          Climb(u, j);
          x := y;
          j := u.cells[j].parent;
          assert Link(u, j);
          WidthUp(u, j);
          y := y.parent;
        }
        Climb(u, j);
      }
    }

    /** The previous node in key order; before the first one, the `nil` sentinel: the climb passes
        `root`, whose left link it has come from. */
    method GetPredecessor(x0: Node, ghost u: Tree, ghost i: int) returns (y: Node)
      requires Linked(u) && Shape(u) && Has(u, i) && x0 == nodes[i]
      ensures y == At(i - 1)
    {
      var x := x0;
      assert Link(u, i) && Slot(u, i);
      if nil != x.left {
        y := GetMaximum(x.left, u, u.cells[i].left);
      } else {
        y := x.parent;
        ghost var j := i;
        Climb(u, j);
        while y != nil && x == y.left
          invariant if y == nil then i == 0
            else Has(u, j) && x == nodes[j] && u.cells[j].lo == i && y == Above(u.cells[j].parent)
          decreases if y == nil then 0 else 1 + |nodes| - Width(u, j)
        {
          Climb(u, j);
          x := y;
          if Has(u, u.cells[j].parent) {
            j := u.cells[j].parent;
            assert Link(u, j);
            WidthUp(u, j);
          }
          y := y.parent;
        }
        if y != nil { Climb(u, j); }
      }
    }

    /** Where node j hangs, told from the links. */
    lemma Climb(u: Tree, j: int)
      requires Linked(u) && Shape(u) && Has(u, j)
      ensures var p := u.cells[j].parent;
        if p == None then u.cells[j].lo == 0 && u.cells[j].hi == |nodes| && root.left == nodes[j] && root.right == nil
        else
          && Has(u, p) && Width(u, p) > Width(u, j) && Width(u, p) <= |nodes|
          && (if nodes[p].right == nodes[j] then u.cells[p].hi == u.cells[j].hi else u.cells[j].hi == p)
          && (if nodes[p].left == nodes[j] then u.cells[p].lo == u.cells[j].lo else u.cells[j].lo == p + 1)
    {
      var p := u.cells[j].parent;
      assert Slot(u, j) && Slot(u, u.top);
      if p != None {
        assert Slot(u, p) && Link(u, p);
        ParentContains(u, j);
        SlottedAll(u, p);
        assert u.cells[p].left != None ==> Differ(nodes, u.cells[p].left, j);
        assert u.cells[p].right != None ==> Differ(nodes, u.cells[p].right, j);
      }
    }

    // ---------------------------------------------------------------- cutting out

    /** `x.parent := p`, where x may be `nil`. */
    method SetParentOf(x: Node, p: Node, ghost u: Tree, ghost i: int, ghost j: int)
      requires Linked(u) && (i == None || Has(u, i)) && x == At(i) && p == Above(j)
      modifies x`parent
      ensures x.parent == p && Linked(Reparented(u, i, j))
    {
      x.parent := p;
      forall k | 0 <= k < |nodes| ensures Link(Reparented(u, i, j), k) {
        assert old(Link(u, k));
        assert Has(u, i) ==> Differ(nodes, i, k);
      }
    }

    /** Takes y, a node with at most one child x, out of the links. */
    method Unlink(y: Node, x: Node, ghost u: Tree, ghost k: int)
      requires Linked(u) && Shape(u) && Cuttable(u, k) && y == nodes[k] && x == At(OnlyKid(u, k))
      modifies this`nodes, this`repr, x`parent, root`left, root`right, repr`left, repr`right
      ensures nodes == Dropped(old(nodes), k) && repr == old(repr) - {y}
      ensures Linked(Cut(u, k))
      ensures x == At(Shrink(OnlyKid(u, k), k)) && x.parent == Above(Shrink(u.cells[k].parent, k))
    {
      ghost var i, p := OnlyKid(u, k), u.cells[k].parent;
      CutFacts(u, k);
      assert Link(u, k);
      assert y in repr;
      SetParentOf(x, y.parent, u, i, p);
      ghost var u1 := Reparented(u, i, p);
      assert Link(u1, k);
      if root == x.parent {
        SetLeft(root, x, u1, None, i);
      } else {
        ReplaceBelow(y.parent, y, x, u1, p, k, i);
      }
      ghost var was := nodes;
      Drop(y, Bypassed(u, k), u, k);
      Unshift(was, k, i, nil);
      Unshift(was, k, p, root);
    }

    ghost method Drop(y: Node, u2: Tree, u: Tree, k: int)
      requires Cuttable(u, k) && Shape(u) && |u.cells| == |u2.cells| && Linked(u2) && y == nodes[k]
      requires u2 == Bypassed(u, k)
      modifies this`nodes, this`repr
      ensures nodes == Dropped(old(nodes), k) && repr == old(repr) - {y}
      ensures Linked(Cut(u, k))
    {
      ghost var w, was := Cut(u, k), nodes;
      forall j | 0 <= j < |nodes| ensures HungLink(was, u2, nil, None, k, j) { assert Link(u2, j); }
      nodes := Dropped(nodes, k);
      repr := repr - {y};
      DroppedDistinct(was, k);
      CutFacts(u, k);
      forall j | 0 <= j < |nodes| ensures Link(w, j) {
        assert HungLink(was, u2, nil, None, k, Grow(j, k));
        DropLink(was, u2, u, k, Grow(j, k));
      }
      BypassedTop(u, k);
      Unshift(was, k, u2.top, nil);
    }

    lemma DropLink(was: seq<Node>, u2: Tree, u: Tree, k: int, o: int)
      requires Cuttable(u, k) && Shape(u) && |was| == |u.cells| == |u2.cells| && nodes == Dropped(was, k)
      requires u2 == Bypassed(u, k) && Has(u, o) && o != k
      requires HungLink(was, u2, nil, None, k, o)
      ensures Link(Cut(u, k), Shrink(o, k))
    {
      BypassedCell(u, k, o);
      Unshift(was, k, u2.cells[o].left, nil);
      Unshift(was, k, u2.cells[o].right, nil);
      Unshift(was, k, u2.cells[o].parent, root);
      assert nodes[Shrink(o, k)] == was[o];
    }

    static lemma Unshift(was: seq<Node>, k: int, j: int, end: Node)
      requires 0 <= k < |was| && j != k
      ensures NodeIn(Dropped(was, k), Shrink(j, k), end) == NodeIn(was, j, end)
    {
    }

    // ---------------------------------------------------------------- taking over a place

    /** Node j as recorded in u, but with y for node i in the chosen links. */
    ghost predicate MovedLink(u: Tree, i: int, y: Node, below: bool, above: bool, j: int)
      requires 0 <= j < |nodes| == |u.cells|
      reads this`nodes, this`nil, this`root, nodes[j]
    {
      var n := nodes[j];
      var c := u.cells[j];
      && n.left == (if below && c.left == i then y else At(c.left))
      && n.right == (if below && c.right == i then y else At(c.right))
      && n.parent == (if above && c.parent == i then y else Above(c.parent))
      && n.red == c.red && n.key == c.key && n.high == c.high && n.maxHigh == c.maxHigh
    }

    /** The successor's node y, already out of the links, takes z's links over. */
    method TakePlace(y: Node, z: Node, ghost u: Tree, ghost i: int)
      requires Linked(u) && Shape(u) && Has(u, i) && z == nodes[i] && u.cells[i].left != None
      requires y !in repr && y != root && y != nil
      modifies this`nodes, this`repr, y`left, y`right, y`parent, y`maxHigh, nil`parent
      modifies root`left, root`right, repr`left, repr`right, repr`parent
      ensures nodes == old(nodes)[i := y] && repr == old(repr) - {z} + {y}
      ensures Linked(Refitted(u, i, y.key, y.high, y.red))
      ensures nil.parent == (if u.cells[i].right == None then y else old(nil.parent))
    {
      Neighbours(u, i);
      assert Link(u, i);
      assert z in repr && (z.parent in repr || z.parent == root);
      y.maxHigh := -MAX_TIME;
      y.left := z.left;
      y.right := z.right;
      y.parent := z.parent;
      AdoptKids(z.left, z.right, y, u, i);
      HangBelow(z.parent, y, z, u, i);
      Seat(y, z, u, i);
    }

    static lemma ReplacedMembers(ns: seq<Node>, members: set<Node>, k: int, y: Node, ns': seq<Node>)
      requires Distinct(ns) && 0 <= k < |ns| && y !in ns && members == (set n | n in ns) && ns' == ns[k := y]
      ensures Distinct(ns')
      ensures members - {ns[k]} + {y} == (set n | n in ns')
    {
      ReplacedDistinct(ns, k, y);
      assert ns'[k] == y;
      forall n | n in ns' ensures n == y || (n in ns && n != ns[k]) {
        var i :| 0 <= i < |ns'| && ns'[i] == n;
        assert Differ(ns, i, k);
      }
      forall n | n in ns && n != ns[k] ensures n in ns' {
        var i :| 0 <= i < |ns| && ns[i] == n;
        assert ns'[i] == n;
      }
    }

    ghost method Seat(y: Node, z: Node, u: Tree, i: int)
      requires Objects() && |nodes| == |u.cells| && Has(u, i) && z == nodes[i] && y !in repr && y != root && y != nil
      requires root.left == (if u.top == i then y else At(u.top)) && root.right == nil && root.parent == nil
      requires !root.red && !nil.red && nil.maxHigh == -MAX_TIME && root.storedInterval == null
      requires forall j :: 0 <= j < |nodes| && j != i ==> MovedLink(u, i, y, true, true, j)
      requires y.left == At(u.cells[i].left) && y.right == At(u.cells[i].right) && y.parent == Above(u.cells[i].parent)
      requires u.cells[i].left != i && u.cells[i].right != i && u.cells[i].parent != i && y.maxHigh == -MAX_TIME
      modifies this`nodes, this`repr
      ensures nodes == old(nodes)[i := y] && repr == old(repr) - {z} + {y}
      ensures Linked(Refitted(u, i, y.key, y.high, y.red))
    {
      ghost var w := Refitted(u, i, y.key, y.high, y.red);
      nodes := nodes[i := y];
      repr := repr - {z} + {y};
      ReplacedMembers(old(nodes), old(repr), i, y, nodes);
      assert Sentinels(w);
      forall j | 0 <= j < |nodes| ensures Link(w, j) {
        if j != i { assert old(MovedLink(u, i, y, true, true, j)); }
      }
    }

    method AdoptKids(left: Node, right: Node, y: Node, ghost u: Tree, ghost i: int)
      requires Linked(u) && Shape(u) && Has(u, i)
      requires u.cells[i].left != None && left == At(u.cells[i].left) && right == At(u.cells[i].right)
      modifies nil`parent, repr`parent
      ensures nil.parent == (if u.cells[i].right == None then y else old(nil.parent))
      ensures nodes[i].parent == old(nodes[i].parent)
      ensures forall j :: 0 <= j < |nodes| && j != i ==> MovedLink(u, i, y, false, true, j)
    {
      Neighbours(u, i);
      assert left in repr && (right in repr || right == nil);
      right.parent := y;
      left.parent := y;
      forall j | 0 <= j < |nodes| && j != i ensures MovedLink(u, i, y, false, true, j) {
        assert old(Link(u, j));
        KidsHaveParent(u, i, j);
        Unlike(u, u.cells[i].left, j);
        Unlike(u, u.cells[i].right, j);
      }
      Unlike(u, u.cells[i].right, i);
      Unlike(u, u.cells[i].left, i);
    }

    method HangBelow(p: Node, y: Node, z: Node, ghost u: Tree, ghost i: int)
      requires Objects() && |nodes| == |u.cells| && Sentinels(u) && Shape(u) && Has(u, i) && z == nodes[i]
      requires p == Above(u.cells[i].parent) && y !in repr && y != root && y != nil
      requires forall j :: 0 <= j < |nodes| && j != i ==> MovedLink(u, i, y, false, true, j)
      modifies p`left, p`right
      ensures root.left == (if u.top == i then y else At(u.top)) && root.right == nil
      ensures forall j :: 0 <= j < |nodes| && j != i ==> MovedLink(u, i, y, true, true, j)
    {
      ghost var ip := u.cells[i].parent;
      Neighbours(u, i);
      Unlike(u, u.top, i);
      if ip != None {
        assert MovedLink(u, i, y, false, true, ip);
        Unlike(u, u.cells[ip].left, i);
      }
      if z == p.left {
        p.left := y;
      } else {
        p.right := y;
      }
      forall j | 0 <= j < |nodes| && j != i ensures MovedLink(u, i, y, true, true, j) {
        assert old(MovedLink(u, i, y, false, true, j));
        KidParent(u, j, i);
        Unlike(u, ip, j);
      }
    }

    lemma KidsHaveParent(u: Tree, i: int, j: int)
      requires Shape(u) && Has(u, i) && Has(u, j)
      ensures u.cells[j].parent == i <==> u.cells[i].left == j || u.cells[i].right == j
    {
      assert Slot(u, j) && Slot(u, i);
    }

    lemma Unlike(u: Tree, m: int, j: int)
      requires Objects() && |nodes| == |u.cells| && Has(u, j)
      ensures At(m) == nodes[j] <==> m == j
      ensures Above(m) == nodes[j] <==> m == j
    {
      assert nodes[j] in repr;
      assert Has(u, m) ==> Differ(nodes, m, j);
    }

    lemma Neighbours(u: Tree, i: int)
      requires Shape(u) && Has(u, i)
      ensures u.cells[i].left != None ==> Has(u, u.cells[i].left)
      ensures u.cells[i].right != None ==> Has(u, u.cells[i].right)
      ensures u.cells[i].parent == None <==> u.top == i
      ensures u.cells[i].parent != None ==> Has(u, u.cells[i].parent)
      ensures Has(u, u.cells[i].parent) ==>
        && (u.cells[u.cells[i].parent].left == i || u.cells[u.cells[i].parent].right == i)
        && u.cells[u.cells[i].parent].left != u.cells[u.cells[i].parent].right
      ensures u.cells[i].left != i && u.cells[i].right != i && u.cells[i].parent != i
    {
      assert Slot(u, i);
      assert Slot(u, u.top);
      if u.cells[i].parent != None { assert Slot(u, u.cells[i].parent); }
    }

    // ---------------------------------------------------------------- deleteNode

    /** Deletes the node at position i; the result is the interval it held. */
    method DeleteNode(z: Node, ghost i: int) returns (deleted: Interval?)
      requires Valid() && 0 <= i < |nodes| && z == nodes[i]
      modifies this`nodes, this`repr, this`t, this`bh, root`left, root`right, nil`red, nil`parent
      modifies repr`left, repr`right, repr`parent, repr`maxHigh, repr`red
      ensures Valid()
      ensures nodes == Dropped(old(nodes), i) && deleted == old(z.storedInterval)
      ensures Contents() == Dropped(old(Contents()), i)
    {
      deleted := z.storedInterval;
      ghost var was, ivs := nodes, Contents();
      StoredAscend(ivs);
      CutNode(z, i);
      DeleteKeeps(was, ivs, i);
    }

    method CutNode(z: Node, ghost i: int)
      requires Linked(t) && Shape(t) && Highs(t) && Coloured(t, bh) && 0 <= i < |nodes| && z == nodes[i]
      modifies this`nodes, this`repr, this`t, this`bh, root`left, root`right, nil`red, nil`parent
      modifies repr`left, repr`right, repr`parent, repr`maxHigh, repr`red
      ensures Linked(t) && Shape(t) && Highs(t) && Coloured(t, bh)
      ensures nodes == Dropped(old(nodes), i)
    {
      assert Link(t, i);
      if z.left == nil || z.right == nil {
        t, bh := DeleteLone(z, t, bh, i);
      } else {
        t, bh := DeleteBetween(z, t, bh, i);
      }
    }

    method OnlyChildOf(y: Node, ghost u: Tree, ghost k: int) returns (x: Node)
      requires Linked(u) && Shape(u) && Cuttable(u, k) && y == nodes[k]
      ensures x == At(OnlyKid(u, k))
    {
      Lone(u, k);
      assert Link(u, k);
      x := if y.left == nil then y.right else y.left;
    }

    /** A node with at most one child is cut out itself. */
    method DeleteLone(y: Node, ghost t0: Tree, ghost bh0: seq<int>, ghost k: int)
      returns (ghost u: Tree, ghost b: seq<int>)
      requires Linked(t0) && Shape(t0) && Highs(t0) && Coloured(t0, bh0) && Has(t0, k) && y == nodes[k]
      requires y.left == nil || y.right == nil
      modifies this`nodes, this`repr, root`left, root`right, nil`red, nil`parent
      modifies repr`left, repr`right, repr`parent, repr`maxHigh, repr`red
      ensures nodes == Dropped(old(nodes), k) && repr == old(repr) - {y}
      ensures Linked(u) && Shape(u) && Highs(u) && Coloured(u, b)
    {
      hide Shape, Highs, Cut, Redness;
      Lone(t0, k);
      assert Link(t0, k);
      var x := OnlyChildOf(y, t0, k);
      assert y in repr && (x in repr || x == nil);
      Unlink(y, x, t0, k);
      CutShape(t0, k);
      CutHighs(t0, k);
      CutFacts(t0, k);
      ghost var p := Shrink(t0.cells[k].parent, k);
      var red := y.red;
      u := FixupMaxHigh(x.parent, Cut(t0, k), p);
      RehighedRefills(Cut(t0, k), u);
      CutColours(t0, bh0, k, u);
      b := Dropped(bh0, k);
      if !red {
        u, b := DeleteFixup(x, u, b, p, Shrink(OnlyKid(t0, k), k));
      }
    }

    /** A node with two children gives its place to its successor, which is cut out instead. */
    method DeleteBetween(z: Node, ghost t0: Tree, ghost bh0: seq<int>, ghost i: int)
      returns (ghost u: Tree, ghost b: seq<int>)
      requires Linked(t0) && Shape(t0) && Highs(t0) && Coloured(t0, bh0) && Has(t0, i) && z == nodes[i]
      requires z.left != nil && z.right != nil
      modifies this`nodes, this`repr, root`left, root`right, nil`red, nil`parent
      modifies repr`left, repr`right, repr`parent, repr`maxHigh, repr`red
      ensures nodes == Dropped(old(nodes), i) && repr == old(repr) - {z}
      ensures Linked(u) && Shape(u) && Highs(u) && Coloured(u, b)
    {
      Lone(t0, i);
      SuccessorIsLone(t0, i);
      ghost var k := i + 1;
      assert Link(t0, i) && Link(t0, k);
      var y := GetSuccessor(z, t0, i);
      var x := OnlyChildOf(y, t0, k);
      assert z in repr;
      u := ReplaceBySuccessor(z, y, x, t0, i);
      u, b := TakeColour(y, z, x, t0, bh0, i, u);
    }

    /** The successor's node y takes z's colour; if y was black its old place is short of one. */
    method TakeColour(y: Node, z: Node, x: Node, ghost t0: Tree, ghost bh0: seq<int>, ghost i: int, ghost u0: Tree)
      returns (ghost u: Tree, ghost b: seq<int>)
      requires Shape(t0) && Coloured(t0, bh0) && Has(t0, i) && Cuttable(t0, i + 1)
      requires t0.cells[i].left != None && t0.cells[i].right != None
      requires Linked(u0) && Shape(u0) && Highs(u0) && Rehighed(Transplanted(t0, i), u0) && 0 <= i < |nodes|
        && y == nodes[i]
      requires z.red == t0.cells[i].red && z != y
      requires x == At(Shrink(OnlyKid(t0, i + 1), i + 1)) && x.parent == Above(Shrink(t0.cells[i + 1].parent, i + 1))
      modifies root`left, root`right, nil`red, repr`left, repr`right, repr`parent, repr`maxHigh, repr`red
      ensures Linked(u) && Shape(u) && Highs(u) && Coloured(u, b)
    {
      ghost var k := i + 1;
      assert y in repr;
      assert Link(u0, i) && RehighedAt(Transplanted(t0, i), u0, i);
      TransplantColours(t0, bh0, i, u0);
      var red := y.red;
      SetRed(y, z.red, u0, i);
      u, b := WithRed(u0, i, t0.cells[i].red), Dropped(bh0, k);
      if !red {
        u, b := DeleteFixup(x, u, b, Shrink(t0.cells[k].parent, k), Shrink(OnlyKid(t0, k), k));
      }
    }

    method ReplaceBySuccessor(z: Node, y: Node, x: Node, ghost t0: Tree, ghost i: int) returns (ghost u: Tree)
      requires Linked(t0) && Shape(t0) && Highs(t0) && Has(t0, i) && z == nodes[i]
      requires t0.cells[i].left != None && t0.cells[i].right != None
      requires Cuttable(t0, i + 1) && y == nodes[i + 1] && x == At(OnlyKid(t0, i + 1))
      modifies this`nodes, this`repr, root`left, root`right, nil`parent
      modifies repr`left, repr`right, repr`parent, repr`maxHigh
      ensures nodes == Dropped(old(nodes), i) && repr == old(repr) - {z} && nodes[i] == y
      ensures Linked(u) && Shape(u) && Highs(u) && Rehighed(Transplanted(t0, i), u)
      ensures x == At(Shrink(OnlyKid(t0, i + 1), i + 1)) && x.parent == Above(Shrink(t0.cells[i + 1].parent, i + 1))
    {
      ghost var k := i + 1;
      ghost var p := Shrink(t0.cells[k].parent, k);
      CutBeside(t0, i);
      TransplantedHighs(t0, i);
      Succeed(z, y, x, t0, i);
      u := FixupMaxHigh(x.parent, Transplanted(t0, i), p);
    }

    method Succeed(z: Node, y: Node, x: Node, ghost t0: Tree, ghost i: int)
      requires Linked(t0) && Shape(t0) && Has(t0, i) && z == nodes[i]
      requires t0.cells[i].left != None && t0.cells[i].right != None
      requires Cuttable(t0, i + 1) && y == nodes[i + 1] && x == At(OnlyKid(t0, i + 1))
      modifies this`nodes, this`repr, root`left, root`right, nil`parent
      modifies repr`left, repr`right, repr`parent, repr`maxHigh
      ensures nodes == Dropped(old(nodes), i) && repr == old(repr) - {z} && nodes[i] == y
      ensures Linked(Transplanted(t0, i))
      ensures x == At(Shrink(OnlyKid(t0, i + 1), i + 1)) && x.parent == Above(Shrink(t0.cells[i + 1].parent, i + 1))
    {
      ghost var k := i + 1;
      assert Link(t0, k) && Differ(nodes, i, k);
      assert y in repr && z in repr && (x in repr || x == nil);
      DroppedNext(nodes, i);
      CutShape(t0, k);
      CutBeside(t0, i);
      Unlink(y, x, t0, k);
      SeatSuccessor(z, y, x, t0, i);
    }

    method SeatSuccessor(z: Node, y: Node, x: Node, ghost t0: Tree, ghost i: int)
      requires Shape(t0) && Has(t0, i) && t0.cells[i].left != None && t0.cells[i].right != None && Cuttable(t0, i + 1)
      requires Linked(Cut(t0, i + 1)) && Shape(Cut(t0, i + 1)) && Has(Cut(t0, i + 1), i) && z == nodes[i]
      requires y !in repr && y != root && y != nil
      requires y.key == t0.cells[i + 1].key && y.high == t0.cells[i + 1].high && y.red == t0.cells[i + 1].red
      requires x == At(Shrink(OnlyKid(t0, i + 1), i + 1)) && x.parent == Above(Shrink(t0.cells[i + 1].parent, i + 1))
      modifies this`nodes, this`repr, y`left, y`right, y`parent, y`maxHigh, nil`parent
      modifies root`left, root`right, repr`left, repr`right, repr`parent
      ensures nodes == old(nodes)[i := y] && repr == old(repr) - {z} + {y}
      ensures Linked(Transplanted(t0, i))
      ensures x == At(Shrink(OnlyKid(t0, i + 1), i + 1)) && x.parent == Above(Shrink(t0.cells[i + 1].parent, i + 1))
    {
      CutBeside(t0, i);
      TakePlace(y, z, Cut(t0, i + 1), i);
      KidSettled(x, t0, i);
    }

    lemma KidSettled(x: Node, t0: Tree, i: int)
      requires Shape(t0) && Has(t0, i) && t0.cells[i].left != None && t0.cells[i].right != None && Cuttable(t0, i + 1)
      requires Linked(Transplanted(t0, i)) && x == At(Shrink(OnlyKid(t0, i + 1), i + 1))
      requires OnlyKid(t0, i + 1) == None ==> x.parent == Above(Shrink(t0.cells[i + 1].parent, i + 1))
      ensures x.parent == Above(Shrink(t0.cells[i + 1].parent, i + 1))
    {
      TransplantedKid(t0, i);
      CutFacts(t0, i + 1);
      if OnlyKid(t0, i + 1) != None { ParentOf(Transplanted(t0, i), Shrink(OnlyKid(t0, i + 1), i + 1)); }
    }

    lemma ParentOf(u: Tree, j: int)
      requires Linked(u) && Has(u, j)
      ensures nodes[j].parent == Above(u.cells[j].parent)
    {
      assert Link(u, j);
    }

    lemma Lone(u: Tree, i: int)
      requires Linked(u) && Shape(u) && Has(u, i)
      ensures nodes[i].left == nil <==> u.cells[i].left == None
      ensures nodes[i].right == nil <==> u.cells[i].right == None
    {
      assert Link(u, i);
      Neighbours(u, i);
      assert Has(u, u.cells[i].left) ==> nodes[u.cells[i].left] in nodes;
      assert Has(u, u.cells[i].right) ==> nodes[u.cells[i].right] in nodes;
    }

    // ---------------------------------------------------------------- deleting by interval

    ghost predicate HeldAt(j: int, ivl: Interval)
      requires 0 <= j < |nodes|
      reads this`nodes, nodes[j]
    {
      nodes[j].storedInterval == ivl
    }

    /** The positions below a node reached by the search, `root` being above all of them. */
    ghost predicate Below(u: Tree, node: Node, i: int, lo: int, hi: int)
      requires |nodes| == |u.cells|
      reads this`nodes, this`nil, this`root
    {
      && 0 <= lo <= hi <= |nodes|
      && (node == root ==> lo == 0 && hi == |nodes|)
      && (node != root ==>
            && node == At(i)
            && if i == None then lo == hi else Has(u, i) && u.cells[i].lo == lo <= i < u.cells[i].hi == hi)
    }

    /** Depth-first search for the node holding an interval (the object, not an equal one). */
    method RecursiveSearch(node: Node, ivl: Interval, ghost u: Tree, ghost i: int, ghost lo: int, ghost hi: int)
      returns (found: Node, ghost j: int)
      requires Linked(u) && Shape(u) && Below(u, node, i, lo, hi)
      ensures found == nil ==> forall m :: lo <= m < hi ==> !HeldAt(m, ivl)
      ensures found != nil ==> lo <= j < hi && found == nodes[j] && HeldAt(j, ivl)
      decreases hi - lo, node == root
    {
      found, j := nil, None;
      if node != nil {
        SearchBelow(u, node, i, lo, hi);
        if node != root {
          assert Link(u, i);
        }
        if node.storedInterval == ivl {
          assert HeldAt(i, ivl);
          return node, i;
        }
        ghost var il := if node == root then u.top else u.cells[i].left;
        found, j := RecursiveSearch(node.left, ivl, u, il, lo, if node == root then hi else i);
        if found != nil {
          return found, j;
        }
        ghost var ir := if node == root then None else u.cells[i].right;
        found, j := RecursiveSearch(node.right, ivl, u, ir, if node == root then hi else i + 1, hi);
      }
    }

    lemma SearchBelow(u: Tree, node: Node, i: int, lo: int, hi: int)
      requires Linked(u) && Shape(u) && Below(u, node, i, lo, hi) && node != nil
      ensures node == root ==>
          && Below(u, root.left, u.top, 0, |nodes|)
          && Below(u, root.right, None, |nodes|, |nodes|) && root.left != root
      ensures node != root ==> Has(u, i)
      ensures node != root ==> Below(u, At(u.cells[i].left), u.cells[i].left, lo, i)
      ensures node != root ==> Below(u, At(u.cells[i].right), u.cells[i].right, i + 1, hi)
      ensures node != root ==> At(u.cells[i].left) != root && At(u.cells[i].right) != root
    {
      SpotTop(u);
      assert forall m :: Has(u, m) ==> nodes[m] in repr;
      if node != root {
        SpotBelow(u, i);
      }
    }

    /** Deletes one node holding the interval if there is one, and nothing otherwise. */
    method DeleteInterval(ivl: Interval) returns (ghost j: int)
      requires Valid()
      modifies this`nodes, this`repr, this`t, this`bh, root`left, root`right, nil`red, nil`parent
      modifies repr`left, repr`right, repr`parent, repr`maxHigh, repr`red
      ensures Valid()
      ensures ivl in old(Contents()) ==>
        0 <= j < |old(Contents())| && old(Contents())[j] == ivl && Contents() == Dropped(old(Contents()), j)
      ensures ivl !in old(Contents()) ==> nodes == old(nodes) && Contents() == old(Contents())
    {
      var node;
      node, j := RecursiveSearch(root, ivl, t, None, 0, |nodes|);
      if node != nil {
        assert HeldAt(j, ivl) && Contents()[j] == ivl;
        var deleted := DeleteNode(node, j);
      } else if ivl in Contents() {
        ghost var m :| 0 <= m < |nodes| && Contents()[m] == ivl;
        assert HeldAt(m, ivl);
      }
    }

    // ---------------------------------------------------------------- the overlap query

    ghost predicate Entry(m: int, i: int, tries: bool)
      requires 0 <= m && m + 1 < recursionNodeStack.Length
      reads this`nodes, this`nil, this`root, this`recursionNodeStack, recursionNodeStack
    {
      && recursionNodeStack[m + 1].startNode == At(i)
      && recursionNodeStack[m + 1].parentIndex == m
      && recursionNodeStack[m + 1].tryRightBranch == tries
    }

    /** The stack holds exactly the given frames above its unused entry 0. */
    ghost predicate Stacked(f: seq<int>, tries: seq<bool>)
      reads this`nodes, this`nil, this`root, this`recursionNodeStack, this`recursionNodeStackTop,
            this`recursionNodeStackSize, recursionNodeStack
    {
      && |f| == |tries|
      && recursionNodeStackTop == |f| + 1 <= recursionNodeStackSize == recursionNodeStack.Length
      && 1 < recursionNodeStackSize
      && forall m :: 0 <= m < |f| ==> Entry(m, f[m], tries[m])
    }

    /** The intervals stored at the given positions. */
    ghost predicate Picks(result: seq<Interval?>, found: seq<int>)
      reads this`nodes, nodes
    {
      && |result| == |found|
      && forall m :: 0 <= m < |found| ==> PicksAt(result[m], found[m])
    }

    ghost predicate PicksAt(ivl: Interval?, j: int)
      reads this`nodes, nodes
    {
      0 <= j < |nodes| && ivl == nodes[j].storedInterval
    }

    /** Doubles the stack when it is full. */
    method GrowStack(ghost f: seq<int>, ghost tries: seq<bool>)
      requires Stacked(f, tries)
      modifies this`recursionNodeStackSize, this`recursionNodeStack
      ensures Stacked(f, tries) && recursionNodeStackTop < recursionNodeStackSize
      ensures recursionNodeStack == old(recursionNodeStack) || fresh(recursionNodeStack)
    {
      if recursionNodeStackTop == recursionNodeStackSize {
        var larger := new RecursionNode[recursionNodeStackSize * 2](_ => RecursionNode(null, 0, false));
        var i := 0;
        while i < recursionNodeStackSize
          modifies larger
          invariant 0 <= i <= recursionNodeStackSize
          invariant forall k :: 0 <= k < i ==> larger[k] == recursionNodeStack[k]
        {
          larger[i] := recursionNodeStack[i];
          i := i + 1;
        }
        forall m | 0 <= m < |f| ensures larger[m + 1] == recursionNodeStack[m + 1] && Entry(m, f[m], tries[m]) {
          assert Entry(m, f[m], tries[m]);
        }
        recursionNodeStackSize := recursionNodeStackSize * 2;
        recursionNodeStack := larger;
      }
    }

    /** `recursion_node_stack[current_parent].try_right_branch = true` */
    method MarkParent(ghost f: seq<int>, ghost tries: seq<bool>)
      requires Stacked(f, tries) && currentParent == |f|
      modifies recursionNodeStack
      ensures Stacked(f, Marked(tries))
    {
      assert f != [] ==> Entry(|f| - 1, f[|f| - 1], tries[|f| - 1]);
      recursionNodeStack[currentParent] := recursionNodeStack[currentParent].(tryRightBranch := true);
      forall m | 0 <= m < |f| ensures Entry(m, f[m], Marked(tries)[m]) {
        assert old(Entry(m, f[m], tries[m]));
      }
    }

    method PushNode(x: Node, ghost f: seq<int>, ghost tries: seq<bool>, ghost i: int)
      requires Stacked(f, tries) && currentParent == |f| && x == At(i)
      modifies this`recursionNodeStackSize, this`recursionNodeStack, this`recursionNodeStackTop, this`currentParent,
               recursionNodeStack
      ensures Stacked(f + [i], tries + [false]) && currentParent == |f| + 1
      ensures recursionNodeStack == old(recursionNodeStack) || fresh(recursionNodeStack)
    {
      GrowStack(f, tries);
      label Grown:
      recursionNodeStack[recursionNodeStackTop] := RecursionNode(x, currentParent, false);
      currentParent := recursionNodeStackTop;
      recursionNodeStackTop := recursionNodeStackTop + 1;
      forall m | 0 <= m < |f + [i]| ensures Entry(m, (f + [i])[m], (tries + [false])[m]) {
        if m < |f| { assert old@Grown(Entry(m, f[m], tries[m])); }
      }
    }

    /** Leaves the innermost frame, for its right subtree if that is to be tried. */
    method PopFrame(low: int, high: int, ghost u: Tree, ghost f: seq<int>, ghost tries: seq<bool>)
      returns (x: Node, ghost j: int, ghost tries': seq<bool>)
      requires Linked(u) && Shape(u) && Frames(u, f, tries) && Stacked(f, tries) && f != []
      modifies this`recursionNodeStackTop, this`currentParent, recursionNodeStack
      ensures NodeOrNil(u, j) && x == At(j)
      ensures Frames(u, f[..|f| - 1], tries') && Stacked(f[..|f| - 1], tries')
        && (j != None ==> currentParent == |f| - 1)
      ensures Remaining(u, low, high, None, f, tries) == Remaining(u, low, high, j, f[..|f| - 1], tries')
      ensures Work(u, j, f[..|f| - 1]) < Work(u, None, f)
    {
      ghost var m := |f| - 1;
      assert Entry(m, f[m], tries[m]);
      StepPop(u, low, high, f, tries);
      WorkPop(u, f);
      PopOne(f, tries);
      x, j, tries' := nil, None, tries[..m];
      assert Link(u, f[m]);
      if recursionNodeStack[recursionNodeStackTop].tryRightBranch {
        x, j, tries' := recursionNodeStack[recursionNodeStackTop].startNode.right, u.cells[f[m]].right,
            Marked(tries[..m]);
        currentParent := recursionNodeStack[recursionNodeStackTop].parentIndex;
        MarkParent(f[..m], tries[..m]);
      }
    }

    /** Leaves finished frames until a right subtree is to be searched or none is left. */
    method PopFrames(low: int, high: int, ghost u: Tree, ghost f0: seq<int>, ghost tries0: seq<bool>)
      returns (x: Node, ghost j: int, ghost f: seq<int>, ghost tries: seq<bool>)
      requires Linked(u) && Shape(u) && Frames(u, f0, tries0) && Stacked(f0, tries0)
      modifies this`recursionNodeStackTop, this`currentParent, recursionNodeStack
      ensures NodeOrNil(u, j) && x == At(j) && (j == None ==> f == [])
      ensures Frames(u, f, tries) && Stacked(f, tries) && (j != None ==> currentParent == |f|)
      ensures Remaining(u, low, high, None, f0, tries0) == Remaining(u, low, high, j, f, tries)
      ensures Work(u, j, f) <= Work(u, None, f0)
    {
      x, j, f, tries := nil, None, f0, tries0;
      while x == nil && recursionNodeStackTop > 1
        invariant NodeOrNil(u, j) && x == At(j)
        invariant Frames(u, f, tries) && Stacked(f, tries) && (j != None ==> currentParent == |f|)
        invariant Remaining(u, low, high, None, f0, tries0) == Remaining(u, low, high, j, f, tries)
        invariant Work(u, j, f) <= Work(u, None, f0)
        decreases |f|
      {
        AtNil(u, j);
        x, j, tries := PopFrame(low, high, u, f, tries);
        f := f[..|f| - 1];
      }
      AtNil(u, j);
    }

    lemma AtNil(u: Tree, j: int)
      requires Objects() && |nodes| == |u.cells| && NodeOrNil(u, j)
      ensures At(j) == nil <==> j == None
    {
      assert Has(u, j) ==> nodes[j] in nodes;
    }

    method PopOne(ghost f: seq<int>, ghost tries: seq<bool>)
      requires Stacked(f, tries) && f != []
      modifies this`recursionNodeStackTop
      ensures Stacked(f[..|f| - 1], tries[..|f| - 1])
    {
      recursionNodeStackTop := recursionNodeStackTop - 1;
      ghost var n := |f| - 1;
      forall m | 0 <= m < n ensures Entry(m, f[..n][m], tries[..n][m]) {
        assert old(Entry(m, f[m], tries[m]));
      }
    }

    /** One round of the query: is the node a hit, and where to go from it. */
    method Visit(x: Node, low: int, high: int, ghost u: Tree, ghost i: int, ghost f: seq<int>, ghost tries: seq<bool>)
      returns (hit: bool, y: Node, ghost j: int, ghost f': seq<int>, ghost tries': seq<bool>)
      requires Linked(u) && Shape(u) && Has(u, i) && x == nodes[i]
      requires Frames(u, f, tries) && Stacked(f, tries) && currentParent == |f|
      modifies this`recursionNodeStackSize, this`recursionNodeStack, this`recursionNodeStackTop, this`currentParent,
               recursionNodeStack
      ensures hit == Hit(u, low, high, i) && y == At(j)
      ensures Stacked(f', tries') && currentParent == |f'|
      ensures Advances(u, low, high, i, f, tries, j, f', tries')
      ensures recursionNodeStack == old(recursionNodeStack) || fresh(recursionNodeStack)
    {
      hit := HitAt(x, low, high, u, i);
      ghost var marks := if hit then Marked(tries) else tries;
      if hit {
        MarkParent(f, tries);
      }
      y, j, f', tries' := Descend(x, low, high, u, i, f, tries, marks);
    }

    method Descend(x: Node, low: int, ghost high: int, ghost u: Tree, ghost i: int, ghost f: seq<int>,
            ghost tries: seq<bool>, ghost marks: seq<bool>)
      returns (y: Node, ghost j: int, ghost f': seq<int>, ghost tries': seq<bool>)
      requires Linked(u) && Shape(u) && Has(u, i) && x == nodes[i]
      requires Frames(u, f, tries) && marks == Marks(u, low, high, i, tries) && Stacked(f, marks)
        && currentParent == |f|
      modifies this`recursionNodeStackSize, this`recursionNodeStack, this`recursionNodeStackTop, this`currentParent,
               recursionNodeStack
      ensures y == At(j) && Stacked(f', tries') && currentParent == |f'|
      ensures Advances(u, low, high, i, f, tries, j, f', tries')
      ensures recursionNodeStack == old(recursionNodeStack) || fresh(recursionNodeStack)
    {
      var left := LeftReaches(x, low, u, i);
      if left {
        VisitLeft(u, low, high, i, f, tries, marks);
        j, f', tries' := u.cells[i].left, f + [i], marks + [false];
        y := GoLeft(x, u, i, f, marks);
      } else {
        VisitRight(u, low, high, i, f, tries, marks);
        j, f', tries' := u.cells[i].right, f, marks;
        y := GoRight(x, u, i);
      }
    }

    method GoLeft(x: Node, ghost u: Tree, ghost i: int, ghost f: seq<int>, ghost tries: seq<bool>) returns (y: Node)
      requires Linked(u) && Has(u, i) && x == nodes[i]
      requires Stacked(f, tries) && currentParent == |f|
      modifies this`recursionNodeStackSize, this`recursionNodeStack, this`recursionNodeStackTop, this`currentParent,
               recursionNodeStack
      ensures y == At(u.cells[i].left) && Stacked(f + [i], tries + [false]) && currentParent == |f| + 1
      ensures recursionNodeStack == old(recursionNodeStack) || fresh(recursionNodeStack)
    {
      assert Link(u, i);
      y := x.left;
      PushNode(x, f, tries, i);
    }

    method GoRight(x: Node, ghost u: Tree, ghost i: int) returns (y: Node)
      requires Linked(u) && Has(u, i) && x == nodes[i]
      ensures y == At(u.cells[i].right)
    {
      assert Link(u, i);
      y := x.right;
    }

    method HitAt(x: Node, low: int, high: int, ghost u: Tree, ghost i: int) returns (hit: bool)
      requires Linked(u) && Has(u, i) && x == nodes[i]
      ensures hit == Hit(u, low, high, i)
    {
      assert Link(u, i);
      hit := Overlap(low, high, x.key, x.high);
    }

    method LeftReaches(x: Node, low: int, ghost u: Tree, ghost i: int) returns (reaches: bool)
      requires Linked(u) && Shape(u) && Has(u, i) && x == nodes[i]
      ensures reaches == (MaxHighAt(u, u.cells[i].left) >= low)
    {
      assert Link(u, i) && Slot(u, i);
      assert u.cells[i].left != None ==> Link(u, u.cells[i].left);
      reaches := x.left.maxHigh >= low;
    }

    /** Stored intervals are not inside out, and their times are representable. */
    ghost predicate Timed()
      reads this`nodes, nodes
    {
      forall i :: 0 <= i < |nodes| ==> -MAX_TIME <= nodes[i].key <= nodes[i].high
    }

    /** No stored time is below the one in `nil`. */
    ghost predicate Stamped()
      reads this`nodes, nodes
    {
      forall i :: 0 <= i < |nodes| ==> -MAX_TIME <= nodes[i].key && -MAX_TIME <= nodes[i].high
    }

    ghost predicate OverlapsAt(i: int, low: int, high: int)
      requires 0 <= i < |nodes|
      reads this`nodes, nodes[i]
    {
      Overlap(low, high, nodes[i].key, nodes[i].high)
    }

    /** Every stored interval that overlaps is found, and nothing else. */
    ghost predicate Exact(found: seq<int>, low: int, high: int)
      reads this`nodes, nodes
    {
      forall i :: 0 <= i < |nodes| ==> (i in found <==> OverlapsAt(i, low, high))
    }

    /** Every stored interval that overlaps and ends no earlier than low is found. */
    ghost predicate MissesNone(found: seq<int>, low: int, high: int)
      reads this`nodes, nodes
    {
      forall i :: 0 <= i < |nodes| ==> OverlapsAt(i, low, high) && low <= nodes[i].high ==> i in found
    }

    /** Visits a node and leaves the frames finished with it. */
    method Round(x: Node, low: int, high: int, ghost u: Tree, ghost i: int, ghost f: seq<int>, ghost tries: seq<bool>)
      returns (hit: bool, y: Node, ghost j: int, ghost f': seq<int>, ghost tries': seq<bool>)
      requires Linked(u) && Shape(u) && Has(u, i) && x == nodes[i]
      requires Frames(u, f, tries) && Stacked(f, tries) && currentParent == |f|
      modifies this`recursionNodeStackSize, this`recursionNodeStack, this`recursionNodeStackTop, this`currentParent,
               recursionNodeStack
      ensures hit == Hit(u, low, high, i) && Leads(u, y, j, f', tries')
      ensures Remaining(u, low, high, i, f, tries) == HereAt(u, low, high, i) + Remaining(u, low, high, j, f', tries')
      ensures Work(u, j, f') < Work(u, i, f)
      ensures recursionNodeStack == old(recursionNodeStack) || fresh(recursionNodeStack)
    {
      hit, y, j, f', tries' := Visit(x, low, high, u, i, f, tries);
      AtNil(u, j);
      if y == nil {
        y, j, f', tries' := PopFrames(low, high, u, f', tries');
      }
    }

    /** The state between two rounds: a current node below the frames, or none and no frames. */
    ghost predicate Leads(u: Tree, y: Node, j: int, f: seq<int>, tries: seq<bool>)
      requires Shape(u)
      reads this`nodes, this`nil, this`root, this`recursionNodeStack, this`recursionNodeStackTop
      reads this`recursionNodeStackSize, this`currentParent, recursionNodeStack
    {
      && NodeOrNil(u, j) && y == At(j) && (if j == None then f == [] else currentParent == |f|)
      && Frames(u, f, tries) && Stacked(f, tries)
    }

    method Collect(low: int, high: int, ghost u: Tree) returns (result: seq<Interval?>, ghost found: seq<int>)
      requires Linked(u) && Shape(u) && Stacked([], [])
      modifies this`recursionNodeStackSize, this`recursionNodeStack, this`recursionNodeStackTop, this`currentParent,
               recursionNodeStack
      ensures Picks(result, found) && found == Search(u, low, high, u.top)
      ensures Stacked([], [])
      ensures recursionNodeStack == old(recursionNodeStack) || fresh(recursionNodeStack)
    {
      var x: Node := root.left;
      currentParent := 0;
      result, found := [], [];
      ghost var j, f, tries := u.top, [], [];
      assert [] + Remaining(u, low, high, j, f, tries) == Search(u, low, high, u.top);
      while x != nil
        invariant Leads(u, x, j, f, tries)
        invariant found + Remaining(u, low, high, j, f, tries) == Search(u, low, high, u.top)
        invariant Picks(result, found)
        invariant recursionNodeStack == old(recursionNodeStack) || fresh(recursionNodeStack)
        decreases Work(u, j, f)
      {
        AtNil(u, j);
        result, found, x, j, f, tries := CollectRound(x, low, high, result, u, found, j, f, tries);
      }
      AtNil(u, j);
      assert found + Remaining(u, low, high, j, f, tries) == found;
    }

    method CollectRound(x: Node, low: int, high: int, result: seq<Interval?>,
                        ghost u: Tree, ghost found: seq<int>, ghost i: int, ghost f: seq<int>, ghost tries: seq<bool>)
      returns (result': seq<Interval?>, ghost found': seq<int>, y: Node, ghost j: int, ghost f': seq<int>,
          ghost tries': seq<bool>)
      requires Linked(u) && Shape(u) && Has(u, i) && x == nodes[i] && Leads(u, x, i, f, tries)
      requires Picks(result, found)
      modifies this`recursionNodeStackSize, this`recursionNodeStack, this`recursionNodeStackTop, this`currentParent,
               recursionNodeStack
      ensures Leads(u, y, j, f', tries') && Picks(result', found')
      ensures found' + Remaining(u, low, high, j, f', tries') == found + Remaining(u, low, high, i, f, tries)
      ensures Work(u, j, f') < Work(u, i, f)
      ensures recursionNodeStack == old(recursionNodeStack) || fresh(recursionNodeStack)
    {
      var hit;
      hit, y, j, f', tries' := Round(x, low, high, u, i, f, tries);
      found' := found + HereAt(u, low, high, i);
      result' := if hit then result + [x.storedInterval] else result;
      assert PicksAt(x.storedInterval, i);
      forall m | 0 <= m < |found'| ensures PicksAt(result'[m], found'[m]) {
        assert m < |found| ==> PicksAt(result[m], found[m]);
      }
      Associates(found, HereAt(u, low, high, i), Remaining(u, low, high, j, f', tries'));
    }

    /** All stored intervals that overlap [low, high], each once; `found` says where they are. */
    method Query(low: int, high: int) returns (result: seq<Interval?>, ghost found: seq<int>)
      requires Valid()
      modifies this`recursionNodeStackSize, this`recursionNodeStack, this`recursionNodeStackTop, this`currentParent,
               recursionNodeStack
      ensures Valid() && Picks(result, found) && Distinct(found)
      ensures forall m :: 0 <= m < |found| ==> OverlapsAt(found[m], low, high)
      ensures Timed() ==> (Exact(found, low, high) <==> Sighted(t, low, high))
      ensures Stamped() ==> (MissesNone(found, low, high) <==> Sighted(t, low, high))
    {
      result, found := Collect(low, high, t);
      QueryFound(low, high, found);
    }

    lemma QueryFound(low: int, high: int, found: seq<int>)
      requires Linked(t) && Shape(t) && Highs(t) && Sorted()
      requires found == Search(t, low, high, t.top)
      ensures Distinct(found)
      ensures forall m :: 0 <= m < |found| ==> 0 <= found[m] < |nodes| && OverlapsAt(found[m], low, high)
      ensures Timed() ==> (Exact(found, low, high) <==> Sighted(t, low, high))
      ensures Stamped() ==> (MissesNone(found, low, high) <==> Sighted(t, low, high))
    {
      SearchSound(t, low, high, t.top);
      forall i | 0 <= i < |nodes| ensures OverlapsAt(i, low, high) == Hit(t, low, high, i) { assert Link(t, i); }
      forall m | 0 <= m < |found| ensures 0 <= found[m] < |nodes| && OverlapsAt(found[m], low, high) {
        assert found[m] in found;
      }
      if Stamped() { StampedFound(low, high, found); }
      if Timed() { TimedFound(low, high, found); }
    }

    lemma StampedFound(low: int, high: int, found: seq<int>)
      requires Linked(t) && Shape(t) && Highs(t) && Sorted() && Stamped()
      requires found == Search(t, low, high, t.top)
      requires forall i :: 0 <= i < |nodes| ==> OverlapsAt(i, low, high) == Hit(t, low, high, i)
      ensures MissesNone(found, low, high) <==> Sighted(t, low, high)
    {
      StampedTree();
      SearchMissesNoneIff(t, low, high);
      forall j | 0 <= j < |nodes|
        ensures NotMissed(t, low, high, j) <==> (OverlapsAt(j, low, high) && low <= nodes[j].high ==> j in found)
      {
        assert Link(t, j) && OverlapsAt(j, low, high) == Hit(t, low, high, j);
      }
      if Sighted(t, low, high) {
        forall j | 0 <= j < |nodes| ensures OverlapsAt(j, low, high) && low <= nodes[j].high ==> j in found {
          assert NotMissed(t, low, high, j);
        }
      }
    }

    lemma TimedFound(low: int, high: int, found: seq<int>)
      requires Linked(t) && Shape(t) && Highs(t) && Sorted() && Timed()
      requires found == Search(t, low, high, t.top)
      requires forall i :: 0 <= i < |nodes| ==> OverlapsAt(i, low, high) == Hit(t, low, high, i)
      ensures Exact(found, low, high) <==> Sighted(t, low, high)
    {
      StampedTree();
      forall i | 0 <= i < |t.cells| ensures Forward(t, i) { assert Link(t, i) && nodes[i] in nodes; }
      SearchExactIff(t, low, high);
      if Exact(found, low, high) {
        forall j | 0 <= j < |t.cells| ensures Found(t, low, high, j) {
          assert OverlapsAt(j, low, high) == Hit(t, low, high, j);
        }
      }
      if forall j :: 0 <= j < |t.cells| ==> Found(t, low, high, j) {
        forall j | 0 <= j < |nodes| ensures j in found <==> OverlapsAt(j, low, high) {
          assert Found(t, low, high, j);
        }
      }
    }

    lemma StampedTree()
      requires Linked(t) && Shape(t) && Highs(t) && Sorted() && Stamped()
      ensures Timetable(t)
    {
      forall i | 0 <= i < |t.cells| ensures StampedAt(t, i) { assert Link(t, i) && nodes[i] in nodes; }
      forall i, j | 0 <= i < |t.cells| && 0 <= j < |t.cells| ensures Ascending(t, i, j) {
        assert Link(t, i) && Link(t, j) && InOrder(i, j);
      }
    }
  }
}
