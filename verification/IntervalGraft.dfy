/** Adding a leaf to the numbered tree and cutting out a node with at most one child.  Both shift
    the positions on one side of the change by one. */
module IntervalGraft {
  import opened IntervalCells
  import opened Lists

  /** The gap k at which a leaf below y can be added: just before y or just after it. */
  ghost predicate Gap(t: Tree, y: int, k: int) {
    if y == None then |t.cells| == 0 && k == 0
    else
      && Has(t, y)
      && (k == y || k == y + 1)
      && (k == y ==> t.cells[y].left == None)
      && (k == y + 1 ==> t.cells[y].right == None)
  }

  /** The positions [lo, hi) below y where node x is, or the gap there if there is no node. */
  ghost predicate Spot(t: Tree, y: int, x: int, lo: int, hi: int) {
    && 0 <= lo <= hi <= |t.cells|
    && if x == None then lo == hi && Gap(t, y, lo)
       else Has(t, x) && lo <= x < hi && t.cells[x].lo == lo && t.cells[x].hi == hi
  }

  lemma SpotBelow(t: Tree, x: int)
    requires Shape(t) && Has(t, x)
    ensures Spot(t, x, t.cells[x].left, t.cells[x].lo, x)
    ensures Spot(t, x, t.cells[x].right, x + 1, t.cells[x].hi)
    ensures t.cells[x].lo <= x < t.cells[x].hi
  {
    assert Slot(t, x);
    if t.cells[x].left != None { assert Slot(t, t.cells[x].left); }
    if t.cells[x].right != None { assert Slot(t, t.cells[x].right); }
  }

  lemma SpotTop(t: Tree)
    requires Shape(t)
    ensures Spot(t, None, t.top, 0, |t.cells|)
  {
    if |t.cells| > 0 { assert Slot(t, t.top); }
  }

  ghost function GraftedCell(t: Tree, y: int, k: int, high: int, key: int, i: int): Cell
    requires Gap(t, y, k) && 0 <= i <= |t.cells|
  {
    if i == k then
      Cell(None, None, Grow(y, k), false, key, high, high,
           k, k + 1)
    else
      var o := Shrink(i, k);
      var c := t.cells[o];
      c.(left := if o == y && k == y then k else Grow(c.left, k),
         right := if o == y && k == y + 1 then k else Grow(c.right, k),
         parent := Grow(c.parent, k),
         lo := if c.lo > y then c.lo + 1 else c.lo,
         hi := if c.hi > y then c.hi + 1 else c.hi)
  }

  ghost function Grafted(t: Tree, y: int, k: int, high: int, key: int): (t': Tree)
    requires Gap(t, y, k)
    ensures |t'.cells| == |t.cells| + 1
    ensures forall i :: 0 <= i <= |t.cells| ==> t'.cells[i] == GraftedCell(t, y, k, high, key, i)
  {
    Tree(seq(|t.cells| + 1, i requires 0 <= i <= |t.cells| => GraftedCell(t, y, k, high, key, i)),
         if y == None then 0 else Grow(t.top, k))
  }

  lemma GraftedLeftSlot(t: Tree, y: int, k: int, high: int, key: int, i: int)
    requires Gap(t, y, k) && 0 <= i <= |t.cells|
    requires y != None ==> Slot(t, y)
    requires i != k ==> Slot(t, Shrink(i, k))
    ensures LeftSlot(Grafted(t, y, k, high, key), i)
  {
    var t' := Grafted(t, y, k, high, key);
    assert t'.cells[i] == GraftedCell(t, y, k, high, key, i);
    var j := t'.cells[i].left;
    assert 0 <= j <= |t.cells| ==> t'.cells[j] == GraftedCell(t, y, k, high, key, j);
  }

  lemma GraftedRightSlot(t: Tree, y: int, k: int, high: int, key: int, i: int)
    requires Gap(t, y, k) && 0 <= i <= |t.cells|
    requires y != None ==> Slot(t, y)
    requires i != k ==> Slot(t, Shrink(i, k))
    ensures RightSlot(Grafted(t, y, k, high, key), i)
  {
    var t' := Grafted(t, y, k, high, key);
    assert t'.cells[i] == GraftedCell(t, y, k, high, key, i);
    var j := t'.cells[i].right;
    assert 0 <= j <= |t.cells| ==> t'.cells[j] == GraftedCell(t, y, k, high, key, j);
  }

  lemma GraftedParentSlot(t: Tree, y: int, k: int, high: int, key: int, i: int)
    requires Gap(t, y, k) && 0 <= i <= |t.cells|
    requires y != None ==> Slot(t, y)
    requires i != k ==> Slot(t, Shrink(i, k))
    ensures ParentSlot(Grafted(t, y, k, high, key), i)
  {
    var t' := Grafted(t, y, k, high, key);
    assert t'.cells[i] == GraftedCell(t, y, k, high, key, i);
    var j := t'.cells[i].parent;
    assert 0 <= j <= |t.cells| ==> t'.cells[j] == GraftedCell(t, y, k, high, key, j);
  }

  lemma GraftedSlot(t: Tree, y: int, k: int, high: int, key: int, i: int)
    requires Gap(t, y, k) && 0 <= i <= |t.cells|
    requires y != None ==> Slot(t, y)
    requires i != k ==> Slot(t, Shrink(i, k))
    ensures Slot(Grafted(t, y, k, high, key), i)
  {
    GraftedLeftSlot(t, y, k, high, key, i);
    GraftedRightSlot(t, y, k, high, key, i);
    GraftedParentSlot(t, y, k, high, key, i);
  }

  lemma GraftedShape(t: Tree, y: int, k: int, high: int, key: int)
    requires Shape(t) && Gap(t, y, k)
    ensures Shape(Grafted(t, y, k, high, key))
  {
    var t' := Grafted(t, y, k, high, key);
    if y != None { assert Slot(t, t.top) && Slot(t, y); }
    forall i | 0 <= i < |t'.cells| ensures Slot(t', i) {
      if i != k { assert Slot(t, Shrink(i, k)); }
      GraftedSlot(t, y, k, high, key, i);
    }
  }

  // ------------------------------------------------------------------ cutting out

  /** The only child of a node with at most one. */
  ghost function OnlyKid(t: Tree, k: int): int
    requires Has(t, k)
  {
    if t.cells[k].left == None then t.cells[k].right else t.cells[k].left
  }

  ghost predicate Cuttable(t: Tree, k: int) {
    Has(t, k) && (t.cells[k].left == None || t.cells[k].right == None)
  }

  ghost function CutCell(t: Tree, k: int, i: int): Cell
    requires Cuttable(t, k) && 0 <= i < |t.cells| - 1
  {
    var o := Grow(i, k);
    var x := Shrink(OnlyKid(t, k), k);
    var c := t.cells[o];
    c.(left := if c.left == k then x else Shrink(c.left, k),
       right := if c.right == k then x else Shrink(c.right, k),
       parent := if c.parent == k then Shrink(t.cells[k].parent, k) else Shrink(c.parent, k),
       lo := Shrink(c.lo, k + 1),
       hi := Shrink(c.hi, k + 1))
  }

  ghost function Cut(t: Tree, k: int): (t': Tree)
    requires Cuttable(t, k)
    ensures |t'.cells| == |t.cells| - 1
    ensures forall i :: 0 <= i < |t.cells| - 1 ==> t'.cells[i] == CutCell(t, k, i)
  {
    Tree(seq(|t.cells| - 1, i requires 0 <= i < |t.cells| - 1 => CutCell(t, k, i)),
         if t.top == k then Shrink(OnlyKid(t, k), k) else Shrink(t.top, k))
  }

  lemma CutLeftSlot(t: Tree, k: int, i: int)
    requires Cuttable(t, k) && 0 <= i < |t.cells| - 1
    requires Slot(t, k) && Slot(t, Grow(i, k))
    requires OnlyKid(t, k) != None ==> Has(t, OnlyKid(t, k)) && Slot(t, OnlyKid(t, k))
    ensures LeftSlot(Cut(t, k), i)
  {
    var t' := Cut(t, k);
    assert t'.cells[i] == CutCell(t, k, i);
    var j := t'.cells[i].left;
    assert 0 <= j < |t.cells| - 1 ==> t'.cells[j] == CutCell(t, k, j);
  }

  lemma CutRightSlot(t: Tree, k: int, i: int)
    requires Cuttable(t, k) && 0 <= i < |t.cells| - 1
    requires Slot(t, k) && Slot(t, Grow(i, k))
    requires OnlyKid(t, k) != None ==> Has(t, OnlyKid(t, k)) && Slot(t, OnlyKid(t, k))
    ensures RightSlot(Cut(t, k), i)
  {
    var t' := Cut(t, k);
    assert t'.cells[i] == CutCell(t, k, i);
    var j := t'.cells[i].right;
    assert 0 <= j < |t.cells| - 1 ==> t'.cells[j] == CutCell(t, k, j);
  }

  lemma CutParentSlot(t: Tree, k: int, i: int)
    requires Cuttable(t, k) && 0 <= i < |t.cells| - 1
    requires Slot(t, k) && Slot(t, Grow(i, k))
    requires OnlyKid(t, k) != None ==> Has(t, OnlyKid(t, k)) && Slot(t, OnlyKid(t, k))
    ensures ParentSlot(Cut(t, k), i)
  {
    var t' := Cut(t, k);
    assert t'.cells[i] == CutCell(t, k, i);
    var j := t'.cells[i].parent;
    assert 0 <= j < |t.cells| - 1 ==> t'.cells[j] == CutCell(t, k, j);
  }

  lemma CutSlot(t: Tree, k: int, i: int)
    requires Cuttable(t, k) && 0 <= i < |t.cells| - 1
    requires Slot(t, k) && Slot(t, Grow(i, k))
    requires OnlyKid(t, k) != None ==> Has(t, OnlyKid(t, k)) && Slot(t, OnlyKid(t, k))
    ensures Slot(Cut(t, k), i)
  {
    CutLeftSlot(t, k, i);
    CutRightSlot(t, k, i);
    CutParentSlot(t, k, i);
  }

  lemma CutShape(t: Tree, k: int)
    requires Shape(t) && Cuttable(t, k)
    ensures Shape(Cut(t, k))
  {
    var t' := Cut(t, k);
    assert Slot(t, t.top) && Slot(t, k);
    if OnlyKid(t, k) != None { assert Slot(t, OnlyKid(t, k)); }
    forall i | 0 <= i < |t'.cells| ensures Slot(t', i) {
      assert Slot(t, Grow(i, k));
      CutSlot(t, k, i);
    }
  }

  ghost function Reparented(t: Tree, i: int, p: int): Tree {
    if Has(t, i) then WithParent(t, i, p) else t
  }

  lemma CutFacts(t: Tree, k: int)
    requires Shape(t) && Cuttable(t, k)
    ensures var i, p := OnlyKid(t, k), t.cells[k].parent;
      && (i == None || (Has(t, i) && i != k)) && p != k
      && (if p == None then t.top == k else Has(t, p) && i != p && Slotted(t, p) && t.top != k)
  {
    assert Slot(t, k) && Slot(t, t.top);
    var i, p := OnlyKid(t, k), t.cells[k].parent;
    if p != None { assert Slot(t, p); }
    if i != None { assert Slot(t, i); }
  }

  /** The links once k's child hangs in k's place, k's own links still there. */
  ghost function Bypassed(t: Tree, k: int): (t': Tree)
    requires Cuttable(t, k)
    ensures |t'.cells| == |t.cells|
  {
    var i, p := OnlyKid(t, k), t.cells[k].parent;
    Replaced(Reparented(t, i, p), p, k, i)
  }

  lemma BypassedTop(t: Tree, k: int)
    requires Shape(t) && Cuttable(t, k)
    ensures Bypassed(t, k).top != k && Cut(t, k).top == Shrink(Bypassed(t, k).top, k)
  {
    CutFacts(t, k);
  }

  lemma AroundCut(t: Tree, k: int, o: int)
    requires Shape(t) && Cuttable(t, k) && Has(t, o) && o != k
    ensures t.cells[o].left == k ==> t.cells[k].parent == o && t.cells[o].right != k
    ensures t.cells[o].right == k ==> t.cells[k].parent == o && t.cells[o].left != k
    ensures t.cells[o].parent == k ==> o == OnlyKid(t, k)
    ensures t.cells[k].parent == o ==> t.cells[o].left == k || t.cells[o].right == k
    ensures OnlyKid(t, k) == o ==> t.cells[o].parent == k
  {
    assert Slot(t, o) && Slot(t, k);
  }

  /** What bypassing does to another node. */
  lemma BypassedAt(t: Tree, k: int, o: int)
    requires Shape(t) && Cuttable(t, k) && Has(t, o) && o != k
    ensures var c, kid := t.cells[o], OnlyKid(t, k);
      Bypassed(t, k).cells[o] == c.(left := if c.left == k then kid else c.left,
                                    right := if c.right == k then kid else c.right,
                                    parent := if c.parent == k then t.cells[k].parent else c.parent)
  {
    hide Shape;
    CutFacts(t, k);
    AroundCut(t, k, o);
  }

  lemma BypassedCell(t: Tree, k: int, o: int)
    requires Shape(t) && Cuttable(t, k) && Has(t, o) && o != k
    ensures var c, d := Bypassed(t, k).cells[o], Cut(t, k).cells[Shrink(o, k)];
      && c.left != k && c.right != k && c.parent != k
      && d.left == Shrink(c.left, k) && d.right == Shrink(c.right, k) && d.parent == Shrink(c.parent, k)
      && d.red == c.red && d.key == c.key && d.high == c.high && d.maxHigh == c.maxHigh
  {
    hide Shape, Bypassed, Cut;
    CutFacts(t, k);
    BypassedAt(t, k, o);
    assert Cut(t, k).cells[Shrink(o, k)] == CutCell(t, k, Shrink(o, k));
  }
}
