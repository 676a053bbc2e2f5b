/** What grafting and cutting do to maxHigh, to the colouring and to the key order. */
module IntervalEdits {
  import opened IntervalCells
  import opened IntervalColours
  import opened IntervalGraft
  import opened Lists

  // ------------------------------------------------------------------ maxHigh along a path

  ghost predicate Contains(t: Tree, j: int, i: int)
    requires Has(t, j)
  {
    t.cells[j].lo <= i < t.cells[j].hi
  }

  /** An ancestor of i other than i is an ancestor of i's parent. */
  lemma {:induction false} AncestorsPassParent(t: Tree, j: int, i: int)
    requires Shape(t) && Has(t, i) && Has(t, j) && j != i && Contains(t, j, i)
    ensures Has(t, t.cells[i].parent) && Contains(t, j, t.cells[i].parent)
    decreases t.cells[j].hi - t.cells[j].lo
  {
    assert Slot(t, j) && Slot(t, i);
    var k := if i < j then t.cells[j].left else t.cells[j].right;
    if k != i {
      AncestorsPassParent(t, k, i);
    }
  }

  lemma ParentContains(t: Tree, i: int)
    requires Shape(t) && Has(t, i) && Has(t, t.cells[i].parent)
    ensures Contains(t, t.cells[i].parent, i) && t.cells[i].parent != i
    ensures t.cells[t.cells[i].parent].hi - t.cells[t.cells[i].parent].lo > t.cells[i].hi - t.cells[i].lo
  {
    assert Slot(t, i) && Slot(t, t.cells[i].parent);
  }

  /** maxHigh is right at every node that is not on the way from i up. */
  ghost predicate HighsBut(t: Tree, i: int) {
    forall j :: 0 <= j < |t.cells| && !Contains(t, j, i) ==> HighOk(t, j)
  }

  /** Only maxHigh differs. */
  ghost predicate Rehighed(t: Tree, t': Tree) {
    && |t'.cells| == |t.cells|
    && t'.top == t.top
    && forall i :: 0 <= i < |t.cells| ==> RehighedAt(t, t', i)
  }

  ghost predicate RehighedAt(t: Tree, t': Tree, i: int)
    requires Has(t, i) && Has(t', i)
  {
    t'.cells[i] == t.cells[i].(maxHigh := t'.cells[i].maxHigh)
  }

  lemma RehighedShape(t: Tree, t': Tree)
    requires Shape(t) && Rehighed(t, t')
    ensures Shape(t')
  {
    assert Has(t, t.top) ==> RehighedAt(t, t', t.top);
    forall i | 0 <= i < |t'.cells| ensures Slot(t', i) {
      assert Slot(t, i);
      assert RehighedAt(t, t', i);
      var c := t.cells[i];
      assert c.left != None ==> RehighedAt(t, t', c.left);
      assert c.right != None ==> RehighedAt(t, t', c.right);
      assert c.parent != None ==> RehighedAt(t, t', c.parent);
    }
  }

  /** One step of fixupMaxHigh. */
  lemma RefreshStep(t: Tree, i: int)
    requires Shape(t) && Has(t, i) && HighsBut(t, i)
    ensures var t' := HighRefreshed(t, i);
      Rehighed(t, t') && Shape(t') && if t.cells[i].parent == None then Highs(t') else HighsBut(t', t.cells[i].parent)
  {
    var t' := HighRefreshed(t, i);
    RehighedShape(t, t');
    NoLoop(t, i);
    forall j | 0 <= j < |t'.cells| && (t.cells[i].parent == None || !Contains(t', j, t.cells[i].parent))
      ensures HighOk(t', j)
    {
      assert Slot(t, i);
      if j != i {
        if Contains(t, j, i) { AncestorsPassParent(t, j, i); }
        assert HighOk(t, j);
        KidParent(t, j, i);
        if t.cells[i].parent != None { ParentContains(t, i); }
      }
    }
  }

  lemma FixupStep(t: Tree, i: int)
    requires Shape(t) && Has(t, i)
    ensures Slotted(t, i) && (t.cells[i].parent == None || Has(t, t.cells[i].parent))
    ensures 0 < t.cells[i].hi - t.cells[i].lo <= |t.cells|
    ensures t.cells[i].parent != None ==>
      t.cells[t.cells[i].parent].hi - t.cells[t.cells[i].parent].lo > t.cells[i].hi - t.cells[i].lo
  {
    assert Slot(t, i);
    if t.cells[i].parent != None { ParentContains(t, i); }
  }

  lemma RehighedTwice(t: Tree, t1: Tree, t2: Tree, i: int)
    requires Rehighed(t, t1) && Has(t1, i) && t2 == HighRefreshed(t1, i)
    ensures Rehighed(t, t2)
  {
    forall j | 0 <= j < |t.cells| ensures RehighedAt(t, t2, j) { assert RehighedAt(t, t1, j); }
  }

  // ------------------------------------------------------------------ grafting

  lemma GraftedHighs(t: Tree, y: int, k: int, high: int, key: int)
    requires Shape(t) && Highs(t) && Gap(t, y, k) && -MAX_TIME <= high
    ensures var t' := Grafted(t, y, k, high, key);
      if y == None then Highs(t') else HighsBut(t', Grow(y, k))
  {
    var t' := Grafted(t, y, k, high, key);
    GraftedShape(t, y, k, high, key);
    forall i | 0 <= i < |t'.cells| && (y == None || !Contains(t', i, Grow(y, k))) ensures HighOk(t', i) {
      if i != k {
        var o := Shrink(i, k);
        assert HighOk(t, o) && Slot(t', i);
        GraftedHighAt(t, y, k, high, key, o);
      }
    }
  }

  lemma GraftedLink(t: Tree, y: int, k: int, high: int, key: int, j: int)
    requires Gap(t, y, k) && (j == None || Has(t, j))
    ensures MaxHighAt(Grafted(t, y, k, high, key), Grow(j, k)) == MaxHighAt(t, j)
  {
    var t' := Grafted(t, y, k, high, key);
    assert j != None ==> t'.cells[Grow(j, k)] == GraftedCell(t, y, k, high, key, Grow(j, k));
  }

  lemma GraftedHighAt(t: Tree, y: int, k: int, high: int, key: int, o: int)
    requires Shape(t) && Gap(t, y, k) && Has(t, o) && HighOk(t, o) && o != y
    ensures HighOk(Grafted(t, y, k, high, key), Grow(o, k))
  {
    var t', c := Grafted(t, y, k, high, key), t.cells[o];
    assert t'.cells[Grow(o, k)] == GraftedCell(t, y, k, high, key, Grow(o, k));
    SlottedAt(t, o);
    GraftedLink(t, y, k, high, key, c.left);
    GraftedLink(t, y, k, high, key, c.right);
  }

  lemma SlottedAt(t: Tree, i: int)
    requires Shape(t) && Has(t, i)
    ensures Slotted(t, i)
  {
    assert Slot(t, i);
  }

  /** The tree after grafting, the walk that restores maxHigh, and reddening the new leaf. */
  ghost predicate Planted(t: Tree, y: int, k: int, high: int, key: int, t2: Tree)
  {
    Gap(t, y, k) && Rehighed(Grafted(t, y, k, high, key), t2)
  }

  lemma PlantedAt(t: Tree, bh: seq<int>, y: int, k: int, high: int, key: int, t2: Tree, j: int)
    requires Planted(t, y, k, high, key, t2) && |bh| == |t.cells|
    requires j == None || Has(t, j)
    ensures var t3, bh', j' := WithRed(t2, k, true), Inserted(bh, k, 0), Grow(j, k);
      && IsRed(t3, j') == IsRed(t, j)
      && Blacks(t3, bh', j') == Blacks(t, bh, j)
      && (Has(t, j) ==>
            && bh'[j'] == bh[j] && j' != k && Has(t3, j')
            && t3.cells[j'].left == (if j == y && k == y then k else Grow(t.cells[j].left, k))
            && t3.cells[j'].right == (if j == y && k == y + 1 then k else Grow(t.cells[j].right, k)))
  {
    if Has(t, j) {
      assert RehighedAt(Grafted(t, y, k, high, key), t2, Grow(j, k));
    }
  }

  lemma PlantedLeaf(t: Tree, bh: seq<int>, y: int, k: int, high: int, key: int, t2: Tree)
    requires Planted(t, y, k, high, key, t2) && |bh| == |t.cells|
    ensures var t3, bh' := WithRed(t2, k, true), Inserted(bh, k, 0);
      && IsRed(t3, k) && Blacks(t3, bh', k) == 0 && bh'[k] == 0
      && t3.cells[k].left == None && t3.cells[k].right == None && t3.cells[k].parent == Grow(y, k)
  {
    assert RehighedAt(Grafted(t, y, k, high, key), t2, k);
  }

  lemma PlantedBlackAt(t: Tree, bh: seq<int>, y: int, k: int, high: int, key: int, t2: Tree, o: int)
    requires Planted(t, y, k, high, key, t2) && |bh| == |t.cells|
    requires Has(t, o) && Slotted(t, o) && BlackOk(t, bh, o) && RedOk(t, o)
    ensures var t3, bh' := WithRed(t2, k, true), Inserted(bh, k, 0);
      BlackOk(t3, bh', Grow(o, k)) && (o != y ==> RedOk(t3, Grow(o, k)))
      && (o == y ==> !IsRed(t, y) || !IsRed(t3, Brother(t3, Grow(y, k), k)))
  {
    PlantedLeaf(t, bh, y, k, high, key, t2);
    PlantedAt(t, bh, y, k, high, key, t2, o);
    PlantedAt(t, bh, y, k, high, key, t2, t.cells[o].left);
    PlantedAt(t, bh, y, k, high, key, t2, t.cells[o].right);
  }

  /** A red leaf weighs nothing: the enlarged tree is ready for insert's loop. */
  lemma GraftedColours(t: Tree, bh: seq<int>, y: int, k: int, high: int, key: int, t2: Tree)
    requires Shape(t) && Coloured(t, bh)
    requires Planted(t, y, k, high, key, t2) && Highs(t2)
    ensures Inserting(WithRed(t2, k, true), Inserted(bh, k, 0), k)
  {
    hide Highs, Highest;
    var t1 := Grafted(t, y, k, high, key);
    var t3, bh' := WithRed(t2, k, true), Inserted(bh, k, 0);
    GraftedShape(t, y, k, high, key);
    RehighedShape(t1, t2);
    RecolouredKeeps(t2, t3);
    PlantedLeaf(t, bh, y, k, high, key, t2);
    forall i | 0 <= i < |t3.cells| ensures BlackOk(t3, bh', i) && (i != Grow(y, k) ==> RedOk(t3, i)) {
      if i != k {
        var o := Shrink(i, k);
        assert Slot(t, o) && BlackOk(t, bh, o) && RedOk(t, o);
        PlantedBlackAt(t, bh, y, k, high, key, t2, o);
      }
    }
    if y != None {
      assert Slot(t, t.top);
      assert Slot(t, y) && BlackOk(t, bh, y) && RedOk(t, y);
      PlantedBlackAt(t, bh, y, k, high, key, t2, y);
      PlantedAt(t, bh, y, k, high, key, t2, y);
      PlantedAt(t, bh, y, k, high, key, t2, t.top);
    }
  }

  // ------------------------------------------------------------------ cutting

  /** Links and colours agree; keys, highs and maxHigh may not. */
  ghost predicate Refilled(t: Tree, t': Tree) {
    && |t'.cells| == |t.cells|
    && t'.top == t.top
    && forall i :: 0 <= i < |t.cells| ==> RefilledAt(t, t', i)
  }

  ghost predicate RefilledAt(t: Tree, t': Tree, i: int)
    requires Has(t, i) && Has(t', i)
  {
    var c, d := t.cells[i], t'.cells[i];
    && c.left == d.left && c.right == d.right && c.parent == d.parent
    && c.lo == d.lo && c.hi == d.hi && c.red == d.red
  }

  lemma RefilledShape(t: Tree, t': Tree)
    requires Shape(t) && Refilled(t, t')
    ensures Shape(t')
  {
    assert Has(t, t.top) ==> RefilledAt(t, t', t.top);
    forall i | 0 <= i < |t'.cells| ensures Slot(t', i) {
      assert Slot(t, i);
      assert RefilledAt(t, t', i);
      var c := t.cells[i];
      assert c.left != None ==> RefilledAt(t, t', c.left);
      assert c.right != None ==> RefilledAt(t, t', c.right);
      assert c.parent != None ==> RefilledAt(t, t', c.parent);
    }
  }

  lemma CutAt(t: Tree, bh: seq<int>, k: int, t2: Tree, j: int)
    requires Cuttable(t, k) && Refilled(Cut(t, k), t2) && |bh| == |t.cells|
    requires j == None || (Has(t, j) && j != k)
    ensures var bh', j' := Dropped(bh, k), Shrink(j, k);
      && IsRed(t2, j') == IsRed(t, j)
      && Blacks(t2, bh', j') == Blacks(t, bh, j)
      && (Has(t, j) ==>
            && bh'[j'] == bh[j] && Has(t2, j')
            && t2.cells[j'].left == (if t.cells[j].left == k then Shrink(OnlyKid(t, k), k)
              else Shrink(t.cells[j].left, k))
            && t2.cells[j'].right == (if t.cells[j].right == k then Shrink(OnlyKid(t, k), k)
              else Shrink(t.cells[j].right, k)))
  {
    if Has(t, j) {
      assert RefilledAt(Cut(t, k), t2, Shrink(j, k));
    }
  }

  /** Away from the cut node and its parent nothing changes. */
  lemma CutColoursAt(t: Tree, bh: seq<int>, k: int, t2: Tree, o: int)
    requires Cuttable(t, k) && Refilled(Cut(t, k), t2) && |bh| == |t.cells|
    requires Has(t, o) && o != k && Slotted(t, o) && BlackOk(t, bh, o) && RedOk(t, o)
    requires t.cells[o].left != k && t.cells[o].right != k
    ensures BlackOk(t2, Dropped(bh, k), Shrink(o, k)) && RedOk(t2, Shrink(o, k))
  {
    CutAt(t, bh, k, t2, o);
    CutAt(t, bh, k, t2, t.cells[o].left);
    CutAt(t, bh, k, t2, t.cells[o].right);
  }

  lemma CutParentAt(t: Tree, bh: seq<int>, k: int, t2: Tree, p: int, w: int)
    requires Cuttable(t, k) && Refilled(Cut(t, k), t2) && |bh| == |t.cells| && Slotted(t, k)
    requires Has(t, p) && p != k && Slotted(t, p) && Kids(t, p, k, w) && k != w && OnlyKid(t, k) != k
    requires OnlyKid(t, k) != w || w == None
    requires BlackOk(t, bh, p) && RedOk(t, p) && BlackOk(t, bh, k)
    ensures var bh', p', x' := Dropped(bh, k), Shrink(p, k), Shrink(OnlyKid(t, k), k);
      && Kids(t2, p', x', Shrink(w, k)) && bh'[p'] == bh[p]
      && (!IsRed(t, k) ==> x' != Shrink(w, k))
      && Blacks(t2, bh', x') == 0
      && Blacks(t2, bh', Shrink(w, k)) == bh[p] == (if IsRed(t, k) then 0 else 1)
      && (IsRed(t2, p') ==> !IsRed(t2, Shrink(w, k)))
      && IsRed(t2, p') == IsRed(t, p)
      && (IsRed(t, k) ==> !IsRed(t, p))
  {
    CutAt(t, bh, k, t2, p);
    CutAt(t, bh, k, t2, w);
    CutAt(t, bh, k, t2, OnlyKid(t, k));
  }

  /** Cutting out a red node leaves a coloured tree; cutting out a black one leaves its child one
      black node short. */
  lemma CutColours(t: Tree, bh: seq<int>, k: int, t2: Tree)
    requires Shape(t) && Coloured(t, bh) && Cuttable(t, k) && Refilled(Cut(t, k), t2) && Highs(t2)
    ensures IsRed(t, k) ==> Shape(t2) && Coloured(t2, Dropped(bh, k))
    ensures !IsRed(t, k) ==>
      Lacking(t2, Dropped(bh, k), Shrink(t.cells[k].parent, k), Shrink(OnlyKid(t, k), k))
  {
    var bh', p, x := Dropped(bh, k), t.cells[k].parent, OnlyKid(t, k);
    CutShape(t, k);
    RefilledShape(Cut(t, k), t2);
    assert Slot(t, k) && Slot(t, t.top) && BlackOk(t, bh, k) && RedOk(t, k);
    CutElsewhere(t, bh, k, t2);
    if p != None {
      UpNotDown(t, k);
      CutBelow(t, bh, k, t2, p);
      assert Slot(t, p);
    } else if x != None {
      CutAt(t, bh, k, t2, x);
    }
  }

  lemma CutElsewhere(t: Tree, bh: seq<int>, k: int, t2: Tree)
    requires Shape(t) && Coloured(t, bh) && Cuttable(t, k) && Refilled(Cut(t, k), t2)
    ensures |Dropped(bh, k)| == |t2.cells|
    ensures forall i :: 0 <= i < |t2.cells| && i != Shrink(t.cells[k].parent, k) ==> BlackOk(t2, Dropped(bh, k), i)
    ensures forall i :: 0 <= i < |t2.cells| && i != Shrink(t.cells[k].parent, k) ==> RedOk(t2, i)
  {
    forall i | 0 <= i < |t2.cells| && i != Shrink(t.cells[k].parent, k)
      ensures BlackOk(t2, Dropped(bh, k), i) && RedOk(t2, i)
    {
      var o := Grow(i, k);
      assert Slot(t, k) && Slot(t, o) && BlackOk(t, bh, o) && RedOk(t, o);
      CutColoursAt(t, bh, k, t2, o);
    }
  }

  lemma CutBelow(t: Tree, bh: seq<int>, k: int, t2: Tree, p: int)
    requires Shape(t) && Coloured(t, bh) && Cuttable(t, k) && Refilled(Cut(t, k), t2)
    requires Has(t, p) && p == t.cells[k].parent && p != k
    ensures var bh', p', x' := Dropped(bh, k), Shrink(p, k), Shrink(OnlyKid(t, k), k);
      && (IsRed(t, k) ==> BlackOk(t2, bh', p') && RedOk(t2, p'))
      && (!IsRed(t, k) ==> LackingAt(t2, bh', p', x'))
      && !IsRed(t2, t2.top)
  {
    UpNotDown(t, k);
    NoLoop(t, k);
    BrotherOfKid(t, p, k);
    assert Slot(t, k) && Slot(t, p) && Slot(t, t.top);
    assert BlackOk(t, bh, k) && BlackOk(t, bh, p) && RedOk(t, p);
    CutParentAt(t, bh, k, t2, p, Brother(t, p, k));
    CutAt(t, bh, k, t2, t.top);
  }

  lemma BrotherOfKid(t: Tree, p: int, k: int)
    requires Shape(t) && Has(t, p) && Has(t, k) && t.cells[k].parent == p
    ensures var w := Brother(t, p, k); w != OnlyKid(t, k) || w == None
  {
    assert Slot(t, k) && Slot(t, p);
    var w, c := Brother(t, p, k), OnlyKid(t, k);
    assert c != None ==> t.cells[c].parent == k;
    assert w != None ==> t.cells[w].parent == p;
  }

  lemma CutHighAt(t: Tree, k: int, o: int)
    requires Shape(t) && Cuttable(t, k) && Has(t, o) && o != k && HighOk(t, o)
    requires t.cells[o].left != k && t.cells[o].right != k
    ensures HighOk(Cut(t, k), Shrink(o, k))
  {
    assert Slot(t, o);
    var t' := Cut(t, k);
    assert t'.cells[Shrink(o, k)] == CutCell(t, k, Shrink(o, k));
    var l, r := t.cells[o].left, t.cells[o].right;
    assert l != None ==> t'.cells[Shrink(l, k)] == CutCell(t, k, Shrink(l, k));
    assert r != None ==> t'.cells[Shrink(r, k)] == CutCell(t, k, Shrink(r, k));
  }

  lemma CutHighs(t: Tree, k: int)
    requires Shape(t) && Highs(t) && Cuttable(t, k)
    ensures var p := t.cells[k].parent;
      if p == None then Highs(Cut(t, k)) else HighsBut(Cut(t, k), Shrink(p, k))
  {
    hide Highest, Blacks;
    var t', p := Cut(t, k), t.cells[k].parent;
    CutShape(t, k);
    assert Slot(t, k);
    forall i | 0 <= i < |t'.cells| && (p == None || !Contains(t', i, Shrink(p, k))) ensures HighOk(t', i) {
      var o := Grow(i, k);
      assert HighOk(t, o) && Slot(t', i);
      if p != None { UpNotDown(t, k); }
      KidParent(t, o, k);
      CutHighAt(t, k, o);
    }
  }

  /** z = i has two children, so its successor k = i + 1 was cut out; now the successor's node takes
      z's place with its own key and high, its own colour for now and maxHigh still to be found. */
  ghost function Transplanted(t: Tree, i: int): Tree
    requires Cuttable(t, i + 1) && Has(t, i)
  {
    Refitted(Cut(t, i + 1), i, t.cells[i + 1].key, t.cells[i + 1].high, t.cells[i + 1].red)
  }

  /** Another node in place i, its maxHigh still to be found. */
  ghost function Refitted(t: Tree, i: int, key: int, high: int, red: bool): Tree
    requires Has(t, i)
  {
    t.(cells := t.cells[i := t.cells[i].(key := key, high := high, maxHigh := -MAX_TIME, red := red)])
  }

  lemma TransplantedHighs(t: Tree, i: int)
    requires Shape(t) && Highs(t) && Has(t, i) && t.cells[i].left != None && t.cells[i].right != None
    requires Cuttable(t, i + 1)
    ensures Has(t, t.cells[i + 1].parent) && t.cells[i + 1].parent >= i
    ensures Shape(Transplanted(t, i))
    ensures HighsBut(Transplanted(t, i), Shrink(t.cells[i + 1].parent, i + 1))
  {
    var k := i + 1;
    var u, w := Cut(t, k), Transplanted(t, i);
    assert Slot(t, i) && Slot(t, t.cells[i].right) && Slot(t, k);
    if k != t.cells[i].right { AncestorsPassParent(t, t.cells[i].right, k); }
    var p := t.cells[k].parent;
    CutShape(t, k);
    TransplantedShape(t, i);
    CutHighs(t, k);
    assert p != k by { UpNotDown(t, k); }
    assert Contains(u, i, Shrink(p, k));
    forall j | 0 <= j < |w.cells| && !Contains(w, j, Shrink(p, k)) ensures HighOk(w, j) {
      assert HighOk(u, j) && Slot(u, j);
      TransplantedHighAt(t, i, j);
    }
  }

  lemma TransplantedShape(t: Tree, i: int)
    requires Shape(t) && Cuttable(t, i + 1) && Has(t, i)
    ensures Shape(Transplanted(t, i))
  {
    var u, w := Cut(t, i + 1), Transplanted(t, i);
    CutShape(t, i + 1);
    assert Has(u, u.top) ==> SameLinks(u, w, u.top);
    forall j | 0 <= j < |w.cells| ensures Slot(w, j) {
      assert Slot(u, j);
    }
  }

  ghost predicate SameLinks(t: Tree, t': Tree, i: int)
    requires Has(t, i) && Has(t', i)
  {
    t'.cells[i].lo == t.cells[i].lo && t'.cells[i].hi == t.cells[i].hi && t'.cells[i].parent == t.cells[i].parent
  }

  lemma TransplantedHighAt(t: Tree, i: int, j: int)
    requires Cuttable(t, i + 1) && Has(t, i)
    requires Has(Cut(t, i + 1), j) && j != i && Slot(Cut(t, i + 1), j) && HighOk(Cut(t, i + 1), j)
    requires Cut(t, i + 1).cells[j].left != i && Cut(t, i + 1).cells[j].right != i
    ensures HighOk(Transplanted(t, i), j)
  {
  }

  /** Subtrees nest. */
  lemma {:induction false} Nested(t: Tree, j: int, i: int)
    requires Shape(t) && Has(t, i) && Has(t, j) && Contains(t, j, i)
    ensures t.cells[j].lo <= t.cells[i].lo && t.cells[i].hi <= t.cells[j].hi
    decreases t.cells[j].hi - t.cells[j].lo
  {
    assert Slot(t, j);
    if j != i {
      var k := if i < j then t.cells[j].left else t.cells[j].right;
      Nested(t, k, i);
    }
  }

  /** The successor of a node with a right child has no left child. */
  lemma SuccessorIsLone(t: Tree, i: int)
    requires Shape(t) && Has(t, i) && t.cells[i].right != None
    ensures Has(t, i + 1) && t.cells[i + 1].left == None && Cuttable(t, i + 1)
    ensures t.cells[i + 1].parent == i <==> t.cells[i].right == i + 1
  {
    assert Slot(t, i) && Slot(t, t.cells[i].right);
    Nested(t, t.cells[i].right, i + 1);
    assert Slot(t, i + 1);
    var l := t.cells[i + 1].left;
    assert l != None ==> t.cells[l].hi == i + 1 && t.cells[i + 1].lo <= t.cells[l].lo && Slot(t, l);
  }

  /** Around node i after its successor has been cut out. */
  lemma CutBeside(t: Tree, i: int)
    requires Shape(t) && Has(t, i) && t.cells[i].left != None && t.cells[i].right != None && Cuttable(t, i + 1)
    ensures var c, k := Cut(t, i + 1), i + 1; var p, x := Shrink(t.cells[k].parent, k), Shrink(OnlyKid(t, k), k);
      && Has(c, i) && c.cells[i].left != None && Has(c, p)
      && (x != None ==> Has(c, x) && x > i && c.cells[x].parent == p)
      && (x == None ==> (c.cells[i].right == None <==> p == i))
  {
    var k := i + 1;
    SuccessorIsLone(t, i);
    CutFacts(t, k);
    assert Slot(t, i) && Slot(t, k);
    var c := Cut(t, k);
    assert c.cells[i] == CutCell(t, k, i);
    if OnlyKid(t, k) != None {
      assert Slot(t, OnlyKid(t, k));
      AroundCut(t, k, OnlyKid(t, k));
      assert c.cells[Shrink(OnlyKid(t, k), k)] == CutCell(t, k, Shrink(OnlyKid(t, k), k));
    }
  }

  lemma TransplantedKid(t: Tree, i: int)
    requires Shape(t) && Has(t, i) && t.cells[i].left != None && t.cells[i].right != None && Cuttable(t, i + 1)
    ensures var x, k := Shrink(OnlyKid(t, i + 1), i + 1), i + 1;
      x != None ==> Has(Transplanted(t, i), x) && Transplanted(t, i).cells[x].parent == Shrink(t.cells[k].parent, k)
  {
    CutBeside(t, i);
  }

  lemma RehighedRefills(t: Tree, u: Tree)
    requires Rehighed(t, u)
    ensures Refilled(t, u)
  {
    forall i | 0 <= i < |t.cells| ensures RefilledAt(t, u, i) { assert RehighedAt(t, u, i); }
  }

  /** With z's colour on the node that took its place, the colouring is that of the cut. */
  lemma TransplantColours(t: Tree, bh: seq<int>, i: int, u: Tree)
    requires Shape(t) && Coloured(t, bh) && Has(t, i) && Cuttable(t, i + 1)
    requires Rehighed(Transplanted(t, i), u) && Shape(u) && Highs(u)
    ensures var k := i + 1; var w := WithRed(u, i, t.cells[i].red);
      && Shape(w) && Highs(w)
      && (IsRed(t, k) ==> Coloured(w, Dropped(bh, k)))
      && (!IsRed(t, k) ==> Lacking(w, Dropped(bh, k), Shrink(t.cells[k].parent, k), Shrink(OnlyKid(t, k), k)))
  {
    var c, w := Cut(t, i + 1), WithRed(u, i, t.cells[i].red);
    forall j | 0 <= j < |c.cells| ensures RefilledAt(c, w, j) {
      assert RehighedAt(Transplanted(t, i), u, j);
    }
    RecolouredKeeps(u, w);
    CutColours(t, bh, i + 1, w);
  }
}
