/** Insertion's rotations, in both directions, seen as steps of its loop. */
module IntervalInsert {
  import opened IntervalCells
  import opened IntervalColours

  // The parent of the red node i is a left child.

  ghost function InnerPivotLeft(t: Tree, i: int): Pivot
    requires Has(t, i) && Has(t, t.cells[i].parent)
  {
    Pivot(t.cells[i].parent, i, t.cells[i].left, t.cells[t.cells[i].parent].parent)
  }

  lemma InsertInnerLeft(t: Tree, bh: seq<int>, i: int)
    requires Inserting(t, bh, i) && IsRed(t, t.cells[i].parent) && t.cells[t.cells[i].parent].right == i
    requires Has(t, t.cells[t.cells[i].parent].parent)
    requires t.cells[t.cells[t.cells[i].parent].parent].left == t.cells[i].parent
    ensures var v := InnerPivotLeft(t, i);
      && LeftPivot(t, v) && HighOk(t, v.x) && HighOk(t, v.y)
      && var w := LeftRotation(t, v);
        && Inserting(w, bh, v.x) && w.cells[v.x].parent == i && w.cells[i].left == v.x && w.cells[i].parent == v.p
        && IsRed(w, i) && Has(w, v.p)
        && w.cells[v.p].left == i && IsRed(w, w.cells[v.p].right) == IsRed(t, t.cells[v.p].right)
  {
    hide Highest, Blacks;
    var v := InnerPivotLeft(t, i);
    InsertFamily(t, bh, i);
    assert Slot(t, v.x) && Slot(t, v.y) && Slot(t, v.p);
    if v.b != None { assert Slot(t, v.b); }
    assert HighOk(t, v.x) && HighOk(t, v.y);
    var w := LeftRotation(t, v);
    LeftRotatedShape(t, w, v);
    LeftRotationTurns(t, v);
    assert LeftRotatedAt(t, w, v, v.x) && LeftRotatedAt(t, w, v, v.y) && LeftRotatedAt(t, w, v, v.p);
    var o := t.cells[v.p].right;
    if o != None { assert LeftRotatedAt(t, w, v, o); }
    InsertInner(t, bh, w, v, t.cells[v.x].left, t.cells[v.y].right);
  }

  ghost function OuterPivotLeft(t: Tree, i: int): Pivot
    requires Has(t, i) && Has(t, t.cells[i].parent) && Has(t, t.cells[t.cells[i].parent].parent)
  {
    var p := t.cells[i].parent;
    var g := t.cells[p].parent;
    Pivot(g, p, t.cells[p].right, t.cells[g].parent)
  }

  lemma InsertOuterLeft(t: Tree, bh: seq<int>, i: int)
    requires Inserting(t, bh, i) && IsRed(t, t.cells[i].parent) && t.cells[t.cells[i].parent].left == i
    requires Has(t, t.cells[t.cells[i].parent].parent)
    requires var g := t.cells[t.cells[i].parent].parent;
      t.cells[g].left == t.cells[i].parent && !IsRed(t, t.cells[g].right)
    ensures var v := OuterPivotLeft(t, i);
      var t1 := WithRed(WithRed(t, v.y, false), v.x, true);
      && RightPivot(t1, v) && HighOk(t1, v.x) && HighOk(t1, v.y)
      && var w := RightRotation(t1, v);
        Inserting(w, bh, i) && !IsRed(w, w.cells[i].parent)
  {
    hide Highest, Blacks;
    var v := OuterPivotLeft(t, i);
    var t1 := WithRed(WithRed(t, v.y, false), v.x, true);
    InsertFamily(t, bh, i);
    RecolouredKeeps(t, t1);
    assert Slot(t1, v.x) && Slot(t1, v.y);
    if v.b != None { assert Slot(t1, v.b); }
    if v.p != None { assert Slot(t1, v.p); }
    assert HighOk(t1, v.x) && HighOk(t1, v.y);
    var w := RightRotation(t1, v);
    RightRotatedShape(t1, w, v);
    RightRotationTurns(t1, v);
    assert RightRotatedAt(t1, w, v, i);
    InsertOuter(t, bh, i, t.cells[v.x].right, t1, w, v);
  }

  // The parent of the red node i is a right child.

  ghost function InnerPivotRight(t: Tree, i: int): Pivot
    requires Has(t, i) && Has(t, t.cells[i].parent)
  {
    Pivot(t.cells[i].parent, i, t.cells[i].right, t.cells[t.cells[i].parent].parent)
  }

  lemma InsertInnerRight(t: Tree, bh: seq<int>, i: int)
    requires Inserting(t, bh, i) && IsRed(t, t.cells[i].parent) && t.cells[t.cells[i].parent].left == i
    requires Has(t, t.cells[t.cells[i].parent].parent)
    requires t.cells[t.cells[t.cells[i].parent].parent].right == t.cells[i].parent
    ensures var v := InnerPivotRight(t, i);
      && RightPivot(t, v) && HighOk(t, v.x) && HighOk(t, v.y)
      && var w := RightRotation(t, v);
        && Inserting(w, bh, v.x) && w.cells[v.x].parent == i && w.cells[i].right == v.x && w.cells[i].parent == v.p
        && IsRed(w, i) && Has(w, v.p)
        && w.cells[v.p].right == i && IsRed(w, w.cells[v.p].left) == IsRed(t, t.cells[v.p].left)
  {
    hide Highest, Blacks;
    var v := InnerPivotRight(t, i);
    InsertFamily(t, bh, i);
    assert Slot(t, v.x) && Slot(t, v.y) && Slot(t, v.p);
    if v.b != None { assert Slot(t, v.b); }
    assert HighOk(t, v.x) && HighOk(t, v.y);
    var w := RightRotation(t, v);
    RightRotatedShape(t, w, v);
    RightRotationTurns(t, v);
    assert RightRotatedAt(t, w, v, v.x) && RightRotatedAt(t, w, v, v.y) && RightRotatedAt(t, w, v, v.p);
    var o := t.cells[v.p].left;
    if o != None { assert RightRotatedAt(t, w, v, o); }
    InsertInner(t, bh, w, v, t.cells[v.x].right, t.cells[v.y].left);
  }

  ghost function OuterPivotRight(t: Tree, i: int): Pivot
    requires Has(t, i) && Has(t, t.cells[i].parent) && Has(t, t.cells[t.cells[i].parent].parent)
  {
    var p := t.cells[i].parent;
    var g := t.cells[p].parent;
    Pivot(g, p, t.cells[p].left, t.cells[g].parent)
  }

  lemma InsertOuterRight(t: Tree, bh: seq<int>, i: int)
    requires Inserting(t, bh, i) && IsRed(t, t.cells[i].parent) && t.cells[t.cells[i].parent].right == i
    requires Has(t, t.cells[t.cells[i].parent].parent)
    requires var g := t.cells[t.cells[i].parent].parent;
      t.cells[g].right == t.cells[i].parent && !IsRed(t, t.cells[g].left)
    ensures var v := OuterPivotRight(t, i);
      var t1 := WithRed(WithRed(t, v.y, false), v.x, true);
      && LeftPivot(t1, v) && HighOk(t1, v.x) && HighOk(t1, v.y)
      && var w := LeftRotation(t1, v);
        Inserting(w, bh, i) && !IsRed(w, w.cells[i].parent)
  {
    hide Highest, Blacks;
    var v := OuterPivotRight(t, i);
    var t1 := WithRed(WithRed(t, v.y, false), v.x, true);
    InsertFamily(t, bh, i);
    RecolouredKeeps(t, t1);
    assert Slot(t1, v.x) && Slot(t1, v.y);
    if v.b != None { assert Slot(t1, v.b); }
    if v.p != None { assert Slot(t1, v.p); }
    assert HighOk(t1, v.x) && HighOk(t1, v.y);
    var w := LeftRotation(t1, v);
    LeftRotatedShape(t1, w, v);
    LeftRotationTurns(t1, v);
    assert LeftRotatedAt(t1, w, v, i);
    InsertOuter(t, bh, i, t.cells[v.x].left, t1, w, v);
  }
}
