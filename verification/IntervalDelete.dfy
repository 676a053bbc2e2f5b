/** Deletion's rotations, in both directions, seen as steps of its loop. */
module IntervalDelete {
  import opened IntervalCells
  import opened IntervalColours

  lemma TopIsParentless(t: Tree, p: int)
    requires Shape(t) && Has(t, p)
    ensures t.cells[p].parent == None <==> t.top == p
  {
    assert Slot(t, p) && Slot(t, t.top);
  }

  // The short side x is the left child of p.

  ghost predicate LackingLeft(t: Tree, bh: seq<int>, p: int, x: int) {
    Lacking(t, bh, p, x) && Has(t, p) && t.cells[p].left == x && !IsRed(t, x)
  }

  ghost function SiblingPivotLeft(t: Tree, p: int): Pivot
    requires Has(t, p) && Has(t, t.cells[p].right)
  {
    Pivot(p, t.cells[p].right, t.cells[t.cells[p].right].left, t.cells[p].parent)
  }

  ghost function SiblingReddened(t: Tree, p: int, w: int): Tree
    requires Has(t, p) && Has(t, w)
  {
    WithRed(WithRed(t, w, false), p, true)
  }

  lemma DeleteRedSiblingLeft(t: Tree, bh: seq<int>, p: int, x: int)
    requires LackingLeft(t, bh, p, x) && IsRed(t, t.cells[p].right)
    ensures var v := SiblingPivotLeft(t, p);
      var t1 := SiblingReddened(t, p, v.y);
      && LeftPivot(t1, v) && HighOk(t1, v.x) && HighOk(t1, v.y)
      && var t2 := LeftRotation(t1, v);
        && LackingLeft(t2, bh, p, x) && IsRed(t2, p) && !IsRed(t2, t2.cells[p].right)
        && t2.top == (if t.top == p then v.y else t.top)
  {
    hide Shape;
    var v := SiblingPivotLeft(t, p);
    var t1 := SiblingReddened(t, p, v.y);
    RecolouredKeeps(t, t1);
    assert Slot(t1, v.x) && Slot(t1, v.y);
    if v.b != None { assert Slot(t1, v.b); }
    if v.p != None { assert Slot(t1, v.p); }
    assert HighOk(t1, v.x) && HighOk(t1, v.y);
    var t2 := LeftRotation(t1, v);
    LeftRotatedShape(t1, t2, v);
    LeftRotationTurns(t1, v);
    LackingRedSibling(t, bh, x, t.cells[v.y].right, t1, t2, v);
    assert LeftRotatedAt(t1, t2, v, p);
    if x != None { assert LeftRotatedAt(t1, t2, v, x); }
    if v.p == None { TopIsParentless(t, p); }
  }

  ghost function NearPivotLeft(t: Tree, p: int): Pivot
    requires Has(t, p) && Has(t, t.cells[p].right) && Has(t, t.cells[t.cells[p].right].left)
  {
    var w := t.cells[p].right;
    Pivot(w, t.cells[w].left, t.cells[t.cells[w].left].right, p)
  }

  lemma DeleteNearRedLeft(t: Tree, bh: seq<int>, p: int, x: int)
    requires LackingLeft(t, bh, p, x) && Has(t, t.cells[p].right)
    requires var w := t.cells[p].right;
      !IsRed(t, w) && IsRed(t, t.cells[w].left) && !IsRed(t, t.cells[w].right)
    ensures var v := NearPivotLeft(t, p);
      var t1 := SiblingReddened(t, v.x, v.y);
      && RightPivot(t1, v) && HighOk(t1, v.x) && HighOk(t1, v.y)
      && var t2 := RightRotation(t1, v);
        && LackingLeft(t2, bh, p, x) && t2.cells[p].right == v.y && !IsRed(t2, v.y)
        && t2.cells[v.y].right == v.x && IsRed(t2, v.x)
        && t2.top == t.top && IsRed(t2, p) == IsRed(t, p)
  {
    hide Shape, Highest, Blacks;
    var v := NearPivotLeft(t, p);
    var t1 := SiblingReddened(t, v.x, v.y);
    RecolouredKeeps(t, t1);
    assert Slot(t1, p) && Slot(t1, v.x) && Slot(t1, v.y);
    if v.b != None { assert Slot(t1, v.b); }
    assert HighOk(t1, v.x) && HighOk(t1, v.y);
    var t2 := RightRotation(t1, v);
    RightRotatedShape(t1, t2, v);
    RightRotationTurns(t1, v);
    LackingNearRed(t, bh, p, x, t.cells[v.x].right, t.cells[v.y].left, t1, t2, v);
    assert RightRotatedAt(t1, t2, v, p) && RightRotatedAt(t1, t2, v, v.y) && RightRotatedAt(t1, t2, v, v.x);
    if x != None { assert RightRotatedAt(t1, t2, v, x); }
  }

  lemma FarPreparedLeft(t: Tree, bh: seq<int>, p: int, x: int)
    requires LackingLeft(t, bh, p, x) && Has(t, t.cells[p].right)
    requires Has(t, t.cells[t.cells[p].right].right)
    ensures var v := SiblingPivotLeft(t, p);
      var t1 := FarRecoloured(t, p, v.y, t.cells[v.y].right);
      Shape(t1) && Highs(t1) && LeftPivot(t1, v) && HighOk(t1, v.x) && HighOk(t1, v.y)
  {
    hide Blackness, Redness, BlackOk, RedOk, Highest;
    var v := SiblingPivotLeft(t, p);
    var t1 := FarRecoloured(t, p, v.y, t.cells[v.y].right);
    RecolouredKeeps(t, t1);
    assert Slot(t1, v.x) && Slot(t1, v.y);
    if v.b != None { assert Slot(t1, v.b); }
    if v.p != None { assert Slot(t1, v.p); }
    assert HighOk(t1, v.x) && HighOk(t1, v.y);
  }

  lemma DeleteFarRedLeft(t: Tree, bh: seq<int>, p: int, x: int)
    requires LackingLeft(t, bh, p, x) && Has(t, t.cells[p].right)
    requires var w := t.cells[p].right; !IsRed(t, w) && IsRed(t, t.cells[w].right)
    ensures var v := SiblingPivotLeft(t, p);
      var t1 := FarRecoloured(t, p, v.y, t.cells[v.y].right);
      && LeftPivot(t1, v) && HighOk(t1, v.x) && HighOk(t1, v.y)
      && var t2 := LeftRotation(t1, v);
        && Shape(t2) && Highs(t2) && Coloured(t2, bh[v.x := bh[v.x] - 1][v.y := bh[v.x]])
        && !IsRed(t2, p) && t2.top == (if t.top == p then v.y else t.top)
  {
    hide Highest, Blacks;
    var v := SiblingPivotLeft(t, p);
    var f := t.cells[v.y].right;
    var t1 := FarRecoloured(t, p, v.y, f);
    FarPreparedLeft(t, bh, p, x);
    var t2 := LeftRotation(t1, v);
    LeftRotatedShape(t1, t2, v);
    LeftRotationTurns(t1, v);
    LackingFarRed(t, bh, x, f, t1, t2, v);
    assert LeftRotatedAt(t1, t2, v, p);
    if v.p == None { TopIsParentless(t, p); }
  }

  // The short side x is the right child of p.

  ghost predicate LackingRight(t: Tree, bh: seq<int>, p: int, x: int) {
    Lacking(t, bh, p, x) && Has(t, p) && t.cells[p].right == x && !IsRed(t, x)
  }

  ghost function SiblingPivotRight(t: Tree, p: int): Pivot
    requires Has(t, p) && Has(t, t.cells[p].left)
  {
    Pivot(p, t.cells[p].left, t.cells[t.cells[p].left].right, t.cells[p].parent)
  }

  lemma DeleteRedSiblingRight(t: Tree, bh: seq<int>, p: int, x: int)
    requires LackingRight(t, bh, p, x) && IsRed(t, t.cells[p].left)
    ensures var v := SiblingPivotRight(t, p);
      var t1 := SiblingReddened(t, p, v.y);
      && RightPivot(t1, v) && HighOk(t1, v.x) && HighOk(t1, v.y)
      && var t2 := RightRotation(t1, v);
        && LackingRight(t2, bh, p, x) && IsRed(t2, p) && !IsRed(t2, t2.cells[p].left)
        && t2.top == (if t.top == p then v.y else t.top)
  {
    hide Shape;
    var v := SiblingPivotRight(t, p);
    var t1 := SiblingReddened(t, p, v.y);
    RecolouredKeeps(t, t1);
    assert Slot(t1, v.x) && Slot(t1, v.y);
    if v.b != None { assert Slot(t1, v.b); }
    if v.p != None { assert Slot(t1, v.p); }
    assert HighOk(t1, v.x) && HighOk(t1, v.y);
    var t2 := RightRotation(t1, v);
    RightRotatedShape(t1, t2, v);
    RightRotationTurns(t1, v);
    LackingRedSibling(t, bh, x, t.cells[v.y].left, t1, t2, v);
    assert RightRotatedAt(t1, t2, v, p);
    if x != None { assert RightRotatedAt(t1, t2, v, x); }
    if v.p == None { TopIsParentless(t, p); }
  }

  ghost function NearPivotRight(t: Tree, p: int): Pivot
    requires Has(t, p) && Has(t, t.cells[p].left) && Has(t, t.cells[t.cells[p].left].right)
  {
    var w := t.cells[p].left;
    Pivot(w, t.cells[w].right, t.cells[t.cells[w].right].left, p)
  }

  lemma DeleteNearRedRight(t: Tree, bh: seq<int>, p: int, x: int)
    requires LackingRight(t, bh, p, x) && Has(t, t.cells[p].left)
    requires var w := t.cells[p].left;
      !IsRed(t, w) && IsRed(t, t.cells[w].right) && !IsRed(t, t.cells[w].left)
    ensures var v := NearPivotRight(t, p);
      var t1 := SiblingReddened(t, v.x, v.y);
      && LeftPivot(t1, v) && HighOk(t1, v.x) && HighOk(t1, v.y)
      && var t2 := LeftRotation(t1, v);
        && LackingRight(t2, bh, p, x) && t2.cells[p].left == v.y && !IsRed(t2, v.y)
        && t2.cells[v.y].left == v.x && IsRed(t2, v.x)
        && t2.top == t.top && IsRed(t2, p) == IsRed(t, p)
  {
    hide Shape;
    var v := NearPivotRight(t, p);
    var t1 := SiblingReddened(t, v.x, v.y);
    RecolouredKeeps(t, t1);
    assert Slot(t1, p) && Slot(t1, v.x) && Slot(t1, v.y);
    if v.b != None { assert Slot(t1, v.b); }
    assert HighOk(t1, v.x) && HighOk(t1, v.y);
    var t2 := LeftRotation(t1, v);
    LeftRotatedShape(t1, t2, v);
    LeftRotationTurns(t1, v);
    LackingNearRed(t, bh, p, x, t.cells[v.x].left, t.cells[v.y].right, t1, t2, v);
    assert LeftRotatedAt(t1, t2, v, p) && LeftRotatedAt(t1, t2, v, v.y) && LeftRotatedAt(t1, t2, v, v.x);
    if x != None { assert LeftRotatedAt(t1, t2, v, x); }
  }

  lemma FarPreparedRight(t: Tree, bh: seq<int>, p: int, x: int)
    requires LackingRight(t, bh, p, x) && Has(t, t.cells[p].left)
    requires Has(t, t.cells[t.cells[p].left].left)
    ensures var v := SiblingPivotRight(t, p);
      var t1 := FarRecoloured(t, p, v.y, t.cells[v.y].left);
      Shape(t1) && Highs(t1) && RightPivot(t1, v) && HighOk(t1, v.x) && HighOk(t1, v.y)
  {
    hide Blackness, Redness, BlackOk, RedOk, Highest;
    var v := SiblingPivotRight(t, p);
    var t1 := FarRecoloured(t, p, v.y, t.cells[v.y].left);
    RecolouredKeeps(t, t1);
    assert Slot(t1, v.x) && Slot(t1, v.y);
    if v.b != None { assert Slot(t1, v.b); }
    if v.p != None { assert Slot(t1, v.p); }
    assert HighOk(t1, v.x) && HighOk(t1, v.y);
  }

  lemma DeleteFarRedRight(t: Tree, bh: seq<int>, p: int, x: int)
    requires LackingRight(t, bh, p, x) && Has(t, t.cells[p].left)
    requires var w := t.cells[p].left; !IsRed(t, w) && IsRed(t, t.cells[w].left)
    ensures var v := SiblingPivotRight(t, p);
      var t1 := FarRecoloured(t, p, v.y, t.cells[v.y].left);
      && RightPivot(t1, v) && HighOk(t1, v.x) && HighOk(t1, v.y)
      && var t2 := RightRotation(t1, v);
        && Shape(t2) && Highs(t2) && Coloured(t2, bh[v.x := bh[v.x] - 1][v.y := bh[v.x]])
        && !IsRed(t2, p) && t2.top == (if t.top == p then v.y else t.top)
  {
    hide Highest, Blacks;
    var v := SiblingPivotRight(t, p);
    var f := t.cells[v.y].left;
    var t1 := FarRecoloured(t, p, v.y, f);
    FarPreparedRight(t, bh, p, x);
    var t2 := RightRotation(t1, v);
    RightRotatedShape(t1, t2, v);
    RightRotationTurns(t1, v);
    LackingFarRed(t, bh, x, f, t1, t2, v);
    assert RightRotatedAt(t1, t2, v, p);
    if v.p == None { TopIsParentless(t, p); }
  }
}
