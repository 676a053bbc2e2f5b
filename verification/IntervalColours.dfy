/** Colours, black heights and maxHigh under rotation and recolouring.  A rotation is seen here
    without its direction (`Turned`), so each rebalancing case is argued once for both mirror
    images. */
module IntervalColours {
  import opened IntervalCells

  /** a and b are the two links of node i, in either order. */
  ghost predicate Kids(t: Tree, i: int, a: int, b: int) {
    Has(t, i) && ((t.cells[i].left == a && t.cells[i].right == b) || (t.cells[i].left == b && t.cells[i].right == a))
  }

  ghost predicate TurnedAt(t: Tree, t': Tree, v: Pivot, i: int)
    requires Has(t, i) && Has(t', i)
  {
    && t'.cells[i].red == t.cells[i].red
    && t'.cells[i].high == t.cells[i].high
    && (i != v.x && i != v.y ==>
          && t.cells[i].left != v.y && t.cells[i].right != v.y
          && t'.cells[i].left == (if t.cells[i].left == v.x then v.y else t.cells[i].left)
          && t'.cells[i].right == (if t.cells[i].right == v.x then v.y else t.cells[i].right)
          && t'.cells[i].maxHigh == t.cells[i].maxHigh)
  }

  /** v.x has moved below v.y: a stays with v.x, c with v.y, and v.b has changed hands. */
  ghost predicate Turned(t: Tree, t': Tree, v: Pivot, a: int, c: int) {
    && |t'.cells| == |t.cells|
    && v.x != v.y && a != v.x && a != v.y && c != v.x && c != v.y && v.b != v.x && v.b != v.y
    && Kids(t, v.x, a, v.y) && Kids(t, v.y, v.b, c)
    && Kids(t', v.x, a, v.b) && Kids(t', v.y, v.x, c)
    && t'.cells[v.x].maxHigh == LowerMax(t, v.x, a, v.b)
    && t'.cells[v.y].maxHigh == t.cells[v.x].maxHigh
    && forall i :: 0 <= i < |t.cells| ==> TurnedAt(t, t', v, i)
  }

  lemma LeftRotationTurns(t: Tree, v: Pivot)
    requires Shape(t) && LeftPivot(t, v)
    ensures Turned(t, LeftRotation(t, v), v, t.cells[v.x].left, t.cells[v.y].right)
  {
    var w := LeftRotation(t, v);
    assert LeftRotatedAt(t, w, v, v.x) && LeftRotatedAt(t, w, v, v.y);
    forall i | 0 <= i < |t.cells| ensures TurnedAt(t, w, v, i) {
      assert LeftRotatedAt(t, w, v, i);
      assert Slot(t, i);
    }
  }

  lemma RightRotationTurns(t: Tree, v: Pivot)
    requires Shape(t) && RightPivot(t, v)
    ensures Turned(t, RightRotation(t, v), v, t.cells[v.x].right, t.cells[v.y].left)
  {
    var w := RightRotation(t, v);
    assert RightRotatedAt(t, w, v, v.x) && RightRotatedAt(t, w, v, v.y);
    forall i | 0 <= i < |t.cells| ensures TurnedAt(t, w, v, i) {
      assert RightRotatedAt(t, w, v, i);
      assert Slot(t, i);
    }
  }

  // ------------------------------------------------------------------ maxHigh

  lemma TurnedHighAt(t: Tree, t': Tree, v: Pivot, a: int, c: int, i: int)
    requires Turned(t, t', v, a, c) && Has(t, i) && i != v.x && i != v.y && HighOk(t, i)
    ensures HighOk(t', i)
  {
    assert TurnedAt(t, t', v, i);
    var l, r := t.cells[i].left, t.cells[i].right;
    assert Has(t, l) ==> TurnedAt(t, t', v, l);
    assert Has(t, r) ==> TurnedAt(t, t', v, r);
  }

  lemma TurnedHighPivot(t: Tree, t': Tree, v: Pivot, a: int, c: int)
    requires Turned(t, t', v, a, c) && HighOk(t, v.x) && HighOk(t, v.y)
    ensures HighOk(t', v.x) && HighOk(t', v.y)
  {
    assert TurnedAt(t, t', v, v.x) && TurnedAt(t, t', v, v.y);
    assert Has(t, a) ==> TurnedAt(t, t', v, a);
    assert Has(t, c) ==> TurnedAt(t, t', v, c);
    assert Has(t, v.b) ==> TurnedAt(t, t', v, v.b);
    assert MaxHighAt(t', a) == MaxHighAt(t, a) && MaxHighAt(t', c) == MaxHighAt(t, c);
    assert MaxHighAt(t', v.b) == MaxHighAt(t, v.b);
  }

  lemma TurnedHighs(t: Tree, t': Tree, v: Pivot, a: int, c: int)
    requires Turned(t, t', v, a, c) && Highs(t)
    ensures Highs(t')
  {
    assert HighOk(t, v.x) && HighOk(t, v.y);
    TurnedHighPivot(t, t', v, a, c);
    forall i | 0 <= i < |t'.cells| ensures HighOk(t', i) {
      assert HighOk(t, i);
      if i != v.x && i != v.y { TurnedHighAt(t, t', v, a, c, i); }
    }
  }

  // ------------------------------------------------------------------ colours

  /** Away from the pivot pair nothing changes, provided the subtree as a whole weighs the same. */
  lemma TurnedBlackAt(t: Tree, t': Tree, v: Pivot, a: int, c: int, bh: seq<int>, bh': seq<int>, i: int)
    requires Turned(t, t', v, a, c) && Has(t, i) && i != v.x && i != v.y
    requires |bh| == |bh'| == |t.cells|
    requires forall j :: 0 <= j < |bh| && j != v.x && j != v.y ==> bh'[j] == bh[j]
    requires Blacks(t', bh', v.y) == Blacks(t, bh, v.x)
    ensures BlackOk(t, bh, i) <==> BlackOk(t', bh', i)
  {
    assert TurnedAt(t, t', v, i);
    var l, r := t.cells[i].left, t.cells[i].right;
    assert Has(t, l) ==> TurnedAt(t, t', v, l);
    assert Has(t, r) ==> TurnedAt(t, t', v, r);
  }

  lemma TurnedRedAt(t: Tree, t': Tree, v: Pivot, a: int, c: int, i: int)
    requires Turned(t, t', v, a, c) && Has(t, i) && i != v.x && i != v.y && RedOk(t, i)
    requires IsRed(t, v.y) && !IsRed(t, v.x) ==> t.cells[i].left != v.x && t.cells[i].right != v.x
    ensures RedOk(t', i)
  {
    assert TurnedAt(t, t', v, i) && TurnedAt(t, t', v, v.y);
    var l, r := t.cells[i].left, t.cells[i].right;
    assert Has(t, l) ==> TurnedAt(t, t', v, l);
    assert Has(t, r) ==> TurnedAt(t, t', v, r);
  }

  /** Only colours differ. */
  ghost predicate Recoloured(t: Tree, t': Tree) {
    && |t'.cells| == |t.cells|
    && t'.top == t.top
    && forall i :: 0 <= i < |t.cells| ==> RecolouredAt(t, t', i)
  }

  ghost predicate RecolouredAt(t: Tree, t': Tree, i: int)
    requires Has(t, i) && Has(t', i)
  {
    t'.cells[i] == t.cells[i].(red := t'.cells[i].red)
  }

  lemma RecolouredKeeps(t: Tree, t': Tree)
    requires Shape(t) && Highs(t) && Recoloured(t, t')
    ensures Shape(t') && Highs(t')
  {
    assert Has(t, t.top) ==> RecolouredAt(t, t', t.top);
    forall i | 0 <= i < |t'.cells| ensures Slot(t', i) && HighOk(t', i) {
      assert Slot(t, i) && HighOk(t, i);
      assert RecolouredAt(t, t', i);
      var c := t.cells[i];
      assert c.left != None ==> RecolouredAt(t, t', c.left);
      assert c.right != None ==> RecolouredAt(t, t', c.right);
      assert c.parent != None ==> RecolouredAt(t, t', c.parent);
    }
  }

  // ------------------------------------------------------------------ insertion

  /** The other link of node p. */
  ghost function Brother(t: Tree, p: int, x: int): int
    requires Has(t, p)
  {
    if t.cells[p].left == x then t.cells[p].right else t.cells[p].left
  }

  /** The loop of insert: node x is red, and only the link from its parent may join two red nodes. */
  ghost predicate Inserting(t: Tree, bh: seq<int>, x: int) {
    && Shape(t) && Highs(t)
    && Blackness(t, bh)
    && IsRed(t, x)
    && (forall i :: 0 <= i < |t.cells| && i != t.cells[x].parent ==> RedOk(t, i))
    && (IsRed(t, t.top) ==> t.top == x)
    && (var p := t.cells[x].parent; IsRed(t, p) ==> !IsRed(t, Brother(t, p, x)))
  }

  ghost function Flipped(t: Tree, p: int, u: int, g: int): Tree
    requires Has(t, p) && Has(t, u) && Has(t, g)
  {
    WithRed(WithRed(WithRed(t, p, false), u, false), g, true)
  }

  /** p and u are exactly the two children of g. */
  ghost predicate Family(t: Tree, g: int, p: int, u: int) {
    && Has(t, g) && Has(t, p) && Has(t, u) && p != u && g != p && g != u
    && Kids(t, g, p, u)
    && forall i :: 0 <= i < |t.cells| && i != g ==> Apart3(t, i, p, u)
  }

  ghost predicate Apart3(t: Tree, i: int, p: int, u: int)
    requires Has(t, i)
  {
    t.cells[i].left != p && t.cells[i].left != u && t.cells[i].right != p && t.cells[i].right != u
  }

  lemma FlippedBlackAt(t: Tree, bh: seq<int>, p: int, u: int, g: int, i: int)
    requires Family(t, g, p, u) && |bh| == |t.cells| && Has(t, i)
    requires IsRed(t, p) && IsRed(t, u) && !IsRed(t, g)
    requires BlackOk(t, bh, i)
    requires i == g || (t.cells[i].left != i && t.cells[i].right != i)
    requires t.cells[g].left != g && t.cells[g].right != g
    ensures BlackOk(Flipped(t, p, u, g), bh[g := bh[g] + 1], i)
  {
    assert i != g ==> Apart3(t, i, p, u);
  }

  lemma FlippedRedAt(t: Tree, p: int, u: int, g: int, i: int)
    requires Family(t, g, p, u) && Has(t, i)
    requires i == p || i == u || i == g || (RedOk(t, i) && t.cells[i].left != g && t.cells[i].right != g)
    ensures RedOk(Flipped(t, p, u, g), i)
  {
    assert i != g ==> Apart3(t, i, p, u);
  }

  lemma KidsAreFamily(t: Tree, g: int, p: int, u: int)
    requires Shape(t) && Has(t, g) && Kids(t, g, p, u) && Has(t, p) && Has(t, u)
    ensures Family(t, g, p, u)
    ensures t.cells[p].parent == g && t.cells[u].parent == g
    ensures t.cells[g].left != g && t.cells[g].right != g
  {
    assert Slot(t, g);
    forall i | 0 <= i < |t.cells| && i != g ensures Apart3(t, i, p, u) {
      assert Slot(t, i);
    }
  }

  lemma NoLoop(t: Tree, i: int)
    requires Shape(t) && Has(t, i)
    ensures t.cells[i].left != i && t.cells[i].right != i
  {
    assert Slot(t, i);
  }

  lemma FlippedBlack(t: Tree, bh: seq<int>, p: int, u: int, g: int)
    requires Shape(t) && Family(t, g, p, u) && Blackness(t, bh)
    requires IsRed(t, p) && IsRed(t, u) && !IsRed(t, g)
    ensures Blackness(Flipped(t, p, u, g), bh[g := bh[g] + 1])
  {
    var t', bh' := Flipped(t, p, u, g), bh[g := bh[g] + 1];
    NoLoop(t, g);
    forall i | 0 <= i < |t.cells| ensures BlackOk(t', bh', i) {
      assert BlackOk(t, bh, i);
      NoLoop(t, i);
      FlippedBlackAt(t, bh, p, u, g, i);
    }
  }

  /** Red parent p and red uncle u: both turn black, the grandparent g red, and g is next. */
  lemma InsertFlip(t: Tree, bh: seq<int>, x: int, p: int, u: int, g: int)
    requires Inserting(t, bh, x)
    requires p == t.cells[x].parent && IsRed(t, p) && Has(t, g) && g == t.cells[p].parent
    requires Kids(t, g, p, u) && IsRed(t, u)
    ensures Inserting(Flipped(t, p, u, g), bh[g := bh[g] + 1], g)
  {
    var t' := Flipped(t, p, u, g);
    KidsAreFamily(t, g, p, u);
    RecolouredKeeps(t, t');
    assert g != p && RedOk(t, g);
    FlippedBlack(t, bh, p, u, g);
    var q := t.cells[g].parent;
    forall i | 0 <= i < |t'.cells| && i != q ensures RedOk(t', i) {
      assert i != p ==> RedOk(t, i);
      KidParent(t, i, g);
      FlippedRedAt(t, p, u, g, i);
    }
    if Has(t, q) {
      UpNotDown(t, g);
      assert RedOk(t, q) && Apart3(t, q, p, u);
    }
  }

  lemma UpNotDown(t: Tree, g: int)
    requires Shape(t) && Has(t, g) && Has(t, t.cells[g].parent)
    ensures var q := t.cells[g].parent; q != g && q != t.cells[g].left && q != t.cells[g].right
    ensures Kids(t, t.cells[g].parent, g, Brother(t, t.cells[g].parent, g))
    ensures Brother(t, t.cells[g].parent, g) != g
  {
    assert Slot(t, g) && Slot(t, t.cells[g].parent);
  }

  lemma KidParent(t: Tree, i: int, k: int)
    requires Shape(t) && Has(t, i) && Has(t, k)
    ensures (t.cells[i].left == k || t.cells[i].right == k) ==> t.cells[k].parent == i
    ensures i != k || (t.cells[i].left != k && t.cells[i].right != k)
  {
    assert Slot(t, i);
  }

  /** The child x on the near side of a red parent, both red: after turning the parent below the
      child, the old parent is the lower of the two red nodes. */
  lemma InsertInner(t: Tree, bh: seq<int>, t': Tree, v: Pivot, a: int, c: int)
    requires Inserting(t, bh, v.y) && v.x == t.cells[v.y].parent && IsRed(t, v.x)
    requires Turned(t, t', v, a, c) && Shape(t')
    requires v.p == t.cells[v.x].parent && t'.cells[v.x].parent == v.y && t'.cells[v.y].parent == v.p
    requires t'.top == (if v.p == None then v.y else t.top)
    ensures Inserting(t', bh, v.x)
  {
    TurnedHighs(t, t', v, a, c);
    assert TurnedAt(t, t', v, v.x) && TurnedAt(t, t', v, v.y);
    assert BlackOk(t, bh, v.x) && BlackOk(t, bh, v.y) && RedOk(t, v.y);
    assert Has(t, a) ==> TurnedAt(t, t', v, a);
    assert Has(t, c) ==> TurnedAt(t, t', v, c);
    assert Has(t, v.b) ==> TurnedAt(t, t', v, v.b);
    assert Slot(t, v.x);
    assert Has(t, t.top) ==> TurnedAt(t, t', v, t.top);
    forall i | 0 <= i < |t'.cells| ensures BlackOk(t', bh, i) {
      assert BlackOk(t, bh, i);
      if i != v.x && i != v.y { TurnedBlackAt(t, t', v, a, c, bh, bh, i); }
    }
    forall i | 0 <= i < |t'.cells| && i != v.y ensures RedOk(t', i) {
      if i != v.x {
        assert RedOk(t, i);
        TurnedRedAt(t, t', v, a, c, i);
      }
    }
  }

  /** Recoloured to t1 and then turned to t2, the pair weighs and looks from above as before. */
  ghost predicate SameFromAbove(t: Tree, bh: seq<int>, bh2: seq<int>, t1: Tree, t2: Tree, v: Pivot, a: int, c: int) {
    && |t1.cells| == |t.cells| == |bh| == |bh2|
    && Turned(t1, t2, v, a, c) && Has(t, v.x)
    && Blacks(t2, bh2, v.y) == Blacks(t, bh, v.x)
    && IsRed(t2, v.y) == IsRed(t, v.x)
  }

  /** A link j of a node outside the pair leads to the same colour and weight after the turn. */
  lemma LinkOutside(t: Tree, bh: seq<int>, bh2: seq<int>, t1: Tree, t2: Tree, v: Pivot, a: int, c: int, j: int)
    requires SameFromAbove(t, bh, bh2, t1, t2, v, a, c)
    requires j != v.y && (Has(t, j) && j != v.x ==> t1.cells[j].red == t.cells[j].red && bh2[j] == bh[j])
    ensures var j' := if j == v.x then v.y else j;
      Blacks(t2, bh2, j') == Blacks(t, bh, j) && IsRed(t2, j') == IsRed(t, j)
  {
    assert Has(t, j) ==> TurnedAt(t1, t2, v, j);
  }

  lemma NodeOutside(t: Tree, bh: seq<int>, bh2: seq<int>, t1: Tree, t2: Tree, v: Pivot, a: int, c: int, i: int)
    requires SameFromAbove(t, bh, bh2, t1, t2, v, a, c)
    requires Has(t, i) && i != v.x && i != v.y && BlackOk(t, bh, i) && bh2[i] == bh[i]
    requires RecolouredAt(t, t1, i) && (t1.cells[i].red ==> t.cells[i].red)
    requires var l := t.cells[i].left; Has(t, l) && l != v.x ==> t1.cells[l].red == t.cells[l].red && bh2[l] == bh[l]
    requires var r := t.cells[i].right; Has(t, r) && r != v.x ==> t1.cells[r].red == t.cells[r].red && bh2[r] == bh[r]
    ensures BlackOk(t2, bh2, i)
    ensures RedOk(t, i) ==> RedOk(t2, i)
  {
    assert TurnedAt(t1, t2, v, i);
    LinkOutside(t, bh, bh2, t1, t2, v, a, c, t.cells[i].left);
    LinkOutside(t, bh, bh2, t1, t2, v, a, c, t.cells[i].right);
  }

  /** Parent p = v.y recoloured black and grandparent g = v.x red, then turned: no red node is left
      with a red child.  u is the black uncle, x the red child. */
  lemma InsertOuter(t: Tree, bh: seq<int>, x: int, u: int, t1: Tree, t2: Tree, v: Pivot)
    requires Inserting(t, bh, x) && v.y == t.cells[x].parent && IsRed(t, v.y)
    requires Has(t, v.x) && !IsRed(t, u)
    requires t1 == WithRed(WithRed(t, v.y, false), v.x, true)
    requires Turned(t1, t2, v, u, x) && Shape(t2)
    requires t2.cells[x].parent == v.y && t.cells[v.y].parent == v.x && v.p == t.cells[v.x].parent
    requires t2.top == (if v.p == None then v.y else t.top)
    ensures Inserting(t2, bh, x) && !IsRed(t2, v.y)
  {
    RecolouredKeeps(t, t1);
    TurnedHighs(t1, t2, v, u, x);
    assert TurnedAt(t1, t2, v, v.x) && TurnedAt(t1, t2, v, v.y) && TurnedAt(t1, t2, v, x);
    assert BlackOk(t, bh, v.x) && BlackOk(t, bh, v.y) && RedOk(t, v.x);
    assert Has(t, u) ==> TurnedAt(t1, t2, v, u);
    assert Has(t, v.b) ==> TurnedAt(t1, t2, v, v.b);
    assert Has(t, t.top) ==> TurnedAt(t1, t2, v, t.top);
    SwappedPair(t, bh, t1, t2, v, u, x);
    forall i | 0 <= i < |t2.cells| ensures BlackOk(t2, bh, i) && (i != v.y ==> RedOk(t2, i)) {
      assert BlackOk(t, bh, i) && (i != v.y ==> RedOk(t, i));
      if i != v.x && i != v.y { SwappedOutside(t, bh, t1, t2, v, u, x, i); }
    }
  }

  /** Once x has a black parent, blackening the top finishes the insertion. */
  lemma InsertDone(t: Tree, bh: seq<int>, x: int)
    requires Inserting(t, bh, x) && !IsRed(t, t.cells[x].parent)
    ensures Has(t, t.top)
    ensures var t' := WithRed(t, t.top, false); Shape(t') && Highs(t') && Coloured(t', bh)
  {
    var t' := WithRed(t, t.top, false);
    assert Slot(t, t.top);
    RecolouredKeeps(t, t');
    forall i | 0 <= i < |t'.cells| ensures BlackOk(t', bh, i) && RedOk(t', i) {
      assert BlackOk(t, bh, i);
      KidParent(t, i, t.top);
      assert i != t.cells[x].parent ==> RedOk(t, i);
    }
  }

  // ------------------------------------------------------------------ deletion

  /** The loop of deleteFixup: the paths through x, a child of p, hold one black node too few.
      x may be `nil`; at the top (p == None) nothing is missing. */
  ghost predicate Lacking(t: Tree, bh: seq<int>, p: int, x: int) {
    && Shape(t) && Highs(t) && |bh| == |t.cells|
    && (forall i :: 0 <= i < |t.cells| && i != p ==> BlackOk(t, bh, i))
    && (forall i :: 0 <= i < |t.cells| && i != p && i != x ==> RedOk(t, i))
    && (IsRed(t, t.top) ==> t.top == x)
    && (x == None || Has(t, x))
    && if Has(t, p) then LackingAt(t, bh, p, x) else p == None && x == t.top
  }

  ghost predicate LackingAt(t: Tree, bh: seq<int>, p: int, x: int)
    requires Has(t, p) && |bh| == |t.cells|
  {
    var w := Brother(t, p, x);
    && Kids(t, p, x, w) && x != w
    && 0 <= Blacks(t, bh, x)
    && Blacks(t, bh, x) + 1 == bh[p] == Blacks(t, bh, w)
    && (IsRed(t, p) ==> !IsRed(t, w))
  }

  /** A red x, or x at the top, is blackened and the debt is paid. */
  lemma LackingPaid(t: Tree, bh: seq<int>, p: int, x: int)
    requires Lacking(t, bh, p, x) && (IsRed(t, x) || x == t.top)
    ensures var t' := if Has(t, x) then WithRed(t, x, false) else t;
      Shape(t') && Highs(t') && Coloured(t', bh)
  {
    var t' := if Has(t, x) then WithRed(t, x, false) else t;
    RecolouredKeeps(t, t');
    if Has(t, t.top) { assert Slot(t, t.top); }
    forall i | 0 <= i < |t'.cells| ensures BlackOk(t', bh, i) && RedOk(t', i) {
      if Has(t, x) { KidParent(t, i, x); if Has(t, p) { KidParent(t, p, x); } }
      assert i != p ==> BlackOk(t, bh, i);
      assert i != p && i != x ==> RedOk(t, i);
    }
  }

  /** The sibling of a short side is a node, and so are its children once it is red. */
  lemma SiblingExists(t: Tree, bh: seq<int>, p: int, x: int)
    requires Lacking(t, bh, p, x) && Has(t, p)
    ensures var w := Brother(t, p, x);
      && Has(t, w) && w != p && t.cells[w].parent == p
      && (IsRed(t, w) ==> Has(t, t.cells[w].left) && Has(t, t.cells[w].right) && !IsRed(t, p))
  {
    var w := Brother(t, p, x);
    assert Slot(t, p);
    assert BlackOk(t, bh, w) && Slot(t, w);
  }

  /** Red sibling w = v.y: recolour and turn p = v.x below it; the short side is still below p. */
  lemma LackingRedSibling(t: Tree, bh: seq<int>, x: int, c: int, t1: Tree, t2: Tree, v: Pivot)
    requires Lacking(t, bh, v.x, x) && Has(t, v.x) && v.y == Brother(t, v.x, x) && IsRed(t, v.y)
    requires !IsRed(t, x)
    requires t1 == WithRed(WithRed(t, v.y, false), v.x, true)
    requires Turned(t1, t2, v, x, c) && Shape(t2)
    requires v.p == t.cells[v.x].parent && t2.top == (if v.p == None then v.y else t.top)
    ensures Lacking(t2, bh, v.x, x)
    ensures IsRed(t2, v.x) && !IsRed(t2, Brother(t2, v.x, x))
  {
    RecolouredKeeps(t, t1);
    TurnedHighs(t1, t2, v, x, c);
    SiblingExists(t, bh, v.x, x);
    assert TurnedAt(t1, t2, v, v.x) && TurnedAt(t1, t2, v, v.y);
    assert BlackOk(t, bh, v.y) && RedOk(t, v.y);
    assert Has(t, x) ==> TurnedAt(t1, t2, v, x);
    assert Has(t, c) ==> TurnedAt(t1, t2, v, c);
    assert Has(t, v.b) ==> TurnedAt(t1, t2, v, v.b);
    assert Has(t, t.top) ==> TurnedAt(t1, t2, v, t.top);
    SwappedPair(t, bh, t1, t2, v, x, c);
    forall i | 0 <= i < |t2.cells| && i != v.x ensures BlackOk(t2, bh, i) && (i != x ==> RedOk(t2, i)) {
      assert BlackOk(t, bh, i) && (i != x ==> RedOk(t, i));
      if i != v.y { SwappedOutside(t, bh, t1, t2, v, x, c, i); }
    }
  }

  /** Every node but the one above sees equal numbers of black nodes. */
  lemma PassUpAt(t: Tree, bh: seq<int>, p: int, x: int, w: int, i: int)
    requires Lacking(t, bh, p, x) && Has(t, p) && w == Brother(t, p, x) && Has(t, w)
    requires !IsRed(t, x) && !IsRed(t, w) && !IsRed(t, t.cells[w].left) && !IsRed(t, t.cells[w].right)
    requires Has(t, i) && i != t.cells[p].parent
    ensures var t', bh' := WithRed(t, w, true), bh[p := bh[p] - 1];
      BlackOk(t', bh', i) && (i != p ==> RedOk(t', i))
  {
    hide Highs, Highest;
    SiblingExists(t, bh, p, x);
    NoLoop(t, w);
    KidParent(t, i, p);
    KidParent(t, i, w);
    if i != p { assert BlackOk(t, bh, i) && (i != x ==> RedOk(t, i)); }
  }

  /** Black sibling with two black children: it turns red and the debt moves up to p. */
  lemma LackingPassUp(t: Tree, bh: seq<int>, p: int, x: int, w: int)
    requires Lacking(t, bh, p, x) && Has(t, p) && w == Brother(t, p, x) && Has(t, w)
    requires !IsRed(t, x) && !IsRed(t, w) && !IsRed(t, t.cells[w].left) && !IsRed(t, t.cells[w].right)
    ensures Lacking(WithRed(t, w, true), bh[p := bh[p] - 1], t.cells[p].parent, p)
  {
    var t', bh' := WithRed(t, w, true), bh[p := bh[p] - 1];
    RecolouredKeeps(t, t');
    SiblingExists(t, bh, p, x);
    assert Slot(t, p);
    var q := t.cells[p].parent;
    NoLoop(t, w);
    if Has(t, t.top) { assert Slot(t, t.top); }
    forall i | 0 <= i < |t'.cells| && i != q ensures BlackOk(t', bh', i) && (i != p ==> RedOk(t', i)) {
      PassUpAt(t, bh, p, x, w, i);
    }
    if Has(t, q) {
      UpNotDown(t, p);
      assert BlackOk(t, bh, q);
      assert q != x && RedOk(t, q);
      KidParent(t, q, w);
    }
  }

  /** Around the node that is short of a black one. */
  lemma NearRedAt(t: Tree, bh: seq<int>, p: int, x: int, f: int, c: int, t1: Tree, t2: Tree, v: Pivot)
    requires Lacking(t, bh, p, x) && Has(t, p) && v.x == Brother(t, p, x) && Has(t, v.x)
    requires !IsRed(t, x) && !IsRed(t, v.x) && IsRed(t, v.y) && !IsRed(t, f)
    requires t1 == WithRed(WithRed(t, v.y, false), v.x, true)
    requires Turned(t1, t2, v, f, c) && Shape(t2)
    requires v.p == t.cells[v.x].parent && t2.top == (if v.p == None then v.y else t.top)
    requires x != v.y
    ensures Has(t2, p) && LackingAt(t2, bh, p, x) && (IsRed(t2, t2.top) ==> t2.top == x)
    ensures Brother(t2, p, x) == v.y && !IsRed(t2, v.y) && IsRed(t2, v.x) && Kids(t2, v.y, v.x, c)
  {
    hide Highs, Highest;
    RecolouredKeeps(t, t1);
    SiblingExists(t, bh, p, x);
    assert TurnedAt(t1, t2, v, v.x) && TurnedAt(t1, t2, v, v.y) && TurnedAt(t1, t2, v, p);
    assert BlackOk(t, bh, v.x) && BlackOk(t, bh, v.y) && RedOk(t, v.y) && RedOk(t, v.x);
    assert Has(t, x) ==> TurnedAt(t1, t2, v, x);
    assert Has(t, c) ==> TurnedAt(t1, t2, v, c);
    assert Has(t, f) ==> TurnedAt(t1, t2, v, f);
    assert Has(t, v.b) ==> TurnedAt(t1, t2, v, v.b);
    assert Has(t, t.top) ==> TurnedAt(t1, t2, v, t.top);
  }

  /** Black sibling w = v.x with a red near child v.y and a black far child f: after turning w below
      the near child, the new sibling is black and its far child red. */
  lemma LackingNearRed(t: Tree, bh: seq<int>, p: int, x: int, f: int, c: int, t1: Tree, t2: Tree, v: Pivot)
    requires Lacking(t, bh, p, x) && Has(t, p) && v.x == Brother(t, p, x) && Has(t, v.x)
    requires !IsRed(t, x) && !IsRed(t, v.x) && IsRed(t, v.y) && !IsRed(t, f)
    requires t1 == WithRed(WithRed(t, v.y, false), v.x, true)
    requires Turned(t1, t2, v, f, c) && Shape(t2)
    requires v.p == t.cells[v.x].parent && t2.top == (if v.p == None then v.y else t.top)
    requires x != v.y
    ensures Lacking(t2, bh, p, x)
    ensures Brother(t2, p, x) == v.y && !IsRed(t2, v.y) && IsRed(t2, v.x) && Kids(t2, v.y, v.x, c)
  {
    RecolouredKeeps(t, t1);
    TurnedHighs(t1, t2, v, f, c);
    SiblingExists(t, bh, p, x);
    NearRedAt(t, bh, p, x, f, c, t1, t2, v);
    LackingNearRedRest(t, bh, p, x, f, c, t1, t2, v);
  }

  lemma LackingNearRedRest(t: Tree, bh: seq<int>, p: int, x: int, f: int, c: int, t1: Tree, t2: Tree, v: Pivot)
    requires Lacking(t, bh, p, x) && Has(t, v.x)
    requires t.cells[v.x].parent == p && p != v.x && p != v.y && x != v.x && x != v.y
    requires !IsRed(t, v.x) && IsRed(t, v.y) && !IsRed(t, f)
    requires t1 == WithRed(WithRed(t, v.y, false), v.x, true)
    requires Turned(t1, t2, v, f, c)
    ensures forall i :: 0 <= i < |t2.cells| && i != p ==> BlackOk(t2, bh, i)
    ensures forall i :: 0 <= i < |t2.cells| && i != p && i != x ==> RedOk(t2, i)
  {
    assert BlackOk(t, bh, v.x) && BlackOk(t, bh, v.y) && RedOk(t, v.y) && RedOk(t, v.x);
    SwappedPair(t, bh, t1, t2, v, f, c);
    forall i | 0 <= i < |t2.cells| && i != p ensures BlackOk(t2, bh, i) && (i != x ==> RedOk(t2, i)) {
      assert BlackOk(t, bh, i) && (i != x ==> RedOk(t, i));
      if i != v.x && i != v.y { SwappedOutside(t, bh, t1, t2, v, f, c, i); }
    }
  }

  /** A black v.x above a red v.y: the two exchange colours and v.x is turned below v.y. */
  lemma SwappedPair(t: Tree, bh: seq<int>, t1: Tree, t2: Tree, v: Pivot, a: int, c: int)
    requires |bh| == |t.cells| && Has(t, v.x) && IsRed(t, v.y) && !IsRed(t, v.x)
    requires t1 == WithRed(WithRed(t, v.y, false), v.x, true)
    requires Turned(t1, t2, v, a, c)
    requires BlackOk(t, bh, v.y) && Blacks(t, bh, v.y) == bh[v.x]
    ensures SameFromAbove(t, bh, bh, t1, t2, v, a, c)
    ensures BlackOk(t2, bh, v.y)
    ensures Blacks(t, bh, a) == bh[v.x] ==> BlackOk(t2, bh, v.x)
    ensures !IsRed(t, a) && !IsRed(t, v.b) ==> RedOk(t2, v.x)
    ensures RedOk(t2, v.y)
  {
    assert TurnedAt(t1, t2, v, v.x) && TurnedAt(t1, t2, v, v.y);
    UntouchedLink(t, bh, bh, t1, t2, v, a, c, a);
    UntouchedLink(t, bh, bh, t1, t2, v, a, c, c);
    UntouchedLink(t, bh, bh, t1, t2, v, a, c, v.b);
  }

  /** A link to a node that was not recoloured and is not one of the pair. */
  lemma UntouchedLink(t: Tree, bh: seq<int>, bh2: seq<int>, t1: Tree, t2: Tree, v: Pivot, a: int, c: int, j: int)
    requires Turned(t1, t2, v, a, c) && |t1.cells| == |t.cells| == |bh| == |bh2|
    requires j != v.x && j != v.y && (Has(t, j) ==> t1.cells[j].red == t.cells[j].red && bh2[j] == bh[j])
    ensures Blacks(t2, bh2, j) == Blacks(t, bh, j) && IsRed(t2, j) == IsRed(t, j)
  {
    assert Has(t, j) ==> TurnedAt(t1, t2, v, j);
  }

  lemma SwappedOutside(t: Tree, bh: seq<int>, t1: Tree, t2: Tree, v: Pivot, a: int, c: int, i: int)
    requires Shape(t) && Has(t, v.y) && SameFromAbove(t, bh, bh, t1, t2, v, a, c)
    requires t1 == WithRed(WithRed(t, v.y, false), v.x, true)
    requires Has(t, i) && i != v.x && i != v.y && BlackOk(t, bh, i)
    ensures BlackOk(t2, bh, i)
    ensures RedOk(t, i) ==> RedOk(t2, i)
  {
    KidParent(t, i, v.y);
    KidParent(t, v.x, v.y);
    assert TurnedAt(t1, t2, v, i);
    NodeOutside(t, bh, bh, t1, t2, v, a, c, i);
  }

  ghost function FarRecoloured(t: Tree, p: int, w: int, f: int): Tree
    requires Has(t, p) && Has(t, w) && Has(t, f)
  {
    WithRed(WithRed(WithRed(t, w, t.cells[p].red), p, false), f, false)
  }

  /** Black sibling w = v.y with a red far child f: w takes p's colour and place, p and f turn
      black, and nothing is missing any more. */
  lemma LackingFarRed(t: Tree, bh: seq<int>, x: int, f: int, t1: Tree, t2: Tree, v: Pivot)
    requires Lacking(t, bh, v.x, x) && Has(t, v.x) && v.y == Brother(t, v.x, x) && Has(t, v.y)
    requires !IsRed(t, x) && !IsRed(t, v.y) && IsRed(t, f)
    requires t1 == FarRecoloured(t, v.x, v.y, f)
    requires Turned(t1, t2, v, x, f) && Shape(t2) && f != v.b
    requires v.p == t.cells[v.x].parent && t2.top == (if v.p == None then v.y else t.top)
    ensures Highs(t2)
    ensures Coloured(t2, bh[v.x := bh[v.x] - 1][v.y := bh[v.x]])
  {
    hide Highs, Highest;
    var bh2 := bh[v.x := bh[v.x] - 1][v.y := bh[v.x]];
    RecolouredKeeps(t, t1);
    TurnedHighs(t1, t2, v, x, f);
    SiblingExists(t, bh, v.x, x);
    assert Has(t, t.top) ==> TurnedAt(t1, t2, v, t.top);
    assert TurnedAt(t1, t2, v, v.y);
    assert Slot(t, v.x);
    LackingFarRedPivot(t, bh, bh2, x, f, t1, t2, v);
    forall i | 0 <= i < |t2.cells| ensures BlackOk(t2, bh2, i) && RedOk(t2, i) {
      if i == v.x || i == v.y {
      } else {
        assert BlackOk(t, bh, i) && (i != x ==> RedOk(t, i));
        LackingFarRedRest(t, bh, bh2, x, f, t1, t2, v, i);
      }
    }
  }

  lemma LackingFarRedPivot(t: Tree, bh: seq<int>, bh2: seq<int>, x: int, f: int, t1: Tree, t2: Tree, v: Pivot)
    requires Lacking(t, bh, v.x, x) && Has(t, v.x) && v.y == Brother(t, v.x, x) && Has(t, v.y)
    requires !IsRed(t, x) && !IsRed(t, v.y) && IsRed(t, f)
    requires t1 == FarRecoloured(t, v.x, v.y, f)
    requires Turned(t1, t2, v, x, f) && f != v.b
    requires bh2 == bh[v.x := bh[v.x] - 1][v.y := bh[v.x]]
    ensures BlackOk(t2, bh2, v.x) && BlackOk(t2, bh2, v.y)
    ensures RedOk(t2, v.x) && RedOk(t2, v.y)
    ensures SameFromAbove(t, bh, bh2, t1, t2, v, x, f)
  {
    assert TurnedAt(t1, t2, v, v.x) && TurnedAt(t1, t2, v, v.y) && TurnedAt(t1, t2, v, f);
    assert BlackOk(t, bh, v.y);
    UntouchedLink(t, bh, bh2, t1, t2, v, x, f, x);
    UntouchedLink(t, bh, bh2, t1, t2, v, x, f, v.b);
  }

  lemma LackingFarRedRest(t: Tree, bh: seq<int>, bh2: seq<int>, x: int, f: int, t1: Tree, t2: Tree, v: Pivot, i: int)
    requires Shape(t) && |bh| == |t.cells| && Has(t, v.x) && Has(t, v.y) && Has(t, f) && !IsRed(t, x)
    requires t1 == FarRecoloured(t, v.x, v.y, f) && bh2 == bh[v.x := bh[v.x] - 1][v.y := bh[v.x]]
    requires SameFromAbove(t, bh, bh2, t1, t2, v, x, f)
    requires Has(t, i) && i != v.x && i != v.y && BlackOk(t, bh, i) && (i != x ==> RedOk(t, i))
    ensures BlackOk(t2, bh2, i) && RedOk(t2, i)
  {
    KidParent(t, i, f);
    KidParent(t, v.y, f);
    KidParent(t, i, v.y);
    KidParent(t, v.x, v.y);
    assert TurnedAt(t1, t2, v, i);
    NodeOutside(t, bh, bh2, t1, t2, v, x, f, i);
  }

  /** A red node with a red parent has a grandparent, which is black. */
  lemma InsertFamily(t: Tree, bh: seq<int>, x: int)
    requires Inserting(t, bh, x) && IsRed(t, t.cells[x].parent)
    ensures var p := t.cells[x].parent; var g := t.cells[p].parent;
      && Has(t, g) && !IsRed(t, g) && p != x && g != p && g != x
      && (t.cells[g].left == p || t.cells[g].right == p) && t.cells[g].left != t.cells[g].right
      && (t.cells[p].left == x || t.cells[p].right == x) && t.cells[p].left != t.cells[p].right
      && Slotted(t, g) && Slotted(t, p)
      && t.cells[g].hi - t.cells[g].lo > t.cells[x].hi - t.cells[x].lo
      && t.cells[g].hi - t.cells[g].lo <= |t.cells|
  {
    var p := t.cells[x].parent;
    assert Slot(t, x) && Slot(t, p) && Slot(t, t.top);
    var g := t.cells[p].parent;
    assert Slot(t, g) && RedOk(t, g);
    UpNotDown(t, p);
    UpNotDown(t, x);
  }
}
