/** The interval tree as a value: its nodes numbered in key order.

    A node is named by its position in the in-order sequence of nodes, so the links of a node are
    numbers, and `None` stands for the `nil` sentinel below and the `root` sentinel above.
    The subtree of node i occupies the positions [lo, hi).  Rotations change neither the numbering
    nor any key: what they change is who links to whom.  Every invariant is a conjunction over i
    of a predicate that only looks at node i and its neighbours. */
module IntervalCells {

  const MAX_TIME: int := 0x7FFF_FFFF_FFFF_FFFF

  const None: int := -1

  datatype Cell = Cell(left: int, right: int, parent: int, red: bool, key: int, high: int, maxHigh: int,
                       lo: int, hi: int)

  datatype Tree = Tree(cells: seq<Cell>, top: int)

  ghost predicate Has(t: Tree, i: int) {
    0 <= i < |t.cells|
  }

  // ------------------------------------------------------------------ invariants

  ghost predicate LeftSlot(t: Tree, i: int)
    requires Has(t, i)
  {
    var c := t.cells[i];
    if c.left == None then c.lo == i
    else
      && 0 <= c.left < i
      && t.cells[c.left].lo == c.lo
      && t.cells[c.left].hi == i
      && t.cells[c.left].parent == i
  }

  ghost predicate RightSlot(t: Tree, i: int)
    requires Has(t, i)
  {
    var c := t.cells[i];
    if c.right == None then c.hi == i + 1
    else
      && i < c.right < |t.cells|
      && t.cells[c.right].lo == i + 1
      && t.cells[c.right].hi == c.hi
      && t.cells[c.right].parent == i
  }

  ghost predicate ParentSlot(t: Tree, i: int)
    requires Has(t, i)
  {
    var p := t.cells[i].parent;
    if p == None then t.top == i
    else Has(t, p) && (t.cells[p].left == i || t.cells[p].right == i)
  }

  ghost predicate Slot(t: Tree, i: int)
    requires Has(t, i)
  {
    && 0 <= t.cells[i].lo <= i < t.cells[i].hi <= |t.cells|
    && LeftSlot(t, i)
    && RightSlot(t, i)
    && ParentSlot(t, i)
  }

  ghost predicate TopSlot(t: Tree) {
    if |t.cells| == 0 then t.top == None
    else
      && Has(t, t.top)
      && t.cells[t.top].lo == 0
      && t.cells[t.top].hi == |t.cells|
      && t.cells[t.top].parent == None
  }

  /** The links form one binary tree over all positions. */
  ghost predicate Shape(t: Tree) {
    && TopSlot(t)
    && forall i :: 0 <= i < |t.cells| ==> Slot(t, i)
  }

  function Max(a: int, b: int): int {
    if a < b then b else a
  }

  ghost function MaxHighAt(t: Tree, j: int): int {
    if Has(t, j) then t.cells[j].maxHigh else -MAX_TIME
  }

  ghost function Highest(t: Tree, i: int): int
    requires Has(t, i)
  {
    var c := t.cells[i];
    Max(c.high, Max(MaxHighAt(t, c.left), MaxHighAt(t, c.right)))
  }

  ghost predicate HighOk(t: Tree, i: int)
    requires Has(t, i)
  {
    t.cells[i].maxHigh == Highest(t, i)
  }

  /** Both links of node i lead to nodes or to `nil`. */
  ghost predicate Slotted(t: Tree, i: int)
    requires Has(t, i)
  {
    && (t.cells[i].left == None || Has(t, t.cells[i].left))
    && (t.cells[i].right == None || Has(t, t.cells[i].right))
  }

  /** Every node's maxHigh is the maximum of its own high and its children's maxHigh. */
  ghost predicate Highs(t: Tree) {
    forall i :: 0 <= i < |t.cells| ==> HighOk(t, i)
  }

  ghost predicate IsRed(t: Tree, j: int) {
    Has(t, j) && t.cells[j].red
  }

  /** Black nodes on a path down from position j, j included; `bh` leaves the node itself out. */
  ghost function Blacks(t: Tree, bh: seq<int>, j: int): int
    requires |bh| == |t.cells|
  {
    if Has(t, j) then bh[j] + (if t.cells[j].red then 0 else 1) else 0
  }

  ghost predicate BlackOk(t: Tree, bh: seq<int>, i: int)
    requires |bh| == |t.cells| && Has(t, i)
  {
    Blacks(t, bh, t.cells[i].left) == bh[i] == Blacks(t, bh, t.cells[i].right) && 0 <= bh[i]
  }

  ghost predicate RedOk(t: Tree, i: int)
    requires Has(t, i)
  {
    t.cells[i].red ==> !IsRed(t, t.cells[i].left) && !IsRed(t, t.cells[i].right)
  }

  ghost predicate Blackness(t: Tree, bh: seq<int>) {
    |bh| == |t.cells| && forall i :: 0 <= i < |t.cells| ==> BlackOk(t, bh, i)
  }

  ghost predicate Redness(t: Tree) {
    forall i :: 0 <= i < |t.cells| ==> RedOk(t, i)
  }

  /** Red-black colouring, with `bh` as the witness for equal black heights. */
  ghost predicate Coloured(t: Tree, bh: seq<int>) {
    && Blackness(t, bh)
    && Redness(t)
    && !IsRed(t, t.top)
  }

  // ------------------------------------------------------------------ elementary changes

  ghost function WithLeft(t: Tree, i: int, v: int): Tree {
    if Has(t, i) then t.(cells := t.cells[i := t.cells[i].(left := v)]) else t.(top := v)
  }

  ghost function WithRight(t: Tree, i: int, v: int): Tree
    requires Has(t, i)
  {
    t.(cells := t.cells[i := t.cells[i].(right := v)])
  }

  ghost function WithParent(t: Tree, i: int, v: int): Tree
    requires Has(t, i)
  {
    t.(cells := t.cells[i := t.cells[i].(parent := v)])
  }

  ghost function WithRed(t: Tree, i: int, v: bool): Tree
    requires Has(t, i)
  {
    t.(cells := t.cells[i := t.cells[i].(red := v)])
  }

  ghost function WithMaxHigh(t: Tree, i: int, v: int): Tree
    requires Has(t, i)
  {
    t.(cells := t.cells[i := t.cells[i].(maxHigh := v)])
  }

  /** Puts c where x was below node p, or at the top. */
  ghost function Replaced(t: Tree, p: int, x: int, c: int): Tree {
    if Has(t, p) && t.cells[p].left != x then WithRight(t, p, c) else WithLeft(t, p, c)
  }

  ghost predicate Apart(t: Tree, v: Pivot) {
    && Has(t, v.x) && Has(t, v.y) && v.x != v.y
    && v.p == t.cells[v.x].parent
    && v.p != v.x && v.p != v.y
    && v.b != v.x && v.b != v.y
    && (v.b == None || (Has(t, v.b) && v.b != v.p))
    && (if v.p == None then t.top == v.x else Has(t, v.p) && Slotted(t, v.p))
  }

  ghost predicate LeftLinks(t: Tree, v: Pivot) {
    Apart(t, v) && v.y == t.cells[v.x].right && v.b == t.cells[v.y].left
  }

  ghost predicate RightLinks(t: Tree, v: Pivot) {
    Apart(t, v) && v.y == t.cells[v.x].left && v.b == t.cells[v.y].right
  }

  /** The links a left rotation leaves, in the order it writes them. */
  ghost function LeftRelinked(t: Tree, v: Pivot): Tree
    requires LeftLinks(t, v)
  {
    var t1 := WithRight(t, v.x, v.b);
    var t2 := if v.b != None then WithParent(t1, v.b, v.x) else t1;
    var t3 := WithParent(t2, v.y, v.p);
    var t4 := Replaced(t3, v.p, v.x, v.y);
    WithParent(WithLeft(t4, v.y, v.x), v.x, v.y)
  }
  /** The links a right rotation leaves, in the order it writes them. */
  ghost function RightRelinked(t: Tree, v: Pivot): Tree
    requires RightLinks(t, v)
  {
    var t1 := WithLeft(t, v.x, v.b);
    var t2 := if v.b != None then WithParent(t1, v.b, v.x) else t1;
    var t3 := WithParent(t2, v.y, v.p);
    var t4 := Replaced(t3, v.p, v.x, v.y);
    WithParent(WithRight(t4, v.y, v.x), v.x, v.y)
  }

  // ------------------------------------------------------------------ rotations

  ghost function LowerMax(t: Tree, x: int, a: int, b: int): int
    requires Has(t, x)
  {
    Max(MaxHighAt(t, a), Max(MaxHighAt(t, b), t.cells[x].high))
  }

  /** A rotation: x goes down, y comes up, b is the subtree that changes hands, p the node above. */
  datatype Pivot = Pivot(x: int, y: int, b: int, p: int)

  ghost predicate Around(t: Tree, v: Pivot) {
    && Has(t, v.x) && Slot(t, v.x)
    && Has(t, v.y) && Slot(t, v.y)
    && (v.b != None ==> Has(t, v.b) && Slot(t, v.b))
    && v.p == t.cells[v.x].parent
    && (v.p != None ==> Has(t, v.p) && Slot(t, v.p))
  }

  ghost predicate LeftPivot(t: Tree, v: Pivot) {
    Around(t, v) && v.y == t.cells[v.x].right && v.b == t.cells[v.y].left
  }

  ghost predicate RightPivot(t: Tree, v: Pivot) {
    Around(t, v) && v.y == t.cells[v.x].left && v.b == t.cells[v.y].right
  }


  ghost function LeftCell(t: Tree, v: Pivot, i: int): Cell
    requires Has(t, i) && Has(t, v.x) && Has(t, v.y)
  {
    var c := t.cells[i];
    Cell(if i == v.p && c.left == v.x then v.y else if i == v.y then v.x else c.left,
         if i == v.p && c.left != v.x then v.y else if i == v.x then v.b else c.right,
         if i == v.x then v.y else if i == v.y then v.p else if i == v.b then v.x else c.parent,
         c.red, c.key, c.high,
         if i == v.x then LowerMax(t, v.x, c.left, v.b)
         else if i == v.y then t.cells[v.x].maxHigh else c.maxHigh,
         if i == v.y then t.cells[v.x].lo else c.lo,
         if i == v.x then v.y else c.hi)
  }

  ghost predicate LeftRotatedAt(t: Tree, t': Tree, v: Pivot, i: int)
    requires Has(t, i) && Has(t', i) && Has(t, v.x) && Has(t, v.y)
  {
    t'.cells[i] == LeftCell(t, v, i)
  }

  ghost predicate LeftRotated(t: Tree, t': Tree, v: Pivot) {
    && LeftPivot(t, v)
    && |t'.cells| == |t.cells|
    && t'.top == (if v.p == None then v.y else t.top)
    && forall i :: 0 <= i < |t.cells| ==> LeftRotatedAt(t, t', v, i)
  }

  ghost function LeftRotation(t: Tree, v: Pivot): (t': Tree)
    requires LeftPivot(t, v)
    ensures LeftRotated(t, t', v)
  {
    Tree(seq(|t.cells|, i requires 0 <= i < |t.cells| => LeftCell(t, v, i)), if v.p == None then v.y else t.top)
  }

  ghost function RightCell(t: Tree, v: Pivot, i: int): Cell
    requires Has(t, i) && Has(t, v.x) && Has(t, v.y)
  {
    var c := t.cells[i];
    Cell(if i == v.p && c.left == v.x then v.y else if i == v.x then v.b else c.left,
         if i == v.p && c.left != v.x then v.y else if i == v.y then v.x else c.right,
         if i == v.x then v.y else if i == v.y then v.p else if i == v.b then v.x else c.parent,
         c.red, c.key, c.high,
         if i == v.x then LowerMax(t, v.x, v.b, c.right)
         else if i == v.y then t.cells[v.x].maxHigh else c.maxHigh,
         if i == v.x then v.y + 1 else c.lo,
         if i == v.y then t.cells[v.x].hi else c.hi)
  }

  ghost predicate RightRotatedAt(t: Tree, t': Tree, v: Pivot, i: int)
    requires Has(t, i) && Has(t', i) && Has(t, v.x) && Has(t, v.y)
  {
    t'.cells[i] == RightCell(t, v, i)
  }

  ghost predicate RightRotated(t: Tree, t': Tree, v: Pivot) {
    && RightPivot(t, v)
    && |t'.cells| == |t.cells|
    && t'.top == (if v.p == None then v.y else t.top)
    && forall i :: 0 <= i < |t.cells| ==> RightRotatedAt(t, t', v, i)
  }

  ghost function RightRotation(t: Tree, v: Pivot): (t': Tree)
    requires RightPivot(t, v)
    ensures RightRotated(t, t', v)
  {
    Tree(seq(|t.cells|, i requires 0 <= i < |t.cells| => RightCell(t, v, i)), if v.p == None then v.y else t.top)
  }

  lemma LeftRotatedLeftSlot(t: Tree, t': Tree, v: Pivot, i: int)
    requires LeftRotated(t, t', v)
    requires Has(t, i) && Slot(t, i)
    ensures LeftSlot(t', i)
  {
    assert LeftRotatedAt(t, t', v, i);
    assert LeftRotatedAt(t, t', v, v.x);
    assert LeftRotatedAt(t, t', v, v.y);
    if v.b != None { assert LeftRotatedAt(t, t', v, v.b); }
    var c := t.cells[i].left;
    if c != None { assert LeftRotatedAt(t, t', v, c); }
  }

  lemma LeftRotatedRightSlot(t: Tree, t': Tree, v: Pivot, i: int)
    requires LeftRotated(t, t', v)
    requires Has(t, i) && Slot(t, i)
    ensures RightSlot(t', i)
  {
    assert LeftRotatedAt(t, t', v, i);
    assert LeftRotatedAt(t, t', v, v.x);
    assert LeftRotatedAt(t, t', v, v.y);
    if v.b != None { assert LeftRotatedAt(t, t', v, v.b); }
    var c := t.cells[i].right;
    if c != None { assert LeftRotatedAt(t, t', v, c); }
  }

  lemma LeftRotatedParentSlot(t: Tree, t': Tree, v: Pivot, i: int)
    requires LeftRotated(t, t', v)
    requires Has(t, i) && Slot(t, i)
    ensures ParentSlot(t', i)
  {
    assert LeftRotatedAt(t, t', v, i);
    assert LeftRotatedAt(t, t', v, v.x);
    assert LeftRotatedAt(t, t', v, v.y);
    if v.p != None { assert LeftRotatedAt(t, t', v, v.p); }
    var c := t.cells[i].parent;
    if c != None { assert LeftRotatedAt(t, t', v, c); }
  }

  lemma LeftRotatedShape(t: Tree, t': Tree, v: Pivot)
    requires Shape(t) && LeftRotated(t, t', v)
    ensures Shape(t')
  {
    assert LeftRotatedAt(t, t', v, v.y);
    assert LeftRotatedAt(t, t', v, t.top);
    forall i | 0 <= i < |t'.cells| ensures Slot(t', i) {
      assert Slot(t, i) && LeftRotatedAt(t, t', v, i);
      LeftRotatedLeftSlot(t, t', v, i);
      LeftRotatedRightSlot(t, t', v, i);
      LeftRotatedParentSlot(t, t', v, i);
    }
  }

  lemma RightRotatedLeftSlot(t: Tree, t': Tree, v: Pivot, i: int)
    requires RightRotated(t, t', v)
    requires Has(t, i) && Slot(t, i)
    ensures LeftSlot(t', i)
  {
    assert RightRotatedAt(t, t', v, i);
    assert RightRotatedAt(t, t', v, v.x);
    assert RightRotatedAt(t, t', v, v.y);
    if v.b != None { assert RightRotatedAt(t, t', v, v.b); }
    var c := t.cells[i].left;
    if c != None { assert RightRotatedAt(t, t', v, c); }
  }

  lemma RightRotatedRightSlot(t: Tree, t': Tree, v: Pivot, i: int)
    requires RightRotated(t, t', v)
    requires Has(t, i) && Slot(t, i)
    ensures RightSlot(t', i)
  {
    assert RightRotatedAt(t, t', v, i);
    assert RightRotatedAt(t, t', v, v.x);
    assert RightRotatedAt(t, t', v, v.y);
    if v.b != None { assert RightRotatedAt(t, t', v, v.b); }
    var c := t.cells[i].right;
    if c != None { assert RightRotatedAt(t, t', v, c); }
  }

  lemma RightRotatedParentSlot(t: Tree, t': Tree, v: Pivot, i: int)
    requires RightRotated(t, t', v)
    requires Has(t, i) && Slot(t, i)
    ensures ParentSlot(t', i)
  {
    assert RightRotatedAt(t, t', v, i);
    assert RightRotatedAt(t, t', v, v.x);
    assert RightRotatedAt(t, t', v, v.y);
    if v.p != None { assert RightRotatedAt(t, t', v, v.p); }
    var c := t.cells[i].parent;
    if c != None { assert RightRotatedAt(t, t', v, c); }
  }

  lemma RightRotatedShape(t: Tree, t': Tree, v: Pivot)
    requires Shape(t) && RightRotated(t, t', v)
    ensures Shape(t')
  {
    assert RightRotatedAt(t, t', v, v.y);
    assert RightRotatedAt(t, t', v, t.top);
    forall i | 0 <= i < |t'.cells| ensures Slot(t', i) {
      assert Slot(t, i) && RightRotatedAt(t, t', v, i);
      RightRotatedLeftSlot(t, t', v, i);
      RightRotatedRightSlot(t, t', v, i);
      RightRotatedParentSlot(t, t', v, i);
    }
  }

  /** The same node as far as stored fields go: [lo, hi) is bookkeeping of this model. */
  ghost predicate AlikeAt(t: Tree, t': Tree, i: int)
    requires Has(t, i) && Has(t', i)
  {
    var c := t.cells[i];
    var d := t'.cells[i];
    && c.left == d.left && c.right == d.right && c.parent == d.parent
    && c.red == d.red && c.key == d.key && c.high == d.high && c.maxHigh == d.maxHigh
  }

  ghost predicate Alike(t: Tree, t': Tree) {
    && |t.cells| == |t'.cells|
    && t.top == t'.top
    && forall i :: 0 <= i < |t.cells| ==> AlikeAt(t, t', i)
  }

  ghost function HighRefreshed(t: Tree, i: int): Tree
    requires Has(t, i)
  {
    WithMaxHigh(t, i, Highest(t, i))
  }

  lemma PivotApart(t: Tree, v: Pivot)
    requires LeftPivot(t, v) || RightPivot(t, v)
    ensures Apart(t, v)
    ensures Slotted(t, v.x) && Slotted(t, v.y)
  {
  }

  lemma LeftRelinkedAt(t: Tree, v: Pivot, i: int)
    requires LeftLinks(t, v) && Has(t, i)
    ensures var w := LeftRelinked(t, v);
      && |w.cells| == |t.cells|
      && w.top == (if v.p == None then v.y else t.top)
      && var c := t.cells[i]; var d := w.cells[i];
      && d.left == (if i == v.p && c.left == v.x then v.y else if i == v.y then v.x else c.left)
      && d.right == (if i == v.p && c.left != v.x then v.y else if i == v.x then v.b else c.right)
      && d.parent == (if i == v.x then v.y else if i == v.y then v.p else if i == v.b then v.x else c.parent)
      && d.red == c.red && d.key == c.key && d.high == c.high && d.maxHigh == c.maxHigh
  {
  }

  ghost function LeftSteps(t: Tree, v: Pivot): (t': Tree)
    requires LeftLinks(t, v)
    ensures |t'.cells| == |t.cells|
  {
    HighRefreshed(HighRefreshed(LeftRelinked(t, v), v.x), v.y)
  }

  lemma LeftStepsHigh(t: Tree, v: Pivot)
    requires LeftLinks(t, v) && Slotted(t, v.x) && Slotted(t, v.y)
    requires HighOk(t, v.x) && HighOk(t, v.y)
    requires t.cells[v.x].left != v.x && t.cells[v.x].left != v.y && t.cells[v.y].right != v.x
      && t.cells[v.y].right != v.y
    ensures LeftSteps(t, v).cells[v.x].maxHigh == LowerMax(t, v.x, t.cells[v.x].left, v.b)
    ensures LeftSteps(t, v).cells[v.y].maxHigh == t.cells[v.x].maxHigh
  {
    LeftRelinkedAt(t, v, v.x);
    LeftRelinkedAt(t, v, v.y);
    var a := t.cells[v.x].left;
    var c := t.cells[v.y].right;
    if a != None { LeftRelinkedAt(t, v, a); }
    if c != None { LeftRelinkedAt(t, v, c); }
    if v.b != None { LeftRelinkedAt(t, v, v.b); }
  }

  /** Field by field, the assignments of a left rotation add up to the rotation. */
  lemma LeftStepsRotate(t: Tree, v: Pivot)
    requires LeftPivot(t, v) && LeftLinks(t, v)
    requires HighOk(t, v.x) && HighOk(t, v.y)
    ensures Alike(LeftSteps(t, v), LeftRotation(t, v))
  {
    hide MaxHighAt;
    var w := LeftRotation(t, v);
    LeftStepsHigh(t, v);
    forall i | 0 <= i < |t.cells| ensures AlikeAt(LeftSteps(t, v), w, i) {
      assert LeftRotatedAt(t, w, v, i);
      LeftRelinkedAt(t, v, i);
    }
    LeftRelinkedAt(t, v, v.x);
  }

  lemma RightRelinkedAt(t: Tree, v: Pivot, i: int)
    requires RightLinks(t, v) && Has(t, i)
    ensures var w := RightRelinked(t, v);
      && |w.cells| == |t.cells|
      && w.top == (if v.p == None then v.y else t.top)
      && var c := t.cells[i]; var d := w.cells[i];
      && d.left == (if i == v.p && c.left == v.x then v.y else if i == v.x then v.b else c.left)
      && d.right == (if i == v.p && c.left != v.x then v.y else if i == v.y then v.x else c.right)
      && d.parent == (if i == v.x then v.y else if i == v.y then v.p else if i == v.b then v.x else c.parent)
      && d.red == c.red && d.key == c.key && d.high == c.high && d.maxHigh == c.maxHigh
  {
  }

  ghost function RightSteps(t: Tree, v: Pivot): (t': Tree)
    requires RightLinks(t, v)
    ensures |t'.cells| == |t.cells|
  {
    HighRefreshed(HighRefreshed(RightRelinked(t, v), v.x), v.y)
  }

  lemma RightStepsHigh(t: Tree, v: Pivot)
    requires RightLinks(t, v) && Slotted(t, v.x) && Slotted(t, v.y)
    requires HighOk(t, v.x) && HighOk(t, v.y)
    requires t.cells[v.x].right != v.x && t.cells[v.x].right != v.y && t.cells[v.y].left != v.x
      && t.cells[v.y].left != v.y
    ensures RightSteps(t, v).cells[v.x].maxHigh == LowerMax(t, v.x, v.b, t.cells[v.x].right)
    ensures RightSteps(t, v).cells[v.y].maxHigh == t.cells[v.x].maxHigh
  {
    RightRelinkedAt(t, v, v.x);
    RightRelinkedAt(t, v, v.y);
    var a := t.cells[v.x].right;
    var c := t.cells[v.y].left;
    if a != None { RightRelinkedAt(t, v, a); }
    if c != None { RightRelinkedAt(t, v, c); }
    if v.b != None { RightRelinkedAt(t, v, v.b); }
  }

  /** Field by field, the assignments of a right rotation add up to the rotation. */
  lemma RightStepsRotate(t: Tree, v: Pivot)
    requires RightPivot(t, v) && RightLinks(t, v)
    requires HighOk(t, v.x) && HighOk(t, v.y)
    ensures Alike(RightSteps(t, v), RightRotation(t, v))
  {
    hide MaxHighAt;
    var w := RightRotation(t, v);
    RightStepsHigh(t, v);
    forall i | 0 <= i < |t.cells| ensures AlikeAt(RightSteps(t, v), w, i) {
      assert RightRotatedAt(t, w, v, i);
      RightRelinkedAt(t, v, i);
    }
    RightRelinkedAt(t, v, v.x);
  }
}
