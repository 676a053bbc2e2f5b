/** What the colours are for: no node is deeper than twice the logarithm of the number of nodes. */
module IntervalHeight {
  import opened Bits
  import opened IntervalCells
  import opened IntervalQuery

  ghost function Height(t: Tree, i: int): nat
    requires Shape(t) && NodeOrNil(t, i)
    decreases Size(t, i)
  {
    if i == None then 0
    else
      SizeAdds(t, i);
      1 + Max(Height(t, t.cells[i].left), Height(t, t.cells[i].right))
  }

  /** A path has at most one red node for every black one, and a subtree is full down to its black height. */
  lemma {:induction false} BlackHeightBounds(t: Tree, bh: seq<int>, i: int)
    requires Shape(t) && Coloured(t, bh) && NodeOrNil(t, i)
    ensures 0 <= Blacks(t, bh, i)
    ensures Height(t, i) <= 2 * Blacks(t, bh, i) + (if IsRed(t, i) then 1 else 0)
    ensures Pow2(Blacks(t, bh, i)) <= Size(t, i) + 1
    decreases Size(t, i)
  {
    if i != None {
      SizeAdds(t, i);
      assert BlackOk(t, bh, i) && RedOk(t, i);
      BlackHeightBounds(t, bh, t.cells[i].left);
      BlackHeightBounds(t, bh, t.cells[i].right);
    }
  }

  /** The tree is balanced: a tree of height h holds at least 2^(h/2) - 1 nodes. */
  lemma Balanced(t: Tree, bh: seq<int>)
    requires Shape(t) && Coloured(t, bh)
    ensures NodeOrNil(t, t.top)
    ensures Pow2((Height(t, t.top) + 1) / 2) <= |t.cells| + 1
  {
    BlackHeightBounds(t, bh, t.top);
    var half, blacks := (Height(t, t.top) + 1) / 2, Blacks(t, bh, t.top);
    if half < blacks { Pow2Grows(half, blacks); }
  }
}
