/** The overlap query as a recursive search, the meaning of its result, and the remaining work of
    the version with an explicit stack. */
module IntervalQuery {
  import opened IntervalCells
  import opened IntervalEdits
  import opened Lists

  /** Whether two closed intervals share a point, by cases on which starts first. */
  function Overlap(a1: int, a2: int, b1: int, b2: int): bool {
    if a1 <= b1 then b1 <= a2 else a1 <= b2
  }

  ghost predicate Within(p: int, a: int, b: int) {
    a <= p <= b
  }

  lemma OverlapMeaning(a1: int, a2: int, b1: int, b2: int)
    requires a1 <= a2 && b1 <= b2
    ensures Overlap(a1, a2, b1, b2) <==> exists p :: Within(p, a1, a2) && Within(p, b1, b2)
  {
    if Overlap(a1, a2, b1, b2) {
      var p := if a1 <= b1 then b1 else a1;
      assert Within(p, a1, a2) && Within(p, b1, b2);
    }
  }

  ghost predicate Hit(t: Tree, low: int, high: int, i: int)
    requires Has(t, i)
  {
    Overlap(low, high, t.cells[i].key, t.cells[i].high)
  }

  ghost predicate NodeOrNil(t: Tree, i: int) {
    i == None || Has(t, i)
  }

  ghost function Size(t: Tree, i: int): (n: int)
    requires Shape(t) && NodeOrNil(t, i)
    ensures i == None <==> n == 0
    ensures n >= 0
  {
    if i == None then 0 else assert Slot(t, i); t.cells[i].hi - t.cells[i].lo
  }

  lemma SizeAdds(t: Tree, i: int)
    requires Shape(t) && Has(t, i)
    ensures NodeOrNil(t, t.cells[i].left) && NodeOrNil(t, t.cells[i].right)
    ensures Size(t, i) == 1 + Size(t, t.cells[i].left) + Size(t, t.cells[i].right)
  {
    assert Slot(t, i);
  }

  /** The positions found below node i: the left subtree is searched when its maxHigh reaches low
      (`nil` counts as -MAX_TIME), and then the right one only if the left one held a hit. */
  ghost function Search(t: Tree, low: int, high: int, i: int): seq<int>
    requires Shape(t) && NodeOrNil(t, i)
    decreases Size(t, i)
  {
    if i == None then []
    else
      SizeAdds(t, i);
      var c := t.cells[i];
      var here := if Hit(t, low, high, i) then [i] else [];
      if MaxHighAt(t, c.left) >= low then
        var l := Search(t, low, high, c.left);
        here + l + (if l != [] then Search(t, low, high, c.right) else [])
      else
        here + Search(t, low, high, c.right)
  }

  // ------------------------------------------------------------------ what the search finds

  ghost predicate HighBelow(t: Tree, j: int, m: int)
    requires Has(t, j)
  {
    t.cells[j].high <= m
  }

  /** maxHigh is the greatest high in the subtree. */
  lemma {:induction false} MaxHighExact(t: Tree, i: int) returns (j: int)
    requires Shape(t) && Highs(t) && Has(t, i)
    requires forall k :: 0 <= k < |t.cells| ==> StampedAt(t, k)
    ensures forall k :: t.cells[i].lo <= k < t.cells[i].hi ==> Has(t, k) && HighBelow(t, k, t.cells[i].maxHigh)
    ensures Has(t, j) && Contains(t, i, j) && t.cells[j].high == t.cells[i].maxHigh
    decreases Size(t, i)
  {
    SizeAdds(t, i);
    assert Slot(t, i) && HighOk(t, i) && StampedAt(t, i);
    var c := t.cells[i];
    j := i;
    var jl, jr := i, i;
    if c.left != None {
      jl := MaxHighExact(t, c.left);
      if t.cells[c.left].maxHigh == c.maxHigh { j := jl; }
    }
    if c.right != None {
      jr := MaxHighExact(t, c.right);
      if t.cells[c.right].maxHigh == c.maxHigh { j := jr; }
    }
    if t.cells[i].high == c.maxHigh { j := i; }
    forall k | c.lo <= k < c.hi ensures Has(t, k) && HighBelow(t, k, c.maxHigh) {
      if k < i { assert HighBelow(t, k, t.cells[c.left].maxHigh); }
      if k > i { assert HighBelow(t, k, t.cells[c.right].maxHigh); }
    }
  }

  /** Times are not below the one stored in `nil`. */
  ghost predicate StampedAt(t: Tree, i: int)
    requires Has(t, i)
  {
    -MAX_TIME <= t.cells[i].key && -MAX_TIME <= t.cells[i].high
  }

  /** The interval does not end before it starts. */
  ghost predicate Forward(t: Tree, i: int)
    requires Has(t, i)
  {
    t.cells[i].key <= t.cells[i].high
  }

  /** The interval ends no earlier than low. */
  ghost predicate Reaches(t: Tree, low: int, i: int)
    requires Has(t, i)
  {
    low <= t.cells[i].high
  }

  ghost predicate Ascending(t: Tree, i: int, j: int)
    requires Has(t, i) && Has(t, j)
  {
    i <= j ==> t.cells[i].key <= t.cells[j].key
  }

  ghost predicate Timetable(t: Tree) {
    && Shape(t) && Highs(t)
    && (forall i :: 0 <= i < |t.cells| ==> StampedAt(t, i))
    && (forall i, j :: 0 <= i < |t.cells| && 0 <= j < |t.cells| ==> Ascending(t, i, j))
  }

  /** Everything found is below i, is a hit, and is found once. */
  lemma {:induction false} SearchSound(t: Tree, low: int, high: int, i: int)
    requires Shape(t) && NodeOrNil(t, i)
    ensures forall j :: j in Search(t, low, high, i) ==>
      Has(t, i) && Has(t, j) && Contains(t, i, j) && Hit(t, low, high, j)
    ensures Distinct(Search(t, low, high, i))
    decreases Size(t, i)
  {
    if i != None {
      SizeAdds(t, i);
      assert Slot(t, i);
      SearchSound(t, low, high, t.cells[i].left);
      SearchSound(t, low, high, t.cells[i].right);
      var c := t.cells[i];
      var here := if Hit(t, low, high, i) then [i] else [];
      var l, r := Search(t, low, high, c.left), Search(t, low, high, c.right);
      DistinctPieces(here, l, r, i);
      assert here + [] + r == here + r && here + l + [] == here + l;
      DistinctPieces(here, [], r, i);
      DistinctPieces(here, l, [], i);
    }
  }

  lemma DistinctPieces(a: seq<int>, b: seq<int>, c: seq<int>, i: int)
    requires |a| <= 1 && (forall x :: x in a ==> x == i) && Distinct(b) && Distinct(c)
    requires forall x :: x in b ==> x < i
    requires forall x :: x in c ==> x > i
    ensures Distinct(a + b + c)
  {
    var s := a + b + c;
    forall x, y | 0 <= x < |s| && 0 <= y < |s| ensures Differ(s, x, y) {
      var m, n := |a|, |a| + |b|;
      if m <= x < n && m <= y < n { assert Differ(b, x - m, y - m); }
      if n <= x && n <= y { assert Differ(c, x - n, y - n); }
      assert m <= x < n ==> s[x] == b[x - m] && s[x] in b;
      assert m <= y < n ==> s[y] == b[y - m] && s[y] in b;
      assert n <= x ==> s[x] == c[x - n] && s[x] in c;
      assert n <= y ==> s[y] == c[y - n] && s[y] in c;
      assert x < m ==> s[x] in a;
      assert y < m ==> s[y] in a;
    }
  }

  /** A node whose right subtree the search forgets when low is the time of `nil`: with no left child
      there is nothing to find on the left, although the right holds an interval that starts early. */
  ghost predicate Blind(t: Tree, high: int, i: int)
    requires Has(t, i)
  {
    t.cells[i].left == None && t.cells[i].right != None && Has(t, i + 1) && t.cells[i + 1].key <= high
  }

  ghost predicate Sighted(t: Tree, low: int, high: int) {
    low > -MAX_TIME || forall i :: 0 <= i < |t.cells| ==> !Blind(t, high, i)
  }

  lemma {:induction false} SearchComplete(t: Tree, low: int, high: int, i: int, j: int)
    requires Timetable(t) && Has(t, i) && Has(t, j) && Contains(t, i, j) && Hit(t, low, high, j)
    requires Sighted(t, low, high) && Reaches(t, low, j)
    ensures j in Search(t, low, high, i)
    decreases Size(t, i)
  {
    SizeAdds(t, i);
    assert Slot(t, i);
    var c := t.cells[i];
    if j < i {
      if MaxHighAt(t, c.left) >= low {
        SearchComplete(t, low, high, c.left, j);
      } else {
        LateLeftMisses(t, low, i, j);
      }
    } else if j > i {
      SearchComplete(t, low, high, c.right, j);
      if MaxHighAt(t, c.left) >= low && Search(t, low, high, c.left) == [] {
        EmptyLeftMeansNoRight(t, low, high, i, j);
      }
    }
  }

  lemma LateLeftMisses(t: Tree, low: int, i: int, j: int)
    requires Timetable(t) && Has(t, i) && Has(t, j) && Contains(t, i, j) && j < i
    requires MaxHighAt(t, t.cells[i].left) < low
    ensures !Reaches(t, low, j)
  {
    assert Slot(t, i);
    var m := MaxHighExact(t, t.cells[i].left);
    assert HighBelow(t, j, t.cells[t.cells[i].left].maxHigh);
  }

  lemma {:induction false} EmptyLeftMeansNoRight(t: Tree, low: int, high: int, i: int, j: int)
    requires Timetable(t) && Has(t, i) && Has(t, j) && j > i && Contains(t, i, j)
    requires Sighted(t, low, high)
    requires NodeOrNil(t, t.cells[i].left)
    requires MaxHighAt(t, t.cells[i].left) >= low && Search(t, low, high, t.cells[i].left) == []
    ensures !Hit(t, low, high, j)
    decreases Size(t, i), 0
  {
    SizeAdds(t, i);
    assert Slot(t, i);
    var c := t.cells[i];
    if c.left == None {
      assert !Blind(t, high, i);
      assert Ascending(t, i + 1, j) && StampedAt(t, j);
    } else {
      var m := MaxHighExact(t, c.left);
      assert Slot(t, c.left);
      if Hit(t, low, high, m) { SearchComplete(t, low, high, c.left, m); }
      assert Ascending(t, m, j);
    }
  }

  /** The right neighbour of a blind node is never found. */
  lemma {:induction false} SearchMisses(t: Tree, low: int, high: int, a: int, i: int)
    requires Shape(t) && Has(t, a) && Has(t, i) && Contains(t, a, i)
    requires low <= -MAX_TIME && Blind(t, high, i)
    ensures i + 1 !in Search(t, low, high, a)
    decreases Size(t, a)
  {
    BlindInside(t, high, a, i);
    SearchSound(t, low, high, t.cells[a].left);
    SearchSound(t, low, high, t.cells[a].right);
    if i < a {
      SearchMisses(t, low, high, t.cells[a].left, i);
    } else if i > a {
      SearchMisses(t, low, high, t.cells[a].right, i);
    } else {
      assert MaxHighAt(t, None) >= low;
    }
  }

  lemma BlindInside(t: Tree, high: int, a: int, i: int)
    requires Shape(t) && Has(t, a) && Has(t, i) && Contains(t, a, i) && Blind(t, high, i)
    ensures NodeOrNil(t, t.cells[a].left) && NodeOrNil(t, t.cells[a].right)
    ensures Size(t, a) == 1 + Size(t, t.cells[a].left) + Size(t, t.cells[a].right)
    ensures i < a ==> Has(t, t.cells[a].left) && Contains(t, t.cells[a].left, i) && i + 1 < a
    ensures i > a ==> Has(t, t.cells[a].right) && Contains(t, t.cells[a].right, i)
    ensures Has(t, t.cells[a].left) ==> t.cells[t.cells[a].left].hi == a
    ensures Has(t, t.cells[a].right) ==> t.cells[t.cells[a].right].lo == a + 1
  {
    SizeAdds(t, a);
    assert Slot(t, a) && Slot(t, i) && Slot(t, t.cells[i].right);
    if i < a { Nested(t, t.cells[a].left, i); }
  }

  /** The query misses no hit that ends no earlier than low if and only if no node is blind to it. */
  lemma SearchMissesNoneIff(t: Tree, low: int, high: int)
    requires Timetable(t)
    ensures Sighted(t, low, high)
      <==> forall j :: 0 <= j < |t.cells| ==> NotMissed(t, low, high, j)
  {
    if Sighted(t, low, high) {
      forall j | 0 <= j < |t.cells| ensures NotMissed(t, low, high, j) {
        if Hit(t, low, high, j) && Reaches(t, low, j) { SearchComplete(t, low, high, t.top, j); }
      }
    } else {
      var i :| 0 <= i < |t.cells| && Blind(t, high, i);
      SearchMisses(t, low, high, t.top, i);
      assert StampedAt(t, i + 1);
      assert !NotMissed(t, low, high, i + 1);
    }
  }

  ghost predicate NotMissed(t: Tree, low: int, high: int, j: int)
    requires Shape(t) && Has(t, j)
  {
    Hit(t, low, high, j) && Reaches(t, low, j) ==> j in Search(t, low, high, t.top)
  }

  /** With intervals that do not end before they start the query is right for every interval if and
      only if no node is blind to it. */
  lemma SearchExactIff(t: Tree, low: int, high: int)
    requires Timetable(t)
    requires forall i :: 0 <= i < |t.cells| ==> Forward(t, i)
    ensures Sighted(t, low, high)
      <==> forall j :: 0 <= j < |t.cells| ==> Found(t, low, high, j)
  {
    SearchMissesNoneIff(t, low, high);
    SearchSound(t, low, high, t.top);
    forall j | 0 <= j < |t.cells| ensures Found(t, low, high, j) <==> NotMissed(t, low, high, j) {
      assert Forward(t, j);
    }
    if Sighted(t, low, high) {
      forall j | 0 <= j < |t.cells| ensures Found(t, low, high, j) { assert NotMissed(t, low, high, j); }
    } else {
      var j :| 0 <= j < |t.cells| && !NotMissed(t, low, high, j);
      assert !Found(t, low, high, j);
    }
  }

  ghost predicate Found(t: Tree, low: int, high: int, j: int)
    requires Shape(t) && Has(t, j)
  {
    j in Search(t, low, high, t.top) <==> Hit(t, low, high, j)
  }

  /** A properly coloured tree of two intervals and a query, starting at the time of `nil`, that both overlap:
      the red right child is forgotten. */
  lemma CanBeBlind() returns (t: Tree)
    ensures Timetable(t) && (forall i :: 0 <= i < |t.cells| ==> Forward(t, i))
    ensures Coloured(t, [0, 0])
    ensures |t.cells| == 2 && Hit(t, -MAX_TIME, 5, 0) && Hit(t, -MAX_TIME, 5, 1)
    ensures !Sighted(t, -MAX_TIME, 5) && Search(t, -MAX_TIME, 5, t.top) == [0]
  {
    var upper := Cell(None, 1, None, false, 0, 2, 3, 0, 2);
    var lower := Cell(None, None, 0, true, 1, 3, 3, 1, 2);
    t := Tree([upper, lower], 0);
    assert Slot(t, 0) && Slot(t, 1);
    assert Blind(t, 5, 0);
  }

  // ------------------------------------------------------------------ the explicit stack

  /** Nodes whose left subtree is being searched, outermost first. */
  ghost predicate Frames(t: Tree, f: seq<int>, tries: seq<bool>) {
    && |tries| == |f|
    && forall m :: 0 <= m < |f| ==> FrameOk(t, f[m])
  }

  ghost predicate FrameOk(t: Tree, i: int) {
    Has(t, i) && NodeOrNil(t, t.cells[i].right)
  }

  /** What is still to be found once the current subtree is finished: a waiting right subtree is
      searched if its flag is set or, for the innermost one, if the current subtree had a hit. */
  ghost function Unwind(t: Tree, low: int, high: int, f: seq<int>, tries: seq<bool>, hit: bool): seq<int>
    requires Shape(t) && Frames(t, f, tries)
    decreases |f|
  {
    if f == [] then []
    else
      var m := |f| - 1;
      assert FrameOk(t, f[m]);
      if tries[m] || hit then Search(t, low, high, t.cells[f[m]].right) + Unwind(t, low, high, f[..m], tries[..m], true)
      else Unwind(t, low, high, f[..m], tries[..m], false)
  }

  /** `stack[currentParent].tryRightBranch = true`, entry 0 standing for no frame at all. */
  ghost function Marked(tries: seq<bool>): seq<bool> {
    if tries == [] then tries else tries[|tries| - 1 := true]
  }

  lemma UnwindMarked(t: Tree, low: int, high: int, f: seq<int>, tries: seq<bool>, hit: bool)
    requires Shape(t) && Frames(t, f, tries)
    ensures Frames(t, f, Marked(tries))
    ensures Unwind(t, low, high, f, Marked(tries), hit) == Unwind(t, low, high, f, tries, true)
  {
    if f != [] {
      var m := |f| - 1;
      assert Marked(tries)[..m] == tries[..m];
    }
  }

  lemma UnwindPush(t: Tree, low: int, high: int, f: seq<int>, tries: seq<bool>, i: int, hit: bool)
    requires Shape(t) && Frames(t, f, tries) && FrameOk(t, i)
    ensures Frames(t, f + [i], tries + [false])
    ensures Unwind(t, low, high, f + [i], tries + [false], hit) ==
      if hit then Search(t, low, high, t.cells[i].right) + Unwind(t, low, high, f, tries, true)
      else Unwind(t, low, high, f, tries, false)
  {
    var f', tries' := f + [i], tries + [false];
    assert f'[..|f|] == f && tries'[..|f|] == tries;
    forall m | 0 <= m < |f'| ensures FrameOk(t, f'[m]) {
      assert m < |f| ==> FrameOk(t, f[m]);
    }
  }

  lemma UnwindPop(t: Tree, f: seq<int>, tries: seq<bool>)
    requires Frames(t, f, tries) && f != []
    ensures FrameOk(t, f[|f| - 1])
    ensures Frames(t, f[..|f| - 1], tries[..|f| - 1])
  {
    var g := f[..|f| - 1];
    forall m | 0 <= m < |g| ensures FrameOk(t, g[m]) { assert FrameOk(t, f[m]); }
  }

  /** All that is left to find with node x current. */
  ghost function Remaining(t: Tree, low: int, high: int, x: int, f: seq<int>, tries: seq<bool>): seq<int>
    requires Shape(t) && Frames(t, f, tries) && NodeOrNil(t, x)
  {
    var s := Search(t, low, high, x);
    s + Unwind(t, low, high, f, tries, s != [])
  }

  ghost function HereAt(t: Tree, low: int, high: int, x: int): seq<int>
    requires Has(t, x)
  {
    if Hit(t, low, high, x) then [x] else []
  }

  /** Visiting x and going left, with a frame for x pushed. */
  lemma StepLeft(t: Tree, low: int, high: int, x: int, f: seq<int>, tries: seq<bool>)
    requires Shape(t) && Frames(t, f, tries) && Has(t, x) && MaxHighAt(t, t.cells[x].left) >= low
    ensures NodeOrNil(t, t.cells[x].left)
    ensures var tries' := if Hit(t, low, high, x) then Marked(tries) else tries;
      && Frames(t, f + [x], tries' + [false])
      && Remaining(t, low, high, x, f, tries)
         == HereAt(t, low, high, x) + Remaining(t, low, high, t.cells[x].left, f + [x], tries' + [false])
  {
    SizeAdds(t, x);
    var tries' := if Hit(t, low, high, x) then Marked(tries) else tries;
    var l := Search(t, low, high, t.cells[x].left);
    UnwindMarked(t, low, high, f, tries, true);
    UnwindMarked(t, low, high, f, tries, false);
    UnwindPush(t, low, high, f, tries', x, l != []);
    if l != [] {
      Regroup(HereAt(t, low, high, x), l, Search(t, low, high, t.cells[x].right),
          Unwind(t, low, high, f, tries', true));
    } else {
      Regroup(HereAt(t, low, high, x), [], [], Unwind(t, low, high, f, tries', false));
    }
  }

  lemma Regroup(a: seq<int>, b: seq<int>, c: seq<int>, d: seq<int>)
    ensures (a + b + c) + d == a + (b + (c + d))
    ensures a + [] + [] == a && [] + d == d
  {
  }

  /** Visiting x and going right without a frame: the left subtree ends before low. */
  lemma StepRight(t: Tree, low: int, high: int, x: int, f: seq<int>, tries: seq<bool>)
    requires Shape(t) && Frames(t, f, tries) && Has(t, x) && MaxHighAt(t, t.cells[x].left) < low
    ensures NodeOrNil(t, t.cells[x].right)
    ensures var tries' := if Hit(t, low, high, x) then Marked(tries) else tries;
      && Frames(t, f, tries')
      && Remaining(t, low, high, x, f, tries)
         == HereAt(t, low, high, x) + Remaining(t, low, high, t.cells[x].right, f, tries')
  {
    hide Unwind;
    SizeAdds(t, x);
    var r := Search(t, low, high, t.cells[x].right);
    UnwindMarked(t, low, high, f, tries, r != []);
    var here := HereAt(t, low, high, x);
    assert Search(t, low, high, x) == here + r;
    var tries' := if Hit(t, low, high, x) then Marked(tries) else tries;
    assert (here + r) + Unwind(t, low, high, f, tries', r != [])
      == here + (r + Unwind(t, low, high, f, tries', r != []));
  }

  /** Leaving the innermost frame while nothing is current. */
  lemma StepPop(t: Tree, low: int, high: int, f: seq<int>, tries: seq<bool>)
    requires Shape(t) && Frames(t, f, tries) && f != []
    ensures var m := |f| - 1;
      && FrameOk(t, f[m]) && Frames(t, f[..m], tries[..m]) && Frames(t, f[..m], Marked(tries[..m]))
      && Remaining(t, low, high, None, f, tries)
         == if tries[m] then Remaining(t, low, high, t.cells[f[m]].right, f[..m], Marked(tries[..m]))
            else Remaining(t, low, high, None, f[..m], tries[..m])
  {
    var m := |f| - 1;
    UnwindPop(t, f, tries);
    var r := Search(t, low, high, t.cells[f[m]].right);
    UnwindMarked(t, low, high, f[..m], tries[..m], r != []);
    assert [] + Unwind(t, low, high, f, tries, false) == Unwind(t, low, high, f, tries, false);
    assert [] + Unwind(t, low, high, f[..m], tries[..m], false) == Unwind(t, low, high, f[..m], tries[..m], false);
  }

  /** Work left: twice the current subtree, and for each frame its right subtree and itself. */
  ghost function Work(t: Tree, x: int, f: seq<int>): nat
    requires Shape(t) && NodeOrNil(t, x) && forall m :: 0 <= m < |f| ==> FrameOk(t, f[m])
    decreases |f|
  {
    2 * Size(t, x) +
    if f == [] then 0
    else
      var m := |f| - 1;
      assert FrameOk(t, f[m]);
      2 * Size(t, t.cells[f[m]].right) + 1 + Work(t, None, f[..m])
  }

  lemma WorkPop(t: Tree, f: seq<int>)
    requires Shape(t) && f != [] && forall m :: 0 <= m < |f| ==> FrameOk(t, f[m])
    ensures var m := |f| - 1;
      && FrameOk(t, f[m]) && (forall k :: 0 <= k < |f[..m]| ==> FrameOk(t, f[..m][k]))
      && Work(t, t.cells[f[m]].right, f[..m]) < Work(t, None, f)
      && Work(t, None, f[..m]) < Work(t, None, f)
  {
    var m := |f| - 1;
    forall k | 0 <= k < |f[..m]| ensures FrameOk(t, f[..m][k]) { assert FrameOk(t, f[k]); }
    assert FrameOk(t, f[m]);
  }

  lemma WorkLeft(t: Tree, x: int, f: seq<int>)
    requires Shape(t) && Has(t, x) && forall m :: 0 <= m < |f| ==> FrameOk(t, f[m])
    ensures FrameOk(t, x) && NodeOrNil(t, t.cells[x].left)
    ensures forall m :: 0 <= m < |f + [x]| ==> FrameOk(t, (f + [x])[m])
    ensures Work(t, t.cells[x].left, f + [x]) < Work(t, x, f)
  {
    SizeAdds(t, x);
    assert (f + [x])[..|f|] == f;
    forall m | 0 <= m < |f + [x]| ensures FrameOk(t, (f + [x])[m]) {
      assert m < |f| ==> FrameOk(t, f[m]);
    }
  }

  ghost function Marks(t: Tree, low: int, high: int, x: int, tries: seq<bool>): seq<bool>
    requires Has(t, x)
  {
    if Hit(t, low, high, x) then Marked(tries) else tries
  }

  /** Having visited x, the search goes on at y: what is left to find and to do gets less by x. */
  ghost predicate Advances(t: Tree, low: int, high: int, x: int, f: seq<int>, tries: seq<bool>,
                           y: int, f': seq<int>, tries': seq<bool>)
  {
    && Shape(t) && Has(t, x) && NodeOrNil(t, y) && Frames(t, f, tries) && Frames(t, f', tries')
    && Remaining(t, low, high, x, f, tries) == HereAt(t, low, high, x) + Remaining(t, low, high, y, f', tries')
    && Work(t, y, f') < Work(t, x, f)
  }

  lemma VisitLeft(t: Tree, low: int, high: int, x: int, f: seq<int>, tries: seq<bool>, marks: seq<bool>)
    requires Shape(t) && Frames(t, f, tries) && Has(t, x) && MaxHighAt(t, t.cells[x].left) >= low
    requires marks == Marks(t, low, high, x, tries)
    ensures Advances(t, low, high, x, f, tries, t.cells[x].left, f + [x], marks + [false])
  {
    StepLeft(t, low, high, x, f, tries);
    WorkLeft(t, x, f);
  }

  lemma VisitRight(t: Tree, low: int, high: int, x: int, f: seq<int>, tries: seq<bool>, marks: seq<bool>)
    requires Shape(t) && Frames(t, f, tries) && Has(t, x) && MaxHighAt(t, t.cells[x].left) < low
    requires marks == Marks(t, low, high, x, tries)
    ensures Advances(t, low, high, x, f, tries, t.cells[x].right, f, marks)
  {
    StepRight(t, low, high, x, f, tries);
    SizeAdds(t, x);
  }
}
