/** Lists without repetition, and taking elements out of them. */
module Lists {

  /** Places i and j do not hold the same. */
  ghost predicate Differ<T>(s: seq<T>, i: int, j: int)
    requires 0 <= i < |s| && 0 <= j < |s|
  {
    s[i] == s[j] ==> i == j
  }

  ghost predicate Distinct<T>(s: seq<T>) {
    forall i, j :: 0 <= i < |s| && 0 <= j < |s| ==> Differ(s, i, j)
  }

  lemma FirstDistinct<T>(s: seq<T>)
    requires s != []
    ensures Distinct(s) <==> Distinct(s[1..]) && s[0] !in s[1..]
  {
    var t := s[1..];
    if Distinct(s) {
      forall i, j | 0 <= i < |t| && 0 <= j < |t| ensures Differ(t, i, j) { assert Differ(s, i + 1, j + 1); }
      forall j | 0 <= j < |t| ensures t[j] != s[0] { assert Differ(s, 0, j + 1); }
    }
    if Distinct(t) && s[0] !in t {
      forall i, j | 0 <= i < |s| && 0 <= j < |s| ensures Differ(s, i, j) {
        assert i > 0 ==> s[i] == t[i - 1];
        assert j > 0 ==> s[j] == t[j - 1];
        assert i > 0 && j > 0 ==> Differ(t, i - 1, j - 1);
      }
    }
  }

  lemma LastDistinct<T>(s: seq<T>, x: T)
    requires Distinct(s) && x !in s
    ensures Distinct(s + [x])
  {
    var t := s + [x];
    forall i, j | 0 <= i < |t| && 0 <= j < |t| ensures Differ(t, i, j) {
      assert i < |s| && j < |s| ==> Differ(s, i, j);
      assert i < |s| ==> t[i] in s;
      assert j < |s| ==> t[j] in s;
    }
  }

  lemma Associates<T>(a: seq<T>, b: seq<T>, c: seq<T>)
    ensures a + b + c == a + (b + c)
  {
  }

  lemma HeadAndTail<T>(x: T, s: seq<T>)
    ensures ([x] + s)[0] == x && ([x] + s)[1..] == s
  {
  }

  lemma AllOf<T>(s: seq<T>)
    ensures s[..|s|] == s && s[|s|..] == []
  {
  }

  lemma ThreeParts<T>(s: seq<T>, i: nat, k: nat)
    requires i <= k <= |s|
    ensures s == s[..i] + s[i..k] + s[k..]
  {
  }

  lemma FirstOfRest<T>(s: seq<T>, i: nat)
    requires i < |s|
    ensures s[i..] == [s[i]] + s[i + 1..]
  {
  }

  lemma SliceNext<T>(s: seq<T>, i: nat, j: nat)
    requires i <= j < |s|
    ensures s[i..j + 1] == s[i..j] + [s[j]]
  {
  }

  // ------------------------------------------------------------------ by position

  ghost function Grow(j: int, k: int): int {
    if j < k then j else j + 1
  }

  ghost function Shrink(j: int, k: int): int {
    if j < k then j else j - 1
  }

  ghost function Inserted<T>(s: seq<T>, k: int, x: T): seq<T>
    requires 0 <= k <= |s|
  {
    s[..k] + [x] + s[k..]
  }

  ghost function Dropped<T>(s: seq<T>, k: int): seq<T>
    requires 0 <= k < |s|
  {
    s[..k] + s[k + 1..]
  }

  lemma InsertedDistinct<T>(s: seq<T>, k: int, x: T)
    requires Distinct(s) && x !in s && 0 <= k <= |s|
    ensures Distinct(Inserted(s, k, x))
    ensures forall y :: y in Inserted(s, k, x) <==> y in s || y == x
  {
    var s' := Inserted(s, k, x);
    forall i, j | 0 <= i < |s'| && 0 <= j < |s'| ensures Differ(s', i, j) {
      assert i != k && j != k ==> Differ(s, Shrink(i, k), Shrink(j, k));
      assert i < k ==> s'[i] == s[i];
      assert i > k ==> s'[i] == s[i - 1];
      assert j < k ==> s'[j] == s[j];
      assert j > k ==> s'[j] == s[j - 1];
    }
    forall y | y in s ensures y in s' {
      var i :| 0 <= i < |s| && s[i] == y;
      assert s'[Grow(i, k)] == y;
    }
    assert s'[k] == x;
  }

  lemma DroppedDistinct<T>(s: seq<T>, k: int)
    requires Distinct(s) && 0 <= k < |s|
    ensures Distinct(Dropped(s, k))
    ensures forall y :: y in Dropped(s, k) <==> y in s && y != s[k]
  {
    var s' := Dropped(s, k);
    assert forall i :: 0 <= i < |s'| ==> s'[i] == s[Grow(i, k)];
    forall i, j | 0 <= i < |s'| && 0 <= j < |s'| ensures Differ(s', i, j) {
      assert Differ(s, Grow(i, k), Grow(j, k));
    }
    forall y | y in s' ensures y != s[k] {
      var i :| 0 <= i < |s'| && s'[i] == y;
      assert Differ(s, Grow(i, k), k);
    }
    forall y | y in s && y != s[k] ensures y in s' {
      var i :| 0 <= i < |s| && s[i] == y;
      assert s'[Shrink(i, k)] == y;
    }
  }

  lemma DroppedNext<T>(s: seq<T>, i: int)
    requires 0 <= i && i + 1 < |s|
    ensures Dropped(s, i + 1)[i := s[i + 1]] == Dropped(s, i)
  {
  }

  lemma ReplacedDistinct<T>(s: seq<T>, k: int, x: T)
    requires Distinct(s) && 0 <= k < |s| && x !in s
    ensures Distinct(s[k := x])
    ensures forall y :: y in s[k := x] <==> y == x || (y in s && y != s[k])
  {
    var s' := s[k := x];
    forall i, j | 0 <= i < |s'| && 0 <= j < |s'| ensures Differ(s', i, j) {
      assert Differ(s, i, j);
    }
    forall y | y in s' && y != x ensures y in s && y != s[k] {
      var i :| 0 <= i < |s'| && s'[i] == y;
      assert Differ(s, i, k);
    }
    forall y | y in s && y != s[k] ensures y in s' {
      var i :| 0 <= i < |s| && s[i] == y;
      assert s'[i] == y;
    }
    assert s'[k] == x;
  }

  /** Distinct numbers below n are at most n. */
  lemma {:induction false} AtMostAll(s: seq<int>, n: nat)
    requires Distinct(s) && forall i :: 0 <= i < |s| ==> 0 <= s[i] < n
    ensures |s| <= n
    decreases n
  {
    if s == [] {
    } else {
      assert 0 <= s[0] < n;
      if n - 1 in s {
        var m :| 0 <= m < |s| && s[m] == n - 1;
        var rest := Dropped(s, m);
        DroppedDistinct(s, m);
        forall i | 0 <= i < |rest| ensures 0 <= rest[i] < n - 1 { assert rest[i] in rest; }
        AtMostAll(rest, n - 1);
      } else {
        AtMostAll(s, n - 1);
      }
    }
  }

  // ------------------------------------------------------------------ by value

  /** The list without its first x. */
  function Removed<T(==)>(s: seq<T>, x: T): seq<T> {
    if s == [] then [] else if s[0] == x then s[1..] else [s[0]] + Removed(s[1..], x)
  }

  lemma {:induction false} RemovedAbsent<T>(s: seq<T>, x: T)
    requires x !in s
    ensures Removed(s, x) == s
  {
    if s != [] { RemovedAbsent(s[1..], x); }
  }

  lemma {:induction false} RemovedRest<T>(s: seq<T>, x: T, y: T)
    requires Distinct(s)
    ensures y in Removed(s, x) <==> y in s && y != x
  {
    if s != [] {
      FirstDistinct(s);
      if s[0] != x { RemovedRest(s[1..], x, y); }
    }
  }

  lemma {:induction false} RemovedDistinct<T>(s: seq<T>, x: T)
    requires Distinct(s)
    ensures Distinct(Removed(s, x))
  {
    if s != [] {
      FirstDistinct(s);
      if s[0] != x {
        RemovedDistinct(s[1..], x);
        RemovedRest(s[1..], x, s[0]);
        FirstDistinct(Removed(s, x));
      }
    }
  }

  /** std::find and erase. */
  method Erased<T(==)>(s: seq<T>, x: T) returns (r: seq<T>)
    requires x in s
    ensures r == Removed(s, x)
  {
    var it := 0;
    while s[it] != x
      invariant 0 <= it < |s| && x !in s[..it] && x in s[it..]
      decreases |s| - it
    {
      it := it + 1;
    }
    r := s[..it] + s[it + 1..];
    RemovedAt(s, x, it);
  }

  lemma {:induction false} RemovedAt<T>(s: seq<T>, x: T, at: nat)
    requires at < |s| && s[at] == x && x !in s[..at]
    ensures Removed(s, x) == s[..at] + s[at + 1..]
  {
    if at > 0 {
      assert s[0] in s[..at];
      assert s[1..][..at - 1] == s[..at][1..];
      RemovedAt(s[1..], x, at - 1);
    }
  }

  lemma RemovedFacts<T>(s: seq<T>, x: T)
    requires Distinct(s)
    ensures Distinct(Removed(s, x)) && Distinct(Removed(s, x) + [x])
    ensures forall y :: y in Removed(s, x) ==> y in s && y != x
    ensures forall y :: y in s ==> y == x || y in Removed(s, x)
  {
    RemovedDistinct(s, x);
    RemovedRest(s, x, x);
    LastDistinct(Removed(s, x), x);
    forall y | y in Removed(s, x) ensures y in s && y != x { RemovedRest(s, x, y); }
    forall y | y in s ensures y == x || y in Removed(s, x) { RemovedRest(s, x, y); }
  }

  /** The list without all that is in xs, in the same order. */
  ghost function Kept<T>(s: seq<T>, xs: set<T>): seq<T> {
    if s == [] then [] else if s[0] in xs then Kept(s[1..], xs) else [s[0]] + Kept(s[1..], xs)
  }

  lemma {:induction false} KeptHas<T>(s: seq<T>, xs: set<T>, y: T)
    ensures y in Kept(s, xs) <==> y in s && y !in xs
  {
    if s != [] { KeptHas(s[1..], xs, y); }
  }

  lemma {:induction false} KeptDistinct<T>(s: seq<T>, xs: set<T>)
    requires Distinct(s)
    ensures Distinct(Kept(s, xs))
  {
    if s != [] {
      FirstDistinct(s);
      KeptDistinct(s[1..], xs);
      KeptHas(s[1..], xs, s[0]);
      if s[0] !in xs { FirstDistinct(Kept(s, xs)); }
    }
  }

  /** Taking out one more. */
  lemma {:induction false} KeptRemoved<T>(s: seq<T>, xs: set<T>, x: T)
    requires Distinct(s)
    ensures Removed(Kept(s, xs), x) == Kept(s, xs + {x})
  {
    if s != [] {
      FirstDistinct(s);
      KeptRemoved(s[1..], xs, x);
      if s[0] == x {
        KeptHas(s[1..], xs, x);
        RemovedAbsent(Kept(s[1..], xs), x);
      }
    }
  }

  lemma {:induction false} KeptSame<T>(s: seq<T>, xs: set<T>, ys: set<T>)
    requires forall y :: y in s ==> (y in xs <==> y in ys)
    ensures Kept(s, xs) == Kept(s, ys)
  {
    if s != [] { KeptSame(s[1..], xs, ys); }
  }

  lemma {:induction false} KeptAll<T>(s: seq<T>, xs: set<T>)
    requires forall y :: y in s ==> y !in xs
    ensures Kept(s, xs) == s
  {
    if s != [] { KeptAll(s[1..], xs); }
  }

  lemma {:induction false} KeptNone<T>(s: seq<T>, xs: set<T>)
    requires forall y :: y in s ==> y in xs
    ensures Kept(s, xs) == []
  {
    if s != [] { KeptNone(s[1..], xs); }
  }

  ghost function Elements<T>(s: seq<T>): set<T> {
    set x | x in s
  }

  lemma KeptFacts<T>(s: seq<T>, xs: set<T>)
    requires Distinct(s)
    ensures Distinct(Kept(s, xs))
    ensures forall y :: y in Kept(s, xs) ==> y in s && y !in xs
  {
    KeptDistinct(s, xs);
    forall y | y in Kept(s, xs) ensures y in s && y !in xs { KeptHas(s, xs, y); }
  }

  /** Taking one more out of the list it may be in. */
  lemma KeptStep<T>(s: seq<T>, xs: set<T>, x: T, here: bool)
    requires Distinct(s) && (!here ==> x !in s)
    ensures (if here then Removed(Kept(s, xs), x) else Kept(s, xs)) == Kept(s, xs + {x})
  {
    if here { KeptRemoved(s, xs, x); } else { KeptSame(s, xs, xs + {x}); }
  }

  lemma NotBefore<T>(s: seq<T>, i: nat)
    requires Distinct(s) && i < |s|
    ensures s[i] !in Elements(s[..i])
  {
    forall j | 0 <= j < i ensures s[j] != s[i] { assert Differ(s, j, i); }
  }

  lemma ElementsNext<T>(s: seq<T>, i: nat)
    requires i < |s|
    ensures Elements(s[..i + 1]) == Elements(s[..i]) + {s[i]}
  {
    assert s[..i + 1] == s[..i] + [s[i]];
  }
}
