/** A hierarchy of states, and what a transition between two of them exits, enters and remembers.

    States are numbered so that a state comes after its superstate; 0 is Root, which is never
    entered or left. */
module StateTree {
  import opened Optional

  datatype Strategy = NoHistory | Shallow | Deep

  datatype BoxKind = EmptyBox | PlainBox | PersistentBox

  datatype Tree = Tree(parent: seq<int>, strategy: seq<Strategy>, box: seq<BoxKind>)

  const ROOT := 0

  const NONE := -1

  predicate Has(t: Tree, s: int) {
    0 <= s < |t.parent|
  }

  predicate ParentOk(t: Tree, s: int)
    requires Has(t, s)
  {
    s > 0 ==> 0 <= t.parent[s] < s
  }

  ghost predicate WellFormed(t: Tree) {
    && |t.parent| == |t.strategy| == |t.box| > 0
    && t.strategy[ROOT] == NoHistory
    && forall s :: 0 <= s < |t.parent| ==> ParentOk(t, s)
  }

  /** a is b or one of its substates, direct or not. */
  predicate IsChild(t: Tree, a: int, b: int)
    requires WellFormed(t) && Has(t, a)
    decreases a
  {
    a == b || (a > 0 && assert ParentOk(t, a); IsChild(t, t.parent[a], b))
  }

  lemma {:induction false} IsChildBounds(t: Tree, a: int, b: int)
    requires WellFormed(t) && Has(t, a) && IsChild(t, a, b)
    ensures 0 <= b <= a
    decreases a
  {
    if a != b { assert ParentOk(t, a); IsChildBounds(t, t.parent[a], b); }
  }

  lemma {:induction false} AllBelowRoot(t: Tree, a: int)
    requires WellFormed(t) && Has(t, a)
    ensures IsChild(t, a, ROOT)
    decreases a
  {
    if a > 0 { assert ParentOk(t, a); AllBelowRoot(t, t.parent[a]); }
  }

  lemma {:induction false} IsChildTransitive(t: Tree, a: int, b: int, c: int)
    requires WellFormed(t) && Has(t, a) && Has(t, b) && IsChild(t, a, b) && IsChild(t, b, c)
    ensures IsChild(t, a, c)
    decreases a
  {
    if a != b { assert ParentOk(t, a); IsChildTransitive(t, t.parent[a], b, c); }
  }

  /** Two superstates of one state are one below the other. */
  lemma {:induction false} Comparable(t: Tree, x: int, a: int, b: int)
    requires WellFormed(t) && Has(t, x) && IsChild(t, x, a) && IsChild(t, x, b) && b <= a
    ensures Has(t, a) && IsChild(t, a, b)
    decreases x
  {
    IsChildBounds(t, x, a);
    if x != a {
      assert ParentOk(t, x);
      if x == b {
      } else {
        Comparable(t, t.parent[x], a, b);
      }
    }
  }

  // ------------------------------------------------------------------ active states

  /** The states entered while s is current, outermost first: s and its superstates up to Root. */
  ghost function Chain(t: Tree, s: int): seq<int>
    requires WellFormed(t) && Has(t, s)
    decreases s
  {
    if s == ROOT then [] else assert ParentOk(t, s); Chain(t, t.parent[s]) + [s]
  }

  lemma {:induction false} InChain(t: Tree, s: int, x: int)
    requires WellFormed(t) && Has(t, s)
    ensures x in Chain(t, s) <==> x != ROOT && IsChild(t, s, x)
    decreases s
  {
    if s != ROOT { assert ParentOk(t, s); InChain(t, t.parent[s], x); }
  }

  datatype Action = Entry(state: int) | Exit(state: int)

  /** Replays actions on a stack of active states: a state is entered on top of its superstate, and
      only the innermost one is left. */
  ghost function Play(t: Tree, stack: seq<int>, actions: seq<Action>): Option<seq<int>>
    decreases |actions|
  {
    if actions == [] then Some(stack)
    else
      match actions[0]
      case Entry(s) =>
        if Has(t, s) && s != ROOT && t.parent[s] == (if stack == [] then ROOT else stack[|stack| - 1])
        then Play(t, stack + [s], actions[1..]) else None
      case Exit(s) =>
        if stack != [] && stack[|stack| - 1] == s then Play(t, stack[..|stack| - 1], actions[1..]) else None
  }

  lemma {:induction false} PlayAppend(t: Tree, stack: seq<int>, a: seq<Action>, b: seq<Action>)
    requires Play(t, stack, a).Some?
    ensures Play(t, stack, a + b) == Play(t, Play(t, stack, a).value, b)
    decreases |a|
  {
    if a == [] {
      assert a + b == b;
    } else {
      assert (a + b)[1..] == a[1..] + b;
      match a[0]
      case Entry(s) => PlayAppend(t, stack + [s], a[1..], b);
      case Exit(s) => PlayAppend(t, stack[..|stack| - 1], a[1..], b);
    }
  }

  ghost function Count(actions: seq<Action>, a: Action): nat {
    if actions == [] then 0 else (if actions[0] == a then 1 else 0) + Count(actions[1..], a)
  }

  ghost function Times(stack: seq<int>, s: int): nat {
    if stack == [] then 0 else Times(stack[..|stack| - 1], s) + (if stack[|stack| - 1] == s then 1 else 0)
  }

  /** A state has been entered as often as it has been left, and once more while it is active. */
  lemma {:induction false} EntriesMinusExits(t: Tree, stack: seq<int>, actions: seq<Action>, s: int)
    requires Play(t, stack, actions).Some?
    ensures Times(stack, s) + Count(actions, Entry(s))
      == Times(Play(t, stack, actions).value, s) + Count(actions, Exit(s))
    decreases |actions|
  {
    if actions != [] {
      match actions[0]
      case Entry(x) =>
        EntriesMinusExits(t, stack + [x], actions[1..], s);
        assert (stack + [x])[..|stack|] == stack;
      case Exit(x) =>
        EntriesMinusExits(t, stack[..|stack| - 1], actions[1..], s);
    }
  }

  // ------------------------------------------------------------------ transitions

  /** What leaving s for next exits: from the inside out, as far as the state does not contain next. */
  ghost function Exits(t: Tree, s: int, next: int): seq<Action>
    requires WellFormed(t) && Has(t, s) && Has(t, next)
    decreases s
  {
    if s == ROOT then []
    else if s == next || !IsChild(t, next, s) then assert ParentOk(t, s); [Exit(s)] + Exits(t, t.parent[s], next)
    else []
  }

  /** What entering s from previous enters: s itself at first, and what does not contain previous. */
  ghost function Entries(t: Tree, s: int, previous: int, first: bool): seq<Action>
    requires WellFormed(t) && Has(t, s) && Has(t, previous)
    decreases s
  {
    if s == ROOT then []
    else if first || !IsChild(t, previous, s) then
      assert ParentOk(t, s); Entries(t, t.parent[s], previous, false) + [Entry(s)]
    else []
  }

  ghost function ExitStop(t: Tree, s: int, next: int): (r: int)
    requires WellFormed(t) && Has(t, s) && Has(t, next)
    ensures Has(t, r)
    decreases s
  {
    if s != ROOT && (s == next || !IsChild(t, next, s)) then
      assert ParentOk(t, s); ExitStop(t, t.parent[s], next)
    else s
  }

  ghost function EntryStop(t: Tree, s: int, previous: int, first: bool): (r: int)
    requires WellFormed(t) && Has(t, s) && Has(t, previous)
    ensures Has(t, r)
    decreases s
  {
    if s != ROOT && (first || !IsChild(t, previous, s)) then
      assert ParentOk(t, s); EntryStop(t, t.parent[s], previous, false)
    else s
  }

  lemma ChainTop(t: Tree, s: int)
    requires WellFormed(t) && Has(t, s) && s != ROOT
    ensures ParentOk(t, s) && Chain(t, s)[..|Chain(t, s)| - 1] == Chain(t, t.parent[s])
    ensures var c := Chain(t, t.parent[s]); t.parent[s] == if c == [] then ROOT else c[|c| - 1]
  {
    assert ParentOk(t, s);
  }

  lemma {:induction false} PlayExits(t: Tree, s: int, next: int)
    requires WellFormed(t) && Has(t, s) && Has(t, next)
    ensures Play(t, Chain(t, s), Exits(t, s, next)) == Some(Chain(t, ExitStop(t, s, next)))
    decreases s
  {
    if s != ROOT && (s == next || !IsChild(t, next, s)) {
      ChainTop(t, s);
      PlayExits(t, t.parent[s], next);
    }
  }

  lemma {:induction false} PlayEntries(t: Tree, s: int, previous: int, first: bool)
    requires WellFormed(t) && Has(t, s) && Has(t, previous)
    ensures Play(t, Chain(t, EntryStop(t, s, previous, first)), Entries(t, s, previous, first)) == Some(Chain(t, s))
    decreases s
  {
    if s != ROOT && (first || !IsChild(t, previous, s)) {
      ChainTop(t, s);
      PlayEntries(t, t.parent[s], previous, false);
      PlayAppend(t, Chain(t, EntryStop(t, s, previous, first)), Entries(t, t.parent[s], previous, false), [Entry(s)]);
    }
  }

  /** Leaving stops at the innermost superstate of both that is not the target itself. */
  ghost predicate Meets(t: Tree, s: int, next: int, x: int)
    requires WellFormed(t) && Has(t, s) && Has(t, next)
  {
    && Has(t, x) && IsChild(t, s, x) && IsChild(t, next, x) && (x != next || x == ROOT)
    && forall y :: IsChild(t, s, y) && IsChild(t, next, y) && y != next ==> y <= x
  }

  lemma {:induction false} ExitStopMeets(t: Tree, s: int, next: int)
    requires WellFormed(t) && Has(t, s) && Has(t, next)
    ensures Meets(t, s, next, ExitStop(t, s, next))
    decreases s
  {
    AllBelowRoot(t, next);
    if s != ROOT && (s == next || !IsChild(t, next, s)) {
      assert ParentOk(t, s);
      ExitStopMeets(t, t.parent[s], next);
    } else {
      forall y | IsChild(t, s, y) && IsChild(t, next, y) && y != next ensures y <= s { IsChildBounds(t, s, y); }
    }
  }

  lemma {:induction false} EntryStopMeets(t: Tree, s: int, next: int, a: int, first: bool)
    requires WellFormed(t) && Has(t, s) && Has(t, next) && Has(t, a) && IsChild(t, next, a) && first == (a == next)
    requires forall y :: IsChild(t, s, y) && IsChild(t, next, y) && y != next ==> y <= a
    ensures Meets(t, s, next, EntryStop(t, a, s, first))
    decreases a
  {
    AllBelowRoot(t, s);
    AllBelowRoot(t, next);
    if a != ROOT && (first || !IsChild(t, s, a)) {
      assert ParentOk(t, a);
      assert IsChild(t, a, t.parent[a]);
      IsChildTransitive(t, next, a, t.parent[a]);
      forall y | IsChild(t, s, y) && IsChild(t, next, y) && y != next ensures y <= t.parent[a] {
        IsChildBounds(t, next, y);
        Comparable(t, next, a, y);
        IsChildBounds(t, t.parent[a], y);
      }
      IsChildBounds(t, next, a);
      EntryStopMeets(t, s, next, t.parent[a], false);
    }
  }

  lemma MeetIsUnique(t: Tree, s: int, next: int, x: int, y: int)
    requires WellFormed(t) && Has(t, s) && Has(t, next) && Meets(t, s, next, x) && Meets(t, s, next, y)
    ensures x == y
  {
    IsChildBounds(t, next, x);
    IsChildBounds(t, next, y);
  }

  /** Leaving and entering stop at the same state. */
  lemma StopsAgree(t: Tree, current: int, next: int)
    requires WellFormed(t) && Has(t, current) && Has(t, next)
    ensures ExitStop(t, current, next) == EntryStop(t, next, current, true)
  {
    ExitStopMeets(t, current, next);
    forall y | IsChild(t, current, y) && IsChild(t, next, y) && y != next
      ensures y <= next
    {
      IsChildBounds(t, next, y);
    }
    EntryStopMeets(t, current, next, next, true);
    MeetIsUnique(t, current, next, ExitStop(t, current, next), EntryStop(t, next, current, true));
  }

  /** A transition takes the active states from those of `current` to those of `next`. */
  lemma TransitionActive(t: Tree, current: int, next: int)
    requires WellFormed(t) && Has(t, current) && Has(t, next)
    ensures Play(t, Chain(t, current), Exits(t, current, next) + Entries(t, next, current, true))
      == Some(Chain(t, next))
  {
    PlayExits(t, current, next);
    PlayEntries(t, next, current, true);
    StopsAgree(t, current, next);
    PlayAppend(t, Chain(t, current), Exits(t, current, next), Entries(t, next, current, true));
  }

  lemma {:induction false} ExitsExact(t: Tree, s: int, next: int)
    requires WellFormed(t) && Has(t, s) && Has(t, next)
    ensures var c, stay := Chain(t, s), Chain(t, ExitStop(t, s, next));
      && stay <= c && |Exits(t, s, next)| == |c| - |stay|
      && forall k :: 0 <= k < |c| - |stay| ==> Exits(t, s, next)[k] == Exit(c[|c| - 1 - k])
    decreases s
  {
    if s != ROOT && (s == next || !IsChild(t, next, s)) {
      ChainTop(t, s);
      ExitsExact(t, t.parent[s], next);
    }
  }

  lemma {:induction false} EntriesExact(t: Tree, s: int, previous: int, first: bool)
    requires WellFormed(t) && Has(t, s) && Has(t, previous)
    ensures var c, stay := Chain(t, s), Chain(t, EntryStop(t, s, previous, first));
      && stay <= c && |Entries(t, s, previous, first)| == |c| - |stay|
      && forall k :: 0 <= k < |c| - |stay| ==> Entries(t, s, previous, first)[k] == Entry(c[|stay| + k])
    decreases s
  {
    if s != ROOT && (first || !IsChild(t, previous, s)) {
      ChainTop(t, s);
      EntriesExact(t, t.parent[s], previous, false);
    }
  }

  /** A transition leaves, from the inside out, exactly the active states below the innermost superstate of both that
      is not the target, and enters from there, from the outside in, exactly the superstates of the target and
      itself. */
  lemma TransitionExact(t: Tree, current: int, next: int) returns (meet: int)
    requires WellFormed(t) && Has(t, current) && Has(t, next)
    ensures Meets(t, current, next, meet)
    ensures var from, to, stay := Chain(t, current), Chain(t, next), Chain(t, meet);
      var exits, entries := Exits(t, current, next), Entries(t, next, current, true);
      && stay <= from && stay <= to && |exits| == |from| - |stay| && |entries| == |to| - |stay|
      && (forall k :: 0 <= k < |exits| ==> exits[k] == Exit(from[|from| - 1 - k]))
      && (forall k :: 0 <= k < |entries| ==> entries[k] == Entry(to[|stay| + k]))
  {
    meet := ExitStop(t, current, next);
    ExitStopMeets(t, current, next);
    StopsAgree(t, current, next);
    ExitsExact(t, current, next);
    EntriesExact(t, next, current, true);
  }

  // ------------------------------------------------------------------ history

  /** Some superstate of s keeps a history: otherwise there is nothing to bubble up to. */
  predicate HistoryAbove(t: Tree, s: int)
    requires WellFormed(t) && Has(t, s)
    decreases s
  {
    s > 0 && assert ParentOk(t, s); (t.strategy[t.parent[s]] != NoHistory || HistoryAbove(t, t.parent[s]))
  }

  /** The histories after s tells its superstates that `deep` has been left. */
  ghost function Remember(t: Tree, h: seq<int>, s: int, deep: int): (h': seq<int>)
    requires WellFormed(t) && |h| == |t.parent| && Has(t, s)
    ensures |h'| == |h|
    decreases s
  {
    if s == ROOT then h
    else
      assert ParentOk(t, s);
      var p := t.parent[s];
      var h' := match t.strategy[p]
        case NoHistory => h
        case Shallow => h[p := s]
        case Deep => h[p := deep];
      if HistoryAbove(t, p) then Remember(t, h', p, deep) else h'
  }

  lemma RememberStep(t: Tree, h: seq<int>, s: int, deep: int)
    requires WellFormed(t) && |h| == |t.parent| && Has(t, s) && s != ROOT
    ensures 0 <= t.parent[s] < s
    ensures var p := t.parent[s];
      var h' := if t.strategy[p] == NoHistory then h else if t.strategy[p] == Shallow then h[p := s] else h[p := deep];
      Remember(t, h, s, deep) == if HistoryAbove(t, p) then Remember(t, h', p, deep) else h'
  {
    assert ParentOk(t, s);
  }

  /** The substate of x that contains s. */
  ghost function Toward(t: Tree, s: int, x: int): int
    requires WellFormed(t) && Has(t, s) && IsChild(t, s, x) && s != x
    decreases s
  {
    assert ParentOk(t, s);
    if t.parent[s] == x then s else Toward(t, t.parent[s], x)
  }

  lemma {:induction false} TowardBetween(t: Tree, s: int, x: int)
    requires WellFormed(t) && Has(t, s) && IsChild(t, s, x) && s != x
    ensures Has(t, Toward(t, s, x)) && t.parent[Toward(t, s, x)] == x && Toward(t, s, x) > x
    ensures IsChild(t, s, Toward(t, s, x)) && IsChild(t, Toward(t, s, x), x)
    decreases s
  {
    assert ParentOk(t, s);
    if t.parent[s] != x { TowardBetween(t, t.parent[s], x); }
  }

  /** What x is to remember when the search passes on from s with `deep` left. */
  ghost function Remembered(t: Tree, h: seq<int>, s: int, deep: int, x: int): int
    requires WellFormed(t) && |h| == |t.parent| && Has(t, s) && Has(t, x)
  {
    if s != x && IsChild(t, s, x) then
      match t.strategy[x]
      case NoHistory => h[x]
      case Shallow => Toward(t, s, x)
      case Deep => deep
    else h[x]
  }

  /** Every proper superstate with shallow history records its direct substate on the path, every one
      with deep history the state left itself, and nothing else changes. */
  lemma {:induction false} RememberExact(t: Tree, h: seq<int>, s: int, deep: int, x: int)
    requires WellFormed(t) && |h| == |t.parent| && Has(t, s) && Has(t, x)
    ensures Remember(t, h, s, deep)[x] == Remembered(t, h, s, deep, x)
    decreases s
  {
    if s != ROOT {
      assert ParentOk(t, s);
      var p := t.parent[s];
      if IsChild(t, p, x) { IsChildBounds(t, p, x); }
      var h' := match t.strategy[p]
        case NoHistory => h
        case Shallow => h[p := s]
        case Deep => h[p := deep];
      if HistoryAbove(t, p) {
        RememberExact(t, h', p, deep, x);
      } else if p != x && IsChild(t, p, x) {
        NoneAbove(t, p, x);
      }
    } else if IsChild(t, s, x) {
      IsChildBounds(t, s, x);
    }
  }

  lemma {:induction false} NoneAbove(t: Tree, s: int, x: int)
    requires WellFormed(t) && Has(t, s) && IsChild(t, s, x) && s != x && !HistoryAbove(t, s)
    ensures Has(t, x) && t.strategy[x] == NoHistory
    decreases s
  {
    assert ParentOk(t, s);
    IsChildBounds(t, s, x);
    if t.parent[s] != x { NoneAbove(t, t.parent[s], x); }
  }

  /** A recorded history is a proper substate. */
  ghost predicate HistoryOk(t: Tree, h: seq<int>, x: int)
    requires WellFormed(t) && |h| == |t.parent| && Has(t, x)
  {
    h[x] != NONE ==> Has(t, h[x]) && h[x] != x && IsChild(t, h[x], x)
  }

  lemma RememberOk(t: Tree, h: seq<int>, s: int, x: int)
    requires WellFormed(t) && |h| == |t.parent| && Has(t, s) && Has(t, x) && HistoryOk(t, h, x)
    ensures HistoryOk(t, Remember(t, h, s, s), x)
  {
    RememberExact(t, h, s, s, x);
    if s != x && IsChild(t, s, x) { TowardBetween(t, s, x); }
  }

  // ------------------------------------------------------------------ boxes

  /** Which states have a box after some actions: entering makes one, leaving deletes a plain one. */
  ghost function PlayBoxes(t: Tree, boxes: seq<bool>, actions: seq<Action>): (b: seq<bool>)
    requires |boxes| == |t.box|
    ensures |b| == |boxes|
    decreases |actions|
  {
    if actions == [] then boxes
    else
      var rest := actions[1..];
      match actions[0]
      case Entry(s) => PlayBoxes(t, if 0 <= s < |boxes| then boxes[s := true] else boxes, rest)
      case Exit(s) => PlayBoxes(t, if 0 <= s < |boxes| && t.box[s] == PlainBox then boxes[s := false] else boxes, rest)
  }

  /** A box that is not plain stays for ever. */
  lemma {:induction false} OtherBoxesStay(t: Tree, boxes: seq<bool>, actions: seq<Action>, s: int)
    requires |boxes| == |t.box| && 0 <= s < |boxes| && t.box[s] != PlainBox
    ensures PlayBoxes(t, boxes, actions)[s] <==> boxes[s] || Entry(s) in actions
    decreases |actions|
  {
    if actions != [] {
      var boxes' := match actions[0]
        case Entry(x) => if 0 <= x < |boxes| then boxes[x := true] else boxes
        case Exit(x) => if 0 <= x < |boxes| && t.box[x] == PlainBox then boxes[x := false] else boxes;
      OtherBoxesStay(t, boxes', actions[1..], s);
      assert actions == [actions[0]] + actions[1..];
    }
  }

  lemma {:induction false} PlayBoxesAppend(t: Tree, boxes: seq<bool>, a: seq<Action>, b: seq<Action>)
    requires |boxes| == |t.box|
    ensures PlayBoxes(t, boxes, a + b) == PlayBoxes(t, PlayBoxes(t, boxes, a), b)
    decreases |a|
  {
    if a == [] {
      assert a + b == b;
    } else {
      assert (a + b)[1..] == a[1..] + b;
      match a[0]
      case Entry(s) => PlayBoxesAppend(t, if 0 <= s < |boxes| then boxes[s := true] else boxes, a[1..], b);
      case Exit(s) =>
        PlayBoxesAppend(t, if 0 <= s < |boxes| && t.box[s] == PlainBox then boxes[s := false] else boxes, a[1..], b);
    }
  }

  lemma ExitsFirst(t: Tree, boxes: seq<bool>, s: int, rest: seq<Action>)
    requires |boxes| == |t.box|
    ensures PlayBoxes(t, boxes, [Exit(s)] + rest)
      == PlayBoxes(t, if 0 <= s < |boxes| && t.box[s] == PlainBox then boxes[s := false] else boxes, rest)
  {
    assert ([Exit(s)] + rest)[1..] == rest;
  }

  /** s and its superstates have boxes. */
  ghost predicate Boxed(t: Tree, boxes: seq<bool>, s: int)
    requires WellFormed(t) && |boxes| == |t.parent| && Has(t, s)
    decreases s
  {
    s == ROOT || (boxes[s] && assert ParentOk(t, s); Boxed(t, boxes, t.parent[s]))
  }

  lemma {:induction false} BoxedFrame(t: Tree, boxes: seq<bool>, s: int, x: int, b: bool)
    requires WellFormed(t) && |boxes| == |t.parent| && Has(t, s) && s < x < |boxes| && Boxed(t, boxes, s)
    ensures Boxed(t, boxes[x := b], s)
    decreases s
  {
    if s != ROOT { assert ParentOk(t, s); BoxedFrame(t, boxes, t.parent[s], x, b); }
  }

  lemma {:induction false} MatchBoxed(t: Tree, boxes: seq<bool>, current: int, s: int)
    requires WellFormed(t) && |boxes| == |t.parent| && Has(t, current) && BoxesMatch(t, boxes, Chain(t, current))
    requires Has(t, s) && IsChild(t, current, s)
    ensures Boxed(t, boxes, s)
    decreases s
  {
    if s != ROOT {
      InChain(t, current, s);
      assert BoxOk(t, boxes, Chain(t, current), s) && ParentOk(t, s);
      assert IsChild(t, s, t.parent[s]);
      IsChildTransitive(t, current, s, t.parent[s]);
      MatchBoxed(t, boxes, current, t.parent[s]);
    }
  }

  ghost predicate BoxOk(t: Tree, boxes: seq<bool>, stack: seq<int>, s: int)
    requires 0 <= s < |boxes| == |t.box|
  {
    && (s in stack ==> boxes[s])
    && (t.box[s] == PlainBox && boxes[s] ==> s in stack)
  }

  /** Active states have boxes, and plain boxes belong to active states. */
  ghost predicate BoxesMatch(t: Tree, boxes: seq<bool>, stack: seq<int>) {
    |boxes| == |t.box| && forall s :: 0 <= s < |boxes| ==> BoxOk(t, boxes, stack, s)
  }

  ghost predicate Rising(stack: seq<int>) {
    forall i, j :: 0 <= i < |stack| && 0 <= j < |stack| ==> RisesAt(stack, i, j)
  }

  ghost predicate RisesAt(stack: seq<int>, i: int, j: int)
    requires 0 <= i < |stack| && 0 <= j < |stack|
  {
    i < j ==> stack[i] < stack[j]
  }

  lemma {:induction false} BoxesFollow(t: Tree, boxes: seq<bool>, stack: seq<int>, actions: seq<Action>)
    requires WellFormed(t) && Play(t, stack, actions).Some? && Rising(stack) && BoxesMatch(t, boxes, stack)
    ensures Rising(Play(t, stack, actions).value)
    ensures BoxesMatch(t, PlayBoxes(t, boxes, actions), Play(t, stack, actions).value)
    decreases |actions|
  {
    if actions != [] {
      match actions[0]
      case Entry(s) =>
        assert ParentOk(t, s);
        var stack', boxes' := stack + [s], boxes[s := true];
        forall x | 0 <= x < |boxes'| ensures BoxOk(t, boxes', stack', x) { assert BoxOk(t, boxes, stack, x); }
        forall i, j | 0 <= i < |stack'| && 0 <= j < |stack'| ensures RisesAt(stack', i, j) {
          if i < j < |stack| { assert RisesAt(stack, i, j); }
          if j == |stack| && i < j { assert RisesAt(stack, i, |stack| - 1); }
        }
        BoxesFollow(t, boxes', stack', actions[1..]);
      case Exit(s) =>
        var stack' := stack[..|stack| - 1];
        var boxes' := if 0 <= s < |boxes| && t.box[s] == PlainBox then boxes[s := false] else boxes;
        assert stack == stack' + [s];
        forall i, j | 0 <= i < |stack'| && 0 <= j < |stack'| ensures RisesAt(stack', i, j) {
          assert RisesAt(stack, i, j);
        }
        forall i | 0 <= i < |stack'| ensures stack'[i] != s { assert RisesAt(stack, i, |stack| - 1); }
        forall x | 0 <= x < |boxes'| ensures BoxOk(t, boxes', stack', x) { assert BoxOk(t, boxes, stack, x); }
        BoxesFollow(t, boxes', stack', actions[1..]);
    }
  }

  lemma {:induction false} ChainRises(t: Tree, s: int)
    requires WellFormed(t) && Has(t, s)
    ensures Rising(Chain(t, s)) && forall x :: x in Chain(t, s) ==> x <= s
    decreases s
  {
    if s != ROOT {
      assert ParentOk(t, s);
      ChainRises(t, t.parent[s]);
      var c := Chain(t, s);
      forall i, j | 0 <= i < |c| && 0 <= j < |c| ensures RisesAt(c, i, j) {
        if i < j < |c| - 1 { assert RisesAt(Chain(t, t.parent[s]), i, j); }
        if i < j { assert c[i] in Chain(t, t.parent[s]); }
      }
    }
  }

  lemma {:induction false} TimesInRising(stack: seq<int>, s: int)
    requires Rising(stack)
    ensures Times(stack, s) == if s in stack then 1 else 0
  {
    if stack != [] {
      var n := |stack| - 1;
      forall i, j | 0 <= i < n && 0 <= j < n ensures RisesAt(stack[..n], i, j) { assert RisesAt(stack, i, j); }
      TimesInRising(stack[..n], s);
      forall i | 0 <= i < n ensures stack[i] != stack[n] { assert RisesAt(stack, i, n); }
      assert stack == stack[..n] + [stack[n]];
    }
  }

  // ------------------------------------------------------------------ chains of init transitions

  /** The states a transition visits: the first one asked for, each later one asked for by the init
      action of the one before. */
  ghost predicate Deepening(t: Tree, path: seq<int>)
    requires WellFormed(t)
  {
    && path != []
    && (forall k :: 0 <= k < |path| ==> Has(t, path[k]))
    && (forall k :: 0 <= k < |path| ==> DeeperAt(t, path, k))
  }

  ghost predicate DeeperAt(t: Tree, path: seq<int>, k: int)
    requires WellFormed(t) && 0 <= k < |path| && Has(t, path[k])
  {
    k > 0 ==> path[k] != path[k - 1] && IsChild(t, path[k], path[k - 1])
  }

  lemma DeeperBy(t: Tree, path: seq<int>, next: int)
    requires WellFormed(t) && Has(t, next)
    requires path != [] ==> Deepening(t, path) && next != path[|path| - 1] && IsChild(t, next, path[|path| - 1])
    ensures Deepening(t, path + [next])
  {
    var longer := path + [next];
    forall k | 0 <= k < |longer| ensures Has(t, longer[k]) && DeeperAt(t, longer, k) {
      assert k < |path| ==> DeeperAt(t, path, k);
    }
  }

  /** How many states are active when s is the current one. */
  ghost function Depth(t: Tree, s: int): nat
    requires WellFormed(t) && Has(t, s)
  {
    |Chain(t, s)|
  }

  /** The greatest depth among the first n states. */
  ghost function HeightOf(t: Tree, n: nat): (h: nat)
    requires WellFormed(t) && n <= |t.parent|
    ensures forall s :: 0 <= s < n ==> Depth(t, s) <= h
    ensures h == 0 || exists s :: 0 <= s < n && Depth(t, s) == h
  {
    if n == 0 then 0
    else
      var h := HeightOf(t, n - 1);
      if Depth(t, n - 1) > h then Depth(t, n - 1) else h
  }

  ghost function Height(t: Tree): nat
    requires WellFormed(t)
  {
    HeightOf(t, |t.parent|)
  }

  lemma {:induction false} ChildDepth(t: Tree, a: int, b: int)
    requires WellFormed(t) && Has(t, a) && IsChild(t, a, b)
    ensures Has(t, b) && Depth(t, b) <= Depth(t, a)
    ensures a != b ==> Depth(t, b) < Depth(t, a)
    decreases a
  {
    if a != b {
      assert ParentOk(t, a);
      ChildDepth(t, t.parent[a], b);
    }
  }

  /** A chain of init transitions gains at least one level with each. */
  lemma {:induction false} ChainOfInits(t: Tree, path: seq<int>, n: nat)
    requires WellFormed(t) && Deepening(t, path) && n < |path|
    ensures Depth(t, path[0]) + n <= Depth(t, path[n])
  {
    if n > 0 {
      ChainOfInits(t, path, n - 1);
      assert DeeperAt(t, path, n);
      ChildDepth(t, path[n], path[n - 1]);
    }
  }

  /** So it is no longer than there are levels below the state that it starts from. */
  lemma ChainBounded(t: Tree, path: seq<int>)
    requires WellFormed(t) && Deepening(t, path)
    ensures |path| <= 1 + Depth(t, path[|path| - 1]) - Depth(t, path[0]) <= 1 + Height(t) - Depth(t, path[0])
  {
    ChainOfInits(t, path, |path| - 1);
    assert Has(t, path[|path| - 1]);
  }

  ghost function Moves(t: Tree, s: int, path: seq<int>): seq<Action>
    requires WellFormed(t) && Has(t, s) && forall k :: 0 <= k < |path| ==> Has(t, path[k])
    decreases |path|
  {
    if path == [] then []
    else
      var n := |path| - 1;
      var last := if n == 0 then s else path[n - 1];
      Moves(t, s, path[..n]) + (Exits(t, last, path[n]) + Entries(t, path[n], last, true))
  }

  /** Each step records history for the state it leaves from and clears that of the one it comes to. */
  ghost function Histories(t: Tree, h: seq<int>, s: int, path: seq<int>): (h': seq<int>)
    requires WellFormed(t) && |h| == |t.parent| && Has(t, s) && forall k :: 0 <= k < |path| ==> Has(t, path[k])
    ensures |h'| == |h|
    decreases |path|
  {
    if path == [] then h
    else
      var n := |path| - 1;
      var last := if n == 0 then s else path[n - 1];
      assert Has(t, path[n]);
      Remember(t, Histories(t, h, s, path[..n]), last, last)[path[n] := NONE]
  }

  /** Between two rounds of the transition loop: `path` has been visited so far, `pending` is next. */
  ghost predicate Progress(t: Tree, s: int, h: seq<int>, first: int, toHistory: bool,
                           path: seq<int>, current: int, pending: int, history: seq<int>)
  {
    && WellFormed(t) && Has(t, s) && |h| == |t.parent| && Has(t, current) && Has(t, first)
    && (pending != NONE ==> Has(t, pending))
    && (path == [] ==> pending == first && current == s && history == h)
    && (path != [] ==>
          && Deepening(t, path) && path[0] == first && path[|path| - 1] == current
          && history == Histories(t, h, s, path))
    && (path != [] && pending != NONE ==> pending != current && IsChild(t, pending, current))
    && (|path| == 1 ==> FollowsHistory(t, h, s, first, toHistory, pending))
    && (|path| > 1 ==> FollowsHistory(t, h, s, first, toHistory, path[1]) && (first == ROOT ==> toHistory))
  }

  /** A transition to history goes on to what has been remembered, if anything. */
  ghost predicate FollowsHistory(t: Tree, h: seq<int>, s: int, first: int, toHistory: bool, next: int)
    requires WellFormed(t) && Has(t, s) && Has(t, first) && |h| == |t.parent|
  {
    && (toHistory && Remember(t, h, s, s)[first] != NONE ==> next == Remember(t, h, s, s)[first])
    && (first == ROOT && !toHistory ==> next == NONE)
  }

  lemma ProgressStep(t: Tree, s: int, h: seq<int>, first: int, toHistory: bool,
                     path: seq<int>, current: int, pending: int, history: seq<int>, next: int)
    requires Progress(t, s, h, first, toHistory, path, current, pending, history) && pending != NONE
    requires next != NONE ==> Has(t, next) && next != pending && IsChild(t, next, pending)
    requires path == [] ==> FollowsHistory(t, h, s, first, toHistory, next)
    ensures |history| == |t.parent|
    ensures Progress(t, s, h, first, toHistory, path + [pending], pending, next,
        Remember(t, history, current, current)[pending := NONE])
    ensures path != [] ==> pending > current
    ensures path == [] ==> Moves(t, s, path) == []
    ensures forall k :: 0 <= k < |path| ==> Has(t, path[k])
    ensures Moves(t, s, path + [pending])
      == Moves(t, s, path) + (Exits(t, current, pending) + Entries(t, pending, current, true))
  {
    DeeperBy(t, path, pending);
    assert (path + [pending])[..|path|] == path;
    if path != [] { IsChildBounds(t, pending, current); }
  }
}
