/** The state machine engine: the current state, histories and boxes, changed by transitions. */
module Macho {
  import opened Lists
  import opened Optional
  import opened StateTree

  class Machine {
    const tree: Tree
    var currentState: int
    var pendingState: int
    var pendingHistory: bool
    var history: seq<int>
    var boxes: seq<bool>
    /** All entry and exit actions so far. */
    ghost var trace: seq<Action>

    constructor (tree: Tree)
      requires WellFormed(tree)
      ensures this.tree == tree && Valid() && currentState == NONE && trace == []
    {
      this.tree := tree;
      currentState, pendingState, pendingHistory := NONE, NONE, false;
      history := seq(|tree.parent|, _ => NONE);
      boxes := seq(|tree.parent|, _ => false);
      trace := [];
    }

    ghost function Active(): seq<int>
      requires WellFormed(tree)
      reads this`currentState
    {
      if Has(tree, currentState) then Chain(tree, currentState) else []
    }

    /** What holds whenever no transition is under way. */
    ghost predicate Valid()
      reads this
    {
      && WellFormed(tree) && pendingState == NONE
      && (currentState == NONE || Has(tree, currentState))
      && Consistent()
    }

    /** The actions so far have made exactly the current state and its superstates active, these have
        boxes, and histories are proper substates. */
    ghost predicate Consistent()
      requires WellFormed(tree)
      reads this
    {
      && |history| == |boxes| == |tree.parent|
      && Play(tree, [], trace) == Some(Active())
      && BoxesMatch(tree, boxes, Active())
      && Histories()
    }

    ghost predicate Histories()
      requires WellFormed(tree)
      reads this`history
    {
      |history| == |tree.parent| && forall x :: 0 <= x < |history| ==> HistoryOk(tree, history, x)
    }

    // ---------------------------------------------------------------- actions of one transition

    method CreateBox(s: int)
      requires 0 <= s < |boxes|
      modifies this`boxes
      ensures boxes == old(boxes)[s := true]
    {
      if !boxes[s] {
        boxes := boxes[s := true];
      }
    }

    /** Default: deletes the box; states with persistent boxes override it to do nothing. */
    method DeleteBox(s: int)
      requires WellFormed(tree) && Has(tree, s) && |boxes| == |tree.parent| && boxes[s] && tree.box[s] != EmptyBox
      modifies this`boxes
      ensures boxes == if tree.box[s] == PlainBox then old(boxes)[s := false] else old(boxes)
    {
      if tree.box[s] == PlainBox {
        boxes := boxes[s := false];
      }
    }

    method EnterState(s: int, previous: int, first: bool)
      requires WellFormed(tree) && Has(tree, s) && Has(tree, previous) && |boxes| == |tree.parent|
      modifies this`boxes, this`trace
      ensures trace == old(trace) + Entries(tree, s, previous, first)
      ensures boxes == PlayBoxes(tree, old(boxes), Entries(tree, s, previous, first))
      decreases s
    {
      if s == ROOT {
        return;
      }
      if first || !IsChild(tree, previous, s) {
        assert ParentOk(tree, s);
        EnterState(tree.parent[s], previous, false);
        CreateBox(s);
        trace := trace + [Entry(s)];
        PlayBoxesAppend(tree, old(boxes), Entries(tree, tree.parent[s], previous, false), [Entry(s)]);
      }
    }

    method ExitState(s: int, next: int)
      requires WellFormed(tree) && Has(tree, s) && Has(tree, next) && |boxes| == |tree.parent|
      requires Boxed(tree, boxes, s)
      modifies this`boxes, this`trace
      ensures trace == old(trace) + Exits(tree, s, next)
      ensures boxes == PlayBoxes(tree, old(boxes), Exits(tree, s, next))
      decreases s
    {
      if s == ROOT {
        return;
      }
      if s == next || !IsChild(tree, next, s) {
        assert ParentOk(tree, s);
        BoxedFrame(tree, boxes, tree.parent[s], s, false);
        LeaveState(s);
        ExitState(tree.parent[s], next);
        ghost var rest := Exits(tree, tree.parent[s], next);
        ExitsFirst(tree, old(boxes), s, rest);
        Associates(old(trace), [Exit(s)], rest);
      }
    }

    method LeaveState(s: int)
      requires WellFormed(tree) && Has(tree, s) && |boxes| == |tree.parent| && boxes[s]
      modifies this`boxes, this`trace
      ensures trace == old(trace) + [Exit(s)]
      ensures boxes == if tree.box[s] == PlainBox then old(boxes)[s := false] else old(boxes)
    {
      trace := trace + [Exit(s)];
      if tree.box[s] != EmptyBox {
        DeleteBox(s);
      }
    }

    /** Tells the superstate of s that `deep` is left. */
    method SetHistorySuper(s: int, deep: int)
      requires WellFormed(tree) && Has(tree, s) && |history| == |tree.parent|
      modifies this`history
      ensures history == Remember(tree, old(history), s, deep)
      decreases s, 1
    {
      if s != ROOT {
        assert ParentOk(tree, s);
        SaveHistory(tree.parent[s], s, deep);
      }
    }

    method SaveHistory(p: int, shallow: int, deep: int)
      requires WellFormed(tree) && Has(tree, shallow) && shallow != ROOT && p == tree.parent[shallow]
        && 0 <= p < shallow
      requires |history| == |tree.parent|
      modifies this`history
      ensures history == Remember(tree, old(history), shallow, deep)
      decreases shallow, 0
    {
      match tree.strategy[p] {
        case NoHistory =>
        case Shallow => history := history[p := shallow];
        case Deep => history := history[p := deep];
      }
      RememberStep(tree, old(history), shallow, deep);
      if HistoryAbove(tree, p) {
        SetHistorySuper(p, deep);
      }
    }

    /** The init action of s: a state with a recorded history, reached by a transition to its history,
        goes on to that; any other but Root may go on to some proper substate, with or without history. */
    method InitState(s: int, toHistory: bool)
      requires WellFormed(tree) && Has(tree, s) && Histories() && pendingState == NONE
      modifies this`history, this`pendingState, this`pendingHistory
      ensures history == old(history)[s := NONE]
      ensures pendingState != NONE ==> Has(tree, pendingState) && pendingState != s && IsChild(tree, pendingState, s)
      ensures toHistory && old(history)[s] != NONE ==> pendingState == old(history)[s] && !pendingHistory
      ensures s == ROOT && !toHistory ==> pendingState == NONE
    {
      if toHistory && history[s] != NONE {
        assert HistoryOk(tree, history, s);
        pendingState, pendingHistory := history[s], false;
      } else if s != ROOT {
        var choice: int := *;
        var withHistory: bool := *;
        if Has(tree, choice) && choice != s && IsChild(tree, choice, s) {
          pendingState, pendingHistory := choice, withHistory;
        }
      }
      history := history[s := NONE];
    }

    // ---------------------------------------------------------------- transitions

    /** One round of the transition loop: from the current state to the pending one. */
    method Transition() returns (ghost left: int)
      requires WellFormed(tree) && Consistent() && Has(tree, currentState) && Has(tree, pendingState)
      modifies this
      ensures left == old(currentState) && currentState == old(pendingState)
      ensures Consistent()
      ensures trace == old(trace) + (Exits(tree, left, currentState) + Entries(tree, currentState, left, true))
      ensures history == Remember(tree, old(history), left, left)[currentState := NONE]
      ensures pendingState != NONE ==>
          Has(tree, pendingState) && pendingState != currentState && IsChild(tree, pendingState, currentState)
      ensures old(pendingHistory) && Remember(tree, old(history), left, left)[currentState] != NONE ==>
        pendingState == Remember(tree, old(history), left, left)[currentState] && !pendingHistory
      ensures currentState == ROOT && !old(pendingHistory) ==> pendingState == NONE
    {
      hide Play, PlayBoxes, Exits, Entries, Chain;
      left := currentState;
      var previous, next, toHistory := currentState, pendingState, pendingHistory;
      ghost var boxes0, trace0 := boxes, trace;
      MatchBoxed(tree, boxes, previous, previous);
      ExitState(previous, next);
      SetHistorySuper(previous, previous);
      currentState := next;
      EnterState(next, previous, true);
      pendingState, pendingHistory := NONE, false;
      StepConsistent(trace0, boxes0, previous);
      forall x | 0 <= x < |history| ensures HistoryOk(tree, history, x) {
        assert old(HistoryOk(tree, history, x));
        RememberOk(tree, old(history), previous, x);
      }
      label Entered:
      InitState(next, toHistory);
      forall x | 0 <= x < |history| ensures HistoryOk(tree, history, x) {
        assert HistoryOk(tree, old@Entered(history), x);
      }
    }

    lemma StepConsistent(trace0: seq<Action>, boxes0: seq<bool>, previous: int)
      requires WellFormed(tree) && Has(tree, previous) && Has(tree, currentState)
      requires Play(tree, [], trace0) == Some(Chain(tree, previous)) && BoxesMatch(tree, boxes0, Chain(tree, previous))
      requires var exits, entries := Exits(tree, previous, currentState), Entries(tree, currentState, previous, true);
        trace == trace0 + exits + entries && boxes == PlayBoxes(tree, PlayBoxes(tree, boxes0, exits), entries)
      ensures Play(tree, [], trace) == Some(Active())
      ensures BoxesMatch(tree, boxes, Active())
    {
      hide Play, PlayBoxes;
      var exits, entries := Exits(tree, previous, currentState), Entries(tree, currentState, previous, true);
      TransitionActive(tree, previous, currentState);
      assert trace0 + exits + entries == trace0 + (exits + entries);
      PlayAppend(tree, [], trace0, exits + entries);
      PlayBoxesAppend(tree, boxes0, exits, entries);
      ChainRises(tree, previous);
      BoxesFollow(tree, boxes0, Chain(tree, previous), exits + entries);
    }

    /** Performs the pending transition and those that init actions ask for in turn. */
    method RattleOn() returns (ghost path: seq<int>)
      requires WellFormed(tree) && Consistent() && Has(tree, currentState) && Has(tree, pendingState)
      modifies this
      ensures Valid()
      ensures Deepening(tree, path) && path[0] == old(pendingState) && path[|path| - 1] == currentState
      ensures trace == old(trace) + Moves(tree, old(currentState), path)
      ensures history == StateTree.Histories(tree, old(history), old(currentState), path)
      ensures var remembered := Remember(tree, old(history), old(currentState), old(currentState))[path[0]];
        old(pendingHistory) && remembered != NONE ==> |path| > 1 && path[1] == remembered
      ensures old(pendingState) == ROOT && !old(pendingHistory) ==> |path| == 1
      ensures |path| <= 1 + Height(tree) - Depth(tree, path[0])
    {
      ghost var s, h := currentState, history;
      ghost var trace0, toHistory := trace, pendingHistory;
      ghost var first := pendingState;
      path := [];
      while pendingState != NONE
        invariant Consistent() && Progress(tree, s, h, first, toHistory, path, currentState, pendingState, history)
        invariant path == [] ==> pendingHistory == toHistory
        invariant trace == trace0 + Moves(tree, s, path)
        decreases
          if pendingState == NONE then 0 else if path == [] then |tree.parent| + 1 else |tree.parent| - pendingState
      {
        path := RattleOnce(s, h, first, toHistory, path);
      }
      ChainBounded(tree, path);
    }

    method RattleOnce(ghost s: int, ghost h: seq<int>, ghost first: int, ghost toHistory: bool, ghost path0: seq<int>)
      returns (ghost path: seq<int>)
      requires WellFormed(tree) && Consistent() && pendingState != NONE
      requires Progress(tree, s, h, first, toHistory, path0, currentState, pendingState, history)
      requires path0 == [] ==> pendingHistory == toHistory
      modifies this
      ensures Consistent() && Progress(tree, s, h, first, toHistory, path, currentState, pendingState, history)
      ensures path == path0 + [old(pendingState)] && currentState == old(pendingState)
      ensures (forall k :: 0 <= k < |path0| ==> Has(tree, path0[k]))
        && (forall k :: 0 <= k < |path| ==> Has(tree, path[k]))
      ensures forall before :: old(trace) == before + Moves(tree, s, path0) ==> trace == before + Moves(tree, s, path)
      ensures pendingState != NONE ==> pendingState > old(pendingState)
    {
      ghost var next, history0 := pendingState, history;
      ghost var left := Transition();
      ProgressStep(tree, s, h, first, toHistory, path0, left, next, history0, pendingState);
      if pendingState != NONE { IsChildBounds(tree, pendingState, currentState); }
      path := path0 + [next];
    }

    method SetState(target: int, toHistory: bool) returns (ghost path: seq<int>)
      requires Valid() && Has(tree, currentState) && Has(tree, target)
      modifies this
      ensures Valid()
      ensures Deepening(tree, path) && path[0] == target && path[|path| - 1] == currentState
      ensures trace == old(trace) + Moves(tree, old(currentState), path)
      ensures history == StateTree.Histories(tree, old(history), old(currentState), path)
      ensures var remembered := Remember(tree, old(history), old(currentState), old(currentState))[target];
        toHistory && remembered != NONE ==> |path| > 1 && path[1] == remembered
      ensures target == ROOT && !toHistory ==> |path| == 1
      ensures |path| <= 1 + Height(tree) - Depth(tree, target)
    {
      pendingState, pendingHistory := target, toHistory;
      path := RattleOn();
    }

    /** Starts from Root, with no state active. */
    method Start(target: int) returns (ghost path: seq<int>)
      requires Valid() && currentState == NONE && Has(tree, target)
      modifies this
      ensures Valid() && Deepening(tree, path) && path[0] == target && path[|path| - 1] == currentState
      ensures trace == old(trace) + Moves(tree, ROOT, path)
    {
      currentState := ROOT;
      path := SetState(target, false);
    }

    /** Goes to Root, whose init action does nothing; every state has then been left as often as entered. */
    method Shutdown()
      requires Valid() && Has(tree, currentState)
      modifies this
      ensures Valid() && currentState == NONE
      ensures trace == old(trace) + Exits(tree, old(currentState), ROOT)
      ensures forall s :: Count(trace, Entry(s)) == Count(trace, Exit(s))
    {
      ghost var path := SetState(ROOT, false);
      assert path[..0] == [] && Entries(tree, ROOT, old(currentState), true) == [];
      currentState := NONE;
      forall s ensures Count(trace, Entry(s)) == Count(trace, Exit(s)) {
        EntriesMinusExits(tree, [], trace, s);
      }
    }

    /** Between transitions the active states are the current one and its superstates below Root; they
        have boxes, and have been entered once more than left, all others as often as left. */
    lemma ActiveStates(s: int)
      requires Valid() && Has(tree, currentState)
      ensures s in Active() <==> s != ROOT && IsChild(tree, currentState, s)
      ensures s in Active() ==> Has(tree, s) && boxes[s]
      ensures Count(trace, Entry(s)) == Count(trace, Exit(s)) + (if s in Active() then 1 else 0)
    {
      InChain(tree, currentState, s);
      if s in Active() {
        IsChildBounds(tree, currentState, s);
        assert BoxOk(tree, boxes, Active(), s);
      }
      ChainRises(tree, currentState);
      TimesInRising(Active(), s);
      EntriesMinusExits(tree, [], trace, s);
    }
  }
}
