/**
 * The validation pass: five flags, each set by one helper while the items
 * are visited and never cleared, and the fixed order in which they decide
 * the one error the diagram reports.
 */
module Validation {
  import opened StmTypes
  import opened StateNames

  /** The item is the initial pseudostate and its "start here" block is attached. */
  predicate DeclaresInitial(item: StateItem) {
    item.state == InitialState && item.myself == Some(true)
  }

  predicate HasNextState(transitions: seq<Transition>) {
    exists j :: 0 <= j < |transitions| && transitions[j].nextState.Some?
  }

  /** The item is the initial pseudostate and one of its transitions has a target. */
  predicate LeavesInitial(item: StateItem) {
    item.state == InitialState && HasNextState(item.transitions)
  }

  /** The declared name, or the target of some transition, breaks the naming rule. */
  predicate BreaksNamingRule(stateName: string, transitions: seq<Transition>) {
    || IsInvalidName(stateName)
    || exists j :: 0 <= j < |transitions| && transitions[j].nextState.Some?
                   && IsInvalidName(transitions[j].nextState.value)
  }

  /** The item's declared name or one of its targets breaks the naming rule. */
  predicate ItemBreaksNamingRule(item: StateItem) {
    BreaksNamingRule(item.state, item.transitions)
  }

  /** The item is the initial pseudostate and has two transitions or more. */
  predicate BranchesFromInitial(item: StateItem) {
    item.state == InitialState && |item.transitions| >= 2
  }

  /** The editor flagged the item as a second declaration of a state. */
  predicate FlaggedDuplicate(item: StateItem) {
    item.invalid == Some("true")
  }

  /** Some item satisfies `p`. */
  predicate SomeItem(items: seq<StateItem>, p: StateItem -> bool) {
    exists k :: 0 <= k < |items| && p(items[k])
  }

  /** The five notes, in the order they take precedence. */
  datatype Violation =
    | NoInitialState
    | InvalidStateName
    | MultipleInitialTransitions
    | DuplicateState
    | NoInitialTransition

  /** The error the diagram reports: the first condition that holds, in this order. */
  function Diagnose(items: seq<StateItem>): Option<Violation> {
    if !SomeItem(items, DeclaresInitial) then Some(NoInitialState)
    else if SomeItem(items, ItemBreaksNamingRule) then Some(InvalidStateName)
    else if SomeItem(items, BranchesFromInitial) then Some(MultipleInitialTransitions)
    else if SomeItem(items, FlaggedDuplicate) then Some(DuplicateState)
    else if !SomeItem(items, LeavesInitial) then Some(NoInitialTransition)
    else None
  }

  /** The precedence of each note: the smaller rank is reported first. */
  function Rank(v: Violation): nat {
    match v
    case NoInitialState => 0
    case InvalidStateName => 1
    case MultipleInitialTransitions => 2
    case DuplicateState => 3
    case NoInitialTransition => 4
  }

  /** The condition each note reports, on its own. */
  predicate Violated(items: seq<StateItem>, v: Violation) {
    match v
    case NoInitialState => !SomeItem(items, DeclaresInitial)
    case InvalidStateName => SomeItem(items, ItemBreaksNamingRule)
    case MultipleInitialTransitions => SomeItem(items, BranchesFromInitial)
    case DuplicateState => SomeItem(items, FlaggedDuplicate)
    case NoInitialTransition => !SomeItem(items, LeavesInitial)
  }

  /**
   * The reported error is the violated condition of smallest rank: `v` is
   * reported exactly when it holds and no condition ranked before it does.
   */
  lemma ErrorPriority(items: seq<StateItem>, v: Violation)
    ensures Diagnose(items) == Some(v) <==>
              Violated(items, v) && forall w :: Rank(w) < Rank(v) ==> !Violated(items, w)
  {
    if Diagnose(items) == Some(v) {
      forall w | Rank(w) < Rank(v)
        ensures !Violated(items, w)
      {
        match w
        case NoInitialState =>
        case InvalidStateName =>
        case MultipleInitialTransitions =>
        case DuplicateState =>
        case NoInitialTransition =>
      }
    }
    if Violated(items, v) && forall w :: Rank(w) < Rank(v) ==> !Violated(items, w) {
      if Rank(v) > 0 { assert !Violated(items, NoInitialState); }
      if Rank(v) > 1 { assert !Violated(items, InvalidStateName); }
      if Rank(v) > 2 { assert !Violated(items, MultipleInitialTransitions); }
      if Rank(v) > 3 { assert !Violated(items, DuplicateState); }
    }
  }

  /** The diagram is drawn exactly when no condition is violated. */
  lemma NoErrorWhenAllChecksPass(items: seq<StateItem>)
    ensures Diagnose(items).None? <==> forall v :: !Violated(items, v)
  {
    if Diagnose(items).None? {
      forall v
        ensures !Violated(items, v)
      {
        match v
        case NoInitialState =>
        case InvalidStateName =>
        case MultipleInitialTransitions =>
        case DuplicateState =>
        case NoInitialTransition =>
      }
    }
    if forall v :: !Violated(items, v) {
      assert !Violated(items, NoInitialState) && !Violated(items, InvalidStateName);
      assert !Violated(items, MultipleInitialTransitions) && !Violated(items, DuplicateState);
      assert !Violated(items, NoInitialTransition);
    }
  }

  /** The flag a pass sets after visiting `items`, for the condition `p`. */
  ghost predicate Any(items: seq<StateItem>, p: StateItem -> bool)
    decreases |items|
  {
    items != [] && (Any(items[..|items| - 1], p) || p(items[|items| - 1]))
  }

  lemma {:induction false} AnyExists(items: seq<StateItem>, p: StateItem -> bool)
    ensures Any(items, p) <==> SomeItem(items, p)
    decreases |items|
  {
    if items != [] {
      var init := items[..|items| - 1];
      AnyExists(init, p);
      assert forall k :: 0 <= k < |init| ==> init[k] == items[k];
    }
  }

  /** `checkInitialTransitionCount`: sets the flag for an initial pseudostate with two transitions or more. */
  method CheckInitialTransitionCount(stateName: string, transitions: seq<Transition>, hasMultipleInitialTransitions: bool)
    returns (flag: bool)
    ensures flag == (hasMultipleInitialTransitions || (stateName == InitialState && |transitions| >= 2))
  {
    flag := hasMultipleInitialTransitions;
    if stateName == InitialState {
      if |transitions| >= 2 {
        flag := true;
      }
    }
  }

  /**
   * `checkInitialState`: on the initial pseudostate, records whether the
   * "start here" block is attached and whether some transition has a target.
   */
  method CheckInitialState(stateName: string, item: StateItem, transitions: seq<Transition>,
                           containInitialState: bool, stateAfterInitial: bool)
    returns (contains: bool, after: bool)
    requires stateName == item.state && transitions == item.transitions
    ensures contains == (containInitialState || DeclaresInitial(item))
    ensures after == (stateAfterInitial || LeavesInitial(item))
  {
    contains, after := containInitialState, stateAfterInitial;
    if stateName == InitialState {
      var condition := item.myself.Some? && item.myself.value;
      if condition {
        contains := true;
      }
      var j := 0;
      while j < |transitions|
        invariant 0 <= j <= |transitions|
        invariant after == (stateAfterInitial || exists i :: 0 <= i < j && transitions[i].nextState.Some?)
      {
        if transitions[j].nextState.Some? {
          after := true;
        }
        j := j + 1;
      }
    }
  }

  /** `validateStateNames`: sets the flag when the name or a target breaks the naming rule. */
  method ValidateStateNames(stateName: string, transitions: seq<Transition>, hasInvalid: bool)
    returns (flag: bool)
    ensures flag == (hasInvalid || BreaksNamingRule(stateName, transitions))
  {
    flag := hasInvalid;
    if IsInvalidName(stateName) {
      flag := true;
    }
    var j := 0;
    while j < |transitions|
      invariant 0 <= j <= |transitions|
      invariant flag == (hasInvalid || IsInvalidName(stateName) ||
                         exists i :: 0 <= i < j && transitions[i].nextState.Some?
                                     && IsInvalidName(transitions[i].nextState.value))
    {
      var child := transitions[j];
      if child.nextState.Some? {
        if IsInvalidName(child.nextState.value) {
          flag := true;
        }
      }
      j := j + 1;
    }
  }

  /** `checkDuplicateState`: sets the flag when the item's `invalid.condition` is the text "true". */
  method CheckDuplicateState(item: StateItem, hasDuplicateState: bool) returns (flag: bool)
    ensures flag == (hasDuplicateState || FlaggedDuplicate(item))
  {
    flag := hasDuplicateState;
    if item.invalid.Some? {
      if item.invalid.value == "true" {
        flag := true;
      }
    }
  }
}
