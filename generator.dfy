/**
 * `StmGenerator.jsonToPlantUML`: the validation and collection pass, then
 * either one error note or the diagram body, framed by a fixed header and
 * footer.
 */
module StmGenerator {
  import opened StmTypes
  import opened JavaStrings
  import opened StateNames
  import opened OrderedSet
  import opened StateCollector
  import opened Validation
  import opened Emitters
  import opened Highlight

  const Header: string := "@startuml\nskinparam defaultFontName \"Noto Sans JP\"\n"
  const Footer: string := "@enduml"

  /** The note that replaces the diagram for each violation. */
  function ErrorNote(v: Violation): string {
    match v
    case NoInitialState =>
      "note as InitialStateDefinitionError\n <b><color:red>\"初めは「初期状態」としてください\"\n end note\n"
    case InvalidStateName =>
      "note as stateNameNamingError\n <b><color:red>\"「状態名」には数字・日本語・アルファベットのみ使用できます\"\n end note\n"
    case MultipleInitialTransitions =>
      "note as InvalidStateTransitionError\n <b><color:red>\"「初期状態」から到達できるのは一つの状態だけです\"\n<b><color:red>\"「初期状態」には「イベント」を設定できません\"\n end note\n"
    case DuplicateState =>
      "note as DuplicateStateDefinitionError\n <b><color:red>\"同じ状態は複数回定義できません\"\n end note\n"
    case NoInitialTransition =>
      "note as InitialStateTransitionError\n <b><color:red>\"「初期状態」の次の状態を決めてください\"\n end note\n"
  }

  /** `transition.get(0)`: the first transition, absent when there is none. */
  function FirstTransition(transitions: seq<Transition>): Option<Transition> {
    if |transitions| > 0 then Some(transitions[0]) else None
  }

  /** One line per transition that has a target, in order. */
  function TransitionLines(state: string, transitions: seq<Transition>, click: Option<Click>): string
    decreases |transitions|
  {
    if transitions == [] then ""
    else
      var t := transitions[|transitions| - 1];
      TransitionLines(state, transitions[..|transitions| - 1], click)
      + (if t.nextState.Some? then TransitionToPlantUML(state, t, click) else "")
  }

  /**
   * What the body pass writes for one item: the initial pseudostate writes
   * its first transition only; any other named state writes its transition
   * lines, then its behaviour lines; an unnamed item writes nothing.
   */
  function ItemText(item: StateItem): string {
    if item.state == InitialState then FirstStateToPlantUML(FirstTransition(item.transitions), item.click)
    else if item.state != "" then
      TransitionLines(item.state, item.transitions, item.click)
      + (if item.behavior.IsEmpty() then "" else BehaviorToPlantUML(item.state, item.behavior, item.click))
    else ""
  }

  function EmitItems(items: seq<StateItem>): string
    decreases |items|
  {
    if items == [] then "" else EmitItems(items[..|items| - 1]) + ItemText(items[|items| - 1])
  }

  /** The diagram: declarations, the items' text, then the highlight line. */
  function DiagramBody(items: seq<StateItem>): string {
    Declarations(AllStateSet(Names(items), AllTargets(items)))
    + EmitItems(items)
    + HighlightLine(LastClickNode(items), FirstMarked(AllTargets(items)), ClickedAfter(items))
  }

  /** The text `jsonToPlantUML` returns for `items`. */
  function PlantUML(items: seq<StateItem>): (uml: string)
    ensures |uml| >= |Header| + |Footer|
    ensures uml[..|Header|] == Header && uml[|uml| - |Footer|..] == Footer
  {
    var body := match Diagnose(items)
      case Some(v) => ErrorNote(v)
      case None => DiagramBody(items);
    Framed(Header, body, Footer);
    Header + body + Footer
  }

  lemma Framed(header: string, body: string, footer: string)
    ensures (header + body + footer)[..|header|] == header
    ensures (header + body + footer)[|header + body + footer| - |footer|..] == footer
  {
  }

  /** An error replaces the whole diagram: the output is the header, one note and the footer. */
  lemma ErrorReplacesDiagram(items: seq<StateItem>, v: Violation)
    requires Diagnose(items) == Some(v)
    ensures PlantUML(items) == Header + ErrorNote(v) + Footer
  {
  }

  /**
   * Every target whose cleaned name is not a pseudostate is declared by
   * exactly one line: it occurs once among the declared states, and the
   * declarations are one line per declared state.
   */
  lemma TargetDeclaredOnce(items: seq<StateItem>, k: int, j: int)
    requires 0 <= k < |items| && 0 <= j < |items[k].transitions|
    requires items[k].transitions[j].nextState.Some?
    requires Clean(items[k].transitions[j].nextState.value) != ""
    requires !IsPseudostate(Clean(items[k].transitions[j].nextState.value))
    ensures var declared := DeclaredStates(AllStateSet(Names(items), AllTargets(items)));
            && NoDuplicates(declared)
            && Clean(items[k].transitions[j].nextState.value) in declared
            && Declarations(AllStateSet(Names(items), AllTargets(items))) == DeclarationLines(declared)
  {
    var allStateSet := AllStateSet(Names(items), AllTargets(items));
    var target := Clean(items[k].transitions[j].nextState.value);
    TargetIsState(items, k, j);
    AllStateSetMembers(Names(items), AllTargets(items), target);
    DeclaredStatesNoDuplicates(allStateSet);
    DeclaredStatesMembers(allStateSet, target);
    DeclarationsOnePerState(allStateSet);
  }

  /**
   * When the diagram is drawn every name obeys the naming rule, so the
   * declared form of a target is the target with its marker deleted; the
   * trim changes nothing.
   */
  lemma DrawnTargetIsStripped(items: seq<StateItem>, k: int, j: int)
    requires Diagnose(items).None?
    requires 0 <= k < |items| && 0 <= j < |items[k].transitions|
    requires items[k].transitions[j].nextState.Some?
    ensures Clean(items[k].transitions[j].nextState.value) == StripMarker(items[k].transitions[j].nextState.value)
  {
    assert !ItemBreaksNamingRule(items[k]);
    ValidNameNeedsNoTrim(items[k].transitions[j].nextState.value);
  }

  /** The initial pseudostate writes its first transition only, and never its behaviour. */
  lemma InitialItemShowsFirstTransitionOnly(item: StateItem, rest: seq<Transition>, behavior: Behavior)
    requires item.state == InitialState && |item.transitions| > 0
    ensures ItemText(item.(transitions := [item.transitions[0]] + rest, behavior := behavior)) == ItemText(item)
  {
  }

  /** The body pass writes each item's text on its own: the text of a concatenation is the concatenation of the texts. */
  lemma {:induction false} EmitItemsConcat(a: seq<StateItem>, b: seq<StateItem>)
    ensures EmitItems(a + b) == EmitItems(a) + EmitItems(b)
    decreases |b|
  {
    if b == [] {
      assert a + b == a;
    } else {
      var b' := b[..|b| - 1];
      assert (a + b)[..|a + b| - 1] == a + b';
      EmitItemsConcat(a, b');
      ConcatAssoc(EmitItems(a), EmitItems(b'), ItemText(b[|b| - 1]));
    }
  }

  /**
   * The `;` style, kept for the current state, only ever applies to a name
   * that carries the colour marker: the current identifier is the first
   * marked target, verbatim.
   */
  lemma CurrentTargetCarriesMarker(items: seq<StateItem>)
    ensures var current := FirstMarked(AllTargets(items));
            var target := HighlightTarget(LastClickNode(items), ClickedAfter(items));
            target.Some? && |current| > 0 && current == target.value ==> Contains(target.value, Marker)
  {
    var targets := AllTargets(items);
    FirstMarkedIsFirst(targets);
    if FirstMarked(targets) != "" {
      var k :| 0 <= k < |targets| && targets[k] == FirstMarked(targets) && Contains(targets[k], Marker)
               && forall i :: 0 <= i < k ==> !Contains(targets[i], Marker);
    }
  }

  /** The four checks the first `data.forEach` runs on one item, each raising its own flag. */
  method CheckItem(item: StateItem, containInitialState: bool, stateAfterInitial: bool, hasInvalid: bool,
                   hasMultipleInitialTransitions: bool, hasDuplicateState: bool)
    returns (contains: bool, after: bool, invalid: bool, multiple: bool, duplicate: bool)
    ensures contains == (containInitialState || DeclaresInitial(item))
    ensures after == (stateAfterInitial || LeavesInitial(item))
    ensures invalid == (hasInvalid || ItemBreaksNamingRule(item))
    ensures multiple == (hasMultipleInitialTransitions || BranchesFromInitial(item))
    ensures duplicate == (hasDuplicateState || FlaggedDuplicate(item))
  {
    var stateName := item.state;
    var transition := item.transitions;
    multiple := CheckInitialTransitionCount(stateName, transition, hasMultipleInitialTransitions);
    contains, after := CheckInitialState(stateName, item, transition, containInitialState, stateAfterInitial);
    invalid := ValidateStateNames(stateName, transition, hasInvalid);
    duplicate := CheckDuplicateState(item, hasDuplicateState);
  }

  /**
   * The first `data.forEach` of `jsonToPlantUML`: runs the four checks on
   * every item and fills `stateList`, `nextStateList`, `current` and
   * `clickedState`.
   */
  method CheckAndCollect(items: seq<StateItem>)
    returns (containInitialState: bool, stateAfterInitial: bool, hasInvalid: bool,
             hasMultipleInitialTransitions: bool, hasDuplicateState: bool,
             stateList: seq<string>, nextStateList: seq<string>, current: string, clickedState: ClickedState)
    ensures containInitialState == SomeItem(items, DeclaresInitial)
    ensures stateAfterInitial == SomeItem(items, LeavesInitial)
    ensures hasInvalid == SomeItem(items, ItemBreaksNamingRule)
    ensures hasMultipleInitialTransitions == SomeItem(items, BranchesFromInitial)
    ensures hasDuplicateState == SomeItem(items, FlaggedDuplicate)
    ensures stateList == Names(items) && nextStateList == AllTargets(items)
    ensures current == FirstMarked(AllTargets(items))
    ensures clickedState == ClickedAfter(items)
  {
    stateList, nextStateList, current, clickedState := [], [], "", NothingClicked;
    containInitialState, stateAfterInitial, hasInvalid := false, false, false;
    hasMultipleInitialTransitions, hasDuplicateState := false, false;
    var i := 0;
    while i < |items|
      invariant 0 <= i <= |items|
      invariant containInitialState == Any(items[..i], DeclaresInitial)
      invariant stateAfterInitial == Any(items[..i], LeavesInitial)
      invariant hasInvalid == Any(items[..i], ItemBreaksNamingRule)
      invariant hasMultipleInitialTransitions == Any(items[..i], BranchesFromInitial)
      invariant hasDuplicateState == Any(items[..i], FlaggedDuplicate)
      invariant stateList == Names(items[..i])
      invariant nextStateList == AllTargets(items[..i])
      invariant current == FirstMarked(nextStateList)
      invariant clickedState == ClickedAfter(items[..i])
    {
      var item := items[i];
      assert items[..i + 1][..i] == items[..i];
      containInitialState, stateAfterInitial, hasInvalid, hasMultipleInitialTransitions, hasDuplicateState :=
        CheckItem(item, containInitialState, stateAfterInitial, hasInvalid, hasMultipleInitialTransitions,
                  hasDuplicateState);
      stateList := stateList + [item.state];
      FirstMarkedAppend(nextStateList, Targets(item.transitions));
      nextStateList, current := CollectNextStates(item.transitions, nextStateList, current);
      clickedState := GetNextStateOnClick(clickedState, item);
      i := i + 1;
    }
    assert items[..i] == items;
    AnyExists(items, DeclaresInitial);
    AnyExists(items, LeavesInitial);
    AnyExists(items, ItemBreaksNamingRule);
    AnyExists(items, BranchesFromInitial);
    AnyExists(items, FlaggedDuplicate);
  }

  /** The inner `transition.forEach`: one line per transition that has a target. */
  method AppendTransitionLines(state: string, transition: seq<Transition>, click: Option<Click>, result: string)
    returns (out: string)
    ensures out == result + TransitionLines(state, transition, click)
  {
    out := result;
    var j := 0;
    while j < |transition|
      invariant 0 <= j <= |transition|
      invariant out == result + TransitionLines(state, transition[..j], click)
    {
      var child := transition[j];
      assert transition[..j + 1][..j] == transition[..j];
      if child.nextState.Some? {
        ConcatAssoc(result, TransitionLines(state, transition[..j], click), TransitionToPlantUML(state, child, click));
        out := out + TransitionToPlantUML(state, child, click);
      } else {
        assert TransitionLines(state, transition[..j + 1], click) == TransitionLines(state, transition[..j], click) + "";
      }
      j := j + 1;
    }
    assert transition[..j] == transition;
  }

  /**
   * The body of the second `data.forEach` for one item: records the focus
   * in `clickNode` and appends the item's text.
   */
  method EmitItem(item: StateItem, result: string, clickNode: ClickNode) returns (out: string, focus: ClickNode)
    ensures out == result + ItemText(item)
    ensures focus == ClickNodeAfter(clickNode, item)
  {
    out, focus := result, clickNode;
    var state := item.state;
    var click := item.click;
    if click.Some? && click.value.clickType.Some? {
      focus := Focused(click.value.clickType.value, state);
    }
    if state == InitialState {
      out := out + FirstStateToPlantUML(FirstTransition(item.transitions), click);
    } else if state != "" {
      out := AppendTransitionLines(state, item.transitions, click, out);
      ghost var lines := TransitionLines(state, item.transitions, click);
      if !item.behavior.IsEmpty() {
        ConcatAssoc(result, lines, BehaviorToPlantUML(state, item.behavior, click));
        out := out + BehaviorToPlantUML(state, item.behavior, click);
      } else {
        assert lines + "" == lines;
      }
    } else {
      assert out == result + "";
    }
  }

  /**
   * The second `data.forEach` of `jsonToPlantUML`: appends each item's
   * text and records in `clickNode` the last item whose click has a type.
   */
  method EmitBody(items: seq<StateItem>, result: string) returns (out: string, clickNode: ClickNode)
    ensures out == result + EmitItems(items)
    ensures clickNode == LastClickNode(items)
  {
    out, clickNode := result, Unfocused;
    var n := 0;
    while n < |items|
      invariant 0 <= n <= |items|
      invariant out == result + EmitItems(items[..n])
      invariant clickNode == LastClickNode(items[..n])
    {
      assert items[..n + 1][..n] == items[..n];
      ConcatAssoc(result, EmitItems(items[..n]), ItemText(items[n]));
      out, clickNode := EmitItem(items[n], out, clickNode);
      n := n + 1;
    }
    assert items[..n] == items;
  }

  /** `jsonToPlantUML`. */
  method JsonToPlantUML(items: seq<StateItem>) returns (out: string)
    ensures out == PlantUML(items)
  {
    var result := Header;
    var containInitialState, stateAfterInitial, hasInvalid, hasMultipleInitialTransitions, hasDuplicateState,
        stateList, nextStateList, current, clickedState := CheckAndCollect(items);
    var allStateSet := AllStateSet(stateList, nextStateList);
    ghost var verdict := Diagnose(items);
    assert verdict == if !containInitialState then Some(NoInitialState)
                      else if hasInvalid then Some(InvalidStateName)
                      else if hasMultipleInitialTransitions then Some(MultipleInitialTransitions)
                      else if hasDuplicateState then Some(DuplicateState)
                      else if !stateAfterInitial then Some(NoInitialTransition)
                      else None;
    ghost var body := if verdict.Some? then ErrorNote(verdict.value) else DiagramBody(items);
    assert PlantUML(items) == Header + body + Footer;
    if !containInitialState {
      result := result + ErrorNote(NoInitialState);
    } else if hasInvalid {
      result := result + ErrorNote(InvalidStateName);
    } else if hasMultipleInitialTransitions {
      result := result + ErrorNote(MultipleInitialTransitions);
    } else if hasDuplicateState {
      result := result + ErrorNote(DuplicateState);
    } else if !stateAfterInitial {
      result := result + ErrorNote(NoInitialTransition);
    } else {
      result := CreateTemporaryState(allStateSet, result);
      var clickNode;
      result, clickNode := EmitBody(items, result);
      result := UpdateStateColor(clickNode, current, result, clickedState);
      ghost var decls := Declarations(allStateSet);
      ConcatAssoc(Header, decls, EmitItems(items));
      ConcatAssoc(Header, decls + EmitItems(items), HighlightLine(clickNode, current, clickedState));
    }
    assert result == Header + body;
    out := result + Footer;
  }
}
