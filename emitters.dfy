/**
 * The text the body pass emits: state declarations, the arrow out of the
 * initial pseudostate, transition lines and entry/do/exit lines, with the
 * colour the editor's focused block asks for.
 */
module Emitters {
  import opened StmTypes
  import opened JavaStrings
  import opened StateNames
  import opened OrderedSet

  /** The generator's `color` field; nothing in the transpiler assigns it. */
  const Color: string := "orange"
  const PlainArrow: string := "-->"
  const BranchArrow: string := "-[#" + Color + "]->"
  /** PlantUML's pseudostate marker. */
  const Terminal: string := "[*]"
  /** The event of a completion transition, which is not written on the arrow. */
  const CompleteEvent: string := "completeEvent"

  predicate HasClickType(click: Option<Click>) {
    click.Some? && click.value.clickType.Some?
  }

  /** The focused block is one of the two conditional-branch blocks. */
  predicate OnBranchBlock(click: Option<Click>) {
    HasClickType(click) && click.value.clickType.value in {"switchIfType", "switchElseIfType"}
  }

  /** `transitionColor`: the arrow is orange exactly while a branch block is focused. */
  function TransitionColor(click: Option<Click>): (arrow: string)
    ensures arrow == if OnBranchBlock(click) then BranchArrow else PlainArrow
  {
    if !HasClickType(click) then "-->"
    else
      var clickValue := click.value.clickType.value;
      if clickValue == "switchIfType" || clickValue == "switchElseIfType" then "-[#" + Color + "]->"
      else "-->"
  }

  /** The behaviour rule whose block is focused, if the focused block is one. */
  function SelectedRule(click: Option<Click>): Option<string> {
    if !HasClickType(click) then None
    else match click.value.clickType.value
      case "entryType" => Some("entry")
      case "doContinuousType" => Some("do")
      case "doOnetimeType" => Some("do")
      case "exitType" => Some("exit")
      case _ => None
  }

  /** `behaviorRuleColor`: the label, wrapped in orange when its block is the focused one. */
  function BehaviorRuleColor(behaviorRule: string, click: Option<Click>): (text: string)
    ensures text == behaviorRule || text == "<color:" + Color + ">" + behaviorRule + "<color:black>"
    ensures text != behaviorRule <==> SelectedRule(click) == Some(behaviorRule)
  {
    if !HasClickType(click) then behaviorRule
    else
      var mapped := SelectedRule(click);
      if mapped == Some(behaviorRule) then "<color:" + Color + ">" + behaviorRule + "<color:black>"
      else behaviorRule
  }

  /** A focused block colours at most one of the three labels. */
  lemma AtMostOneLabelColoured(click: Option<Click>, rule1: string, rule2: string)
    requires rule1 != rule2
    ensures BehaviorRuleColor(rule1, click) == rule1 || BehaviorRuleColor(rule2, click) == rule2
  {
  }

  /** How a target is written at the head of an arrow: the final pseudostate becomes `[*]`. */
  function ArrowTarget(nextState: string): (shown: string)
    ensures shown == Terminal <==> nextState == FinalState || nextState == Terminal
    ensures nextState != FinalState ==> shown == nextState
  {
    if nextState == FinalState then "[*]" else nextState
  }

  /** The event as written on an arrow: absent, and also absent when it is the completion event. */
  predicate ShowsEvent(t: Transition) {
    t.event.Some? && t.event.value != CompleteEvent
  }

  /** ` event`, when the event is shown. */
  function EventPart(t: Transition): (part: string)
    ensures part == "" <==> !ShowsEvent(t)
  {
    if ShowsEvent(t) then " " + t.event.value else ""
  }

  /** ` [guard]`, when there is a guard. */
  function GuardPart(t: Transition): (part: string)
    ensures part == "" <==> t.guard.None?
  {
    if t.guard.Some? then " [" + t.guard.value + "]" else ""
  }

  /** ` / effect`, when there is an effect. */
  function EffectPart(t: Transition): (part: string)
    ensures part == "" <==> t.effect.None?
  {
    if t.effect.Some? then " / " + t.effect.value else ""
  }

  /**
   * What follows the target on a transition line: nothing when there is no
   * shown event, no guard and no effect; otherwise ` :` then the parts
   * present, in the order event, guard, effect.
   */
  function TriggerLabel(t: Transition): (trigger: string)
    ensures trigger == "" <==> !ShowsEvent(t) && t.guard.None? && t.effect.None?
  {
    var parts := EventPart(t) + GuardPart(t) + EffectPart(t);
    if parts == "" then "" else " :" + parts
  }

  /**
   * `transitionToPlantUML`: one line, the state, the arrow, the target and
   * the trigger label; no space around the arrow.
   */
  function TransitionToPlantUML(state: string, t: Transition, click: Option<Click>): (line: string)
    requires t.nextState.Some?
    ensures |line| > |state| && line[..|state|] == state && line[|line| - 1] == '\n'
  {
    var eventPart := if t.event.Some? && CompleteEvent != t.event.value then " " + t.event.value else "";
    var guardPart := if t.guard.Some? then " [" + t.guard.value + "]" else "";
    var effectPart := if t.effect.Some? then " / " + t.effect.value else "";
    var nextState := if t.nextState.value == FinalState then "[*]" else t.nextState.value;
    var rest :=
      if eventPart != "" || guardPart != "" || effectPart != "" then
        TransitionColor(click) + nextState + " :" + eventPart + guardPart + effectPart
      else
        TransitionColor(click) + nextState;
    LineShape(state, rest);
    state + rest + "\n"
  }

  /** A line made of a head, a middle and a line break starts with the head and ends with the break. */
  lemma LineShape(head: string, middle: string)
    ensures |head + middle + "\n"| > |head|
    ensures (head + middle + "\n")[..|head|] == head
    ensures (head + middle + "\n")[|head + middle + "\n"| - 1] == '\n'
  {
  }

  /** The line is the state, the arrow, the target as drawn and the trigger label. */
  lemma TransitionLineParts(state: string, t: Transition, click: Option<Click>)
    requires t.nextState.Some?
    ensures TransitionToPlantUML(state, t, click)
         == state + TransitionColor(click) + ArrowTarget(t.nextState.value) + TriggerLabel(t) + "\n"
  {
    var arrow := TransitionColor(click) + ArrowTarget(t.nextState.value);
    var event, guard, effect := EventPart(t), GuardPart(t), EffectPart(t);
    var rest := arrow + TriggerLabel(t);
    if event != "" || guard != "" || effect != "" {
      assert TriggerLabel(t) == " :" + (event + guard + effect);
      ConcatAssoc(arrow, " :", event + guard + effect);
      ConcatAssoc(arrow + " :", event + guard, effect);
      ConcatAssoc(arrow + " :", event, guard);
      assert TransitionToPlantUML(state, t, click) == state + rest + "\n";
    } else {
      assert TriggerLabel(t) == "";
      assert rest == arrow;
      assert TransitionToPlantUML(state, t, click) == state + rest + "\n";
    }
    ConcatAssoc(state, TransitionColor(click), ArrowTarget(t.nextState.value));
    ConcatAssoc(state, arrow, TriggerLabel(t));
  }

  /** A completion event is written exactly as no event at all. */
  lemma CompleteEventIsSilent(state: string, t: Transition, click: Option<Click>)
    requires t.nextState.Some?
    ensures TransitionToPlantUML(state, t.(event := Some(CompleteEvent)), click)
         == TransitionToPlantUML(state, t.(event := None), click)
  {
  }

  const InitialEventError: string := " 'InitialStateEventError\n <b><color:red> 「初期状態」には「イベント」を設定できません\n"
  const InitialGuardError: string := " 'InitialStateConditionError\n <b><color:red> 「初期状態」には「条件」を設定できません\n"

  /**
   * The note under the initial arrow: nothing when the transition has no
   * event and no guard, otherwise a `#FFF8DC` note with one error per
   * illegal part present.
   */
  function InitialNote(t: Transition): (note: string)
    ensures note == "" <==> t.event.None? && t.guard.None?
  {
    if t.event.None? && t.guard.None? then ""
    else
      "note on link #FFF8DC\n"
      + (if t.event.Some? then InitialEventError else "")
      + (if t.guard.Some? then InitialGuardError else "")
      + "end note\n"
  }

  /**
   * `firstStateToPlantUML`, given the first transition of the initial
   * pseudostate (`transition.get(0)`, absent when there is none). The Java
   * method also receives the state name and `myself` and reads neither.
   */
  function FirstStateToPlantUML(first: Option<Transition>, click: Option<Click>): (text: string)
    ensures text == "" <==> first.None?
  {
    if first.None? then ""
    else
      var t := first.value;
      var arrow :=
        if t.nextState.Some? then
          if t.nextState.value == FinalState then "[*] " + TransitionColor(click) + " [*]"
          else "[*] " + TransitionColor(click) + " " + t.nextState.value
        else "";
      var effectPart := if t.effect.Some? then " / " + t.effect.value else "";
      var withEffect := if effectPart != "" then arrow + (" :" + effectPart) else arrow;
      withEffect + "\n" + InitialNote(t)
  }

  /**
   * The initial text is the arrow from `[*]` (when there is a target), the
   * effect (when there is one), a line break, and the note reporting an
   * event or a guard.
   */
  lemma FirstStateParts(t: Transition, click: Option<Click>)
    ensures FirstStateToPlantUML(Some(t), click)
         == (if t.nextState.Some? then "[*] " + TransitionColor(click) + " " + ArrowTarget(t.nextState.value) else "")
            + (if t.effect.Some? then " :" + EffectPart(t) else "")
            + "\n" + InitialNote(t)
  {
    if t.nextState.None? {
    } else if t.nextState.value == FinalState {
      ConcatAssoc("[*] " + TransitionColor(click), " ", "[*]");
      assert " " + "[*]" == " [*]";
    } else {
    }
  }

  lemma ConcatAssoc(a: string, b: string, c: string)
    ensures a + (b + c) == a + b + c
  {
  }

  /** One entry/do/exit line, or nothing when the action is absent. */
  function BehaviorLine(state: string, behaviorRule: string, action: Option<string>, click: Option<Click>): (line: string)
    ensures line == "" <==> action.None?
    ensures action.Some? ==> line == state + " : " + BehaviorRuleColor(behaviorRule, click) + " / " + action.value + "\n"
  {
    if action.Some? then state + " : " + BehaviorRuleColor(behaviorRule, click) + " / " + action.value + "\n" else ""
  }

  /** `behaviorToPlantUML`: the entry, do and exit lines, in that order, for the actions present. */
  function BehaviorToPlantUML(state: string, behavior: Behavior, click: Option<Click>): (text: string)
    ensures text == "" <==> behavior.IsEmpty()
  {
    BehaviorLine(state, "entry", behavior.entry, click)
    + BehaviorLine(state, "do", behavior.doActivity, click)
    + BehaviorLine(state, "exit", behavior.exit, click)
  }

  /** A placeholder state: its name contains the "undefined" mark. */
  predicate IsPlaceholder(name: string) {
    Contains(name, UndefinedMark)
  }

  predicate IsPseudostate(name: string) {
    name == InitialState || name == FinalState
  }

  /** The declaration of one collected state: `state X`, red text when X is a placeholder. */
  function StateDeclaration(name: string): (line: string)
    ensures |line| > |"state " + name| && line[..|"state " + name|] == "state " + name && line[|line| - 1] == '\n'
  {
    LineShape("state " + name, if IsPlaceholder(name) then "#text:red" else "");
    "state " + name + (if IsPlaceholder(name) then "#text:red" else "") + "\n"
  }

  /** The declarations of the states in `names` that are not pseudostates, in order. */
  function Declarations(names: seq<string>): string
    decreases |names|
  {
    if names == [] then ""
    else
      var name := names[|names| - 1];
      Declarations(names[..|names| - 1]) + (if IsPseudostate(name) then "" else StateDeclaration(name))
  }

  /** The states that get a declaration: the pseudostates removed, order kept. */
  function DeclaredStates(names: seq<string>): seq<string>
    decreases |names|
  {
    if names == [] then []
    else
      var name := names[|names| - 1];
      DeclaredStates(names[..|names| - 1]) + (if IsPseudostate(name) then [] else [name])
  }

  /** A name is declared exactly when it is collected and is not a pseudostate. */
  lemma {:induction false} DeclaredStatesMembers(names: seq<string>, x: string)
    ensures x in DeclaredStates(names) <==> x in names && !IsPseudostate(x)
    decreases |names|
  {
    if names != [] {
      var init := names[..|names| - 1];
      DeclaredStatesMembers(init, x);
      assert names == init + [names[|names| - 1]];
    }
  }

  /** Removing the pseudostates keeps a duplicate-free list duplicate-free. */
  lemma {:induction false} DeclaredStatesNoDuplicates(names: seq<string>)
    requires NoDuplicates(names)
    ensures NoDuplicates(DeclaredStates(names))
    decreases |names|
  {
    if names != [] {
      var init, name := names[..|names| - 1], names[|names| - 1];
      DeclaredStatesNoDuplicates(init);
      if !IsPseudostate(name) {
        DeclaredStatesMembers(init, name);
        assert name !in init;
      }
    }
  }

  /** The declaration lines, one per name, in order. */
  function DeclarationLines(names: seq<string>): string
    decreases |names|
  {
    if names == [] then "" else DeclarationLines(names[..|names| - 1]) + StateDeclaration(names[|names| - 1])
  }

  lemma DeclarationsSnoc(names: seq<string>, name: string)
    ensures Declarations(names + [name]) == Declarations(names) + (if IsPseudostate(name) then "" else StateDeclaration(name))
  {
    assert (names + [name])[..|names|] == names;
  }

  /** The declarations are exactly one line for each state that is not a pseudostate, in order. */
  lemma {:induction false} DeclarationsOnePerState(names: seq<string>)
    ensures Declarations(names) == DeclarationLines(DeclaredStates(names))
    decreases |names|
  {
    if names != [] {
      var init, name := names[..|names| - 1], names[|names| - 1];
      DeclarationsOnePerState(init);
      var d := DeclaredStates(init);
      if !IsPseudostate(name) {
        assert DeclaredStates(names) == d + [name];
        assert (d + [name])[..|d|] == d;
        ConcatAssoc(Declarations(init), "", StateDeclaration(name));
      } else {
        assert DeclaredStates(names) == d + [];
        assert d + [] == d;
        assert Declarations(names) == Declarations(init) + "";
      }
    }
  }

  /** `createTemporaryState`: appends the declarations of the collected states to `result`. */
  method CreateTemporaryState(allStateSet: seq<string>, result: string) returns (out: string)
    ensures out == result + Declarations(allStateSet)
  {
    out := result;
    var k := 0;
    while k < |allStateSet|
      invariant 0 <= k <= |allStateSet|
      invariant out == result + Declarations(allStateSet[..k])
    {
      var stateName := allStateSet[k];
      var line := "";
      if stateName != InitialState && stateName != FinalState {
        if IsPlaceholder(stateName) {
          line := "state " + stateName + "#text:red\n";
        } else {
          line := "state " + stateName + "\n";
        }
      }
      assert allStateSet[..k + 1] == allStateSet[..k] + [stateName];
      DeclarationsSnoc(allStateSet[..k], stateName);
      ConcatAssoc(result, Declarations(allStateSet[..k]), line);
      out := out + line;
      k := k + 1;
    }
    assert allStateSet[..k] == allStateSet;
  }
}
