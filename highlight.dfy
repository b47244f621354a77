/**
 * The block the editor has focused: which target of a "next state" block
 * is focused (`clickedState`), which item holds the focus (`clickNode`),
 * and the one `state` line that paints the focused state.
 */
module Highlight {
  import opened StmTypes
  import opened StateNames
  import opened Emitters

  /**
   * `clickedState`: the target of the focused "next state" block and the
   * kind of block it was, each written by the last item that set it.
   */
  datatype ClickedState = ClickedState(nextState: Option<string>, blockType: Option<string>)

  const NothingClicked: ClickedState := ClickedState(None, None)

  /** `clickNode`: empty, or the focused block's type and the name of the item holding it. */
  datatype ClickNode = Unfocused | Focused(clickType: string, stateName: string)

  /** The block types whose focus is recorded together with the target. */
  predicate RecordsBlockType(clickType: string) {
    clickType == "changeStateType" || clickType == "stateDefinitionType"
  }

  /**
   * The target the item's focused "next state" block points at: the click
   * has a type and a number, the number indexes a transition (an index out
   * of range, negative ones included, finds nothing) and that transition
   * has a target.
   */
  function SelectedTarget(item: StateItem): (target: Option<string>)
    ensures target.Some? <==>
              exists n :: item.click.Some? && item.click.value.clickType.Some? && item.click.value.number == Some(n)
                          && 0 <= n as int < |item.transitions| && item.transitions[n].nextState.Some?
                          && target == item.transitions[n].nextState
  {
    if item.click.Some? && item.click.value.clickType.Some? && item.click.value.number.Some? then
      var index := item.click.value.number.value as int;
      if 0 <= index < |item.transitions| && item.transitions[index].nextState.Some? then
        item.transitions[index].nextState
      else None
    else None
  }

  /**
   * What `getNextStateOnClick` leaves in `clickedState` after one item:
   * unchanged unless the item selects a target; then the target, and the
   * block type when it is one of the two recorded kinds.
   */
  function NextStateOnClick(clickedState: ClickedState, item: StateItem): (after: ClickedState)
    ensures SelectedTarget(item).None? ==> after == clickedState
    ensures SelectedTarget(item).Some? ==>
              && after.nextState == SelectedTarget(item)
              && after.blockType == (var clickType := item.click.value.clickType.value;
                                     if RecordsBlockType(clickType) then Some(clickType) else clickedState.blockType)
  {
    match SelectedTarget(item)
    case None => clickedState
    case Some(target) =>
      var clickValue := item.click.value.clickType.value;
      var withType := if RecordsBlockType(clickValue) then Some(clickValue) else clickedState.blockType;
      ClickedState(Some(target), withType)
  }

  /** `getNextStateOnClick`: records, in place, the target of the item's focused "next state" block. */
  method GetNextStateOnClick(clickedState: ClickedState, item: StateItem) returns (result: ClickedState)
    ensures result == NextStateOnClick(clickedState, item)
  {
    result := clickedState;
    var click := item.click;
    if click.Some? && click.value.clickType.Some? && click.value.number.Some? {
      var clickValue := click.value.clickType.value;
      var index := click.value.number.value as int;
      if 0 <= index < |item.transitions| {
        var nextState := item.transitions[index].nextState;
        if nextState.Some? {
          result := result.(nextState := nextState);
          if clickValue == "changeStateType" {
            result := result.(blockType := Some("changeStateType"));
          } else if clickValue == "stateDefinitionType" {
            result := result.(blockType := Some("stateDefinitionType"));
          }
        }
      }
    }
  }

  /** `clickedState` after the first pass has visited `items`. */
  function ClickedAfter(items: seq<StateItem>): ClickedState
    decreases |items|
  {
    if items == [] then NothingClicked
    else NextStateOnClick(ClickedAfter(items[..|items| - 1]), items[|items| - 1])
  }

  /** A block type is never recorded without a target, so `clickedState` is non-empty exactly when it has a target. */
  lemma {:induction false} BlockTypeNeedsTarget(items: seq<StateItem>)
    ensures ClickedAfter(items).blockType.Some? ==> ClickedAfter(items).nextState.Some?
    decreases |items|
  {
    if items != [] {
      BlockTypeNeedsTarget(items[..|items| - 1]);
    }
  }

  /**
   * The last selection wins: the recorded target is the one selected by
   * the last item that selects any, and there is none when no item does.
   */
  lemma {:induction false} LastSelectionWins(items: seq<StateItem>)
    ensures ClickedAfter(items).nextState.None? <==> forall k :: 0 <= k < |items| ==> SelectedTarget(items[k]).None?
    ensures ClickedAfter(items).nextState.Some? ==>
              exists k :: 0 <= k < |items| && SelectedTarget(items[k]) == ClickedAfter(items).nextState
                          && forall m :: k < m < |items| ==> SelectedTarget(items[m]).None?
    decreases |items|
  {
    if items != [] {
      var init, last := items[..|items| - 1], items[|items| - 1];
      LastSelectionWins(init);
      assert ClickedAfter(items) == NextStateOnClick(ClickedAfter(init), last);
      if SelectedTarget(last).Some? {
        assert SelectedTarget(items[|items| - 1]) == ClickedAfter(items).nextState;
      } else if ClickedAfter(init).nextState.Some? {
        var k :| 0 <= k < |init| && SelectedTarget(init[k]) == ClickedAfter(init).nextState
                 && forall m :: k < m < |init| ==> SelectedTarget(init[m]).None?;
        assert items[k] == init[k];
        assert forall m :: k < m < |items| ==> SelectedTarget(items[m]).None? by {
          forall m | k < m < |items|
            ensures SelectedTarget(items[m]).None?
          {
            if m < |init| {
              assert items[m] == init[m];
            }
          }
        }
      } else {
        forall m | 0 <= m < |items|
          ensures SelectedTarget(items[m]).None?
        {
          if m < |init| {
            assert items[m] == init[m];
          }
        }
      }
    }
  }

  /** What the body pass leaves in `clickNode` for one item: its type and name when its click has a type. */
  function ClickNodeAfter(clickNode: ClickNode, item: StateItem): (after: ClickNode)
    ensures after.Focused? <==> clickNode.Focused? || (item.click.Some? && item.click.value.clickType.Some?)
    ensures item.click.Some? && item.click.value.clickType.Some? ==>
              after == Focused(item.click.value.clickType.value, item.state)
    ensures !(item.click.Some? && item.click.value.clickType.Some?) ==> after == clickNode
  {
    if item.click.Some? && item.click.value.clickType.Some? then Focused(item.click.value.clickType.value, item.state)
    else clickNode
  }

  /** `clickNode` after the body pass has visited `items`. */
  function LastClickNode(items: seq<StateItem>): ClickNode
    decreases |items|
  {
    if items == [] then Unfocused else ClickNodeAfter(LastClickNode(items[..|items| - 1]), items[|items| - 1])
  }

  /** The focus is held by the last item whose click has a type. */
  lemma {:induction false} LastFocusWins(items: seq<StateItem>)
    ensures LastClickNode(items).Unfocused? <==>
              forall k :: 0 <= k < |items| ==> !(items[k].click.Some? && items[k].click.value.clickType.Some?)
    ensures LastClickNode(items).Focused? ==>
              exists k :: 0 <= k < |items| && items[k].click.Some? && items[k].click.value.clickType.Some?
                          && LastClickNode(items) == Focused(items[k].click.value.clickType.value, items[k].state)
                          && forall m :: k < m < |items| ==> !(items[m].click.Some? && items[m].click.value.clickType.Some?)
    decreases |items|
  {
    if items != [] {
      var init := items[..|items| - 1];
      LastFocusWins(init);
      assert forall k :: 0 <= k < |init| ==> items[k] == init[k];
      var last := items[|items| - 1];
      if !(last.click.Some? && last.click.value.clickType.Some?) && LastClickNode(init).Focused? {
        var k :| 0 <= k < |init| && init[k].click.Some? && init[k].click.value.clickType.Some?
                 && LastClickNode(init) == Focused(init[k].click.value.clickType.value, init[k].state)
                 && forall m :: k < m < |init| ==> !(init[m].click.Some? && init[m].click.value.clickType.Some?);
        assert items[k] == init[k];
      }
    }
  }

  /** The state to paint: the focused target when there is one, else the item holding the focus. */
  function HighlightTarget(clickNode: ClickNode, clickedState: ClickedState): (target: Option<string>)
    ensures clickedState.nextState.Some? ==> target == clickedState.nextState
    ensures clickedState.nextState.None? ==>
              target == if clickNode.Focused? then Some(clickNode.stateName) else None
  {
    if clickedState.nextState.Some? then clickedState.nextState
    else if clickNode.Focused? then Some(clickNode.stateName)
    else None
  }

  /** The block types that paint a state. */
  predicate PaintsState(clickType: string) {
    clickType == "changeStateType" || clickType == "stateDefinitionType" || clickType == "stateActionType"
  }

  /**
   * The `state` line `updateStateColor` appends. `current` is the raw
   * marked name collected from the targets; the style is attached with `;`
   * when the painted state is that one, which already carries a colour.
   */
  function HighlightLine(clickNode: ClickNode, current: string, clickedState: ClickedState): (line: string)
    ensures line == "" <==>
              || HighlightTarget(clickNode, clickedState).None?
              || HighlightTarget(clickNode, clickedState).value == FinalState
              || !(clickNode.Focused? && PaintsState(clickNode.clickType))
  {
    var clickType := if clickNode.Focused? then clickNode.clickType else "";
    match HighlightTarget(clickNode, clickedState)
    case None => ""
    case Some(stateName) =>
      if stateName == FinalState then ""
      else
        var isCurrent := |current| > 0 && current == stateName;
        var isUndefined := IsPlaceholder(stateName);
        match clickType
        case "changeStateType" =>
          "state " + stateName + (if isCurrent then ";line:" else " #line:") + Color
          + ";line.bold" + (if isUndefined then ";text:red" else "") + "\n"
        case "stateDefinitionType" =>
          "state " + stateName + (if isCurrent then ";text:" else " #text:") + Color + "\n"
        case "stateActionType" =>
          "state " + stateName + (if isCurrent then " #FF5555;line:" else " #line:") + Color
          + ";line.bold" + (if isUndefined then ";text:red" else "") + "\n"
        case _ => ""
  }

  /** A focused "next state" block outranks the item holding the focus. */
  lemma FocusedTargetOutranksItem(clickType: string, stateName: string, target: string, blockType: Option<string>,
                                  current: string)
    ensures HighlightLine(Focused(clickType, stateName), current, ClickedState(Some(target), blockType))
         == HighlightLine(Focused(clickType, target), current, NothingClicked)
  {
  }

  /** `updateStateColor`: appends the line that paints the focused state, if any, to `result`. */
  method UpdateStateColor(click: ClickNode, current: string, result: string, clickedState: ClickedState)
    returns (out: string)
    ensures out == result + HighlightLine(click, current, clickedState)
  {
    out := result;
    var clickType := if click.Focused? then click.clickType else "";
    var stateName: Option<string> := None;
    var isCurrent := false;
    if clickedState.nextState.Some? {
      stateName := clickedState.nextState;
      isCurrent := |current| > 0 && current == stateName.value;
    } else if click.Focused? {
      stateName := Some(click.stateName);
      isCurrent := |current| > 0 && click.stateName == current;
    }
    if stateName.Some? {
      var name := stateName.value;
      if name == FinalState {
        return;
      }
      var isUndefined := IsPlaceholder(name);
      var line := "";
      if clickType == "changeStateType" {
        line := "state " + name + (if isCurrent then ";line:" else " #line:") + Color
                + ";line.bold" + (if isUndefined then ";text:red" else "") + "\n";
      } else if clickType == "stateDefinitionType" {
        line := "state " + name + (if isCurrent then ";text:" else " #text:") + Color + "\n";
      } else if clickType == "stateActionType" {
        line := "state " + name + (if isCurrent then " #FF5555;line:" else " #line:") + Color
                + ";line.bold" + (if isUndefined then ";text:red" else "") + "\n";
      }
      out := out + line;
    }
  }
}
