# StmGenerator: JSON state items to PlantUML, in Dafny

This project models `StmGenerator.jsonToPlantUML` and the helpers it calls.
The input is the list of state items a block editor produces. The output is
the text of a PlantUML state diagram. The transpiler works in five steps:

- A validation pass over the items raises five flags.
- The same pass collects every declared name, every transition target, the
  "current" identifier (the first target carrying the `#FF5555` marker) and
  the target of the focused "next state" block.
- The collected names become an ordered set of states: marker deleted,
  trimmed, empty names dropped, first occurrence kept.
- The flags either choose one error note, or the body is emitted. The body
  is the state declarations, the arrow out of the initial pseudostate
  `初期状態`, one line per transition with a target, and the entry/do/exit
  lines. One line highlighting the focused state may follow.
- The output is always framed by a fixed header and the `@enduml` footer.

Modules, one per concern of the source:

- `StmTypes` (`types.dfy`): the input items as datatypes. `click.number` is
  a 32-bit integer.
- `JavaStrings` (`java_strings.dfy`): `contains`, `replace(t, "")` and
  `trim` over `seq<char>`.
- `StateNames` (`state_names.dfy`): the reserved names, the marker and the
  naming rule.
- `OrderedSet` (`ordered_set.dfy`): a `LinkedHashSet` as the sequence of
  its elements in insertion order.
- `StateCollector` (`state_collector.dfy`): `stateList`, `nextStateList`,
  `current` and `allStateSet`.
- `Validation` (`validation.dfy`): the four checks and the error priority.
- `Emitters` (`emitters.dfy`): the pure line builders and
  `createTemporaryState`.
- `Highlight` (`highlight.dfy`): `clickedState`, `clickNode` and
  `updateStateColor`.
- `StmGenerator` (`generator.dfy`): the driver and its two `forEach` passes.

The Java helpers mutate accumulators passed by reference:

- `AtomicBoolean` flags;
- the `ArrayList`s;
- the `StringBuilder`s;
- the `ObjectNode`s.

Here each such helper is a `method` that takes the old value and returns
the new one, and `JsonToPlantUML` threads them exactly as the Java driver
does. Each method is proved against a specification function, and the
driver is proved to return `PlantUML(items)`. `PlantUML` is defined from
`Diagnose` (the error choice) and `DiagramBody` (the drawn diagram), and the
lemmas below state what those promise.

Two details of the output:

- A transition line has no spaces around the arrow and writes ` :` before
  the parts: `A-->[*] : e [g] / f`.
- `updateStateColor` chooses the style from the type held in `clickNode`,
  not from the type recorded in `clickedState`.

## Model

| member | source | states |
|---|---|---|
| StmGenerator.ErrorNote | src/main/java/com/example/demo/StmGenerator.java:79-97 | the five fixed notes, each `note as <id>` with its red message and `end note`, one per violation |
| StmGenerator.ItemText | src/main/java/com/example/demo/StmGenerator.java:106-136 | what the body pass writes for one item: the first transition of the initial pseudostate; for another non-empty name its transition lines, then its behaviour lines when the behaviour is not empty; nothing for an empty name |
| StmGenerator.DiagramBody | src/main/java/com/example/demo/StmGenerator.java:102-138 | the diagram without errors: the declarations of all states, the text of every item in order, then the one highlight line |
| StmGenerator.JsonToPlantUML | src/main/java/com/example/demo/StmGenerator.java:35-144 | the text returned is `PlantUML(items)`: the header, then one error note or the diagram body, then the footer |
| StmGenerator.PlantUML | src/main/java/com/example/demo/StmGenerator.java:44-141 | the output always starts with `@startuml`, a line break, the `skinparam defaultFontName "Noto Sans JP"` line and a line break, and always ends with `@enduml` |
| StmGenerator.ErrorReplacesDiagram | src/main/java/com/example/demo/StmGenerator.java:78-98 | when a check fails, the output is the header, exactly that one note and the footer: no declaration, transition, behaviour or highlight line |
| StmGenerator.CheckAndCollect | src/main/java/com/example/demo/StmGenerator.java:55-66 | after the first pass each flag holds exactly when some item meets its condition; `stateList` is every name and `nextStateList` every target, in order; `current` is the first marked target; `clickedState` is what the last selecting item left |
| StmGenerator.CheckItem | src/main/java/com/example/demo/StmGenerator.java:59-62 | the four checks on one item each raise their own flag for that item's condition and never lower it |
| StmGenerator.AppendTransitionLines | src/main/java/com/example/demo/StmGenerator.java:124-131 | appends one transition line per transition that has a target, in order, and nothing for the others |
| StmGenerator.EmitItem | src/main/java/com/example/demo/StmGenerator.java:106-136 | for one item: the initial pseudostate writes its first transition only; another named state writes its transition lines, then its behaviour lines; `clickNode` takes the item's type and name when its click has a type |
| StmGenerator.EmitBody | src/main/java/com/example/demo/StmGenerator.java:105-137 | the second pass appends every item's text in order and leaves in `clickNode` the last item whose click has a type |
| StmGenerator.EmitItemsConcat | src/main/java/com/example/demo/StmGenerator.java:105-137 | the body text of a concatenation of item lists is the concatenation of their body texts |
| StmGenerator.InitialItemShowsFirstTransitionOnly | src/main/java/com/example/demo/StmGenerator.java:118-121 | the initial pseudostate's text does not depend on its later transitions or on its behaviour |
| StmGenerator.TargetDeclaredOnce | src/main/java/com/example/demo/StmGenerator.java:69-75 | every target whose cleaned name is not empty and not a pseudostate is declared exactly once: it occurs once in the duplicate-free list of declared states, and the declarations are one line per declared state |
| StmGenerator.DrawnTargetIsStripped | src/main/java/com/example/demo/StmGenerator.java:211-233 | when the diagram is drawn, every target obeys the naming rule, so its declared form is the target with the marker deleted; trimming changes nothing |
| StmGenerator.CurrentTargetCarriesMarker | src/main/java/com/example/demo/StmGenerator.java:504-513 | when the highlighted state is the current identifier, it carries the `#FF5555` marker |
| Validation.Diagnose | src/main/java/com/example/demo/StmGenerator.java:78-98 | the note reported: no initial state, else a bad name, else several initial transitions, else a duplicate, else no initial transition, else none |
| Validation.ErrorPriority | src/main/java/com/example/demo/StmGenerator.java:78-98 | the reported note is `v` exactly when condition `v` holds and no condition ranked before it holds, in the order: no initial state, invalid name, several initial transitions, duplicate state, no initial target |
| Validation.NoErrorWhenAllChecksPass | src/main/java/com/example/demo/StmGenerator.java:94-100 | the diagram is drawn exactly when none of the five conditions holds |
| Validation.AnyExists | src/main/java/com/example/demo/StmGenerator.java:55-66 | a flag raised item by item during the pass holds exactly when some item meets the condition |
| Validation.CheckInitialTransitionCount | src/main/java/com/example/demo/StmGenerator.java:201-207 | the flag is raised exactly for the initial pseudostate with two transitions or more |
| Validation.CheckInitialState | src/main/java/com/example/demo/StmGenerator.java:148-167 | on the initial pseudostate, one flag is raised when `myself` is true and the other when some transition has a target |
| Validation.ValidateStateNames | src/main/java/com/example/demo/StmGenerator.java:211-233 | the flag is raised exactly when the declared name or some target breaks the naming rule once the marker is deleted |
| Validation.CheckDuplicateState | src/main/java/com/example/demo/StmGenerator.java:189-197 | the flag is raised exactly when `invalid.condition` is the text `true` |
| StateNames.AllowedChar | src/main/java/com/example/demo/StmGenerator.java:214 | the characters the pattern allows: ASCII digits and letters, full-width letters and digits, hiragana, katakana, the CJK range 一-龥, 々, ー and 〇 |
| StateNames.IsInvalidName | src/main/java/com/example/demo/StmGenerator.java:214-228 | a name breaks the rule when, once every marker is deleted and nothing trimmed, some character is not allowed |
| StateNames.EmptyNameIsValid | src/main/java/com/example/demo/StmGenerator.java:214-219 | the empty name obeys the naming rule |
| StateNames.SpaceIsNotTrimmedBeforeCheck | src/main/java/com/example/demo/StmGenerator.java:217-219 | the rule is checked on the untrimmed name: ` A` breaks it, although the set of states would hold `A` |
| StateNames.MarkedNameIsPlainName | src/main/java/com/example/demo/StmGenerator.java:217-228 | for a name without `#`, the name with the marker appended strips back to the plain name and obeys the rule exactly when the plain name does |
| StateNames.UnmarkedNameIsKept | src/main/java/com/example/demo/StmGenerator.java:72-72 | deleting the marker leaves a name without `#` unchanged |
| StateNames.ValidNameNeedsNoTrim | src/main/java/com/example/demo/StmGenerator.java:72-73 | a name that obeys the rule is not changed by the trim step |
| JavaStrings.Contains | src/main/java/com/example/demo/StmGenerator.java:179 | `String.contains`: some suffix starts with `sub` |
| JavaStrings.DeleteAll | src/main/java/com/example/demo/StmGenerator.java:72 | `replace(target, "")`: every occurrence deleted left to right without overlap; the result is never longer |
| JavaStrings.Trim | src/main/java/com/example/demo/StmGenerator.java:73 | `String.trim`: every leading, then every trailing character at or below `' '` removed |
| JavaStrings.ContainsAt | src/main/java/com/example/demo/StmGenerator.java:179-179 | `contains` holds exactly when the text occurs at some position |
| JavaStrings.DeleteAllAbsent | src/main/java/com/example/demo/StmGenerator.java:72-72 | `replace` with an absent target changes nothing |
| JavaStrings.TrimStart | src/main/java/com/example/demo/StmGenerator.java:73-73 | the result is a suffix that starts with a kept character, and everything removed is trimmable |
| JavaStrings.TrimEnd | src/main/java/com/example/demo/StmGenerator.java:73-73 | the result is a prefix that ends with a kept character, and everything removed is trimmable |
| JavaStrings.TrimUntrimmable | src/main/java/com/example/demo/StmGenerator.java:73-73 | a text with no trimmable character is its own trim |
| OrderedSet.DedupIsFirstOccurrenceOrder | src/main/java/com/example/demo/StmGenerator.java:69-75 | the set read back in iteration order is duplicate-free, holds exactly the input's elements, and lists them in order of first occurrence |
| OrderedSet.DedupUnique | src/main/java/com/example/demo/StmGenerator.java:69-75 | that characterisation is complete: any list with those three properties is the set's iteration order |
| OrderedSet.DedupFirstOccurrence | src/main/java/com/example/demo/StmGenerator.java:69-75 | the insertion-ordered set is duplicate-free, holds exactly the input's elements, and keeps first-occurrence order |
| OrderedSet.AddAllMembers | src/main/java/com/example/demo/StmGenerator.java:69-70 | after `addAll` the set holds exactly what it held plus what was added |
| OrderedSet.AddAllNoDuplicates | src/main/java/com/example/demo/StmGenerator.java:69-70 | `addAll` never adds a second copy of an element |
| OrderedSet.AddAllConcat | src/main/java/com/example/demo/StmGenerator.java:69-70 | adding one list and then another is adding their concatenation |
| OrderedSet.LastNewElementComesLast | src/main/java/com/example/demo/StmGenerator.java:69-75 | an element first seen at the end of the input comes last in the set, and the rest orders the shorter input |
| OrderedSet.RepeatedElementAddsNothing | src/main/java/com/example/demo/StmGenerator.java:69-75 | adding an element already present changes neither membership nor order |
| StateCollector.FirstMarked | src/main/java/com/example/demo/StmGenerator.java:179-181 | `current` after the targets: empty, or one of the targets that contains the marker |
| StateCollector.AllStateSet | src/main/java/com/example/demo/StmGenerator.java:69-75 | the raw names then the raw targets, first occurrences kept, each cleaned, empty ones dropped, first occurrences kept again |
| StateCollector.CollectNextStates | src/main/java/com/example/demo/StmGenerator.java:170-185 | appends the targets of the transitions to `nextStateList`, in order, and sets `current` to the first marked target, verbatim, only while it is empty |
| StateCollector.FirstMarkedIsFirst | src/main/java/com/example/demo/StmGenerator.java:179-181 | `current` is empty exactly when no target carries the marker; otherwise it is the first target that does |
| StateCollector.FirstMarkedAppend | src/main/java/com/example/demo/StmGenerator.java:179-181 | once `current` is set, later targets never replace it |
| StateCollector.CleanAllMembers | src/main/java/com/example/demo/StmGenerator.java:71-74 | the cleaned stream holds exactly the non-empty cleaned forms of the raw names |
| StateCollector.DedupCleanDedup | src/main/java/com/example/demo/StmGenerator.java:69-75 | cleaning the raw set and collecting again gives the same set as cleaning every raw name and collecting once |
| StateCollector.AllStateSetIsDedup | src/main/java/com/example/demo/StmGenerator.java:69-75 | `allStateSet` is the first-occurrence deduplication of the cleaned names followed by the cleaned targets |
| StateCollector.AllStateSetMembers | src/main/java/com/example/demo/StmGenerator.java:69-75 | `allStateSet` is duplicate-free and holds a name exactly when it is the non-empty cleaned form of some declared name or target |
| StateCollector.TargetCollected | src/main/java/com/example/demo/StmGenerator.java:64-64 | every target of every item is in `nextStateList` |
| StateCollector.TargetIsState | src/main/java/com/example/demo/StmGenerator.java:69-75 | the cleaned form of every target, when not empty, is in `allStateSet` |
| StateCollector.RawNameIsState | src/main/java/com/example/demo/StmGenerator.java:69-75 | the cleaned form of any collected raw name, when not empty, is in `allStateSet` |
| Emitters.TransitionColor | src/main/java/com/example/demo/StmGenerator.java:365-374 | the arrow is `-[#orange]->` exactly when the click type is `switchIfType` or `switchElseIfType`, and `-->` otherwise |
| Emitters.BehaviorRuleColor | src/main/java/com/example/demo/StmGenerator.java:397-420 | the label is unchanged or wrapped as `<color:orange>label<color:black>`, and it is wrapped exactly when the click type maps to that label |
| Emitters.AtMostOneLabelColoured | src/main/java/com/example/demo/StmGenerator.java:408-418 | of two different labels, at most one is coloured |
| Emitters.ArrowTarget | src/main/java/com/example/demo/StmGenerator.java:346-348 | the final pseudostate is written `[*]`; any other target is written as it is |
| Emitters.EventPart | src/main/java/com/example/demo/StmGenerator.java:337-339 | the event part is empty exactly when there is no event or the event is `completeEvent` |
| Emitters.GuardPart | src/main/java/com/example/demo/StmGenerator.java:340-342 | the guard part is empty exactly when there is no guard |
| Emitters.EffectPart | src/main/java/com/example/demo/StmGenerator.java:343-345 | the effect part is empty exactly when there is no effect |
| Emitters.TriggerLabel | src/main/java/com/example/demo/StmGenerator.java:350-356 | the label after the target is empty exactly when no event is shown and there is no guard and no effect |
| Emitters.TransitionToPlantUML | src/main/java/com/example/demo/StmGenerator.java:331-361 | the transition line starts with the state name and ends with a line break |
| Emitters.TransitionLineParts | src/main/java/com/example/demo/StmGenerator.java:331-361 | the line is the state, the arrow, the target as drawn, the label (` :` then event, guard and effect parts) and a line break |
| Emitters.CompleteEventIsSilent | src/main/java/com/example/demo/StmGenerator.java:337-337 | a `completeEvent` event is written exactly as no event |
| Emitters.InitialNote | src/main/java/com/example/demo/StmGenerator.java:273-282 | the note under the initial arrow is empty exactly when the transition has neither event nor guard |
| Emitters.FirstStateToPlantUML | src/main/java/com/example/demo/StmGenerator.java:237-293 | the initial text is empty exactly when the initial pseudostate has no transition |
| Emitters.FirstStateParts | src/main/java/com/example/demo/StmGenerator.java:240-283 | the initial text is the `[*] arrow target` part when there is a target, ` : / effect` when there is an effect, a line break, then the note |
| Emitters.BehaviorLine | src/main/java/com/example/demo/StmGenerator.java:381-391 | one behaviour line is empty exactly when the action is absent, and otherwise is `state : label / action` with a line break |
| Emitters.BehaviorToPlantUML | src/main/java/com/example/demo/StmGenerator.java:378-393 | the behaviour text is empty exactly when entry, do and exit are all absent |
| Emitters.StateDeclaration | src/main/java/com/example/demo/StmGenerator.java:489-494 | one line that starts with `state ` and the name and ends with a line break; `#text:red` when the name contains the undefined mark |
| Emitters.Declarations | src/main/java/com/example/demo/StmGenerator.java:486-499 | one declaration per collected state that is not a pseudostate, in the set's order |
| Emitters.DeclaredStatesMembers | src/main/java/com/example/demo/StmGenerator.java:488-489 | a name is declared exactly when it is in the set and is not a pseudostate |
| Emitters.DeclaredStatesNoDuplicates | src/main/java/com/example/demo/StmGenerator.java:488-489 | removing the pseudostates keeps the list duplicate-free |
| Emitters.DeclarationsOnePerState | src/main/java/com/example/demo/StmGenerator.java:486-499 | the declarations are one line per declared state, in order: `state X#text:red` for a placeholder, `state X` otherwise |
| Emitters.CreateTemporaryState | src/main/java/com/example/demo/StmGenerator.java:486-499 | appends the declarations of the states in the set to `result` |
| Highlight.SelectedTarget | src/main/java/com/example/demo/StmGenerator.java:307-316 | an item selects a target exactly when its click has a type and a number, the number indexes a transition, and that transition has a target |
| Highlight.NextStateOnClick | src/main/java/com/example/demo/StmGenerator.java:306-327 | `clickedState` is unchanged unless the item selects a target; then it takes that target, and the block type too when the type is `changeStateType` or `stateDefinitionType` |
| Highlight.GetNextStateOnClick | src/main/java/com/example/demo/StmGenerator.java:306-327 | records the item's selection as `NextStateOnClick` describes |
| Highlight.ClickedAfter | src/main/java/com/example/demo/StmGenerator.java:55-66 | `clickedState` after the first pass: each item updates it in turn through `getNextStateOnClick` |
| Highlight.BlockTypeNeedsTarget | src/main/java/com/example/demo/StmGenerator.java:317-322 | a block type is never recorded without a target |
| Highlight.LastSelectionWins | src/main/java/com/example/demo/StmGenerator.java:65-65 | the recorded target is the one selected by the last item that selects any, and there is none when no item does |
| Highlight.ClickNodeAfter | src/main/java/com/example/demo/StmGenerator.java:112-116 | `clickNode` takes the item's type and name exactly when its click has a type, and is otherwise unchanged |
| Highlight.LastClickNode | src/main/java/com/example/demo/StmGenerator.java:112-116 | `clickNode` after the body pass: the type and name of the last item whose click has a type, or unfocused |
| Highlight.LastFocusWins | src/main/java/com/example/demo/StmGenerator.java:112-116 | the focus is held by the last item whose click has a type, and by none when no item's click has one |
| Highlight.HighlightTarget | src/main/java/com/example/demo/StmGenerator.java:507-513 | the state to paint is the clicked target when there is one, else the item holding the focus |
| Highlight.HighlightLine | src/main/java/com/example/demo/StmGenerator.java:501-540 | no line is written exactly when there is nothing to paint, the state to paint is the final pseudostate, or the focused type is not one of the three painting types |
| Highlight.FocusedTargetOutranksItem | src/main/java/com/example/demo/StmGenerator.java:507-513 | with a clicked target, the line is the one the focus would give if that target held it |
| Highlight.UpdateStateColor | src/main/java/com/example/demo/StmGenerator.java:501-540 | appends the highlight line, if any, to `result` |

## Left out

- `convertPumlToPngBytes` renders through the PlantUML library, which is not part of this model.
- `HomeController` is HTTP plumbing: directory scan, file reads, Base64 and the response.
- Jackson parsing and its `asText`/`asBoolean` coercions are left out. The input is already typed: `myself` is `Option<bool>`, `invalid` is `Option<string>`, and `click.number` is `Option<int32>`.
- The input type cannot express a missing `transition` array or `behavior` object, on which the Java throws a NullPointerException (StmGenerator.java:203, :224, :133); `[]` and a `Behavior` with every action absent stand for JSON `[]` and `{}`.
- The NumberFormatException path for a non-numeric `click.number` is excluded by its type.
- `IsInvalidName`: `.` in the Java pattern does not match line terminators; the model reads the pattern as "some character lies outside the allowed class".
- The mutable `color` field is the constant `Color`, `"orange"`.
- The commented-out code and the unused helpers `appendValidNextStates`, `undifinedStateToRed`, `clickedStateColor` and `clickedNextStateColor` are left out.
- The `current` field of an item is read by the Java but never used, so it is not in the model.
- `firstStateToPlantUML`'s `state` and `myself` parameters are never read, so they are not in the model.
- Fields of `behavior` other than `entry`, `do` and `exit` are not modelled, so `behavior.isEmpty()` means all three are absent.
- The helpers change shared accumulators in place. The model passes each accumulator in and returns its new value. No accumulator aliases another in the source, so the order of updates is kept but object identity is not modelled.
- Each `forEach` lambda body is a separate method (`CheckAndCollect` with `CheckItem`, `EmitBody` with `EmitItem`, `AppendTransitionLines`), called in the same order as the lambdas run.
