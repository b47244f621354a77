/**
 * The input of the transpiler: the list of state items the block editor
 * sends, already read into typed values. A JSON field the source tests
 * with `has`/`get(..) != null` is an `Option`.
 */
module StmTypes {

  datatype Option<T> = None | Some(value: T)

  /** A Java `int`: `Integer.parseInt` throws on any number outside this range. */
  newtype int32 = x: int | -0x8000_0000 <= x < 0x8000_0000

  /** One outgoing edge of a state block. */
  datatype Transition = Transition(
    nextState: Option<string>,
    event: Option<string>,
    guard: Option<string>,
    effect: Option<string>)

  /** The entry/do/exit actions of a state block. */
  datatype Behavior = Behavior(
    entry: Option<string>,
    doActivity: Option<string>,
    exit: Option<string>)
  {
    /** `behavior.isEmpty()`: the object carries none of the three actions. */
    predicate IsEmpty() {
      entry.None? && doActivity.None? && exit.None?
    }
  }

  /**
   * The editor block the user is focused on. `number` is the index of the
   * transition whose "next state" block was clicked.
   */
  datatype Click = Click(clickType: Option<string>, number: Option<int32>)

  /**
   * One declared state. `myself` is the `condition` of the "start here"
   * block, `invalid` the `condition` text of the duplicate marker.
   */
  datatype StateItem = StateItem(
    state: string,
    transitions: seq<Transition>,
    behavior: Behavior,
    myself: Option<bool>,
    click: Option<Click>,
    invalid: Option<string>)
}
