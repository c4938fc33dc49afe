/** The value types of the list editor: the optional cursor, the input
    mode, which view is being edited, and a single task entry. */
module Items {

  datatype Option<T> = None | Some(value: T)

  /** The modal input state; exactly one is active. */
  datatype Mode = Insert | Normal | Visual

  /** Which view of a list is being edited. */
  datatype CurrentlyEditing = List | Description

  /** One task entry. `selected` and `editing` are transient flags the
      engine recomputes; `description` is set at creation and never read. */
  datatype Todo = Todo(
    selected: bool,
    value: string,
    completed: bool,
    description: string,
    editing: bool)

  /** A fresh entry as the "add" command creates it: no text, not done,
      and carrying neither transient flag. */
  function BlankTodo(): (t: Todo)
    ensures |t.value| == 0 && |t.description| == 0
    ensures !t.completed && !t.selected && !t.editing
  {
    Todo(false, "", false, "", false)
  }

  /** The status-line text of a mode. */
  function ModeLabel(m: Mode): (s: string)
    ensures |s| > 0
  {
    match m
    case Insert => "Insert Mode"
    case Normal => "Normal Mode"
    case Visual => "Visual Mode"
  }

  /** Different modes are shown differently. */
  lemma ModeLabelInjective(m1: Mode, m2: Mode)
    requires ModeLabel(m1) == ModeLabel(m2)
    ensures m1 == m2
  {
  }
}
