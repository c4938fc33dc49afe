# Todo list editor engine, modelled in Dafny

This project models the editing engine of a keyboard-driven, vi-like todo
list editor written in Rust. The engine holds one ordered list of entries.
Each entry has text, a dormant description, a completion flag and two
transient flags: `selected` and `editing`. The engine also holds an
optional row cursor (`line_num`), an input mode (Normal, Insert or Visual)
and a "currently editing" view marker. The key handlers of the event loop
change this state one key at a time.

Modules, one per component:

- `Items` (`items.dfy`): the value types, `Todo::new` and the mode's
  status-line text.
- `Reorder` (`reorder.dfy`): the pure meaning of positional reordering.
  `RemoveAt` takes out the element at an index, `InsertAt` places an
  element at an index, and `Moved` is "remove at `a`, insert at `b`". Its
  lemmas cover what the list operations rely on.
- `TodoLists` (`todo_list.dfy`): the `TodoList` class, with the `num`
  counter and a sequence of entries. `MoveTodo` works by chains of adjacent
  swaps, ascending or descending, exactly as the source does. It is proved
  equal to `Moved`. `AddTodo` is "push, then move into place" and `Delete`
  is "move to the end, then pop". Each keeps the counter equal to the
  length.
- `Cursor` (`cursor.dfy`): the cursor arithmetic in the `j`/`k` key
  handlers, as pure functions with their bounds properties.
- `TodoApp` (`app.dfy`): the `App` class. Its methods are the `App` methods
  of `src/app.rs` and one method per key branch of the event loop in
  `src/main.rs` that uses them. The predicate `EditingOnlyAtCursor` states
  a reachability invariant: the `editing` flag is set exactly on the
  focused row, and only in Insert mode. Every key transition preserves it.
  `AddTodo` and `Delete` preserve it when they are not called in Insert
  mode, which the key dispatch never does.
- `Setup` (`setup.dfy`): the start-up sequence of the event loop as a
  scenario.

Conventions:

- A Rust panic is modelled as a `requires`. This covers an index past the
  end of the vector, a position refused by `add_todo`/`move_todo`, and an
  unsigned subtraction below zero in a debug build.
- Rust's `usize` is modelled as `nat`. Rust's `String` is modelled as
  `seq<char>`.
- The key handlers require the mode in which the dispatch calls them.

The code differs from a clamping editor in these places; the model follows
the code:

- `App::delete` computes the new cursor with `max(line, num - 1)`, not a
  clamp. After a deletion the cursor lands on the last row. When the last
  row was deleted, it lands one past the end (`DeleteMovesCursorToLastRow`,
  `DeleteLastRowLeavesCursorPastEnd`). The selection flags are not
  recomputed after a deletion. A cursor past the end is reachable from the
  keys: with two rows and the cursor on row 1, `d` leaves the cursor on
  row 1 with one row left, and a following `i` indexes past the end in
  `toggle_todo_editing` and panics. In the model this is the edit toggle's
  precondition failing (`DeleteLastRowThenEdit`).
- `App::add_todo` inserts at the cursor's own row, pushing the focused
  entry down. With no row focused it does nothing.
- Ctrl+[ in Insert mode, when reported as the `[` key with Control held,
  leaves Insert mode and also appends `[` to the text, because the same key
  then falls through to the character branch.

## Model

| member | source | states |
|---|---|---|
| `Items.BlankTodo` | src/app.rs:40-49 | a new entry has no text and no description, is not completed, and is neither selected nor being edited |
| `Items.ModeLabel` | src/app.rs:31-39 | every mode has a non-empty status-line text |
| `Items.ModeLabelInjective` | src/app.rs:31-39 | different modes are shown with different texts |
| `Reorder.RemoveAt` | src/app.rs:66-72 | removing index `a` shortens by one; elements before `a` stay, elements after move down by one |
| `Reorder.InsertAt` | src/app.rs:58-65 | inserting at `b` lengthens by one, puts the element at `b`, keeps the elements before `b` and shifts the rest up by one |
| `Reorder.Moved` | src/app.rs:73-91 | a move keeps the length and puts the element from `a` at `b` |
| `Reorder.Origin` | src/app.rs:73-91 | after a move, only position `b` holds the element that was at `a` |
| `Reorder.MovedAt` | src/app.rs:73-91 | after moving `a` to `b`, position `b` holds the old `a`; positions strictly between shift by one toward `a`; positions outside are unchanged |
| `Reorder.MovedExt` | src/app.rs:73-91 | any sequence matching that pointwise description is the move |
| `Reorder.MovedSameIndex` | src/app.rs:78-80 | moving an element onto its own index is the identity |
| `Reorder.MovedIsPermutation` | src/app.rs:73-91 | a move keeps the multiset of elements |
| `Reorder.MovedKeepsRelativeOrder` | src/app.rs:73-91 | apart from the moved element, all elements keep their relative order |
| `Reorder.MovedThenMovedBack` | src/app.rs:73-91 | moving `a` to `b` and then `b` to `a` restores the list, in both directions |
| `Reorder.AppendThenMoved` | src/app.rs:62-64 | pushing an element and moving it from the end to `p` inserts it at `p` |
| `Reorder.MovedToEndThenDropped` | src/app.rs:67-70 | moving index `p` to the end and popping removes exactly index `p` |
| `TodoLists.TodoList.constructor` | src/app.rs:52-57 | a new list is empty and its counter agrees with its length |
| `TodoLists.TodoList.AddTodo` | src/app.rs:58-65 | requires `pos <= len`; the entry is inserted at `pos`, the counter grows by one and the counter invariant is kept |
| `TodoLists.TodoList.Delete` | src/app.rs:66-72 | for `pos < len`, exactly entry `pos` is removed and the counter drops by one; otherwise nothing changes; the counter invariant is kept |
| `TodoLists.TodoList.MoveTodo` | src/app.rs:73-91 | requires both indices in bounds; the ascending and descending swap loops produce "remove at `a`, insert at `b`" and leave the counter alone |
| `Cursor.Down` | src/main.rs:97-107 | `j` keeps an in-range cursor in range, moves at most one row down, stays put exactly when it is on or past the last row, and from no row lands on row 0 exactly when the list is non-empty |
| `Cursor.Up` | src/main.rs:110-118 | Normal `k` moves exactly one row up, and gives no row exactly when there was none or it was on row 0 |
| `Cursor.VisualUp` | src/main.rs:164-171 | Visual `k` never produces "no row", moves at most one row up, and stays put only on row 0 or with no row |
| `Cursor.UpKeepsInRange` | src/main.rs:110-118 | both kinds of `k` keep an in-range cursor in range |
| `Cursor.UpThenDown` | src/main.rs:97-118 | `k` then `j` returns to the starting row, including from row 0 |
| `Cursor.DownThenUp` | src/main.rs:97-118 | `j` then `k` returns to the starting row unless `j` hit the bottom |
| `TodoApp.EditToggled` | src/app.rs:120-132 | the edit toggle swaps Normal and Insert and never enters or leaves Visual |
| `TodoApp.VisualToggled` | src/app.rs:133-143 | the visual toggle swaps Normal and Visual and never enters or leaves Insert |
| `TodoApp.ViewToggled` | src/app.rs:169-181 | the view toggle always yields a view different from before; no view becomes List |
| `TodoApp.EditToggledTwice` | src/app.rs:120-132 | the edit toggle applied twice restores the mode |
| `TodoApp.VisualToggledTwice` | src/app.rs:133-143 | the visual toggle applied twice restores the mode |
| `TodoApp.ViewToggledTwice` | src/app.rs:169-181 | the view toggle applied twice restores a set view |
| `TodoApp.EditingFlipped` | src/app.rs:161-168 | the `editing` flag flips on the focused row only; every other field and row is unchanged |
| `TodoApp.EditingFlippedTwice` | src/app.rs:161-168 | flipping twice restores the entries, so the edit toggle applied twice restores the whole state |
| `TodoApp.CursorAfterDelete` | src/app.rs:112-116 | no row iff the list became empty; otherwise at or past both the deleted row and the new last row |
| `TodoApp.DeleteMovesCursorToLastRow` | src/app.rs:116 | deleting any row but the last puts the cursor on the new last row |
| `TodoApp.DeleteLastRowLeavesCursorPastEnd` | src/app.rs:112-116 | deleting the last row of a list that keeps rows leaves the cursor equal to the row count, out of range |
| `TodoApp.App.constructor` | src/app.rs:94-101 | empty list, Normal mode, no row focused, List view, and no entry being edited |
| `TodoApp.App.AddTodo` | src/app.rs:102-108 | with cursor `l`, a blank entry is inserted at `l`, is the only selected row, and is marked editing unless in Visual mode; entries before `l` and after it are the old ones deselected; the mode takes the edit toggle; with no cursor nothing changes |
| `TodoApp.App.Delete` | src/app.rs:109-119 | with cursor `l`, row `l` is removed when it exists and the cursor becomes `CursorAfterDelete(l, new length)`; with no cursor nothing changes |
| `TodoApp.App.ToggleEditing` | src/app.rs:120-132 | the mode takes the edit toggle; outside Visual the focused row's `editing` flips; the editing invariant is kept |
| `TodoApp.App.ToggleVisual` | src/app.rs:133-143 | the mode takes the visual toggle; nothing else changes |
| `TodoApp.App.RefreshNormalSelection` | src/app.rs:144-160 | each row is selected iff it is the cursor's row, with no row selected when there is no cursor; no other field changes |
| `TodoApp.App.ToggleTodoEditing` | src/app.rs:161-168 | flips `editing` on the focused row; with no cursor nothing changes |
| `TodoApp.App.ToggleCurrentView` | src/app.rs:169-181 | the view marker takes the view toggle |
| `TodoApp.App.ToggleCompletion` | src/app.rs:182-188 | `completed` flips on exactly the selected rows; every other field and row is unchanged |
| `TodoApp.App.NormalKeyDown` | src/main.rs:97-109 | the cursor takes `Cursor.Down`; then exactly the cursor's row is selected; order and content are unchanged |
| `TodoApp.App.NormalKeyUp` | src/main.rs:110-120 | the cursor takes `Cursor.Up`; then exactly the cursor's row is selected; order and content are unchanged |
| `TodoApp.App.VisualKeyDown` | src/main.rs:147-158 | the cursor takes the same clamped step down as in Normal mode |
| `TodoApp.App.VisualKeyUp` | src/main.rs:164-171 | the cursor takes `Cursor.VisualUp` |
| `TodoApp.App.VisualKeyToggle` | src/main.rs:137-140 | Visual `v` returns to Normal with exactly the cursor's row selected |
| `TodoApp.App.InsertKeyLeave` | src/main.rs:189-194 | Esc/Enter return to Normal and flip the focused row's `editing` flag, clearing it under the editing invariant |
| `TodoApp.App.InsertKeyChar` | src/main.rs:200-204 | the character is appended to the focused row's text; nothing else changes; with no cursor nothing changes |
| `TodoApp.App.InsertKeyBackspace` | src/main.rs:195-199 | the focused row's text loses exactly its last character, or stays empty; nothing else changes |
| `TodoApp.App.InsertKeyControlBracket` | src/main.rs:185-204 | Ctrl+[ returns to Normal, flips the focused row's `editing` flag and appends `[` to its text |
| `Setup.Startup` | src/main.rs:31-58 | after adding the three entries at 0, 1, 2, toggling completion with nothing selected, moving 2 to 0 and toggling editing with no cursor, the order is third, first, second, unchanged otherwise, in Normal mode with no cursor |
| `Setup.DeleteLastRowThenEdit` | src/app.rs:109-119 | with two rows and the cursor on row 1, `d` leaves one row and the cursor still on row 1, out of range, so the edit toggle that `i` runs next would index past the end |

## Left out

- Terminal setup and teardown, raw mode, the alternate screen, event polling and reading, key-kind (press) filtering and the `q` exit of the loop in `src/main.rs`. These are I/O over the terminal libraries.
- The Shift-`J`/`K` and `J`/`K` branches in Normal and Visual mode. They call `move_down`, `move_up`, `visual_move_down` and `visual_move_up`, and those are not part of this model because `src/app.rs` does not define them.
- TodoApp.App.VisualKeyDown: models only the cursor arithmetic of Visual `j`. The calls to `refresh_visual_selection` and the update of `visual_begin` are not part of this model, because `src/app.rs` defines neither member.
- TodoApp.App.VisualKeyUp: models only the cursor arithmetic of Visual `k`. The call to `refresh_visual_selection` is left out for the same reason.
- The Normal keys `x`, `d`, `a`, `i`, `v` and the Visual keys `x`, `d` call `ToggleCompletion`, `Delete`, `AddTodo`, `ToggleEditing` and `ToggleVisual` directly, so they have no members of their own.
- `src/ui.rs` (rendering) and `src/config.rs` (file persistence) are not part of this model. Both are written against a different, multi-list version of the engine. The same holds for lists of lists, Command mode and its verbs, and snapshot reload.
- Fixed-width overflow of `usize` when `num += 1` or `line_num + 1` overflows. With unbounded `nat` these cannot happen, and lists are far smaller than the bound.
- TodoApp.App.NormalKeyDown: requires a non-empty list whenever a row is focused, because `num - 1` underflows there in a debug build. A release build would wrap instead. A deletion that empties the list also clears the cursor (`CursorAfterDelete`).
- Cursor.Down: requires a non-empty list whenever a row is focused, for the same `num - 1` underflow in the `j` branch.
- TodoApp.App.VisualKeyDown: requires a non-empty list whenever a row is focused, for the same `num - 1` underflow in the Visual `j` branch.
- The `description` field is carried but never read, and the "currently editing" view marker has no effect beyond its toggle.
