/** The editor engine: one list, an optional row cursor, the input mode,
    and the per-entry `selected`/`editing` flags derived from them. The
    key handlers of the event loop are methods that update this state. */
module TodoApp {
  import opened Items
  import opened Reorder
  import opened Cursor
  import opened TodoLists

  /** The mode after the edit toggle (`i`, and Esc/Enter in Insert mode):
      Normal and Insert swap, Visual ignores it. */
  function EditToggled(m: Mode): (r: Mode)
    ensures r == Visual <==> m == Visual
    ensures r != m <==> m != Visual
  {
    match m
    case Normal => Insert
    case Insert => Normal
    case Visual => Visual
  }

  /** The mode after the visual toggle (`v`): Normal and Visual swap,
      Insert ignores it. */
  function VisualToggled(m: Mode): (r: Mode)
    ensures r == Insert <==> m == Insert
    ensures r != m <==> m != Insert
  {
    match m
    case Visual => Normal
    case Normal => Visual
    case Insert => Insert
  }

  /** The view after the view toggle: List and Description swap, and no
      view at all becomes List. */
  function ViewToggled(v: Option<CurrentlyEditing>): (r: Option<CurrentlyEditing>)
    ensures r.Some? && r != v
    ensures v.None? ==> r == Some(List)
  {
    match v
    case Some(List) => Some(Description)
    case Some(Description) => Some(List)
    case None => Some(List)
  }

  /** Toggling the edit mode twice restores the mode. */
  lemma EditToggledTwice(m: Mode)
    ensures EditToggled(EditToggled(m)) == m
  {
  }

  /** Toggling the visual mode twice restores the mode. */
  lemma VisualToggledTwice(m: Mode)
    ensures VisualToggled(VisualToggled(m)) == m
  {
  }

  /** Toggling the view twice restores any view that was set. */
  lemma ViewToggledTwice(v: Option<CurrentlyEditing>)
    requires v.Some?
    ensures ViewToggled(ViewToggled(v)) == v
  {
  }

  /** The entries with the `editing` flag flipped on the row under the
      cursor, if any. */
  function EditingFlipped(items: seq<Todo>, line: Option<nat>): (r: seq<Todo>)
    requires InRange(line, |items|)
    ensures |r| == |items|
    ensures forall i :: 0 <= i < |r| ==> r[i] == items[i].(editing := items[i].editing != (line == Some(i)))
  {
    match line
    case None => items
    case Some(l) => items[l := items[l].(editing := !items[l].editing)]
  }

  /** Flipping the editing flag twice restores every entry. */
  lemma EditingFlippedTwice(items: seq<Todo>, line: Option<nat>)
    requires InRange(line, |items|)
    ensures EditingFlipped(EditingFlipped(items, line), line) == items
  {
  }

  /** The cursor after deleting the row at `l`, where `num` is the number of
      rows left: no row when the list became empty, otherwise the larger of
      `l` and the last row. */
  function CursorAfterDelete(l: nat, num: nat): (r: Option<nat>)
    ensures r.None? <==> num == 0
    ensures r.Some? ==> r.value >= l && r.value + 1 >= num
    ensures r.Some? ==> r.value == l || r.value + 1 == num
  {
    if num == 0 then None else Some(if l >= num - 1 then l else num - 1)
  }

  /** Deleting any row but the last sends the cursor to the last row, not to
      the row that slid into the deleted one's place. */
  lemma DeleteMovesCursorToLastRow(l: nat, num: nat)
    requires l < num
    ensures CursorAfterDelete(l, num) == Some(num - 1)
  {
  }

  /** Deleting the last row of a list that keeps at least one row leaves
      the cursor one past the end: the cursor is not kept in range. */
  lemma DeleteLastRowLeavesCursorPastEnd(num: nat)
    requires num >= 1
    ensures CursorAfterDelete(num, num) == Some(num)
    ensures !InRange(CursorAfterDelete(num, num), num)
  {
  }

  class App {
    var currentlyEditing: Option<CurrentlyEditing>
    var mode: Mode
    const todos: TodoList
    var lineNum: Option<nat>

    /** The list's counter agrees with its length. */
    ghost predicate Valid()
      reads this, todos
    {
      todos.Valid()
    }

    /** The `editing` flag is set on the focused row while in Insert mode
        and on no other row, and on no row in any other mode. */
    ghost predicate EditingOnlyAtCursor()
      reads this, todos
    {
      forall i :: 0 <= i < |todos.todos| ==> (todos.todos[i].editing <==> mode == Insert && lineNum == Some(i))
    }

    /** An empty list in Normal mode with no row focused, editing the list
        view. */
    constructor ()
      ensures Valid() && fresh(todos) && EditingOnlyAtCursor()
      ensures todos.todos == [] && lineNum == None
      ensures mode == Normal && currentlyEditing == Some(List)
    {
      currentlyEditing := Some(List);
      mode := Normal;
      todos := new TodoList();
      lineNum := None;
    }

    /** `a`: with a row focused, inserts a blank entry at the cursor's row,
        pushing the focused entry and those after it down, makes the new
        entry the only selected one, and applies the edit toggle, which (in
        Normal mode) enters Insert mode editing the new entry. Without a
        focused row nothing happens. A cursor past the end is fatal. */
    method AddTodo()
      requires Valid()
      requires lineNum.Some? ==> lineNum.value <= |todos.todos|
      modifies this, todos
      ensures Valid()
      ensures lineNum == old(lineNum) && currentlyEditing == old(currentlyEditing)
      ensures lineNum.None? ==> mode == old(mode) && todos.todos == old(todos.todos)
      ensures lineNum.Some? ==>
        mode == EditToggled(old(mode)) &&
        |todos.todos| == old(|todos.todos|) + 1 &&
        todos.todos[lineNum.value] == BlankTodo().(selected := true, editing := old(mode) != Visual)
      ensures lineNum.Some? ==> forall i :: 0 <= i < lineNum.value ==>
        todos.todos[i] == old(todos.todos)[i].(selected := false)
      ensures lineNum.Some? ==> forall i :: lineNum.value < i < |todos.todos| ==>
        todos.todos[i] == old(todos.todos)[i - 1].(selected := false)
      ensures old(mode) != Insert && old(EditingOnlyAtCursor()) ==> EditingOnlyAtCursor()
    {
      if lineNum.Some? {
        todos.AddTodo(BlankTodo(), lineNum.value);
        RefreshNormalSelection();
        ToggleEditing();
      }
    }

    /** `d`: with a row focused, deletes that row (nothing when the cursor
        is past the end) and moves the cursor by `CursorAfterDelete`.
        Selection flags are left as they were. */
    method Delete()
      requires Valid()
      modifies this, todos
      ensures Valid()
      ensures mode == old(mode) && currentlyEditing == old(currentlyEditing)
      ensures old(lineNum).None? ==> lineNum == None && todos.todos == old(todos.todos)
      ensures old(lineNum).Some? ==>
        var l := old(lineNum).value;
        todos.todos == (if l < old(|todos.todos|) then RemoveAt(old(todos.todos), l) else old(todos.todos)) &&
        lineNum == CursorAfterDelete(l, |todos.todos|)
      ensures old(mode) != Insert && old(EditingOnlyAtCursor()) ==> EditingOnlyAtCursor()
    {
      if lineNum.Some? {
        var l := lineNum.value;
        todos.Delete(l);
        if todos.num == 0 {
          lineNum := None;
        } else {
          lineNum := Some(if l >= todos.num - 1 then l else todos.num - 1);
        }
      }
    }

    /** The edit toggle: Normal enters Insert and Insert returns to Normal,
        each flipping `editing` on the focused row; Visual ignores it. A
        cursor past the end is fatal when the flag is flipped. */
    method ToggleEditing()
      requires mode != Visual ==> InRange(lineNum, |todos.todos|)
      modifies this, todos
      ensures mode == EditToggled(old(mode))
      ensures lineNum == old(lineNum) && currentlyEditing == old(currentlyEditing)
      ensures todos.num == old(todos.num)
      ensures todos.todos == if old(mode) == Visual then old(todos.todos) else EditingFlipped(old(todos.todos), lineNum)
      ensures old(EditingOnlyAtCursor()) ==> EditingOnlyAtCursor()
    {
      match mode {
        case Normal =>
          mode := Insert;
          ToggleTodoEditing();
        case Insert =>
          mode := Normal;
          ToggleTodoEditing();
        case Visual =>
      }
    }

    /** `v`: Normal and Visual swap; Insert ignores it. */
    method ToggleVisual()
      modifies this
      ensures mode == VisualToggled(old(mode))
      ensures lineNum == old(lineNum) && currentlyEditing == old(currentlyEditing)
      ensures old(EditingOnlyAtCursor()) ==> EditingOnlyAtCursor()
    {
      match mode {
        case Visual =>
          mode := Normal;
        case Normal =>
          mode := Visual;
        case Insert =>
      }
    }

    /** Recomputes the selection: exactly the focused row is selected, and
        no row when none is focused (or the cursor is past the end). */
    method RefreshNormalSelection()
      requires Valid()
      modifies todos
      ensures Valid()
      ensures |todos.todos| == old(|todos.todos|)
      ensures forall i :: 0 <= i < |todos.todos| ==> todos.todos[i] == old(todos.todos)[i].(selected := lineNum == Some(i))
      ensures old(EditingOnlyAtCursor()) ==> EditingOnlyAtCursor()
    {
      if lineNum.Some? {
        var l := lineNum.value;
        for i := 0 to todos.num
          invariant Valid() && |todos.todos| == old(|todos.todos|)
          invariant forall k :: 0 <= k < i ==> todos.todos[k] == old(todos.todos)[k].(selected := k == l)
          invariant forall k :: i <= k < |todos.todos| ==> todos.todos[k] == old(todos.todos)[k]
        {
          if i == l {
            todos.todos := todos.todos[l := todos.todos[l].(selected := true)];
          } else {
            todos.todos := todos.todos[i := todos.todos[i].(selected := false)];
          }
        }
      } else {
        for i := 0 to todos.num
          invariant Valid() && |todos.todos| == old(|todos.todos|)
          invariant forall k :: 0 <= k < i ==> todos.todos[k] == old(todos.todos)[k].(selected := false)
          invariant forall k :: i <= k < |todos.todos| ==> todos.todos[k] == old(todos.todos)[k]
        {
          todos.todos := todos.todos[i := todos.todos[i].(selected := false)];
        }
      }
    }

    /** Flips `editing` on the focused row; with no row focused nothing
        happens. A cursor past the end is fatal. */
    method ToggleTodoEditing()
      requires InRange(lineNum, |todos.todos|)
      modifies todos
      ensures todos.num == old(todos.num)
      ensures todos.todos == EditingFlipped(old(todos.todos), lineNum)
    {
      if lineNum.Some? {
        var l := lineNum.value;
        todos.todos := todos.todos[l := todos.todos[l].(editing := !todos.todos[l].editing)];
      }
    }

    /** Swaps the edited view between List and Description (no view becomes
        List). */
    method ToggleCurrentView()
      modifies this
      ensures currentlyEditing == ViewToggled(old(currentlyEditing))
      ensures mode == old(mode) && lineNum == old(lineNum)
    {
      match currentlyEditing {
        case Some(List) =>
          currentlyEditing := Some(Description);
        case Some(Description) =>
          currentlyEditing := Some(List);
        case None =>
          currentlyEditing := Some(List);
      }
    }

    /** `x`: flips `completed` on exactly the selected entries. */
    method ToggleCompletion()
      modifies todos
      ensures todos.num == old(todos.num) && |todos.todos| == old(|todos.todos|)
      ensures forall i :: 0 <= i < |todos.todos| ==>
        todos.todos[i] == old(todos.todos)[i].(completed := old(todos.todos)[i].completed != old(todos.todos)[i].selected)
      ensures old(EditingOnlyAtCursor()) ==> EditingOnlyAtCursor()
    {
      for i := 0 to |todos.todos|
        invariant todos.num == old(todos.num) && |todos.todos| == old(|todos.todos|)
        invariant forall k :: 0 <= k < i ==>
          todos.todos[k] == old(todos.todos)[k].(completed := old(todos.todos)[k].completed != old(todos.todos)[k].selected)
        invariant forall k :: i <= k < |todos.todos| ==> todos.todos[k] == old(todos.todos)[k]
      {
        if todos.todos[i].selected {
          todos.todos := todos.todos[i := todos.todos[i].(completed := !todos.todos[i].completed)];
        }
      }
    }

    /** Normal-mode `j`: the cursor steps down (see `Cursor.Down`) and the
        selection follows it; entries keep their order and content. */
    method NormalKeyDown()
      requires Valid() && mode == Normal
      requires lineNum.Some? ==> todos.num >= 1
      modifies this, todos
      ensures Valid() && todos.num == old(todos.num)
      ensures lineNum == Down(old(lineNum), todos.num)
      ensures mode == old(mode) && currentlyEditing == old(currentlyEditing)
      ensures |todos.todos| == old(|todos.todos|)
      ensures forall i :: 0 <= i < |todos.todos| ==> todos.todos[i] == old(todos.todos)[i].(selected := lineNum == Some(i))
      ensures old(EditingOnlyAtCursor()) ==> EditingOnlyAtCursor()
    {
      if lineNum.Some? {
        if lineNum.value < todos.num - 1 {
          lineNum := Some(lineNum.value + 1);
        }
      } else {
        if todos.num > 0 {
          lineNum := Some(0);
        }
      }
      RefreshNormalSelection();
    }

    /** Normal-mode `k`: the cursor steps up (see `Cursor.Up`), leaving the
        rows from the first one, and the selection follows it. */
    method NormalKeyUp()
      requires Valid() && mode == Normal
      modifies this, todos
      ensures Valid()
      ensures lineNum == Up(old(lineNum))
      ensures mode == old(mode) && currentlyEditing == old(currentlyEditing)
      ensures |todos.todos| == old(|todos.todos|)
      ensures forall i :: 0 <= i < |todos.todos| ==> todos.todos[i] == old(todos.todos)[i].(selected := lineNum == Some(i))
      ensures old(EditingOnlyAtCursor()) ==> EditingOnlyAtCursor()
    {
      if lineNum.Some? {
        if lineNum.value > 0 {
          lineNum := Some(lineNum.value - 1);
        } else if lineNum.value == 0 {
          lineNum := None;
        }
      }
      RefreshNormalSelection();
    }

    /** Visual-mode `j`: the same clamped step down as in Normal mode. */
    method VisualKeyDown()
      requires Valid() && mode == Visual
      requires lineNum.Some? ==> todos.num >= 1
      modifies this
      ensures todos.num == old(todos.num)
      ensures lineNum == Down(old(lineNum), todos.num)
      ensures mode == old(mode) && currentlyEditing == old(currentlyEditing)
      ensures old(EditingOnlyAtCursor()) ==> EditingOnlyAtCursor()
    {
      if lineNum.Some? {
        if lineNum.value < todos.num - 1 {
          lineNum := Some(lineNum.value + 1);
        }
      } else {
        if todos.num > 0 {
          lineNum := Some(0);
        }
      }
    }

    /** Visual-mode `k`: one row up, stopping at the first row. */
    method VisualKeyUp()
      requires Valid() && mode == Visual
      modifies this
      ensures lineNum == VisualUp(old(lineNum))
      ensures mode == old(mode) && currentlyEditing == old(currentlyEditing)
      ensures old(EditingOnlyAtCursor()) ==> EditingOnlyAtCursor()
    {
      if lineNum.Some? {
        if lineNum.value > 0 {
          lineNum := Some(lineNum.value - 1);
        }
      }
    }

    /** Visual-mode `v`: back to Normal mode with only the focused row
        selected. */
    method VisualKeyToggle()
      requires Valid() && mode == Visual
      modifies this, todos
      ensures Valid()
      ensures mode == Normal
      ensures lineNum == old(lineNum) && currentlyEditing == old(currentlyEditing)
      ensures |todos.todos| == old(|todos.todos|)
      ensures forall i :: 0 <= i < |todos.todos| ==> todos.todos[i] == old(todos.todos)[i].(selected := lineNum == Some(i))
      ensures old(EditingOnlyAtCursor()) ==> EditingOnlyAtCursor()
    {
      ToggleVisual();
      RefreshNormalSelection();
    }

    /** Insert-mode Esc or Enter: back to Normal mode, clearing the focused
        row's `editing` flag. */
    method InsertKeyLeave()
      requires mode == Insert && InRange(lineNum, |todos.todos|)
      modifies this, todos
      ensures mode == Normal
      ensures lineNum == old(lineNum) && currentlyEditing == old(currentlyEditing)
      ensures todos.num == old(todos.num)
      ensures todos.todos == EditingFlipped(old(todos.todos), lineNum)
      ensures old(EditingOnlyAtCursor()) ==> EditingOnlyAtCursor()
    {
      ToggleEditing();
    }

    /** Insert-mode character: appended to the focused row's text; nothing
        when no row is focused. A cursor past the end is fatal. */
    method InsertKeyChar(c: char)
      requires mode == Insert && InRange(lineNum, |todos.todos|)
      modifies todos
      ensures todos.num == old(todos.num) && |todos.todos| == old(|todos.todos|)
      ensures forall i :: 0 <= i < |todos.todos| && lineNum != Some(i) ==> todos.todos[i] == old(todos.todos)[i]
      ensures lineNum.Some? ==>
        var l := lineNum.value;
        todos.todos[l] == old(todos.todos)[l].(value := todos.todos[l].value) &&
        todos.todos[l].value == old(todos.todos)[l].value + [c]
      ensures old(EditingOnlyAtCursor()) ==> EditingOnlyAtCursor()
    {
      if lineNum.Some? {
        var l := lineNum.value;
        todos.todos := todos.todos[l := todos.todos[l].(value := todos.todos[l].value + [c])];
      }
    }

    /** Insert-mode Backspace: the focused row's text loses its last
        character, if it has one; nothing when no row is focused. */
    method InsertKeyBackspace()
      requires mode == Insert && InRange(lineNum, |todos.todos|)
      modifies todos
      ensures todos.num == old(todos.num) && |todos.todos| == old(|todos.todos|)
      ensures forall i :: 0 <= i < |todos.todos| && lineNum != Some(i) ==> todos.todos[i] == old(todos.todos)[i]
      ensures lineNum.Some? ==>
        var l := lineNum.value;
        todos.todos[l] == old(todos.todos)[l].(value := todos.todos[l].value) &&
        (old(todos.todos)[l].value == [] ==> todos.todos[l].value == []) &&
        (old(todos.todos)[l].value != [] ==>
          todos.todos[l].value + [old(todos.todos)[l].value[|old(todos.todos)[l].value| - 1]] == old(todos.todos)[l].value)
      ensures old(EditingOnlyAtCursor()) ==> EditingOnlyAtCursor()
    {
      if lineNum.Some? {
        var l := lineNum.value;
        var text := todos.todos[l].value;
        if |text| > 0 {
          todos.todos := todos.todos[l := todos.todos[l].(value := text[..|text| - 1])];
        }
      }
    }

    /** Insert-mode Ctrl+[ when reported as the `[` key with Control held:
        the edit toggle runs, and then the same key also falls through to
        the character branch, so `[` is appended to the focused row's text
        while leaving Insert mode. */
    method InsertKeyControlBracket()
      requires mode == Insert && InRange(lineNum, |todos.todos|)
      modifies this, todos
      ensures mode == Normal
      ensures lineNum == old(lineNum) && currentlyEditing == old(currentlyEditing)
      ensures todos.num == old(todos.num) && |todos.todos| == old(|todos.todos|)
      ensures forall i :: 0 <= i < |todos.todos| && lineNum != Some(i) ==> todos.todos[i] == old(todos.todos)[i]
      ensures lineNum.Some? ==>
        var l := lineNum.value;
        todos.todos[l] == old(todos.todos)[l].(value := old(todos.todos)[l].value + ['['], editing := !old(todos.todos)[l].editing)
      ensures old(EditingOnlyAtCursor()) ==> EditingOnlyAtCursor()
    {
      ToggleEditing();
      if lineNum.Some? {
        var l := lineNum.value;
        todos.todos := todos.todos[l := todos.todos[l].(value := todos.todos[l].value + ['['])];
      }
    }
  }
}
