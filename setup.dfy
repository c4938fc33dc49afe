/** The start-up sequence of the editor: three entries added at the end in
    turn, a completion toggle with nothing selected, the third entry moved
    to the front, and an edit-flag toggle with no row focused. */
module Setup {
  import opened Items
  import opened TodoLists
  import opened TodoApp
  import opened Cursor

  const FIRST := Todo(false, "1. hello morris", true, "hi", false)
  const SECOND := Todo(false, "2. finish this app?", false, "hi", false)
  const THIRD := Todo(false, "3. finish this app?", true, "hi", false)

  /** The editor starts in Normal mode with no row focused and the entries
      in the order third, first, second, exactly as they were created. */
  method Startup() returns (app: App)
    ensures app.Valid() && app.EditingOnlyAtCursor() && app.todos.num == 3
    ensures app.mode == Normal && app.lineNum == None
    ensures app.todos.todos == [THIRD, FIRST, SECOND]
  {
    app := new App();
    app.todos.AddTodo(FIRST, 0);
    app.todos.AddTodo(SECOND, 1);
    app.todos.AddTodo(THIRD, 2);
    app.ToggleCompletion();
    app.todos.MoveTodo(2, 0);
    app.ToggleTodoEditing();
  }

  /** With two rows, `j` twice focuses the second row and `d` deletes it.
      The cursor stays on row 1 with only one row left, so a following `i`
      would index past the end: the edit toggle's precondition no longer
      holds. */
  method DeleteLastRowThenEdit() returns (app: App)
    ensures app.Valid() && app.mode == Normal
    ensures app.todos.todos == [FIRST] && app.lineNum == Some(1)
    ensures !InRange(app.lineNum, |app.todos.todos|)
  {
    app := new App();
    app.todos.AddTodo(FIRST, 0);
    app.todos.AddTodo(SECOND, 1);
    app.NormalKeyDown();
    app.NormalKeyDown();
    app.Delete();
  }
}
