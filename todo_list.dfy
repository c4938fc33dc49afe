/** One ordered list of entries with a redundant entry counter, reordered
    in place by chains of adjacent swaps. */
module TodoLists {
  import opened Items
  import opened Reorder

  class TodoList {
    var num: nat
    var todos: seq<Todo>

    /** The counter agrees with the number of entries. */
    ghost predicate Valid()
      reads this
    {
      num == |todos|
    }

    /** An empty list. */
    constructor ()
      ensures Valid() && todos == []
    {
      num := 0;
      todos := [];
    }

    /** Places `todo` at `pos`, shifting the entries from `pos` on up by one;
        done by appending it and moving it from the end to `pos`. A
        position past the end is a fatal error. */
    method AddTodo(todo: Todo, pos: nat)
      requires pos <= |todos|
      modifies this
      ensures todos == InsertAt(old(todos), pos, todo)
      ensures num == old(num) + 1
      ensures Valid() == old(Valid())
    {
      num := num + 1;
      todos := todos + [todo];
      AppendThenMoved(old(todos), todo, pos);
      MoveTodo(|todos| - 1, pos);
    }

    /** Removes the entry at `pos`, closing the gap; done by moving it to the
        end and dropping the last slot. A position past the end changes
        nothing. The counter is decremented in unsigned arithmetic. */
    method Delete(pos: nat)
      requires pos < |todos| ==> num >= 1
      modifies this
      ensures pos < old(|todos|) ==> todos == RemoveAt(old(todos), pos) && num == old(num) - 1
      ensures pos >= old(|todos|) ==> todos == old(todos) && num == old(num)
      ensures Valid() == old(Valid())
    {
      if pos < |todos| {
        num := num - 1;
        MoveTodo(pos, |todos| - 1);
        MovedToEndThenDropped(old(todos), pos);
        todos := todos[..|todos| - 1];
      }
    }

    /** Relocates the entry at `a` to `b` by adjacent swaps, ascending when
        `a < b` and descending when `a > b`. Either index out of bounds is
        a fatal error. */
    method MoveTodo(a: nat, b: nat)
      requires a < |todos| && b < |todos|
      modifies this
      ensures todos == Moved(old(todos), a, b)
      ensures num == old(num)
    {
      ghost var s := todos;
      if a == b {
        MovedSameIndex(s, a);
        return;
      }
      if a < b {
        for i := a to b
          invariant num == old(num) && |todos| == |s|
          invariant todos[i] == s[a]
          invariant forall k {:trigger todos[k]} :: 0 <= k < |s| && k != i ==> todos[k] == (if a <= k < i then s[k + 1] else s[k])
        {
          todos := todos[i := todos[i + 1]][i + 1 := todos[i]];
        }
      } else {
        for i := a downto b
          invariant num == old(num) && |todos| == |s|
          invariant todos[i] == s[a]
          invariant forall k {:trigger todos[k]} :: 0 <= k < |s| && k != i ==> todos[k] == (if i < k <= a then s[k - 1] else s[k])
        {
          todos := todos[i := todos[i + 1]][i + 1 := todos[i]];
        }
      }
      MovedExt(s, a, b, todos);
    }
  }
}
