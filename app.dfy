/**
 * The application object: the task list it holds, the rows its list view shows,
 * and the storage file it writes. Each handler changes the list in place the way
 * the corresponding user action does, saves the file and redraws the view.
 */
module App {
  import opened Wrappers
  import opened Text
  import opened Tasks

  class TodoApp {
    /** The task list, in insertion order. */
    var todos: seq<Task>
    /** The rows the list view currently shows. */
    var view: seq<Row>
    /** The contents of the storage file. */
    var disk: StoredFile

    /** The view shows the current list. */
    ghost predicate Valid()
      reads this
    {
      view == Rows(todos)
    }

    /** Start-up: load the list from the file (an empty list when it is missing or
        unreadable) and show it. */
    constructor (file: StoredFile)
      ensures Valid()
      ensures todos == LoadTodos(file) && disk == file
    {
      todos := LoadTodos(file);
      view := [];
      disk := file;
      new;
      RefreshTodoList();
    }

    /** Writing the whole list to the file. */
    method SaveTodos()
      modifies this`disk
      ensures disk == Saved(todos)
      ensures LoadTodos(disk) == todos
    {
      disk := Json(todos);
    }

    /** Clearing the view and inserting one row per task, in list order. */
    method RefreshTodoList()
      modifies this`view
      ensures Valid()
    {
      view := [];
      for i := 0 to |todos|
        invariant |view| == i
        invariant forall k :: 0 <= k < i ==> view[k] == RowOf(k, todos[k])
      {
        view := view + [RowOf(i, todos[i])];
      }
    }

    /** Adding a task from the entry text. */
    method AddTodo(entry: string) returns (outcome: Outcome)
      requires Valid()
      modifies this
      ensures Valid()
      ensures Step(todos, outcome) == Add(old(todos), entry)
      ensures outcome == Changed ==> disk == Saved(todos)
      ensures outcome != Changed ==> disk == old(disk) && view == old(view)
    {
      var text := Strip(entry);
      ghost var step := Add(todos, entry);
      if text != [] {
        todos := todos + [Task(text, Some(false))];
        assert step.todos == todos;
        SaveTodos();
        RefreshTodoList();
        outcome := Changed;
      } else {
        outcome := Rejected(EmptyTodo);
      }
    }

    /** Toggling the completion of the selected task. */
    method ToggleComplete(selection: seq<string>) returns (outcome: Outcome)
      requires Valid() && Selects(selection, view)
      modifies this
      ensures Valid()
      ensures Step(todos, outcome) == Toggle(old(todos), SelectedIndex(old(todos), selection))
      ensures outcome == Changed ==> disk == Saved(todos)
      ensures outcome != Changed ==> disk == old(disk) && view == old(view)
    {
      var index := SelectedIndex(todos, selection);
      if index.Some? {
        var i := index.value;
        todos := todos[i := todos[i].(completed := Some(!IsDone(todos[i])))];
        SaveTodos();
        RefreshTodoList();
        outcome := Changed;
      } else {
        outcome := Rejected(NoSelection);
      }
    }

    /** Editing the selected task: opening the edit dialog on it and saving `newText`. */
    method EditTodo(selection: seq<string>, newText: string) returns (outcome: Outcome)
      requires Valid() && Selects(selection, view)
      modifies this
      ensures Valid()
      ensures Step(todos, outcome) == Edit(old(todos), SelectedIndex(old(todos), selection), newText)
      ensures outcome == Changed ==> disk == Saved(todos)
      ensures outcome != Changed ==> disk == old(disk) && view == old(view)
    {
      var index := SelectedIndex(todos, selection);
      if index.None? {
        return Rejected(NoSelection);
      }
      var i := index.value;
      var text := Strip(newText);
      ghost var step := Edit(todos, index, newText);
      if text != [] {
        todos := todos[i := todos[i].(text := text)];
        assert step.todos == todos;
        SaveTodos();
        RefreshTodoList();
        outcome := Changed;
      } else {
        outcome := Rejected(EmptyTodo);
      }
    }

    /** Deleting the selected task, if the user answers the confirmation with yes. */
    method DeleteTodo(selection: seq<string>, confirmed: bool) returns (outcome: Outcome)
      requires Valid() && Selects(selection, view)
      modifies this
      ensures Valid()
      ensures Step(todos, outcome) == Delete(old(todos), SelectedIndex(old(todos), selection), confirmed)
      ensures outcome == Changed ==> disk == Saved(todos)
      ensures outcome != Changed ==> disk == old(disk) && view == old(view)
    {
      var index := SelectedIndex(todos, selection);
      if index.None? {
        return Rejected(NoSelection);
      }
      if confirmed {
        var i := index.value;
        ghost var step := Delete(todos, index, confirmed);
        todos := todos[..i] + todos[i + 1..];
        assert step.todos == todos;
        SaveTodos();
        RefreshTodoList();
        outcome := Changed;
      } else {
        outcome := Cancelled;
      }
    }

    /** Closing the window saves the list once more. */
    method OnClosing()
      modifies this`disk
      ensures disk == Saved(todos)
    {
      SaveTodos();
    }
  }
}
