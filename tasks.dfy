/**
 * The task store of the to-do application as values: the task record, what the
 * list view shows for a list of tasks, how a stored file becomes a task list,
 * and the effect of each user action on the list (adding, toggling, editing and
 * deleting a task), together with what the application reports back.
 */
module Tasks {
  import opened Wrappers
  import opened Text

  /** A task record `{"text": ..., "completed": ...}`; the `completed` key may be absent
      in a record read back from the file. */
  datatype Task = Task(text: string, completed: Option<bool>)

  /** `todo.get("completed", False)`: a task is done exactly when its `completed` key
      is present and true. */
  function IsDone(t: Task): (r: bool)
    ensures r <==> t.completed == Some(true)
  {
    t.completed.GetOr(false)
  }

  /** The two warnings the application shows. */
  datatype Warning = EmptyTodo | NoSelection {
    /** The text of the warning dialog; the two warnings read differently. */
    function Message(): (r: string)
      ensures this == EmptyTodo ==> r == "Todo cannot be empty!"
      ensures this == NoSelection ==> r == "Please select a todo first!"
      ensures r == "Todo cannot be empty!" <==> this == EmptyTodo
    {
      match this
      case EmptyTodo => "Todo cannot be empty!"
      case NoSelection => "Please select a todo first!"
    }
  }

  /** What a user action leads to: the list changed (and was saved), a warning was
      shown and nothing changed, or the user declined the delete confirmation. */
  datatype Outcome = Changed | Rejected(warning: Warning) | Cancelled

  /** The task list after an action, and the action's outcome. */
  datatype Step = Step(todos: seq<Task>, outcome: Outcome)

  // ---------------------------------------------------------------- the list view

  const Checked: string := "\U{2713}"
  const Unchecked: string := "\U{25CB}"

  /** One row of the list view: its item id and the values of the Status, Task and
      Actions columns. */
  datatype Row = Row(iid: string, status: string, task: string, actions: string)

  /** The row inserted for the task at position `i`: the check mark exactly when the
      task is done, the open circle otherwise. */
  function RowOf(i: nat, t: Task): (r: Row)
    ensures r.iid == Str(i) && r.task == t.text && r.actions == ""
    ensures r.status == Checked || r.status == Unchecked
    ensures r.status == Checked <==> IsDone(t)
  {
    assert Checked != Unchecked by {
      assert Checked[0] != Unchecked[0];
    }
    Row(Str(i), if IsDone(t) then Checked else Unchecked, t.text, "")
  }

  /** The rows the list view shows for `todos`: one per task, in list order, the row
      for position `i` having id `str(i)`, the task's text, and a check mark exactly
      when the task's `completed` value is present and true. */
  function Rows(todos: seq<Task>): (r: seq<Row>)
    ensures |r| == |todos|
    ensures forall i :: 0 <= i < |todos| ==>
      && r[i].iid == Str(i)
      && r[i].task == todos[i].text
      && (r[i].status == Checked || r[i].status == Unchecked)
      && (r[i].status == Checked <==> todos[i].completed == Some(true))
      && r[i].actions == ""
  {
    seq(|todos|, i requires 0 <= i < |todos| => RowOf(i, todos[i]))
  }

  /** No two rows of the view share an item id. */
  lemma RowIdsDistinct(todos: seq<Task>, i: nat, j: nat)
    requires i < |todos| && j < |todos| && i != j
    ensures Rows(todos)[i].iid != Rows(todos)[j].iid
  {
    StrInjective(i, j);
  }

  // ---------------------------------------------------------------- selection

  /** Every selected item id is the id of a row of `rows` (what the list view
      guarantees of its selection). */
  ghost predicate Selects(selection: seq<string>, rows: seq<Row>) {
    forall k :: 0 <= k < |selection| ==> exists i :: 0 <= i < |rows| && rows[i].iid == selection[k]
  }

  predicate InRange(index: Option<nat>, n: nat) {
    index.Some? ==> index.value < n
  }

  /** The position of the selected task: none when nothing is selected, otherwise
      `int(selection[0])`, which is the position of the first selected row. */
  function SelectedIndex(todos: seq<Task>, selection: seq<string>): (r: Option<nat>)
    requires Selects(selection, Rows(todos))
    ensures r.None? <==> selection == []
    ensures r.Some? ==> r.value < |todos| && Rows(todos)[r.value].iid == selection[0]
  {
    if selection == [] then
      None
    else
      assert IsDecimal(selection[0]) && Int(selection[0]) < |todos| && Str(Int(selection[0])) == selection[0] by {
        var i :| 0 <= i < |Rows(todos)| && Rows(todos)[i].iid == selection[0];
        IntOfStr(i);
      }
      Some(Int(selection[0]))
  }

  // ---------------------------------------------------------------- the stored file

  /** The state of the storage file: absent, present but not readable as JSON, or
      holding a JSON array of task records. */
  datatype StoredFile = Missing | Unreadable | Json(tasks: seq<Task>)

  /** What writing `todos` to the file leaves there: a JSON array of exactly these
      records, in order, each with the keys it has. JSON encoding is not modelled, so
      this is where the model takes `json.load` to invert `json.dump`. */
  function Saved(todos: seq<Task>): (r: StoredFile)
    ensures r.Json? && r.tasks == todos
  {
    Json(todos)
  }

  /** Reading the task list at start-up; a missing or unreadable file gives an empty list. */
  function LoadTodos(file: StoredFile): (r: seq<Task>)
    ensures file.Json? ==> r == file.tasks
    ensures !file.Json? ==> r == []
  {
    match file
    case Json(tasks) => tasks
    case _ => []
  }

  /** Reading back a saved list gives the same tasks in the same order. This holds by
      the definition of `Saved`; it is not a proof about JSON encoding. */
  lemma LoadSaved(todos: seq<Task>)
    ensures LoadTodos(Saved(todos)) == todos
  {
  }

  // ---------------------------------------------------------------- user actions

  /** Adding the entry text: the stripped text is appended as an incomplete task,
      unless it is empty, in which case nothing changes and the user is warned. */
  function Add(todos: seq<Task>, entry: string): (r: Step)
    ensures r.outcome == Changed || r.outcome == Rejected(EmptyTodo)
    ensures r.outcome == Rejected(EmptyTodo) <==> Strip(entry) == []
    ensures r.outcome != Changed ==> r.todos == todos
    ensures r.outcome == Changed ==>
      && |r.todos| == |todos| + 1
      && r.todos[..|todos|] == todos
      && r.todos[|todos|] == Task(Strip(entry), Some(false))
  {
    var text := Strip(entry);
    if text != [] then Step(todos + [Task(text, Some(false))], Changed) else Step(todos, Rejected(EmptyTodo))
  }

  /** Toggling the selected task inverts its completion (a missing value counts as
      false) and leaves its text and every other task alone. */
  function Toggle(todos: seq<Task>, index: Option<nat>): (r: Step)
    requires InRange(index, |todos|)
    ensures index.None? ==> r == Step(todos, Rejected(NoSelection))
    ensures index.Some? ==>
      && r.outcome == Changed
      && |r.todos| == |todos|
      && r.todos[index.value].text == todos[index.value].text
      && r.todos[index.value].completed == Some(!IsDone(todos[index.value]))
      && forall j :: 0 <= j < |todos| && j != index.value ==> r.todos[j] == todos[j]
  {
    match index
    case None => Step(todos, Rejected(NoSelection))
    case Some(i) => Step(todos[i := todos[i].(completed := Some(!IsDone(todos[i])))], Changed)
  }

  /** Saving an edit of the selected task: its text becomes the stripped new text,
      unless that is empty; its completion and every other task stay as they were. */
  function Edit(todos: seq<Task>, index: Option<nat>, newText: string): (r: Step)
    requires InRange(index, |todos|)
    ensures index.None? ==> r == Step(todos, Rejected(NoSelection))
    ensures index.Some? && Strip(newText) == [] ==> r == Step(todos, Rejected(EmptyTodo))
    ensures index.Some? && Strip(newText) != [] ==>
      && r.outcome == Changed
      && |r.todos| == |todos|
      && r.todos[index.value] == Task(Strip(newText), todos[index.value].completed)
      && forall j :: 0 <= j < |todos| && j != index.value ==> r.todos[j] == todos[j]
  {
    match index
    case None => Step(todos, Rejected(NoSelection))
    case Some(i) =>
      var text := Strip(newText);
      if text != [] then Step(todos[i := todos[i].(text := text)], Changed) else Step(todos, Rejected(EmptyTodo))
  }

  /** Deleting the selected task once the user confirms: the tasks after it move
      down one position; without confirmation nothing changes. */
  function Delete(todos: seq<Task>, index: Option<nat>, confirmed: bool): (r: Step)
    requires InRange(index, |todos|)
    ensures index.None? ==> r == Step(todos, Rejected(NoSelection))
    ensures index.Some? && !confirmed ==> r == Step(todos, Cancelled)
    ensures index.Some? && confirmed ==>
      && r.outcome == Changed
      && |r.todos| == |todos| - 1
      && (forall j :: 0 <= j < index.value ==> r.todos[j] == todos[j])
      && (forall j :: index.value <= j < |r.todos| ==> r.todos[j] == todos[j + 1])
  {
    match index
    case None => Step(todos, Rejected(NoSelection))
    case Some(i) => if confirmed then Step(todos[..i] + todos[i + 1..], Changed) else Step(todos, Cancelled)
  }

  // ---------------------------------------------------------------- properties

  /** With nothing selected no position is produced, and toggling, editing and
      deleting leave the list as it was and warn the user. */
  lemma NoSelectionChangesNothing(todos: seq<Task>, newText: string, confirmed: bool)
    ensures Selects([], Rows(todos)) && SelectedIndex(todos, []) == None
    ensures Toggle(todos, None) == Step(todos, Rejected(NoSelection))
    ensures Edit(todos, None, newText) == Step(todos, Rejected(NoSelection))
    ensures Delete(todos, None, confirmed) == Step(todos, Rejected(NoSelection))
  {
  }

  /** Toggling the same task twice restores its completion value (a missing value
      reads as false), and restores the whole list exactly when the value was present. */
  lemma ToggleTwice(todos: seq<Task>, i: nat)
    requires i < |todos|
    ensures var twice := Toggle(Toggle(todos, Some(i)).todos, Some(i)).todos;
      && IsDone(twice[i]) == IsDone(todos[i])
      && (twice == todos <==> todos[i].completed.Some?)
  {
    var twice := Toggle(Toggle(todos, Some(i)).todos, Some(i)).todos;
    if todos[i].completed.Some? {
      assert twice[i] == todos[i];
      assert twice == todos;
    } else {
      assert twice[i] != todos[i];
    }
  }

  /** After a confirmed delete at `i`, the task now at `i` is the one that followed the
      deleted one, so a toggle at `i` acts on it. */
  lemma DeleteThenToggle(todos: seq<Task>, i: nat)
    requires i + 1 < |todos|
    ensures var after := Delete(todos, Some(i), true).todos;
      && InRange(Some(i), |after|)
      && Toggle(after, Some(i)).todos[i] == todos[i + 1].(completed := Some(!IsDone(todos[i + 1])))
  {
  }

  /** Every task has non-empty text without surrounding whitespace: what adding and
      editing store. */
  ghost predicate Clean(todos: seq<Task>) {
    forall i :: 0 <= i < |todos| ==> todos[i].text != [] && IsStripped(todos[i].text)
  }

  /** In a clean list, stripping any task's text changes nothing. */
  lemma CleanTextsAreStripped(todos: seq<Task>, i: nat)
    requires Clean(todos) && i < |todos|
    ensures todos[i].text != [] && Strip(todos[i].text) == todos[i].text
  {
    StripOfStripped(todos[i].text);
  }

  lemma AddKeepsClean(todos: seq<Task>, entry: string)
    requires Clean(todos)
    ensures Clean(Add(todos, entry).todos)
  {
    var after := Add(todos, entry).todos;
    if after != todos {
      forall i | 0 <= i < |after| ensures after[i].text != [] && IsStripped(after[i].text) {
        if i < |todos| {
          assert after[i] == after[..|todos|][i];
        }
      }
    }
  }

  lemma EditKeepsClean(todos: seq<Task>, index: Option<nat>, newText: string)
    requires Clean(todos) && InRange(index, |todos|)
    ensures Clean(Edit(todos, index, newText).todos)
  {
  }

  lemma ToggleKeepsClean(todos: seq<Task>, index: Option<nat>)
    requires Clean(todos) && InRange(index, |todos|)
    ensures Clean(Toggle(todos, index).todos)
  {
  }

  lemma DeleteKeepsClean(todos: seq<Task>, index: Option<nat>, confirmed: bool)
    requires Clean(todos) && InRange(index, |todos|)
    ensures Clean(Delete(todos, index, confirmed).todos)
  {
  }

  /** Adding a text that is already stripped and non-empty appends it unchanged. */
  lemma AddClean(todos: seq<Task>, text: string)
    requires text != [] && IsStripped(text)
    ensures Add(todos, text) == Step(todos + [Task(text, Some(false))], Changed)
  {
    StripOfStripped(text);
  }

  /** Editing with a text that is already stripped and non-empty stores it unchanged. */
  lemma EditClean(todos: seq<Task>, i: nat, text: string)
    requires i < |todos| && text != [] && IsStripped(text)
    ensures Edit(todos, Some(i), text) == Step(todos[i := todos[i].(text := text)], Changed)
  {
    StripOfStripped(text);
  }

  /** A session from an empty list: add `first` and `second`, toggle the first task,
      rename the second to `renamed`, delete the first. The renamed second task is
      left, still incomplete. */
  lemma Session(first: string, second: string, renamed: string)
    requires first != [] && IsStripped(first)
    requires second != [] && IsStripped(second)
    requires renamed != [] && IsStripped(renamed)
    ensures var s1 := Add([], first).todos;
            var s2 := Add(s1, second).todos;
            var s3 := Toggle(s2, Some(0)).todos;
            var s4 := Edit(s3, Some(1), renamed).todos;
            Delete(s4, Some(0), true).todos == [Task(renamed, Some(false))]
  {
    AddClean([], first);
    var s1 := [Task(first, Some(false))];
    AddClean(s1, second);
    var s2 := s1 + [Task(second, Some(false))];
    var s3 := Toggle(s2, Some(0)).todos;
    assert s3 == [Task(first, Some(true)), Task(second, Some(false))];
    EditClean(s3, 1, renamed);
  }

  /** The session with "Buy milk", "Walk dog" and "Walk the dog", step by step: only
      the renamed task is left, not completed. */
  lemma SessionExample()
    ensures Add([], "Buy milk") == Step([Task("Buy milk", Some(false))], Changed)
    ensures Add([Task("Buy milk", Some(false))], "Walk dog")
         == Step([Task("Buy milk", Some(false)), Task("Walk dog", Some(false))], Changed)
    ensures Toggle([Task("Buy milk", Some(false)), Task("Walk dog", Some(false))], Some(0))
         == Step([Task("Buy milk", Some(true)), Task("Walk dog", Some(false))], Changed)
    ensures Edit([Task("Buy milk", Some(true)), Task("Walk dog", Some(false))], Some(1), "Walk the dog")
         == Step([Task("Buy milk", Some(true)), Task("Walk the dog", Some(false))], Changed)
    ensures Delete([Task("Buy milk", Some(true)), Task("Walk the dog", Some(false))], Some(0), true)
         == Step([Task("Walk the dog", Some(false))], Changed)
  {
    SessionTexts();
    AddClean([], "Buy milk");
    AddClean([Task("Buy milk", Some(false))], "Walk dog");
    EditClean([Task("Buy milk", Some(true)), Task("Walk dog", Some(false))], 1, "Walk the dog");
  }

  /** The session's texts are their own stripped forms. */
  lemma SessionTexts()
    ensures IsStripped("Buy milk") && IsStripped("Walk dog") && IsStripped("Walk the dog")
  {
  }
}
