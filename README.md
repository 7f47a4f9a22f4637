# Todo App task store, modelled in Dafny

The to-do application keeps an ordered list of task records. Each record holds
a `text` string and an optional `completed` flag. The user works on the list
through a window: an entry box adds a task, and buttons toggle, edit or delete
the task selected in the list view. Every change is written to a JSON file at
once. At start-up the list is read back from that file, and a file that is
missing or unreadable gives an empty list.

The model has four modules:

- `Wrappers`: the `Option` type. It stands for "nothing selected" and for a
  record's missing `completed` key.
- `Text`: Python's `str.strip()` over the exact set of characters that
  `str.isspace()` accepts, plus `str(i)` and `int(s)` for the decimal row ids.
  The main facts proved are that strip removes exactly the surrounding
  whitespace, that it is idempotent, and that `int(str(i)) == i`.
- `Tasks`: the model on plain values.
  - The task record, and the rows the list view shows for a list.
  - How a selection becomes a list position.
  - How the stored file becomes a list.
  - Each user action as a function from the old list to the new list plus an
    `Outcome`: changed, rejected with one of the two warnings, or cancelled at
    the confirmation prompt.
  - Lemmas about these functions.
- `App`: the class `TodoApp`. Its fields are the task list, the rows the view
  shows, and the file contents. Its methods change the list in place as the
  handlers do (append, item assignment, `del`), save, and redraw the view with a
  loop. Each method is proved against the matching function in `Tasks`.
  - The class invariant `Valid()` says the view shows the current list.
  - Because the toolkit's selection only ever names rows of the view, this
    invariant is what keeps every selected position in range.

The parts outside the model become parameters:

- Text typed into the entry box or the edit dialog is a `string` parameter.
- The view's selection is the sequence of selected row ids.
- The answer to the delete confirmation is a `bool`.
- A warning dialog is a returned `Rejected(warning)` outcome.
- The file is a `StoredFile`: `Missing`, `Unreadable`, or `Json(tasks)`.

Three points where the code is looser than a tidy task store would be. The model follows the code in each:

- Loaded records are not normalised. A record without `completed` keeps the key
  missing until it is toggled. Editing keeps the key missing. It reads as
  "not done" everywhere (`IsDone`).
- Loaded records are not checked for non-empty text. `Clean` is therefore a
  property that adding, editing, toggling and deleting preserve, not an
  invariant of every list.
- There is no out-of-range rejection. A position always comes from a row id
  that the view shows, so it is always in range (`SelectedIndex`).

## Model

| member | source | states |
|---|---|---|
| `Text.Strip` | app.py:181 | the stripped text is no longer than the input and has no whitespace at either end |
| `Text.StripSpec` | app.py:181-182 | the stripped text is the input with only whitespace cut from its two ends, and it is empty exactly when the input is all whitespace (the `if todo_text:` test) |
| `Text.StripOfStripped` | app.py:231 | text without whitespace at its ends strips to itself |
| `Text.StripIdempotent` | app.py:181 | stripping twice gives the same text as stripping once |
| `Text.SkipSpace` | app.py:181 | the forward scan stops at the first non-whitespace character, and everything it passes is whitespace |
| `Text.SkipSpaceBack` | app.py:181 | the backward scan stops after the last non-whitespace character, and everything it passes is whitespace |
| `Text.Str` | app.py:177 | `str(i)` is a non-empty string of decimal digits with no leading zero unless it is `"0"` |
| `Text.Int` | app.py:196 | `int(s)` on a non-empty string of ASCII digits, the only input a row id can be: the value is below `10^|s|`, and at least `10^(|s|-1)` when the first digit is not zero |
| `Text.IntOfStr` | app.py:196 | `int(str(i)) == i`: a row id reads back as the position it was made from |
| `Text.StrOfInt` | app.py:196 | `str(int(s)) == s` for a digit string without a superfluous leading zero, so `str` and `int` are inverse on row ids |
| `Text.StrInjective` | app.py:177 | two positions get the same row id exactly when they are equal |
| `Tasks.IsDone` | app.py:176 | `todo.get("completed", False)`: a task is done exactly when its `completed` key is present and true |
| `Tasks.Warning.Message` | app.py:188 | the empty-text warning reads "Todo cannot be empty!" (also app.py:238), the selection warning "Please select a todo first!" (app.py:194), and the two differ |
| `Tasks.RowOf` | app.py:176-177 | the row inserted for position `i` has id `str(i)`, the task's text and an empty Actions value; its status is the check mark exactly when the task is done, the open circle otherwise |
| `Tasks.Rows` | app.py:175-177 | one row per task, in list order; row `i` has id `str(i)`, the task's text and an empty Actions column; its status is one of the two marks, and it is the check mark exactly when `completed` is present and true |
| `Tasks.RowIdsDistinct` | app.py:175-177 | no two rows of the view share an item id |
| `Tasks.SelectedIndex` | app.py:190-196 | no position exactly when nothing is selected; otherwise the position is below the list length and is the one whose row is the first selected row |
| `Tasks.Saved` | app.py:163-166 | the file after `json.dump` holds exactly the list's records, in order, each with the keys it has (the model's abstraction of JSON encoding) |
| `Tasks.LoadTodos` | app.py:153-161 | a missing or unreadable file gives the empty list; a readable one gives its tasks in file order |
| `Tasks.LoadSaved` | app.py:158-166 | reading a saved list back gives the same tasks in the same order; this holds by the definition of `Saved`, not by a proof about JSON |
| `Tasks.Add` | app.py:179-188 | whitespace-only entry text is the only thing rejected, with the empty-todo warning, and leaves the list unchanged; otherwise the list grows by one, the earlier tasks are unchanged, and the new last task is the stripped text, not completed |
| `Tasks.Toggle` | app.py:198-202 | with no selection the list is unchanged and the selection warning is given; otherwise `completed` at the position becomes the negation of its old value (missing counts as false), and the text there and every other task stay the same |
| `Tasks.Edit` | app.py:206-238 | with no selection the list is unchanged and the selection warning is given; with whitespace-only text the list is unchanged and the empty-todo warning is given; otherwise only the text at the position changes, to the stripped text, and its `completed` value and all other tasks are kept |
| `Tasks.Delete` | app.py:264-270 | with no selection the list is unchanged and the selection warning is given; without confirmation the list is unchanged; a confirmed delete at `i` removes one task, keeps the tasks before `i`, and moves each later task down by one position |
| `Tasks.NoSelectionChangesNothing` | app.py:192-195 | an empty selection gives no position, and toggle, edit and delete then change nothing and give the selection warning |
| `Tasks.ToggleTwice` | app.py:202 | toggling the same task twice restores its completion as read with missing meaning false; the whole list comes back exactly when the task's `completed` key was present |
| `Tasks.DeleteThenToggle` | app.py:270 | after a confirmed delete at `i`, a toggle at `i` acts on the task that used to follow the deleted one |
| `Tasks.CleanTextsAreStripped` | app.py:181-183 | in a list where every text is non-empty with no surrounding whitespace, stripping any task's text changes nothing |
| `Tasks.AddKeepsClean` | app.py:181-183 | adding keeps every text non-empty with no surrounding whitespace |
| `Tasks.EditKeepsClean` | app.py:231-233 | editing keeps every text non-empty with no surrounding whitespace |
| `Tasks.ToggleKeepsClean` | app.py:202 | toggling keeps every text non-empty with no surrounding whitespace |
| `Tasks.DeleteKeepsClean` | app.py:270 | deleting keeps every text non-empty with no surrounding whitespace |
| `Tasks.AddClean` | app.py:181-183 | adding text that is already stripped and non-empty appends exactly that text as an incomplete task |
| `Tasks.EditClean` | app.py:231-233 | editing with text that is already stripped and non-empty stores exactly that text |
| `Tasks.Session` | app.py:179-270 | starting empty, add two texts, toggle position 0, edit position 1, then delete position 0: what is left is the edited second task, not completed |
| `Tasks.SessionExample` | app.py:179-270 | with "Buy milk", "Walk dog" and "Walk the dog", each step of the session gives the stated list, and the last leaves only `Walk the dog`, not completed |
| `Tasks.SessionTexts` | app.py:181 | "Buy milk", "Walk dog" and "Walk the dog" have no whitespace at their ends, so they meet the requirements of `Session` |
| `App.TodoApp.constructor` | app.py:10-23 | the list is what loading the file gives, the file is untouched, and the view shows the list |
| `App.TodoApp.SaveTodos` | app.py:163-166 | the file afterwards holds the list, and reading it back gives the list |
| `App.TodoApp.RefreshTodoList` | app.py:168-177 | clearing the view and then inserting one row per task in a loop leaves the view equal to `Rows` of the list |
| `App.TodoApp.AddTodo` | app.py:179-188 | the new list and outcome are those of `Add`; the file is saved on a change; after a rejection the file and view are untouched; the view always shows the list |
| `App.TodoApp.ToggleComplete` | app.py:198-204 | the new list and outcome are those of `Toggle` at the selected position; the file is saved on a change and untouched otherwise |
| `App.TodoApp.EditTodo` | app.py:206-238 | the new list and outcome are those of `Edit` at the selected position; the file is saved on a change and untouched otherwise |
| `App.TodoApp.DeleteTodo` | app.py:264-272 | the new list and outcome are those of `Delete` at the selected position with the user's answer; the file is saved on a change and untouched otherwise |
| `App.TodoApp.OnClosing` | app.py:274-277 | closing the window leaves the current list in the file |

## Left out

- Widget construction, styling, scrollbars and column setup (app.py:28-151). This is presentation over a toolkit the model cannot see. What is kept is the content the list view shows.
- The edit dialog's layout, modality, focus and centering arithmetic (app.py:211-228, 240-262). The model takes one save attempt with the typed text. Closing the dialog without saving is the same as making no call. A retry after the empty-text warning is a second call.
- The initial contents of the edit dialog's entry box (app.py:226-227), and clearing the main entry box after a successful add (app.py:186). Both are widget text, not store state.
- `messagebox` dialogs. A warning is the returned `Rejected` outcome, and `Warning.Message` holds its text. The delete confirmation is the `confirmed` parameter.
- JSON encoding and decoding and the file system calls (app.py:155-166). The file is abstracted as `StoredFile`, and saving stores the list itself. An I/O error during a save, which the code lets propagate, is not modelled.
- File contents that parse as JSON but are not a list of records with a `text` key. The code does not check this and would fail later at app.py:177. The model assumes well-shaped records.
- Record shapes the code accepts but `Task` cannot hold: records with extra keys, which the code carries through every save because toggling and editing update the record in place (app.py:202, 233, 166); a `completed` value that is not a bool, such as `null` or `0`, which the code reads by truthiness (app.py:176, 202); and a `text` value that is not a string.
- Text.Int: models `int()` only on non-empty runs of ASCII digits. Python's `int` also accepts a sign, surrounding whitespace, underscores and other Unicode digits, but a selected row id is always `str(i)` of a position.
- The event loop and program entry (app.py:279-282). Event ordering is left out; every handler runs to completion in turn.
- `App.TodoApp.constructor` states the state after start-up, with the view already drawn. The calls to `refresh_todo_list` and the close-handler registration come from widget construction (app.py:147-151), which is left out.
