# To-do list task store, modelled in Dafny

`todo.py` is an interactive to-do list: a Python list of `Task` records
(title, description, category, completed flag), changed and queried by one
handler per menu entry. This project models that list and its handlers with
the console I/O taken out. Each prompt becomes a parameter. Each printed
message becomes a returned outcome: `Success`, or a `Failure` that is one of
`EmptyTitle`, `EmptyTerm`, `InvalidIndex`, `EmptyStore` and `NoCategoryMatch`.
A sixth failure, `IndexOverflow`, stands for the one error a handler does not
catch, so the program ends without saving (see `ResolvePop` below).

- `text.dfy` (module `Text`) holds the string operations the handlers use.
  `Strip` is Python's `str.strip()` over the full set of whitespace that
  `str.isspace()` accepts. `Lower` is `str.lower()` on ASCII letters.
  `Contains` is the substring test `needle in hay`.
- `seqs.dfy` (module `Seqs`) holds the list facts. `Select` pairs each element
  a test accepts with its position, as an enumerate-and-filter comprehension
  does. `Enumerates` states what such a list of rows is: exactly the accepted
  elements, each with its position, in ascending order. `EnumerationUnique` proves that this pins the rows down.
  `RemoveAt` is what `list.pop(k)` leaves behind.
- `tasks.dfy` (module `Tasks`) holds the `Task` datatype with `mark_completed`,
  and the outcome types. It has the per-task rules of `add_task` (`NewTask`) and
  `edit_task` (`Edited`). `Resolve` turns an index into a list slot the way
  `tasks[idx]` does: `-n <= idx < n`, negative indices counting from the end.
  `ResolvePop` is the same for `tasks.pop(idx)`. The difference is that `pop`
  first converts the index to a C `Py_ssize_t`, so an index outside the signed
  64-bit range raises `OverflowError` rather than `IndexError`.
- `queries.dfy` (module `Queries`) holds `search_tasks` (`SearchTasks`) and
  `list_tasks`. `ListTasks` is the handler and `Number` is its numbering loop.
  Rows are numbered by their position in the filtered view, not in the full
  list. An empty category string means no filter. Hidden completed tasks still
  use up their numbers.
- `store.dfy` (module `Store`) holds the class `TaskList`. Its field
  `tasks: seq<Task>` stands for the Python list. The methods `Add`, `Edit`,
  `MarkCompleted` and `Delete` change that field in place.
- `scenario.dfy` (module `Scenario`) walks one session through the contracts
  and proves its outcome: add, list everything, complete, list pending,
  delete with index `-1`.

An index arrives as `Option<int>`. `None` stands for text that `int()` rejects.
As in the source, an empty list is reported first, before the index is looked
at. A non-number then maps to `InvalidIndex`, the same as an index out of range.

Every method of `TaskList` also keeps an invariant: if every title had a
non-whitespace character before the call, that still holds after it. The
invariant is stated as an implication because `load_tasks` does not validate
what it reads.

## Model

| member | source | states |
|---|---|---|
| `Text.TrimStart` | todo.py:53 | the result is a suffix of the input, everything dropped is whitespace, and the result does not start with whitespace |
| `Text.TrimEnd` | todo.py:53 | the result is a prefix of the input, everything dropped is whitespace, and the result does not end with whitespace |
| `Text.Strip` | todo.py:53 | the stripped string neither starts nor ends with whitespace, and it is empty exactly when the input is all whitespace (the `if not title` test) |
| `Text.StripSlice` | todo.py:57-58 | stripping removes only whitespace at the two ends and keeps the middle slice of the input unchanged |
| `Text.StripFixed` | todo.py:72-74 | a string whose ends are not whitespace is not changed by stripping |
| `Text.StripIdempotent` | todo.py:72-74 | stripping twice gives the same result as stripping once |
| `Text.LowerChar` | todo.py:44 | an ASCII capital becomes the small letter 32 code points above it; any other character is unchanged |
| `Text.Lower` | todo.py:106 | lowering keeps the length, lowers each character, and leaves no ASCII capital |
| `Text.LowerIdempotent` | todo.py:110 | lowering twice gives the same result as lowering once |
| `Text.Contains` | todo.py:110 | `needle in hay` holds exactly when some position of `hay` starts a copy of `needle` |
| `Seqs.Select` | todo.py:110 | the enumerate-and-filter comprehension gives exactly the accepted elements, each with its original index, in ascending index order |
| `Seqs.EnumerationValues` | todo.py:44-45 | the kept elements are no more than the list has, each one is accepted and in the list, every accepted element is among them, and there are none exactly when nothing matches |
| `Seqs.EnumerationUnique` | todo.py:48-50 | two row lists that both enumerate the accepted elements of one list are equal |
| `Seqs.RemoveAt` | todo.py:100 | after `pop(k)` the list is one shorter, earlier elements stay in place, later elements move down one place, and only the popped element is gone (multiset) |
| `Tasks.Task.MarkCompleted` | todo.py:16-17 | the task is completed afterwards, and its title, description and category are unchanged |
| `Tasks.AppendKeepsTitles` | todo.py:59 | appending a task whose title is not blank keeps every title non-blank |
| `Tasks.ReplaceKeepsTitles` | todo.py:76-80 | replacing one task by one whose title is not blank keeps every title non-blank |
| `Tasks.NewTask` | todo.py:53-59 | a blank title is refused with `EmptyTitle`; otherwise the task has the stripped title, which is not blank, the stripped description, the stripped category or "General" when that is blank, and `completed = false` |
| `Tasks.Replace` | todo.py:75-80 | one field keeps its current value when the answer is blank, and otherwise becomes the stripped answer, which is not blank |
| `Tasks.Edited` | todo.py:72-80 | each of title, description and category is replaced by its stripped answer only when that answer is not blank; the completed flag is kept; a non-blank title stays non-blank |
| `Tasks.EditedAllBlank` | todo.py:72-80 | an edit with three blank answers leaves the task as it was |
| `Tasks.EditedIdempotent` | todo.py:72-80 | repeating an edit with the same answers changes nothing more |
| `Tasks.Resolve` | todo.py:63-71 | an empty list gives `EmptyStore`; otherwise an index is accepted exactly when it is a number with `-n <= idx < n`, and anything else gives `InvalidIndex`; an accepted index gives a slot below `n` equal to `idx`, or to `idx + n` for a negative index |
| `Tasks.ResolveNegative` | todo.py:89 | the index `k - n` addresses the same slot `k` as the index `k` |
| `Tasks.ResolvePop` | todo.py:98-103 | for a non-empty list, an index outside the signed 64-bit range gives `IndexOverflow` (the uncaught `OverflowError` of `pop`); every other input is resolved as subscription resolves it |
| `Tasks.PopAgreesWithSubscript` | todo.py:100 | for any list size CPython allows, `pop` accepts exactly the indices subscription accepts, addresses the same slot, and fails only with `EmptyStore`, `InvalidIndex` or `IndexOverflow` |
| `Queries.SearchTasks` | todo.py:105-110 | a blank term is refused with `EmptyTerm`; otherwise the rows are exactly the tasks whose lowered title contains the lowered stripped term, each with its index in the full list, in list order |
| `Queries.SearchRowsAddressTasks` | todo.py:114-115 | the index shown with each search row addresses the task shown: subscription (edit, complete) resolves it to itself, and so does `pop` (delete) for any list CPython can hold |
| `Queries.CategoryFilter` | todo.py:44 | the filtered view is the values of an enumeration of the tasks whose category equals the given one ignoring ASCII case: every such task, once per occurrence, in list order; it is empty exactly when no task matches |
| `Queries.CategoryFilterDetermined` | todo.py:44 | any enumeration of the matching tasks lists exactly the filtered view, so the view and its numbering are fixed |
| `Queries.CategoryFilterIgnoresCase` | todo.py:44 | two category names that are equal after lowering select the same view |
| `Queries.ListTasks` | todo.py:38-50 | an empty list gives `EmptyStore`; a non-empty filter that matches nothing gives `NoCategoryMatch`; otherwise the rows enumerate the shown tasks of the view (the category view, or the whole list for no filter or an empty one), numbered by position in that view |
| `Queries.Number` | todo.py:48-50 | the rows are exactly the tasks of the view that are shown (all, or the uncompleted ones), each numbered by its position in the view, in order |
| `Queries.ListAllRows` | todo.py:48-50 | with no filter and all tasks shown, the rows are every task paired with its own index |
| `Store.TaskList.constructor` | todo.py:129 | the store starts with the list that loading produced |
| `Store.TaskList.Add` | todo.py:52-60 | a blank title reports `EmptyTitle` and leaves the list unchanged; otherwise exactly the new task is appended at the end and the earlier tasks stay unchanged |
| `Store.TaskList.Edit` | todo.py:62-81 | an empty list or a bad index reports and leaves the list unchanged; otherwise only the addressed task changes, and it becomes its edited version |
| `Store.TaskList.MarkCompleted` | todo.py:83-92 | an empty list or a bad index reports and leaves the list unchanged; otherwise only the addressed task is marked completed, and marking a completed task leaves the list as it was |
| `Store.TaskList.Delete` | todo.py:94-103 | an empty list, a bad index or an index beyond the 64-bit range (`IndexOverflow`) reports and leaves the list unchanged; otherwise the task at the slot that `pop` addresses is returned and removed, and later tasks move down one place |

## Left out

- The menu, `main` and the `print_task` formatting (todo.py:33-36, todo.py:117-153) are console I/O. Prompts become parameters and messages become outcomes.
- `load_tasks` and `save_tasks` (todo.py:19-31) use the file system and the `json` library, so they are not modelled. The store is built from whatever list loading produced.
- Parsing the index with `int()` is not modelled. The index arrives already parsed, and `None` stands for text that `int()` rejects.
- `Text.Lower`: lowers only the ASCII letters `A`-`Z`. Python's full Unicode case mapping can change other letters and even the length of a string.
- `Text.LowerChar`: leaves every non-ASCII character unchanged. Python lowers letters such as `'É'` to `'é'` as well.
- `Store.TaskList.Delete`: `IndexOverflow` is returned as an outcome with the list unchanged. In the program that error ends `main` with a traceback, so later menu choices, and the save at todo.py:149, never happen. The model does not end the session.
- `Tasks.ResolvePop`: the `Py_ssize_t` bounds are those of a 64-bit build. A 32-bit build has the range `-2^31 <= idx < 2^31`, which is not modelled.
- In Python a `Task` is a mutable object that other references could share. Here a task is a value inside the store's sequence, because the store is the only owner of its tasks.
- The "No matching tasks found." message of `search_tasks` is not a separate outcome. It is the empty result `Ok([])`.
