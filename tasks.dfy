/**
 * The `Task` record of todo.py, the outcomes its operations report, and the
 * per-task rules: building a new task, editing one, marking it completed and
 * resolving a Python-style list index.
 */
module Tasks {
  import opened Text

  /** A to-do item, as the `Task` dataclass. */
  datatype Task = Task(title: string, description: string, category: string, completed: bool) {

    /** `Task.mark_completed`: the task with its `completed` flag set, everything else as it was. */
    function MarkCompleted(): (r: Task)
      ensures r.completed
      ensures r.title == title && r.description == description && r.category == category
    {
      this.(completed := true)
    }
  }

  /** The category a new task gets when none is given. */
  const DefaultCategory: string := "General"

  /** The outcomes an operation reports instead of succeeding. */
  datatype Failure =
    | EmptyTitle       // the title answer was blank
    | EmptyTerm        // the search term was blank
    | InvalidIndex     // the index answer is not a number, or addresses no task
    | EmptyStore       // the list holds no task at all
    | NoCategoryMatch  // no task has the requested category
    | IndexOverflow    // `pop` got an index outside the machine's signed 64-bit range:
                       // the `OverflowError` is not caught and the program ends unsaved

  /** What an operation that only changes the list reports. */
  datatype Outcome = Success | Failed(failure: Failure)

  /** What an operation that also hands back a value reports. */
  datatype Result<T> = Ok(value: T) | Err(failure: Failure)

  datatype Option<T> = None | Some(value: T)

  /** Every title has a non-whitespace character. */
  predicate TitlesNonBlank(tasks: seq<Task>) {
    forall i :: 0 <= i < |tasks| ==> !Blank(tasks[i].title)
  }

  /** Appending a task whose title is not blank keeps every title non-blank. */
  lemma AppendKeepsTitles(tasks: seq<Task>, t: Task)
    requires TitlesNonBlank(tasks) && !Blank(t.title)
    ensures TitlesNonBlank(tasks + [t])
  {
    var s := tasks + [t];
    forall i | 0 <= i < |s|
      ensures !Blank(s[i].title)
    {
      if i < |tasks| {
        assert s[i] == tasks[i];
      }
    }
  }

  /** Replacing one task by one whose title is not blank keeps every title non-blank. */
  lemma ReplaceKeepsTitles(tasks: seq<Task>, k: nat, t: Task)
    requires TitlesNonBlank(tasks) && k < |tasks| && !Blank(t.title)
    ensures TitlesNonBlank(tasks[k := t])
  {
    var s := tasks[k := t];
    forall i | 0 <= i < |s|
      ensures !Blank(s[i].title)
    {
      if i != k {
        assert s[i] == tasks[i];
      }
    }
  }

  /**
   * The task `add_task` appends for the three answers it reads: all three
   * stripped, the category defaulting to "General", not completed; a blank
   * title is refused.
   */
  function NewTask(title: string, description: string, category: string): (r: Result<Task>)
    ensures r.Err? <==> Blank(title)
    ensures r.Err? ==> r.failure == EmptyTitle
    ensures r.Ok? ==> r.value.title == Strip(title) && !Blank(r.value.title)
    ensures r.Ok? ==> r.value.description == Strip(description)
    ensures r.Ok? ==> r.value.category == (if Blank(category) then DefaultCategory else Strip(category))
    ensures r.Ok? ==> !r.value.completed
  {
    var t := Strip(title);
    if t == "" then Err(EmptyTitle)
    else
      var c := Strip(category);
      Ok(Task(t, Strip(description), if c == "" then DefaultCategory else c, false))
  }

  /** The new value of one field in `edit_task`: the stripped input, or the current value when that is blank. */
  function Replace(current: string, input: string): (r: string)
    ensures Blank(input) ==> r == current
    ensures !Blank(input) ==> r == Strip(input) && !Blank(r)
  {
    var s := Strip(input);
    StripIdempotent(input);
    if s == "" then current else s
  }

  /**
   * The task `edit_task` leaves behind: each field replaced by its stripped
   * input when that is not blank, and the completion flag untouched.
   */
  function Edited(t: Task, newTitle: string, newDescription: string, newCategory: string): (r: Task)
    ensures r.title == (if Blank(newTitle) then t.title else Strip(newTitle))
    ensures r.description == (if Blank(newDescription) then t.description else Strip(newDescription))
    ensures r.category == (if Blank(newCategory) then t.category else Strip(newCategory))
    ensures r.completed == t.completed
    ensures !Blank(t.title) ==> !Blank(r.title)
  {
    Task(Replace(t.title, newTitle), Replace(t.description, newDescription), Replace(t.category, newCategory), t.completed)
  }

  /** Editing with all three answers blank changes nothing. */
  lemma EditedAllBlank(t: Task, newTitle: string, newDescription: string, newCategory: string)
    requires Blank(newTitle) && Blank(newDescription) && Blank(newCategory)
    ensures Edited(t, newTitle, newDescription, newCategory) == t
  {
  }

  /** Repeating an edit with the same answers changes nothing more. */
  lemma EditedIdempotent(t: Task, newTitle: string, newDescription: string, newCategory: string)
    ensures var e := Edited(t, newTitle, newDescription, newCategory);
            Edited(e, newTitle, newDescription, newCategory) == e
  {
  }

  /**
   * The list slot that Python's subscription `tasks[index]` addresses in a
   * list of `n` tasks, checked in the order the handlers check: an empty list
   * first, then a non-number (`None`, the `ValueError` of `int()`), then the
   * range `-n <= index < n`, negative indices counting from the end. Any index
   * outside that range, however large, is an `IndexError`.
   */
  function Resolve(n: nat, index: Option<int>): (r: Result<nat>)
    ensures n == 0 ==> r == Err(EmptyStore)
    ensures n > 0 ==> (r.Ok? <==> index.Some? && -(n as int) <= index.value < n)
    ensures n > 0 && r.Err? ==> r.failure == InvalidIndex
    ensures r.Ok? ==> r.value < n && (r.value == index.value || r.value == index.value + n)
  {
    if n == 0 then Err(EmptyStore)
    else
      match index
      case None => Err(InvalidIndex)
      case Some(i) =>
        if i < -(n as int) || n <= i then Err(InvalidIndex)
        else if i < 0 then Ok(i + n)
        else Ok(i)
  }

  /** An index counted from the end addresses the same slot as the one counted from the start. */
  lemma ResolveNegative(n: nat, k: nat)
    requires k < n
    ensures Resolve(n, Some(k)) == Ok(k)
    ensures Resolve(n, Some(k - n)) == Ok(k)
  {
  }

  /** The smallest and largest values of a C `Py_ssize_t` on a 64-bit machine. */
  const SsizeMin: int := -0x8000_0000_0000_0000
  const SsizeMax: int := 0x7FFF_FFFF_FFFF_FFFF

  /**
   * The list slot that `tasks.pop(index)` addresses. Unlike subscription,
   * `pop` first converts its argument to a `Py_ssize_t`; an index outside
   * that range raises `OverflowError`, which `delete_task` does not catch.
   */
  function ResolvePop(n: nat, index: Option<int>): (r: Result<nat>)
    ensures n > 0 && index.Some? && !(SsizeMin <= index.value <= SsizeMax) ==> r == Err(IndexOverflow)
    ensures n == 0 || index.None? || SsizeMin <= index.value <= SsizeMax ==> r == Resolve(n, index)
  {
    if n > 0 && index.Some? && !(SsizeMin <= index.value <= SsizeMax) then Err(IndexOverflow)
    else Resolve(n, index)
  }

  /**
   * For any list CPython can hold (at most `SsizeMax` elements), `pop` and
   * subscription accept exactly the same indices and address the same slot;
   * they differ only in the failure they report for a huge index.
   */
  lemma PopAgreesWithSubscript(n: nat, index: Option<int>)
    requires n <= SsizeMax
    ensures ResolvePop(n, index).Ok? <==> Resolve(n, index).Ok?
    ensures ResolvePop(n, index).Ok? ==> ResolvePop(n, index) == Resolve(n, index)
    ensures ResolvePop(n, index).Err? ==> ResolvePop(n, index).failure in {EmptyStore, InvalidIndex, IndexOverflow}
  {
  }
}
