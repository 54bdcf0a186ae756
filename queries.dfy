/**
 * The read-only operations of todo.py over the task list: `search_tasks` and
 * the filtering and numbering of `list_tasks`. Printing is replaced by
 * returning the rows that would be printed, each as (shown index, task).
 */
module Queries {
  import opened Text
  import opened Seqs
  import opened Tasks

  /** `search_tasks` keeps a task when the lowered, stripped term occurs in its lowered title. */
  predicate TitleMatches(t: Task, needle: string) {
    Contains(Lower(t.title), needle)
  }

  /**
   * `search_tasks`: a blank term is refused; otherwise the rows are exactly the
   * tasks whose title contains the term ignoring ASCII case, each with its
   * index in the full list, in list order.
   */
  function SearchTasks(tasks: seq<Task>, term: string): (r: Result<seq<(nat, Task)>>)
    ensures r.Err? <==> Blank(term)
    ensures r.Err? ==> r.failure == EmptyTerm
    ensures r.Ok? ==> Enumerates(r.value, tasks, t => TitleMatches(t, Lower(Strip(term))))
  {
    var needle := Lower(Strip(term));
    if needle == "" then Err(EmptyTerm)
    else Ok(Select(tasks, t => TitleMatches(t, needle)))
  }

  /**
   * Every row of a search addresses the very task it shows: through `Resolve`
   * for edit and complete, and, for any list CPython can hold, through
   * `ResolvePop` for delete.
   */
  lemma SearchRowsAddressTasks(tasks: seq<Task>, term: string)
    requires !Blank(term)
    ensures var rows := SearchTasks(tasks, term).value;
            forall j :: 0 <= j < |rows| ==> Resolve(|tasks|, Some(rows[j].0)) == Ok(rows[j].0) && tasks[rows[j].0] == rows[j].1
    ensures var rows := SearchTasks(tasks, term).value;
            |tasks| <= SsizeMax ==> forall j :: 0 <= j < |rows| ==> ResolvePop(|tasks|, Some(rows[j].0)) == Ok(rows[j].0)
  {
    var rows := SearchTasks(tasks, term).value;
    if |tasks| <= SsizeMax {
      forall j | 0 <= j < |rows|
        ensures ResolvePop(|tasks|, Some(rows[j].0)) == Ok(rows[j].0)
      {
        PopAgreesWithSubscript(|tasks|, Some(rows[j].0));
      }
    }
  }

  /** The category comparison of `list_tasks`: equal once both sides are lowered. */
  predicate InCategory(t: Task, category: string) {
    Lower(t.category) == Lower(category)
  }

  /** `list_tasks` filters only when `only_category` is given and is not the empty string. */
  predicate Filtering(onlyCategory: Option<string>) {
    onlyCategory.Some? && onlyCategory.value != ""
  }

  /**
   * The category view of `list_tasks`: every task of the list whose category
   * equals `category` up to ASCII case, each once, in list order.
   */
  function CategoryFilter(tasks: seq<Task>, category: string): (view: seq<Task>)
    ensures exists rows :: Enumerates(rows, tasks, t => InCategory(t, category)) && view == Values(rows)
    ensures |view| <= |tasks|
    ensures forall j :: 0 <= j < |view| ==> view[j] in tasks && InCategory(view[j], category)
    ensures forall i :: 0 <= i < |tasks| && InCategory(tasks[i], category) ==> tasks[i] in view
    ensures view == [] <==> forall i :: 0 <= i < |tasks| ==> !InCategory(tasks[i], category)
  {
    var rows := Select(tasks, t => InCategory(t, category));
    EnumerationValues(rows, tasks, t => InCategory(t, category));
    Values(rows)
  }

  /** The view is determined: any enumeration of the matching tasks lists exactly the view, in order. */
  lemma CategoryFilterDetermined(tasks: seq<Task>, category: string, rows: seq<(nat, Task)>)
    requires Enumerates(rows, tasks, t => InCategory(t, category))
    ensures CategoryFilter(tasks, category) == Values(rows)
  {
    var keep := t => InCategory(t, category);
    EnumerationUnique(rows, Select(tasks, keep), tasks, keep);
  }

  /** Two category names equal up to ASCII case select the same tasks. */
  lemma CategoryFilterIgnoresCase(tasks: seq<Task>, c1: string, c2: string)
    requires Lower(c1) == Lower(c2)
    ensures CategoryFilter(tasks, c1) == CategoryFilter(tasks, c2)
  {
    var k1, k2 := t => InCategory(t, c1), t => InCategory(t, c2);
    var rows := Select(tasks, k1);
    assert Enumerates(rows, tasks, k2) by {
      forall i | Accepted(tasks, k2, i)
        ensures exists j :: 0 <= j < |rows| && rows[j].0 == i
      {
        assert Accepted(tasks, k1, i);
      }
    }
    EnumerationUnique(rows, Select(tasks, k2), tasks, k2);
  }

  /** A listed view hides a task only when completed tasks are hidden and it is completed. */
  predicate Shown(t: Task, showAll: bool) {
    showAll || !t.completed
  }

  /** The list `list_tasks` numbers: the category view when filtering, the whole list otherwise. */
  function View(tasks: seq<Task>, onlyCategory: Option<string>): seq<Task> {
    if Filtering(onlyCategory) then CategoryFilter(tasks, onlyCategory.value) else tasks
  }

  /**
   * `list_tasks`: an empty list is reported as such; a category that matches
   * nothing is reported distinctly; otherwise the rows are the tasks of the
   * view that are shown, each numbered by its position in the view.
   */
  method ListTasks(tasks: seq<Task>, onlyCategory: Option<string>, showAll: bool) returns (r: Result<seq<(nat, Task)>>)
    ensures r == Err(EmptyStore) <==> tasks == []
    ensures r == Err(NoCategoryMatch) <==> tasks != [] && Filtering(onlyCategory) && CategoryFilter(tasks, onlyCategory.value) == []
    ensures r.Err? ==> r.failure == EmptyStore || r.failure == NoCategoryMatch
    ensures r.Ok? ==> Enumerates(r.value, View(tasks, onlyCategory), t => Shown(t, showAll))
  {
    if tasks == [] {
      return Err(EmptyStore);
    }
    var filtered := tasks;
    if Filtering(onlyCategory) {
      filtered := CategoryFilter(tasks, onlyCategory.value);
      if filtered == [] {
        return Err(NoCategoryMatch);
      }
    }
    var rows := Number(filtered, showAll);
    return Ok(rows);
  }

  /**
   * The numbering loop of `list_tasks`: each task of the view with its
   * position in the view, skipping completed ones unless all are shown.
   */
  method Number(view: seq<Task>, showAll: bool) returns (rows: seq<(nat, Task)>)
    ensures Enumerates(rows, view, t => Shown(t, showAll))
  {
    ghost var keep := t => Shown(t, showAll);
    rows := [];
    for i := 0 to |view|
      invariant forall j :: 0 <= j < |rows| ==> rows[j].0 < i && rows[j].1 == view[rows[j].0] && keep(rows[j].1)
      invariant forall a, b :: 0 <= a < b < |rows| ==> rows[a].0 < rows[b].0
      invariant forall k :: Accepted(view, keep, k) && k < i ==> exists j :: 0 <= j < |rows| && rows[j].0 == k
    {
      if Shown(view[i], showAll) {
        ghost var before := rows;
        rows := rows + [(i, view[i])];
        assert forall j :: 0 <= j < |before| ==> rows[j] == before[j];
        assert rows[|rows| - 1].0 == i;
      }
    }
  }

  /** Without filter and with completed tasks shown, the rows are every task with its own index. */
  lemma ListAllRows(tasks: seq<Task>, rows: seq<(nat, Task)>)
    requires Enumerates(rows, View(tasks, None), t => Shown(t, true))
    ensures rows == seq(|tasks|, i requires 0 <= i < |tasks| => (i, tasks[i]))
  {
    var all := seq(|tasks|, i requires 0 <= i < |tasks| => (i, tasks[i]));
    assert Enumerates(all, tasks, t => Shown(t, true)) by {
      forall i {:trigger tasks[i]} | 0 <= i < |tasks|
        ensures exists j :: 0 <= j < |all| && all[j].0 == i
      {
        assert all[i].0 == i;
      }
    }
    EnumerationUnique(rows, all, tasks, t => Shown(t, true));
  }
}
