/**
 * The task list that todo.py's handlers change in place: `add_task` appends,
 * `edit_task` and `mark_completed` update one element, `delete_task` pops one.
 * Each handler's prompts become parameters and its messages become the
 * returned outcome.
 */
module Store {
  import opened Text
  import opened Seqs
  import opened Tasks

  class TaskList {
    /** The Python list `tasks`, in order; a task's position is its index. */
    var tasks: seq<Task>

    /** The list `load_tasks` produced, whatever it holds. */
    constructor (loaded: seq<Task>)
      ensures tasks == loaded
    {
      tasks := loaded;
    }

    /**
     * `add_task`: a blank title leaves the list as it was and reports
     * `EmptyTitle`; otherwise exactly one new task goes at the end.
     */
    method Add(title: string, description: string, category: string) returns (outcome: Outcome)
      modifies this
      ensures outcome.Failed? <==> Blank(title)
      ensures outcome.Failed? ==> outcome.failure == EmptyTitle && tasks == old(tasks)
      ensures outcome.Success? ==> tasks == old(tasks) + [NewTask(title, description, category).value]
      ensures TitlesNonBlank(old(tasks)) ==> TitlesNonBlank(tasks)
    {
      var t := NewTask(title, description, category);
      if t.Err? {
        return Failed(t.failure);
      }
      if TitlesNonBlank(tasks) {
        AppendKeepsTitles(tasks, t.value);
      }
      tasks := tasks + [t.value];
      return Success;
    }

    /**
     * `edit_task`: an empty list or an index outside `-n <= index < n` changes
     * nothing; otherwise the addressed task gets each non-blank answer, and
     * no other task changes.
     */
    method Edit(index: Option<int>, newTitle: string, newDescription: string, newCategory: string)
      returns (outcome: Outcome)
      modifies this
      ensures match Resolve(|old(tasks)|, index)
        case Err(e) => outcome == Failed(e) && tasks == old(tasks)
        case Ok(k) => outcome == Success && tasks == old(tasks)[k := Edited(old(tasks)[k], newTitle, newDescription, newCategory)]
      ensures TitlesNonBlank(old(tasks)) ==> TitlesNonBlank(tasks)
    {
      var slot := Resolve(|tasks|, index);
      if slot.Err? {
        return Failed(slot.failure);
      }
      var k := slot.value;
      var t := tasks[k];
      var title, description, category := Strip(newTitle), Strip(newDescription), Strip(newCategory);
      if title != "" {
        t := t.(title := title);
      }
      if description != "" {
        t := t.(description := description);
      }
      if category != "" {
        t := t.(category := category);
      }
      assert t == Edited(tasks[k], newTitle, newDescription, newCategory);
      if TitlesNonBlank(tasks) {
        ReplaceKeepsTitles(tasks, k, t);
      }
      tasks := tasks[k := t];
      return Success;
    }

    /**
     * `mark_completed`: an empty list or a bad index changes nothing;
     * otherwise the addressed task is marked completed, and marking a task
     * that already is completed leaves the list as it was.
     */
    method MarkCompleted(index: Option<int>) returns (outcome: Outcome)
      modifies this
      ensures match Resolve(|old(tasks)|, index)
        case Err(e) => outcome == Failed(e) && tasks == old(tasks)
        case Ok(k) =>
          && outcome == Success
          && tasks == old(tasks)[k := old(tasks)[k].MarkCompleted()]
          && (old(tasks)[k].completed ==> tasks == old(tasks))
      ensures TitlesNonBlank(old(tasks)) ==> TitlesNonBlank(tasks)
    {
      var slot := Resolve(|tasks|, index);
      if slot.Err? {
        return Failed(slot.failure);
      }
      var k := slot.value;
      if TitlesNonBlank(tasks) {
        ReplaceKeepsTitles(tasks, k, tasks[k].MarkCompleted());
      }
      tasks := tasks[k := tasks[k].MarkCompleted()];
      return Success;
    }

    /**
     * `delete_task`: an empty list or a bad index changes nothing; otherwise
     * the addressed task is removed and returned, and later tasks move down
     * one place. An index beyond the 64-bit range is `IndexOverflow`, the
     * uncaught error that ends the program with the list unsaved.
     */
    method Delete(index: Option<int>) returns (removed: Result<Task>)
      modifies this
      ensures match ResolvePop(|old(tasks)|, index)
        case Err(e) => removed == Err(e) && tasks == old(tasks)
        case Ok(k) => removed == Ok(old(tasks)[k]) && tasks == RemoveAt(old(tasks), k)
      ensures TitlesNonBlank(old(tasks)) ==> TitlesNonBlank(tasks)
    {
      var slot := ResolvePop(|tasks|, index);
      if slot.Err? {
        return Err(slot.failure);
      }
      var k := slot.value;
      removed := Ok(tasks[k]);
      tasks := RemoveAt(tasks, k);
    }
  }
}
