/**
 * A session against the store, start to finish, checked from the contracts
 * alone: add a task to an empty list, list it, complete it, list pending
 * tasks, delete it by counting from the end.
 */
module Scenario {
  import opened Text
  import opened Seqs
  import opened Tasks
  import opened Queries
  import opened Store

  method Session(title: string, description: string, category: string)
    requires !Blank(title)
  {
    var store := new TaskList([]);
    var added := store.Add(title, description, category);
    var task := NewTask(title, description, category).value;
    assert added == Success && store.tasks == [task];
    ListEverything(task);
    CompleteAndDelete(store, task);
  }

  /** Completing the only task hides it from the pending listing; deleting it from the end empties the list. */
  method CompleteAndDelete(store: TaskList, task: Task)
    requires store.tasks == [task]
    modifies store
  {
    ResolveNegative(1, 0);
    var marked := store.MarkCompleted(Some(0));
    var done := task.MarkCompleted();
    assert marked == Success && store.tasks == [done];
    ListPending(done);

    var removed := store.Delete(Some(-1));
    assert removed == Ok(done) && store.tasks == [];
  }

  /** Listing a one-task list with completed tasks shown gives that task as row 0. */
  method ListEverything(task: Task) {
    var all := ListTasks([task], None, true);
    assert all.Ok?;
    ListAllRows([task], all.value);
    var expected: seq<(nat, Task)> := [(0, task)];
    assert all.value == expected;
  }

  /** Listing a one-task list whose task is completed, with completed tasks hidden, shows no row. */
  method ListPending(done: Task)
    requires done.completed
  {
    var pending := ListTasks([done], None, false);
    assert pending.Ok?;
    assert View([done], None) == [done];
    EnumerationValues(pending.value, [done], t => Shown(t, false));
    assert pending == Ok([]);
  }
}
