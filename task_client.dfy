/**
 * A client of the backend's routes that relies on their contracts alone: a
 * task posted with a fresh id is found, and once deleted it is gone and the
 * collection is as before.
 */
module TaskApiClient {
  import opened JsValues
  import opened Tasks
  import opened TaskProperties
  import opened TaskApi

  method PostGetDelete(store: TaskStore, title: string, id: string, now: string)
      returns (posted: Response, found: Response, deleted: Response, gone: Response)
    requires title != "" && Absent(store.tasks, id)
    modifies store
    ensures posted.status == 201 && posted.body.OneTask? && posted.body.task.isDone == false
    ensures found == Response(200, OneTask(posted.body.task))
    ensures deleted == Response(200, Deleted(true, posted.body.task))
    ensures gone == NotFound && store.tasks == old(store.tasks)
  {
    var fields := TaskFields(JStr(title), JUndefined, JUndefined);
    ghost var before := store.tasks;
    posted := store.Create(fields, id, now);
    GetAfterCreate(before, fields, id, now);
    found := store.Get(id);
    deleted := store.Delete(id);
    DeleteUndoesCreate(before, fields, id, now);
    gone := store.Get(id);
  }
}
