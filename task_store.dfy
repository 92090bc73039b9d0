/**
 * The routes of the file-backed backend. The JSON file is the `tasks` field
 * of a TaskStore; every handler reads the whole collection, searches it,
 * changes it and writes it back, which the model treats as one step.
 * Generated ids and timestamps are parameters.
 */
module TaskApi {
  import opened JsValues
  import opened Tasks

  class TaskStore {
    /** The contents of the tasks file, in file order. */
    var tasks: seq<Task>

    /** A store over the collection the file currently holds. */
    constructor (stored: seq<Task>)
      ensures tasks == stored
    {
      tasks := stored;
    }

    /** GET /tasks: the whole collection, in file order. */
    method List() returns (r: Response)
      ensures r.status == 200 && r.body == TaskList(tasks)
    {
      r := Response(200, TaskList(tasks));
    }

    /** GET /tasks/:id: the first task carrying `id`, or 404. */
    method Get(id: string) returns (r: Response)
      ensures r.status == 404 <==> Absent(tasks, id)
      ensures Absent(tasks, id) ==> r == NotFound
      ensures !Absent(tasks, id) ==>
        r.status == 200 && r.body.OneTask? && IsFirstMatch(tasks, id, IndexOf(tasks, id)) &&
        r.body.task == tasks[IndexOf(tasks, id)]
    {
      var idx := FindIndex(tasks, id);
      if idx == -1 {
        return NotFound;
      }
      r := Response(200, OneTask(tasks[idx]));
    }

    /** POST /tasks: rejects a title that is not a non-empty string and leaves
        the collection alone; otherwise appends one new task and answers 201
        with it. */
    method Create(fields: TaskFields, newId: string, now: string) returns (r: Response)
      modifies this
      ensures !TitleAccepted(fields.title) ==> r == BadTitle && tasks == old(tasks)
      ensures TitleAccepted(fields.title) ==>
        var t := NewTask(fields, newId, now);
        r == Response(201, OneTask(t)) && tasks == old(tasks) + [t]
    {
      if !Truthy(fields.title) || !IsString(fields.title) {
        return BadTitle;
      }
      var newTask := NewTask(fields, newId, now);
      tasks := tasks + [newTask];
      r := Response(201, OneTask(newTask));
    }

    /** PUT /tasks/:id: 404 and no change when no task carries `id`; otherwise
        patches the first such task in place, keeps every other task, and
        answers with the patched task. */
    method Update(id: string, fields: TaskFields, now: string) returns (r: Response)
      modifies this
      ensures Absent(old(tasks), id) ==> r == NotFound && tasks == old(tasks)
      ensures !Absent(old(tasks), id) ==>
        var k := IndexOf(old(tasks), id);
        |tasks| == |old(tasks)| &&
        tasks[k] == ApplyPatch(old(tasks)[k], fields, now) &&
        (forall j :: 0 <= j < |tasks| && j != k ==> tasks[j] == old(tasks)[j]) &&
        r == Response(200, OneTask(tasks[k]))
    {
      var idx := FindIndex(tasks, id);
      if idx == -1 {
        return NotFound;
      }
      var task := ApplyPatch(tasks[idx], fields, now);
      tasks := tasks[idx := task];
      r := Response(200, OneTask(task));
    }

    /** DELETE /tasks/:id: 404 and no change when no task carries `id`;
        otherwise removes the first such task and answers with it. */
    method Delete(id: string) returns (r: Response)
      modifies this
      ensures Absent(old(tasks), id) ==> r == NotFound && tasks == old(tasks)
      ensures !Absent(old(tasks), id) ==>
        var k := IndexOf(old(tasks), id);
        tasks == RemoveAt(old(tasks), k) &&
        r == Response(200, Deleted(true, old(tasks)[k]))
    {
      var idx := FindIndex(tasks, id);
      if idx == -1 {
        return NotFound;
      }
      var deleted := tasks[idx];
      tasks := RemoveAt(tasks, idx);
      r := Response(200, Deleted(true, deleted));
    }
  }
}
