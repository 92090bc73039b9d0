/**
 * The task records of the file-backed backend, the request and response
 * shapes of its routes, and the pure pieces its handlers are built from:
 * the id search, the record a POST creates, the patch a PUT applies and the
 * removal a DELETE performs.
 */
module Tasks {
  import opened Wrappers
  import opened JsValues

  /** A stored task. `title` and `description` hold whatever JSON value the
      client sent: POST only guarantees a non-empty string title, and PUT
      stores both fields without validation. */
  datatype Task = Task(
    id: string,
    title: JsValue,
    description: JsValue,
    isDone: bool,
    createdAt: string,
    updatedAt: Option<string>)

  /** The three fields the POST and PUT handlers destructure from the body. */
  datatype TaskFields = TaskFields(title: JsValue, description: JsValue, isDone: JsValue)

  /** The JSON body of a response. */
  datatype Body =
    | TaskList(tasks: seq<Task>)
    | OneTask(task: Task)
    | ErrorBody(error: string)
    | Deleted(success: bool, deleted: Task)

  datatype Response = Response(status: int, body: Body)

  const NotFound := Response(404, ErrorBody("Task not found"))
  const BadTitle := Response(400, ErrorBody("title is required and must be a string"))

  /** `k` is the first position whose task carries `id`. */
  predicate IsFirstMatch(ts: seq<Task>, id: string, k: int) {
    0 <= k < |ts| && ts[k].id == id && forall j :: 0 <= j < k ==> ts[j].id != id
  }

  /** No task carries `id`. */
  predicate Absent(ts: seq<Task>, id: string) {
    forall j :: 0 <= j < |ts| ==> ts[j].id != id
  }

  /** What `Array.prototype.findIndex(t => t.id === id)` answers: the first
      matching position, or -1 when nothing matches. */
  function IndexOf(ts: seq<Task>, id: string): (r: int)
    ensures -1 <= r < |ts|
    ensures r == -1 <==> Absent(ts, id)
    ensures r != -1 ==> IsFirstMatch(ts, id, r)
  {
    if ts == [] then -1
    else if ts[0].id == id then 0
    else
      var k := IndexOf(ts[1..], id);
      assert forall j :: 1 <= j < |ts| ==> ts[j] == ts[1..][j - 1];
      if k == -1 then -1 else k + 1
  }

  /** The linear search behind `find` and `findIndex`. */
  method FindIndex(ts: seq<Task>, id: string) returns (idx: int)
    ensures idx == -1 <==> Absent(ts, id)
    ensures idx != -1 ==> IsFirstMatch(ts, id, idx)
  {
    var i := 0;
    while i < |ts|
      invariant 0 <= i <= |ts|
      invariant forall j :: 0 <= j < i ==> ts[j].id != id
    {
      if ts[i].id == id {
        return i;
      }
      i := i + 1;
    }
    return -1;
  }

  /** The guard of POST /tasks: `!title || typeof title !== 'string'` rejects,
      so exactly the non-empty strings get through. A title of blanks only is
      accepted: nothing is trimmed. */
  function TitleAccepted(title: JsValue): (ok: bool)
    ensures ok <==> title.JStr? && |title.s| > 0
  {
    !(!Truthy(title) || !IsString(title))
  }

  /** The record a successful POST builds from the body, the generated id
      and the creation time. */
  function NewTask(fields: TaskFields, id: string, createdAt: string): (t: Task)
    ensures t.id == id && t.title == fields.title && t.createdAt == createdAt
    ensures t.description == (if Truthy(fields.description) then fields.description else JStr(""))
    ensures t.isDone <==> Truthy(fields.isDone)
    ensures t.updatedAt == None
  {
    Task(id, fields.title, Or(fields.description, JStr("")), Truthy(fields.isDone), createdAt, None)
  }

  /** The in-place edits PUT makes to the task it found: each field the body
      carries (anything but `undefined`, `null` included) overwrites the
      stored one, `isDone` coerced to a boolean; `updatedAt` is always set. */
  function ApplyPatch(t: Task, fields: TaskFields, now: string): (u: Task)
    ensures u.id == t.id && u.createdAt == t.createdAt
    ensures u.title == (if fields.title == JUndefined then t.title else fields.title)
    ensures u.description == (if fields.description == JUndefined then t.description else fields.description)
    ensures u.isDone == (if fields.isDone == JUndefined then t.isDone else Truthy(fields.isDone))
    ensures u.updatedAt == Some(now)
  {
    var t1 := if fields.title != JUndefined then t.(title := fields.title) else t;
    var t2 := if fields.description != JUndefined then t1.(description := fields.description) else t1;
    var t3 := if fields.isDone != JUndefined then t2.(isDone := Truthy(fields.isDone)) else t2;
    t3.(updatedAt := Some(now))
  }

  /** `ts.splice(k, 1)`: exactly the element at `k` goes, the others close
      up in their original order. */
  function RemoveAt(ts: seq<Task>, k: int): (r: seq<Task>)
    requires 0 <= k < |ts|
    ensures |r| == |ts| - 1
    ensures forall j :: 0 <= j < k ==> r[j] == ts[j]
    ensures forall j :: k <= j < |r| ==> r[j] == ts[j + 1]
    ensures multiset(r) + multiset{ts[k]} == multiset(ts)
  {
    assert ts == ts[..k] + [ts[k]] + ts[k + 1..];
    ts[..k] + ts[k + 1..]
  }
}
