/**
 * Properties of the backend's handlers that relate several requests: what a
 * later lookup sees after a create, an update or a delete, when ids stay
 * unique, and which stored titles the handlers can produce.
 */
module TaskProperties {
  import opened Wrappers
  import opened JsValues
  import opened Tasks

  /** No two tasks share an id. The backend does not enforce this: ids are
      millisecond timestamps, and two POSTs in the same millisecond collide. */
  predicate UniqueIds(ts: seq<Task>) {
    forall i, j :: 0 <= i < j < |ts| ==> ts[i].id != ts[j].id
  }

  /** Every stored title is a non-empty string, as POST demands. */
  predicate TitlesAccepted(ts: seq<Task>) {
    forall i :: 0 <= i < |ts| ==> TitleAccepted(ts[i].title)
  }

  /** The lookup after an append: an earlier match still wins; otherwise the
      appended task is found exactly when it carries the id. */
  lemma {:induction false} IndexOfAppend(ts: seq<Task>, t: Task, id: string)
    ensures IndexOf(ts + [t], id) ==
      if IndexOf(ts, id) != -1 then IndexOf(ts, id)
      else if t.id == id then |ts|
      else -1
  {
    var s := ts + [t];
    assert forall j :: 0 <= j < |ts| ==> s[j] == ts[j];
    if IndexOf(ts, id) != -1 {
      assert IsFirstMatch(s, id, IndexOf(ts, id));
    } else if t.id == id {
      assert IsFirstMatch(s, id, |ts|);
    } else {
      assert Absent(s, id);
    }
  }

  /** A create with a fresh id is seen by the next GET of that id: it answers
      the new task, with the posted title, `isDone` coerced, and no
      `updatedAt`. */
  lemma GetAfterCreate(ts: seq<Task>, fields: TaskFields, id: string, now: string)
    requires Absent(ts, id)
    ensures var s := ts + [NewTask(fields, id, now)];
      IndexOf(s, id) == |ts| && s[|ts|].title == fields.title &&
      s[|ts|].isDone == Truthy(fields.isDone) && s[|ts|].updatedAt == None
  {
    IndexOfAppend(ts, NewTask(fields, id, now), id);
  }

  /** A create whose id collides with a stored one is invisible to GET, PUT and
      DELETE of that id: they keep finding the older task. */
  lemma CollidingCreateIsShadowed(ts: seq<Task>, fields: TaskFields, id: string, now: string)
    requires !Absent(ts, id)
    ensures IndexOf(ts + [NewTask(fields, id, now)], id) == IndexOf(ts, id)
  {
    IndexOfAppend(ts, NewTask(fields, id, now), id);
  }

  /** Replacing one task by another with the same id changes no lookup. */
  lemma {:induction false} IndexOfReplace(ts: seq<Task>, k: int, u: Task, id: string)
    requires 0 <= k < |ts| && u.id == ts[k].id
    ensures IndexOf(ts[k := u], id) == IndexOf(ts, id)
  {
    var s := ts[k := u];
    assert forall j :: 0 <= j < |ts| ==> s[j].id == ts[j].id;
    if IndexOf(ts, id) == -1 {
      assert Absent(s, id);
    } else {
      assert IsFirstMatch(s, id, IndexOf(ts, id));
    }
  }

  /** After a PUT every id is found where it was before, and the patched task
      is the one found for its own id. */
  lemma LookupAfterUpdate(ts: seq<Task>, id: string, fields: TaskFields, now: string, other: string)
    requires !Absent(ts, id)
    ensures var k := IndexOf(ts, id);
      var s := ts[k := ApplyPatch(ts[k], fields, now)];
      IndexOf(s, other) == IndexOf(ts, other) && IndexOf(s, id) == k && s[k] == ApplyPatch(ts[k], fields, now)
  {
    var k := IndexOf(ts, id);
    IndexOfReplace(ts, k, ApplyPatch(ts[k], fields, now), other);
    IndexOfReplace(ts, k, ApplyPatch(ts[k], fields, now), id);
  }

  /** Applying the same PUT twice gives the same task as applying it once. */
  lemma PatchIdempotent(t: Task, fields: TaskFields, now: string)
    ensures ApplyPatch(ApplyPatch(t, fields, now), fields, now) == ApplyPatch(t, fields, now)
  {
  }

  /** A PUT whose body carries none of the three fields changes only
      `updatedAt`. */
  lemma EmptyPatchOnlyStamps(t: Task, now: string)
    ensures ApplyPatch(t, TaskFields(JUndefined, JUndefined, JUndefined), now) == t.(updatedAt := Some(now))
  {
  }

  /** A create with a fresh id keeps ids unique. */
  lemma CreateKeepsUniqueIds(ts: seq<Task>, fields: TaskFields, id: string, now: string)
    requires UniqueIds(ts) && Absent(ts, id)
    ensures UniqueIds(ts + [NewTask(fields, id, now)])
  {
    var s := ts + [NewTask(fields, id, now)];
    forall i, j | 0 <= i < j < |s| ensures s[i].id != s[j].id {
      if j == |ts| {
        assert s[i] == ts[i];
      } else {
        assert s[i] == ts[i] && s[j] == ts[j];
      }
    }
  }

  /** A POST whose generated id is already stored breaks uniqueness. */
  lemma CollidingCreateBreaksUniqueIds(ts: seq<Task>, fields: TaskFields, id: string, now: string)
    requires !Absent(ts, id)
    ensures !UniqueIds(ts + [NewTask(fields, id, now)])
  {
    var s := ts + [NewTask(fields, id, now)];
    var k := IndexOf(ts, id);
    assert s[k].id == s[|ts|].id;
  }

  /** A PUT keeps ids unique. */
  lemma UpdateKeepsUniqueIds(ts: seq<Task>, k: int, fields: TaskFields, now: string)
    requires UniqueIds(ts) && 0 <= k < |ts|
    ensures UniqueIds(ts[k := ApplyPatch(ts[k], fields, now)])
  {
    var s := ts[k := ApplyPatch(ts[k], fields, now)];
    assert forall j :: 0 <= j < |ts| ==> s[j].id == ts[j].id;
  }

  /** A DELETE keeps ids unique. */
  lemma DeleteKeepsUniqueIds(ts: seq<Task>, k: int)
    requires UniqueIds(ts) && 0 <= k < |ts|
    ensures UniqueIds(RemoveAt(ts, k))
  {
    var s := RemoveAt(ts, k);
    forall i, j | 0 <= i < j < |s| ensures s[i].id != s[j].id {
      var i' := if i < k then i else i + 1;
      var j' := if j < k then j else j + 1;
      assert s[i] == ts[i'] && s[j] == ts[j'] && i' < j';
    }
  }

  /** The lookup after a DELETE of `id`: the next task carrying `id` behind
      the removed one becomes visible, one position earlier; without one, the
      id is gone. */
  lemma {:induction false} IndexOfAfterDelete(ts: seq<Task>, id: string)
    requires !Absent(ts, id)
    ensures var k := IndexOf(ts, id);
      var rest := IndexOf(ts[k + 1..], id);
      IndexOf(RemoveAt(ts, k), id) == if rest == -1 then -1 else k + rest
  {
    var k := IndexOf(ts, id);
    var tail := ts[k + 1..];
    var rest := IndexOf(tail, id);
    var s := RemoveAt(ts, k);
    assert forall j :: k <= j < |s| ==> s[j] == tail[j - k];
    if rest == -1 {
      forall j | 0 <= j < |s| ensures s[j].id != id {
        if j >= k {
          assert s[j] == tail[j - k];
        }
      }
    } else {
      assert s[k + rest] == tail[rest];
      assert IsFirstMatch(s, id, k + rest);
    }
  }

  /** With unique ids, a DELETE of an id makes every later lookup of it a 404. */
  lemma GetAfterDelete(ts: seq<Task>, id: string)
    requires UniqueIds(ts) && !Absent(ts, id)
    ensures Absent(RemoveAt(ts, IndexOf(ts, id)), id)
  {
    var k := IndexOf(ts, id);
    var tail := ts[k + 1..];
    IndexOfAfterDelete(ts, id);
    assert Absent(tail, id) by {
      forall j | 0 <= j < |tail| ensures tail[j].id != id {
        assert tail[j] == ts[k + 1 + j];
      }
    }
  }

  /** With duplicate ids, a DELETE removes only the first task carrying the id:
      the next one behind it is what GET, PUT and DELETE find afterwards. */
  lemma DeleteRevealsDuplicate(ts: seq<Task>, id: string, m: int)
    requires !Absent(ts, id) && IndexOf(ts, id) < m < |ts| && ts[m].id == id
    ensures var s := RemoveAt(ts, IndexOf(ts, id));
      !Absent(s, id) && s[IndexOf(s, id)] == ts[IndexOf(ts, id) + 1 + IndexOf(ts[IndexOf(ts, id) + 1..], id)]
  {
    var k := IndexOf(ts, id);
    IndexOfAfterDelete(ts, id);
    assert ts[k + 1..][m - k - 1] == ts[m];
  }

  /** A DELETE keeps every other stored id findable. */
  lemma OthersFoundAfterDelete(ts: seq<Task>, id: string, other: string)
    requires !Absent(ts, id) && other != id && !Absent(ts, other)
    ensures !Absent(RemoveAt(ts, IndexOf(ts, id)), other)
  {
    var k := IndexOf(ts, id);
    var s := RemoveAt(ts, k);
    var m := IndexOf(ts, other);
    if m < k {
      assert s[m] == ts[m];
    } else {
      assert s[m - 1] == ts[m];
    }
  }

  /** DELETE undoes a POST whose id was fresh: the collection is back to what
      it was. */
  lemma DeleteUndoesCreate(ts: seq<Task>, fields: TaskFields, id: string, now: string)
    requires Absent(ts, id)
    ensures var s := ts + [NewTask(fields, id, now)];
      IndexOf(s, id) == |ts| && RemoveAt(s, IndexOf(s, id)) == ts
  {
    var s := ts + [NewTask(fields, id, now)];
    IndexOfAppend(ts, NewTask(fields, id, now), id);
    assert s[..|ts|] == ts;
  }

  /** A POST that passes its guard keeps every stored title a non-empty
      string, the first POST on an empty collection included. */
  lemma CreateKeepsTitlesAccepted(ts: seq<Task>, fields: TaskFields, id: string, now: string)
    requires TitlesAccepted(ts) && TitleAccepted(fields.title)
    ensures TitlesAccepted(ts + [NewTask(fields, id, now)])
  {
    var s := ts + [NewTask(fields, id, now)];
    assert forall j :: 0 <= j < |ts| ==> s[j] == ts[j];
  }

  /** A DELETE keeps every stored title a non-empty string. */
  lemma DeleteKeepsTitlesAccepted(ts: seq<Task>, k: int)
    requires TitlesAccepted(ts) && 0 <= k < |ts|
    ensures TitlesAccepted(RemoveAt(ts, k))
  {
  }

  /** PUT does not validate: it can store an empty, null or numeric title over
      an accepted one, so a collection of accepted titles stops being one. */
  lemma UpdateCanStoreRejectedTitle(ts: seq<Task>, k: int, now: string, v: JsValue)
    requires TitlesAccepted(ts) && 0 <= k < |ts|
    requires v != JUndefined && !TitleAccepted(v)
    ensures !TitlesAccepted(ts[k := ApplyPatch(ts[k], TaskFields(v, JUndefined, JUndefined), now)])
  {
    var s := ts[k := ApplyPatch(ts[k], TaskFields(v, JUndefined, JUndefined), now)];
    assert s[k].title == v;
  }
}
