# Task table and task form, modelled in Dafny

This project models the two pieces of logic in a small to-do application.

**The file-backed task routes of the Express backend (`backend/index.js`).**
Every handler reads the whole task array from a JSON file. It searches the
array by id, changes it with `push`, a field assignment or `splice`, writes it
back, and answers with a status code and a JSON body. Here the file is the
`tasks: seq<Task>` field of the class `TaskApi.TaskStore`, and the five routes
are its methods:

- GET `/tasks` is `List`.
- GET `/tasks/:id` is `Get`.
- POST `/tasks` is `Create`.
- PUT `/tasks/:id` is `Update`.
- DELETE `/tasks/:id` is `Delete`.

Each method returns a `Response(status, body)`. Request bodies carry JavaScript
values (`JsValues.JsValue`), so the model reproduces the handlers' coercions
exactly: `!title`, `typeof title !== 'string'`, `description || ''`, `!!isDone`
and the `!== undefined` tests of the partial update. The id a POST generates
(`Date.now().toString()`) and the ISO timestamps are parameters.

**The create-task form of the React front end
(`frontend/src/components/TaskForm.tsx`).** The class
`TaskFormComponent.TaskForm` holds the component's state: `title`,
`description` and `errors`. It also keeps a log of the calls made to the
parent's `onSubmit`. `HandleSubmit` validates both fields with a model of
JavaScript's `trim()` (`JsStrings`) and records an error per blank field. If
both fields are filled, it submits the untrimmed values once and resets the
fields after the submission resolves.

Modules:

- `Wrappers`: `Option`.
- `JsValues`: JSON request values and truthiness.
- `JsStrings`: `trim()`.
- `Tasks`: records, responses, the id search, and the create, patch and remove steps.
- `TaskApi`: the store class.
- `TaskProperties`: lemmas that relate several requests.
- `TaskApiClient`: a client that uses the route contracts only.
- `TaskFormComponent`: the form.

Where the code and the intended design of the application differ, the model
follows the code:

- POST checks only that the title is a non-empty string. It does not trim, so
  a title of blanks is stored.
- PUT stores `title` and `description` without any validation. An empty,
  `null` or numeric title can therefore replace a valid one
  (`TaskProperties.UpdateCanStoreRejectedTitle`).
- Ids are millisecond timestamps, so they are not guaranteed unique. Lookups
  answer the first match (`TaskProperties.CollidingCreateIsShadowed`).
  Properties that need unique ids assume them explicitly (`UniqueIds`). The
  lemmas show that every route preserves them except a POST whose generated id
  is already stored (`TaskProperties.CollidingCreateBreaksUniqueIds`). With
  duplicates, a DELETE uncovers the next task with the same id
  (`TaskProperties.DeleteRevealsDuplicate`).
- PUT with `isDone: false` reopens a task. Nothing makes completion monotonic.

## Model

| member | source | states |
|---|---|---|
| `JsValues.FalsyValues` | backend/index.js:49 | the values `!v` treats as false are exactly undefined, null, false, 0 and `''` |
| `Tasks.IndexOf` | backend/index.js:69 | `findIndex` by id: -1 exactly when no task has the id, otherwise the first position holding it |
| `Tasks.FindIndex` | backend/index.js:40 | the linear search behind `find`/`findIndex` returns -1 iff the id is absent, else the first matching index |
| `Tasks.TitleAccepted` | backend/index.js:49-51 | the POST guard lets through exactly the non-empty strings (no trimming) |
| `Tasks.NewTask` | backend/index.js:53-59 | the created record has the given id, title and creation time, description defaulted to `''` when falsy, `isDone` the truthiness of the body field, no `updatedAt` |
| `Tasks.ApplyPatch` | backend/index.js:71-75 | PUT changes exactly the fields that are not `undefined` (null included), coerces `isDone` to a boolean, keeps id and `createdAt`, always sets `updatedAt` |
| `Tasks.RemoveAt` | backend/index.js:86 | `splice(k, 1)` removes exactly the element at `k`: length one less, elements before and after kept in order, multiset minus that one element |
| `TaskApi.TaskStore.constructor` | backend/index.js:20-24 | the store starts with the collection the file holds |
| `TaskApi.TaskStore.List` | backend/index.js:32-35 | 200 with the whole collection; state unchanged |
| `TaskApi.TaskStore.Get` | backend/index.js:38-43 | 404 `Task not found` iff no task has the id, otherwise 200 with the first match; state unchanged |
| `TaskApi.TaskStore.Create` | backend/index.js:47-63 | bad title: 400 with its message and the collection unchanged; otherwise exactly one new task appended after all earlier ones and 201 with it |
| `TaskApi.TaskStore.Update` | backend/index.js:66-79 | unknown id: 404 and no change; otherwise the first match is patched in place, length and every other task unchanged, 200 with the patched task |
| `TaskApi.TaskStore.Delete` | backend/index.js:82-89 | unknown id: 404 and no change; otherwise the first match is spliced out and returned as `{success: true, deleted}` |
| `TaskProperties.IndexOfAppend` | backend/index.js:60 | after a push an earlier match still wins, else the new task is found iff it carries the id |
| `TaskProperties.GetAfterCreate` | backend/index.js:52-62 | a POST with a fresh id is what the next GET of that id returns, with its title, coerced `isDone` and no `updatedAt` |
| `TaskProperties.CollidingCreateIsShadowed` | backend/index.js:54 | a POST whose id collides with a stored one is not found by id while the older task is stored: lookups keep answering the older task |
| `TaskProperties.IndexOfReplace` | backend/index.js:76 | writing back a task with the same id changes no lookup |
| `TaskProperties.LookupAfterUpdate` | backend/index.js:69-76 | after a PUT every id is found where it was, and the patched task is found for its own id |
| `TaskProperties.PatchIdempotent` | backend/index.js:72-75 | repeating the same PUT body with the same time gives the same task |
| `TaskProperties.EmptyPatchOnlyStamps` | backend/index.js:72-75 | a PUT carrying none of the three fields changes only `updatedAt` |
| `TaskProperties.CreateKeepsUniqueIds` | backend/index.js:54-60 | a POST with an id not yet stored keeps ids unique |
| `TaskProperties.CollidingCreateBreaksUniqueIds` | backend/index.js:54-60 | a POST whose generated id is already stored leaves two tasks with that id |
| `TaskProperties.UpdateKeepsUniqueIds` | backend/index.js:71-76 | a PUT keeps ids unique |
| `TaskProperties.DeleteKeepsUniqueIds` | backend/index.js:86 | a DELETE keeps ids unique |
| `TaskProperties.IndexOfAfterDelete` | backend/index.js:84-86 | after a splice at the first match, the id is found at the next match behind it (one position earlier), or not at all when there is none |
| `TaskProperties.GetAfterDelete` | backend/index.js:84-86 | with unique ids, after a DELETE the id is absent |
| `TaskProperties.DeleteRevealsDuplicate` | backend/index.js:84-86 | with a second task carrying the id, after a DELETE the id is still found, and the lookup answers that next task |
| `TaskProperties.OthersFoundAfterDelete` | backend/index.js:86 | a DELETE keeps every other stored id findable |
| `TaskProperties.DeleteUndoesCreate` | backend/index.js:52-88 | deleting the task a POST with a fresh id added gives back the original collection |
| `TaskProperties.CreateKeepsTitlesAccepted` | backend/index.js:49-60 | a POST that passes its guard keeps every stored title a non-empty string, on any collection including the empty one |
| `TaskProperties.DeleteKeepsTitlesAccepted` | backend/index.js:86 | a DELETE keeps every stored title a non-empty string |
| `TaskProperties.UpdateCanStoreRejectedTitle` | backend/index.js:72 | in a collection whose titles all pass the POST guard, a PUT of any non-undefined title that POST would refuse leaves a collection where they no longer all pass |
| `TaskApiClient.PostGetDelete` | backend/index.js:38-89 | through the routes' contracts alone: POST 201 (not done), GET 200 with it, DELETE 200 with it, GET 404, collection as before |
| `JsStrings.TrimStart` | frontend/src/components/TaskForm.tsx:22 | the result is a suffix not starting with whitespace, and everything removed is whitespace |
| `JsStrings.TrimEnd` | frontend/src/components/TaskForm.tsx:22 | the result is a prefix not ending with whitespace, and everything removed is whitespace |
| `JsStrings.TrimEmptyIffBlank` | frontend/src/components/TaskForm.tsx:22 | `s.trim()` is empty iff every character of `s` is whitespace |
| `TaskFormComponent.Validate` | frontend/src/components/TaskForm.tsx:21-27 | the title error is recorded iff the title is blank, the description error iff the description is blank, with the component's messages |
| `TaskFormComponent.AcceptedIffBothFilled` | frontend/src/components/TaskForm.tsx:29 | the error map is empty iff neither field is blank |
| `TaskFormComponent.FormIsStricterThanBackend` | frontend/src/components/TaskForm.tsx:22-27 | a comparison of two guards: a title the form's blank check lets through also passes the POST guard of `backend/index.js`, and the title `" "` passes that guard while the form rejects it (the form's submissions do not reach that route) |
| `TaskFormComponent.TaskForm.constructor` | frontend/src/components/TaskForm.tsx:13-15 | a new form has empty fields, no errors and no submissions |
| `TaskFormComponent.TaskForm.EditTitle` | frontend/src/components/TaskForm.tsx:53 | typing sets the title and nothing else |
| `TaskFormComponent.TaskForm.EditDescription` | frontend/src/components/TaskForm.tsx:68 | typing sets the description and nothing else |
| `TaskFormComponent.TaskForm.HandleSubmit` | frontend/src/components/TaskForm.tsx:17-43 | with a blank field: errors stored, no submission, fields kept; otherwise errors cleared, exactly one submission of the untrimmed values, and both fields reset to `''` once it resolves |

## Left out

- The Express, CORS and morgan setup and `app.listen` (`backend/index.js:1-10`, `91-94`) are server plumbing.
- `ensureDataFile`, `readTasks` and `writeTasks` (`backend/index.js:15-29`) are file and JSON I/O. The file is the `tasks` field, and a handler's read followed by its write is one atomic step. So the read-modify-write race between concurrent requests is not modelled.
- JSON parsing of the file is not modelled. Records are assumed to have the shape the POST and PUT handlers write.
- Generated ids and timestamps are parameters. The model does not claim ids are unique, and it does not relate `createdAt` to `updatedAt`.
- `JsValues.JsValue` has no NaN: JSON request bodies cannot carry it.
- `JNum` holds finite numbers only, so `Infinity` is not modelled. A number literal too large for a double (`1e999`) decodes to `Infinity`, which is truthy. POST stores it as a description and PUT as a title or description. `res.json` and the file write then serialize it as `null`.
- The contents of objects and arrays are not modelled: they are one opaque case, `JOther`, so the model cannot tell two of them apart. The handlers do store and return them unchanged: as a POST description, as a PUT title or description, and in every route's answer.
- A request without a JSON body reads as a body whose three fields are all `undefined`. That is what Express 4's `express.json()` gives, since it sets `req.body` to `{}`. So POST answers 400, and PUT on a known id changes only `updatedAt`.
- Under Express 5, `req.body` stays undefined for such a request. The destructuring at `backend/index.js:48` and `:67` then throws, and Express answers 500. For PUT this happens before the id lookup, so even an unknown id gets 500. This is not modelled.
- Malformed JSON is rejected with 400 by the body parser before any handler runs. This is not modelled.
- The SQL-backed router `backend/src/routes/tasks.js` is not modelled: its behaviour lives in SQL run by a database module that is not part of this model. That includes its mark-done route and its unlimited-versus-latest-5 listing.
- The fetch wrappers (`frontend/src/services/task.service.ts`) and `frontend/src/app/page.tsx` are networking and rendering. Its blank-title guard checks only the title, so it duplicates only the title half of `Validate`.
- The Shift+Enter key handler and `preventDefault` (`TaskForm.tsx:18`, `55-60`) are UI event plumbing. The rest of the JSX and the Button, Input, TextArea and TaskCard components are presentation.
- `TaskFormComponent.TaskForm.HandleSubmit`: edits typed while `onSubmit` is pending are not modelled, because the handler is one step here. React's state batching is not modelled either. The handler reads the values of the render it was created in, and both are taken to be the current state.
