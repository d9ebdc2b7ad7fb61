# TodoList view state, in Dafny

A model of the `TodoList` component of a small to-do application whose rows
live in a hosted Postgres table. The component keeps four pieces of view
state: the rows `todos`, the input text `newTodo`, and the flags `loading`
and `adding`. Its handlers call the remote service and then update that
state. In this model every remote answer is a parameter. The current-user
lookup is an `Option` of the user's id, `None` when nobody is signed in. A
table query answers with a `Reply`: `Success(data)` or `Error`.

- `supabase.dfy` (module `Supabase`): the `Todo` row, with the columns of
  the table type in `src/lib/supabase.ts`.
- `js_string.dfy` (module `JsString`): `String.prototype.trim` as section
  22.1.3.32 of ECMA-262 defines it. It strips WhiteSpace and LineTerminator
  code points at both ends. `IsBlank` is the independent reference for
  "nothing but white space".
- `todo_ops.dfy` (module `TodoOps`): the list transformations. `Toggled` is
  the `map` of the toggle handler. `WithoutId` is the `filter` of the delete
  handler. `WithStatus`, `ActiveCount` and `CompletedCount` are the counters.
  The lemmas state what these promise.
- `todo_list.dfy` (module `TodoListComponent`): class `TodoList` with the
  four state fields and one method per handler. Each method states the
  whole new state in terms of the old state and the remote answers.
- `wrappers.dfy` (module `Wrappers`): `Option`, for the source's nullable
  values.

## Model

| member | source | states |
|---|---|---|
| `TodoListComponent.TodoList.constructor` | src/components/TodoList.tsx:6-9 | initial state: no rows, empty input, loading, not adding |
| `TodoListComponent.TodoList.EditInput` | src/components/TodoList.tsx:157 | typing sets the input text to the field's value; nothing else changes |
| `TodoListComponent.TodoList.FetchTodos` | src/components/TodoList.tsx:16-35 | with a user and a successful query the list becomes the returned rows, or empty when the data is null; with no user or an error the old list stays; `loading` is false on every path; input and `adding` unchanged |
| `TodoListComponent.TodoList.AddTodo` | src/components/TodoList.tsx:38-65 | blank input: no insert, list, input and `adding` unchanged; otherwise an insert of the trimmed title for the signed-in user is issued (none with no user), `adding` ends false on every path including the no-user return; a returned row goes at index 0 ahead of the old list in order and the input is cleared; error, no user or null row leave list and input unchanged |
| `TodoListComponent.TodoList.ToggleTodo` | src/components/TodoList.tsx:67-83 | on success the list becomes `Toggled(old list, id, completed)`; on error it is unchanged; input and flags unchanged |
| `TodoListComponent.TodoList.DeleteTodo` | src/components/TodoList.tsx:85-98 | on success the list becomes `WithoutId(old list, id)`; on error it is unchanged; input and flags unchanged |
| `TodoListComponent.TodoList.SubmitEnabled` | src/components/TodoList.tsx:165 | the submit button is enabled exactly when no add is in flight and the input is not blank |
| `TodoListComponent.TodoList.ActiveTodos` | src/components/TodoList.tsx:105 | the active counter plus the completed count is the number of rows |
| `TodoListComponent.TodoList.CompletedTodos` | src/components/TodoList.tsx:106 | the completed counter plus the active count is the number of rows, so it is bounded by it |
| `JsString.TrimStart` | src/components/TodoList.tsx:40 | the result is the suffix of the input after its leading white space, and does not start with white space |
| `JsString.TrimEnd` | src/components/TodoList.tsx:40 | the result is the prefix of the input before its trailing white space, and does not end with white space |
| `JsString.TrimEmptyIffBlank` | src/components/TodoList.tsx:40 | the trimmed input is empty if and only if every character of the input is white space |
| `JsString.TrimIsInfix` | src/components/TodoList.tsx:50 | the trimmed title is the infix of the input between a white-space prefix and a white-space suffix, and neither starts nor ends with white space |
| `JsString.TrimIdempotent` | src/components/TodoList.tsx:50 | trimming an already trimmed title changes nothing |
| `TodoOps.Toggled` | src/components/TodoList.tsx:77-79 | same length and order; a row whose id matches gets `completed` equal to the negation of the passed flag, other rows keep theirs; no other field of any row changes |
| `TodoOps.ToggledAbsent` | src/components/TodoList.tsx:77-79 | toggling an id no row carries leaves the list unchanged |
| `TodoOps.ToggledIdempotent` | src/components/TodoList.tsx:77-79 | toggling twice with the same passed flag gives the same list as toggling once |
| `TodoOps.ToggledUndo` | src/components/TodoList.tsx:191 | when the passed flag is the matching rows' current state, as the checkbox passes it, toggling back with the new state restores the list |
| `TodoOps.WithoutId` | src/components/TodoList.tsx:94 | no remaining row carries the id; every remaining row was in the list; the list does not grow |
| `TodoOps.WithoutIdOccurrences` | src/components/TodoList.tsx:94 | exactly the rows with the id are removed: each other row keeps its number of occurrences |
| `TodoOps.WithoutIdSubsequence` | src/components/TodoList.tsx:94 | the remaining rows keep their relative order (a subsequence of the old list) |
| `TodoOps.WithoutIdAppend` | src/components/TodoList.tsx:94 | deleting from a concatenation deletes from each part in place |
| `TodoOps.WithoutIdAbsent` | src/components/TodoList.tsx:94 | deleting an id no row carries leaves the list unchanged |
| `TodoOps.WithoutIdIdempotent` | src/components/TodoList.tsx:94 | deleting the same id twice equals deleting it once |
| `TodoOps.PrependThenDelete` | src/components/TodoList.tsx:57 | adding a row with a fresh id and then deleting that id restores the list |
| `TodoOps.CountsAfterPrepend` | src/components/TodoList.tsx:57 | a prepended row raises the counter of its own state by one and leaves the other |
| `TodoOps.WithStatus` | src/components/TodoList.tsx:105-106 | the filtered rows all come from the list and all have the requested state |
| `TodoOps.CountsAddUp` | src/components/TodoList.tsx:105-106 | active count plus completed count equals the list length; each is at most the length |

## Left out

- The remote service calls (`getUser`, `select`, `insert`, `update`, `delete`, `signOut`) are not modelled. Each becomes an answer parameter of the handler that makes it. The sign-out handler only makes such a call, so it has no model.
- The filter by `user_id` and the newest-first order of the fetch are applied by the database. They are not client guarantees, so the fetched rows are taken as given.
- The `updated_at` timestamp sent with a toggle comes from the clock. It never reaches local state.
- Handlers are atomic here. Overlapping requests, and handlers that work on a stale captured list, are a concurrency concern and are not modelled.
- TodoListComponent.TodoList.AddTodo: the handler sets `adding` to true while the request is in flight. Because the handler is atomic here, only the final value, false, is visible.
- The error log written to the console on every caught error is output only and is not modelled.
- Rendering, styling, the loading screen and the empty-list message are presentation. Only the submit-enabled condition is modelled.
- `src/App.tsx` (session retrieval and the auth-state subscription) and the environment checks and client construction in `src/lib/supabase.ts` are configuration and vendor plumbing.
- JsString.TrimStart: JavaScript strings are UTF-16 code units, and Dafny strings are Unicode scalar values. Every ECMA-262 white-space character is in the Basic Multilingual Plane, so trimming agrees on every string both can hold. Lone surrogates cannot be represented.
