# TaskManager front end: task-list state and display names, in Dafny

TaskManager is a personal task-management web application. This project models
the logic of its browser front end that can be stated without a browser:

- the **offline dashboard** (`frontend/src/components/Dashboard.jsx`). It holds
  a list of task records `{id, title, description, dueDate, priority, completed}`
  in component state. Its handlers add a task from the modal's form, toggle a
  task's completion flag and delete a task after a confirmation. It derives a
  filtered view (status selector plus case-insensitive title search) and four
  stat cards (total, completed, pending, percentage done);
- the **server-backed dashboard** (`src/components/Dashboard.jsx`). It has the
  same list, view and stats, but every change is applied only after the task
  API answers. Each request is modelled by its outcome: a `Response` that is
  `Ok(payload)` or `Err`, where `Err` is the request throwing into the handler's
  `catch`;
- the **display name** that the offline Login and Signup forms pass on when they
  are submitted.

Modules:

- `Text`: the JavaScript string operations used: `trim`, `toLowerCase`
  (ASCII), `includes` and `split(c)[0]`.
- `TaskList`: the task record and the form, the shared add guard, `filter`
  (`Keep`), delete-by-id, the filtered view and the stats.
- `LocalDashboard`: the offline dashboard, as class `Dashboard` over the state
  cells `tasks`, `form`, `isModalOpen` and `optionsTaskId`, with toggle-by-id.
- `RemoteDashboard`: the server-backed dashboard, as class `Dashboard` over the
  same cells, with replace-by-id.
- `DisplayName`: the Login and Signup name derivations.

The two dashboards share one record type, `Task<Id>`, which is generic in the
type of the identifier. The offline one uses a number (`id`) and the
server-backed one a string (`_id`). The filter selector's value stays a string,
as in the code. A value other than `"completed"` or `"pending"` shows
everything, as `"all"` does.

Credential checks and ownership scoping live in the back end's task
controller and authentication middleware, which are not part of this model;
only the client side is modelled. The server-backed dashboard checks only that
`title.trim()` is non-empty, and then sends the raw, untrimmed title. The model
states exactly that.

## Model

| member | source | states |
|---|---|---|
| `Text.Trim` | frontend/src/components/Dashboard.jsx:48-49 | the result has no whitespace at either end; it is empty exactly when the input is all whitespace; a string already trimmed is returned as it is |
| `Text.TrimIsSlice` | frontend/src/components/Dashboard.jsx:48-49 | the result is a slice of the input with only whitespace before and after it |
| `Text.Lower` | frontend/src/components/Dashboard.jsx:78 | `toLowerCase` keeps the length and leaves no ASCII capital: each capital becomes its small letter and every other character is kept |
| `Text.LowerTwice` | frontend/src/components/Dashboard.jsx:78 | lowering an already lowered string changes nothing |
| `Text.ContainsIff` | frontend/src/components/Dashboard.jsx:78 | `includes` holds exactly when the search string occurs at some index of the title |
| `Text.BeforeFirst` | frontend/src/components/Login.jsx:9 | `split("@")[0]` is a prefix of the email, holds no `@`, and is followed by an `@` unless it is the whole email |
| `Text.BeforeFirstUnique` | frontend/src/components/Login.jsx:9 | those three facts determine `split("@")[0]` uniquely |
| `TaskList.AddRejected` | frontend/src/components/Dashboard.jsx:42-43 | the add guard fires exactly when the title is empty or all whitespace, or the due date is empty |
| `TaskList.Keep` | frontend/src/components/Dashboard.jsx:75-82 | `filter` returns a subsequence of the list, no longer than it; it holds exactly the elements that pass the test; each passing element appears as often as in the list and no other element appears |
| `TaskList.KeepAll` | frontend/src/components/Dashboard.jsx:75-82 | when every element passes, `filter` returns the list itself |
| `TaskList.KeepFull` | frontend/src/components/Dashboard.jsx:82 | `filter` keeps the length exactly when every element passes |
| `TaskList.RemoveById` | frontend/src/components/Dashboard.jsx:70 | delete keeps a subsequence of the list; it removes every record with the id and keeps every other record, as often as before and in order; a list with no such id is unchanged |
| `TaskList.RemovePrepended` | frontend/src/components/Dashboard.jsx:45-70 | deleting by the id of a record just prepended gives the same list as deleting that id from the list before the add |
| `TaskList.Filtered` | frontend/src/components/Dashboard.jsx:75-79 | the view is a subsequence of the tasks; every shown task passes the status filter ("completed" shows only completed tasks, "pending" only unfinished ones) and its lower-cased title includes the lower-cased search term; every task that passes is shown, as often as it occurs; with "all" and an empty search term the view is the whole list |
| `TaskList.CompletionRate` | frontend/src/components/Dashboard.jsx:84 | the rate lies in [0, 100]; it is 0 for an empty list and 100 when all tasks are completed; for a non-empty list it is 100·completed/total rounded half up |
| `TaskList.RoundedRate` | frontend/src/components/Dashboard.jsx:84 | the integer formula `(200c + t) div 2t` is within one half of 100·c/t, lies in [0, 100], and is 100 when c = t |
| `TaskList.KeepDoneCount` | frontend/src/components/Dashboard.jsx:82 | `tasks.filter((t) => t.completed).length` is the number of completed records |
| `TaskList.ComputeStats` | frontend/src/components/Dashboard.jsx:81-84 | total is the list length; completed is the number of completed records; completed + pending = total, both non-negative; completed is 0 exactly when no task is completed and equals total exactly when all are; the rate is `CompletionRate(completed, total)`, so it lies in [0, 100], is 0 for an empty list and is 100 when all tasks are completed |
| `TaskList.PrependPendingStats` | frontend/src/components/Dashboard.jsx:45-83 | prepending an unfinished task raises total and pending by one and leaves completed unchanged |
| `LocalDashboard.NewTask` | frontend/src/components/Dashboard.jsx:45-53 | the new record has the given id and `completed == false`; its title and description are the form's, trimmed; the title is non-empty and neither has whitespace at its ends; it keeps the form's non-empty due date and its priority |
| `LocalDashboard.AddTask` | frontend/src/components/Dashboard.jsx:42-55 | the add is refused exactly when the guard fires; otherwise the new list is one longer, holds `NewTask` at index 0 and the old list after it; a well-formed list stays well-formed |
| `LocalDashboard.ToggleById` | frontend/src/components/Dashboard.jsx:61-64 | toggling keeps the length and the order; only `completed` may change in a record, and it changes exactly in the records whose id matches |
| `LocalDashboard.ToggleTwice` | frontend/src/components/Dashboard.jsx:61-64 | toggling the same id twice gives back the original list |
| `LocalDashboard.ToggleKeepsWellFormed` | frontend/src/components/Dashboard.jsx:61-64 | toggling keeps every record's non-empty trimmed title, trimmed description and non-empty due date |
| `LocalDashboard.Dashboard.constructor` | frontend/src/components/Dashboard.jsx:5-17 | the dashboard starts with no tasks, no open dropdown, a closed modal and the empty form (priority "normal") |
| `LocalDashboard.Dashboard.HandleAdd` | frontend/src/components/Dashboard.jsx:41-59 | a rejected add changes neither the tasks, the form nor the modal; an accepted add sets the tasks to the list `AddTask` builds, resets the form to empty fields with priority "normal" and closes the modal; nothing else changes |
| `LocalDashboard.Dashboard.ToggleComplete` | frontend/src/components/Dashboard.jsx:61-66 | the tasks become `ToggleById` of the old list; the dropdown closes; well-formedness is kept; nothing else changes |
| `LocalDashboard.Dashboard.HandleDelete` | frontend/src/components/Dashboard.jsx:68-73 | an unconfirmed delete changes nothing; a confirmed one leaves `RemoveById` of the old list and closes the dropdown; well-formedness is kept; nothing else changes |
| `RemoteDashboard.ReplaceById` | src/components/Dashboard.jsx:82 | the length is kept; every record with the id becomes the server's record; every other record is unchanged in its place |
| `RemoteDashboard.ReplaceMissing` | src/components/Dashboard.jsx:82 | an answer for an id no record has leaves the list unchanged |
| `RemoteDashboard.ReplaceTwice` | src/components/Dashboard.jsx:82 | applying the same answer twice (one that keeps the id) is the same as applying it once |
| `RemoteDashboard.Dashboard.constructor` | src/components/Dashboard.jsx:5-17 | the dashboard starts with no tasks, no open dropdown, a closed modal and the empty form |
| `RemoteDashboard.Dashboard.FetchTasks` | src/components/Dashboard.jsx:22-34 | a successful fetch replaces the list with the response; a failed one leaves it unchanged; nothing else changes |
| `RemoteDashboard.Dashboard.HandleAdd` | src/components/Dashboard.jsx:52-70 | no request is sent exactly when the add guard fires; otherwise the raw, untrimmed form is the request body; on success the server's task is prepended to the old list, the form is reset and the modal closes; on a failed or unsent request the tasks, form and modal are unchanged |
| `RemoteDashboard.Dashboard.ToggleComplete` | src/components/Dashboard.jsx:73-87 | the request asks for `completed: !currentStatus`; on success the tasks become `ReplaceById` of the old list with the response, and the dropdown closes; on failure nothing changes |
| `RemoteDashboard.Dashboard.HandleDelete` | src/components/Dashboard.jsx:90-104 | a request is sent exactly when the delete is confirmed; on a confirmed success the tasks become `RemoveById` of the old list and the dropdown closes; a cancelled or failed delete changes nothing |
| `DisplayName.LoginName` | frontend/src/components/Login.jsx:9 | the name is never empty and holds no `@`; it is "User" when the email is empty or starts with `@`; it is the whole email when the email is non-empty and has no `@` |
| `DisplayName.LoginNameIsLocalPart` | frontend/src/components/Login.jsx:9 | when the text before the first `@` is non-empty, the name is exactly that text |
| `DisplayName.LoginNameIgnoresPassword` | frontend/src/components/Login.jsx:7-11 | the name does not depend on the password |
| `DisplayName.SignupName` | frontend/src/components/Signup.jsx:10 | the name is never empty; a username that is not all whitespace gives its trimmed form, whatever the email, with no whitespace at either end; a blank username gives the Login name of the email |
| `DisplayName.SignupNameIgnoresPassword` | frontend/src/components/Signup.jsx:8-11 | the name does not depend on the password |

## Left out

- JSX rendering is left out because it is presentation: the stat cards, the table, the modal markup, and opening and closing the dropdown (the `optionsTaskId` toggle and the document `mousedown` listener).
- The `onChange` handlers of the form fields, the search box and the status selector are left out because they are UI events. The search term and the filter are parameters of `Filtered`. The form is a field that a caller may set.
- `window.confirm` is a user dialog. It becomes the `confirmed` parameter of the delete handlers.
- The load from and save to `localStorage` in the offline dashboard are browser I/O, and so is the token read in the server-backed one.
- The `axios` calls, their URLs and their `Authorization` headers are network I/O. Each call becomes a `Response` parameter, and `console.error` logging is left out.
- The model assumes that server answers are task records. The extra fields the server may add (owner, timestamps) are not modelled.
- Each async handler runs atomically on the current state. The source's handlers rebuild the list from the `tasks` captured at render time. So two requests in flight can overwrite each other's update, and that interleaving is not modelled.
- `TaskList.CompletionRate`: the floating-point `Math.round((completedCount / total) * 100)` is modelled as exact half-up rounding, `(200c + t) div 2t`. The two differ when 100·c/t is exactly k + ½ and the double product falls just below it: for 23 of 40 tasks `(23 / 40) * 100` is `57.49999999999999`, so the source shows 57 % where the model gives 58 %. In those cases the model's rate is one more than the source's.
- `Date.now()` is a clock read. The id is the `id` parameter of `HandleAdd`, and it need not be unique.
- `Text.Lower`: `toLowerCase` is modelled for ASCII letters only, because full Unicode case mapping is out of scope. `trim` uses ECMAScript's exact set of WhiteSpace and LineTerminator code points.
- The `username` prop and `onSignOut` carry no logic of their own.
- `src/components/Login.jsx`, `frontend/src/App.jsx` and `src/main.jsx` are left out: a network login with storage writes, view switching, and the React bootstrap.
- `backend/routes/taskRoutes.js` only wires routes. The task controller and the authentication middleware it refers to are not part of this model, so credential checks and ownership scoping are not modelled.
