# MyJobTracker front end — a verified model of its state logic

MyJobTracker is a browser front end for tracking job applications. It has a
login page backed by a cookie/JWT session, and a dashboard that lists,
creates, edits and deletes job-application records through a REST backend.
Almost all of it is markup and HTTP calls. This project models the few
pieces with real state logic. Each is a pure transition on an immutable
record. Each network request is an input parameter: `Success(value)` when
the promise resolved, `Failure` when it rejected.

- `Dashboard` (`dashboard.dfy`) models the record collection. The state is
  the job list, the edit target, the loading flag and the shared add/edit
  form. Its transitions are the fetch effect, create, begin edit, cancel,
  update, delete, and the submit dispatch on the truthiness of the edit
  target. Ids are integer JSON numbers or strings (`JsId`). `Truthy` follows
  JavaScript, so `0` and `""` are falsy. `===` is structural equality, so the
  number 1 and the string "1" differ.
- `Cookies` (`cookies.dfy`) models `document.cookie.split("; ")`, `find`
  with `startsWith("jwt=")`, and the truthiness test on the row it returns.
  `Join` is the partner of `Split`. The presence test is also characterised
  directly on the raw string: the string starts with `jwt=` or contains
  `"; jwt="`.
- `AuthContext` (`authcontext.dfy`) models the provider's flag together
  with the browser state the provider writes: the location and the cookie
  jar. The jar is a list of `name=value` rows, and `document.cookie` is
  their join. The module covers the startup check, `login`, and `logout`
  with both outcomes.
- `Login` (`login.dfy`) models the login page: its error banner and its
  inputs, the auth check on mount, and `handleSubmit`.
- `PrivateRoute` and `App` (`routing.dfy`) model the guard and the
  two-entry route table. `Resolve` combines them into a function of path and
  provider state. `Render` follows the guard's redirect. The cross-page
  flows (login, then logout) are stated here.

Two behaviours differ from what a reader might expect. First, logout is not
fail-open. The cookie, the flag and the location are cleared only when the
logout request resolves, and a rejected request leaves the user logged in
(`AuthContext.Logout`, `AuthContext.RejectedLogoutKeepsSession`). Second,
a delete does not remove "exactly one entry". It removes every entry with
that id (`Dashboard.RemoveId`). "Exactly one" holds only when the ids are
unique (`Dashboard.DeleteRemovesOne`).

## Model

| member | source | states |
|---|---|---|
| Dashboard.Init | src/pages/Dashboard.jsx:8-17 | The page starts with an empty list, no edit target, loading on, and a blank draft whose status is "Pending" and whose other fields are empty. |
| Dashboard.Truthy | src/pages/Dashboard.jsx:112-113 | An id is truthy exactly when it is neither the number 0 nor the empty string. |
| Dashboard.IsEditing | src/pages/Dashboard.jsx:112-113 | The form is in edit mode exactly when the edit target is set and is neither 0 nor the empty string. |
| Dashboard.Submit | src/pages/Dashboard.jsx:113 | A failed submit changes nothing. A successful one grows the list by one exactly when not in edit mode. In edit mode it puts the response at every index carrying the target, keeps the length, and clears the target. Otherwise it appends the response and keeps the target. Either way the draft resets. |
| Dashboard.InitialFetch | src/pages/Dashboard.jsx:8-28 | The initial state is an empty list, no edit target, loading on, and a blank draft with status "Pending". After the fetch, loading is off and the list is the response on success or still empty on failure. |
| Dashboard.Fetch | src/pages/Dashboard.jsx:20-28 | The fetch always ends loading. It replaces the list with the response only on success. It never touches the edit target or the form. |
| Dashboard.Create | src/pages/Dashboard.jsx:31-49 | A successful create grows the list by one. Earlier entries stay in place and the response is last. The form resets to the blank draft and the edit target is kept. A failed create changes nothing. |
| Dashboard.DraftOf | src/pages/Dashboard.jsx:54-60 | The draft holds exactly the record's five fields: with the record's id they rebuild the record. |
| Dashboard.BeginEdit | src/pages/Dashboard.jsx:52-61 | Begin-edit sets the edit target to the record's id. The form then holds exactly that record's fields. The list and the loading flag are unchanged. |
| Dashboard.Cancel | src/pages/Dashboard.jsx:132 | Cancel clears only the edit target and keeps the draft. Afterwards the form is not in edit mode. |
| Dashboard.ReplaceById | src/pages/Dashboard.jsx:77 | The length and order are kept. The response is at every index whose id is the target, and every other entry is unchanged. |
| Dashboard.Update | src/pages/Dashboard.jsx:64-83 | A successful update puts the response at every index whose id equals the edit target and keeps the rest. It clears the target and resets the draft. A failed update changes nothing. |
| Dashboard.RemoveId | src/pages/Dashboard.jsx:93 | A record survives exactly when its id differs from the deleted id. The length drops by the number of matching records. An absent id leaves the list unchanged. |
| Dashboard.Delete | src/pages/Dashboard.jsx:86-97 | A successful delete filters the list by id. The edit target, the form and the loading flag are never touched. A failed delete changes nothing. |
| Dashboard.ZeroIdCreates | src/pages/Dashboard.jsx:112-113 | Editing a record whose id is the number 0 and submitting appends a new record. The edit target stays 0. |
| Dashboard.CancelKeepsDraft | src/pages/Dashboard.jsx:113-132 | After begin-edit then cancel, the form still holds the record's fields and no target is set. The next submit therefore creates. |
| Dashboard.ReplaceIdempotent | src/pages/Dashboard.jsx:77 | Replacing by id twice with the same response gives the same list as replacing once. |
| Dashboard.ReplaceAbsent | src/pages/Dashboard.jsx:77 | Replacing a target that no record carries leaves the list unchanged. |
| Dashboard.UpdatePreservesUnique | src/pages/Dashboard.jsx:77 | Unique ids stay unique after an update whose response keeps the target's id. |
| Dashboard.RemoveAppend | src/pages/Dashboard.jsx:93 | Deletion distributes over concatenation, so survivors keep their relative order. |
| Dashboard.RemoveIdempotent | src/pages/Dashboard.jsx:93 | Deleting the same id twice equals deleting it once. |
| Dashboard.UniqueCons | src/pages/Dashboard.jsx:93 | A record put in front of a list with unique ids keeps them unique when no record of the list shares its id. |
| Dashboard.RemovePreservesUnique | src/pages/Dashboard.jsx:93 | Deletion keeps unique ids unique. |
| Dashboard.DeleteRemovesOne | src/pages/Dashboard.jsx:86-97 | With unique ids, deleting a present id shortens the list by exactly one. |
| Dashboard.CreateThenDelete | src/pages/Dashboard.jsx:44-93 | Creating a record with a fresh id and then deleting that id restores the original list. |
| Dashboard.DanglingEdit | src/pages/Dashboard.jsx:52-97 | Deleting the record under edit keeps the dangling edit target. The next successful submit still updates, but it matches nothing: the list stays as the delete left it and the target is cleared. |
| Cookies.Split | src/context/AuthContext.jsx:12 | A split yields at least one row, and joining the rows with `"; "` (`Join`, the inverse) gives back the original cookie string. |
| Cookies.FindSessionRow | src/context/AuthContext.jsx:12 | `find` returns nothing exactly when no row starts with `jwt=`. Otherwise it returns the first row that does. |
| Cookies.SplitFirst | src/context/AuthContext.jsx:12 | The first split row is a separator-free prefix of the string. It is either the whole string, or a `"; "` follows it and the remaining rows are the split of the rest. |
| Cookies.SplitJoin | src/context/AuthContext.jsx:12 | Splitting the `Join` of a non-empty list of separator-free rows gives back the rows. With `Split`'s own contract this makes `Join` and `Split` mutual inverses. |
| Cookies.FoundRowTruthy | src/context/AuthContext.jsx:12-13 | `find` returns a truthy row exactly when some row starts with `jwt=`: a found row is never empty. |
| Cookies.HasSessionCookie | src/context/AuthContext.jsx:12-14 | The truthiness test on the found row accepts exactly when some split row starts with `jwt=`. |
| Cookies.SessionCookieScan | src/context/AuthContext.jsx:12-14 | The check accepts exactly when the raw cookie string starts with `jwt=` or contains `"; jwt="`. |
| Cookies.EmptyValueCounts | src/context/AuthContext.jsx:12-14 | A `jwt=` row with an empty value counts as a session. |
| Cookies.LaterRowCounts | src/context/AuthContext.jsx:12-14 | A `jwt=` row after a proper `"; "` separator counts. |
| Cookies.LongerNameRejected | src/context/AuthContext.jsx:12 | `xjwt=1` does not count: the match is a prefix match, not a substring match. |
| Cookies.MissingSpaceRejected | src/context/AuthContext.jsx:12 | `a=1;jwt=2` does not count: a `;` without the space is not a separator. |
| Cookies.JarHasSession | src/context/AuthContext.jsx:11-16 | For a jar of separator-free rows, the check on its cookie string accepts exactly when some row starts with `jwt=`. |
| AuthContext.InitialSession | src/context/AuthContext.jsx:8 | The provider starts unauthenticated, with the browser's location and cookies as they are. |
| AuthContext.StartupCheck | src/context/AuthContext.jsx:11-16 | The startup check can only set the flag, never clear it. The flag afterwards is the old flag or the cookie test. The location and cookies are unchanged. |
| AuthContext.StartupFromJar | src/context/AuthContext.jsx:8-16 | The flag starts false. After the startup check it is true exactly when the jar holds a `jwt=` row. |
| AuthContext.Login | src/context/AuthContext.jsx:18-21 | `login` sets the flag and the location "/dashboard" and leaves the cookies alone. |
| AuthContext.LoginIdempotent | src/context/AuthContext.jsx:18-21 | Calling `login` twice gives the same state as calling it once. |
| AuthContext.SessionRowCount | src/context/AuthContext.jsx:31 | The number of `jwt=` rows is at most the jar's length, and zero exactly when no row starts with `jwt=`. |
| AuthContext.RemoveSessionCookies | src/context/AuthContext.jsx:31 | Expiring the cookie removes exactly the `jwt=` rows and keeps every other row. The length drops by exactly the number of `jwt=` rows. A jar with no `jwt=` row is unchanged. Multiplicity is stated by `RemoveSessionMultiset` and order by `RemoveSessionAppend`. |
| AuthContext.RemoveSessionMultiset | src/context/AuthContext.jsx:31 | Every row that does not start with `jwt=` is kept as many times as the jar holds it, and no `jwt=` row is kept. |
| AuthContext.RemoveSessionAppend | src/context/AuthContext.jsx:31 | Expiring distributes over concatenation: each row is kept or dropped on its own, and the kept rows stay in their original order. |
| AuthContext.Logout | src/context/AuthContext.jsx:23-38 | A resolved logout clears the flag, goes to "/" and removes the `jwt` cookie. A rejected logout changes nothing. |
| AuthContext.LogoutIgnoresStatus | src/context/AuthContext.jsx:25-34 | The outcome of a resolved logout is the same whatever HTTP status came back. |
| AuthContext.LogoutEndsSession | src/context/AuthContext.jsx:25-34 | After a resolved logout the cookie string has no `jwt=` row, so a fresh startup comes up logged out. Every other cookie survives. |
| AuthContext.RejectedLogoutKeepsSession | src/context/AuthContext.jsx:35-37 | A rejected logout leaves a logged-in user logged in and at the same location. |
| Login.InitialState | src/pages/Login.jsx:8-10 | The page starts with empty inputs and no error, under the provider state it is given. |
| Login.LogInAndNavigate | src/pages/Login.jsx:30-31 | `login()` then the navigation set the flag and the location "/dashboard", and leave the cookies and the form alone. |
| Login.AuthCheck | src/pages/Login.jsx:15-22 | A resolved auth check logs in and lands on "/dashboard" without touching the form or the cookies. A rejected one changes nothing. |
| Login.Submit | src/pages/Login.jsx:24-36 | Submit never changes the inputs. On success the error is cleared, the flag is set and the location is "/dashboard". On any failure the error is exactly "Invalid credentials. Please try again." and the session is unchanged. |
| Login.SubmitForgetsError | src/pages/Login.jsx:26 | Submit clears the previous error first, so the result does not depend on the error shown before. |
| Login.RetryAfterFailure | src/pages/Login.jsx:24-36 | A failed attempt keeps the inputs. A following successful attempt clears the message and logs in. |
| Login.AutoLogin | src/pages/Login.jsx:15-22 | On a fresh page a resolved auth check reaches the dashboard with no submit and no error. A rejected one leaves the fresh page, and its flag, as they were. |
| PrivateRoute.Guard | src/components/PrivateRoute.jsx:8 | When authenticated the guard yields exactly its children. Otherwise it yields a redirect to "/" and never the children. |
| PrivateRoute.GuardReadsOnlyFlag | src/components/PrivateRoute.jsx:5-8 | The guard's result depends on the flag alone, not on the location or the cookies. |
| App.Route | src/App.jsx:11-14 | "/" maps exactly to the unguarded Login element, "/dashboard" exactly to Dashboard inside the guard, and every other path to no element. |
| App.Resolve | src/App.jsx:11-14 | "/" shows Login whatever the flag. "/dashboard" shows Dashboard exactly when authenticated and otherwise redirects to "/". Every other path matches nothing. |
| App.Render | src/App.jsx:11-14 | After at most one redirect, no redirect is left. The location stays where it was, or moves to "/" only when the guard redirected. Dashboard shows exactly at "/dashboard" when authenticated. Login shows exactly at "/", or at "/dashboard" when not authenticated. |
| App.LoginAlwaysReachable | src/App.jsx:12 | "/" resolves to Login for both values of the flag. |
| App.DashboardVisit | src/App.jsx:13 | A visit to "/dashboard" without a session ends at Login on "/" after one redirect. With a session it shows Dashboard in place. |
| App.LoginSubmitShowsDashboard | src/pages/Login.jsx:29-31 | After a successful login submit the router shows Dashboard. |
| App.FailedLoginStaysOut | src/pages/Login.jsx:32-35 | After a failed login a logged-out user asking for the dashboard still ends at Login. |
| App.LogoutFromDashboard | src/context/AuthContext.jsx:23-38 | A resolved logout from the dashboard shows Login, and the dashboard is guarded again. After a rejected one the dashboard stays on screen. |

## Left out

- Markup, styling, the loading text, the table, and the `notes || "—"` display fallback are rendering with no state logic.
- HTTP details are left out: URLs, `VITE_*` configuration, the `X-API-KEY` header and `withCredentials`. Each request is only its settled outcome.
- `console.error` logging on the failure paths is not modelled; it has no effect on state.
- Async interleaving is left out. The handlers capture `jobs` when they start, so two overlapping requests can lose an update. Double submits and unmounting mid-request are also left out. Each handler is one atomic step on the current state.
- The browser's `required` checks on the inputs are left out. The model's submit accepts any draft and any credentials.
- The `onChange` bindings that copy typed text into the form or the login inputs are left out. The form's contents are part of the state, and typing is not a transition.
- The successful fetch's response is assumed to be a list of records. The model does not consider a payload of any other shape.
- Ids are integers or strings. Non-integer numbers, `NaN`, `null` and missing ids are not modelled. Notes are always a string, never absent.
- `appliedDate` and `status` are opaque strings. No date arithmetic is done, and the status values of the drop-down are not enforced.
- Cookie attributes (`path`, `max-age`) are not modelled. Expiring the cookie removes its rows from the jar. The server setting a cookie during a session is not modelled.
- React state batching and effect scheduling are left out. Route matching is exact, with no trailing-slash or case normalisation. Navigation history (push vs. replace) is not modelled. The location is a plain string.
- Unmounting and remounting a page on a route change (discarding its state and re-running its mount effect) is not modelled. Each page's state is modelled on its own.
