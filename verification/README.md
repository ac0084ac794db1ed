# Complaint tracker request logic, modelled in Dafny

This project models the request logic of a small Flask and SQLite complaint tracker. Users register with a name, an email and a role (`usuario` or `admin`). They log in by email alone and file complaints (`reclamos`). An administrator answers a complaint with a response (`respuesta`), and answering marks the complaint `resuelto`.

The model is an abstract state machine. The state is the three tables that `init_db` creates, plus the session of one browser. Each route handler is a pure function from the state and the request's inputs to the next state and an outcome. An outcome is a redirect, a rendered page carrying the rows it shows, or an uncaught exception (`KeyError` or `OverflowError`). Each outcome also carries the flash message the handler queued.

- `schema.dfy` (module `Schema`): rows, tables with their AUTOINCREMENT counter, the CHECK and UNIQUE constraints, the session, `init_db`, and the invariant `Valid`.
- `store.dfy` (module `Store`): the SQLite statements the handlers rely on. These are filtered `SELECT` in natural order, `fetchone`, AUTOINCREMENT `INSERT`, the constrained insert into `usuarios` that raises `IntegrityError`, and the status `UPDATE`.
- `handlers.dfy` (module `Handlers`): `index`, `registro`, `login`, `logout`, `nuevo_reclamo`, `reclamo_detalle` and `responder`. A form argument of `None` stands for a GET, `Some(form)` for a POST.
- `machine.dfy` (module `Machine`): the request datatype, `Step` and `Run`, and lemmas over traces. These cover preservation of the invariant, the tables only growing, and no complaint ever being reopened. They also cover end-to-end behaviours: duplicate registration, listing after filing, and the detail page after a response.

Semantics the model makes explicit:

- The session is `Option<Identity>`. Login writes `usuario_id`, `tipo` and `nombre` together, and logout clears them all. No other code writes these keys, so a session holds either all three or none.
- SQLite evaluates CHECK before UNIQUE. When both fail, the model reports the role violation. The handler treats the two the same way.
- A rejected INSERT leaves its table unchanged, AUTOINCREMENT counter included.
- A new id is one past the table's counter. Rows are never deleted, so this is the id SQLite's AUTOINCREMENT hands out.
- The `UPDATE` writes `"resuelto"` in double quotes. SQLite reads a double-quoted name that matches no column as a string literal, so the status becomes `resuelto`.
- Foreign keys are not enforced. The app never turns on `PRAGMA foreign_keys`, and SQLite's default is off. A response to an id with no complaint is therefore stored (see `Machine.OrphanResponseAdopted`).
- The clock is an input (`Timestamp`, an opaque string). Route ids are `nat` because Flask's `int` converter accepts no negative numbers.
- Flask's `int` converter accepts ids of any size. sqlite3 binds only signed 64-bit integers, so a route id above 2^63-1 raises `OverflowError` at the first query that binds it, before any write.
- `init_db` issues three separate `CREATE TABLE IF NOT EXISTS`. Each missing table is created empty, and each existing table keeps its rows.

Behaviour the model takes from the code where a reader might expect otherwise:

- A failed login leaves the session as it was. If the browser was logged in, it stays logged in as the earlier user; it does not become anonymous.
- Registration shows the same "email already registered" message when the role is invalid as when the email is taken.
- The detail page's responses have no `ORDER BY`. The model takes SQLite's natural rowid order.

## Model

| member | source | states |
|---|---|---|
| Schema.ParseRole | app.py:25 | A role text is admitted exactly when it is the stored text of some role; every other text is rejected |
| Schema.ParseRoleText | app.py:25 | Each role's stored text passes the CHECK and parses back to that role |
| Schema.InitDb | app.py:17-49 | Each missing table is created empty with its counter at zero, and each existing table keeps its rows and counter; a fresh file and a valid database both yield a valid database |
| Schema.InitDbIdempotent | app.py:20-47 | Running schema creation on its own result changes nothing |
| Store.Select | app.py:64 | A WHERE query returns exactly the rows satisfying the filter: each returned row is stored and matches, and each stored matching row is returned |
| Store.SelectAppend | app.py:143 | A filtered query over rows added later returns the earlier matches followed by the new ones, so results keep insertion order |
| Store.SelectAscending | app.py:64 | Filtering rows whose ids ascend keeps the ids ascending, so each row is listed once and in id order |
| Store.First | app.py:142 | fetchone yields no row exactly when no row matches; otherwise it yields a stored row that matches |
| Store.Insert | app.py:22 | An AUTOINCREMENT insert appends one row under an id above the table's counter; that id is fresh and the table stays well keyed |
| Store.UserByEmail | app.py:96 | The email lookup finds nothing exactly when no user has the email; when emails are unique it finds the only user who has it |
| Store.InsertUser | app.py:21-26 | The user insert succeeds exactly when the role passes the CHECK and the email is unused, and then appends that user; a bad role is a CHECK violation; success keeps ids and emails unique |
| Store.MarkResolved | app.py:160 | The status UPDATE keeps every row in place with its id; rows with the given id become resolved with their other columns kept; all other rows are unchanged |
| Handlers.Index | app.py:54-66 | Without a login: a redirect to login that shows nothing. An admin sees every complaint; a regular user sees exactly the complaints they own, each once and in id order. Nothing changes |
| Handlers.Register | app.py:71-87 | An admissible POST appends one user with the submitted fields and a fresh id, then redirects to login. Any other POST re-renders the form with the same message and no change. The session never changes |
| Handlers.Login | app.py:92-105 | A known email sets the session to a user with that email, and to the only such user when emails are unique. An unknown email leaves the state unchanged with a not-found message. The database is never written |
| Handlers.Logout | app.py:110-112 | The session is cleared whatever it held; the tables are unchanged; a redirect to login follows |
| Handlers.NewComplaint | app.py:117-135 | Without a login: a redirect with no change. With one, a POST appends one complaint with the session's user as owner, the submitted texts verbatim, the supplied time, status Pendiente and a fresh id. Users, responses and session are unchanged |
| Handlers.Detail | app.py:139-145 | No login is needed and nothing changes. An id above 2^63-1 raises OverflowError. Otherwise it shows the complaint with the id, or none exactly when no complaint has it, and exactly the responses filed under that id, each once and in id order |
| Handlers.Respond | app.py:149-164 | With no login: a KeyError on `tipo` and no change. A non-admin gets a redirect with a permission message and no change. For an admin, an id above 2^63-1 raises OverflowError with no change; any other id gets the response appended with a fresh id, and that complaint only is resolved |
| Machine.RegisterPreservesValid | app.py:79-84 | Registration keeps ids well keyed, emails unique, owners existing and the session pointing at a real user |
| Machine.NewComplaintPreservesValid | app.py:125-131 | Filing keeps the invariant; the new complaint's owner is an existing user |
| Machine.RespondPreservesValid | app.py:157-161 | Responding keeps the invariant; in particular every resolved complaint has at least one response |
| Machine.StepPreservesValid | app.py:53-164 | Every handler keeps the database and session invariant |
| Machine.RunPreservesValid | app.py:53-164 | Every trace of requests from a valid state ends in a valid state |
| Machine.ReachableValid | app.py:17-49 | Every state reachable from the freshly created schema with no login is valid |
| Machine.StepEvolves | app.py:53-164 | No handler deletes a row, edits a user or response, or changes a complaint column other than the status |
| Machine.EvolvesTransitive | app.py:53-164 | Table evolution composes across consecutive requests |
| Machine.RunEvolves | app.py:160 | Over any trace, users and responses are only appended, roles never change, and no resolved complaint returns to Pendiente |
| Machine.ResolvedOnlyByAdmin | app.py:151-160 | A complaint moves from Pendiente to Resuelto only through an admin's response to its id, and that request files a response under the id |
| Machine.DuplicateRegistration | app.py:79-84 | After a successful registration, a second one with the same email is refused with no change; the first user can log in by that email |
| Machine.UnknownEmailStaysAnonymous | app.py:98-104 | A logged-out browser that tries an unknown email stays logged out, and the listing still redirects it to login |
| Machine.LogoutEndsAccess | app.py:111-112 | After logout, the listing redirects to login and responding raises KeyError; logging out twice equals logging out once |
| Machine.FiledComplaintIsListed | app.py:128-129 | A filed complaint appears at the end of its owner's listing, which is otherwise unchanged, and likewise at the end of an admin's listing |
| Machine.ResponseShownInDetail | app.py:158-160 | After an admin responds, the detail page lists the earlier responses followed by the new one; an existing complaint is shown resolved; an id above 2^63-1 fails both requests with no change |
| Machine.OrphanResponseAdopted | app.py:45 | A response filed under the id the next complaint will receive makes that complaint Pendiente yet already answered, provided that id is one sqlite3 can bind |

## Left out

- Flask plumbing is not modelled: routing, `request.form`, templates and `url_for`. Outcomes are abstract values.
- Flash messages are not modelled as stored data. Flask queues them in the session cookie, and `session.clear()` also drops any still pending. The model attaches each message to its outcome instead.
- A POST missing a form field makes Flask answer 400 Bad Request. The model's forms always carry every field.
- A GET to `/responder/<id>` is refused with 405 by routing. It is not modelled.
- Connections, commit and close are not modelled. Each handler's writes form one state update, and an unreachable or corrupt store is not modelled.
- `init_db` runs only when the file is started directly. The handlers assume all three tables exist; a missing table would raise `OperationalError` there.
- The clock is an input. `datetime.now().strftime` is not modelled.
- Concurrency is not modelled. That includes a crash between the two writes of `responder` and simultaneous admins.
- The model follows one browser's session. Other browsers are represented by logging out and in within the same trace.
- The fixed secret key, cookie signing and forged cookies are not modelled. Neither is the debug server.
- Foreign keys are assumed not enforced (SQLite's default). A build with enforcement on would reject orphan responses.
- Ids that AUTOINCREMENT hands out are unbounded. SQLite fails with `SQLITE_FULL` once its counter reaches 2^63-1; that is not modelled. Ids that arrive in a route are bounded (see `Handlers.Detail`, `Handlers.Respond`).
- Store.First: does not state that the row returned is the first match in natural order. The lookups use unique keys (ids, and emails under the invariant), so at most one row matches.
