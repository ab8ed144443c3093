# TODO server: data and authorization layer

This project models the server side of a small multi-user TODO application. The application has three tables:

- users, holding a username, an email and a password hash;
- todo_lists, each owned by a user;
- tasks, each under a list, with a completed flag.

An Express server handles register and login, which hand out a signed token. The other routes require that token in an `Authorization: Bearer <token>` header. Every route that reads or changes lists and tasks is scoped to the caller's own lists.

The model is an in-memory store. Each table is a sequence of rows. Each table has an AUTOINCREMENT counter, and a creation clock moves forward on every insert.

There are four modules:

- `Schema` (`schema.dfy`):
  - the rows, the error answers (status and message) and the public records;
  - the table invariants:
    - ids increase from 1 along each table and stay below the counter;
    - creation stamps increase along each table and stay below the clock;
    - usernames and emails are unique;
    - every task's list exists.
- `Auth` (`auth.dfy`):
  - the token taken out of the Authorization header (JavaScript's `split(' ')[1]`);
  - the password hash and the token library, injected as a `Crypto` value;
  - the `authenticateToken` middleware.
- `Queries` (`queries.dfy`):
  - the handlers that only read, as functions over the tables: login, list the caller's lists, and read one list with its tasks;
  - the toggle UPDATE as a function, together with the handler's answer.
- `Store` (`store.dfy`):
  - class `TodoStore`, whose methods change the tables in place: register, create a list, add a task, toggle a task;
  - three client sessions that use these methods.

Each handler takes the caller's user id, which `Auth.Authenticate` yields from the header. A request the middleware refuses never reaches a handler, so it changes nothing.

## Model

| member | source | states |
|---|---|---|
| Schema.PublicIgnoresHash | server.js:97 | The user record answered by register and login does not depend on the stored password hash: rows differing only in that column answer the same record. |
| Schema.PresentIsTruthy | server.js:78-80 | The `!field` checks (lines 78, 109, 158 and 220) refuse an absent field and the empty string and pass every other string. |
| Schema.OrEmpty | server.js:164 | `description \|\| ''` is the field when it is truthy and `""` when it is absent or empty. |
| Schema.UsersWellFormedPairwise | server.js:24-30 | In the users table as the inserts build it: ids lie between 1 and the next id; stamps lie below the clock; ids and stamps strictly increase along the table; no two rows share a username or an email (the UNIQUE columns). |
| Schema.ListsWellFormedPairwise | server.js:33-40 | In the todo_lists table: ids lie between 1 and the next id; stamps lie below the clock; ids and stamps strictly increase along the table. |
| Schema.TasksWellFormedPairwise | server.js:43-51 | The same facts hold for the tasks table. |
| Schema.InsertUserWellFormed | server.js:85-87 | Inserting a user with the next id, the current clock, and a username and email no row has keeps the users invariant, with the counter and the clock each moved on by one. |
| Schema.InsertUserWellFormedIffFresh | server.js:85-91 | On a well-formed users table, inserting the next row keeps the table well formed exactly when no row has its username or email. |
| Schema.InsertListWellFormed | server.js:162-164 | Inserting a list with the next id and the current clock keeps the lists invariant, with the counter and the clock moved on by one. |
| Schema.InsertTaskWellFormed | server.js:237-239 | Inserting a task with the next id and the current clock keeps the tasks invariant, with the counter and the clock moved on by one. |
| Schema.ParentsExistMoreLists | server.js:162-164 | Inserting a list keeps the tasks-to-lists foreign key. |
| Schema.UsersWellFormedUnique | server.js:26 | A users table built by the inserts has unique usernames. |
| Schema.ListsWellFormedFacts | server.js:33-40 | A lists table built by the inserts has unique ids and is oldest first. |
| Schema.TasksWellFormedFacts | server.js:43-51 | A tasks table built by the inserts has unique ids and is oldest first. |
| Schema.InsertTaskParents | server.js:50 | A task inserted under an existing list keeps the tasks-to-lists foreign key. |
| Auth.Split | server.js:57 | `split` always yields at least one piece. |
| Auth.JoinSplit | server.js:57 | Joining the pieces back with the separator gives the original string. |
| Auth.SplitPiecesLackSep | server.js:57 | No piece contains the separator. |
| Auth.BearerToken | server.js:56-61 | An absent or empty header is refused with 401 "Access token required", and every refusal is that error. An extracted token is never empty. |
| Auth.BearerTokenOfHeader | server.js:56-61 | A header made of a word without spaces, a space, a non-empty word without spaces, and then nothing or a space yields exactly that second word. |
| Auth.BearerTokenIsSecondWord | server.js:56-61 | Conversely, every extracted token is such a second word of the header. |
| Auth.Authenticate | server.js:55-70 | Without a token the answer is 401. A token that does not verify gets 403 "Invalid token". A token that verifies is accepted, and the claims are exactly what it verifies to. |
| Auth.IssuedTokenAuthenticates | server.js:63-69 | A token the server signed, sent back as `Bearer <token>`, authenticates as the signed claims. |
| Queries.Reverse | server.js:143 | The result is the input read from its end: same length, and row `i` is row `n-1-i` of the input. |
| Queries.FindUser | server.js:113-115 | Returns a row with that username when one exists, and None exactly when no row has it. |
| Queries.FindUserUnique | server.js:113-123 | When usernames are unique, the lookup finds the one user of that name. |
| Queries.Login | server.js:106-138 | A missing field gives 400 "Username and password are required". Any other refusal is 400 "Invalid credentials". A success is the answer issued for a stored user with that username whose hash matches the password. |
| Queries.LoginExactly | server.js:109-132 | When usernames are unique, an unknown name is refused with "Invalid credentials". For a known name, login succeeds with that user exactly when the password matches, and is refused otherwise. |
| Queries.LoginAfterRegister | server.js:113-132 | After a user is registered, login with that name and password answers with that user, and the token it hands out authenticates as that user. |
| Queries.LoginTokenAuthenticates | server.js:131-132 | Whenever login succeeds, its token authenticates as the id and username of the user record it answers with. |
| Queries.ListsOwnedBy | server.js:143 | A list is in the result exactly when it is in the table and owned by the user. An oldest-first table gives an oldest-first result. |
| Queries.ListTodoLists | server.js:141-152 | GET /api/todolists answers exactly the caller's lists, and no other user's list appears. They come newest first whenever the table is oldest first, which the clock guarantees. |
| Queries.FindOwnedList | server.js:188-190 | A row found has that id and belongs to the caller. None is returned exactly when the caller owns no list with that id. |
| Queries.TasksOfList | server.js:200-202 | A task is in the result exactly when it is in the table under that list. An oldest-first table gives an oldest-first result. |
| Queries.GetTodoList | server.js:185-213 | The answer is 404 "Todo list not found" exactly when the caller owns no list with that id. Otherwise it is that owned list together with exactly the tasks whose todo_list_id is that id, newest first. |
| Queries.GetTodoListUnique | server.js:188-190 | When list ids are unique, the list answered is the only row of `todo_lists` with that id. |
| Queries.GetTodoListIsolation | server.js:188-198 | A list id that belongs to someone else gets the same 404 as an unknown id. Every task shown is in a list the caller owns. |
| Queries.FindTask | server.js:280-282 | A row found has that id. None is returned exactly when no row has it. |
| Queries.FindTaskAt | server.js:280-282 | When ids are unique, reading a row back by its id finds that row. |
| Queries.SelectedIffOwnedList | server.js:266-269 | The UPDATE's WHERE clause with its subquery selects a row exactly when it has that id and its list is a list of `todo_lists` owned by the caller. |
| Queries.Flip | server.js:266 | Only the completed flag changes, and it is negated. |
| Queries.ToggleRows | server.js:265-270 | The UPDATE keeps the table's length. It flips exactly the rows with that id whose list the caller owns, and leaves every other row as it was. |
| Queries.Changes | server.js:276 | `this.changes` is 0 exactly when the UPDATE selected no row. |
| Queries.ToggleUnchangedIffNoChanges | server.js:265-278 | The UPDATE left the table as it was exactly when it changed no row. |
| Queries.ToggleFlipsOne | server.js:265-270 | When ids are unique and row `i` is selected, the UPDATE counts exactly one change and the new table is the old one with only row `i` flipped. |
| Queries.ChangesUnique | server.js:265-276 | When ids are unique, at most one row changes, and one does exactly when some row is selected. |
| Queries.ToggledRow | server.js:276-289 | After an UPDATE that changed rows, the task read back by id exists. When ids are unique, it is the one selected row flipped. |
| Queries.Toggle | server.js:262-292 | The new table is the UPDATE's result. The answer is 404 "Task not found" exactly when no task is selected, and the table is then unchanged. Otherwise, with unique ids, exactly one selected row `i` is flipped and the answer is that row after the flip. |
| Queries.ToggleTwice | server.js:266-269 | Running the UPDATE twice restores the table. |
| Queries.ChangesAfterToggle | server.js:265-276 | A second UPDATE selects as many rows as the first. |
| Queries.ToggleSelects | server.js:265-289 | When ids are unique and row `i` is selected, the handler answers row `i` flipped, and the table has only that row flipped. |
| Queries.ToggleHandlerTwice | server.js:262-292 | Toggling the same task twice through the handler works as follows: the second request succeeds exactly when the first did; it answers the flag flipped back, which is the original row; and the tasks table ends as it was before the first request. |
| Queries.ToggleOnTable | server.js:262-292 | On a tasks table the inserts built, the toggle keeps the invariant and the foreign key. A refusal is 404 with the table unchanged. A success flips exactly one row and answers that row. |
| Queries.ToggleIsolation | server.js:267-269 | No toggle by a caller changes a task whose list the caller does not own. |
| Queries.ToggleKeepsTable | server.js:43-51 | The toggle keeps the tasks invariant and the foreign key. |
| Store.TodoStore.constructor | server.js:22-52 | A new database has empty tables, counters at 1 and the clock at 0, and satisfies the invariant. |
| Store.TodoStore.Register | server.js:75-103 | A missing field gives 400 "All fields are required" and changes nothing. A username or email already present gives 400 "Username or email already exists" and changes nothing. Otherwise exactly one user is appended, with the next id, the password's hash and the current clock, and the answer is that user's token and public record. After a success, logging in with the same name and password gives the same answer (see `Auth.Crypto` under Left out for the token). The invariant is kept. |
| Store.TodoStore.CreateTodoList | server.js:155-182 | A missing title gives 400 "Title is required" and changes nothing. Otherwise exactly one list owned by the caller is appended, with the next id and the description defaulting to "", and the answer is that row. |
| Store.TodoStore.AddTask | server.js:216-259 | A missing title gives 400 "Task title is required" and changes nothing. A list the caller does not own gives 404 "Todo list not found" and changes nothing. Otherwise exactly one task is appended under that list, not completed, with the description defaulting to "", and the answer is that row. |
| Store.TodoStore.ToggleTask | server.js:262-292 | The answer and the new tasks table are those of `Queries.Toggle` on the old table. A refusal is 404 "Task not found" with the tasks unchanged. A success flips exactly one row of the old table and answers it. Nothing else changes, and the invariant is kept. |
| Store.TakenIffClash | server.js:85-91 | On a well-formed users table, register refuses a username or email exactly when inserting the row would break the UNIQUE constraints. |
| Store.RegisterOnTable | server.js:85-132 | For a name and email not taken, the insert keeps the users table well formed, and a later login with that name and password answers with the new user. |
| Store.ValidReads | server.js:141-213 | On a store that keeps its invariant: usernames are unique, so login finds the one user of a name; the lists answered by GET /api/todolists come newest first; the list answered by GET /api/todolists/:id is the only row with that id, and its tasks come newest first. |
| Store.ExampleSession | server.js:75-292 | In a session that registers, creates a list, adds a task and toggles it twice: the task gets id 1 and starts not completed; the first toggle completes it; the second toggle returns the task as it was added. |
| Store.DuplicateSession | server.js:85-92 | Registering a taken username again is refused with "Username or email already exists", and the table still holds one user. |
| Store.IsolationSession | server.js:141-277 | A second user sees none of the first user's lists. Reading, extending or toggling the first user's list or task gets the 404 answers. |

## Left out

- Express wiring is not modelled: middleware, CORS, body parsing, static files and `app.listen` are framework glue. The browser client `script.js` is not part of this model.
- Every 500 "Database error" or "Server error" branch is left out. These come only from failures of sqlite, bcrypt or the runtime.
- sqlite I/O and callback asynchrony are not modelled. Each handler is one atomic step, so concurrent requests are not modelled.
- Auth.Matches: bcrypt's salted hash and compare are modelled as a deterministic function `hash` with `compare(pw, digest) == (hash(pw) == digest)`. The hashing algorithm itself is not modelled.
- Auth.Sound: the token library is assumed to verify what it signed back to the same claims, and a signed token is one non-empty word with no space. Token expiry, the secret and the JWT format are not modelled.
- Auth.Crypto: `sign` is a function of the claims alone. The `iat` issue time that jsonwebtoken embeds in every token is not modelled. So two tokens for the same user are equal here, and `req.user` carries no `iat`. In the server, a login in a later second gets a different token from the one register returned, yet it authenticates as the same claims.
- Auth.BearerToken: the first word of the header is not checked to be "Bearer", because the server does not check it either.
- The creation clock: `CURRENT_TIMESTAMP` is a counter that moves forward on every insert. Creation stamps therefore never tie, and ORDER BY created_at DESC is the reverse of table order.
- Ids in paths are integers. A non-numeric `:id` is not modelled, nor is SQLite's type affinity.
- Request bodies are modelled only as string fields that are present or absent. JSON values of other types are not modelled.
- Lists carry no foreign key to users. SQLite does not enforce foreign keys unless they are switched on, and the server never switches them on. The tasks-to-lists key is kept instead, because AddTask checks the list before inserting.
- Register: the insert fails when either the username or the email is taken. Which UNIQUE column failed is not modelled, because both give the same answer.
