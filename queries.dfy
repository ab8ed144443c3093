/** The read-only side of the handlers: the SELECT statements they run,
    as functions of the tables, and the UPDATE statement of the toggle as
    a function from the old tasks table to the new one. */
module Queries {
  import opened Schema
  import opened Auth

  /** The rows in the opposite order. */
  function Reverse<T>(s: seq<T>): (r: seq<T>)
    ensures |r| == |s|
    ensures forall i :: 0 <= i < |s| ==> r[i] == s[|s| - 1 - i]
  {
    if s == [] then [] else Reverse(s[1..]) + [s[0]]
  }

  lemma ReverseSameRows<T>(s: seq<T>)
    ensures forall x :: x in Reverse(s) <==> x in s
  {
    var r := Reverse(s);
    forall x | x in s ensures x in r {
      var i :| 0 <= i < |s| && s[i] == x;
      assert r[|s| - 1 - i] == x;
    }
  }

  // ---------------------------------------------------------------- users

  /** `SELECT * FROM users WHERE username = ?` read with `db.get`: the first matching row. */
  function FindUser(users: seq<User>, username: string): (r: Option<User>)
    ensures r.Some? ==> r.value in users && r.value.username == username
    ensures r.None? <==> forall u :: u in users ==> u.username != username
  {
    if users == [] then None
    else if users[0].username == username then Some(users[0])
    else FindUser(users[1..], username)
  }

  /** With usernames unique (the UNIQUE constraint), the lookup finds the one user of that name. */
  lemma {:induction false} FindUserUnique(users: seq<User>, u: User)
    requires UniqueUsernames(users) && u in users
    ensures FindUser(users, u.username) == Some(u)
  {
    if users[0] != u {
      assert UniqueUsernames(users[1..]) by {
        forall i, j | 0 <= i < j < |users| - 1
          ensures users[1..][i].username != users[1..][j].username
        {
          assert users[1..][i] == users[i + 1] && users[1..][j] == users[j + 1];
        }
      }
      assert u in users[1..];
      FindUserUnique(users[1..], u);
      assert users[0].username != u.username by {
        var k :| 0 <= k < |users| && users[k] == u;
        assert k != 0;
      }
    }
  }

  /** A user appended behind rows that do not have its name is what the lookup then finds. */
  lemma {:induction false} FindUserAppended(users: seq<User>, u: User)
    requires forall v :: v in users ==> v.username != u.username
    ensures FindUser(users + [u], u.username) == Some(u)
  {
    if users != [] {
      assert (users + [u])[1..] == users[1..] + [u];
      FindUserAppended(users[1..], u);
    }
  }

  /** POST /api/login. Both fields are required; then the user is looked up by
      name and the password compared with its stored hash; both failures give
      the same "Invalid credentials" answer. */
  function Login(users: seq<User>, username: Option<string>, password: Option<string>, c: Crypto): (r: Result<AuthResponse>)
    ensures !Present(username) || !Present(password) ==> r == Err(CredentialsRequired)
    ensures Present(username) && Present(password) && r.Err? ==> r == Err(InvalidCredentials)
    ensures r.Ok? ==> exists u :: u in users && u.username == username.value
                                  && Matches(c, password.value, u.password) && r.value == Issue(c, u)
  {
    if !Present(username) || !Present(password) then Err(CredentialsRequired)
    else
      match FindUser(users, username.value)
      case None => Err(InvalidCredentials)
      case Some(u) => if Matches(c, password.value, u.password) then Ok(Issue(c, u)) else Err(InvalidCredentials)
  }

  /** With unique usernames, login with both fields succeeds exactly when the
      named user exists and the password matches its hash, and then answers with
      that user; an unknown name is refused. */
  lemma LoginExactly(users: seq<User>, name: string, password: string, c: Crypto)
    requires UniqueUsernames(users) && name != "" && password != ""
    ensures (forall u :: u in users ==> u.username != name) ==>
              Login(users, Some(name), Some(password), c) == Err(InvalidCredentials)
    ensures forall u :: u in users && u.username == name ==>
              Login(users, Some(name), Some(password), c) ==
                (if Matches(c, password, u.password) then Ok(Issue(c, u)) else Err(InvalidCredentials))
  {
    forall u | u in users && u.username == name
      ensures Login(users, Some(name), Some(password), c) ==
                (if Matches(c, password, u.password) then Ok(Issue(c, u)) else Err(InvalidCredentials))
    {
      FindUserUnique(users, u);
    }
  }

  /** After a user is registered, logging in with its name and the password
      whose hash was stored answers with that user, and the returned token
      authenticates as it. */
  lemma LoginAfterRegister(users: seq<User>, u: User, password: string, c: Crypto)
    requires forall v :: v in users ==> v.username != u.username
    requires u.username != "" && password != "" && u.password == c.hash(password)
    requires Sound(c)
    ensures Login(users + [u], Some(u.username), Some(password), c) == Ok(Issue(c, u))
    ensures Authenticate(Some("Bearer " + Issue(c, u).token), c) == Ok(Claims(u.id, u.username))
  {
    FindUserAppended(users, u);
    IssuedTokenAuthenticates(c, Claims(u.id, u.username));
  }

  /** Whatever login answers, the token it hands out authenticates as the user
      record it answers with. */
  lemma LoginTokenAuthenticates(users: seq<User>, username: Option<string>, password: Option<string>, c: Crypto)
    requires Sound(c)
    ensures var r := Login(users, username, password, c);
      r.Ok? ==> Authenticate(Some("Bearer " + r.value.token), c) == Ok(Claims(r.value.user.id, r.value.user.username))
  {
    var r := Login(users, username, password, c);
    if r.Ok? {
      var u :| u in users && r.value == Issue(c, u);
      var resp := Issue(c, u);
      assert resp.token == c.sign(Claims(u.id, u.username));
      assert resp.user.id == u.id && resp.user.username == u.username;
      IssuedTokenAuthenticates(c, Claims(u.id, u.username));
    }
  }

  // ----------------------------------------------------------- todo lists

  /** `SELECT id FROM todo_lists WHERE user_id = ?`: the ids of the lists a user owns. */
  function OwnedListIds(lists: seq<TodoList>, userId: int): set<int>
  {
    set l | l in lists && l.userId == userId :: l.id
  }

  /** Keeping the first row in front of a filtered rest of an oldest-first table stays oldest first. */
  lemma ListsConsOldestFirst(lists: seq<TodoList>, rest: seq<TodoList>)
    requires lists != [] && forall l :: l in rest ==> l in lists[1..]
    requires ListsOldestFirst(lists[1..]) ==> ListsOldestFirst(rest)
    ensures ListsOldestFirst(lists) ==> ListsOldestFirst([lists[0]] + rest)
  {
    if ListsOldestFirst(lists) {
      forall l | l in rest ensures lists[0].createdAt < l.createdAt {
        var k :| 0 <= k < |lists[1..]| && lists[1..][k] == l;
        assert lists[k + 1] == l;
      }
    }
  }

  /** `SELECT * FROM todo_lists WHERE user_id = ?`, in table order. */
  function ListsOwnedBy(lists: seq<TodoList>, userId: int): (r: seq<TodoList>)
    ensures forall l :: l in r <==> l in lists && l.userId == userId
    ensures ListsOldestFirst(lists) ==> ListsOldestFirst(r)
  {
    if lists == [] then []
    else
      var rest := ListsOwnedBy(lists[1..], userId);
      if lists[0].userId == userId then
        ListsConsOldestFirst(lists, rest);
        [lists[0]] + rest
      else rest
  }

  /** GET /api/todolists: the caller's lists and no one else's, newest first
      (the creation clock increases along the table, so newest first is the
      reverse of table order). */
  function ListTodoLists(lists: seq<TodoList>, userId: int): (r: seq<TodoList>)
    ensures forall l :: l in r <==> l in lists && l.userId == userId
    ensures ListsOldestFirst(lists) ==> ListsNewestFirst(r)
  {
    var owned := ListsOwnedBy(lists, userId);
    ReverseSameRows(owned);
    Reverse(owned)
  }

  /** `SELECT * FROM todo_lists WHERE id = ? AND user_id = ?` read with `db.get`. */
  function FindOwnedList(lists: seq<TodoList>, listId: int, userId: int): (r: Option<TodoList>)
    ensures r.Some? ==> r.value in lists && r.value.id == listId && r.value.userId == userId
    ensures r.None? <==> listId !in OwnedListIds(lists, userId)
  {
    if lists == [] then None
    else if lists[0].id == listId && lists[0].userId == userId then Some(lists[0])
    else
      assert forall l :: l in lists[1..] ==> l in lists;
      FindOwnedList(lists[1..], listId, userId)
  }

  // ---------------------------------------------------------------- tasks

  /** Keeping the first row in front of a filtered rest of an oldest-first table stays oldest first. */
  lemma TasksConsOldestFirst(tasks: seq<Task>, rest: seq<Task>)
    requires tasks != [] && forall t :: t in rest ==> t in tasks[1..]
    requires TasksOldestFirst(tasks[1..]) ==> TasksOldestFirst(rest)
    ensures TasksOldestFirst(tasks) ==> TasksOldestFirst([tasks[0]] + rest)
  {
    if TasksOldestFirst(tasks) {
      forall t | t in rest ensures tasks[0].createdAt < t.createdAt {
        var k :| 0 <= k < |tasks[1..]| && tasks[1..][k] == t;
        assert tasks[k + 1] == t;
      }
    }
  }

  /** `SELECT * FROM tasks WHERE todo_list_id = ?`, in table order. */
  function TasksOfList(tasks: seq<Task>, listId: int): (r: seq<Task>)
    ensures forall t :: t in r <==> t in tasks && t.todoListId == listId
    ensures TasksOldestFirst(tasks) ==> TasksOldestFirst(r)
  {
    if tasks == [] then []
    else
      var rest := TasksOfList(tasks[1..], listId);
      if tasks[0].todoListId == listId then
        TasksConsOldestFirst(tasks, rest);
        [tasks[0]] + rest
      else rest
  }

  /** GET /api/todolists/:id: 404 unless the caller owns a list with that id;
      otherwise that list with exactly its tasks, newest first. */
  function GetTodoList(lists: seq<TodoList>, tasks: seq<Task>, listId: int, userId: int): (r: Result<ListWithTasks>)
    ensures r.Err? <==> listId !in OwnedListIds(lists, userId)
    ensures r.Err? ==> r.error == ListNotFound
    ensures r.Ok? ==> r.value.list in lists && r.value.list.id == listId && r.value.list.userId == userId
    ensures r.Ok? ==> forall t :: t in r.value.tasks <==> t in tasks && t.todoListId == listId
    ensures r.Ok? && TasksOldestFirst(tasks) ==> TasksNewestFirst(r.value.tasks)
  {
    match FindOwnedList(lists, listId, userId)
    case None => Err(ListNotFound)
    case Some(list) =>
      var own := TasksOfList(tasks, listId);
      ReverseSameRows(own);
      Ok(ListWithTasks(list, Reverse(own)))
  }

  /** Ownership isolation: a list id that exists but belongs to someone else
      answers 404 to the caller, as an unknown id does, and whatever a caller
      is shown is in a list the caller owns. */
  lemma GetTodoListIsolation(lists: seq<TodoList>, tasks: seq<Task>, listId: int, userId: int)
    ensures (forall l :: l in lists && l.id == listId ==> l.userId != userId) ==>
              GetTodoList(lists, tasks, listId, userId) == Err(ListNotFound)
    ensures GetTodoList(lists, tasks, listId, userId).Ok? ==>
              forall t :: t in GetTodoList(lists, tasks, listId, userId).value.tasks ==>
                exists l :: l in lists && l.id == t.todoListId && l.userId == userId
  {
  }

  /** With unique list ids, the list answered is the only row with that id. */
  lemma GetTodoListUnique(lists: seq<TodoList>, tasks: seq<Task>, listId: int, userId: int)
    requires UniqueListIds(lists)
    ensures GetTodoList(lists, tasks, listId, userId).Ok? ==>
              forall l :: l in lists && l.id == listId ==> l == GetTodoList(lists, tasks, listId, userId).value.list
  {
    var r := GetTodoList(lists, tasks, listId, userId);
    if r.Ok? {
      forall l | l in lists && l.id == listId ensures l == r.value.list {
        var a :| 0 <= a < |lists| && lists[a] == l;
        var b :| 0 <= b < |lists| && lists[b] == r.value.list;
        assert a == b;
      }
    }
  }

  /** `SELECT * FROM tasks WHERE id = ?` read with `db.get`. */
  function FindTask(tasks: seq<Task>, taskId: int): (r: Option<Task>)
    ensures r.Some? ==> r.value in tasks && r.value.id == taskId
    ensures r.None? <==> forall t :: t in tasks ==> t.id != taskId
  {
    if tasks == [] then None
    else if tasks[0].id == taskId then Some(tasks[0])
    else FindTask(tasks[1..], taskId)
  }

  /** With unique ids, reading a task back by its id finds exactly that row. */
  lemma {:induction false} FindTaskAt(tasks: seq<Task>, i: nat)
    requires UniqueTaskIds(tasks) && i < |tasks|
    ensures FindTask(tasks, tasks[i].id) == Some(tasks[i])
  {
    if i > 0 {
      assert tasks[0].id != tasks[i].id;
      assert UniqueTaskIds(tasks[1..]) by {
        forall a, b | 0 <= a < b < |tasks| - 1 ensures tasks[1..][a].id != tasks[1..][b].id {
          assert tasks[1..][a] == tasks[a + 1] && tasks[1..][b] == tasks[b + 1];
        }
      }
      FindTaskAt(tasks[1..], i - 1);
    }
  }

  // --------------------------------------------------------------- toggle

  /** The WHERE clause of the toggle: this task id, in one of the caller's lists. */
  predicate Selected(t: Task, owned: set<int>, taskId: int)
  {
    t.id == taskId && t.todoListId in owned
  }

  /** The WHERE clause read with its subquery: the row has that id and its
      list is a list of `todo_lists` owned by the caller. */
  lemma SelectedIffOwnedList(t: Task, lists: seq<TodoList>, userId: int, taskId: int)
    ensures Selected(t, OwnedListIds(lists, userId), taskId) <==>
              t.id == taskId && exists l :: l in lists && l.id == t.todoListId && l.userId == userId
  {
  }

  /** `SET completed = NOT completed` on one row. */
  function Flip(t: Task): (f: Task)
    ensures f.completed != t.completed
    ensures f.(completed := t.completed) == t
  {
    t.(completed := !t.completed)
  }

  /** `UPDATE tasks SET completed = NOT completed WHERE id = ? AND todo_list_id IN (...)`:
      every selected row is flipped and every other row is left as it was. */
  function ToggleRows(tasks: seq<Task>, owned: set<int>, taskId: int): (r: seq<Task>)
    ensures |r| == |tasks|
    ensures forall i :: 0 <= i < |tasks| ==> r[i] == if Selected(tasks[i], owned, taskId) then Flip(tasks[i]) else tasks[i]
  {
    if tasks == [] then []
    else [if Selected(tasks[0], owned, taskId) then Flip(tasks[0]) else tasks[0]] + ToggleRows(tasks[1..], owned, taskId)
  }

  /** `this.changes` of that UPDATE: the number of rows it selected. */
  function Changes(tasks: seq<Task>, owned: set<int>, taskId: int): (n: nat)
    ensures n <= |tasks|
    ensures n == 0 <==> forall t :: t in tasks ==> !Selected(t, owned, taskId)
  {
    if tasks == [] then 0
    else
      assert forall t :: t in tasks[1..] ==> t in tasks;
      (if Selected(tasks[0], owned, taskId) then 1 else 0) + Changes(tasks[1..], owned, taskId)
  }

  /** An UPDATE that changed no row left the table as it was; one that changed
      rows left a different table. */
  lemma ToggleUnchangedIffNoChanges(tasks: seq<Task>, owned: set<int>, taskId: int)
    ensures ToggleRows(tasks, owned, taskId) == tasks <==> Changes(tasks, owned, taskId) == 0
  {
    var r := ToggleRows(tasks, owned, taskId);
    if Changes(tasks, owned, taskId) != 0 {
      var t :| t in tasks && Selected(t, owned, taskId);
      var i :| 0 <= i < |tasks| && tasks[i] == t;
      assert r[i] != tasks[i];
    }
  }

  /** With unique task ids the UPDATE selects at most one row, and when it
      selects row `i` it flips that one flag and nothing else. */
  lemma ToggleFlipsOne(tasks: seq<Task>, owned: set<int>, taskId: int, i: nat)
    requires UniqueTaskIds(tasks) && i < |tasks| && Selected(tasks[i], owned, taskId)
    ensures ToggleRows(tasks, owned, taskId) == tasks[i := Flip(tasks[i])]
    ensures Changes(tasks, owned, taskId) == 1
  {
    ChangesUnique(tasks, owned, taskId);
  }

  lemma {:induction false} ChangesUnique(tasks: seq<Task>, owned: set<int>, taskId: int)
    requires UniqueTaskIds(tasks)
    ensures Changes(tasks, owned, taskId) <= 1
    ensures Changes(tasks, owned, taskId) == 1 <==> exists t :: t in tasks && Selected(t, owned, taskId)
  {
    if tasks != [] {
      assert UniqueTaskIds(tasks[1..]) by {
        forall a, b | 0 <= a < b < |tasks| - 1 ensures tasks[1..][a].id != tasks[1..][b].id {
          assert tasks[1..][a] == tasks[a + 1] && tasks[1..][b] == tasks[b + 1];
        }
      }
      ChangesUnique(tasks[1..], owned, taskId);
      if Selected(tasks[0], owned, taskId) {
        assert forall t :: t in tasks[1..] ==> t.id != taskId by {
          forall t | t in tasks[1..] ensures t.id != taskId {
            var k :| 0 <= k < |tasks[1..]| && tasks[1..][k] == t;
            assert tasks[k + 1] == t;
          }
        }
      }
    }
  }

  /** Flipping one row keeps the ids unique. */
  lemma FlipKeepsUniqueIds(tasks: seq<Task>, i: nat)
    requires UniqueTaskIds(tasks) && i < |tasks|
    ensures UniqueTaskIds(tasks[i := Flip(tasks[i])])
  {
    var after := tasks[i := Flip(tasks[i])];
    forall a, b | 0 <= a < b < |after| ensures after[a].id != after[b].id {
      assert after[a].id == tasks[a].id && after[b].id == tasks[b].id;
    }
  }

  /** When the UPDATE changed rows, the row read back by id exists; with unique
      ids it is the one selected row, flipped, and that is the only change. */
  lemma ToggledRow(tasks: seq<Task>, owned: set<int>, taskId: int)
    requires Changes(tasks, owned, taskId) != 0
    ensures FindTask(ToggleRows(tasks, owned, taskId), taskId).Some?
    ensures UniqueTaskIds(tasks) ==>
              exists i :: 0 <= i < |tasks| && Selected(tasks[i], owned, taskId)
                && ToggleRows(tasks, owned, taskId) == tasks[i := Flip(tasks[i])]
                && FindTask(ToggleRows(tasks, owned, taskId), taskId) == Some(Flip(tasks[i]))
  {
    var t :| t in tasks && Selected(t, owned, taskId);
    var i :| 0 <= i < |tasks| && tasks[i] == t;
    var after := ToggleRows(tasks, owned, taskId);
    assert after[i].id == taskId && after[i] in after;
    if UniqueTaskIds(tasks) {
      ToggleFlipsOne(tasks, owned, taskId, i);
      FlipKeepsUniqueIds(tasks, i);
      FindTaskAt(after, i);
    }
  }

  /** PUT /api/tasks/:id/toggle on the tables: the UPDATE, then 404 when it
      changed no row, otherwise the row read back by id. The answer comes with
      the tasks table the UPDATE left. */
  function Toggle(tasks: seq<Task>, lists: seq<TodoList>, taskId: int, userId: int): (out: (Result<Task>, seq<Task>))
    ensures out.1 == ToggleRows(tasks, OwnedListIds(lists, userId), taskId)
    ensures out.0.Err? <==> forall t :: t in tasks ==> !Selected(t, OwnedListIds(lists, userId), taskId)
    ensures out.0.Err? ==> out.0 == Err(TaskNotFound) && out.1 == tasks
    ensures out.0.Ok? && UniqueTaskIds(tasks) ==>
              exists i :: 0 <= i < |tasks| && Selected(tasks[i], OwnedListIds(lists, userId), taskId)
                && out.1 == tasks[i := Flip(tasks[i])] && out.0.value == Flip(tasks[i])
  {
    var owned := OwnedListIds(lists, userId);
    var updated := ToggleRows(tasks, owned, taskId);
    if Changes(tasks, owned, taskId) == 0 then
      ToggleUnchangedIffNoChanges(tasks, owned, taskId);
      (Err(TaskNotFound), updated)
    else
      ToggledRow(tasks, owned, taskId);
      (Ok(FindTask(updated, taskId).value), updated)
  }

  /** Toggling the same task twice restores the table. */
  lemma ToggleTwice(tasks: seq<Task>, owned: set<int>, taskId: int)
    ensures ToggleRows(ToggleRows(tasks, owned, taskId), owned, taskId) == tasks
  {
  }

  /** The toggle changes only flags, so the table invariants and the foreign key survive it. */
  lemma ToggleKeepsTable(tasks: seq<Task>, owned: set<int>, taskId: int, lists: seq<TodoList>, nextId: int, clock: nat)
    requires TasksWellFormed(tasks, nextId, clock) && ParentsExist(tasks, lists)
    ensures TasksWellFormed(ToggleRows(tasks, owned, taskId), nextId, clock)
    ensures ParentsExist(ToggleRows(tasks, owned, taskId), lists)
  {
    var r := ToggleRows(tasks, owned, taskId);
    TasksWellFormedSameKeys(tasks, r, nextId, clock);
    ParentsExistSameKeys(tasks, r, lists);
  }

  /** A flip keeps ids and lists, so the UPDATE run again selects as many rows. */
  lemma {:induction false} ChangesAfterToggle(tasks: seq<Task>, owned: set<int>, taskId: int)
    ensures Changes(ToggleRows(tasks, owned, taskId), owned, taskId) == Changes(tasks, owned, taskId)
  {
    if tasks != [] {
      var r := ToggleRows(tasks, owned, taskId);
      assert r[1..] == ToggleRows(tasks[1..], owned, taskId);
      ChangesAfterToggle(tasks[1..], owned, taskId);
    }
  }

  /** With unique ids, a toggle that selects row `i` answers that row flipped
      and leaves the table with only that row flipped. */
  lemma ToggleSelects(tasks: seq<Task>, lists: seq<TodoList>, taskId: int, userId: int, i: nat)
    requires UniqueTaskIds(tasks) && i < |tasks| && Selected(tasks[i], OwnedListIds(lists, userId), taskId)
    ensures Toggle(tasks, lists, taskId, userId) == (Ok(Flip(tasks[i])), tasks[i := Flip(tasks[i])])
  {
    var owned := OwnedListIds(lists, userId);
    ToggleFlipsOne(tasks, owned, taskId, i);
    FlipKeepsUniqueIds(tasks, i);
    FindTaskAt(tasks[i := Flip(tasks[i])], i);
  }

  /** Flipping a flag twice gives the row back. */
  lemma FlipTwice(t: Task)
    ensures Flip(Flip(t)) == t
  {
  }

  /** Writing a row and then its old value back leaves the sequence as it was. */
  lemma UpdateBack<T>(s: seq<T>, i: nat, x: T)
    requires i < |s|
    ensures s[i := x][i := s[i]] == s
  {
  }

  /** Toggling the same task twice through the handler: the second request
      succeeds exactly when the first did, answers the flag flipped back, and
      leaves the tasks table as it was before the first. */
  lemma ToggleHandlerTwice(tasks: seq<Task>, lists: seq<TodoList>, taskId: int, userId: int)
    requires UniqueTaskIds(tasks)
    ensures var first := Toggle(tasks, lists, taskId, userId);
            var second := Toggle(first.1, lists, taskId, userId);
            && second.1 == tasks
            && (second.0.Ok? <==> first.0.Ok?)
            && (first.0.Ok? ==> second.0.value == Flip(first.0.value) && second.0.value in tasks)
  {
    var owned := OwnedListIds(lists, userId);
    if t :| t in tasks && Selected(t, owned, taskId) {
      var i :| 0 <= i < |tasks| && tasks[i] == t;
      var after := tasks[i := Flip(tasks[i])];
      ToggleSelects(tasks, lists, taskId, userId, i);
      FlipKeepsUniqueIds(tasks, i);
      ToggleSelects(after, lists, taskId, userId, i);
      FlipTwice(tasks[i]);
      UpdateBack(tasks, i, Flip(tasks[i]));
    } else {
      assert Toggle(tasks, lists, taskId, userId) == (Err(TaskNotFound), tasks);
    }
  }

  /** The toggle on a table the inserts built: the table invariant and the
      foreign key survive, a refusal leaves the table as it was, and a success
      flips exactly one row and answers it. */
  lemma ToggleOnTable(tasks: seq<Task>, lists: seq<TodoList>, taskId: int, userId: int, nextId: int, clock: nat)
    requires TasksWellFormed(tasks, nextId, clock) && ParentsExist(tasks, lists)
    ensures var out := Toggle(tasks, lists, taskId, userId);
            && TasksWellFormed(out.1, nextId, clock) && ParentsExist(out.1, lists)
            && (out.0.Err? ==> out.0 == Err(TaskNotFound) && out.1 == tasks)
            && (out.0.Ok? ==> exists i :: 0 <= i < |tasks| && out.1 == tasks[i := Flip(tasks[i])]
                                          && out.0.value == Flip(tasks[i]))
  {
    ToggleKeepsTable(tasks, OwnedListIds(lists, userId), taskId, lists, nextId, clock);
    TasksWellFormedFacts(tasks, nextId, clock);
  }

  /** Isolation: a toggle by a caller changes no task outside that caller's lists. */
  lemma ToggleIsolation(tasks: seq<Task>, lists: seq<TodoList>, taskId: int, userId: int, i: nat)
    requires i < |tasks|
    requires forall l :: l in lists && l.id == tasks[i].todoListId ==> l.userId != userId
    ensures ToggleRows(tasks, OwnedListIds(lists, userId), taskId)[i] == tasks[i]
  {
  }
}
