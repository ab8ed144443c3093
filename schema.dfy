/** The three tables of the TODO server (users, todo_lists, tasks) as rows,
    the public records the handlers answer with, the API errors with their
    HTTP status and message, and the invariants the tables keep. */
module Schema {

  datatype Option<T> = None | Some(value: T)

  /** An HTTP status and the `error` message of the JSON body. */
  datatype ApiError = ApiError(status: nat, message: string)

  /** What a handler answers: the JSON body on success, or an error response. */
  datatype Result<T> = Ok(value: T) | Err(error: ApiError)

  const AllFieldsRequired := ApiError(400, "All fields are required")
  const UserExists := ApiError(400, "Username or email already exists")
  const CredentialsRequired := ApiError(400, "Username and password are required")
  const InvalidCredentials := ApiError(400, "Invalid credentials")
  const TokenRequired := ApiError(401, "Access token required")
  const InvalidToken := ApiError(403, "Invalid token")
  const TitleRequired := ApiError(400, "Title is required")
  const ListNotFound := ApiError(404, "Todo list not found")
  const TaskTitleRequired := ApiError(400, "Task title is required")
  const TaskNotFound := ApiError(404, "Task not found")

  /** A row of `users`. `password` holds the stored hash, never the password itself. */
  datatype User = User(id: int, username: string, email: string, password: string, createdAt: nat)

  /** A row of `todo_lists`; `userId` is the owner. */
  datatype TodoList = TodoList(id: int, userId: int, title: string, description: string, createdAt: nat)

  /** A row of `tasks`; `todoListId` is the parent list. */
  datatype Task = Task(id: int, todoListId: int, title: string, description: string, completed: bool, createdAt: nat)

  /** The user record register and login answer with: the row without its hash. */
  datatype PublicUser = PublicUser(id: int, username: string, email: string)

  /** The payload signed into a token. */
  datatype Claims = Claims(id: int, username: string)

  /** The body of a successful register or login. */
  datatype AuthResponse = AuthResponse(token: string, user: PublicUser)

  /** The body of GET /api/todolists/:id: the list's columns plus its tasks. */
  datatype ListWithTasks = ListWithTasks(list: TodoList, tasks: seq<Task>)

  /** `{ id, username, email }` of a user row. */
  function Public(u: User): PublicUser
  {
    PublicUser(u.id, u.username, u.email)
  }

  /** The answered record does not depend on the stored hash: two rows that
      differ only in their password column answer the same record. */
  lemma PublicIgnoresHash(u: User, digest: string)
    ensures Public(u.(password := digest)) == Public(u)
  {
  }

  /** A string field of a JSON request body that JavaScript treats as true:
      present and not the empty string. */
  predicate Present(f: Option<string>)
  {
    f.Some? && f.value != ""
  }

  /** `!field` refuses exactly a missing field and the empty string: every
      other string passes the check. */
  lemma PresentIsTruthy()
    ensures !Present(None) && !Present(Some(""))
    ensures forall s: string :: s != "" ==> Present(Some(s))
  {
  }

  /** `description || ''`: the field when it is truthy, otherwise the empty string. */
  function OrEmpty(f: Option<string>): (s: string)
    ensures Present(f) ==> s == f.value
    ensures !Present(f) ==> s == ""
  {
    if f.Some? then f.value else ""
  }

  /** The users table as the inserts built it: the last row got an id and a
      creation stamp below the next ones to issue and a username and email no
      earlier row has, and the earlier rows were built the same way below it.
      AUTOINCREMENT ids start at 1. */
  predicate UsersWellFormed(users: seq<User>, nextId: int, clock: nat)
    decreases |users|
  {
    if users == [] then 1 <= nextId
    else
      var u := users[|users| - 1];
      var earlier := users[..|users| - 1];
      && u.id < nextId && u.createdAt < clock
      && (forall v :: v in earlier ==> v.username != u.username && v.email != u.email)
      && UsersWellFormed(earlier, u.id, u.createdAt)
  }

  /** The todo_lists table as the inserts built it. */
  predicate ListsWellFormed(lists: seq<TodoList>, nextId: int, clock: nat)
    decreases |lists|
  {
    if lists == [] then 1 <= nextId
    else
      var l := lists[|lists| - 1];
      && l.id < nextId && l.createdAt < clock
      && ListsWellFormed(lists[..|lists| - 1], l.id, l.createdAt)
  }

  /** The tasks table as the inserts built it. */
  predicate TasksWellFormed(tasks: seq<Task>, nextId: int, clock: nat)
    decreases |tasks|
  {
    if tasks == [] then 1 <= nextId
    else
      var t := tasks[|tasks| - 1];
      && t.id < nextId && t.createdAt < clock
      && TasksWellFormed(tasks[..|tasks| - 1], t.id, t.createdAt)
  }

  /** Some row of `todo_lists` has this id. */
  predicate HasList(lists: seq<TodoList>, id: int)
  {
    exists l :: l in lists && l.id == id
  }

  /** The foreign key of `tasks`: every task's list is a row of `todo_lists`. */
  predicate ParentsExist(tasks: seq<Task>, lists: seq<TodoList>)
    decreases |tasks|
  {
    tasks == [] || (HasList(lists, tasks[|tasks| - 1].todoListId) && ParentsExist(tasks[..|tasks| - 1], lists))
  }

  /** No two users share a username. */
  predicate UniqueUsernames(users: seq<User>)
  {
    forall i, j :: 0 <= i < j < |users| ==> users[i].username != users[j].username
  }

  /** No two lists share an id. */
  predicate UniqueListIds(lists: seq<TodoList>)
  {
    forall i, j :: 0 <= i < j < |lists| ==> lists[i].id != lists[j].id
  }

  /** No two tasks share an id. */
  predicate UniqueTaskIds(tasks: seq<Task>)
  {
    forall i, j :: 0 <= i < j < |tasks| ==> tasks[i].id != tasks[j].id
  }

  /** Creation stamps strictly increase along the table. */
  predicate ListsOldestFirst(lists: seq<TodoList>)
  {
    forall i, j :: 0 <= i < j < |lists| ==> lists[i].createdAt < lists[j].createdAt
  }

  /** Creation stamps strictly decrease along the sequence: `ORDER BY created_at DESC`. */
  predicate ListsNewestFirst(lists: seq<TodoList>)
  {
    forall i, j :: 0 <= i < j < |lists| ==> lists[i].createdAt > lists[j].createdAt
  }

  predicate TasksOldestFirst(tasks: seq<Task>)
  {
    forall i, j :: 0 <= i < j < |tasks| ==> tasks[i].createdAt < tasks[j].createdAt
  }

  predicate TasksNewestFirst(tasks: seq<Task>)
  {
    forall i, j :: 0 <= i < j < |tasks| ==> tasks[i].createdAt > tasks[j].createdAt
  }

  /** The pairwise reading of the users invariant: ids from 1 below the next
      id, stamps below the clock, both increasing along the table, and the
      UNIQUE constraints on username and email. */
  lemma {:induction false} UsersWellFormedPairwise(users: seq<User>, nextId: int, clock: nat)
    requires UsersWellFormed(users, nextId, clock)
    ensures 1 <= nextId
    ensures forall i :: 0 <= i < |users| ==> 1 <= users[i].id < nextId && users[i].createdAt < clock
    ensures forall i, j :: 0 <= i < j < |users| ==>
              && users[i].id < users[j].id && users[i].createdAt < users[j].createdAt
              && users[i].username != users[j].username && users[i].email != users[j].email
    decreases |users|
  {
    if users != [] {
      var n := |users| - 1;
      var earlier := users[..n];
      UsersWellFormedPairwise(earlier, users[n].id, users[n].createdAt);
      forall i, j | 0 <= i < j < |users|
        ensures && users[i].id < users[j].id && users[i].createdAt < users[j].createdAt
                && users[i].username != users[j].username && users[i].email != users[j].email
      {
        assert users[i] == earlier[i];
        if j < n {
          assert users[j] == earlier[j];
        } else {
          assert earlier[i] in earlier;
        }
      }
      assert forall i :: 0 <= i < n ==> users[i] == earlier[i];
    }
  }

  /** The pairwise reading of the lists invariant: ids from 1 below the next
      id, stamps below the clock, both increasing along the table. */
  lemma {:induction false} ListsWellFormedPairwise(lists: seq<TodoList>, nextId: int, clock: nat)
    requires ListsWellFormed(lists, nextId, clock)
    ensures 1 <= nextId
    ensures forall i :: 0 <= i < |lists| ==> 1 <= lists[i].id < nextId && lists[i].createdAt < clock
    ensures forall i, j :: 0 <= i < j < |lists| ==> lists[i].id < lists[j].id && lists[i].createdAt < lists[j].createdAt
    decreases |lists|
  {
    if lists != [] {
      var n := |lists| - 1;
      ListsWellFormedPairwise(lists[..n], lists[n].id, lists[n].createdAt);
      assert forall i :: 0 <= i < n ==> lists[i] == lists[..n][i];
    }
  }

  /** The same pairwise reading for the tasks table. */
  lemma {:induction false} TasksWellFormedPairwise(tasks: seq<Task>, nextId: int, clock: nat)
    requires TasksWellFormed(tasks, nextId, clock)
    ensures 1 <= nextId
    ensures forall i :: 0 <= i < |tasks| ==> 1 <= tasks[i].id < nextId && tasks[i].createdAt < clock
    ensures forall i, j :: 0 <= i < j < |tasks| ==> tasks[i].id < tasks[j].id && tasks[i].createdAt < tasks[j].createdAt
    decreases |tasks|
  {
    if tasks != [] {
      var n := |tasks| - 1;
      TasksWellFormedPairwise(tasks[..n], tasks[n].id, tasks[n].createdAt);
      assert forall i :: 0 <= i < n ==> tasks[i] == tasks[..n][i];
    }
  }

  /** Users built by the inserts have unique usernames. */
  lemma UsersWellFormedUnique(users: seq<User>, nextId: int, clock: nat)
    requires UsersWellFormed(users, nextId, clock)
    ensures UniqueUsernames(users)
  {
    UsersWellFormedPairwise(users, nextId, clock);
  }

  /** Lists built by the inserts have unique ids and are oldest first. */
  lemma ListsWellFormedFacts(lists: seq<TodoList>, nextId: int, clock: nat)
    requires ListsWellFormed(lists, nextId, clock)
    ensures UniqueListIds(lists) && ListsOldestFirst(lists)
  {
    ListsWellFormedPairwise(lists, nextId, clock);
  }

  /** Tasks built by the inserts have unique ids and are oldest first. */
  lemma TasksWellFormedFacts(tasks: seq<Task>, nextId: int, clock: nat)
    requires TasksWellFormed(tasks, nextId, clock)
    ensures UniqueTaskIds(tasks) && TasksOldestFirst(tasks)
  {
    TasksWellFormedPairwise(tasks, nextId, clock);
  }

  /** Inserting a user with the next id, the current clock and a username and
      email no row has keeps the users table well formed. */
  lemma InsertUserWellFormed(users: seq<User>, nextId: int, clock: nat, u: User)
    requires UsersWellFormed(users, nextId, clock)
    requires u.id == nextId && u.createdAt == clock
    requires forall v :: v in users ==> v.username != u.username && v.email != u.email
    ensures UsersWellFormed(users + [u], nextId + 1, clock + 1)
  {
    assert (users + [u])[..|users|] == users;
  }

  /** Conversely, the insert keeps the users table well formed only when the
      username and email are new: the UNIQUE constraints refuse exactly a clash. */
  lemma InsertUserWellFormedIffFresh(users: seq<User>, nextId: int, clock: nat, u: User)
    requires UsersWellFormed(users, nextId, clock)
    requires u.id == nextId && u.createdAt == clock
    ensures UsersWellFormed(users + [u], nextId + 1, clock + 1) <==>
              forall v :: v in users ==> v.username != u.username && v.email != u.email
  {
    assert (users + [u])[..|users|] == users;
    if forall v :: v in users ==> v.username != u.username && v.email != u.email {
      InsertUserWellFormed(users, nextId, clock, u);
    }
  }

  /** Inserting a list with the next id and the current clock keeps the lists table well formed. */
  lemma InsertListWellFormed(lists: seq<TodoList>, nextId: int, clock: nat, l: TodoList)
    requires ListsWellFormed(lists, nextId, clock)
    requires l.id == nextId && l.createdAt == clock
    ensures ListsWellFormed(lists + [l], nextId + 1, clock + 1)
  {
    assert (lists + [l])[..|lists|] == lists;
  }

  /** Inserting a task with the next id and the current clock keeps the tasks table well formed. */
  lemma InsertTaskWellFormed(tasks: seq<Task>, nextId: int, clock: nat, t: Task)
    requires TasksWellFormed(tasks, nextId, clock)
    requires t.id == nextId && t.createdAt == clock
    ensures TasksWellFormed(tasks + [t], nextId + 1, clock + 1)
  {
    assert (tasks + [t])[..|tasks|] == tasks;
  }

  /** The tasks invariant looks only at ids and stamps: a table that agrees
      with a well-formed one on those is well formed too. */
  lemma {:induction false} TasksWellFormedSameKeys(a: seq<Task>, b: seq<Task>, nextId: int, clock: nat)
    requires TasksWellFormed(a, nextId, clock) && |a| == |b|
    requires forall i :: 0 <= i < |a| ==> a[i].id == b[i].id && a[i].createdAt == b[i].createdAt
    ensures TasksWellFormed(b, nextId, clock)
    decreases |a|
  {
    if a != [] {
      var n := |a| - 1;
      TasksWellFormedSameKeys(a[..n], b[..n], a[n].id, a[n].createdAt);
    }
  }

  /** Likewise the foreign key looks only at each task's list id. */
  lemma {:induction false} ParentsExistSameKeys(a: seq<Task>, b: seq<Task>, lists: seq<TodoList>)
    requires ParentsExist(a, lists) && |a| == |b|
    requires forall i :: 0 <= i < |a| ==> a[i].todoListId == b[i].todoListId
    ensures ParentsExist(b, lists)
    decreases |a|
  {
    if a != [] {
      var n := |a| - 1;
      ParentsExistSameKeys(a[..n], b[..n], lists);
    }
  }

  /** Inserting a list keeps every task's parent. */
  lemma {:induction false} ParentsExistMoreLists(tasks: seq<Task>, lists: seq<TodoList>, l: TodoList)
    requires ParentsExist(tasks, lists)
    ensures ParentsExist(tasks, lists + [l])
    decreases |tasks|
  {
    if tasks != [] {
      var w :| w in lists && w.id == tasks[|tasks| - 1].todoListId;
      assert w in lists + [l];
      ParentsExistMoreLists(tasks[..|tasks| - 1], lists, l);
    }
  }

  /** Inserting a task under an existing list keeps the foreign key. */
  lemma InsertTaskParents(tasks: seq<Task>, lists: seq<TodoList>, t: Task)
    requires ParentsExist(tasks, lists) && HasList(lists, t.todoListId)
    ensures ParentsExist(tasks + [t], lists)
  {
    assert (tasks + [t])[..|tasks|] == tasks;
  }
}
