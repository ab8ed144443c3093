/** The database behind the server: three tables, an AUTOINCREMENT counter per
    table and the creation clock, updated in place by the handlers that write
    (register, create list, add task, toggle task). The handlers that only
    read are the functions of module Queries over the same tables. */
module Store {
  import opened Schema
  import opened Auth
  import opened Queries

  /** Some user already has this username or this email (a UNIQUE constraint would fail). */
  predicate Taken(users: seq<User>, username: string, email: string)
  {
    exists u :: u in users && (u.username == username || u.email == email)
  }

  /** Register's refusal is the UNIQUE constraint's: on a well-formed users
      table, the username or email is taken exactly when inserting the row
      would break the table's invariant. */
  lemma TakenIffClash(users: seq<User>, nextId: int, clock: nat, username: string, email: string, digest: string)
    requires UsersWellFormed(users, nextId, clock)
    ensures Taken(users, username, email) <==>
              !UsersWellFormed(users + [User(nextId, username, email, digest, clock)], nextId + 1, clock + 1)
  {
    InsertUserWellFormedIffFresh(users, nextId, clock, User(nextId, username, email, digest, clock));
  }

  /** The insert of register on a users table the inserts built, for a name and
      email not taken: the table stays well formed, and logging in with that
      name and the password whose hash was stored answers with the new user. */
  lemma RegisterOnTable(users: seq<User>, nextId: int, clock: nat, u: User, password: string, c: Crypto)
    requires UsersWellFormed(users, nextId, clock) && u.id == nextId && u.createdAt == clock
    requires !Taken(users, u.username, u.email)
    requires u.username != "" && password != "" && u.password == c.hash(password)
    ensures UsersWellFormed(users + [u], nextId + 1, clock + 1)
    ensures Login(users + [u], Some(u.username), Some(password), c) == Ok(Issue(c, u))
  {
    InsertUserWellFormed(users, nextId, clock, u);
    FindUserAppended(users, u);
  }

  class TodoStore {
    const crypto: Crypto
    var users: seq<User>
    var lists: seq<TodoList>
    var tasks: seq<Task>
    var nextUserId: nat
    var nextListId: nat
    var nextTaskId: nat
    /** `CURRENT_TIMESTAMP`, as a counter that moves forward on every insert. */
    var clock: nat

    /** The table invariants, and every task hangs under an existing list. */
    ghost predicate Valid()
      reads this
    {
      && UsersWellFormed(users, nextUserId, clock)
      && ListsWellFormed(lists, nextListId, clock)
      && TasksWellFormed(tasks, nextTaskId, clock)
      && ParentsExist(tasks, lists)
    }

    /** The tables as `CREATE TABLE IF NOT EXISTS` leaves a new database. */
    constructor (crypto: Crypto)
      ensures Valid() && this.crypto == crypto
      ensures users == [] && lists == [] && tasks == []
      ensures nextUserId == 1 && nextListId == 1 && nextTaskId == 1 && clock == 0
    {
      this.crypto := crypto;
      users, lists, tasks := [], [], [];
      nextUserId, nextListId, nextTaskId := 1, 1, 1;
      clock := 0;
    }

    /** POST /api/register: all three fields are required; a username or email
        already present is refused; otherwise one user row is inserted with the
        next id and the password's hash, and the token and public record are
        answered. A refused request changes nothing. */
    method Register(username: Option<string>, email: Option<string>, password: Option<string>)
      returns (r: Result<AuthResponse>)
      requires Valid()
      modifies this
      ensures Valid()
      ensures lists == old(lists) && tasks == old(tasks)
      ensures nextListId == old(nextListId) && nextTaskId == old(nextTaskId)
      ensures !Present(username) || !Present(email) || !Present(password) ==>
                r == Err(AllFieldsRequired) && unchanged(this)
      ensures Present(username) && Present(email) && Present(password) &&
              Taken(old(users), username.value, email.value) ==>
                r == Err(UserExists) && unchanged(this)
      ensures Present(username) && Present(email) && Present(password) &&
              !Taken(old(users), username.value, email.value) ==>
                var u := User(old(nextUserId), username.value, email.value, crypto.hash(password.value), old(clock));
                && users == old(users) + [u]
                && nextUserId == old(nextUserId) + 1 && clock == old(clock) + 1
                && r == Ok(Issue(crypto, u))
      ensures r.Ok? ==> Login(users, username, password, crypto) == r
    {
      if !Present(username) || !Present(email) || !Present(password) {
        return Err(AllFieldsRequired);
      }
      var digest := crypto.hash(password.value);
      if Taken(users, username.value, email.value) {
        return Err(UserExists);
      }
      var u := User(nextUserId, username.value, email.value, digest, clock);
      RegisterOnTable(users, nextUserId, clock, u, password.value, crypto);
      users := users + [u];
      nextUserId := nextUserId + 1;
      clock := clock + 1;
      r := Ok(Issue(crypto, u));
    }

    /** POST /api/todolists: the title is required; otherwise one list row is
        inserted for the caller with the description defaulting to '', and the
        inserted row is answered. */
    method CreateTodoList(userId: int, title: Option<string>, description: Option<string>)
      returns (r: Result<TodoList>)
      requires Valid()
      modifies this
      ensures Valid()
      ensures users == old(users) && tasks == old(tasks)
      ensures nextUserId == old(nextUserId) && nextTaskId == old(nextTaskId)
      ensures !Present(title) ==> r == Err(TitleRequired) && unchanged(this)
      ensures Present(title) ==>
                var l := TodoList(old(nextListId), userId, title.value, OrEmpty(description), old(clock));
                && lists == old(lists) + [l]
                && nextListId == old(nextListId) + 1 && clock == old(clock) + 1
                && r == Ok(l)
    {
      if !Present(title) {
        return Err(TitleRequired);
      }
      var l := TodoList(nextListId, userId, title.value, OrEmpty(description), clock);
      InsertListWellFormed(lists, nextListId, clock, l);
      ParentsExistMoreLists(tasks, lists, l);
      lists := lists + [l];
      nextListId := nextListId + 1;
      clock := clock + 1;
      r := Ok(l);
    }

    /** POST /api/todolists/:id/tasks: the title is required, then the list must
        be the caller's (404 otherwise); then one task row is inserted under it,
        not completed, with the description defaulting to '', and that row is
        answered. A refused request changes nothing. */
    method AddTask(userId: int, listId: int, title: Option<string>, description: Option<string>)
      returns (r: Result<Task>)
      requires Valid()
      modifies this
      ensures Valid()
      ensures users == old(users) && lists == old(lists)
      ensures nextUserId == old(nextUserId) && nextListId == old(nextListId)
      ensures !Present(title) ==> r == Err(TaskTitleRequired) && unchanged(this)
      ensures Present(title) && FindOwnedList(lists, listId, userId).None? ==>
                r == Err(ListNotFound) && unchanged(this)
      ensures Present(title) && FindOwnedList(lists, listId, userId).Some? ==>
                var t := Task(old(nextTaskId), listId, title.value, OrEmpty(description), false, old(clock));
                && tasks == old(tasks) + [t]
                && nextTaskId == old(nextTaskId) + 1 && clock == old(clock) + 1
                && r == Ok(t)
    {
      if !Present(title) {
        return Err(TaskTitleRequired);
      }
      var list := FindOwnedList(lists, listId, userId);
      if list.None? {
        return Err(ListNotFound);
      }
      var t := Task(nextTaskId, listId, title.value, OrEmpty(description), false, clock);
      InsertTaskWellFormed(tasks, nextTaskId, clock, t);
      InsertTaskParents(tasks, lists, t);
      tasks := tasks + [t];
      nextTaskId := nextTaskId + 1;
      clock := clock + 1;
      r := Ok(t);
    }

    /** PUT /api/tasks/:id/toggle: the UPDATE flips the flag of the task with
        that id when its list is the caller's; when it changed no row the answer
        is 404 and nothing changed, otherwise exactly that one row was flipped
        and the updated row is answered. */
    method ToggleTask(userId: int, taskId: int) returns (r: Result<Task>)
      requires Valid()
      modifies this
      ensures Valid()
      ensures users == old(users) && lists == old(lists)
      ensures nextUserId == old(nextUserId) && nextListId == old(nextListId)
      ensures nextTaskId == old(nextTaskId) && clock == old(clock)
      ensures (r, tasks) == Toggle(old(tasks), lists, taskId, userId)
      ensures r.Err? ==> r == Err(TaskNotFound) && tasks == old(tasks)
      ensures r.Ok? ==> exists i :: 0 <= i < |old(tasks)| && tasks == old(tasks)[i := Flip(old(tasks)[i])]
                                    && r.value == Flip(old(tasks)[i])
    {
      var owned := OwnedListIds(lists, userId);
      var changes := Changes(tasks, owned, taskId);
      ToggleOnTable(tasks, lists, taskId, userId, nextTaskId, clock);
      tasks := ToggleRows(tasks, owned, taskId);
      if changes == 0 {
        return Err(TaskNotFound);
      }
      r := Ok(FindTask(tasks, taskId).value);
    }
  }

  /** What the store's invariant gives the read handlers: usernames are unique
      (so login finds the one user of that name), and the lists and tasks they
      answer come newest first. */
  lemma ValidReads(db: TodoStore, userId: int, listId: int)
    requires db.Valid()
    ensures UniqueUsernames(db.users)
    ensures ListsNewestFirst(ListTodoLists(db.lists, userId))
    ensures GetTodoList(db.lists, db.tasks, listId, userId).Ok? ==>
              forall l :: l in db.lists && l.id == listId ==> l == GetTodoList(db.lists, db.tasks, listId, userId).value.list
    ensures GetTodoList(db.lists, db.tasks, listId, userId).Ok? ==>
              TasksNewestFirst(GetTodoList(db.lists, db.tasks, listId, userId).value.tasks)
  {
    UsersWellFormedUnique(db.users, db.nextUserId, db.clock);
    ListsWellFormedFacts(db.lists, db.nextListId, db.clock);
    GetTodoListUnique(db.lists, db.tasks, listId, userId);
    TasksWellFormedFacts(db.tasks, db.nextTaskId, db.clock);
  }

  /** The example session of one client: alice registers, creates a list,
      adds a task to it and toggles that task on and off again. */
  method ExampleSession(crypto: Crypto) returns (added: Result<Task>, on: Result<Task>, off: Result<Task>)
    ensures added.Ok? && added.value.id == 1 && !added.value.completed
    ensures on.Ok? && on.value.completed
    ensures off.Ok? && off.value == added.value
  {
    var db := new TodoStore(crypto);
    var alice := db.Register(Some("alice"), Some("a@x.com"), Some("pw"));
    assert alice.Ok? && alice.value.user == PublicUser(1, "alice", "a@x.com");
    assert db.lists == [] && db.tasks == [] && db.nextListId == 1 && db.nextTaskId == 1 && db.clock == 1;
    var groceries := db.CreateTodoList(1, Some("Groceries"), None);
    ghost var list := TodoList(1, 1, "Groceries", "", 1);
    assert db.lists == [list] && db.tasks == [] && db.nextTaskId == 1 && db.clock == 2;
    assert FindOwnedList(db.lists, 1, 1) == Some(list);
    added := db.AddTask(1, 1, Some("Milk"), None);
    ghost var milk := Task(1, 1, "Milk", "", false, 2);
    assert added == Ok(milk) && db.tasks == [milk] && db.lists == [list];
    assert 1 in OwnedListIds(db.lists, 1);
    on := db.ToggleTask(1, 1);
    assert db.tasks == [Flip(milk)] && db.lists == [list];
    off := db.ToggleTask(1, 1);
    assert db.tasks == [milk];
  }

  /** Registering a taken username again is refused and adds no user. */
  method DuplicateSession(crypto: Crypto) returns (again: Result<AuthResponse>, count: nat)
    ensures again == Err(UserExists) && count == 1
  {
    var db := new TodoStore(crypto);
    var alice := db.Register(Some("alice"), Some("a@x.com"), Some("pw"));
    assert |db.users| == 1 && db.users[0].username == "alice";
    again := db.Register(Some("alice"), Some("b@x.com"), Some("pw2"));
    count := |db.users|;
  }

  /** A second user neither sees, reads, extends nor toggles the first user's list and task. */
  method IsolationSession(crypto: Crypto)
    returns (seen: seq<TodoList>, read: Result<ListWithTasks>, extended: Result<Task>, toggled: Result<Task>)
    ensures seen == [] && read == Err(ListNotFound)
    ensures extended == Err(ListNotFound) && toggled == Err(TaskNotFound)
  {
    var db := new TodoStore(crypto);
    var groceries := db.CreateTodoList(1, Some("Groceries"), None);
    assert db.lists == [TodoList(1, 1, "Groceries", "", 0)];
    assert FindOwnedList(db.lists, 1, 1).Some?;
    var milk := db.AddTask(1, 1, Some("Milk"), None);
    assert db.tasks == [Task(1, 1, "Milk", "", false, 1)];
    assert 1 !in OwnedListIds(db.lists, 2);
    seen := ListTodoLists(db.lists, 2);
    assert ListsOwnedBy(db.lists, 2) == [];
    read := GetTodoList(db.lists, db.tasks, 1, 2);
    extended := db.AddTask(2, 1, Some("Eggs"), None);
    toggled := db.ToggleTask(2, 1);
  }
}
