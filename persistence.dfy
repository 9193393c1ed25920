/** `PgPersistence`: the per-request persistence service.  It is bound to
    one user name when it is constructed and sends every statement to the
    store with that name in its WHERE clause or its inserted row.  Each
    method returns what the source's promise resolves to (`Ok`) or the
    store failure it rejects with (`Err`). */
module Persistence {
  import opened Rows
  import opened Seqs
  import opened Queries
  import opened StoreErrors
  import opened TodoLists
  import opened StoreModel

  // ----------------------------------------------- the statements' clauses

  /** `ALL_TODOLISTS`: `WHERE username = $1`. */
  function AllListsOf(u: string): ListWhere
  {
    ListWhere(None, None, u)
  }

  /** The todos query of `sortedTodoLists`: `WHERE username = $1`. */
  function AllTodosOf(u: string): TodoWhere
  {
    TodoWhere(None, None, false, u)
  }

  /** `WHERE id = $1 AND username = $2` on `todolists`. */
  function ListById(listId: int, u: string): ListWhere
  {
    ListWhere(Some(listId), None, u)
  }

  /** `WHERE title = $1 AND username = $2` on `todolists`. */
  function ListByTitle(title: string, u: string): ListWhere
  {
    ListWhere(None, Some(title), u)
  }

  /** `WHERE todolists_id = $1 AND username = $2` on `todos`. */
  function TodosInList(listId: int, u: string): TodoWhere
  {
    TodoWhere(Some(listId), None, false, u)
  }

  /** `WHERE todolists_id = $1 AND id = $2 AND username = $3` on `todos`. */
  function TodoById(listId: int, todoId: int, u: string): TodoWhere
  {
    TodoWhere(Some(listId), Some(todoId), false, u)
  }

  /** The filter `completeAllTodos` is taken to mean:
      `WHERE todolists_id = $1 AND username = $2 AND NOT done`.  This is an
      assumption: the statement at lib/pg-persistence.js:108 is not valid
      SQL as written. */
  function UndoneTodosInList(listId: int, u: string): TodoWhere
  {
    TodoWhere(Some(listId), None, true, u)
  }

  class PgPersistence {
    /** Set once from the session; every statement is bound to it. */
    const username: string
    const store: Store

    constructor (session: Session, store: Store)
      ensures username == session.username && this.store == store
    {
      username := session.username;
      this.store := store;
    }

    /** `sortedTodoLists`.  `ordered` is the result of `ALL_TODOLISTS`
        after its `ORDER BY lower(title) ASC`: the order itself is taken as
        given, so the precondition says only that it is this user's lists
        in ascending case-insensitive title order. */
    method SortedTodoLists(ordered: seq<TodoList>) returns (r: Result<seq<ListWithTodos>>)
      requires multiset(ordered) == multiset(SelectLists(store.todolists, AllListsOf(username)))
      requires Sorted(ordered, ListTitleLe)
      ensures store.outage.Some? ==> r == Err(store.outage.value)
      ensures store.outage.None? ==>
                r == Ok(Partition(AttachTodos(ordered, SelectTodos(store.todos, AllTodosOf(username)))))
      ensures r.Ok? ==> multiset(r.value) == multiset(AttachTodos(ordered, SelectTodos(store.todos, AllTodosOf(username))))
      ensures r.Ok? ==> UndoneBeforeDone(r.value)
      ensures r.Ok? ==> Sorted(r.value, CompletionThenTitleLe)
      ensures r.Ok? ==> forall l, t :: l in r.value && t in l.todos ==>
                          t in store.todos && t.username == username && t.listId == l.list.id
      ensures r.Ok? ==> forall l :: l in r.value ==> l.list in store.todolists && l.list.username == username
    {
      var lists := store.SelectListRows(AllListsOf(username));
      var todos := store.SelectTodoRows(AllTodosOf(username));
      var both := BothRows(lists, todos);
      if both.Err? {
        return Err(both.error);
      }
      var attached := AttachTodosToLists(ordered, todos.value);
      var parted := PartitionTodoLists(attached);
      r := Ok(parted);
      SortedListingProperties(ordered, todos.value);
      SelectTodosScoped(store.todos, AllTodosOf(username));
      SelectListsScoped(store.todolists, AllListsOf(username));
      forall x | x in ordered ensures x in store.todolists && x.username == username {
        assert x in multiset(lists.value);
      }
    }

    /** `sortedTodos`.  `ordered` is the result of its query after
        `ORDER BY done, lower(title)`, taken as given. */
    method SortedTodos(todoList: TodoList, ordered: seq<Todo>) returns (r: Result<seq<Todo>>)
      requires multiset(ordered) == multiset(SelectTodos(store.todos, TodosInList(todoList.id, username)))
      requires Sorted(ordered, DoneThenTitleLe)
      ensures store.outage.Some? ==> r == Err(store.outage.value)
      ensures store.outage.None? ==> r == Ok(ordered)
      ensures r.Ok? ==> forall t :: t in r.value ==>
                          t in store.todos && t.listId == todoList.id && t.username == username
      ensures r.Ok? ==> UndoneTodosFirst(r.value)
      ensures r.Ok? ==> Sorted(Filter(r.value, Not(IsDoneTodo())), TodoTitleLe)
      ensures r.Ok? ==> Sorted(Filter(r.value, IsDoneTodo()), TodoTitleLe)
    {
      var rows := store.SelectTodoRows(TodosInList(todoList.id, username));
      if rows.Err? {
        return Err(rows.error);
      }
      r := Ok(ordered);
      DoneThenTitleOrder(ordered);
      forall t | t in ordered ensures t in rows.value {
        assert t in multiset(rows.value);
      }
    }

    /** `loadTodoList`: the list with this id and user, with its todos in
        table order, or absent. */
    method LoadTodoList(todoListId: int) returns (r: Result<Option<ListWithTodos>>)
      ensures store.outage.Some? ==> r == Err(store.outage.value)
      ensures store.outage.None? ==> r.Ok?
      ensures r.Ok? ==> (r.value.None? <==>
                forall l :: l in store.todolists ==> !(l.id == todoListId && l.username == username))
      ensures r.Ok? && r.value.Some? ==>
                r.value.value.list in store.todolists &&
                r.value.value.list.id == todoListId && r.value.value.list.username == username &&
                r.value.value.todos == SelectTodos(store.todos, TodosInList(todoListId, username))
    {
      var lists := store.SelectListRows(ListById(todoListId, username));
      var todos := store.SelectTodoRows(TodosInList(todoListId, username));
      var both := BothRows(lists, todos);
      if both.Err? {
        return Err(both.error);
      }
      if |lists.value| == 0 {
        r := Ok(None);
        forall l | l in store.todolists ensures !(l.id == todoListId && l.username == username) {
          var i :| 0 <= i < |store.todolists| && store.todolists[i] == l;
        }
      } else {
        r := Ok(Some(ListWithTodos(lists.value[0], todos.value)));
      }
    }

    /** `loadTodo`: the first todo with this list id, id and user, or
        absent. */
    method LoadTodo(todoListId: int, todoId: int) returns (r: Result<Option<Todo>>)
      ensures store.outage.Some? ==> r == Err(store.outage.value)
      ensures store.outage.None? ==> r.Ok?
      ensures r.Ok? ==> (r.value.None? <==>
                forall t :: t in store.todos ==> !TodoMatches(TodoById(todoListId, todoId, username), t))
      ensures r.Ok? && r.value.Some? ==>
                r.value.value in store.todos && r.value.value.listId == todoListId &&
                r.value.value.id == todoId && r.value.value.username == username
    {
      var rows := store.SelectTodoRows(TodoById(todoListId, todoId, username));
      if rows.Err? {
        return Err(rows.error);
      }
      if |rows.value| == 0 {
        r := Ok(None);
        forall t | t in store.todos ensures !TodoMatches(TodoById(todoListId, todoId, username), t) {
          var i :| 0 <= i < |store.todos| && store.todos[i] == t;
        }
      } else {
        r := Ok(Some(rows.value[0]));
      }
    }

    /** `toggleDoneTodo`: `done = NOT done` on the rows with this list id,
        id and user; true iff such a row existed. */
    method ToggleDoneTodo(todoListId: int, todoId: int) returns (r: Result<bool>)
      requires store.Valid()
      modifies store
      ensures store.Valid()
      ensures old(store.outage).Some? ==> r == Err(old(store.outage).value) && store.todos == old(store.todos)
      ensures old(store.outage).None? ==>
                store.todos == UpdateTodos(old(store.todos), TodoById(todoListId, todoId, username), FlipDone)
      ensures old(store.outage).None? ==>
                r == Ok(exists t :: t in old(store.todos) && TodoMatches(TodoById(todoListId, todoId, username), t))
      ensures ForeignTodos(store.todos, username) == ForeignTodos(old(store.todos), username)
      ensures store.users == old(store.users) && store.todolists == old(store.todolists)
      ensures store.outage == old(store.outage)
      ensures store.nextListId == old(store.nextListId) && store.nextTodoId == old(store.nextTodoId)
    {
      var w := TodoById(todoListId, todoId, username);
      ghost var before := store.todos;
      var result := store.UpdateTodoRows(w, FlipDone);
      UpdateTodosScoped(before, w, FlipDone);
      r := RowCountPositive(result);
      if result.Ok? {
        MatchExists(before, w);
      }
    }

    /** `deleteTodo`: removes the rows with this list id, id and user; true
        iff a row was removed. */
    method DeleteTodo(todoListId: int, todoId: int) returns (r: Result<bool>)
      requires store.Valid()
      modifies store
      ensures store.Valid()
      ensures old(store.outage).Some? ==> r == Err(old(store.outage).value) && store.todos == old(store.todos)
      ensures old(store.outage).None? ==>
                store.todos == DeleteTodos(old(store.todos), TodoById(todoListId, todoId, username))
      ensures old(store.outage).None? ==>
                r == Ok(exists t :: t in old(store.todos) && TodoMatches(TodoById(todoListId, todoId, username), t))
      ensures r == Ok(false) ==> store.todos == old(store.todos)
      ensures ForeignTodos(store.todos, username) == ForeignTodos(old(store.todos), username)
      ensures store.users == old(store.users) && store.todolists == old(store.todolists)
      ensures store.outage == old(store.outage)
      ensures store.nextListId == old(store.nextListId) && store.nextTodoId == old(store.nextTodoId)
    {
      var w := TodoById(todoListId, todoId, username);
      ghost var before := store.todos;
      var result := store.DeleteTodoRows(w);
      DeleteTodosScoped(before, w);
      r := RowCountPositive(result);
      if result.Ok? {
        MatchExists(before, w);
        if result.value == 0 {
          DeleteTodosCount(before, w);
          FilterKeepsAll(before, Not(TodoMatcher(w)));
        }
      }
    }

    /** `completeAllTodos`, with the intended filter (see
        `UndoneTodosInList`): `done = true` on this list's undone todos of
        this user; true iff there was one. */
    method CompleteAllTodos(todoListId: int) returns (r: Result<bool>)
      requires store.Valid()
      modifies store
      ensures store.Valid()
      ensures old(store.outage).Some? ==> r == Err(old(store.outage).value) && store.todos == old(store.todos)
      ensures old(store.outage).None? ==>
                store.todos == UpdateTodos(old(store.todos), UndoneTodosInList(todoListId, username), MarkDone)
      ensures old(store.outage).None? ==>
                r == Ok(exists t :: t in old(store.todos) && t.listId == todoListId && t.username == username && !t.done)
      ensures old(store.outage).None? ==>
                forall t :: t in store.todos && t.listId == todoListId && t.username == username ==> t.done
      ensures ForeignTodos(store.todos, username) == ForeignTodos(old(store.todos), username)
      ensures store.users == old(store.users) && store.todolists == old(store.todolists)
      ensures store.outage == old(store.outage)
      ensures store.nextListId == old(store.nextListId) && store.nextTodoId == old(store.nextTodoId)
    {
      var w := UndoneTodosInList(todoListId, username);
      ghost var before := store.todos;
      var result := store.UpdateTodoRows(w, MarkDone);
      UpdateTodosScoped(before, w, MarkDone);
      MarkDoneCompletes(before, w);
      r := RowCountPositive(result);
      if result.Ok? {
        MatchExists(before, w);
      }
    }

    /** `createTodo`: inserts an undone todo of this user into the list;
        true, as one row is inserted.  The list id is not checked against
        the user's lists. */
    method CreateTodo(todoListId: int, title: string) returns (r: Result<bool>)
      requires store.Valid()
      modifies store
      ensures store.Valid()
      ensures old(store.outage).Some? ==> r == Err(old(store.outage).value) && store.todos == old(store.todos)
      ensures old(store.outage).Some? ==> store.nextTodoId == old(store.nextTodoId)
      ensures old(store.outage).None? ==>
                r == Ok(true) && store.nextTodoId == old(store.nextTodoId) + 1 &&
                store.todos == old(store.todos) + [Todo(old(store.nextTodoId), title, false, todoListId, username)]
      ensures forall t :: t in old(store.todos) ==> t.id != old(store.nextTodoId)
      ensures ForeignTodos(store.todos, username) == ForeignTodos(old(store.todos), username)
      ensures store.users == old(store.users) && store.todolists == old(store.todolists)
      ensures store.outage == old(store.outage) && store.nextListId == old(store.nextListId)
    {
      ghost var before := store.todos;
      var result := store.InsertTodoRow(title, todoListId, username);
      InsertTodoScoped(before, Todo(old(store.nextTodoId), title, false, todoListId, username));
      r := RowCountPositive(result);
    }

    /** `deleteTodoList`: removes the list with this id and user; true iff
        a row was removed.  Its todos are left in place. */
    method DeleteTodoList(todoListId: int) returns (r: Result<bool>)
      requires store.Valid()
      modifies store
      ensures store.Valid()
      ensures old(store.outage).Some? ==> r == Err(old(store.outage).value) && store.todolists == old(store.todolists)
      ensures old(store.outage).None? ==>
                store.todolists == DeleteLists(old(store.todolists), ListById(todoListId, username))
      ensures old(store.outage).None? ==>
                r == Ok(exists l :: l in old(store.todolists) && l.id == todoListId && l.username == username)
      ensures ForeignLists(store.todolists, username) == ForeignLists(old(store.todolists), username)
      ensures store.users == old(store.users) && store.todos == old(store.todos)
      ensures store.outage == old(store.outage)
      ensures store.nextListId == old(store.nextListId) && store.nextTodoId == old(store.nextTodoId)
    {
      var w := ListById(todoListId, username);
      ghost var before := store.todolists;
      var result := store.DeleteListRows(w);
      DeleteListsScoped(before, w);
      r := RowCountPositive(result);
      if result.Ok? {
        ListMatchExists(before, w);
      }
    }

    /** `setTodoListTitle`: retitles the list with this id and user; true
        iff a row was updated.  A title the user already has on another
        list makes the store reject the update, and that error propagates. */
    method SetTodoListTitle(todoListId: int, title: string) returns (r: Result<bool>)
      requires store.Valid()
      modifies store
      ensures store.Valid()
      ensures old(store.outage).Some? ==> r == Err(old(store.outage).value) && store.todolists == old(store.todolists)
      ensures old(store.outage).None? && RetitleConflict(old(store.todolists), ListById(todoListId, username), title) ==>
                r == Err(UniqueViolation()) && store.todolists == old(store.todolists)
      ensures old(store.outage).None? && !RetitleConflict(old(store.todolists), ListById(todoListId, username), title) ==>
                store.todolists == RetitleLists(old(store.todolists), ListById(todoListId, username), title) &&
                r == Ok(exists l :: l in old(store.todolists) && l.id == todoListId && l.username == username)
      ensures ForeignLists(store.todolists, username) == ForeignLists(old(store.todolists), username)
      ensures store.users == old(store.users) && store.todos == old(store.todos)
      ensures store.outage == old(store.outage)
      ensures store.nextListId == old(store.nextListId) && store.nextTodoId == old(store.nextTodoId)
    {
      var w := ListById(todoListId, username);
      ghost var before := store.todolists;
      var result := store.UpdateListTitles(w, title);
      RetitleListsScoped(before, w, title);
      r := RowCountPositive(result);
      if result.Ok? {
        ListMatchExists(before, w);
      }
    }

    /** `existsTodoListTitle`: whether this user has a list with this
        title. */
    method ExistsTodoListTitle(title: string) returns (r: Result<bool>)
      ensures store.outage.Some? ==> r == Err(store.outage.value)
      ensures store.outage.None? ==> r == Ok(TitleTaken(store.todolists, title, username))
    {
      var rows := store.SelectListRows(ListByTitle(title, username));
      r := RowCountPositive(match rows case Ok(v) => Ok(|v|) case Err(e) => Err(e));
      if rows.Ok? {
        ListMatchExists(store.todolists, ListByTitle(title, username));
      }
    }

    /** `createTodoList`: inserts a list with this title for this user.  A
        failure whose text is the unique-constraint one yields false; any
        other failure propagates unchanged. */
    method CreateTodoList(title: string) returns (r: Result<bool>)
      requires store.Valid()
      modifies store
      ensures store.Valid()
      ensures old(store.outage).Some? ==>
                store.todolists == old(store.todolists) && store.nextListId == old(store.nextListId) &&
                r == if IsUniqueConstraintViolation(old(store.outage).value) then Ok(false) else Err(old(store.outage).value)
      ensures old(store.outage).None? && TitleTaken(old(store.todolists), title, username) ==>
                r == Ok(false) && store.todolists == old(store.todolists) && store.nextListId == old(store.nextListId)
      ensures old(store.outage).None? && !TitleTaken(old(store.todolists), title, username) ==>
                r == Ok(true) && store.nextListId == old(store.nextListId) + 1 &&
                store.todolists == old(store.todolists) + [TodoList(old(store.nextListId), title, username)]
      ensures forall l :: l in old(store.todolists) ==> l.id != old(store.nextListId)
      ensures ForeignLists(store.todolists, username) == ForeignLists(old(store.todolists), username)
      ensures store.users == old(store.users) && store.todos == old(store.todos)
      ensures store.outage == old(store.outage) && store.nextTodoId == old(store.nextTodoId)
    {
      ghost var before := store.todolists;
      var result := store.InsertListRow(title, username);
      InsertListScoped(before, TodoList(old(store.nextListId), title, username));
      match result
      case Ok(rowCount) =>
        r := Ok(rowCount > 0);
      case Err(error) =>
        UniqueViolationRecognised();
        if IsUniqueConstraintViolation(error) {
          r := Ok(false);
        } else {
          r := Err(error);
        }
    }

    /** `authenticateUser`: looks up `username` (the argument, not the
        session's) and compares the password with the first row's hash using
        `matches`, which stands for `bcrypt.compare`.  An unknown user gives
        false. */
    method AuthenticateUser(password: string, username: string, matches: (string, string) -> bool)
      returns (r: Result<bool>)
      ensures store.outage.Some? ==> r == Err(store.outage.value)
      ensures store.outage.None? && (forall u :: u in store.users ==> u.username != username) ==> r == Ok(false)
      ensures store.outage.None? && (exists u :: u in store.users && u.username == username) ==>
                r == Ok(matches(password, SelectUsers(store.users, username)[0].password))
      ensures r.Ok? && r.value ==> exists u :: u in store.users && u.username == username && matches(password, u.password)
    {
      var rows := store.SelectUserRows(username);
      if rows.Err? {
        return Err(rows.error);
      }
      if |rows.value| == 0 {
        forall u | u in store.users ensures u.username != username {
          var i :| 0 <= i < |store.users| && store.users[i] == u;
        }
        return Ok(false);
      }
      r := Ok(matches(password, rows.value[0].password));
      if exists u :: u in store.users && u.username == username {
        var u :| u in store.users && u.username == username;
        var i :| 0 <= i < |store.users| && store.users[i] == u;
      }
    }
  }

  /** `Promise.all` over two queries: both results, or a failure if either
      failed. */
  function BothRows<A, B>(a: Result<A>, b: Result<B>): (r: Result<(A, B)>)
    ensures r.Ok? <==> a.Ok? && b.Ok?
    ensures r.Ok? ==> r.value == (a.value, b.value)
    ensures r.Err? ==> (a.Err? && r.error == a.error) || (b.Err? && r.error == b.error)
  {
    match (a, b)
    case (Err(e), _) => Err(e)
    case (_, Err(e)) => Err(e)
    case (Ok(x), Ok(y)) => Ok((x, y))
  }

  /** `result.rowCount > 0`, passing a failure through. */
  function RowCountPositive(result: Result<nat>): Result<bool>
  {
    match result
    case Ok(rowCount) => Ok(rowCount > 0)
    case Err(error) => Err(error)
  }

  /** A statement's row count is positive exactly when some row matches its
      clause. */
  lemma MatchExists(rows: seq<Todo>, w: TodoWhere)
    ensures |SelectTodos(rows, w)| > 0 <==> exists t :: t in rows && TodoMatches(w, t)
  {
    if exists t :: t in rows && TodoMatches(w, t) {
      var t :| t in rows && TodoMatches(w, t);
      var i :| 0 <= i < |rows| && rows[i] == t;
    }
    if |SelectTodos(rows, w)| > 0 {
      assert SelectTodos(rows, w)[0] in rows;
    }
  }

  lemma ListMatchExists(rows: seq<TodoList>, w: ListWhere)
    ensures |SelectLists(rows, w)| > 0 <==> exists l :: l in rows && ListMatches(w, l)
  {
    if exists l :: l in rows && ListMatches(w, l) {
      var l :| l in rows && ListMatches(w, l);
      var i :| 0 <= i < |rows| && rows[i] == l;
    }
    if |SelectLists(rows, w)| > 0 {
      assert SelectLists(rows, w)[0] in rows;
    }
  }
}
