/** An in-memory stand-in for the relational store behind `dbQuery`: the
    three tables as row sequences, the next values of the two serial id
    columns, and the failure the store is currently reporting, if any.  Each
    method runs one kind of statement row by row and reports the rows it
    selected or the number of rows it affected, as `result.rows` and
    `result.rowCount` do. */
module StoreModel {
  import opened Rows
  import opened Seqs
  import opened Queries
  import opened StoreErrors

  class Store {
    var users: seq<User>
    var todolists: seq<TodoList>
    var todos: seq<Todo>
    var nextListId: int
    var nextTodoId: int
    /** When present, every statement fails with this error and changes
        nothing (the store is unreachable or the query failed). */
    var outage: Option<StoreError>

    /** The constraints the store enforces: serial ids, one row per id and
        one list per (title, username). */
    ghost predicate Valid()
      reads this
    {
      ListsValid(todolists, nextListId) && TodosValid(todos, nextTodoId)
    }

    /** A store holding `users` and no todo lists or todos yet. */
    constructor (users: seq<User>)
      ensures Valid()
      ensures this.users == users && todolists == [] && todos == []
      ensures nextListId == 1 && nextTodoId == 1 && outage == None
    {
      this.users := users;
      todolists := [];
      todos := [];
      nextListId := 1;
      nextTodoId := 1;
      outage := None;
    }

    // ------------------------------------------------------------- todos

    /** `SELECT * FROM todos WHERE <w>`, rows in table order. */
    method SelectTodoRows(w: TodoWhere) returns (r: Result<seq<Todo>>)
      ensures outage.Some? ==> r == Err(outage.value)
      ensures outage.None? ==> r == Ok(SelectTodos(todos, w))
    {
      if outage.Some? {
        return Err(outage.value);
      }
      var table := todos;
      var rows: seq<Todo> := [];
      for k := 0 to |table|
        invariant rows == SelectTodos(table[..k], w)
      {
        FilterStep(table, TodoMatcher(w), k);
        if TodoMatches(w, table[k]) {
          rows := rows + [table[k]];
        }
      }
      assert table[..|table|] == table;
      r := Ok(rows);
    }

    /** `UPDATE todos SET <a> WHERE <w>`, updating the rows in place. */
    method UpdateTodoRows(w: TodoWhere, a: TodoSet) returns (r: Result<nat>)
      requires Valid()
      modifies this
      ensures Valid()
      ensures old(outage).Some? ==> r == Err(old(outage).value) && todos == old(todos)
      ensures old(outage).None? ==> r == Ok(|SelectTodos(old(todos), w)|)
      ensures old(outage).None? ==> todos == UpdateTodos(old(todos), w, a)
      ensures users == old(users) && todolists == old(todolists) && outage == old(outage)
      ensures nextListId == old(nextListId) && nextTodoId == old(nextTodoId)
    {
      if outage.Some? {
        return Err(outage.value);
      }
      var rows, count := UpdateTodoTable(todos, w, a);
      UpdateTodosValid(todos, w, a, nextTodoId);
      todos := rows;
      r := Ok(count);
    }

    /** `DELETE FROM todos WHERE <w>`. */
    method DeleteTodoRows(w: TodoWhere) returns (r: Result<nat>)
      requires Valid()
      modifies this
      ensures Valid()
      ensures old(outage).Some? ==> r == Err(old(outage).value) && todos == old(todos)
      ensures old(outage).None? ==> r == Ok(|SelectTodos(old(todos), w)|)
      ensures old(outage).None? ==> todos == DeleteTodos(old(todos), w)
      ensures users == old(users) && todolists == old(todolists) && outage == old(outage)
      ensures nextListId == old(nextListId) && nextTodoId == old(nextTodoId)
    {
      if outage.Some? {
        return Err(outage.value);
      }
      var kept, count := DeleteFromTodoTable(todos, w);
      forall t | t in kept ensures t in todos {
        var i :| 0 <= i < |kept| && kept[i] == t;
      }
      todos := kept;
      r := Ok(count);
    }

    /** `INSERT INTO todos (title, todolists_id, username) VALUES (...)`:
        the id comes from the serial column and `done` from its default,
        false. */
    method InsertTodoRow(title: string, listId: int, username: string) returns (r: Result<nat>)
      requires Valid()
      modifies this
      ensures Valid()
      ensures old(outage).Some? ==> r == Err(old(outage).value) && todos == old(todos) && nextTodoId == old(nextTodoId)
      ensures old(outage).None? ==>
                r == Ok(1) && nextTodoId == old(nextTodoId) + 1 &&
                todos == old(todos) + [Todo(old(nextTodoId), title, false, listId, username)]
      ensures users == old(users) && todolists == old(todolists) && outage == old(outage)
      ensures nextListId == old(nextListId)
    {
      if outage.Some? {
        return Err(outage.value);
      }
      todos := todos + [Todo(nextTodoId, title, false, listId, username)];
      nextTodoId := nextTodoId + 1;
      r := Ok(1);
    }

    // --------------------------------------------------------- todolists

    /** `SELECT * FROM todolists WHERE <w>`, rows in table order. */
    method SelectListRows(w: ListWhere) returns (r: Result<seq<TodoList>>)
      ensures outage.Some? ==> r == Err(outage.value)
      ensures outage.None? ==> r == Ok(SelectLists(todolists, w))
    {
      if outage.Some? {
        return Err(outage.value);
      }
      var table := todolists;
      var rows: seq<TodoList> := [];
      for k := 0 to |table|
        invariant rows == SelectLists(table[..k], w)
      {
        FilterStep(table, ListMatcher(w), k);
        if ListMatches(w, table[k]) {
          rows := rows + [table[k]];
        }
      }
      assert table[..|table|] == table;
      r := Ok(rows);
    }

    /** `UPDATE todolists SET title = $1 WHERE <w>`.  The statement fails
        with the unique-constraint error when it would give two lists of one
        user the same title. */
    method UpdateListTitles(w: ListWhere, title: string) returns (r: Result<nat>)
      requires Valid()
      requires w.id.Some?
      modifies this
      ensures Valid()
      ensures old(outage).Some? ==> r == Err(old(outage).value) && todolists == old(todolists)
      ensures old(outage).None? && RetitleConflict(old(todolists), w, title) ==>
                r == Err(UniqueViolation()) && todolists == old(todolists)
      ensures old(outage).None? && !RetitleConflict(old(todolists), w, title) ==>
                r == Ok(|SelectLists(old(todolists), w)|) && todolists == RetitleLists(old(todolists), w, title)
      ensures users == old(users) && todos == old(todos) && outage == old(outage)
      ensures nextListId == old(nextListId) && nextTodoId == old(nextTodoId)
    {
      if outage.Some? {
        return Err(outage.value);
      }
      if RetitleConflict(todolists, w, title) {
        return Err(UniqueViolation());
      }
      var rows, count := RetitleListTable(todolists, w, title);
      RetitleListsValid(todolists, w, title, nextListId);
      todolists := rows;
      r := Ok(count);
    }

    /** `DELETE FROM todolists WHERE <w>`.  The list's todos stay. */
    method DeleteListRows(w: ListWhere) returns (r: Result<nat>)
      requires Valid()
      modifies this
      ensures Valid()
      ensures old(outage).Some? ==> r == Err(old(outage).value) && todolists == old(todolists)
      ensures old(outage).None? ==> r == Ok(|SelectLists(old(todolists), w)|)
      ensures old(outage).None? ==> todolists == DeleteLists(old(todolists), w)
      ensures users == old(users) && todos == old(todos) && outage == old(outage)
      ensures nextListId == old(nextListId) && nextTodoId == old(nextTodoId)
    {
      if outage.Some? {
        return Err(outage.value);
      }
      var kept, count := DeleteFromListTable(todolists, w);
      forall l | l in kept ensures l in todolists {
        var i :| 0 <= i < |kept| && kept[i] == l;
      }
      todolists := kept;
      r := Ok(count);
    }

    /** `INSERT INTO todolists (title, username) VALUES ($1, $2)`; fails with
        the unique-constraint error when the user already has that title. */
    method InsertListRow(title: string, username: string) returns (r: Result<nat>)
      requires Valid()
      modifies this
      ensures Valid()
      ensures old(outage).Some? ==> r == Err(old(outage).value) && todolists == old(todolists) && nextListId == old(nextListId)
      ensures old(outage).None? && TitleTaken(old(todolists), title, username) ==>
                r == Err(UniqueViolation()) && todolists == old(todolists) && nextListId == old(nextListId)
      ensures old(outage).None? && !TitleTaken(old(todolists), title, username) ==>
                r == Ok(1) && nextListId == old(nextListId) + 1 &&
                todolists == old(todolists) + [TodoList(old(nextListId), title, username)]
      ensures users == old(users) && todos == old(todos) && outage == old(outage)
      ensures nextTodoId == old(nextTodoId)
    {
      if outage.Some? {
        return Err(outage.value);
      }
      if TitleTaken(todolists, title, username) {
        return Err(UniqueViolation());
      }
      InsertListValid(todolists, nextListId, title, username);
      todolists := todolists + [TodoList(nextListId, title, username)];
      nextListId := nextListId + 1;
      r := Ok(1);
    }

    // ------------------------------------------------------------- users

    /** `SELECT password FROM users WHERE username = $1`, rows in table
        order. */
    method SelectUserRows(username: string) returns (r: Result<seq<User>>)
      ensures outage.Some? ==> r == Err(outage.value)
      ensures outage.None? ==> r == Ok(SelectUsers(users, username))
    {
      if outage.Some? {
        return Err(outage.value);
      }
      var table := users;
      var rows: seq<User> := [];
      for k := 0 to |table|
        invariant rows == SelectUsers(table[..k], username)
      {
        FilterStep(table, UserNamed(username), k);
        if table[k].username == username {
          rows := rows + [table[k]];
        }
      }
      assert table[..|table|] == table;
      r := Ok(rows);
    }
  }

  // ------------------------------------------- row-by-row statement bodies

  /** The rows of an `UPDATE todos` after it ran, in table order, and how
      many it changed. */
  method UpdateTodoTable(table: seq<Todo>, w: TodoWhere, a: TodoSet) returns (rows: seq<Todo>, count: nat)
    ensures rows == UpdateTodos(table, w, a)
    ensures count == |SelectTodos(table, w)|
  {
    rows := [];
    count := 0;
    for k := 0 to |table|
      invariant rows == UpdateTodos(table[..k], w, a)
      invariant count == |SelectTodos(table[..k], w)|
    {
      FilterStep(table, TodoMatcher(w), k);
      MapWhereStep(table, TodoMatcher(w), Assigner(a), k);
      if TodoMatches(w, table[k]) {
        rows := rows + [Assign(a, table[k])];
        count := count + 1;
      } else {
        rows := rows + [table[k]];
      }
    }
    assert table[..|table|] == table;
  }

  /** The rows a `DELETE FROM todos` keeps, and how many it removed. */
  method DeleteFromTodoTable(table: seq<Todo>, w: TodoWhere) returns (kept: seq<Todo>, count: nat)
    ensures kept == DeleteTodos(table, w)
    ensures count == |SelectTodos(table, w)|
  {
    kept := [];
    count := 0;
    for k := 0 to |table|
      invariant kept == DeleteTodos(table[..k], w)
      invariant count == |SelectTodos(table[..k], w)|
    {
      FilterStep(table, TodoMatcher(w), k);
      FilterStep(table, Not(TodoMatcher(w)), k);
      if TodoMatches(w, table[k]) {
        count := count + 1;
      } else {
        kept := kept + [table[k]];
      }
    }
    assert table[..|table|] == table;
  }

  /** The rows of an `UPDATE todolists SET title` after it ran, in table
      order, and how many it changed. */
  method RetitleListTable(table: seq<TodoList>, w: ListWhere, title: string) returns (rows: seq<TodoList>, count: nat)
    ensures rows == RetitleLists(table, w, title)
    ensures count == |SelectLists(table, w)|
  {
    rows := [];
    count := 0;
    for k := 0 to |table|
      invariant rows == RetitleLists(table[..k], w, title)
      invariant count == |SelectLists(table[..k], w)|
    {
      FilterStep(table, ListMatcher(w), k);
      MapWhereStep(table, ListMatcher(w), Retitler(title), k);
      if ListMatches(w, table[k]) {
        rows := rows + [table[k].(title := title)];
        count := count + 1;
      } else {
        rows := rows + [table[k]];
      }
    }
    assert table[..|table|] == table;
  }

  /** The rows a `DELETE FROM todolists` keeps, and how many it removed. */
  method DeleteFromListTable(table: seq<TodoList>, w: ListWhere) returns (kept: seq<TodoList>, count: nat)
    ensures kept == DeleteLists(table, w)
    ensures count == |SelectLists(table, w)|
  {
    kept := [];
    count := 0;
    for k := 0 to |table|
      invariant kept == DeleteLists(table[..k], w)
      invariant count == |SelectLists(table[..k], w)|
    {
      FilterStep(table, ListMatcher(w), k);
      FilterStep(table, Not(ListMatcher(w)), k);
      if ListMatches(w, table[k]) {
        count := count + 1;
      } else {
        kept := kept + [table[k]];
      }
    }
    assert table[..|table|] == table;
  }
}
