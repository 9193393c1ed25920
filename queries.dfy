/** What each statement the service sends to the store does to a table.
    A statement is a WHERE clause (the conjuncts it binds, always including
    the owner's user name) plus its action: select, update, delete or
    insert.  The lemmas here state the scoping promise once per action: a
    statement bound to user `u` neither returns nor changes a row of any
    other user. */
module Queries {
  import opened Rows
  import opened Seqs

  // ---------------------------------------------------------------- todos

  /** A WHERE clause on `todos`: `todolists_id = $i` and `id = $j` when
      present, `NOT done` when `undoneOnly`, and `username = $k` always. */
  datatype TodoWhere = TodoWhere(listId: Option<int>, id: Option<int>, undoneOnly: bool, username: string)

  predicate TodoMatches(w: TodoWhere, t: Todo)
  {
    (w.listId.None? || t.listId == w.listId.value) &&
    (w.id.None? || t.id == w.id.value) &&
    (!w.undoneOnly || !t.done) &&
    t.username == w.username
  }

  function TodoMatcher(w: TodoWhere): Todo -> bool
  {
    t => TodoMatches(w, t)
  }

  /** The SET clause of an update on `todos`: `done = NOT done` or
      `done = true`. */
  datatype TodoSet = FlipDone | MarkDone

  function Assign(a: TodoSet, t: Todo): Todo
  {
    match a
    case FlipDone => t.(done := !t.done)
    case MarkDone => t.(done := true)
  }

  function Assigner(a: TodoSet): Todo -> Todo
  {
    t => Assign(a, t)
  }

  function TodoOwnedBy(u: string): Todo -> bool
  {
    (t: Todo) => t.username == u
  }

  function SelectTodos(rows: seq<Todo>, w: TodoWhere): seq<Todo>
  {
    Filter(rows, TodoMatcher(w))
  }

  function UpdateTodos(rows: seq<Todo>, w: TodoWhere, a: TodoSet): seq<Todo>
  {
    MapWhere(rows, TodoMatcher(w), Assigner(a))
  }

  function DeleteTodos(rows: seq<Todo>, w: TodoWhere): seq<Todo>
  {
    Filter(rows, Not(TodoMatcher(w)))
  }

  /** The rows of `todos` that belong to users other than `u`. */
  function ForeignTodos(rows: seq<Todo>, u: string): seq<Todo>
  {
    Filter(rows, Not(TodoOwnedBy(u)))
  }

  function OwnTodos(rows: seq<Todo>, u: string): seq<Todo>
  {
    Filter(rows, TodoOwnedBy(u))
  }

  /** Every id in `todos` is below the next serial value, and no two rows
      share an id. */
  predicate TodosValid(rows: seq<Todo>, nextId: int)
  {
    (forall t :: t in rows ==> t.id < nextId) &&
    (forall a, b :: a in rows && b in rows && a.id == b.id ==> a == b)
  }

  // ------------------------------------------------------------ todolists

  /** A WHERE clause on `todolists`: `id = $i` and `title = $j` when
      present, and `username = $k` always. */
  datatype ListWhere = ListWhere(id: Option<int>, title: Option<string>, username: string)

  predicate ListMatches(w: ListWhere, l: TodoList)
  {
    (w.id.None? || l.id == w.id.value) &&
    (w.title.None? || l.title == w.title.value) &&
    l.username == w.username
  }

  function ListMatcher(w: ListWhere): TodoList -> bool
  {
    l => ListMatches(w, l)
  }

  /** The SET clause `title = $1`. */
  function Retitler(title: string): TodoList -> TodoList
  {
    (l: TodoList) => l.(title := title)
  }

  function ListOwnedBy(u: string): TodoList -> bool
  {
    (l: TodoList) => l.username == u
  }

  function SelectLists(rows: seq<TodoList>, w: ListWhere): seq<TodoList>
  {
    Filter(rows, ListMatcher(w))
  }

  function RetitleLists(rows: seq<TodoList>, w: ListWhere, title: string): seq<TodoList>
  {
    MapWhere(rows, ListMatcher(w), Retitler(title))
  }

  function DeleteLists(rows: seq<TodoList>, w: ListWhere): seq<TodoList>
  {
    Filter(rows, Not(ListMatcher(w)))
  }

  function ForeignLists(rows: seq<TodoList>, u: string): seq<TodoList>
  {
    Filter(rows, Not(ListOwnedBy(u)))
  }

  function OwnLists(rows: seq<TodoList>, u: string): seq<TodoList>
  {
    Filter(rows, ListOwnedBy(u))
  }

  /** User `u` already has a todo list called `title`. */
  predicate TitleTaken(rows: seq<TodoList>, title: string, u: string)
  {
    exists l :: l in rows && l.title == title && l.username == u
  }

  /** Retitling the rows `w` selects would give two lists of one user the
      same title. */
  predicate RetitleConflict(rows: seq<TodoList>, w: ListWhere, title: string)
  {
    (exists a :: a in rows && ListMatches(w, a)) &&
    (exists b :: b in rows && !ListMatches(w, b) && b.username == w.username && b.title == title)
  }

  /** The table's integrity: ids below the next serial value, a row is
      determined by its id, and by its (title, username) pair. */
  predicate ListsValid(rows: seq<TodoList>, nextId: int)
  {
    (forall l :: l in rows ==> l.id < nextId) &&
    (forall a, b :: a in rows && b in rows && a.id == b.id ==> a == b) &&
    (forall a, b :: a in rows && b in rows && a.username == b.username && a.title == b.title ==> a == b)
  }

  // ---------------------------------------------------------------- users

  function UserNamed(u: string): User -> bool
  {
    (r: User) => r.username == u
  }

  function SelectUsers(rows: seq<User>, u: string): seq<User>
  {
    Filter(rows, UserNamed(u))
  }

  // ------------------------------------------------------ scoping: todos

  /** A select bound to `w.username` returns only that user's rows and
      would return the same rows if every other user's rows were absent. */
  lemma SelectTodosScoped(rows: seq<Todo>, w: TodoWhere)
    ensures forall t :: t in SelectTodos(rows, w) ==> t.username == w.username
    ensures SelectTodos(rows, w) == SelectTodos(OwnTodos(rows, w.username), w)
  {
    FilterNarrow(rows, TodoMatcher(w), TodoOwnedBy(w.username));
  }

  /** An update bound to `w.username` leaves every other user's rows, and
      their order, as they were. */
  lemma UpdateTodosScoped(rows: seq<Todo>, w: TodoWhere, a: TodoSet)
    ensures ForeignTodos(UpdateTodos(rows, w, a), w.username) == ForeignTodos(rows, w.username)
  {
    FilterAfterMapWhere(rows, TodoMatcher(w), Assigner(a), Not(TodoOwnedBy(w.username)));
  }

  lemma DeleteTodosScoped(rows: seq<Todo>, w: TodoWhere)
    ensures ForeignTodos(DeleteTodos(rows, w), w.username) == ForeignTodos(rows, w.username)
  {
    FilterNarrow(rows, Not(TodoOwnedBy(w.username)), Not(TodoMatcher(w)));
  }

  lemma InsertTodoScoped(rows: seq<Todo>, t: Todo)
    ensures ForeignTodos(rows + [t], t.username) == ForeignTodos(rows, t.username)
  {
    FilterConcat(rows, [t], Not(TodoOwnedBy(t.username)));
    assert [t][..0] == [];
  }

  // -------------------------------------------------- scoping: todolists

  lemma SelectListsScoped(rows: seq<TodoList>, w: ListWhere)
    ensures forall l :: l in SelectLists(rows, w) ==> l.username == w.username
    ensures SelectLists(rows, w) == SelectLists(OwnLists(rows, w.username), w)
  {
    FilterNarrow(rows, ListMatcher(w), ListOwnedBy(w.username));
  }

  lemma RetitleListsScoped(rows: seq<TodoList>, w: ListWhere, title: string)
    ensures ForeignLists(RetitleLists(rows, w, title), w.username) == ForeignLists(rows, w.username)
  {
    FilterAfterMapWhere(rows, ListMatcher(w), Retitler(title), Not(ListOwnedBy(w.username)));
  }

  lemma DeleteListsScoped(rows: seq<TodoList>, w: ListWhere)
    ensures ForeignLists(DeleteLists(rows, w), w.username) == ForeignLists(rows, w.username)
  {
    FilterNarrow(rows, Not(ListOwnedBy(w.username)), Not(ListMatcher(w)));
  }

  lemma InsertListScoped(rows: seq<TodoList>, l: TodoList)
    ensures ForeignLists(rows + [l], l.username) == ForeignLists(rows, l.username)
  {
    FilterConcat(rows, [l], Not(ListOwnedBy(l.username)));
    assert [l][..0] == [];
  }

  // ------------------------------------------------ row counts and effects

  /** A delete removes exactly the rows the same clause would select, so its
      row count is their number and nothing else goes. */
  lemma DeleteTodosCount(rows: seq<Todo>, w: TodoWhere)
    ensures |DeleteTodos(rows, w)| + |SelectTodos(rows, w)| == |rows|
    ensures multiset(DeleteTodos(rows, w)) + multiset(SelectTodos(rows, w)) == multiset(rows)
  {
    FilterSplitMultiset(rows, TodoMatcher(w));
  }

  lemma DeleteListsCount(rows: seq<TodoList>, w: ListWhere)
    ensures |DeleteLists(rows, w)| + |SelectLists(rows, w)| == |rows|
    ensures multiset(DeleteLists(rows, w)) + multiset(SelectLists(rows, w)) == multiset(rows)
  {
    FilterSplitMultiset(rows, ListMatcher(w));
  }

  /** `done = NOT done` applied twice under a clause that does not test
      `done` restores the table. */
  lemma ToggleTwiceRestores(rows: seq<Todo>, w: TodoWhere)
    requires !w.undoneOnly
    ensures UpdateTodos(UpdateTodos(rows, w, FlipDone), w, FlipDone) == rows
  {
    MapWhereTwice(rows, TodoMatcher(w), Assigner(FlipDone));
  }

  /** `done = true` under `... AND NOT done`: afterwards every row of the
      list and user is done, no row matches the clause any more (so a second
      run reports no row), and a second run changes nothing. */
  lemma MarkDoneCompletes(rows: seq<Todo>, w: TodoWhere)
    requires w.undoneOnly
    ensures forall t :: t in UpdateTodos(rows, w, MarkDone) && TodoMatches(w.(undoneOnly := false), t) ==> t.done
    ensures SelectTodos(UpdateTodos(rows, w, MarkDone), w) == []
    ensures UpdateTodos(UpdateTodos(rows, w, MarkDone), w, MarkDone) == UpdateTodos(rows, w, MarkDone)
  {
    var once := UpdateTodos(rows, w, MarkDone);
    forall t | t in once && TodoMatches(w.(undoneOnly := false), t)
      ensures t.done
    {
      var i :| 0 <= i < |once| && once[i] == t;
      assert TodoMatches(w.(undoneOnly := false), rows[i]);
    }
    var twice := UpdateTodos(once, w, MarkDone);
    forall i | 0 <= i < |once|
      ensures twice[i] == once[i] && !TodoMatches(w, once[i])
    {
    }
    FilterDropsAll(once, TodoMatcher(w));
  }

  /** Flipping `done` does not change which rows a clause without `NOT
      done` matches, so a repeated toggle reports what the first one did. */
  lemma FlipKeepsMatches(rows: seq<Todo>, w: TodoWhere)
    requires !w.undoneOnly
    ensures (exists t :: t in UpdateTodos(rows, w, FlipDone) && TodoMatches(w, t)) <==>
            (exists t :: t in rows && TodoMatches(w, t))
  {
    var once := UpdateTodos(rows, w, FlipDone);
    if exists t :: t in rows && TodoMatches(w, t) {
      var t :| t in rows && TodoMatches(w, t);
      var i :| 0 <= i < |rows| && rows[i] == t;
      UpdateTodosAt(rows, w, FlipDone, i);
      assert once[i] in once && TodoMatches(w, once[i]);
    }
    if exists t :: t in once && TodoMatches(w, t) {
      var t :| t in once && TodoMatches(w, t);
      var i :| 0 <= i < |once| && once[i] == t;
      UpdateTodosAt(rows, w, FlipDone, i);
      assert rows[i] in rows && TodoMatches(w, rows[i]);
    }
  }

  /** Flipping `done` selects and changes exactly the rows the clause
      matches; the other rows are kept in place. */
  lemma UpdateTodosAt(rows: seq<Todo>, w: TodoWhere, a: TodoSet, i: int)
    requires 0 <= i < |rows|
    ensures |UpdateTodos(rows, w, a)| == |rows|
    ensures TodoMatches(w, rows[i]) ==> UpdateTodos(rows, w, a)[i] == Assign(a, rows[i])
    ensures !TodoMatches(w, rows[i]) ==> UpdateTodos(rows, w, a)[i] == rows[i]
  {
  }

  // ------------------------------------------------------------ integrity

  lemma UpdateTodosValid(rows: seq<Todo>, w: TodoWhere, a: TodoSet, nextId: int)
    requires TodosValid(rows, nextId)
    ensures TodosValid(UpdateTodos(rows, w, a), nextId)
  {
    var r := UpdateTodos(rows, w, a);
    forall t | t in r ensures t.id < nextId {
      var i :| 0 <= i < |r| && r[i] == t;
      assert rows[i].id == t.id;
    }
    forall x, y | x in r && y in r && x.id == y.id ensures x == y {
      var i :| 0 <= i < |r| && r[i] == x;
      var j :| 0 <= j < |r| && r[j] == y;
      assert rows[i].id == x.id && rows[j].id == y.id;
      assert rows[i] == rows[j];
    }
  }

  lemma InsertListValid(rows: seq<TodoList>, nextId: int, title: string, u: string)
    requires ListsValid(rows, nextId)
    requires !TitleTaken(rows, title, u)
    ensures ListsValid(rows + [TodoList(nextId, title, u)], nextId + 1)
  {
  }

  /** A retitle that the unique constraint lets through keeps the table's
      integrity. */
  lemma RetitleListsValid(rows: seq<TodoList>, w: ListWhere, title: string, nextId: int)
    requires ListsValid(rows, nextId)
    requires w.id.Some?
    requires !RetitleConflict(rows, w, title)
    ensures ListsValid(RetitleLists(rows, w, title), nextId)
  {
    var r := RetitleLists(rows, w, title);
    forall i, j | 0 <= i < |r| && 0 <= j < |r|
      ensures r[i].id < nextId
      ensures r[i].id == r[j].id ==> r[i] == r[j]
      ensures r[i].username == r[j].username && r[i].title == r[j].title ==> r[i] == r[j]
    {
      RetitlePairValid(rows, w, title, nextId, i, j);
    }
    forall x | x in r ensures exists i :: 0 <= i < |r| && r[i] == x {
    }
  }

  /** The integrity conditions for two rows of a retitled table, by the
      rows they came from. */
  lemma RetitlePairValid(rows: seq<TodoList>, w: ListWhere, title: string, nextId: int, i: int, j: int)
    requires ListsValid(rows, nextId)
    requires w.id.Some?
    requires !RetitleConflict(rows, w, title)
    requires 0 <= i < |rows| && 0 <= j < |rows|
    ensures var r := RetitleLists(rows, w, title);
            r[i].id < nextId &&
            (r[i].id == r[j].id ==> r[i] == r[j]) &&
            (r[i].username == r[j].username && r[i].title == r[j].title ==> r[i] == r[j])
  {
    var r := RetitleLists(rows, w, title);
    var a, b := rows[i], rows[j];
    assert a in rows && b in rows;
    assert r[i] == if ListMatches(w, a) then a.(title := title) else a;
    assert r[j] == if ListMatches(w, b) then b.(title := title) else b;
    if ListMatches(w, a) && !ListMatches(w, b) && b.username == w.username && b.title == title {
      assert RetitleConflict(rows, w, title);
    }
    if ListMatches(w, b) && !ListMatches(w, a) && a.username == w.username && a.title == title {
      assert RetitleConflict(rows, w, title);
    }
  }
}
