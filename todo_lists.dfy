/** The list logic of the persistence service: when a todo list counts as
    done, how todos are attached to their list, and how the lists are split
    into the undone ones followed by the done ones. */
module TodoLists {
  import opened Rows
  import opened Seqs
  import opened Titles

  // ------------------------------------------------------------ done lists

  /** `isDoneTodoList`: the list has a todo and every todo is done. */
  predicate IsDoneTodoList(l: ListWithTodos)
  {
    |l.todos| > 0 && forall i :: 0 <= i < |l.todos| ==> l.todos[i].done
  }

  /** `hasUndoneTodos`: some todo of the list is not done. */
  predicate HasUndoneTodos(l: ListWithTodos)
  {
    exists i :: 0 <= i < |l.todos| && !l.todos[i].done
  }

  /** A list is done exactly when it has todos and none of them is undone;
      an empty list is neither done nor has undone todos. */
  lemma DoneIffNoUndoneTodos(l: ListWithTodos)
    ensures IsDoneTodoList(l) <==> |l.todos| > 0 && !HasUndoneTodos(l)
    ensures |l.todos| > 0 ==> (IsDoneTodoList(l) <==> !HasUndoneTodos(l))
    ensures |l.todos| == 0 ==> !IsDoneTodoList(l) && !HasUndoneTodos(l)
  {
  }

  /** The characterisation in terms of the todos themselves. */
  lemma DoneIffAllTodosDone(l: ListWithTodos)
    ensures IsDoneTodoList(l) <==> l.todos != [] && forall t :: t in l.todos ==> t.done
  {
    if l.todos != [] && forall t :: t in l.todos ==> t.done {
      forall i | 0 <= i < |l.todos| ensures l.todos[i].done {
        assert l.todos[i] in l.todos;
      }
    }
  }

  // -------------------------------------------------- attaching the todos

  function BelongsTo(listId: int): Todo -> bool
  {
    (t: Todo) => t.listId == listId
  }

  /** The intended attachment (the filter compares the todo's list id with
      the list's id): each list, in order, with the todos that reference it,
      in the order the todos came. */
  function AttachTodos(lists: seq<TodoList>, todos: seq<Todo>): seq<ListWithTodos>
  {
    seq(|lists|, i requires 0 <= i < |lists| => ListWithTodos(lists[i], Filter(todos, BelongsTo(lists[i].id))))
  }

  /** Attaching keeps the lists and their order, and gives each list exactly
      the todos whose list id is the list's id. */
  lemma AttachMatchesById(lists: seq<TodoList>, todos: seq<Todo>)
    ensures |AttachTodos(lists, todos)| == |lists|
    ensures forall i :: 0 <= i < |lists| ==> AttachTodos(lists, todos)[i].list == lists[i]
    ensures forall i, t :: 0 <= i < |lists| && t in AttachTodos(lists, todos)[i].todos ==>
              t in todos && t.listId == lists[i].id
    ensures forall i, k :: 0 <= i < |lists| && 0 <= k < |todos| && todos[k].listId == lists[i].id ==>
              todos[k] in AttachTodos(lists, todos)[i].todos
  {
    var r := AttachTodos(lists, todos);
    forall i, t | 0 <= i < |lists| && t in r[i].todos
      ensures t in todos && t.listId == lists[i].id
    {
      var k :| 0 <= k < |r[i].todos| && r[i].todos[k] == t;
    }
  }

  /** The list of every todo in the filter's input, as JavaScript sees the
      value of the assignment `todoList.id = todo.todolist_id`: a number is
      truthy unless it is zero. */
  function TruthyListId(): Todo -> bool
  {
    (t: Todo) => t.listId != 0
  }

  /** Attachment as written at lib/pg-persistence.js:35: the filter's
      callback assigns the todo's list id to the list's id instead of
      comparing them.  Every list therefore receives every todo with a
      non-zero list id, and its id ends as the list id of the last todo. */
  function AttachTodosAsWritten(lists: seq<TodoList>, todos: seq<Todo>): seq<ListWithTodos>
  {
    seq(|lists|, i requires 0 <= i < |lists| =>
      ListWithTodos(
        if todos == [] then lists[i] else lists[i].(id := todos[|todos| - 1].listId),
        Filter(todos, TruthyListId())))
  }

  /** As written, every list gets the same todos, whatever its id. */
  lemma AsWrittenIgnoresListId(lists: seq<TodoList>, todos: seq<Todo>)
    ensures |AttachTodosAsWritten(lists, todos)| == |lists|
    ensures forall i, j :: 0 <= i < |lists| && 0 <= j < |lists| ==>
              AttachTodosAsWritten(lists, todos)[i].todos == AttachTodosAsWritten(lists, todos)[j].todos
  {
  }

  /** Two lists of one user and one todo of the second: as written the
      first list receives the todo and takes the second list's id; the
      intended attachment leaves the first list empty. */
  lemma AsWrittenAttachesForeignTodo()
    ensures var lists := [TodoList(1, "Chores", "alice"), TodoList(2, "Groceries", "alice")];
            var todos := [Todo(10, "Milk", false, 2, "alice")];
            AttachTodosAsWritten(lists, todos)[0] == ListWithTodos(TodoList(2, "Chores", "alice"), todos) &&
            AttachTodos(lists, todos)[0] == ListWithTodos(TodoList(1, "Chores", "alice"), [])
  {
    var lists := [TodoList(1, "Chores", "alice"), TodoList(2, "Groceries", "alice")];
    var todos := [Todo(10, "Milk", false, 2, "alice")];
    assert todos[..0] == [];
    assert Filter(todos, TruthyListId()) == todos;
    assert Filter(todos, BelongsTo(1)) == [];
  }

  /** `allTodoLists.forEach(...)` with the comparison the comment at line 18
      describes. */
  method AttachTodosToLists(lists: seq<TodoList>, todos: seq<Todo>) returns (r: seq<ListWithTodos>)
    ensures r == AttachTodos(lists, todos)
  {
    r := [];
    for k := 0 to |lists|
      invariant r == AttachTodos(lists[..k], todos)
    {
      r := r + [ListWithTodos(lists[k], Filter(todos, BelongsTo(lists[k].id)))];
    }
    assert lists[..|lists|] == lists;
  }

  // ------------------------------------------------------------ partition

  function UndoneLists(lists: seq<ListWithTodos>): seq<ListWithTodos>
  {
    Filter(lists, Not(IsDoneTodoList))
  }

  function DoneLists(lists: seq<ListWithTodos>): seq<ListWithTodos>
  {
    Filter(lists, IsDoneTodoList)
  }

  /** Every undone list comes before every done list. */
  predicate UndoneBeforeDone(lists: seq<ListWithTodos>)
  {
    forall i, j | 0 <= i < |lists| && 0 <= j < |lists| && !IsDoneTodoList(lists[i]) && IsDoneTodoList(lists[j]) :: i < j
  }

  /** What `_partitionTodoLists` returns: `undone.concat(done)`. */
  function Partition(lists: seq<ListWithTodos>): seq<ListWithTodos>
  {
    UndoneLists(lists) + DoneLists(lists)
  }

  /** No list is added, dropped or duplicated. */
  lemma PartitionPermutes(lists: seq<ListWithTodos>)
    ensures |Partition(lists)| == |lists|
    ensures multiset(Partition(lists)) == multiset(lists)
  {
    FilterSplitMultiset(lists, IsDoneTodoList);
  }

  /** The partition puts the undone lists first, whatever the input. */
  lemma PartitionUndoneFirst(lists: seq<ListWithTodos>)
    ensures UndoneBeforeDone(Partition(lists))
  {
    var u, d := UndoneLists(lists), DoneLists(lists);
    var r := Partition(lists);
    forall k | 0 <= k < |u| ensures !IsDoneTodoList(r[k]) {
      assert r[k] == u[k] && Not(IsDoneTodoList)(u[k]);
    }
    forall k | |u| <= k < |r| ensures IsDoneTodoList(r[k]) {
      assert r[k] == d[k - |u|];
    }
  }

  /** Stability: the undone lists of the result are the undone lists of the
      input in their input order, and likewise the done lists. */
  lemma PartitionStable(lists: seq<ListWithTodos>)
    ensures UndoneLists(Partition(lists)) == UndoneLists(lists)
    ensures DoneLists(Partition(lists)) == DoneLists(lists)
  {
    var u, d := UndoneLists(lists), DoneLists(lists);
    FilterConcat(u, d, Not(IsDoneTodoList));
    FilterConcat(u, d, IsDoneTodoList);
    FilterKeepsAll(u, Not(IsDoneTodoList));
    FilterKeepsAll(d, IsDoneTodoList);
    assert forall x :: x in d ==> !Not(IsDoneTodoList)(x);
    FilterDropsAll(d, Not(IsDoneTodoList));
    FilterDropsAll(u, IsDoneTodoList);
  }

  /** `lower(a.title) <= lower(b.title)` for list rows. */
  predicate ListTitleLe(a: TodoList, b: TodoList)
  {
    TitleLe(a.title, b.title)
  }

  predicate ListsTitleLe(a: ListWithTodos, b: ListWithTodos)
  {
    TitleLe(a.list.title, b.list.title)
  }

  /** The order the service promises: undone before done, then by
      case-insensitive title. */
  predicate CompletionThenTitleLe(a: ListWithTodos, b: ListWithTodos)
  {
    (IsDoneTodoList(a) ==> IsDoneTodoList(b)) &&
    (IsDoneTodoList(a) == IsDoneTodoList(b) ==> ListsTitleLe(a, b))
  }

  /** Attaching todos keeps the order of the list rows. */
  lemma AttachKeepsTitleOrder(lists: seq<TodoList>, todos: seq<Todo>)
    requires Sorted(lists, ListTitleLe)
    ensures Sorted(AttachTodos(lists, todos), ListsTitleLe)
  {
  }

  /** Lists that arrive in title order leave in completion-then-title
      order: each group keeps the title order it had. */
  lemma PartitionKeepsTitleOrder(lists: seq<ListWithTodos>)
    requires Sorted(lists, ListsTitleLe)
    ensures Sorted(UndoneLists(Partition(lists)), ListsTitleLe)
    ensures Sorted(DoneLists(Partition(lists)), ListsTitleLe)
    ensures Sorted(Partition(lists), CompletionThenTitleLe)
  {
    var u, d := UndoneLists(lists), DoneLists(lists);
    FilterSorted(lists, Not(IsDoneTodoList), ListsTitleLe);
    FilterSorted(lists, IsDoneTodoList, ListsTitleLe);
    PartitionStable(lists);
    forall i | 0 <= i < |u| ensures !IsDoneTodoList(u[i]) {
      assert Not(IsDoneTodoList)(u[i]);
    }
    GroupsInOrder(u, d);
  }

  /** Undone lists in title order followed by done lists in title order
      are in completion-then-title order. */
  lemma GroupsInOrder(u: seq<ListWithTodos>, d: seq<ListWithTodos>)
    requires Sorted(u, ListsTitleLe) && Sorted(d, ListsTitleLe)
    requires forall i :: 0 <= i < |u| ==> !IsDoneTodoList(u[i])
    requires forall i :: 0 <= i < |d| ==> IsDoneTodoList(d[i])
    ensures Sorted(u + d, CompletionThenTitleLe)
  {
    var r := u + d;
    forall i, j | 0 <= i < j < |r|
      ensures CompletionThenTitleLe(r[i], r[j])
    {
      if j < |u| {
        assert r[i] == u[i] && r[j] == u[j];
      } else if i >= |u| {
        assert r[i] == d[i - |u|] && r[j] == d[j - |u|];
      } else {
        assert r[i] == u[i] && r[j] == d[j - |u|];
      }
    }
  }

  /** `_partitionTodoLists`: one pass pushing each list onto `undone` or
      `done`, then `undone.concat(done)`. */
  method PartitionTodoLists(todoLists: seq<ListWithTodos>) returns (r: seq<ListWithTodos>)
    ensures r == Partition(todoLists)
    ensures multiset(r) == multiset(todoLists)
    ensures UndoneBeforeDone(r)
  {
    var undone: seq<ListWithTodos> := [];
    var done: seq<ListWithTodos> := [];
    for k := 0 to |todoLists|
      invariant undone == UndoneLists(todoLists[..k])
      invariant done == DoneLists(todoLists[..k])
    {
      assert todoLists[..k + 1][..k] == todoLists[..k];
      if IsDoneTodoList(todoLists[k]) {
        done := done + [todoLists[k]];
      } else {
        undone := undone + [todoLists[k]];
      }
    }
    assert todoLists[..|todoLists|] == todoLists;
    r := undone + done;
    PartitionPermutes(todoLists);
    PartitionUndoneFirst(todoLists);
  }

  // --------------------------------------------------------- todo order

  /** `ORDER BY done, lower(title)`: false sorts before true. */
  predicate DoneThenTitleLe(a: Todo, b: Todo)
  {
    (a.done ==> b.done) && (a.done == b.done ==> TitleLe(a.title, b.title))
  }

  predicate TodoTitleLe(a: Todo, b: Todo)
  {
    TitleLe(a.title, b.title)
  }

  function IsDoneTodo(): Todo -> bool
  {
    (t: Todo) => t.done
  }

  predicate UndoneTodosFirst(todos: seq<Todo>)
  {
    forall i, j | 0 <= i < |todos| && 0 <= j < |todos| && !todos[i].done && todos[j].done :: i < j
  }

  /** Todos in `ORDER BY done, lower(title)` order have every undone todo
      before every done one, and each group in title order. */
  lemma DoneThenTitleOrder(todos: seq<Todo>)
    requires Sorted(todos, DoneThenTitleLe)
    ensures UndoneTodosFirst(todos)
    ensures Sorted(Filter(todos, Not(IsDoneTodo())), TodoTitleLe)
    ensures Sorted(Filter(todos, IsDoneTodo()), TodoTitleLe)
  {
    FilterSorted(todos, Not(IsDoneTodo()), DoneThenTitleLe);
    FilterSorted(todos, IsDoneTodo(), DoneThenTitleLe);
    var u := Filter(todos, Not(IsDoneTodo()));
    var d := Filter(todos, IsDoneTodo());
    forall i, j | 0 <= i < j < |u| ensures TodoTitleLe(u[i], u[j]) {
      assert DoneThenTitleLe(u[i], u[j]);
      assert Not(IsDoneTodo())(u[i]) && Not(IsDoneTodo())(u[j]);
    }
    forall i, j | 0 <= i < j < |d| ensures TodoTitleLe(d[i], d[j]) {
      assert DoneThenTitleLe(d[i], d[j]);
      assert IsDoneTodo()(d[i]) && IsDoneTodo()(d[j]);
    }
  }

  // ------------------------------------------------ the sorted listing

  /** What `sortedTodoLists` promises of its result, given list rows in
      title order: a rearrangement of the lists with their todos, undone
      lists first, each group in title order, and every attached todo
      belonging to its list. */
  lemma SortedListingProperties(ordered: seq<TodoList>, todos: seq<Todo>)
    requires Sorted(ordered, ListTitleLe)
    ensures var r := Partition(AttachTodos(ordered, todos));
            multiset(r) == multiset(AttachTodos(ordered, todos)) &&
            UndoneBeforeDone(r) &&
            Sorted(r, CompletionThenTitleLe) &&
            (forall l :: l in r ==> l.list in ordered) &&
            (forall l, t :: l in r && t in l.todos ==> t in todos && t.listId == l.list.id)
  {
    var attached := AttachTodos(ordered, todos);
    var r := Partition(attached);
    PartitionPermutes(attached);
    PartitionUndoneFirst(attached);
    AttachKeepsTitleOrder(ordered, todos);
    PartitionKeepsTitleOrder(attached);
    AttachMatchesById(ordered, todos);
    forall l | l in r
      ensures l.list in ordered
      ensures forall t :: t in l.todos ==> t in todos && t.listId == l.list.id
    {
      assert l in multiset(attached);
      var i :| 0 <= i < |attached| && attached[i] == l;
    }
  }

  // ---------------------------------------------- the orderings can be met

  lemma ListTitleOrderIsTotal()
    ensures TotalPreorder(ListTitleLe)
  {
    forall a, b ensures ListTitleLe(a, b) || ListTitleLe(b, a) {
      KeyLeTotal(Lower(a.title), Lower(b.title));
    }
    forall a, b, c | ListTitleLe(a, b) && ListTitleLe(b, c) ensures ListTitleLe(a, c) {
      KeyLeTransitive(Lower(a.title), Lower(b.title), Lower(c.title));
    }
  }

  /** Every set of list rows has an arrangement in `lower(title)` order, so
      the ordering `ALL_TODOLISTS` asks for can always be delivered. */
  lemma TitleOrderExists(lists: seq<TodoList>)
    ensures exists ordered :: multiset(ordered) == multiset(lists) && Sorted(ordered, ListTitleLe)
  {
    ListTitleOrderIsTotal();
    SortByOrders(lists, ListTitleLe);
    var ordered := SortBy(lists, ListTitleLe);
    assert multiset(ordered) == multiset(lists) && Sorted(ordered, ListTitleLe);
  }

  lemma DoneThenTitleOrderIsTotal()
    ensures TotalPreorder(DoneThenTitleLe)
  {
    forall a, b ensures DoneThenTitleLe(a, b) || DoneThenTitleLe(b, a) {
      KeyLeTotal(Lower(a.title), Lower(b.title));
    }
    forall a, b, c | DoneThenTitleLe(a, b) && DoneThenTitleLe(b, c) ensures DoneThenTitleLe(a, c) {
      if a.done == c.done {
        KeyLeTransitive(Lower(a.title), Lower(b.title), Lower(c.title));
      }
    }
  }

  /** Every set of todo rows has an arrangement in `done, lower(title)`
      order, the ordering `sortedTodos` asks for. */
  lemma DoneThenTitleOrderExists(todos: seq<Todo>)
    ensures exists ordered :: multiset(ordered) == multiset(todos) && Sorted(ordered, DoneThenTitleLe)
  {
    DoneThenTitleOrderIsTotal();
    SortByOrders(todos, DoneThenTitleLe);
    var ordered := SortBy(todos, DoneThenTitleLe);
    assert multiset(ordered) == multiset(todos) && Sorted(ordered, DoneThenTitleLe);
  }
}
