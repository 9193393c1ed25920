/** Sequences of calls on the service, as a route handler makes them. */
module Scenarios {
  import opened Rows
  import opened Queries
  import opened StoreModel
  import opened Persistence

  /** Toggling the same todo twice leaves the todos table as it was, and
      both calls report the same thing. */
  method ToggleTwice(service: PgPersistence, todoListId: int, todoId: int)
    returns (first: Result<bool>, second: Result<bool>)
    requires service.store.Valid()
    modifies service.store
    ensures service.store.Valid()
    ensures service.store.todos == old(service.store.todos)
    ensures first == second
  {
    ghost var before := service.store.todos;
    first := service.ToggleDoneTodo(todoListId, todoId);
    second := service.ToggleDoneTodo(todoListId, todoId);
    if service.store.outage.None? {
      var w := TodoById(todoListId, todoId, service.username);
      ToggleTwiceRestores(before, w);
      FlipKeepsMatches(before, w);
    }
  }

  /** Two users may each have a list called "Chores"; the second attempt
      by the same user is answered with false and changes nothing. */
  method DuplicateTitle(users: seq<User>)
    returns (aliceFirst: Result<bool>, bobFirst: Result<bool>, aliceAgain: Result<bool>, lists: seq<TodoList>)
    ensures aliceFirst == Ok(true) && bobFirst == Ok(true) && aliceAgain == Ok(false)
    ensures lists == [TodoList(1, "Chores", "alice"), TodoList(2, "Chores", "bob")]
  {
    var store := new Store(users);
    var alice := new PgPersistence(Session("alice"), store);
    var bob := new PgPersistence(Session("bob"), store);
    ghost var aliceList, bobList := TodoList(1, "Chores", "alice"), TodoList(2, "Chores", "bob");
    assert [aliceList] + [bobList] == [aliceList, bobList];
    assert !TitleTaken([], "Chores", "alice");
    aliceFirst := alice.CreateTodoList("Chores");
    assert store.outage.None? && store.nextListId == 2;
    assert store.todolists == [aliceList];
    assert !TitleTaken([aliceList], "Chores", "bob");
    bobFirst := bob.CreateTodoList("Chores");
    assert store.outage.None?;
    assert store.todolists == [aliceList] + [bobList];
    assert aliceList in store.todolists;
    aliceAgain := alice.CreateTodoList("Chores");
    lists := store.todolists;
  }
}
