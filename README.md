# Todo-app persistence service, modelled in Dafny

This project models `PgPersistence`, the persistence service of a small
multi-user todo application. The service is built once per request from the
session. It is bound to the session's user name and answers every question
the web layer asks about todo lists and todos by sending one or two SQL
statements to a relational store. The model has these parts:

- **Rows** (`rows.dfy`): the three tables' rows (`users`, `todolists`,
  `todos`), a list together with its todos, the store's failure, and
  `Result`/`Option`. The model uses the single field `listId` for the todo's
  list column. The statements call that column `todolists_id`; only the
  property read in the filter callback at line 35 spells it `todolist_id`.
- **Statements** (`queries.dfy`): each WHERE clause the service sends, as a
  datatype, and what a SELECT, UPDATE and DELETE with that clause does to a
  table. Lemmas prove scoping: no statement reads or changes a row of
  another user. Further lemmas cover row counts, toggling twice, completing
  all todos, and the table's integrity.
- **The store** (`store.dfy`): a class holding the tables as sequences, the
  next serial ids, and an optional failure. When the failure is set, every
  statement fails with it and changes nothing. Each select, update and delete is a
  loop over the rows. It is proved to compute the statement's meaning from
  `queries.dfy` and to keep the integrity invariant.
- **List logic** (`todo_lists.dfy`): the done-list predicate and its
  companion, and attaching todos to their list. Also the stable partition
  into undone lists followed by done lists, and the order the sorted
  listings come out in.
- **Error classifier** (`store_errors.dfy`): recognises the duplicate-key
  failure by its text.
- **The service** (`persistence.dfy`): class `PgPersistence` with a constant
  `username` and one method per operation. Every method states the new table
  contents, the value it resolves to, and that other users' rows are
  unchanged.
- **Scenarios** (`scenarios.dfy`): toggling a todo twice, and two users
  creating a list with the same title.

The store's `ORDER BY` is not implemented. The ordered result set is a
parameter of `SortedTodoLists` and `SortedTodos`. Their preconditions say it
holds exactly the selected rows, in the ordering the statement asks for. The
model then proves that the partition keeps that order inside each group.

## Model

| member | source | states |
|---|---|---|
| Persistence.PgPersistence.constructor | lib/pg-persistence.js:5-7 | the service is bound to the session's user name, fixed from then on |
| TodoLists.IsDoneTodoList | lib/pg-persistence.js:10-12 | `isDoneTodoList`: the list has a todo and every todo is done; characterised by TodoLists.DoneIffAllTodosDone and TodoLists.DoneIffNoUndoneTodos |
| TodoLists.HasUndoneTodos | lib/pg-persistence.js:14-16 | `hasUndoneTodos`: some todo of the list is not done; related to the done predicate by TodoLists.DoneIffNoUndoneTodos |
| TodoLists.AttachTodos | lib/pg-persistence.js:33-37 | the intended attachment: each list with the todos whose list id is its id; characterised by TodoLists.AttachMatchesById |
| TodoLists.AttachTodosAsWritten | lib/pg-persistence.js:35 | the attachment as written, where the callback assigns the todo's list id to the list; characterised by TodoLists.AsWrittenIgnoresListId and TodoLists.AsWrittenAttachesForeignTodo |
| TodoLists.Partition | lib/pg-persistence.js:43-55 | `_partitionTodoLists`: the undone lists followed by the done lists; characterised by TodoLists.PartitionPermutes, TodoLists.PartitionUndoneFirst and TodoLists.PartitionStable |
| TodoLists.DoneIffNoUndoneTodos | lib/pg-persistence.js:9-16 | a list is done iff it has todos and none is undone; for a non-empty list done equals not having undone todos; an empty list is neither |
| TodoLists.DoneIffAllTodosDone | lib/pg-persistence.js:9-11 | a list is done iff it is non-empty and every todo in it is done |
| TodoLists.AttachMatchesById | lib/pg-persistence.js:33-37 | attaching keeps the lists in order and gives each list exactly the todos whose list id is its id |
| TodoLists.AttachTodosToLists | lib/pg-persistence.js:33-37 | the loop over the lists computes the intended attachment |
| TodoLists.AsWrittenIgnoresListId | lib/pg-persistence.js:35 | with the assignment as written, every list receives the same todos whatever its id |
| TodoLists.AsWrittenAttachesForeignTodo | lib/pg-persistence.js:33-37 | concrete input where, as written, a list gets another list's todo and that list's id, while the intended attachment gives it none |
| TodoLists.PartitionTodoLists | lib/pg-persistence.js:43-55 | the loop returns the undone lists followed by the done lists: a permutation of its input with every undone list before every done one |
| TodoLists.PartitionPermutes | lib/pg-persistence.js:43-55 | the partition has the input's length and multiset of lists |
| TodoLists.PartitionUndoneFirst | lib/pg-persistence.js:47-54 | every undone list comes before every done list |
| TodoLists.PartitionStable | lib/pg-persistence.js:47-54 | the undone group and the done group keep their input order |
| TodoLists.AttachKeepsTitleOrder | lib/pg-persistence.js:20-37 | attaching todos keeps the lists' lower(title) order |
| TodoLists.PartitionKeepsTitleOrder | lib/pg-persistence.js:20-54 | from input in lower(title) order, each group stays in title order and the whole result is ordered by completion then title |
| TodoLists.SortedListingProperties | lib/pg-persistence.js:18-40 | the listing is a rearrangement of the lists with their todos, undone first, each group in title order, each todo under its own list |
| TodoLists.DoneThenTitleOrder | lib/pg-persistence.js:58 | todos in `done, lower(title)` order have all undone todos first and each group in title order |
| Titles.KeyLeTotal | lib/pg-persistence.js:20 | the `lower(title)` order is total: any two titles are comparable |
| Titles.KeyLeTransitive | lib/pg-persistence.js:20 | the `lower(title)` order is transitive |
| Seqs.InsertSortedKeepsOrder | lib/pg-persistence.js:20 | under a total preorder, inserting into an ordered sequence adds exactly that element and keeps the order |
| Seqs.SortByOrders | lib/pg-persistence.js:20 | under a total preorder, insertion sort yields a rearrangement of its input in that order |
| TodoLists.ListTitleOrderIsTotal | lib/pg-persistence.js:20 | ordering lists by `lower(title)` is a total preorder |
| TodoLists.TitleOrderExists | lib/pg-persistence.js:20 | every set of list rows has an arrangement in `lower(title)` order, so the precondition of `SortedTodoLists` can always be met |
| TodoLists.DoneThenTitleOrderIsTotal | lib/pg-persistence.js:58 | ordering todos by `done, lower(title)` is a total preorder |
| TodoLists.DoneThenTitleOrderExists | lib/pg-persistence.js:58 | every set of todo rows has an arrangement in `done, lower(title)` order, so the precondition of `SortedTodos` can always be met |
| StoreErrors.IsUniqueConstraintViolation | lib/pg-persistence.js:161-163 | true iff the error text contains the duplicate-key phrase at some position |
| StoreErrors.UniqueViolationRecognised | lib/pg-persistence.js:152-154 | the store's duplicate-title failure is classified as a unique-constraint violation |
| StoreErrors.RecognisedInContext | lib/pg-persistence.js:162 | the phrase is recognised whatever text surrounds it |
| Queries.SelectTodosScoped | lib/pg-persistence.js:58-61 | a todos select bound to a user returns only that user's rows, the same as over that user's rows alone |
| Queries.SelectListsScoped | lib/pg-persistence.js:20-24 | a todolists select bound to a user returns only that user's rows, the same as over that user's rows alone |
| Queries.UpdateTodosScoped | lib/pg-persistence.js:92-95 | an update bound to a user leaves every other user's todos as they were |
| Queries.DeleteTodosScoped | lib/pg-persistence.js:101-103 | a delete bound to a user leaves every other user's todos as they were |
| Queries.InsertTodoScoped | lib/pg-persistence.js:116-118 | inserting a user's todo leaves every other user's todos as they were |
| Queries.RetitleListsScoped | lib/pg-persistence.js:132-134 | a retitle bound to a user leaves every other user's lists as they were |
| Queries.DeleteListsScoped | lib/pg-persistence.js:124-126 | a list delete bound to a user leaves every other user's lists as they were |
| Queries.InsertListScoped | lib/pg-persistence.js:147-150 | inserting a user's list leaves every other user's lists as they were |
| Queries.DeleteTodosCount | lib/pg-persistence.js:101-104 | a delete removes exactly the rows the same clause selects, so its row count is their number |
| Queries.DeleteListsCount | lib/pg-persistence.js:124-128 | a list delete removes exactly the rows the same clause selects |
| Queries.ToggleTwiceRestores | lib/pg-persistence.js:91-96 | `done = NOT done` applied twice restores the table |
| Queries.FlipKeepsMatches | lib/pg-persistence.js:91-96 | a toggle does not change which rows the toggle's clause matches |
| Queries.MarkDoneCompletes | lib/pg-persistence.js:107-112 | afterwards every todo of the list and user is done, nothing matches the clause, and a second run changes nothing |
| Queries.UpdateTodosAt | lib/pg-persistence.js:92-95 | an update changes exactly the matching rows, in place |
| Queries.UpdateTodosValid | lib/pg-persistence.js:92-95 | updating `done` keeps the todos table's integrity |
| Queries.InsertListValid | lib/pg-persistence.js:147-150 | an insert that passes the unique constraint keeps the lists table's integrity |
| Queries.RetitleListsValid | lib/pg-persistence.js:132-134 | a retitle that passes the unique constraint keeps the lists table's integrity |
| StoreModel.Store.SelectTodoRows | lib/pg-persistence.js:58-61 | the loop returns the matching todos in table order, or the store's failure |
| StoreModel.Store.SelectListRows | lib/pg-persistence.js:66-69 | the loop returns the matching lists in table order, or the store's failure |
| StoreModel.Store.SelectUserRows | lib/pg-persistence.js:166-168 | the loop returns the user rows with that name, or the store's failure |
| StoreModel.Store.UpdateTodoRows | lib/pg-persistence.js:92-95 | applies the SET clause to exactly the matching rows, reports their number, keeps integrity |
| StoreModel.Store.DeleteTodoRows | lib/pg-persistence.js:101-103 | removes exactly the matching todos, reports their number, keeps integrity |
| StoreModel.Store.InsertTodoRow | lib/pg-persistence.js:116-118 | appends one undone todo with the next serial id and reports one row |
| StoreModel.Store.UpdateListTitles | lib/pg-persistence.js:132-134 | retitles the matching list, or fails with the unique-constraint error when the title is another list's of the same user |
| StoreModel.Store.DeleteListRows | lib/pg-persistence.js:124-126 | removes exactly the matching lists and reports their number |
| StoreModel.Store.InsertListRow | lib/pg-persistence.js:147-150 | appends the list with the next serial id, or fails with the unique-constraint error when the user has that title |
| StoreModel.UpdateTodoTable | lib/pg-persistence.js:92-95 | the row-by-row update yields the table with the SET clause applied to exactly the matching rows, and their number |
| StoreModel.DeleteFromTodoTable | lib/pg-persistence.js:101-103 | the row-by-row delete keeps exactly the non-matching todos, and counts the matching ones |
| StoreModel.RetitleListTable | lib/pg-persistence.js:132-134 | the row-by-row retitle yields the table with exactly the matching lists retitled, and their number |
| StoreModel.DeleteFromListTable | lib/pg-persistence.js:124-126 | the row-by-row delete keeps exactly the non-matching lists, and counts the matching ones |
| Queries.RetitlePairValid | lib/pg-persistence.js:132-134 | any two rows of a retitled table still have ids below the next serial value, distinct ids, and distinct (title, username) pairs |
| TodoLists.GroupsInOrder | lib/pg-persistence.js:54 | undone lists in title order followed by done lists in title order are in completion-then-title order |
| Persistence.BothRows | lib/pg-persistence.js:24-26 | waiting for two queries succeeds iff both did, with both results; otherwise it fails with a failure one of them reported |
| Persistence.MatchExists | lib/pg-persistence.js:95-96 | a todos statement's row count is positive iff some row matches its clause |
| Persistence.ListMatchExists | lib/pg-persistence.js:126-128 | a todolists statement's row count is positive iff some row matches its clause |
| Persistence.PgPersistence.SortedTodoLists | lib/pg-persistence.js:19-40 | the user's lists with their own todos, undone lists first, each group in title order; a store failure propagates |
| Persistence.PgPersistence.SortedTodos | lib/pg-persistence.js:57-62 | the user's todos of that list, undone first and each group in title order |
| Persistence.PgPersistence.LoadTodoList | lib/pg-persistence.js:64-79 | absent iff the user has no list with that id; otherwise that list with the user's todos of it |
| Persistence.PgPersistence.LoadTodo | lib/pg-persistence.js:81-86 | absent iff no todo matches list id, id and user; otherwise a matching todo |
| Persistence.PgPersistence.ToggleDoneTodo | lib/pg-persistence.js:88-97 | flips `done` on exactly the matching rows; true iff one matched; other users' todos unchanged |
| Persistence.PgPersistence.DeleteTodo | lib/pg-persistence.js:99-105 | removes exactly the matching rows; true iff one matched, and false leaves the table as it was |
| Persistence.PgPersistence.CompleteAllTodos | lib/pg-persistence.js:107-113 | with the intended filter, marks the list's undone todos done; true iff there was one; afterwards all of them are done |
| Persistence.PgPersistence.CreateTodo | lib/pg-persistence.js:115-121 | appends one undone todo of the user with a fresh id; true |
| Persistence.PgPersistence.DeleteTodoList | lib/pg-persistence.js:123-129 | removes the user's list with that id; true iff it existed; todos unchanged |
| Persistence.PgPersistence.SetTodoListTitle | lib/pg-persistence.js:131-136 | retitles the user's list; true iff it existed; a clashing title propagates the unique-constraint error |
| Persistence.PgPersistence.ExistsTodoListTitle | lib/pg-persistence.js:138-144 | true iff the user has a list with that title |
| Persistence.PgPersistence.CreateTodoList | lib/pg-persistence.js:146-159 | true when inserted; a duplicate-key failure yields false; any other failure propagates unchanged |
| Persistence.PgPersistence.AuthenticateUser | lib/pg-persistence.js:165-172 | an unknown user gives false; otherwise the comparison with the first row's hash |
| Scenarios.ToggleTwice | lib/pg-persistence.js:91-96 | two toggles of one todo restore the todos table and give the same answer |
| Scenarios.DuplicateTitle | lib/pg-persistence.js:146-159 | two users may each own a list called "Chores"; the same user's second attempt yields false |

## Left out

- `dbQuery` and the SQL engine are not part of this model. The store is in memory, and every statement's meaning is written out over row sequences.
- The store's failures are modelled as one optional error on the store. When it is set, every statement fails with it. Failures that hit only one statement are not modelled, except the unique constraint.
- `Promise.all` (lines 26 and 71) is modelled as two reads in sequence. Concurrent interleaving with other writers is not modelled.
- The check `!allTodoLists || !allTodos` (line 31) is not modelled. A successful query always has rows, so the branch cannot be taken.
- `bcrypt.compare` (line 171) is a function-valued parameter `matches` of `AuthenticateUser`. Hash cost and salting are not modelled.
- `isUniqueConstraintViolation` applies a regular expression to `String(error)`. The model uses a substring test on the error's message. The model's message is the driver error's own message. `String(error)` puts the error's `name` and `: ` in front of it, which is `Error: ` for a plain `Error` and `error: ` for the Postgres driver's error. When the name holds no lower-case `d`, the phrase's first letter, no occurrence can start in that prefix, so the phrase occurs in the string iff it occurs in the message.
- `lower()` folds ASCII letters only. The store's collation is replaced by comparing character codes.
- A SELECT without `ORDER BY` (lines 21, 67 and 166) is modelled as returning its rows in table order. The store promises no order there, so the order of the todos attached to a list in `SortedTodoLists` and `LoadTodoList` is one possible order, not a guaranteed one.
- `ORDER BY lower(title)` and `ORDER BY done, lower(title)` are preconditions on the result sets passed in, not computed. TodoLists.TitleOrderExists and TodoLists.DoneThenTitleOrderExists prove that such result sets always exist.
- Persistence.PgPersistence.CompleteAllTodos: the statement at line 108 is not valid SQL. The model assumes the intended filter: list id, session user and `NOT done`. What the store does with the statement as written is not modelled.
- Rows are values. The in-place assignment of `todos` onto the row objects returned by the store (lines 34 and 77) is modelled as building new list-with-todos values.
- The schema is not part of the source files. The model assumes the following:
  - `todos.done` defaults to false;
  - ids come from serial columns;
  - `(title, username)` is unique in `todolists`;
  - deleting a list keeps its todos (no cascade).
- The foreign key from todos to lists is not modelled. `CreateTodo` accepts any list id.
- TodoLists.AttachTodosAsWritten assumes the row read at line 35 has a `todolist_id` field. If the column were `todolists_id`, as in the other statements, the assigned value would be `undefined` and every list would receive no todos. That reading is not modelled.
- `lib/catch-error.js` is not part of this model. It is an Express adapter with no state.
- JavaScript values that the source never produces are not modelled: non-numeric ids, a missing session, and `undefined` titles.

## Findings

| source | as written | input that shows it | evidently intended | confidence | as-written member | corrected member |
|---|---|---|---|---|---|---|
| lib/pg-persistence.js:35 | the filter callback assigns `todoList.id = todo.todolist_id`. Every list then receives every todo with a non-zero list id, and its id is overwritten | lists Chores (id 1) and Groceries (id 2) of one user, one todo Milk of Groceries: as written Chores gets Milk and id 2 | keep the todos whose list id equals the list's id, and leave the list unchanged | not executed | TodoLists.AsWrittenAttachesForeignTodo | TodoLists.AttachMatchesById |
