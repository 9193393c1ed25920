/** The rows of the three tables the persistence service works on, the
    objects it hands back, and the outcome of a statement sent to the store. */
module Rows {

  datatype Option<T> = None | Some(value: T)

  /** A failure reported by the store.  The message is the driver error's
      own message, without the `name: ` prefix that `String(error)` adds. */
  datatype StoreError = StoreError(message: string)

  /** Either the value a statement produced or the failure the store reported. */
  datatype Result<T> = Ok(value: T) | Err(error: StoreError)

  /** The request's session; only its user name is used. */
  datatype Session = Session(username: string)

  /** A row of `users(username, password)`; `password` is the stored hash. */
  datatype User = User(username: string, password: string)

  /** A row of `todolists(id, title, username)`. */
  datatype TodoList = TodoList(id: int, title: string, username: string)

  /** A row of `todos(id, title, done, todolists_id, username)`.  The
      statements name the list reference `todolists_id`, while the attaching
      callback reads `todolist_id`; here it is the one field `listId`. */
  datatype Todo = Todo(id: int, title: string, done: bool, listId: int, username: string)

  /** A todo-list row with the `todos` property the service attaches to it. */
  datatype ListWithTodos = ListWithTodos(list: TodoList, todos: seq<Todo>)
}
