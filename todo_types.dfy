/** The todo entity stored in the hosted `todos` table and the page type that
    the todo service returns. */
module TodoTypes {
  import opened Pagination

  /** One row of the `todos` table. Timestamps are modelled by their order only. */
  datatype Todo = Todo(
    id: string,
    title: string,
    content: string,
    done: bool,
    createdAt: int,
    updatedAt: int)

  /** The fields a user supplies when creating or editing a todo. */
  datatype NewTodo = NewTodo(title: string, content: string)

  /** The form validation the dialog applies before any create or update:
      both fields must be non-empty. */
  predicate ValidNewTodo(t: NewTodo) {
    t.title != "" && t.content != ""
  }

  /** A fetched page of todos together with its page pointers. */
  type TodosResult = PaginateResult<Todo>

  /** No two rows share an id. */
  predicate UniqueIds(rows: seq<Todo>) {
    forall i, j | 0 <= i < j < |rows| :: rows[i].id != rows[j].id
  }
}
