/**
 The storage boundary of the todo service (internal/db/db.go): the row shape
 a store keeps, the errors an operation can report, and the `Storage`
 capability the service is written against.

 The Postgres adapter itself is not modelled; `Storage` is the interface,
 and the in-memory store of the tests (module MockDb) is one instance of it.
 */
module Db {

  /** A stored row (`TodoItem`). The creation timestamp is left out: it is
      assigned by the database and never reaches the service's callers. */
  datatype Row = Row(id: int, task: string, done: bool)

  /** Failures the service can report. Storage failures are opaque to the
      service and are passed on as they are. */
  datatype Error =
    | DuplicateTask(name: string)     // AddTodo: an active todo already has this name
    | StorageFailure(message: string) // any failure reported by a store
    | IndexOutOfRange(index: int)     // the in-memory store's write at index -1

  datatype Result<T> = Ok(value: T) | Err(error: Error)

  /** Result of an operation that returns nothing but a possible error. */
  datatype Outcome = Pass | Fail(error: Error)

  /** The `Storage` interface over a store state `S`. Every operation takes
      the current state; the writing ones also return the next state. */
  datatype Storage<!S> = Storage(
    getAllItems: S -> Result<seq<Row>>,
    insertItem: (S, Row) -> (Result<Row>, S),
    deleteItem: (S, int) -> (Outcome, S),
    updateItem: (S, int, Row) -> (Result<Row>, S)
  )

  /** Some row of `rows` is active (not done) and carries the task `name`. */
  ghost predicate HasActive(rows: seq<Row>, name: string)
  {
    exists i :: 0 <= i < |rows| && rows[i].task == name && !rows[i].done
  }

  /** No two active rows carry the same task text. */
  ghost predicate ActiveNamesUnique(rows: seq<Row>)
  {
    forall i, j :: 0 <= i < j < |rows| && !rows[i].done && !rows[j].done ==> rows[i].task != rows[j].task
  }
}
