# Todo service model

A Dafny model of the todo service in `internal/todo/todo.go` of the
goland-api repository. The model also covers the in-memory store and the
search scenarios in `internal/todo/todo_test.go`.

The service is written against a `Storage` interface (`internal/db/db.go`).
In the model that interface is `Db.Storage<S>`: a record of four total
functions over an abstract store state `S`. Every service operation is a pure
function of a storage capability and the current state, and it returns its
result together with the next state. Because the service functions are
generic in `S`, the failure-propagation contracts hold for every store, not
only for one implementation.

Modules:

- `Subseq`: the reference subsequence relation `IsSubseq` (non-greedy, any
  way of matching) and `IndexFunc` (Go's `slices.IndexFunc`).
- `Db`: the stored row (`TodoItem` without its timestamp), the error
  variants, `Result`, and the `Storage` capability.
- `Fuzzy`: ASCII lower-casing and the greedy left-to-right matcher. The
  matcher stands for `fuzzy.Match` from the fuzzysearch library and is proved
  to decide `IsSubseq`.
- `Todo`: the public `Todo`, the row conversions, the generic
  order-preserving `Filter`, and the five service operations.
- `MockDb`: the test store (a counter plus rows in insertion order), its
  well-formedness invariant, and two `Storage` instances built from it.
  `Store()` uses the corrected delete described under "## Findings";
  `StoreAsWritten()` uses the delete as the test file writes it.
- `TodoTest`: the service running on the test store, invariant preservation
  across service calls, and the table test's search scenarios. Except for
  `TodoTest.DeleteTodoAsWritten`, these lemmas run on `Store()`. Its delete
  is the corrected one; every other operation is as written.

The scenario lemmas prove that each search returns exactly the expected todos,
ids included. This is a stronger check than the test's own `areEqual`, which
compares names only.

## Model

| member | source | states |
|---|---|---|
| Todo.FromRow | internal/todo/todo.go:82-86 | The todo built from a row (the same `Todo{...}` literal appears at todo.go:55-59 and 126-130) maps back to that same row under `GetDBTodoItem` |
| Todo.ToRow | internal/todo/todo.go:23-29 | `GetDBTodoItem` keeps the id, stores the name as the task, and keeps the done flag |
| Todo.TodoRoundTrip | internal/todo/todo.go:23-29 | Converting a todo to its storage row and back gives the same todo |
| Todo.NewTodo | internal/todo/todo.go:133-138 | A new todo is stored as the row with id 0, the given name as task, and not done |
| Todo.NewTodoIsActive | internal/todo/todo.go:133-138 | `NewTodo` carries the given name, has id 0 and is not done |
| Todo.Project | internal/todo/todo.go:79-88 | The loop makes one todo per row, in row order; each todo maps back to its row |
| Todo.ProjectCount | internal/todo/todo.go:79-88 | Each todo occurs in the list as often as its row occurs among the rows |
| Todo.GetTodos | internal/todo/todo.go:74-89 | A storage failure is returned unchanged. Otherwise there is one todo per row, in row order, each with that row's id, task and done flag, so an empty store gives an empty list |
| Subseq.IndexFunc | internal/todo/todo.go:43-45 | The result is the first index whose element satisfies the predicate, or -1 exactly when no element does |
| Todo.AddTodo | internal/todo/todo.go:37-62 | A listing failure is returned and nothing is inserted. If an active todo has the name, the result is a duplicate error and the state is unchanged. Otherwise exactly one insert of the caller's todo, done flag included; its failure or its new state is passed on, and the result mirrors the row the store returned |
| Todo.Filter | internal/todo/todo.go:64-72 | The result is a subsequence of the input in original order, and every kept element satisfies the predicate |
| Todo.FilterExact | internal/todo/todo.go:64-72 | Each element satisfying the predicate is kept as often as it occurs; nothing else is kept |
| Todo.FilterAll | internal/todo/todo.go:64-72 | A predicate that holds everywhere keeps the whole sequence |
| Todo.FilterDropsRejected | internal/todo/todo.go:64-72 | If some element fails the predicate, the result is strictly shorter |
| Todo.FilterTodos | internal/todo/todo.go:91-114 | A storage failure is returned unchanged. Otherwise the result is never a failure. The empty query returns exactly `GetTodos`. A non-empty query returns, in order, exactly the todos that match, each with its stored multiplicity |
| Todo.SearchIsSubseqFilter | internal/todo/todo.go:99-108 | A non-empty search returns exactly the todos whose lower-cased name contains the lower-cased query as a character subsequence, in `GetTodos` order |
| Todo.Matches | internal/todo/todo.go:100-102 | The search predicate holds for every todo when the query is empty (its full characterisation is `Todo.MatchesIsSubseq`) |
| Todo.MatchesIsSubseq | internal/todo/todo.go:100-102 | The search predicate holds exactly when the lower-cased query is a subsequence of the lower-cased name |
| Todo.EmptyQueryKeepsAll | internal/todo/todo.go:99-111 | Filtering with the empty query would keep every todo, so the empty-query special case agrees with filtering |
| Todo.MatchesIgnoresCase | internal/todo/todo.go:100-102 | Lower-casing the query or the name first does not change whether a todo matches |
| Todo.DeleteTodo | internal/todo/todo.go:116-118 | Delete hands the id to the store and returns the store's outcome and next state unchanged. On the test store it is characterised by `TodoTest.DeleteTodoOnMock` |
| Todo.UpdateTodo | internal/todo/todo.go:120-131 | Exactly one store update of the given id with the todo's row. Its failure and its next state are passed on, and the result mirrors the row the store reports |
| Fuzzy.Match | internal/todo/todo.go:101 | `fuzzy.Match`: the empty query always matches. The full characterisation is `Fuzzy.MatchIsSubseq` |
| Fuzzy.ToLower | internal/todo/todo.go:101 | `strings.ToLower` on ASCII letters keeps the length. Its letter-by-letter behaviour is `Fuzzy.LowerSpec`, and idempotence is `Fuzzy.LowerIdempotent` |
| Fuzzy.MatchIsSubseq | internal/todo/todo.go:101 | The greedy left-to-right matcher succeeds exactly when the query is a subsequence of the target |
| Fuzzy.MatchFromIsSubseq | internal/todo/todo.go:101 | After any matched prefix, the greedy scan succeeds exactly when the rest of the query is a subsequence of the rest of the target |
| Fuzzy.EmptyMatchesAll | internal/todo/todo.go:101 | The empty query matches every target |
| Fuzzy.MatchesSelf | internal/todo/todo.go:101 | Every target matches itself |
| Fuzzy.MatchNeedsRoom | internal/todo/todo.go:101 | A query longer than the target never matches, and neither does a query with a character the target lacks |
| Fuzzy.LowerSpec | internal/todo/todo.go:101 | Lower-casing leaves no upper-case letter, shifts each upper-case letter to its lower-case form and changes nothing else |
| Fuzzy.LowerIdempotent | internal/todo/todo.go:101 | Lower-casing twice is the same as lower-casing once |
| Subseq.DropHead | internal/todo/todo.go:101 | Dropping the first query character keeps a match |
| Subseq.SubseqBounds | internal/todo/todo.go:101 | A subsequence is no longer than its source, and each of its elements occurs there |
| Subseq.Reflexive | internal/todo/todo.go:101 | Every sequence is a subsequence of itself |
| MockDb.GetAllItems | internal/todo/todo_test.go:19-21 | Listing never fails and returns the stored rows in their stored order |
| MockDb.Store | internal/todo/todo_test.go:11-43 | The test store as a `Storage` capability: listing, insert and update as written; delete is the corrected `MockDb.DeleteItem`, not the code as written |
| MockDb.StoreAsWritten | internal/todo/todo_test.go:11-43 | The test store as a `Storage` capability with every operation as written, delete included |
| MockDb.WfIdsUnique | internal/todo/todo_test.go:23-28 | In a well-formed store, no two rows share an id |
| MockDb.InsertItem | internal/todo/todo_test.go:23-28 | Never fails. The new row gets id counter+1 and keeps the caller's task and done flag. The counter goes up by one, and the row is appended after the unchanged earlier rows |
| MockDb.ListAfterInsert | internal/todo/todo_test.go:19-28 | After an insert, listing returns the earlier rows in order followed by the new row |
| MockDb.InsertKeepsWf | internal/todo/todo_test.go:23-28 | An insert keeps ids within 1..counter and strictly increasing; the new id is above every existing one |
| MockDb.DeleteItemAsWritten | internal/todo/todo_test.go:30-35 | As written, a delete never fails and keeps both the counter and the length of the row list; what the list then holds is stated by `MockDb.DeleteAsWrittenShape` |
| MockDb.DeleteAsWrittenShape | internal/todo/todo_test.go:30-35 | As written, the list after a delete starts with the rows whose id differs, in their order and with their counts, followed by zero rows up to the old length |
| MockDb.DeleteAsWrittenTwice | internal/todo/todo_test.go:30-35 | As written, deleting both rows of a two-row store leaves two active rows with the same empty name, so "no two active todos share a name" is lost |
| MockDb.DeleteAsWrittenLeavesZeroRow | internal/todo/todo_test.go:30-35 | As written, deleting an existing id leaves a zero row (id 0, empty name, active) at the end of the list |
| MockDb.DeleteAsWrittenExample | internal/todo/todo_test.go:30-35 | As written, deleting the only todo of a well-formed store gives `[Row(0, "", false)]`, and the store is no longer well formed |
| MockDb.DeleteItem | internal/todo/todo_test.go:30-35 | Corrected delete: never fails and keeps the counter. No row with the id remains. Every other row stays, in order, as many times as it occurred |
| MockDb.DeleteKeepsWf | internal/todo/todo_test.go:30-35 | The corrected delete keeps the store well formed |
| MockDb.FilterKeepsIncreasing | internal/todo/todo_test.go:30-35 | Removing rows keeps ids strictly increasing |
| MockDb.UpdateItem | internal/todo/todo_test.go:37-43 | Succeeds exactly when some row has the id. It then replaces only the first such row with the item as given and returns that item. Otherwise the index is -1, and an error is returned with the store unchanged |
| MockDb.UpdateKeepsWf | internal/todo/todo_test.go:37-43 | An update whose replacement keeps the row's id keeps the store well formed |
| TodoTest.AddTodoOnMock | internal/todo/todo.go:37-62 | On the test store, add succeeds exactly when no active row has the name. A rejected add leaves the store unchanged. A successful add appends one row with id counter+1 and the caller's name and done flag, and returns that todo |
| TodoTest.AddTodoIgnoresDoneTodos | internal/todo/todo.go:43-45 | A name held only by done todos is accepted again |
| TodoTest.AddTodoKeepsActiveNamesUnique | internal/todo/todo.go:43-51 | If no two active todos share a name before an add, none do after it |
| TodoTest.AddTodoKeepsWf | internal/todo/todo.go:37-62 | An add keeps the test store's ids increasing and unique |
| TodoTest.AddAll | internal/todo/todo_test.go:84-91 | The add loop: on success, one todo per name with that name, in order; a failure can only be a duplicate of one of the names |
| TodoTest.AddAllDistinct | internal/todo/todo_test.go:84-91 | Adding distinct names, none of them active, succeeds for each one. Each add returns its own name, and the rows are appended in order under consecutive ids |
| TodoTest.GetTodosAfterAdds | internal/todo/todo_test.go:82-91 | Starting from the empty store, adding distinct names lists exactly those names in order, with ids 1, 2, … and none done |
| TodoTest.UpdateTodoOnMock | internal/todo/todo.go:120-131 | On the test store, update succeeds exactly when a row has the id. It returns the replacement as given, overwrites one row with that id and leaves every other row alone |
| TodoTest.UpdateTodoKeepsWf | internal/todo/todo.go:120-131 | An update that keeps the id keeps the test store well formed |
| TodoTest.UpdateSkipsDuplicateCheck | internal/todo/todo.go:120-131 | Update does no duplicate check: renaming an active todo to another active todo's name is accepted |
| TodoTest.DeleteTodoOnMock | internal/todo/todo.go:116-118 | On the test store with the corrected delete, delete never fails. Afterwards no listed todo has the id, and every other todo is listed exactly as often as before |
| TodoTest.DeleteTodoKeepsWf | internal/todo/todo.go:116-118 | On the test store with the corrected delete, delete keeps the store well formed |
| TodoTest.DeleteTodoAsWritten | internal/todo/todo_test.go:30-35 | On the test store as written, delete never fails and the list keeps its length. Deleting a present id leaves a listed active todo with id 0 and an empty name at the end |
| TodoTest.ChoresAdded | internal/todo/todo_test.go:82-91 | Adding "go shopping", "laundry" and "wash dishes" to the empty store returns them under ids 1..3, and lists them in that order |
| TodoTest.SearchIsFilter | internal/todo/todo.go:99-105 | On the test store, a non-empty search is the order-preserving filter of the listed todos by the search predicate |
| TodoTest.SearchChores | internal/todo/todo_test.go:58-77 | Searching the chores keeps exactly the chores the query matches, in the order they were added |
| TodoTest.SearchEmptyStore | internal/todo/todo_test.go:52-56 | Searching the empty store for "foo" gives an empty list, not a failure |
| TodoTest.SearchShop | internal/todo/todo_test.go:58-63 | "shop" returns exactly the "go shopping" todo |
| TodoTest.SearchShopMixedCase | internal/todo/todo_test.go:65-70 | "ShOp" also returns exactly the "go shopping" todo |
| TodoTest.SearchFuzzy | internal/todo/todo_test.go:72-77 | "dsh" returns exactly the "wash dishes" todo, a match that is not contiguous |
| TodoTest.DshHitsDishes | internal/todo/todo_test.go:72-77 | "dsh" matches "wash dishes" |
| TodoTest.DshMissesShopping | internal/todo/todo_test.go:72-77 | "dsh" does not match "go shopping" |

## Left out

- HTTP transport (`internal/transport/http.go`), `main.go` and the Postgres adapter in `internal/db/db.go`: these are I/O plumbing. Only the `Storage` interface and the row shape are modelled. The SQL adapter's other behaviours (re-selecting by task text, echoing the update) are database behaviour.
- `Close()` on the storage interface: it does no logic the service relies on.
- `context.Context` and cancellation: the model is sequential. The check-then-insert race between concurrent `AddTodo` calls is therefore not represented.
- The `CreatedAt` timestamp of a row: the database assigns it, and the service never passes it on.
- Exact error text: the duplicate error is the variant `DuplicateTask(name)`; store failures are opaque `Error` values.
- Go's `nil` versus empty slice: a sequence has no nil. "Never nil" is modelled as an `Ok` result that holds a possibly empty sequence.
- `iter.Seq` and the `yield` early stop in `filter`: collecting the iterator always runs it to the end, so `filter` is modelled as a sequence filter.
- Fuzzy.ToLower: covers ASCII letters only. Go's `strings.ToLower` also folds non-ASCII letters, which this model does not.
- Fuzzy.Match: models the fuzzysearch library's observable answer. Its internals are not part of this model, including the length shortcuts that skip the scan.
- MockDb.UpdateItem: when no row has the id, Go indexes the slice at -1 and panics. The model returns `IndexOutOfRange(-1)` with the store unchanged instead of a crash.
- MockDb.InsertItem: Go's `int` is 64 bits wide, but the counter is unbounded here, so wrap-around after 2^63-1 inserts is not modelled.
- MockDb.Store: its delete is the corrected `MockDb.DeleteItem`, not the delete as written at todo_test.go:30-35. The `TodoTest` lemmas built on it describe that corrected store. The store as written is `MockDb.StoreAsWritten`, and `TodoTest.DeleteTodoAsWritten` states what delete does there. The well-formedness facts do not hold for the store as written; `MockDb.DeleteAsWrittenExample` shows one that fails.
- Todo.DeleteTodo: its contract states only that it passes the store's outcome and next state through. Its behaviour on the test store is stated by `TodoTest.DeleteTodoOnMock` (corrected delete) and `TodoTest.DeleteTodoAsWritten`.
- Todo.AddTodo: the row it inserts carries the caller's done flag, as the code does. It does not force `false`; only `NewTodo` produces an active todo.
- Todo.UpdateTodo: the result is the row the store reports, as the code does, not an echo of the supplied fields.

## Findings

| source | as written | input that shows it | evidently intended | confidence | as-written member | corrected member |
|---|---|---|---|---|---|---|
| internal/todo/todo_test.go:30-35 | `slices.DeleteFunc(m.items, …)` is called and its result discarded. `DeleteFunc` (Go 1.22 on; the package already needs Go 1.23 for `iter`) moves the surviving rows to the front and zeroes the vacated tail, so `m.items` keeps its length | store `[Row(1, "laundry", false)]`, delete id 1: the list becomes `[Row(0, "", false)]`, an active todo with an empty name and id 0 | `m.items = slices.DeleteFunc(m.items, …)`, which removes the rows with the id and keeps the rest in order | not executed; depends on the Go 1.22+ semantics of `slices.DeleteFunc` | MockDb.DeleteItemAsWritten | MockDb.DeleteItem |
