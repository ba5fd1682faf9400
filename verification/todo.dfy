/**
 The todo service (internal/todo/todo.go).

 The service owns no state: every operation is a function of a `Storage`
 capability and the store's current state, and returns its result together
 with the store's next state. Failures reported by the store are returned
 as they are, without retry.
 */
module Todo {
  import opened Db
  import opened Subseq
  import Fuzzy

  /** The public todo: `name` is the row's task text. */
  datatype Todo = Todo(id: int, name: string, done: bool)

  /** The todo a stored row stands for. */
  function FromRow(row: Row): (t: Todo)
    ensures ToRow(t) == row
  {
    Todo(row.id, row.task, row.done)
  }

  /** The row handed to the store for a todo (`GetDBTodoItem`). */
  function ToRow(t: Todo): (r: Row)
    ensures r.id == t.id && r.task == t.name && r.done == t.done
  {
    Row(t.id, t.name, t.done)
  }

  /** Going from a todo to its row and back is the identity. */
  lemma TodoRoundTrip(t: Todo)
    ensures FromRow(ToRow(t)) == t
  {
  }

  /** A fresh, not yet stored todo: id 0 (Go's zero value) and not done. */
  function NewTodo(item: string): (t: Todo)
    ensures ToRow(t) == Row(0, item, false)
  {
    Todo(0, item, false)
  }

  /** A new todo carries the given name, is active, and has no id yet. */
  lemma NewTodoIsActive(item: string)
    ensures NewTodo(item).name == item
    ensures !NewTodo(item).done
    ensures ToRow(NewTodo(item)) == Row(0, item, false)
  {
  }

  /** The elements of `s` satisfying `p`, in their original order (the
      source's iterator `filter`, collected into a slice). */
  function Filter<T(==)>(s: seq<T>, p: T -> bool): (r: seq<T>)
    ensures IsSubseq(r, s) && |r| <= |s|
    ensures forall i :: 0 <= i < |r| ==> p(r[i])
    decreases |s|
  {
    if |s| == 0 then []
    else
      var rest := Filter(s[1..], p);
      if p(s[0]) then
        assert ([s[0]] + rest)[1..] == rest;
        [s[0]] + rest
      else
        ExtendRight(s[0], rest, s[1..]);
        assert [s[0]] + s[1..] == s;
        rest
  }

  /** `Filter` keeps every element satisfying `p` as often as it occurs in
      `s`, and nothing else. */
  lemma {:induction false} FilterExact<T(!new)>(s: seq<T>, p: T -> bool)
    ensures forall x :: multiset(Filter(s, p))[x] == if p(x) then multiset(s)[x] else 0
    ensures forall x :: x in Filter(s, p) <==> x in s && p(x)
    decreases |s|
  {
    if |s| > 0 {
      FilterExact(s[1..], p);
      assert s == [s[0]] + s[1..];
      assert multiset(s) == multiset([s[0]]) + multiset(s[1..]);
      var rest := Filter(s[1..], p);
      if p(s[0]) {
        assert Filter(s, p) == [s[0]] + rest;
        assert multiset([s[0]] + rest) == multiset([s[0]]) + multiset(rest);
      } else {
        assert Filter(s, p) == rest;
      }
    }
  }

  /** Filtering with a predicate that holds everywhere keeps everything. */
  lemma {:induction false} FilterAll<T(!new)>(s: seq<T>, p: T -> bool)
    requires forall i :: 0 <= i < |s| ==> p(s[i])
    ensures Filter(s, p) == s
    decreases |s|
  {
    if |s| > 0 {
      FilterAll(s[1..], p);
      assert s == [s[0]] + s[1..];
    }
  }

  /** Filtering out an element that fails `p` makes the result shorter. */
  lemma {:induction false} FilterDropsRejected<T(!new)>(s: seq<T>, p: T -> bool, k: nat)
    requires k < |s| && !p(s[k])
    ensures |Filter(s, p)| < |s|
    decreases |s|
  {
    if k > 0 {
      FilterDropsRejected(s[1..], p, k - 1);
    }
  }

  /** The todos the rows stand for, one per row and in the same order. */
  function Project(rows: seq<Row>): (todos: seq<Todo>)
    ensures |todos| == |rows|
    ensures forall i :: 0 <= i < |rows| ==> ToRow(todos[i]) == rows[i]
  {
    if |rows| == 0 then [] else [FromRow(rows[0])] + Project(rows[1..])
  }

  /** Each todo occurs in the projection as often as its row occurs in the
      rows. */
  lemma {:induction false} ProjectCount(rows: seq<Row>)
    ensures forall t :: multiset(Project(rows))[t] == multiset(rows)[ToRow(t)]
  {
    if |rows| > 0 {
      ProjectCount(rows[1..]);
      assert rows == [rows[0]] + rows[1..];
      assert multiset(rows) == multiset([rows[0]]) + multiset(rows[1..]);
      assert multiset(Project(rows)) == multiset([FromRow(rows[0])]) + multiset(Project(rows[1..]));
    }
  }

  /** All todos in the order the store lists its rows. */
  function GetTodos<S>(db: Storage<S>, s: S): (r: Result<seq<Todo>>)
    ensures db.getAllItems(s).Err? ==> r == Err(db.getAllItems(s).error)
    ensures db.getAllItems(s).Ok? ==>
              && r.Ok?
              && |r.value| == |db.getAllItems(s).value|
              && forall i :: 0 <= i < |r.value| ==> ToRow(r.value[i]) == db.getAllItems(s).value[i]
  {
    match db.getAllItems(s)
    case Err(e) => Err(e)
    case Ok(rows) => Ok(Project(rows))
  }

  /** Adds `t` unless an active todo already has its name. The check reads
      all todos first and inserts afterwards; the row inserted carries the
      caller's name and done flag, and the result is the todo for the row
      the store hands back. */
  function AddTodo<S(==)>(db: Storage<S>, s: S, t: Todo): (out: (Result<Todo>, S))
    ensures db.getAllItems(s).Err? ==> out == (Err(db.getAllItems(s).error), s)
    ensures db.getAllItems(s).Ok? && HasActive(db.getAllItems(s).value, t.name) ==>
              out == (Err(DuplicateTask(t.name)), s)
    ensures db.getAllItems(s).Ok? && !HasActive(db.getAllItems(s).value, t.name) ==>
              var inserted := db.insertItem(s, ToRow(t));
              && out.1 == inserted.1
              && (inserted.0.Err? ==> out.0 == Err(inserted.0.error))
              && (inserted.0.Ok? ==> out.0.Ok? && ToRow(out.0.value) == inserted.0.value)
  {
    match GetTodos(db, s)
    case Err(e) => (Err(e), s)
    case Ok(all) =>
      if IndexFunc(all, (item: Todo) => item.name == t.name && !item.done) >= 0 then
        (Err(DuplicateTask(t.name)), s)
      else
        match db.insertItem(s, ToRow(t))
        case (Err(e), s') => (Err(e), s')
        case (Ok(row), s') => (Ok(FromRow(row)), s')
  }

  /** The search predicate: the lower-cased query is a fuzzy match of the
      lower-cased todo name. */
  predicate Matches(query: string, t: Todo)
    ensures query == "" ==> Matches(query, t)
  {
    Fuzzy.Match(Fuzzy.ToLower(query), Fuzzy.ToLower(t.name))
  }

  /** `Matches` in terms of the subsequence relation. */
  lemma MatchesIsSubseq(query: string)
    ensures forall t :: Matches(query, t) <==> IsSubseq(Fuzzy.ToLower(query), Fuzzy.ToLower(t.name))
  {
    forall t
      ensures Matches(query, t) <==> IsSubseq(Fuzzy.ToLower(query), Fuzzy.ToLower(t.name))
    {
      Fuzzy.MatchIsSubseq(Fuzzy.ToLower(query), Fuzzy.ToLower(t.name));
    }
  }

  /** The todos whose name fuzzily contains `query`, ignoring case, in the
      order of `GetTodos`; the empty query returns every todo. */
  function FilterTodos<S>(db: Storage<S>, s: S, query: string): (r: Result<seq<Todo>>)
    ensures db.getAllItems(s).Err? ==> r == Err(db.getAllItems(s).error)
    ensures db.getAllItems(s).Ok? ==> r.Ok?
    ensures r.Ok? && query == "" ==> r == GetTodos(db, s)
    ensures r.Ok? && query != "" ==>
              var all := GetTodos(db, s).value;
              && IsSubseq(r.value, all)
              && (forall i :: 0 <= i < |r.value| ==> Matches(query, r.value[i]))
              && (forall x :: multiset(r.value)[x] == if Matches(query, x) then multiset(all)[x] else 0)
  {
    match GetTodos(db, s)
    case Err(e) => Err(e)
    case Ok(all) =>
      if query != "" then
        FilterExact(all, (t: Todo) => Matches(query, t));
        Ok(Filter(all, (t: Todo) => Matches(query, t)))
      else Ok(all)
  }

  /** A search result, stated against the subsequence relation rather than
      the greedy matcher: exactly the todos whose lower-cased name contains
      the lower-cased query in order, each as often as it is stored. */
  lemma SearchIsSubseqFilter<S>(db: Storage<S>, s: S, query: string)
    requires db.getAllItems(s).Ok? && query != ""
    ensures var r := FilterTodos(db, s, query).value;
            var all := GetTodos(db, s).value;
            && IsSubseq(r, all)
            && (forall i :: 0 <= i < |r| ==>
                  IsSubseq(Fuzzy.ToLower(query), Fuzzy.ToLower(r[i].name)))
            && (forall x :: multiset(r)[x] ==
                  if IsSubseq(Fuzzy.ToLower(query), Fuzzy.ToLower(x.name)) then multiset(all)[x] else 0)
  {
    MatchesIsSubseq(query);
  }

  /** The special case for the empty query agrees with filtering: the empty
      query matches every todo. */
  lemma EmptyQueryKeepsAll(all: seq<Todo>)
    ensures Filter(all, (t: Todo) => Matches("", t)) == all
  {
    forall i | 0 <= i < |all|
      ensures Matches("", all[i])
    {
      Fuzzy.EmptyMatchesAll(Fuzzy.ToLower(all[i].name));
    }
    FilterAll(all, (t: Todo) => Matches("", t));
  }

  /** Search ignores the case of the query and of the todo names. */
  lemma MatchesIgnoresCase(query: string, t: Todo)
    ensures Matches(query, t) == Matches(Fuzzy.ToLower(query), t)
    ensures Matches(query, t) == Matches(query, t.(name := Fuzzy.ToLower(t.name)))
  {
    Fuzzy.LowerIdempotent(query);
    Fuzzy.LowerIdempotent(t.name);
  }

  /** Removes the row with the given id; no existence check. */
  function DeleteTodo<S>(db: Storage<S>, s: S, id: int): (out: (Outcome, S))
    ensures out == db.deleteItem(s, id)
  {
    db.deleteItem(s, id)
  }

  /** Stores `item`'s name and done flag under `id`, with no duplicate check,
      and returns the todo for the row the store reports. */
  function UpdateTodo<S(==)>(db: Storage<S>, s: S, id: int, item: Todo): (out: (Result<Todo>, S))
    ensures var updated := db.updateItem(s, id, ToRow(item));
            && out.1 == updated.1
            && (updated.0.Err? ==> out.0 == Err(updated.0.error))
            && (updated.0.Ok? ==> out.0.Ok? && ToRow(out.0.value) == updated.0.value)
  {
    match db.updateItem(s, id, ToRow(item))
    case (Err(e), s') => (Err(e), s')
    case (Ok(row), s') => (Ok(FromRow(row)), s')
  }
}
