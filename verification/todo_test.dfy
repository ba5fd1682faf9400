/**
 The todo service running on the in-memory store, and the search scenarios
 of the service's table test (internal/todo/todo_test.go).
 */
module TodoTest {
  import opened Db
  import opened Subseq
  import Todo
  import MockDb
  import Fuzzy

  /** On the in-memory store `AddTodo` succeeds exactly when no active row
      has the name; it then appends one row carrying the caller's name and
      done flag under the next id and returns that todo. A rejected add
      leaves the store as it was. */
  lemma AddTodoOnMock(m: MockDb.MockDb, t: Todo.Todo)
    ensures var out := Todo.AddTodo(MockDb.Store(), m, t);
            && (out.0.Ok? <==> !HasActive(m.items, t.name))
            && (out.0.Err? ==> out.0.error == DuplicateTask(t.name) && out.1 == m)
            && (out.0.Ok? ==>
                  && out.0.value == Todo.Todo(m.counter + 1, t.name, t.done)
                  && out.1 == MockDb.MockDb(m.counter + 1, m.items + [Row(m.counter + 1, t.name, t.done)]))
  {
  }

  /** A name held only by done todos may be added again. */
  lemma AddTodoIgnoresDoneTodos(m: MockDb.MockDb, t: Todo.Todo)
    requires forall i :: 0 <= i < |m.items| && m.items[i].task == t.name ==> m.items[i].done
    ensures Todo.AddTodo(MockDb.Store(), m, t).0 == Ok(Todo.Todo(m.counter + 1, t.name, t.done))
  {
  }

  /** `AddTodo` keeps "no two active todos share a name". */
  lemma AddTodoKeepsActiveNamesUnique(m: MockDb.MockDb, t: Todo.Todo)
    requires ActiveNamesUnique(m.items)
    ensures ActiveNamesUnique(Todo.AddTodo(MockDb.Store(), m, t).1.items)
  {
  }

  /** `AddTodo` keeps the store's ids increasing and unique. */
  lemma AddTodoKeepsWf(m: MockDb.MockDb, t: Todo.Todo)
    requires MockDb.Wf(m)
    ensures MockDb.Wf(Todo.AddTodo(MockDb.Store(), m, t).1)
  {
  }

  /** Adds a fresh todo for each name in turn, stopping at the first failure
      (the loop of the table test). On success, the added todos in order. */
  function AddAll(m: MockDb.MockDb, names: seq<string>): (out: (Result<seq<Todo.Todo>>, MockDb.MockDb))
    ensures out.0.Ok? ==> |out.0.value| == |names|
    ensures out.0.Ok? ==> forall k :: 0 <= k < |names| ==> out.0.value[k].name == names[k]
    ensures out.0.Err? ==> out.0.error.DuplicateTask? && out.0.error.name in names
    decreases |names|
  {
    if |names| == 0 then (Ok([]), m)
    else
      match Todo.AddTodo(MockDb.Store(), m, Todo.NewTodo(names[0]))
      case (Err(e), m') => (Err(e), m')
      case (Ok(t), m') =>
        match AddAll(m', names[1..])
        case (Err(e), m'') => (Err(e), m'')
        case (Ok(ts), m'') => (Ok([t] + ts), m'')
  }

  ghost predicate Distinct(names: seq<string>)
  {
    forall i, j :: 0 <= i < j < |names| ==> names[i] != names[j]
  }

  /** Adding distinct names none of which is active succeeds; each add
      returns its own name, and the rows are appended in order under
      consecutive ids. */
  lemma {:induction false} AddAllDistinct(m: MockDb.MockDb, names: seq<string>)
    requires Distinct(names)
    requires forall k :: 0 <= k < |names| ==> !HasActive(m.items, names[k])
    ensures var out := AddAll(m, names);
            && out.0.Ok?
            && |out.0.value| == |names|
            && (forall k :: 0 <= k < |names| ==> out.0.value[k] == Todo.Todo(m.counter + 1 + k, names[k], false))
            && out.1.counter == m.counter + |names|
            && |out.1.items| == |m.items| + |names|
            && out.1.items[..|m.items|] == m.items
            && (forall k :: 0 <= k < |names| ==> out.1.items[|m.items| + k] == Row(m.counter + 1 + k, names[k], false))
    decreases |names|
  {
    if |names| > 0 {
      var t := Todo.NewTodo(names[0]);
      AddTodoOnMock(m, t);
      var m1 := MockDb.MockDb(m.counter + 1, m.items + [Row(m.counter + 1, names[0], false)]);
      assert Todo.AddTodo(MockDb.Store(), m, t) == (Ok(Todo.Todo(m.counter + 1, names[0], false)), m1);
      var rest := names[1..];
      forall k | 0 <= k < |rest|
        ensures !HasActive(m1.items, rest[k])
      {
        assert rest[k] == names[k + 1] && names[0] != names[k + 1];
        assert !HasActive(m.items, names[k + 1]);
      }
      AddAllDistinct(m1, rest);
      var out := AddAll(m, names);
      var out1 := AddAll(m1, rest);
      assert out.0.value == [Todo.Todo(m.counter + 1, names[0], false)] + out1.0.value;
      assert out.1 == out1.1;
      forall k | 0 <= k < |names|
        ensures out.1.items[|m.items| + k] == Row(m.counter + 1 + k, names[k], false)
      {
        if k == 0 {
          assert out.1.items[..|m1.items|] == m1.items;
          assert out.1.items[|m.items|] == m1.items[|m.items|];
        } else {
          assert out.1.items[|m1.items| + (k - 1)] == Row(m1.counter + 1 + (k - 1), rest[k - 1], false);
        }
      }
      assert out.1.items[..|m.items|] == out1.1.items[..|m1.items|][..|m.items|];
    }
  }

  /** Starting from the empty store, after adding distinct names the todo
      list holds exactly those names, in insertion order, with ids 1, 2, ...
      and none done. */
  lemma GetTodosAfterAdds(names: seq<string>)
    requires Distinct(names)
    ensures var out := AddAll(MockDb.Empty, names);
            && out.0.Ok?
            && Todo.GetTodos(MockDb.Store(), out.1) == Ok(out.0.value)
            && |out.0.value| == |names|
            && forall k :: 0 <= k < |names| ==> out.0.value[k] == Todo.Todo(k + 1, names[k], false)
  {
    AddAllDistinct(MockDb.Empty, names);
    var out := AddAll(MockDb.Empty, names);
    var todos := Todo.GetTodos(MockDb.Store(), out.1);
    assert MockDb.Store().getAllItems(out.1) == Ok(out.1.items);
    assert todos.value == out.0.value by {
      forall k | 0 <= k < |names|
        ensures todos.value[k] == out.0.value[k]
      {
        assert out.1.items[0 + k] == Row(0 + 1 + k, names[k], false);
        assert Todo.ToRow(todos.value[k]) == out.1.items[k];
      }
    }
  }

  /** `UpdateTodo` on the in-memory store succeeds exactly when a row has
      the id; it then returns the replacement as given (its own id
      included) and leaves every other row alone. */
  lemma UpdateTodoOnMock(m: MockDb.MockDb, id: int, item: Todo.Todo)
    ensures var out := Todo.UpdateTodo(MockDb.Store(), m, id, item);
            && (out.0.Ok? <==> exists i :: 0 <= i < |m.items| && m.items[i].id == id)
            && (out.0.Err? ==> out.0.error == IndexOutOfRange(-1) && out.1 == m)
            && (out.0.Ok? ==>
                  && out.0.value == item
                  && |out.1.items| == |m.items|
                  && exists k :: && 0 <= k < |m.items| && m.items[k].id == id
                                 && out.1.items[k] == Todo.ToRow(item)
                                 && forall j :: 0 <= j < |m.items| && j != k ==> out.1.items[j] == m.items[j])
  {
  }

  /** An update that keeps the id (the HTTP layer rejects a body id that
      differs from the path id) keeps the store's ids unique. */
  lemma UpdateTodoKeepsWf(m: MockDb.MockDb, item: Todo.Todo)
    requires MockDb.Wf(m)
    ensures MockDb.Wf(Todo.UpdateTodo(MockDb.Store(), m, item.id, item).1)
  {
  }

  /** Updates are not checked for duplicates: renaming an active todo to the
      name of another active todo is accepted. */
  lemma UpdateSkipsDuplicateCheck()
    ensures var m := MockDb.MockDb(2, [Row(1, "laundry", false), Row(2, "wash dishes", false)]);
            var out := Todo.UpdateTodo(MockDb.Store(), m, 2, Todo.Todo(2, "laundry", false));
            && ActiveNamesUnique(m.items)
            && out.0 == Ok(Todo.Todo(2, "laundry", false))
            && !ActiveNamesUnique(out.1.items)
  {
    var m := MockDb.MockDb(2, [Row(1, "laundry", false), Row(2, "wash dishes", false)]);
    var item := Todo.Todo(2, "laundry", false);
    assert MockDb.Store().updateItem(m, 2, Todo.ToRow(item)) == MockDb.UpdateItem(m, 2, Todo.ToRow(item));
    assert m.items[1].id == 2;
    var out := Todo.UpdateTodo(MockDb.Store(), m, 2, item);
    assert out.1.items[0] == Row(1, "laundry", false) && out.1.items[1] == Row(2, "laundry", false);
  }

  /** With the corrected delete (`MockDb.Store()`), `DeleteTodo` never
      fails; afterwards no todo has the id and every other todo is listed
      as often as before. */
  lemma DeleteTodoOnMock(m: MockDb.MockDb, id: int)
    ensures var out := Todo.DeleteTodo(MockDb.Store(), m, id);
            && out.0 == Pass
            && Todo.GetTodos(MockDb.Store(), out.1).Ok?
            && (forall t :: t in Todo.GetTodos(MockDb.Store(), out.1).value ==> t.id != id)
            && (forall r :: r in m.items && r.id != id ==> Todo.FromRow(r) in Todo.GetTodos(MockDb.Store(), out.1).value)
            && (forall t :: multiset(Todo.GetTodos(MockDb.Store(), out.1).value)[t]
                            == if t.id != id then multiset(Todo.GetTodos(MockDb.Store(), m).value)[t] else 0)
  {
    var out := Todo.DeleteTodo(MockDb.Store(), m, id);
    Todo.ProjectCount(m.items);
    Todo.ProjectCount(out.1.items);
    assert Todo.GetTodos(MockDb.Store(), out.1).value == Todo.Project(out.1.items);
    assert Todo.GetTodos(MockDb.Store(), m).value == Todo.Project(m.items);
  }

  /** The same delete on the store as written: it never fails and the list
      keeps its length; deleting an id that is present leaves a listed
      active todo with id 0 and an empty name at the end. */
  lemma DeleteTodoAsWritten(m: MockDb.MockDb, id: int, k: nat)
    requires k < |m.items| && m.items[k].id == id
    ensures var out := Todo.DeleteTodo(MockDb.StoreAsWritten(), m, id);
            var todos := Todo.GetTodos(MockDb.StoreAsWritten(), out.1).value;
            && out.0 == Pass
            && |todos| == |m.items|
            && todos[|todos| - 1] == Todo.Todo(0, "", false)
  {
    MockDb.DeleteAsWrittenLeavesZeroRow(m, id, k);
  }

  /** With the corrected delete (`MockDb.Store()`), deleting keeps the
      store's ids unique. */
  lemma DeleteTodoKeepsWf(m: MockDb.MockDb, id: int)
    requires MockDb.Wf(m)
    ensures MockDb.Wf(Todo.DeleteTodo(MockDb.Store(), m, id).1)
  {
    MockDb.DeleteKeepsWf(m, id);
  }

  /** The names the table test adds before searching. */
  const Chores: seq<string> := ["go shopping", "laundry", "wash dishes"]

  /** The store after adding the chores to the empty store. */
  const ChoreStore := MockDb.MockDb(3, [Row(1, "go shopping", false), Row(2, "laundry", false), Row(3, "wash dishes", false)])

  /** Adding the chores to the empty store returns each chore under ids 1..3
      and leaves them listed in that order. */
  lemma ChoresAdded()
    ensures AddAll(MockDb.Empty, Chores) == (Ok(ChoreTodos), ChoreStore)
    ensures Todo.GetTodos(MockDb.Store(), ChoreStore) == Ok(ChoreTodos)
  {
    assert Distinct(Chores);
    GetTodosAfterAdds(Chores);
    var out := AddAll(MockDb.Empty, Chores);
    assert Chores[0] == "go shopping" && Chores[1] == "laundry" && Chores[2] == "wash dishes";
    assert out.0.value[0] == ChoreTodos[0] && out.0.value[1] == ChoreTodos[1] && out.0.value[2] == ChoreTodos[2];
    assert |out.0.value| == 3;
    assert out.0.value == ChoreTodos;
    AddAllDistinct(MockDb.Empty, Chores);
    assert out.1.items[0 + 0] == ChoreStore.items[0];
    assert out.1.items[0 + 1] == ChoreStore.items[1];
    assert out.1.items[0 + 2] == ChoreStore.items[2];
    assert out.1.items == ChoreStore.items;
  }

  const ChoreTodos: seq<Todo.Todo> :=
    [Todo.Todo(1, "go shopping", false), Todo.Todo(2, "laundry", false), Todo.Todo(3, "wash dishes", false)]

  /** Search over a non-empty query filters the listed todos with `Matches`. */
  lemma SearchIsFilter(m: MockDb.MockDb, query: string, all: seq<Todo.Todo>)
    requires query != "" && Todo.GetTodos(MockDb.Store(), m) == Ok(all)
    ensures Todo.FilterTodos(MockDb.Store(), m, query) == Ok(Todo.Filter(all, (t: Todo.Todo) => Todo.Matches(query, t)))
  {
  }

  /** `Filter` unrolled on a sequence of three elements. */
  lemma FilterThree<T(!new)>(s: seq<T>, p: T -> bool)
    requires |s| == 3
    ensures Todo.Filter(s, p) == (if p(s[0]) then [s[0]] else []) + (if p(s[1]) then [s[1]] else []) + (if p(s[2]) then [s[2]] else [])
  {
    FilterCons(s, p);
    FilterCons(s[1..], p);
    FilterCons(s[1..][1..], p);
    assert s[1..][1..][1..] == [];
    assert s[1..][0] == s[1] && s[1..][1..][0] == s[2];
  }

  /** One step of `Filter`. */
  lemma FilterCons<T(!new)>(s: seq<T>, p: T -> bool)
    requires |s| > 0
    ensures Todo.Filter(s, p) == (if p(s[0]) then [s[0]] else []) + Todo.Filter(s[1..], p)
  {
  }

  /** Searching the empty store for "foo" yields an empty list, not a failure. */
  lemma SearchEmptyStore()
    ensures Todo.FilterTodos(MockDb.Store(), MockDb.Empty, "foo") == Ok([])
  {
  }

  /** Searching the chores for a non-empty query keeps the chores the
      query matches, in the order they were added. */
  lemma SearchChores(query: string, hit0: bool, hit1: bool, hit2: bool)
    requires query != ""
    requires Todo.Matches(query, ChoreTodos[0]) == hit0
    requires Todo.Matches(query, ChoreTodos[1]) == hit1
    requires Todo.Matches(query, ChoreTodos[2]) == hit2
    ensures Todo.FilterTodos(MockDb.Store(), ChoreStore, query)
            == Ok((if hit0 then [ChoreTodos[0]] else [])
                  + (if hit1 then [ChoreTodos[1]] else [])
                  + (if hit2 then [ChoreTodos[2]] else []))
  {
    ChoresAdded();
    SearchIsFilter(ChoreStore, query, ChoreTodos);
    FilterThree(ChoreTodos, (t: Todo.Todo) => Todo.Matches(query, t));
  }

  /** The per-chore match facts behind the three search scenarios. */
  lemma ShopHitsShopping()
    ensures Todo.Matches("shop", ChoreTodos[0])
  {
  }

  lemma ShopMissesLaundry()
    ensures !Todo.Matches("shop", ChoreTodos[1])
  {
  }

  lemma ShopMissesDishes()
    ensures !Todo.Matches("shop", ChoreTodos[2])
  {
  }

  lemma DshMissesShopping()
    ensures !Todo.Matches("dsh", ChoreTodos[0])
  {
  }

  lemma DshMissesLaundry()
    ensures !Todo.Matches("dsh", ChoreTodos[1])
  {
  }

  lemma DshHitsDishes()
    ensures Todo.Matches("dsh", ChoreTodos[2])
  {
  }

  /** Queries that lower-case alike match alike. */
  lemma SameLowered(q1: string, q2: string, t: Todo.Todo)
    requires Fuzzy.ToLower(q1) == Fuzzy.ToLower(q2)
    ensures Todo.Matches(q1, t) == Todo.Matches(q2, t)
  {
  }

  /** "shop" finds only "go shopping". */
  lemma SearchShop()
    ensures Todo.FilterTodos(MockDb.Store(), ChoreStore, "shop") == Ok([ChoreTodos[0]])
  {
    ShopHitsShopping();
    ShopMissesLaundry();
    ShopMissesDishes();
    SearchChores("shop", true, false, false);
  }

  /** Search ignores case: "ShOp" also finds only "go shopping". */
  lemma SearchShopMixedCase()
    ensures Todo.FilterTodos(MockDb.Store(), ChoreStore, "ShOp") == Ok([ChoreTodos[0]])
  {
    assert Fuzzy.ToLower("ShOp") == Fuzzy.ToLower("shop");
    SameLowered("ShOp", "shop", ChoreTodos[0]);
    SameLowered("ShOp", "shop", ChoreTodos[1]);
    SameLowered("ShOp", "shop", ChoreTodos[2]);
    ShopHitsShopping();
    ShopMissesLaundry();
    ShopMissesDishes();
    SearchChores("ShOp", true, false, false);
  }

  /** Search is a subsequence test: "dsh" finds only "wash dishes". */
  lemma SearchFuzzy()
    ensures Todo.FilterTodos(MockDb.Store(), ChoreStore, "dsh") == Ok([ChoreTodos[2]])
  {
    DshMissesShopping();
    DshMissesLaundry();
    DshHitsDishes();
    SearchChores("dsh", false, false, true);
    assert [] + [] + [ChoreTodos[2]] == [ChoreTodos[2]];
  }
}
