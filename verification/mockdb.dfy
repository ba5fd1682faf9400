/**
 The in-memory store the service tests run against (`MockDB` in
 internal/todo/todo_test.go): a list of rows in insertion order and a
 counter from which ids are drawn.
 */
module MockDb {
  import opened Db
  import opened Subseq
  import Todo

  datatype MockDb = MockDb(counter: int, items: seq<Row>)

  /** The store a test starts from (`&MockDB{}`). */
  const Empty := MockDb(0, [])

  /** Ids are drawn from the counter (so lie in 1..counter) and increase
      along the list, hence are unique. */
  ghost predicate Wf(m: MockDb)
  {
    && 0 <= m.counter
    && (forall i :: 0 <= i < |m.items| ==> 1 <= m.items[i].id <= m.counter)
    && (forall i, j :: 0 <= i < j < |m.items| ==> m.items[i].id < m.items[j].id)
  }

  /** Ids are unique in a well-formed store. */
  lemma WfIdsUnique(m: MockDb)
    requires Wf(m)
    ensures forall i, j :: 0 <= i < |m.items| && 0 <= j < |m.items| && m.items[i].id == m.items[j].id ==> i == j
  {
  }

  /** Every row, in insertion order; never fails. */
  function GetAllItems(m: MockDb): (r: Result<seq<Row>>)
    ensures r.Ok? && r.value == m.items
  {
    Ok(m.items)
  }

  /** Stores `item` under the next id (counter + 1) at the end of the list. */
  function InsertItem(m: MockDb, item: Row): (out: (Result<Row>, MockDb))
    ensures out.0.Ok?
    ensures out.0.value.id == m.counter + 1
    ensures out.0.value.task == item.task && out.0.value.done == item.done
    ensures out.1.counter == m.counter + 1
    ensures |out.1.items| == |m.items| + 1
    ensures out.1.items[..|m.items|] == m.items && out.1.items[|m.items|] == out.0.value
  {
    var row := item.(id := m.counter + 1);
    (Ok(row), MockDb(m.counter + 1, m.items + [row]))
  }

  /** Listing after an insert gives the earlier rows, in their order,
      followed by the inserted row. */
  lemma ListAfterInsert(m: MockDb, item: Row)
    ensures GetAllItems(InsertItem(m, item).1) == Ok(m.items + [InsertItem(m, item).0.value])
  {
  }

  /** Inserting keeps the store well formed, with a new id above every
      existing one. */
  lemma InsertKeepsWf(m: MockDb, item: Row)
    requires Wf(m)
    ensures Wf(InsertItem(m, item).1)
    ensures forall i :: 0 <= i < |m.items| ==> m.items[i].id < InsertItem(m, item).0.value.id
  {
  }

  /** `n` zero-valued rows. */
  function Zeros(n: nat): (z: seq<Row>)
    ensures |z| == n && forall i :: 0 <= i < n ==> z[i] == Row(0, "", false)
  {
    seq(n, _ => Row(0, "", false))
  }

  /** `DeleteItem` as written: `slices.DeleteFunc` moves the rows it keeps
      to the front of the slice and zeroes the vacated tail, but its result
      is discarded, so the slice keeps its length. */
  function DeleteItemAsWritten(m: MockDb, id: int): (out: (Outcome, MockDb))
    ensures out.0 == Pass
    ensures out.1.counter == m.counter && |out.1.items| == |m.items|
  {
    var kept := Todo.Filter(m.items, (r: Row) => r.id != id);
    (Pass, m.(items := kept + Zeros(|m.items| - |kept|)))
  }

  /** What the delete as written leaves: the rows without the id first, in
      their order and with their counts, then zero rows up to the old
      length. */
  lemma DeleteAsWrittenShape(m: MockDb, id: int)
    ensures var after := DeleteItemAsWritten(m, id).1.items;
            exists n :: && 0 <= n <= |m.items|
                        && IsSubseq(after[..n], m.items)
                        && (forall r :: multiset(after[..n])[r] == if r.id != id then multiset(m.items)[r] else 0)
                        && (forall i :: n <= i < |m.items| ==> after[i] == Row(0, "", false))
  {
    var kept := Todo.Filter(m.items, (r: Row) => r.id != id);
    Todo.FilterExact(m.items, (r: Row) => r.id != id);
    var after := DeleteItemAsWritten(m, id).1.items;
    assert after[..|kept|] == kept;
  }

  /** Two deletes as written leave two active rows with the same empty
      name, so "no two active todos share a name" is lost as well. */
  lemma DeleteAsWrittenTwice()
    ensures var m := MockDb(2, [Row(1, "a", false), Row(2, "b", false)]);
            var after := DeleteItemAsWritten(DeleteItemAsWritten(m, 1).1, 2).1;
            && ActiveNamesUnique(m.items)
            && after.items == [Row(0, "", false), Row(0, "", false)]
            && !ActiveNamesUnique(after.items)
  {
    var m := MockDb(2, [Row(1, "a", false), Row(2, "b", false)]);
    var p1 := (r: Row) => r.id != 1;
    assert Todo.Filter(m.items[1..][1..], p1) == [];
    assert Todo.Filter(m.items[1..], p1) == [Row(2, "b", false)];
    assert Todo.Filter(m.items, p1) == [Row(2, "b", false)];
    var m1 := DeleteItemAsWritten(m, 1).1;
    assert m1.items == [Row(2, "b", false), Row(0, "", false)];
    var p2 := (r: Row) => r.id != 2;
    assert Todo.Filter(m1.items[1..][1..], p2) == [];
    assert Todo.Filter(m1.items[1..], p2) == [Row(0, "", false)];
    assert Todo.Filter(m1.items, p2) == [Row(0, "", false)];
    var after := DeleteItemAsWritten(m1, 2).1;
    assert after.items == [Row(0, "", false), Row(0, "", false)];
    assert after.items[0].task == after.items[1].task;
  }

  /** Deleting an existing id as written leaves a zero row at the end: an
      active todo with an empty name and id 0. */
  lemma DeleteAsWrittenLeavesZeroRow(m: MockDb, id: int, k: nat)
    requires k < |m.items| && m.items[k].id == id
    ensures var after := DeleteItemAsWritten(m, id).1.items;
            after[|after| - 1] == Row(0, "", false) && HasActive(after, "")
  {
    var kept := Todo.Filter(m.items, (r: Row) => r.id != id);
    Todo.FilterDropsRejected(m.items, (r: Row) => r.id != id, k);
    var after := DeleteItemAsWritten(m, id).1.items;
    assert after[|after| - 1] == Row(0, "", false);
  }

  /** A concrete case: deleting the only todo leaves one phantom row, so
      the store is no longer well formed. */
  lemma DeleteAsWrittenExample()
    ensures var m := MockDb(1, [Row(1, "laundry", false)]);
            && Wf(m)
            && DeleteItemAsWritten(m, 1).1.items == [Row(0, "", false)]
            && !Wf(DeleteItemAsWritten(m, 1).1)
  {
    var m := MockDb(1, [Row(1, "laundry", false)]);
    assert m.items[1..] == [];
    assert Todo.Filter(m.items, (r: Row) => r.id != 1) == [];
    var after := DeleteItemAsWritten(m, 1).1;
    assert after.items[0].id == 0;
  }

  /** `DeleteItem` as evidently intended (`m.items = slices.DeleteFunc(...)`):
      every row with the id is removed, the others stay in order. It never
      reports an error. */
  function DeleteItem(m: MockDb, id: int): (out: (Outcome, MockDb))
    ensures out.0 == Pass
    ensures out.1.counter == m.counter
    ensures IsSubseq(out.1.items, m.items)
    ensures forall i :: 0 <= i < |out.1.items| ==> out.1.items[i].id != id
    ensures forall r :: r in m.items && r.id != id ==> r in out.1.items
    ensures forall r :: multiset(out.1.items)[r] == if r.id != id then multiset(m.items)[r] else 0
  {
    Todo.FilterExact(m.items, (r: Row) => r.id != id);
    (Pass, m.(items := Todo.Filter(m.items, (r: Row) => r.id != id)))
  }

  /** Deleting keeps the store well formed. */
  lemma DeleteKeepsWf(m: MockDb, id: int)
    requires Wf(m)
    ensures Wf(DeleteItem(m, id).1)
  {
    FilterKeepsIncreasing(m.items, (r: Row) => r.id != id);
    Todo.FilterExact(m.items, (r: Row) => r.id != id);
  }

  ghost predicate Increasing(rows: seq<Row>)
  {
    forall i, j :: 0 <= i < j < |rows| ==> rows[i].id < rows[j].id
  }

  lemma {:induction false} FilterKeepsIncreasing(rows: seq<Row>, p: Row -> bool)
    requires Increasing(rows)
    ensures Increasing(Todo.Filter(rows, p))
    decreases |rows|
  {
    if |rows| > 0 {
      FilterKeepsIncreasing(rows[1..], p);
      var rest := Todo.Filter(rows[1..], p);
      Todo.FilterExact(rows[1..], p);
      forall j | 0 <= j < |rest|
        ensures rows[0].id < rest[j].id
      {
        assert rest[j] in rows[1..];
      }
    }
  }

  /** Overwrites the first row with id `id` by `item` (whose own id is
      stored as given) and returns `item`. With no such row the Go index is
      -1 and the write panics; that is reported as `IndexOutOfRange(-1)`
      with the store unchanged. */
  function UpdateItem(m: MockDb, id: int, item: Row): (out: (Result<Row>, MockDb))
    ensures out.0.Ok? <==> exists i :: 0 <= i < |m.items| && m.items[i].id == id
    ensures out.0.Err? ==> out == (Err(IndexOutOfRange(-1)), m)
    ensures out.0.Ok? ==>
              && out.0.value == item
              && out.1.counter == m.counter
              && exists k :: && 0 <= k < |m.items| && m.items[k].id == id
                             && (forall j :: 0 <= j < k ==> m.items[j].id != id)
                             && out.1.items == m.items[k := item]
  {
    var idx := IndexFunc(m.items, (r: Row) => r.id == id);
    if idx < 0 then (Err(IndexOutOfRange(idx)), m)
    else (Ok(item), m.(items := m.items[idx := item]))
  }

  /** Updating a row with a replacement that keeps its id keeps the store
      well formed. */
  lemma UpdateKeepsWf(m: MockDb, id: int, item: Row)
    requires Wf(m) && item.id == id
    ensures Wf(UpdateItem(m, id, item).1)
  {
  }

  /** The mock as a `Storage` capability, with the corrected delete. */
  function Store(): (r: Storage<MockDb>)
    ensures r.getAllItems == GetAllItems && r.insertItem == InsertItem
    ensures r.deleteItem == DeleteItem && r.updateItem == UpdateItem
  {
    Storage(GetAllItems, InsertItem, DeleteItem, UpdateItem)
  }

  /** The mock as a `Storage` capability with the delete as written. */
  function StoreAsWritten(): (r: Storage<MockDb>)
    ensures r.getAllItems == GetAllItems && r.insertItem == InsertItem
    ensures r.deleteItem == DeleteItemAsWritten && r.updateItem == UpdateItem
  {
    Storage(GetAllItems, InsertItem, DeleteItemAsWritten, UpdateItem)
  }
}
