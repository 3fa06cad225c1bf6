/** The in-memory recording rows, updated in place, against the operations on values. */
module RosbagStorage {
  import opened RosbagTrim
  import opened RosbagRows

  class InMemoryRosbags {
    var rows: seq<Row>
    var last: nat
    var disk: set<string>
    const cap: nat

    constructor (cap: nat)
      ensures this.cap == cap && Model() == EMPTY
    {
      this.cap, rows, last, disk := cap, [], 0, {};
    }

    function Model(): Store
      reads this
    {
      Store(rows, last, disk)
    }

    /** The directories among `paths` that no row names any more are removed. */
    method RemoveUnreferenced(paths: set<string>)
      modifies this`disk
      ensures disk == Unlinked(old(disk), paths, rows)
    {
      var todo := paths;
      while todo != {}
        invariant forall p :: p in todo ==> p in paths
        invariant forall p :: p in disk <==> p in old(disk) && (p !in paths || p in todo || Referenced(rows, p))
        decreases |todo|
      {
        var path :| path in todo;
        todo := todo - {path};
        if !Referenced(rows, path) {
          disk := disk - {path};
        }
      }
      assert disk == Unlinked(old(disk), paths, rows);
    }

    /** A batch is built beside the live rows and swapped in; bags go only once every row is in. */
    method StoreRosbagFiles(infos: seq<Info>)
      requires RowsOk(rows, last)
      modifies this
      ensures Model() == After(old(Model()), cap, StoreBatch(infos))
    {
      ghost var start := Batch(rows, last, {});
      var updated, nextOrder := rows, last;
      var evicted: set<string> := {};
      for i := 0 to |infos|
        invariant Model() == old(Model())
        invariant RowsOk(updated, nextOrder)
        invariant StoredAll(start, infos[..i], cap) == Batch(updated, nextOrder, evicted)
      {
        assert infos[..i + 1][..i] == infos[..i];
        BatchKeepsRows(start, infos[..i + 1], cap);
        var b := StoreOne(Batch(updated, nextOrder, evicted), infos[i], cap);
        updated, nextOrder, evicted := b.rows, b.last, b.evicted;
      }
      assert infos[..|infos|] == infos;
      rows, last := updated, nextOrder;
      RemoveUnreferenced(evicted);
    }

    /** All recordings of a fault. */
    method DeleteRosbagFile(code: string) returns (deleted: bool)
      modifies this
      ensures Model() == After(old(Model()), cap, DeleteFault(code))
      ensures deleted <==> exists i :: 0 <= i < |old(rows)| && old(rows)[i].info.code == code
    {
      var kept, touched, count := SplitRows(rows, OfFault(code));
      MatchingNone(rows, OfFault(code));
      deleted := count > 0;
      rows := kept;
      RemoveUnreferenced(touched);
    }

    /** All rows of a recording; an empty id names none. */
    method DeleteRosbagRecording(id: string) returns (removed: nat)
      modifies this
      ensures Model() == After(old(Model()), cap, DeleteRecording(id))
      ensures removed == if id == "" then 0 else |Matching(old(rows), OfRecording(id))|
    {
      if id == "" {
        return 0;
      }
      var kept, touched, count := SplitRows(rows, OfRecording(id));
      rows := kept;
      RemoveUnreferenced(touched);
      removed := count;
    }
  }

  /** The rows that stay, the paths of those that go, and how many go. */
  method SplitRows(rows: seq<Row>, gone: Row -> bool) returns (kept: seq<Row>, touched: set<string>, count: nat)
    ensures kept == Survivors(rows, Matching(rows, gone))
    ensures touched == PathsAt(rows, Matching(rows, gone))
    ensures count == |Matching(rows, gone)|
  {
    kept, touched, count := [], {}, 0;
    ghost var dead: set<int> := {};
    ghost var all := Matching(rows, gone);
    for i := 0 to |rows|
      invariant kept == Survivors(rows[..i], all)
      invariant forall d :: d in dead <==> d in all && d < i
      invariant touched == PathsAt(rows, dead) && count == |dead|
    {
      assert rows[..i + 1][..i] == rows[..i];
      if gone(rows[i]) {
        PathsAtOneMore(rows, dead, i);
        touched := touched + {rows[i].info.path};
        count := count + 1;
        dead := dead + {i};
      } else {
        kept := kept + [rows[i]];
      }
    }
    assert rows[..|rows|] == rows;
    assert forall x :: x in dead <==> x in all;
    assert dead == all;
  }

  lemma MatchingNone(rows: seq<Row>, gone: Row -> bool)
    ensures |Matching(rows, gone)| > 0 <==> exists i :: 0 <= i < |rows| && gone(rows[i])
  {
    if i :| 0 <= i < |rows| && gone(rows[i]) {
      assert i in Matching(rows, gone);
    }
    if |Matching(rows, gone)| > 0 {
      var i :| i in Matching(rows, gone);
    }
  }

  lemma {:induction false} RefreshedIsUpdate(rows: seq<Row>, info: Info, k: int)
    requires 0 <= k < |rows| && SameLink(rows[k], info) && forall i :: 0 <= i < k ==> !SameLink(rows[i], info)
    ensures Refreshed(rows, info) == rows[k := rows[k].(info := info)]
  {
    if k == 0 {
    } else {
      RefreshedIsUpdate(rows[1..], info, k - 1);
    }
  }

  /** One row of a batch: found and refreshed, or appended; then the fault is trimmed. */
  method StoreOne(b: Batch, raw: Info, cap: nat) returns (after: Batch)
    requires RowsOk(b.rows, b.last)
    ensures after == StoredOne(b, raw, cap)
  {
    var info := Named(raw);
    var k := 0;
    while k < |b.rows| && !SameLink(b.rows[k], info)
      invariant k <= |b.rows| && forall i :: 0 <= i < k ==> !SameLink(b.rows[i], info)
    {
      k := k + 1;
    }
    after := b;
    if k < |b.rows| {
      RefreshedIsUpdate(b.rows, info, k);
      after := after.(rows := b.rows[k := b.rows[k].(info := info)]);
    } else {
      after := after.(rows := b.rows + [Row(info, b.last + 1)], last := b.last + 1);
    }
    assert after == Upserted(b, info);
    if cap > 0 {
      UpsertKeepsRows(b, info);
      var updated, evicted := TrimOldest(after.rows, info.code, cap);
      after := after.(rows := updated, evicted := after.evicted + evicted);
    }
  }
}
