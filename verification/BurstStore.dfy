/** Storing one recording for several faults at once: whose row is still there when the store is done. */
module BurstStore {
  import opened RosbagTrim
  import opened RosbagRows

  /** One row per fault, all with the same bag, size and creation time. */
  function BurstInfos(codes: seq<string>, path: string, size: nat, at: int): seq<Info> {
    if codes == [] then []
    else
      BurstInfos(codes[..|codes| - 1], path, size, at) +
      [Info(codes[|codes| - 1], RecordingId(path), path, size, at)]
  }

  function CodesIn(infos: seq<Info>): seq<string> {
    if infos == [] then [] else CodesIn(infos[..|infos| - 1]) + [infos[|infos| - 1].code]
  }

  /** The rows of one recording, one per code of theirs. */
  predicate IsBurst(infos: seq<Info>, path: string, size: nat, at: int) {
    infos == BurstInfos(CodesIn(infos), path, size, at)
  }

  lemma OneMoreInfo(infos: seq<Info>, code: string, path: string, size: nat, at: int)
    requires IsBurst(infos, path, size, at)
    ensures var more := infos + [Info(code, RecordingId(path), path, size, at)];
            IsBurst(more, path, size, at) && CodesIn(more) == CodesIn(infos) + [code]
  {
    var more, codes := infos + [Info(code, RecordingId(path), path, size, at)], CodesIn(infos);
    assert more[..|infos|] == infos;
    assert (codes + [code])[..|codes|] == codes;
  }

  predicate Distinct(codes: seq<string>) {
    forall i, j :: 0 <= i < j < |codes| ==> codes[i] != codes[j]
  }

  predicate HasLink(rows: seq<Row>, code: string, path: string) {
    exists i :: 0 <= i < |rows| && rows[i].info.code == code && rows[i].info.path == path
  }

  predicate IsLater(r: Row, code: string, at: int) {
    r.info.code == code && r.info.createdAt > at
  }

  /** The stored rows of a fault that were created after `at`. */
  function Later(rows: seq<Row>, code: string, at: int): set<Row> {
    set r | r in rows && IsLater(r, code, at)
  }

  /** A new row created at `at` is among the newest that are kept. */
  predicate Fits(rows: seq<Row>, code: string, at: int, cap: nat) {
    cap == 0 || |Later(rows, code, at)| < cap
  }

  // ---------------------------------------------------------------- one row

  lemma UpsertLeavesOthers(b: Batch, info: Info, r: Row)
    requires RowsOk(b.rows, b.last) && r.info.code != info.code
    ensures r in Upserted(b, info).rows <==> r in b.rows
  {
    if Linked(b.rows, info) {
      RefreshLeavesOthers(b.rows, info, r);
    }
  }

  lemma RefreshLeavesOthers(rows: seq<Row>, info: Info, r: Row)
    requires UniqueLinks(rows) && r.info.code != info.code
    ensures r in Refreshed(rows, info) <==> r in rows
  {
    var t := Refreshed(rows, info);
    RefreshedSize(rows, info);
    if r in rows {
      var i :| 0 <= i < |rows| && rows[i] == r;
      RefreshedAt(rows, info, i);
      assert t[i] == r;
    }
    if r in t {
      var i :| 0 <= i < |t| && t[i] == r;
      RefreshedAt(rows, info, i);
    }
  }

  lemma TrimLeavesOthers(rows: seq<Row>, code: string, cap: nat, r: Row)
    requires r.info.code != code
    ensures r in Survivors(rows, Doomed(rows, code, cap)) <==> r in rows
  {
    var dead := Doomed(rows, code, cap);
    SurvivorMember(rows, dead, r);
    if r in rows {
      var k :| 0 <= k < |rows| && rows[k] == r;
      assert k !in dead;
    }
  }

  /** Storing a row of one fault changes no row of another. */
  lemma StoreLeavesOthers(b: Batch, raw: Info, cap: nat, r: Row)
    requires RowsOk(b.rows, b.last) && r.info.code != raw.code
    ensures r in StoredOne(b, raw, cap).rows <==> r in b.rows
  {
    UpsertLeavesOthers(b, Named(raw), r);
    TrimLeavesOthers(Upserted(b, Named(raw)).rows, raw.code, cap, r);
  }

  lemma LaterSnoc(rows: seq<Row>, code: string, at: int)
    requires rows != []
    ensures var init, last := rows[..|rows| - 1], rows[|rows| - 1];
            Later(rows, code, at) == Later(init, code, at) + (if IsLater(last, code, at) then {last} else {})
  {
    assert rows == rows[..|rows| - 1] + [rows[|rows| - 1]];
  }

  lemma NewOrder(rows: seq<Row>)
    requires rows != [] && DistinctOrders(rows)
    ensures rows[|rows| - 1] !in rows[..|rows| - 1]
  {
  }

  function LaterAt(rows: seq<Row>, code: string, at: int): set<int> {
    set i | 0 <= i < |rows| && IsLater(rows[i], code, at)
  }

  lemma LaterAtSnoc(rows: seq<Row>, code: string, at: int)
    requires rows != []
    ensures var init, k := rows[..|rows| - 1], |rows| - 1;
            && LaterAt(rows, code, at) == LaterAt(init, code, at) + (if IsLater(rows[k], code, at) then {k} else {})
            && k !in LaterAt(init, code, at)
  {
  }

  lemma NothingLater(code: string, at: int)
    ensures LaterAt([], code, at) == {} && Later([], code, at) == {}
  {
  }

  lemma {:induction false} PositionsAreRows(rows: seq<Row>, code: string, at: int)
    requires DistinctOrders(rows)
    ensures |LaterAt(rows, code, at)| == |Later(rows, code, at)|
  {
    if rows == [] {
      NothingLater(code, at);
    } else {
      PositionsAreRows(rows[..|rows| - 1], code, at);
      LaterAtSnoc(rows, code, at);
      LaterSnoc(rows, code, at);
      NewOrder(rows);
    }
  }

  /** The new row is newer than exactly the stored ones that were not created later. */
  lemma NewerAreLater(rows: seq<Row>, r: Row)
    requires DistinctOrders(rows) && forall i :: 0 <= i < |rows| ==> rows[i].order < r.order
    ensures |Newer(rows + [r], |rows|)| == |Later(rows, r.info.code, r.info.createdAt)|
  {
    var t := rows + [r];
    assert t[|rows|] == r;
    forall i ensures i in Newer(t, |rows|) <==> i in LaterAt(rows, r.info.code, r.info.createdAt) {
      if 0 <= i < |rows| {
        assert t[i] == rows[i];
      }
    }
    assert Newer(t, |rows|) == LaterAt(rows, r.info.code, r.info.createdAt);
    PositionsAreRows(rows, r.info.code, r.info.createdAt);
  }

  /** A new link is there after its own store exactly if it fits. */
  lemma OwnRowKept(b: Batch, raw: Info, cap: nat)
    requires RowsOk(b.rows, b.last) && !HasLink(b.rows, raw.code, raw.path)
    ensures HasLink(StoredOne(b, raw, cap).rows, raw.code, raw.path) <==> Fits(b.rows, raw.code, raw.createdAt, cap)
  {
    var r := Row(Named(raw), b.last + 1);
    assert !Linked(b.rows, Named(raw));
    var up := b.rows + [r];
    NewerAreLater(b.rows, r);
    if cap == 0 {
      assert up[|b.rows|] == r;
    } else {
      OnlyTheNewLink(b.rows, r, Doomed(up, raw.code, cap));
    }
  }

  lemma OnlyTheNewLink(rows: seq<Row>, r: Row, dead: set<int>)
    requires !HasLink(rows, r.info.code, r.info.path)
    ensures HasLink(Survivors(rows + [r], dead), r.info.code, r.info.path) <==> |rows| !in dead
  {
    var up := rows + [r];
    assert up[..|rows|] == rows;
    var kept := Survivors(rows, dead);
    forall i | 0 <= i < |kept| ensures !(kept[i].info.code == r.info.code && kept[i].info.path == r.info.path) {
      assert kept[i] in kept;
      SurvivorMember(rows, dead, kept[i]);
    }
    if |rows| !in dead {
      assert Survivors(up, dead)[|kept|] == r;
    }
  }

  // ---------------------------------------------------------------- the whole burst

  lemma {:induction false} BurstLeavesOthers(
    b: Batch, codes: seq<string>, path: string, size: nat, at: int, cap: nat, r: Row)
    requires RowsOk(b.rows, b.last) && r.info.code !in codes
    ensures r in StoredAll(b, BurstInfos(codes, path, size, at), cap).rows <==> r in b.rows
  {
    if codes == [] {
    } else {
      var init, last := codes[..|codes| - 1], codes[|codes| - 1];
      BurstLeavesOthers(b, init, path, size, at, cap, r);
      var infos := BurstInfos(codes, path, size, at);
      assert infos[..|infos| - 1] == BurstInfos(init, path, size, at);
      BatchKeepsRows(b, BurstInfos(init, path, size, at), cap);
      assert last in codes;
      StoreLeavesOthers(StoredAll(b, BurstInfos(init, path, size, at), cap), infos[|infos| - 1], cap, r);
    }
  }

  lemma SameLater(a: seq<Row>, b: seq<Row>, code: string, at: int)
    requires forall r: Row :: r.info.code == code ==> (r in a <==> r in b)
    ensures Later(a, code, at) == Later(b, code, at)
  {
  }

  lemma SameLinks(a: seq<Row>, b: seq<Row>, code: string, path: string)
    requires forall r: Row :: r.info.code == code ==> (r in a <==> r in b)
    ensures HasLink(a, code, path) <==> HasLink(b, code, path)
  {
    if HasLink(a, code, path) {
      var i :| 0 <= i < |a| && a[i].info.code == code && a[i].info.path == path;
      assert a[i] in a && a[i] in b;
    }
    if HasLink(b, code, path) {
      var i :| 0 <= i < |b| && b[i].info.code == code && b[i].info.path == path;
      assert b[i] in b && b[i] in a;
    }
  }

  /**
   After a new recording is stored for a burst, exactly those faults of it have their row for which fewer
   than the cap of stored rows have a later creation time.
   */
  lemma {:induction false} BurstRows(
    b: Batch, codes: seq<string>, path: string, size: nat, at: int, cap: nat, code: string)
    requires RowsOk(b.rows, b.last) && Distinct(codes) && !Referenced(b.rows, path)
    ensures HasLink(StoredAll(b, BurstInfos(codes, path, size, at), cap).rows, code, path) <==>
            code in codes && Fits(b.rows, code, at, cap)
  {
    if codes == [] {
    } else {
      var init, last := codes[..|codes| - 1], codes[|codes| - 1];
      var infos := BurstInfos(codes, path, size, at);
      assert infos[..|infos| - 1] == BurstInfos(init, path, size, at);
      var mid := StoredAll(b, BurstInfos(init, path, size, at), cap);
      BurstRows(b, init, path, size, at, cap, code);
      BatchKeepsRows(b, BurstInfos(init, path, size, at), cap);
      assert code in codes <==> code in init || code == last;
      if code == last {
        assert last !in init;
        forall r: Row | r.info.code == last ensures r in mid.rows <==> r in b.rows {
          BurstLeavesOthers(b, init, path, size, at, cap, r);
        }
        SameLater(mid.rows, b.rows, last, at);
        OwnRowKept(mid, infos[|infos| - 1], cap);
      } else {
        var after := StoredOne(mid, infos[|infos| - 1], cap);
        forall r: Row | r.info.code == code ensures r in after.rows <==> r in mid.rows {
          StoreLeavesOthers(mid, infos[|infos| - 1], cap, r);
        }
        SameLinks(after.rows, mid.rows, code, path);
      }
    }
  }

  lemma {:induction false} BurstPaths(codes: seq<string>, path: string, size: nat, at: int)
    ensures BatchPaths(BurstInfos(codes, path, size, at)) == if codes == [] then {} else {path}
  {
    if codes == [] {
    } else {
      var infos := BurstInfos(codes, path, size, at);
      var init := BurstInfos(codes[..|codes| - 1], path, size, at);
      BurstPaths(codes[..|codes| - 1], path, size, at);
      assert infos[..|infos| - 1] == init;
      BatchPathsSnoc(infos);
    }
  }

  // ---------------------------------------------------------------- creation times

  /** No row was created after `t`. */
  predicate NoneAfter(rows: seq<Row>, t: int) {
    forall r :: r in rows ==> r.info.createdAt <= t
  }

  lemma NoneAfterFits(rows: seq<Row>, code: string, at: int, cap: nat)
    requires NoneAfter(rows, at)
    ensures Fits(rows, code, at, cap)
  {
    assert Later(rows, code, at) == {};
  }

  lemma StoredFrom(b: Batch, raw: Info, cap: nat, t: int)
    requires RowsOk(b.rows, b.last) && NoneAfter(b.rows, t) && raw.createdAt <= t
    ensures NoneAfter(StoredOne(b, raw, cap).rows, t)
  {
    var info := Named(raw);
    var up := Upserted(b, info).rows;
    if Linked(b.rows, info) {
      RefreshedSize(b.rows, info);
      forall i | 0 <= i < |up| ensures up[i].info.createdAt <= t {
        RefreshedAt(b.rows, info, i);
        assert b.rows[i] in b.rows;
      }
    }
    assert NoneAfter(up, t);
    forall r | r in StoredOne(b, raw, cap).rows ensures r.info.createdAt <= t {
      SurvivorMember(up, Doomed(up, raw.code, cap), r);
    }
  }

  lemma {:induction false} BurstFrom(b: Batch, codes: seq<string>, path: string, size: nat, at: int, cap: nat, t: int)
    requires RowsOk(b.rows, b.last) && NoneAfter(b.rows, t) && at <= t
    ensures NoneAfter(StoredAll(b, BurstInfos(codes, path, size, at), cap).rows, t)
  {
    if codes == [] {
    } else {
      var infos := BurstInfos(codes, path, size, at);
      var init := BurstInfos(codes[..|codes| - 1], path, size, at);
      assert infos[..|infos| - 1] == init;
      BurstFrom(b, codes[..|codes| - 1], path, size, at, cap, t);
      BatchKeepsRows(b, init, cap);
      StoredFrom(StoredAll(b, init, cap), infos[|infos| - 1], cap, t);
    }
  }
}
