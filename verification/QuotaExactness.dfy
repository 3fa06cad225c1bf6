/** Exactly how much the quota eviction leaves when recording ids are missing or shared by several bags. */
module QuotaExactness {
  import opened RosbagTrim
  import opened RosbagRows
  import opened QuotaEviction

  /** The recording id is a function of the path, possibly empty and possibly shared by several paths. */
  predicate IdsFollowPaths(rows: seq<Row>) {
    forall a, b :: a in rows && b in rows && a.info.path == b.info.path ==> a.info.recordingId == b.info.recordingId
  }

  /** A non-empty id names a single path. */
  predicate IdsNamePaths(rows: seq<Row>) {
    forall a, b :: a in rows && b in rows && a.info.recordingId == b.info.recordingId && a.info.recordingId != "" ==>
      a.info.path == b.info.path
  }

  /** The first `k` bags of the order whose id is empty: the loop passes over them without effect. */
  function Stuck(rows: seq<Row>, k: nat): (paths: seq<string>)
    requires k <= |BagOrder(rows)|
  {
    if k == 0 then []
    else Stuck(rows, k - 1) + (if IdAt(rows, k - 1) == "" then [BagOrder(rows)[k - 1]] else [])
  }

  lemma {:induction false} StuckMember(rows: seq<Row>, k: nat, p: string)
    requires k <= |BagOrder(rows)|
    ensures p in Stuck(rows, k) <==> exists i :: 0 <= i < k && IdAt(rows, i) == "" && BagOrder(rows)[i] == p
  {
    if k == 0 {
    } else {
      StuckMember(rows, k - 1, p);
    }
  }

  lemma {:induction false} StuckDistinct(rows: seq<Row>, k: nat)
    requires k <= |BagOrder(rows)|
    ensures QuotaEviction.Distinct(Stuck(rows, k))
  {
    if k == 0 {
    } else {
      StuckDistinct(rows, k - 1);
      var before := Stuck(rows, k - 1);
      forall i | 0 <= i < |before| ensures before[i] != BagOrder(rows)[k - 1] {
        assert before[i] in before;
        StuckMember(rows, k - 1, before[i]);
      }
    }
  }

  /** The bag at position `m` has an id, and that of one of the first `k` bags: it goes with that one. */
  predicate GoesWith(rows: seq<Row>, k: nat, m: nat)
    requires k <= |BagOrder(rows)| && m < |BagOrder(rows)|
  {
    IdAt(rows, m) != "" && IdAt(rows, m) in IdPrefix(rows, k)
  }

  /** The paths whose mark is `want`. */
  function Picked(paths: seq<string>, marks: seq<bool>, want: bool): seq<string>
    requires |paths| == |marks|
  {
    if paths == [] then []
    else
      var n := |paths| - 1;
      var before := Picked(paths[..n], marks[..n], want);
      if marks[n] == want then before + [paths[n]] else before
  }

  predicate IsPicked(paths: seq<string>, marks: seq<bool>, want: bool, p: string)
    requires |paths| == |marks|
  {
    exists i :: 0 <= i < |paths| && marks[i] == want && paths[i] == p
  }

  lemma {:induction false} PickedMember(paths: seq<string>, marks: seq<bool>, want: bool, p: string)
    requires |paths| == |marks|
    ensures p in Picked(paths, marks, want) <==> IsPicked(paths, marks, want, p)
  {
    if paths == [] {
    } else {
      var n := |paths| - 1;
      PickedMember(paths[..n], marks[..n], want, p);
      if IsPicked(paths[..n], marks[..n], want, p) {
        var i :| 0 <= i < n && marks[..n][i] == want && paths[..n][i] == p;
        assert marks[i] == want && paths[i] == p;
      }
      if IsPicked(paths, marks, want, p) {
        var i :| 0 <= i < |paths| && marks[i] == want && paths[i] == p;
        assert i < n ==> marks[..n][i] == want && paths[..n][i] == p;
      }
    }
  }

  lemma {:induction false} PickedDistinct(paths: seq<string>, marks: seq<bool>, want: bool)
    requires |paths| == |marks| && QuotaEviction.Distinct(paths)
    ensures QuotaEviction.Distinct(Picked(paths, marks, want))
  {
    if paths == [] {
    } else {
      var n := |paths| - 1;
      PickedDistinct(paths[..n], marks[..n], want);
      PickedMember(paths[..n], marks[..n], want, paths[n]);
    }
  }

  lemma {:induction false} PickedSum(paths: seq<string>, marks: seq<bool>, f: string -> nat)
    requires |paths| == |marks|
    ensures Sum(Picked(paths, marks, true), f) + Sum(Picked(paths, marks, false), f) == Sum(paths, f)
  {
    if paths == [] {
    } else {
      var n := |paths| - 1;
      PickedSum(paths[..n], marks[..n], f);
      SumSnoc(paths[..n], paths[n], f);
      SumSnoc(Picked(paths[..n], marks[..n], marks[n]), paths[n], f);
      assert paths == paths[..n] + [paths[n]];
    }
  }

  /** For the bags from position `k` on, whether they go with one of the first `k`. */
  function Marks(rows: seq<Row>, k: nat): (marks: seq<bool>)
    requires k <= |BagOrder(rows)|
    ensures |marks| == |BagOrder(rows)| - k
  {
    seq(|BagOrder(rows)| - k, i requires 0 <= i < |BagOrder(rows)| - k => GoesWith(rows, k, k + i))
  }

  function LaterBags(rows: seq<Row>, k: nat, gone: bool): seq<string>
    requires k <= |BagOrder(rows)|
  {
    Picked(BagOrder(rows)[k..], Marks(rows, k), gone)
  }

  /** The bags that were not passed but share the id of one that was. */
  function Shared(rows: seq<Row>, k: nat): seq<string>
    requires k <= |BagOrder(rows)|
  {
    LaterBags(rows, k, true)
  }

  /** The bags left after the first `k` of the order were passed. */
  function LeftBags(rows: seq<Row>, k: nat): seq<string>
    requires k <= |BagOrder(rows)|
  {
    Stuck(rows, k) + LaterBags(rows, k, false)
  }

  lemma LaterFrom(rows: seq<Row>, k: nat, gone: bool, p: string) returns (m: nat)
    requires k <= |BagOrder(rows)| && p in LaterBags(rows, k, gone)
    ensures k <= m < |BagOrder(rows)| && GoesWith(rows, k, m) == gone && BagOrder(rows)[m] == p
  {
    var rest := BagOrder(rows)[k..];
    PickedMember(rest, Marks(rows, k), gone, p);
    var i :| 0 <= i < |rest| && Marks(rows, k)[i] == gone && rest[i] == p;
    m := k + i;
  }

  lemma LaterHas(rows: seq<Row>, k: nat, m: nat)
    requires k <= m < |BagOrder(rows)|
    ensures BagOrder(rows)[m] in LaterBags(rows, k, GoesWith(rows, k, m))
  {
    var rest := BagOrder(rows)[k..];
    assert rest[m - k] == BagOrder(rows)[m] && Marks(rows, k)[m - k] == GoesWith(rows, k, m);
    PickedMember(rest, Marks(rows, k), GoesWith(rows, k, m), BagOrder(rows)[m]);
  }

  lemma LeftDistinct(rows: seq<Row>, k: nat)
    requires k <= |BagOrder(rows)|
    ensures QuotaEviction.Distinct(LeftBags(rows, k))
  {
    StuckDistinct(rows, k);
    PickedDistinct(BagOrder(rows)[k..], Marks(rows, k), false);
    var stuck, rest := Stuck(rows, k), LaterBags(rows, k, false);
    forall i, j | 0 <= i < |stuck| && 0 <= j < |rest| ensures stuck[i] != rest[j] {
      assert stuck[i] in stuck && rest[j] in rest;
      StuckMember(rows, k, stuck[i]);
      var m := LaterFrom(rows, k, false, rest[j]);
    }
  }

  lemma BagIndex(rows: seq<Row>, r: Row) returns (m: nat)
    requires r in rows
    ensures m < |BagOrder(rows)| && BagOrder(rows)[m] == r.info.path
  {
    var sorted, paths := AgeSorted(rows), BagOrder(rows);
    ReferencedByMember(sorted, r.info.path);
    assert r in sorted && r.info.path in paths;
    m :| 0 <= m < |paths| && paths[m] == r.info.path;
  }

  lemma IdsInPrefix(rows: seq<Row>, k: nat, m: nat)
    requires m < k <= |BagOrder(rows)|
    ensures IdAt(rows, m) in IdPrefix(rows, k)
  {
    assert IdPrefix(rows, k)[m] == IdAt(rows, m);
  }

  lemma LeftMember(rows: seq<Row>, k: nat, m: nat)
    requires k <= |BagOrder(rows)| && m < |BagOrder(rows)|
    ensures BagOrder(rows)[m] in LeftBags(rows, k) <==> !GoesWith(rows, k, m)
  {
    var paths := BagOrder(rows);
    StuckMember(rows, k, paths[m]);
    if paths[m] in LaterBags(rows, k, false) {
      var later := LaterFrom(rows, k, false, paths[m]);
      assert later == m;
    }
    if m < k {
      IdsInPrefix(rows, k, m);
    } else {
      LaterHas(rows, k, m);
    }
  }

  /** Exactly the rows of the bags left survive. */
  lemma LeftExactly(s: Store, cap: nat, k: nat, r: Row)
    requires IdsFollowPaths(s.rows) && k <= |BagOrder(s.rows)| && r in s.rows
    ensures r in EvictedAfter(s, cap, k).rows <==> r.info.path in LeftBags(s.rows, k)
  {
    var m := BagIndex(s.rows, r);
    var mine := IdAtIsARow(s.rows, m);
    LeftMember(s.rows, k, m);
    DeletedLeaves(s, cap, IdPrefix(s.rows, k), r);
  }

  lemma SurvivorsAreRows(s: Store, cap: nat, k: nat, r: Row)
    requires k <= |BagOrder(s.rows)| && r in EvictedAfter(s, cap, k).rows
    ensures r in s.rows
  {
    DeletedLeaves(s, cap, IdPrefix(s.rows, k), r);
  }

  lemma LeftReferenced(s: Store, cap: nat, k: nat, i: nat)
    requires IdsFollowPaths(s.rows) && k <= |BagOrder(s.rows)| && i < |LeftBags(s.rows, k)|
    ensures Referenced(EvictedAfter(s, cap, k).rows, LeftBags(s.rows, k)[i])
  {
    var left, paths := LeftBags(s.rows, k), BagOrder(s.rows);
    var p := left[i];
    assert p in left;
    var m: nat;
    if p in Stuck(s.rows, k) {
      StuckMember(s.rows, k, p);
      m :| 0 <= m < k && paths[m] == p;
    } else {
      m := LaterFrom(s.rows, k, false, p);
    }
    var r := IdAtIsARow(s.rows, m);
    LeftExactly(s, cap, k, r);
    ReferencedByMember(EvictedAfter(s, cap, k).rows, p);
  }

  lemma {:induction false} SumConcat(a: seq<string>, b: seq<string>, f: string -> nat)
    ensures Sum(a + b, f) == Sum(a, f) + Sum(b, f)
  {
    if a == [] {
      assert a + b == b;
    } else {
      SumConcat(a[1..], b, f);
      assert (a + b)[1..] == a[1..] + b;
    }
  }

  /**
   What the bags take after `k` of them were passed: the running total, and the passed bags that cannot be
   deleted, less the bags that went early because they share the id of a passed one.
   */
  lemma TotalAfterExactly(s: Store, cap: nat, k: nat)
    requires IdsFollowPaths(s.rows) && k <= |BagOrder(s.rows)|
    ensures var size := SizeIn(s.rows);
            Total(EvictedAfter(s, cap, k).rows) + Sum(Shared(s.rows, k), size) ==
            Running(s.rows, k) + Sum(Stuck(s.rows, k), size)
  {
    var after, left, size := EvictedAfter(s, cap, k).rows, LeftBags(s.rows, k), SizeIn(s.rows);
    var paths := BagOrder(s.rows);
    LeftDistinct(s.rows, k);
    forall r | r in after ensures r in s.rows && r.info.path in left {
      SurvivorsAreRows(s, cap, k, r);
      LeftExactly(s, cap, k, r);
    }
    forall r | r in s.rows && r.info.path in left ensures r in after {
      LeftExactly(s, cap, k, r);
    }
    forall i | 0 <= i < |left| ensures Referenced(after, left[i]) {
      LeftReferenced(s, cap, k, i);
    }
    TotalWithin(after, s.rows, left);
    TotalCovers(after, s.rows, left);
    SumConcat(Stuck(s.rows, k), LaterBags(s.rows, k, false), size);
    PickedSum(paths[k..], Marks(s.rows, k), size);
  }

  /** So whatever the ids, the bags never take more than the running total and the passed bags without an id. */
  lemma TotalBounded(s: Store, cap: nat, k: nat)
    requires IdsFollowPaths(s.rows) && k <= |BagOrder(s.rows)|
    ensures Total(EvictedAfter(s, cap, k).rows) <= Running(s.rows, k) + Sum(Stuck(s.rows, k), SizeIn(s.rows))
  {
    TotalAfterExactly(s, cap, k);
  }

  /**
   Where the loop stops, the quota is met exactly if the running total and the passed bags without an id,
   less the bags that went early, fit the limit. With every id present that is always so, and no bag goes
   early if every id names a single path.
   */
  lemma QuotaMetIff(s: Store, cap: nat, limit: nat, k: nat)
    requires IdsFollowPaths(s.rows) && StopsAt(s.rows, limit, k)
    ensures var size := SizeIn(s.rows);
            Total(EvictedAfter(s, cap, k).rows) <= limit <==>
            Running(s.rows, k) + Sum(Stuck(s.rows, k), size) <= limit + Sum(Shared(s.rows, k), size)
    ensures (forall r :: r in s.rows ==> r.info.recordingId != "") ==>
              Stuck(s.rows, k) == [] && Total(EvictedAfter(s, cap, k).rows) <= limit
    ensures IdsNamePaths(s.rows) ==> Shared(s.rows, k) == []
  {
    TotalAfterExactly(s, cap, k);
    if forall r :: r in s.rows ==> r.info.recordingId != "" {
      forall i | 0 <= i < k ensures IdAt(s.rows, i) != "" {
        var r := IdAtIsARow(s.rows, i);
      }
      NoneStuck(s.rows, k);
    }
    if IdsNamePaths(s.rows) {
      NoneShared(s.rows, k);
    }
  }

  lemma NoneShared(rows: seq<Row>, k: nat)
    requires k <= |BagOrder(rows)| && IdsNamePaths(rows)
    ensures Shared(rows, k) == []
  {
    var paths := BagOrder(rows);
    forall m | k <= m < |paths| ensures !GoesWith(rows, k, m) {
      SharesNone(rows, k, m);
    }
    if Shared(rows, k) != [] {
      var m := LaterFrom(rows, k, true, Shared(rows, k)[0]);
    }
  }

  lemma SharesNone(rows: seq<Row>, k: nat, m: nat)
    requires k <= m < |BagOrder(rows)| && IdsNamePaths(rows)
    ensures !GoesWith(rows, k, m)
  {
    if IdAt(rows, m) != "" {
      var r := IdAtIsARow(rows, m);
      forall i | 0 <= i < k ensures IdPrefix(rows, k)[i] != IdAt(rows, m) {
        var other := IdAtIsARow(rows, i);
        assert other.info.path != r.info.path;
      }
    }
  }

  lemma {:induction false} NoneStuck(rows: seq<Row>, k: nat)
    requires k <= |BagOrder(rows)| && forall i :: 0 <= i < k ==> IdAt(rows, i) != ""
    ensures Stuck(rows, k) == []
  {
    if k == 0 {
    } else {
      NoneStuck(rows, k - 1);
    }
  }

  // ---------------------------------------------------------------- a store that stays over its limit

  /** A recording stored under a path without a last component gets no id. */
  function RootBag(size: nat): Info {
    Info("A", "", "/", size, 0)
  }

  /** Reachable: one such bag larger than the limit is passed by the loop and still there. */
  lemma OverLimitStays(size: nat, limit: nat) returns (s: Store)
    requires size > limit
    ensures s == Run(0, [Record("/"), StoreBatch([RootBag(size)])])
    ensures PossibleRun(0, [Record("/"), StoreBatch([RootBag(size)])])
    ensures StopsAt(s.rows, limit, 1) && Total(EvictedAfter(s, 0, 1).rows) == size
  {
    var info := RootBag(size);
    var steps := [Record("/"), StoreBatch([info])];
    assert RecordingId("/") == "" by {
      assert "/"[..0] == "";
    }
    assert Named(info) == info;
    assert steps[..1] == [Record("/")] && steps[..1][..0] == [];
    var one := Run(0, steps[..1]);
    assert Run(0, []) == EMPTY && EMPTY.disk + {"/"} == {"/"};
    assert one == After(EMPTY, 0, Record("/"));
    assert one == Store([], 0, {"/"});
    assert [info][..0] == [];
    var row := Row(info, 1);
    assert StoredAll(Batch([], 0, {}), [info], 0) == Batch([row], 1, {});
    s := Run(0, steps);
    assert s.rows == [row];
    OneBag(row);
    IdleRun(s, row, limit);
  }

  lemma OneBag(row: Row)
    ensures AgeSorted([row]) == [row] && BagOrder([row]) == [row.info.path]
    ensures Largest([row], row.info.path) == row.info.size
  {
    assert [row][..0] == [];
    assert AgeSorted([row]) == InsertRow([], row);
    assert FirstPaths([row]) == [row.info.path];
  }

  lemma IdleRun(s: Store, row: Row, limit: nat)
    requires s.rows == [row] && row.info.recordingId == "" && row.info.size > limit
    ensures StopsAt(s.rows, limit, 1) && Total(EvictedAfter(s, 0, 1).rows) == row.info.size
  {
    OneBag(row);
    RunningStep(s.rows, 0);
    EmptyIdsStay(s, 0, 1);
    RunningStart(s.rows);
    assert BagOrder(s.rows)[1..] == [];
  }
}
