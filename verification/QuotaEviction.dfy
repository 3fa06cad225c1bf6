/** The byte quota over bags that several faults may share. */
module QuotaEviction {
  import opened RosbagTrim
  import opened RosbagRows
  import opened RosbagStorage

  // ---------------------------------------------------------------- sums over distinct paths

  function Sum(paths: seq<string>, f: string -> nat): nat {
    if paths == [] then 0 else f(paths[0]) + Sum(paths[1..], f)
  }

  predicate Distinct(paths: seq<string>) {
    forall i, j :: 0 <= i < j < |paths| ==> paths[i] != paths[j]
  }

  function Dropping(b: seq<string>, k: nat): seq<string>
    requires k < |b|
  {
    b[..k] + b[k + 1..]
  }

  lemma {:induction false} SumDropping(b: seq<string>, k: nat, f: string -> nat)
    requires k < |b|
    ensures Sum(b, f) == f(b[k]) + Sum(Dropping(b, k), f)
  {
    if k == 0 {
      assert Dropping(b, k) == b[1..];
    } else {
      SumDropping(b[1..], k - 1, f);
      assert Dropping(b, k) == [b[0]] + Dropping(b[1..], k - 1);
    }
  }

  lemma DroppingKeeps(b: seq<string>, k: nat, x: string)
    requires Distinct(b) && k < |b|
    ensures Distinct(Dropping(b, k))
    ensures x in Dropping(b, k) <==> x in b && x != b[k]
  {
    var c := Dropping(b, k);
    forall i, j | 0 <= i < j < |c| ensures c[i] != c[j] {
      assert c[i] == b[if i < k then i else i + 1] && c[j] == b[if j < k then j else j + 1];
    }
    if x in b && x != b[k] {
      var i :| 0 <= i < |b| && b[i] == x;
      assert c[if i < k then i else i - 1] == x;
    }
  }

  /** A list of some of the paths, with no larger sizes, does not sum to more. */
  lemma {:induction false} SumAtMost(a: seq<string>, b: seq<string>, f: string -> nat, g: string -> nat)
    requires Distinct(a) && Distinct(b)
    requires forall i :: 0 <= i < |a| ==> a[i] in b && f(a[i]) <= g(a[i])
    ensures Sum(a, f) <= Sum(b, g)
    decreases |a|
  {
    if a == [] {
    } else {
      assert a[0] in b;
      var k :| 0 <= k < |b| && b[k] == a[0];
      SumDropping(b, k, g);
      DroppingKeeps(b, k, a[0]);
      forall i | 0 <= i < |a[1..]| ensures a[1..][i] in Dropping(b, k) && f(a[1..][i]) <= g(a[1..][i]) {
        assert a[1..][i] == a[i + 1] && a[i + 1] != a[0];
        DroppingKeeps(b, k, a[i + 1]);
      }
      SumAtMost(a[1..], Dropping(b, k), f, g);
    }
  }

  // ---------------------------------------------------------------- the bytes on disk

  /** The largest row of a bag. */
  function Largest(rows: seq<Row>, path: string): nat {
    if rows == [] then 0
    else
      var before, last := Largest(rows[..|rows| - 1], path), rows[|rows| - 1].info;
      if last.path == path && last.size > before then last.size else before
  }

  function SizeIn(rows: seq<Row>): string -> nat {
    p => Largest(rows, p)
  }

  lemma {:induction false} LargestBounds(rows: seq<Row>, r: Row)
    requires r in rows
    ensures r.info.size <= Largest(rows, r.info.path)
  {
    var init, last := rows[..|rows| - 1], rows[|rows| - 1];
    if r != last {
      assert init + [last] == rows;
      LargestBounds(init, r);
    }
  }

  lemma {:induction false} LargestAttained(rows: seq<Row>, path: string) returns (r: Row)
    requires Largest(rows, path) > 0
    ensures r in rows && r.info.path == path && r.info.size == Largest(rows, path)
  {
    var init, last := rows[..|rows| - 1], rows[|rows| - 1];
    if last.info.path == path && last.info.size > Largest(init, path) {
      r := last;
    } else {
      r := LargestAttained(init, path);
    }
  }

  lemma LargestAtMost(a: seq<Row>, b: seq<Row>, path: string)
    requires forall r :: r in a && r.info.path == path ==> r in b
    ensures Largest(a, path) <= Largest(b, path)
  {
    if Largest(a, path) > 0 {
      var r := LargestAttained(a, path);
      LargestBounds(b, r);
    }
  }

  /** The distinct paths, in the order in which they first occur. */
  function FirstPaths(rows: seq<Row>): (paths: seq<string>)
    ensures Distinct(paths)
    ensures forall p :: p in paths <==> Referenced(rows, p)
  {
    if rows == [] then []
    else
      var before, p := FirstPaths(rows[..|rows| - 1]), rows[|rows| - 1].info.path;
      ReferencedSnoc(rows);
      if p in before then before else before + [p]
  }

  lemma ReferencedSnoc(rows: seq<Row>)
    requires rows != []
    ensures forall p :: Referenced(rows, p) <==> Referenced(rows[..|rows| - 1], p) || rows[|rows| - 1].info.path == p
  {
    var init := rows[..|rows| - 1];
    forall p ensures Referenced(rows, p) <==> Referenced(init, p) || rows[|rows| - 1].info.path == p {
      if Referenced(init, p) {
        var i :| 0 <= i < |init| && init[i].info.path == p;
        assert rows[i].info.path == p;
      }
      if Referenced(rows, p) {
        var i :| 0 <= i < |rows| && rows[i].info.path == p;
        if i < |init| {
          assert init[i].info.path == p;
        }
      }
    }
  }

  /** What the bags take: each counted once, with its largest row. */
  function Total(rows: seq<Row>): nat {
    Sum(FirstPaths(rows), SizeIn(rows))
  }

  lemma {:induction false} ReferencedByMember(rows: seq<Row>, path: string)
    ensures Referenced(rows, path) <==> exists r :: r in rows && r.info.path == path
  {
    if r :| r in rows && r.info.path == path {
      var i :| 0 <= i < |rows| && rows[i] == r;
      assert rows[i].info.path == path;
    }
    if Referenced(rows, path) {
      var i :| 0 <= i < |rows| && rows[i].info.path == path;
      assert rows[i] in rows;
    }
  }

  /** Rows of `b` that only name some distinct paths take at most those paths' bytes. */
  lemma TotalWithin(a: seq<Row>, b: seq<Row>, paths: seq<string>)
    requires Distinct(paths) && forall r :: r in a ==> r in b && r.info.path in paths
    ensures Total(a) <= Sum(paths, SizeIn(b))
  {
    var mine := FirstPaths(a);
    forall i | 0 <= i < |mine| ensures mine[i] in paths && SizeIn(a)(mine[i]) <= SizeIn(b)(mine[i]) {
      assert mine[i] in mine;
      ReferencedByMember(a, mine[i]);
      LargestAtMost(a, b, mine[i]);
    }
    SumAtMost(mine, paths, SizeIn(a), SizeIn(b));
  }

  /** Conversely, rows that name all of the paths with all their rows take at least those bytes. */
  lemma TotalCovers(a: seq<Row>, b: seq<Row>, paths: seq<string>)
    requires Distinct(paths) && forall i :: 0 <= i < |paths| ==> Referenced(a, paths[i])
    requires forall r :: r in b && r.info.path in paths ==> r in a
    ensures Sum(paths, SizeIn(b)) <= Total(a)
  {
    forall i | 0 <= i < |paths| ensures paths[i] in FirstPaths(a) && SizeIn(b)(paths[i]) <= SizeIn(a)(paths[i]) {
      assert paths[i] in paths;
      LargestAtMost(b, a, paths[i]);
    }
    SumAtMost(paths, FirstPaths(a), SizeIn(b), SizeIn(a));
  }

  method TotalRosbagStorageBytes(rows: seq<Row>) returns (total: nat)
    ensures total == Total(rows)
  {
    var bytes: map<string, nat> := map[];
    for i := 0 to |rows|
      invariant forall p :: p in bytes <==> Referenced(rows[..i], p)
      invariant forall p :: p in bytes ==> bytes[p] == Largest(rows[..i], p)
      invariant forall p :: p !in bytes ==> Largest(rows[..i], p) == 0
    {
      assert rows[..i + 1][..i] == rows[..i];
      ReferencedSnoc(rows[..i + 1]);
      var info := rows[i].info;
      var before := if info.path in bytes then bytes[info.path] else 0;
      bytes := bytes[info.path := if info.size > before then info.size else before];
    }
    assert rows[..|rows|] == rows;
    total := SumOfMap(bytes, rows);
  }

  /** The sum over the map, in whatever order it iterates. */
  method SumOfMap(bytes: map<string, nat>, ghost rows: seq<Row>) returns (total: nat)
    requires forall p :: p in bytes <==> Referenced(rows, p)
    requires forall p :: p in bytes ==> bytes[p] == Largest(rows, p)
    ensures total == Total(rows)
  {
    total := 0;
    var todo := bytes.Keys;
    ghost var done: seq<string> := [];
    ghost var f := SizeIn(rows);
    while todo != {}
      invariant forall p :: p in todo ==> p in bytes
      invariant Lists(done, bytes.Keys, todo)
      invariant total == Sum(done, f)
      decreases |todo|
    {
      var path :| path in todo;
      ListsOneMore(done, bytes.Keys, todo, path);
      SumSnoc(done, path, f);
      todo := todo - {path};
      total := total + bytes[path];
      done := done + [path];
    }
    AnyListing(done, rows);
  }

  /** `done` lists each of `all` but `todo` once. */
  ghost predicate Lists(done: seq<string>, all: set<string>, todo: set<string>) {
    Distinct(done) && forall p :: p in done <==> p in all && p !in todo
  }

  lemma ListsOneMore(done: seq<string>, all: set<string>, todo: set<string>, path: string)
    requires Lists(done, all, todo) && path in todo && path in all
    ensures Lists(done + [path], all, todo - {path})
  {
  }

  /** The total does not depend on the order in which the paths are listed. */
  lemma AnyListing(listed: seq<string>, rows: seq<Row>)
    requires Distinct(listed) && forall p :: p in listed <==> Referenced(rows, p)
    ensures Sum(listed, SizeIn(rows)) == Total(rows)
  {
    var paths := FirstPaths(rows);
    forall i | 0 <= i < |listed| ensures listed[i] in paths {
      assert listed[i] in listed;
    }
    forall i | 0 <= i < |paths| ensures paths[i] in listed {
      assert paths[i] in paths;
    }
    SumAtMost(listed, paths, SizeIn(rows), SizeIn(rows));
    SumAtMost(paths, listed, SizeIn(rows), SizeIn(rows));
  }

  lemma {:induction false} SumSnoc(paths: seq<string>, p: string, f: string -> nat)
    ensures Sum(paths + [p], f) == Sum(paths, f) + f(p)
  {
    if paths == [] {
    } else {
      SumSnoc(paths[1..], p, f);
      assert (paths + [p])[1..] == paths[1..] + [p];
    }
  }

  // ---------------------------------------------------------------- bags, oldest first

  predicate SortedByAge(rows: seq<Row>) {
    forall i, j :: 0 <= i < j < |rows| ==> Older(rows[i], rows[j])
  }

  function InsertRow(s: seq<Row>, r: Row): (t: seq<Row>)
    ensures forall x :: x in t <==> x in s || x == r
  {
    if s == [] || Older(r, s[0]) then [r] + s
    else
      assert s == [s[0]] + s[1..];
      [s[0]] + InsertRow(s[1..], r)
  }

  /** All rows, oldest first. */
  function AgeSorted(rows: seq<Row>): (s: seq<Row>)
    ensures forall x :: x in s <==> x in rows
  {
    if rows == [] then []
    else
      assert rows == rows[..|rows| - 1] + [rows[|rows| - 1]];
      InsertRow(AgeSorted(rows[..|rows| - 1]), rows[|rows| - 1])
  }

  lemma SortedCons(r: Row, s: seq<Row>)
    requires SortedByAge(s) && forall x :: x in s ==> Older(r, x)
    ensures SortedByAge([r] + s)
  {
    var t := [r] + s;
    forall i, j | 0 <= i < j < |t| ensures Older(t[i], t[j]) {
      assert t[j] == s[j - 1] && s[j - 1] in s;
    }
  }

  lemma {:induction false} InsertRowSorted(s: seq<Row>, r: Row)
    requires SortedByAge(s) && forall x :: x in s ==> x.order != r.order
    ensures SortedByAge(InsertRow(s, r))
  {
    if s == [] || Older(r, s[0]) {
      forall x | x in s ensures Older(r, x) {
        var i :| 0 <= i < |s| && s[i] == x;
        assert i > 0 ==> Older(s[0], s[i]);
      }
      SortedCons(r, s);
    } else {
      assert s[0] in s && forall x :: x in s[1..] ==> x in s;
      InsertRowSorted(s[1..], r);
      forall x | x in InsertRow(s[1..], r) ensures Older(s[0], x) {
        if x != r {
          var i :| 0 <= i < |s[1..]| && s[1..][i] == x;
          assert Older(s[0], s[i + 1]);
        }
      }
      SortedCons(s[0], InsertRow(s[1..], r));
    }
  }

  lemma {:induction false} AgeSortedIsSorted(rows: seq<Row>)
    requires DistinctOrders(rows)
    ensures SortedByAge(AgeSorted(rows))
  {
    if rows == [] {
    } else {
      var init, last := rows[..|rows| - 1], rows[|rows| - 1];
      AgeSortedIsSorted(init);
      forall x | x in AgeSorted(init) ensures x.order != last.order {
        var i :| 0 <= i < |init| && init[i] == x;
        assert rows[i] == x;
      }
      InsertRowSorted(AgeSorted(init), last);
    }
  }

  function FirstIndex(rows: seq<Row>, path: string): (i: nat)
    requires Referenced(rows, path)
    ensures i < |rows| && rows[i].info.path == path && forall k :: 0 <= k < i ==> rows[k].info.path != path
  {
    if rows[0].info.path == path then 0
    else
      assert Referenced(rows[1..], path) by {
        var i :| 0 <= i < |rows| && rows[i].info.path == path;
        assert rows[1..][i - 1].info.path == path;
      }
      1 + FirstIndex(rows[1..], path)
  }

  /** In the order of first occurrence, an earlier path occurs before every row of a later one. */
  lemma {:induction false} FirstPathsInOrder(rows: seq<Row>, i: int, j: int)
    requires 0 <= i < j < |FirstPaths(rows)|
    ensures Referenced(rows, FirstPaths(rows)[i])
    ensures forall k :: 0 <= k < |rows| && rows[k].info.path == FirstPaths(rows)[j] ==>
              FirstIndex(rows, FirstPaths(rows)[i]) < k
  {
    var paths := FirstPaths(rows);
    assert paths[i] in paths && paths[j] in paths;
    var init, last := rows[..|rows| - 1], rows[|rows| - 1];
    var before := FirstPaths(init);
    var at := FirstIndex(rows, paths[i]);
    if j < |before| {
      FirstPathsInOrder(init, i, j);
      var earlier := FirstIndex(init, paths[i]);
      assert rows[earlier] == init[earlier];
      assert at <= earlier;
      forall k | 0 <= k < |rows| && rows[k].info.path == paths[j] ensures at < k {
        if k < |init| {
          assert init[k].info.path == paths[j];
        }
      }
    } else {
      assert paths == before + [last.info.path];
      assert before[i] in before;
      var k0 :| 0 <= k0 < |init| && init[k0].info.path == paths[i];
      assert rows[k0].info.path == paths[i];
      assert at <= k0;
      assert paths[j] !in before;
      forall k | 0 <= k < |init| ensures rows[k].info.path != paths[j] {
        assert init[k].info.path == rows[k].info.path;
        assert Referenced(init, init[k].info.path);
      }
    }
  }

  /** Bags are listed oldest first: the oldest row of a bag is older than every row of a later bag. */
  lemma BagsOldestFirst(rows: seq<Row>, i: int, j: int, r: Row) returns (oldest: Row)
    requires DistinctOrders(rows)
    requires var paths := FirstPaths(AgeSorted(rows)); 0 <= i < j < |paths| && r in rows && r.info.path == paths[j]
    ensures oldest in rows && oldest.info.path == FirstPaths(AgeSorted(rows))[i] && Older(oldest, r)
  {
    var sorted := AgeSorted(rows);
    AgeSortedIsSorted(rows);
    FirstPathsInOrder(sorted, i, j);
    var at := FirstIndex(sorted, FirstPaths(sorted)[i]);
    oldest := sorted[at];
    assert oldest in sorted;
    var k :| 0 <= k < |sorted| && sorted[k] == r;
  }

  // ---------------------------------------------------------------- the eviction loop

  function FirstId(sorted: seq<Row>, path: string): string
    requires Referenced(sorted, path)
  {
    sorted[FirstIndex(sorted, path)].info.recordingId
  }

  /** The bags of a store, oldest first. */
  function BagOrder(rows: seq<Row>): (paths: seq<string>)
    ensures Distinct(paths) && forall p :: p in paths <==> Referenced(AgeSorted(rows), p)
  {
    FirstPaths(AgeSorted(rows))
  }

  /** The recording id under which bag `i` of the order is deleted. */
  function IdAt(rows: seq<Row>, i: nat): string
    requires i < |BagOrder(rows)|
  {
    assert BagOrder(rows)[i] in BagOrder(rows);
    FirstId(AgeSorted(rows), BagOrder(rows)[i])
  }

  function IdPrefix(rows: seq<Row>, j: nat): (ids: seq<string>)
    requires j <= |BagOrder(rows)|
    ensures |ids| == j && forall i :: 0 <= i < j ==> ids[i] == IdAt(rows, i)
  {
    if j == 0 then [] else IdPrefix(rows, j - 1) + [IdAt(rows, j - 1)]
  }

  function DeletedAll(s: Store, cap: nat, ids: seq<string>): Store {
    if ids == [] then s else After(DeletedAll(s, cap, ids[..|ids| - 1]), cap, DeleteRecording(ids[|ids| - 1]))
  }

  lemma DeletedOneMore(s: Store, cap: nat, ids: seq<string>, id: string)
    ensures DeletedAll(s, cap, ids + [id]) == After(DeletedAll(s, cap, ids), cap, DeleteRecording(id))
  {
    assert (ids + [id])[..|ids|] == ids;
  }

  /** The store after the first `j` bags of its order were evicted by recording id. */
  function EvictedAfter(s: Store, cap: nat, j: nat): Store
    requires j <= |BagOrder(s.rows)|
  {
    DeletedAll(s, cap, IdPrefix(s.rows, j))
  }

  /** The running total before bag `j`. */
  function Running(rows: seq<Row>, j: nat): nat
    requires j <= |BagOrder(rows)|
  {
    Sum(BagOrder(rows)[j..], SizeIn(rows))
  }

  lemma RunningStep(rows: seq<Row>, j: nat)
    requires j < |BagOrder(rows)|
    ensures Running(rows, j) == Largest(rows, BagOrder(rows)[j]) + Running(rows, j + 1)
  {
    var paths := BagOrder(rows);
    assert paths[j..][1..] == paths[j + 1..];
  }

  lemma RunningStart(rows: seq<Row>)
    ensures Running(rows, 0) == Total(rows)
  {
    var paths, sorted := BagOrder(rows), AgeSorted(rows);
    assert paths[0..] == paths;
    forall p ensures Referenced(sorted, p) <==> Referenced(rows, p) {
      ReferencedByMember(sorted, p);
      ReferencedByMember(rows, p);
    }
    AnyListing(paths, rows);
  }

  /** `k` is where the loop stops: the first bag before which the running total is within the limit. */
  predicate StopsAt(rows: seq<Row>, limit: nat, k: nat) {
    && k <= |BagOrder(rows)|
    && (k < |BagOrder(rows)| ==> Running(rows, k) <= limit)
    && OverBefore(rows, limit, k)
  }

  predicate OverBefore(rows: seq<Row>, limit: nat, k: nat) {
    k <= |BagOrder(rows)| && forall j :: 0 <= j < k ==> Running(rows, j) > limit
  }

  method EvictBagsOverQuota(storage: InMemoryRosbags, limit: nat) returns (evicted: seq<string>, ghost k: nat)
    requires RowsOk(storage.rows, storage.last)
    modifies storage
    ensures StopsAt(old(storage.rows), limit, k) && evicted == BagOrder(old(storage.rows))[..k]
    ensures storage.Model() == EvictedAfter(old(storage.Model()), storage.cap, k)
  {
    var rows := storage.rows;
    var current := TotalRosbagStorageBytes(rows);
    RunningStart(rows);
    evicted, k := [], 0;
    if current > limit {
      evicted, k := EvictLoop(storage, rows, current, limit, storage.Model());
    }
  }

  method EvictLoop(storage: InMemoryRosbags, rows: seq<Row>, total: nat, limit: nat, ghost s: Store)
    returns (evicted: seq<string>, ghost k: nat)
    requires s.rows == rows && total == Running(rows, 0) && storage.Model() == s
    modifies storage
    ensures StopsAt(rows, limit, k) && evicted == BagOrder(rows)[..k]
    ensures storage.Model() == EvictedAfter(s, storage.cap, k)
  {
    evicted := [];
    var current := total;
    var sorted, paths := AgeSorted(rows), BagOrder(rows);
    var i: nat := 0;
    while i < |paths| && current > limit
      invariant i <= |paths| && current == Running(rows, i)
      invariant storage.Model() == EvictedAfter(s, storage.cap, i)
      invariant OverBefore(rows, limit, i)
      invariant evicted == paths[..i]
      decreases |paths| - i
    {
      PrefixGrows(paths, i);
      current := EvictOne(storage, rows, sorted, paths, i, current, s);
      evicted := evicted + [paths[i]];
      i := i + 1;
    }
    k := i;
  }

  lemma PrefixGrows(paths: seq<string>, i: nat)
    requires i < |paths|
    ensures paths[..i] + [paths[i]] == paths[..i + 1]
  {
  }

  /** One bag: deleted by recording, so that every fault of a burst loses it at once; the total saturates. */
  method EvictOne(
    storage: InMemoryRosbags, rows: seq<Row>, sorted: seq<Row>, paths: seq<string>, i: nat, current: nat,
    ghost s: Store)
    returns (left: nat)
    requires sorted == AgeSorted(rows) && paths == BagOrder(rows) && i < |paths| && s.rows == rows
    requires current == Running(rows, i) && storage.Model() == EvictedAfter(s, storage.cap, i)
    modifies storage
    ensures left == Running(rows, i + 1) && storage.Model() == EvictedAfter(s, storage.cap, i + 1)
  {
    assert paths[i] in paths;
    var removed := storage.DeleteRosbagRecording(FirstId(sorted, paths[i]));
    DeletedOneMore(s, storage.cap, IdPrefix(rows, i), IdAt(rows, i));
    RunningStep(rows, i);
    var bytes := Largest(rows, paths[i]);
    left := current - (if current < bytes then current else bytes);
  }

  // ---------------------------------------------------------------- what the eviction achieves

  /** The recording id of a row is a non-empty function of its path. */
  predicate IdsByPath(rows: seq<Row>) {
    && (forall r :: r in rows ==> r.info.recordingId != "")
    && forall a, b :: a in rows && b in rows && a.info.path == b.info.path ==> a.info.recordingId == b.info.recordingId
  }

  lemma IdAtIsARow(rows: seq<Row>, i: nat) returns (r: Row)
    requires i < |BagOrder(rows)|
    ensures r in rows && r.info.path == BagOrder(rows)[i] && r.info.recordingId == IdAt(rows, i)
  {
    var sorted, path := AgeSorted(rows), BagOrder(rows)[i];
    assert path in BagOrder(rows);
    r := sorted[FirstIndex(sorted, path)];
    assert r in sorted;
  }

  lemma KeptMember(rows: seq<Row>, gone: Row -> bool, r: Row)
    ensures r in Survivors(rows, Matching(rows, gone)) <==> r in rows && !gone(r)
  {
    var dead := Matching(rows, gone);
    SurvivorMember(rows, dead, r);
    if r in rows && !gone(r) {
      var i :| 0 <= i < |rows| && rows[i] == r;
      assert i !in dead;
    }
  }

  lemma {:induction false} DeletedLeaves(s: Store, cap: nat, ids: seq<string>, r: Row)
    ensures r in DeletedAll(s, cap, ids).rows <==>
            r in s.rows && (r.info.recordingId == "" || r.info.recordingId !in ids)
  {
    if ids == [] {
    } else {
      var init, id := ids[..|ids| - 1], ids[|ids| - 1];
      assert ids == init + [id];
      DeletedLeaves(s, cap, init, r);
      KeptMember(DeletedAll(s, cap, init).rows, OfRecording(id), r);
    }
  }

  lemma RowsLeft(s: Store, cap: nat, j: nat, r: Row)
    requires IdsByPath(s.rows) && j <= |BagOrder(s.rows)|
    ensures r in EvictedAfter(s, cap, j).rows <==> r in s.rows && r.info.recordingId !in IdPrefix(s.rows, j)
  {
    DeletedLeaves(s, cap, IdPrefix(s.rows, j), r);
  }

  /** An evicted bag has no row left, whichever faults shared it. */
  lemma WholeBagsGo(s: Store, cap: nat, j: nat, i: nat)
    requires IdsByPath(s.rows) && i < j <= |BagOrder(s.rows)|
    ensures !Referenced(EvictedAfter(s, cap, j).rows, BagOrder(s.rows)[i])
  {
    var after, path := EvictedAfter(s, cap, j).rows, BagOrder(s.rows)[i];
    ReferencedByMember(after, path);
    forall r | r in after ensures r.info.path != path {
      RowsLeft(s, cap, j, r);
      var first := IdAtIsARow(s.rows, i);
      assert IdPrefix(s.rows, j)[i] == IdAt(s.rows, i);
    }
  }

  lemma {:induction false} DeletionsFreeBags(s: Store, cap: nat, ids: seq<string>)
    requires StoreOk(s)
    ensures var after := DeletedAll(s, cap, ids);
            && StoreOk(after)
            && after.disk <= s.disk
            && (forall p :: p in Paths(s.rows) && p !in Paths(after.rows) ==> p !in after.disk)
            && (forall p :: p in s.disk && p !in after.disk ==> p in Paths(s.rows) && p !in Paths(after.rows))
            && Paths(after.rows) <= Paths(s.rows)
  {
    if ids == [] {
    } else {
      DeletionsFreeBags(s, cap, ids[..|ids| - 1]);
      var mid := DeletedAll(s, cap, ids[..|ids| - 1]);
      var step := DeleteRecording(ids[|ids| - 1]);
      StepKeepsBags(mid, cap, step);
      PathsOnlyShrink(mid, cap, ids[|ids| - 1]);
    }
  }

  lemma PathsOnlyShrink(s: Store, cap: nat, id: string)
    ensures Paths(After(s, cap, DeleteRecording(id)).rows) <= Paths(s.rows)
    ensures After(s, cap, DeleteRecording(id)).disk <= s.disk
  {
    SurvivorPaths(s.rows, Matching(s.rows, OfRecording(id)));
  }

  /** An evicted bag is gone from disk, every row left has its bag, and only bags without a row left are removed. */
  lemma EvictedBagsLeaveDisk(s: Store, cap: nat, j: nat, i: nat)
    requires StoreOk(s) && IdsByPath(s.rows) && i < j <= |BagOrder(s.rows)|
    ensures var after := EvictedAfter(s, cap, j);
            && StoreOk(after)
            && BagOrder(s.rows)[i] !in after.disk
            && (forall p :: p in s.disk && p !in after.disk ==> p in Paths(s.rows) && p !in Paths(after.rows))
  {
    var path := BagOrder(s.rows)[i];
    DeletionsFreeBags(s, cap, IdPrefix(s.rows, j));
    WholeBagsGo(s, cap, j, i);
    var r := IdAtIsARow(s.rows, i);
    ReferencedByMember(s.rows, path);
    PathsMeansReferenced(s.rows, path);
    PathsMeansReferenced(EvictedAfter(s, cap, j).rows, path);
  }

  /** The running total is never below what the bags really take. */
  lemma RealAtMostRunning(s: Store, cap: nat, j: nat)
    requires IdsByPath(s.rows) && j <= |BagOrder(s.rows)|
    ensures Total(EvictedAfter(s, cap, j).rows) <= Running(s.rows, j)
  {
    var after, paths := EvictedAfter(s, cap, j).rows, BagOrder(s.rows);
    forall r | r in after ensures r in s.rows && r.info.path in paths[j..] {
      RowsLeft(s, cap, j, r);
      ReferencedByMember(AgeSorted(s.rows), r.info.path);
      assert r in AgeSorted(s.rows) && r.info.path in paths;
      var m :| 0 <= m < |paths| && paths[m] == r.info.path;
      if m < j {
        WholeBagsGo(s, cap, j, m);
        ReferencedByMember(after, r.info.path);
      } else {
        assert paths[j..][m - j] == r.info.path;
      }
    }
    TotalWithin(after, s.rows, paths[j..]);
  }

  /** Wherever the loop stops, the bags fit the limit. */
  lemma QuotaIsMet(s: Store, cap: nat, limit: nat, k: nat)
    requires IdsByPath(s.rows) && StopsAt(s.rows, limit, k)
    ensures Total(EvictedAfter(s, cap, k).rows) <= limit
  {
    RealAtMostRunning(s, cap, k);
  }

  /** Each recording id belongs to one path. */
  predicate PathsById(rows: seq<Row>) {
    forall a, b :: a in rows && b in rows && a.info.recordingId == b.info.recordingId ==> a.info.path == b.info.path
  }

  lemma RealIsRunning(s: Store, cap: nat, j: nat)
    requires IdsByPath(s.rows) && PathsById(s.rows) && j <= |BagOrder(s.rows)|
    ensures Total(EvictedAfter(s, cap, j).rows) == Running(s.rows, j)
  {
    RealAtMostRunning(s, cap, j);
    var after, paths := EvictedAfter(s, cap, j).rows, BagOrder(s.rows);
    var rest := paths[j..];
    forall r | r in s.rows && r.info.path in rest ensures r in after {
      RestStays(s, cap, j, r);
    }
    forall i | 0 <= i < |rest| ensures Referenced(after, rest[i]) {
      RestReferenced(s, cap, j, i);
    }
    TotalCovers(after, s.rows, rest);
  }

  lemma RestReferenced(s: Store, cap: nat, j: nat, i: nat)
    requires IdsByPath(s.rows) && PathsById(s.rows) && j + i < |BagOrder(s.rows)|
    ensures Referenced(EvictedAfter(s, cap, j).rows, BagOrder(s.rows)[j..][i])
  {
    var rest := BagOrder(s.rows)[j..];
    var r := IdAtIsARow(s.rows, j + i);
    assert r.info.path == rest[i] && rest[i] in rest;
    RestStays(s, cap, j, r);
    ReferencedByMember(EvictedAfter(s, cap, j).rows, rest[i]);
  }

  lemma RestStays(s: Store, cap: nat, j: nat, r: Row)
    requires IdsByPath(s.rows) && PathsById(s.rows) && j <= |BagOrder(s.rows)|
    requires r in s.rows && r.info.path in BagOrder(s.rows)[j..]
    ensures r in EvictedAfter(s, cap, j).rows
  {
    var paths := BagOrder(s.rows);
    var m :| 0 <= m < |paths[j..]| && paths[j..][m] == r.info.path;
    assert paths[j + m] == r.info.path;
    forall i | 0 <= i < j ensures r.info.recordingId != IdPrefix(s.rows, j)[i] {
      var first := IdAtIsARow(s.rows, i);
      assert first.info.path == paths[i] != paths[j + m];
    }
    RowsLeft(s, cap, j, r);
  }

  /** With distinct ids per path the loop removes exactly the shortest prefix of bags that is enough. */
  lemma ShortestSufficientPrefix(s: Store, cap: nat, limit: nat, k: nat)
    requires IdsByPath(s.rows) && PathsById(s.rows) && StopsAt(s.rows, limit, k)
    ensures Total(EvictedAfter(s, cap, k).rows) <= limit
    ensures forall j :: 0 <= j < k ==> Total(EvictedAfter(s, cap, j).rows) > limit
  {
    QuotaIsMet(s, cap, limit, k);
    forall j | 0 <= j < k ensures Total(EvictedAfter(s, cap, j).rows) > limit {
      RealIsRunning(s, cap, j);
    }
  }

  /** A store whose rows all lack a recording id is left as it is by every eviction. */
  lemma EmptyIdsStay(s: Store, cap: nat, j: nat)
    requires (forall r :: r in s.rows ==> r.info.recordingId == "") && j <= |BagOrder(s.rows)|
    ensures EvictedAfter(s, cap, j) == s
  {
    forall i | 0 <= i < j ensures IdPrefix(s.rows, j)[i] == "" {
      var r := IdAtIsARow(s.rows, i);
    }
    DeletingNothing(s, cap, IdPrefix(s.rows, j));
  }

  lemma {:induction false} DeletingNothing(s: Store, cap: nat, ids: seq<string>)
    requires forall i :: 0 <= i < |ids| ==> ids[i] == ""
    ensures DeletedAll(s, cap, ids) == s
  {
    if ids == [] {
    } else {
      DeletingNothing(s, cap, ids[..|ids| - 1]);
    }
  }

  // ---------------------------------------------------------------- where the ids come from

  /** A row carries the id of its path. */
  predicate NamedByPath(info: Info) {
    info.recordingId == RecordingId(info.path) && info.recordingId != ""
  }

  /** A batch row leaves the id open or gives the path's own, and the path has a last component. */
  predicate Nameable(info: Info) {
    (info.recordingId == "" || info.recordingId == RecordingId(info.path)) && RecordingId(info.path) != ""
  }

  predicate AllNamed(rows: seq<Row>) {
    forall i :: 0 <= i < |rows| ==> NamedByPath(rows[i].info)
  }

  lemma UpsertNamed(b: Batch, info: Info)
    requires RowsOk(b.rows, b.last) && AllNamed(b.rows) && NamedByPath(info)
    ensures AllNamed(Upserted(b, info).rows)
  {
    if Linked(b.rows, info) {
      RefreshedSize(b.rows, info);
      forall i | 0 <= i < |b.rows| ensures NamedByPath(Refreshed(b.rows, info)[i].info) {
        RefreshedAt(b.rows, info, i);
      }
    }
  }

  lemma {:induction false} SurvivorsNamed(rows: seq<Row>, dead: set<int>)
    requires AllNamed(rows)
    ensures AllNamed(Survivors(rows, dead))
  {
    if rows == [] {
    } else {
      SurvivorsNamed(rows[..|rows| - 1], dead);
    }
  }

  lemma {:induction false} BatchNamed(b: Batch, infos: seq<Info>, cap: nat)
    requires RowsOk(b.rows, b.last) && AllNamed(b.rows) && forall i :: 0 <= i < |infos| ==> Nameable(infos[i])
    ensures AllNamed(StoredAll(b, infos, cap).rows)
  {
    if infos == [] {
    } else {
      var init, raw := infos[..|infos| - 1], infos[|infos| - 1];
      BatchNamed(b, init, cap);
      BatchKeepsRows(b, init, cap);
      var mid := StoredAll(b, init, cap);
      UpsertNamed(mid, Named(raw));
      var up := Upserted(mid, Named(raw));
      SurvivorsNamed(up.rows, Doomed(up.rows, raw.code, cap));
    }
  }

  /** In every run whose bags have a last path component, the ids are a non-empty function of the path. */
  lemma {:induction false} RunsNameByPath(cap: nat, steps: seq<Step>)
    requires PossibleRun(cap, steps)
    requires forall i :: 0 <= i < |steps| && steps[i].StoreBatch? ==>
               forall k :: 0 <= k < |steps[i].infos| ==> Nameable(steps[i].infos[k])
    ensures AllNamed(Run(cap, steps).rows) && IdsByPath(Run(cap, steps).rows)
  {
    if steps == [] {
    } else {
      RunsNameByPath(cap, steps[..|steps| - 1]);
      RunsKeepBags(cap, steps[..|steps| - 1]);
      var s := Run(cap, steps[..|steps| - 1]);
      match steps[|steps| - 1] {
        case Record(_) =>
        case StoreBatch(infos) => BatchNamed(Batch(s.rows, s.last, {}), infos, cap);
        case DeleteFault(code) => SurvivorsNamed(s.rows, Matching(s.rows, OfFault(code)));
        case DeleteRecording(id) => SurvivorsNamed(s.rows, Matching(s.rows, OfRecording(id)));
      }
    }
    NamedMeansIdsByPath(Run(cap, steps).rows);
  }

  lemma NamedMeansIdsByPath(rows: seq<Row>)
    requires AllNamed(rows)
    ensures IdsByPath(rows)
  {
    forall r | r in rows ensures NamedByPath(r.info) {
      var i :| 0 <= i < |rows| && rows[i] == r;
    }
  }
}
