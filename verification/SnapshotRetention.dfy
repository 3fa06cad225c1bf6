/** Freeze-frame retention: whole capture sets, oldest first out, in both storage backends. */
module SnapshotRetention {

  datatype Row = Row(code: string, captureId: int, topic: string, data: string, at: int)

  // ---------------------------------------------------------------- what is retained

  predicate Kept(r: Row, code: string, cutoff: int) {
    r.code == code ==> r.captureId >= cutoff
  }

  /** The rows without the captures of `code` older than `cutoff`. */
  function KeepFrom(rows: seq<Row>, code: string, cutoff: int): seq<Row> {
    if rows == [] then []
    else
      var last := rows[|rows| - 1];
      KeepFrom(rows[..|rows| - 1], code, cutoff) + (if Kept(last, code, cutoff) then [last] else [])
  }

  /** The number of rows of `code` from capture `cutoff` on. */
  function CountFrom(rows: seq<Row>, code: string, cutoff: int): nat {
    if rows == [] then 0
    else
      var last := rows[|rows| - 1];
      CountFrom(rows[..|rows| - 1], code, cutoff) + (if last.code == code && last.captureId >= cutoff then 1 else 0)
  }

  function Count(rows: seq<Row>, code: string): nat {
    if rows == [] then 0 else Count(rows[..|rows| - 1], code) + (if rows[|rows| - 1].code == code then 1 else 0)
  }

  /** No capture of `code` is newer than `newest`, and that one is there. */
  predicate IsNewest(rows: seq<Row>, code: string, newest: int) {
    && (exists r :: r in rows && r.code == code && r.captureId == newest)
    && forall r :: r in rows && r.code == code ==> r.captureId <= newest
  }

  predicate OnlyCaptureFrom(rows: seq<Row>, code: string, cutoff: int, newest: int) {
    forall r :: r in rows && r.code == code && r.captureId >= cutoff ==> r.captureId == newest
  }

  /** Every capture dropped had to go: it would not fit with everything newer. */
  predicate NeededSoFar(rows: seq<Row>, code: string, cap: nat, cutoff: int) {
    forall r :: r in rows && r.code == code && r.captureId < cutoff ==> CountFrom(rows, code, r.captureId) > cap
  }

  /**
   The cutoff keeps the newest capture, fits the cap unless that one alone is over it, and drops a
   capture only if keeping it, with everything newer, would not fit.
   */
  predicate RightCutoff(rows: seq<Row>, code: string, cap: nat, newest: int, cutoff: int) {
    && cutoff <= newest
    && (CountFrom(rows, code, cutoff) <= cap || OnlyCaptureFrom(rows, code, cutoff, newest))
    && NeededSoFar(rows, code, cap, cutoff)
  }

  /** What storing a batch leaves. The cap applies to the fault of the batch's first row; zero is no cap. */
  ghost predicate Stored(before: seq<Row>, batch: seq<Row>, cap: nat, after: seq<Row>) {
    var all := before + batch;
    if batch == [] || cap == 0 then after == all
    else Trimmed(all, batch[0].code, cap, after)
  }

  ghost predicate Trimmed(all: seq<Row>, code: string, cap: nat, after: seq<Row>) {
    exists newest, cutoff ::
      IsNewest(all, code, newest) && RightCutoff(all, code, cap, newest, cutoff) && after == KeepFrom(all, code, cutoff)
  }

  // ---------------------------------------------------------------- the in-memory store

  class InMemorySnapshots {
    var rows: seq<Row>
    const cap: nat
    const retainOnClear: bool

    constructor (cap: nat, retainOnClear: bool)
      ensures this.cap == cap && this.retainOnClear == retainOnClear && rows == []
    {
      this.cap, this.retainOnClear, rows := cap, retainOnClear, [];
    }

    method StoreSnapshots(batch: seq<Row>)
      modifies this
      ensures Stored(old(rows), batch, cap, rows)
    {
      if batch == [] {
        assert rows + batch == rows;
        return;
      }
      var code := batch[0].code;
      var updated := rows + batch;
      if cap > 0 {
        updated := EvictInMemory(updated, code, cap, batch[0]);
      }
      rows := updated;
    }

    /** A fault the store does not know is not cleared, and neither are its snapshots. */
    method ClearFault(code: string, known: bool)
      modifies this
      ensures rows == ClearedInMemory(old(rows), code, known, retainOnClear)
    {
      if !known {
        return;
      }
      if !retainOnClear {
        rows := Without(rows, code);
      }
    }
  }

  function Without(rows: seq<Row>, code: string): (kept: seq<Row>)
    ensures forall r :: r in kept <==> r in rows && r.code != code
  {
    if rows == [] then []
    else
      assert rows == rows[..|rows| - 1] + [rows[|rows| - 1]];
      Without(rows[..|rows| - 1], code) + (if rows[|rows| - 1].code != code then [rows[|rows| - 1]] else [])
  }

  function ClearedInMemory(rows: seq<Row>, code: string, known: bool, retainOnClear: bool): seq<Row> {
    if known && !retainOnClear then Without(rows, code) else rows
  }

  function ClearedInSql(rows: seq<Row>, code: string, retainOnClear: bool): seq<Row> {
    if !retainOnClear then Without(rows, code) else rows
  }

  method FindNewest(rows: seq<Row>, code: string, member: Row) returns (newest: int)
    requires member in rows && member.code == code
    ensures IsNewest(rows, code, newest)
  {
    newest := 0;
    var have := false;
    for i := 0 to |rows|
      invariant have ==> exists j :: 0 <= j < i && rows[j].code == code && rows[j].captureId == newest
      invariant forall j :: 0 <= j < i && rows[j].code == code ==> have && rows[j].captureId <= newest
    {
      if rows[i].code == code && (!have || rows[i].captureId > newest) {
        newest, have := rows[i].captureId, true;
      }
    }
    var k :| 0 <= k < |rows| && rows[k] == member;
    assert have;
    var j :| 0 <= j < |rows| && rows[j].code == code && rows[j].captureId == newest;
    assert rows[j] in rows;
  }

  /** The oldest capture of `code`, apart from the newest one. */
  predicate IsOldest(rows: seq<Row>, code: string, newest: int, oldest: int) {
    && oldest != newest
    && (exists r :: r in rows && r.code == code && r.captureId == oldest)
    && forall r :: r in rows && r.code == code && r.captureId != newest ==> oldest <= r.captureId
  }

  predicate OnlyCapture(rows: seq<Row>, code: string, newest: int) {
    forall r :: r in rows && r.code == code ==> r.captureId == newest
  }

  method FindOldest(rows: seq<Row>, code: string, newest: int) returns (found: bool, oldest: int)
    ensures found ==> IsOldest(rows, code, newest, oldest)
    ensures !found ==> OnlyCapture(rows, code, newest)
  {
    found, oldest := false, 0;
    for i := 0 to |rows|
      invariant found ==>
                  oldest != newest && exists j :: 0 <= j < i && rows[j].code == code && rows[j].captureId == oldest
      invariant forall j :: 0 <= j < i && rows[j].code == code && rows[j].captureId != newest ==>
                  found && oldest <= rows[j].captureId
    {
      if rows[i].code == code && rows[i].captureId != newest && (!found || rows[i].captureId < oldest) {
        oldest, found := rows[i].captureId, true;
      }
    }
    if found {
      var j :| 0 <= j < |rows| && rows[j].code == code && rows[j].captureId == oldest;
      assert rows[j] in rows;
    }
  }

  /** The rows without one capture of `code`. */
  function WithoutCapture(rows: seq<Row>, code: string, id: int): (kept: seq<Row>) {
    if rows == [] then []
    else
      var last := rows[|rows| - 1];
      WithoutCapture(rows[..|rows| - 1], code, id) + (if last.code == code && last.captureId == id then [] else [last])
  }

  /** One turn of the eviction loop: the oldest capture goes, unless only the newest is left. */
  method EvictOldest(rows: seq<Row>, ghost all: seq<Row>, code: string, ghost cap: nat, newest: int, ghost cutoff: int)
    returns (found: bool, left: seq<Row>, ghost next: int)
    requires IsNewest(all, code, newest) && Trimming(all, code, cap, newest, cutoff, rows)
    requires CountFrom(all, code, cutoff) > cap
    ensures Trimming(all, code, cap, newest, next, left)
    ensures found ==> |left| < |rows|
    ensures !found ==> left == rows && next == cutoff && OnlyCaptureFrom(all, code, cutoff, newest)
  {
    var oldest;
    found, oldest := FindOldest(rows, code, newest);
    if !found {
      OnlyNewestLeft(all, code, cutoff, newest);
      return false, rows, cutoff;
    }
    NextCutoff(all, code, cap, newest, cutoff, oldest);
    left := WithoutCapture(rows, code, oldest);
    next := oldest + 1;
  }

  method EvictInMemory(all: seq<Row>, code: string, cap: nat, member: Row) returns (updated: seq<Row>)
    requires member in all && member.code == code
    ensures Trimmed(all, code, cap, updated)
  {
    var newest := FindNewest(all, code, member);
    ghost var cutoff;
    updated, cutoff := EvictUntilFits(all, code, cap, newest);
  }

  method EvictUntilFits(all: seq<Row>, code: string, cap: nat, newest: int)
    returns (updated: seq<Row>, ghost cutoff: int)
    requires IsNewest(all, code, newest)
    ensures RightCutoff(all, code, cap, newest, cutoff) && updated == KeepFrom(all, code, cutoff)
  {
    updated := all;
    cutoff := LowestCutoff(all, code, newest);
    CountKept(all, code, cutoff);
    while Count(updated, code) > cap
      invariant Trimming(all, code, cap, newest, cutoff, updated)
      decreases |updated|
    {
      var found;
      found, updated, cutoff := EvictOldest(updated, all, code, cap, newest, cutoff);
      if !found {
        break;
      }
    }
  }

  /** The loops' invariant: `rows` is what a cutoff leaves, and nothing left without need. */
  predicate Trimming(all: seq<Row>, code: string, cap: nat, newest: int, cutoff: int, rows: seq<Row>) {
    && rows == KeepFrom(all, code, cutoff)
    && Count(rows, code) == CountFrom(all, code, cutoff)
    && cutoff <= newest
    && NeededSoFar(all, code, cap, cutoff)
  }

  // ---------------------------------------------------------------- the SQLite store

  class SqliteSnapshots {
    var rows: seq<Row>
    const cap: nat
    const retainOnClear: bool

    constructor (cap: nat, retainOnClear: bool)
      ensures this.cap == cap && this.retainOnClear == retainOnClear && rows == []
    {
      this.cap, this.retainOnClear, rows := cap, retainOnClear, [];
    }

    /** One transaction: the insert and the trim statement until it deletes nothing. */
    method StoreSnapshots(batch: seq<Row>)
      modifies this
      ensures Stored(old(rows), batch, cap, rows)
    {
      if batch == [] {
        assert rows + batch == rows;
        return;
      }
      var code := batch[0].code;
      var table := rows + batch;
      if cap > 0 {
        table := TrimInSql(table, code, cap, batch[0]);
      }
      rows := table;
    }

    /** The snapshots go whether or not a fault row was updated. */
    method ClearFault(code: string, known: bool)
      modifies this
      ensures rows == ClearedInSql(old(rows), code, retainOnClear)
    {
      if !retainOnClear {
        rows := Without(rows, code);
      }
    }
  }

  predicate IsMinimum(rows: seq<Row>, code: string, min: int, any: bool) {
    && (any ==> exists r :: r in rows && r.code == code && r.captureId == min)
    && forall r :: r in rows && r.code == code ==> any && min <= r.captureId
  }

  /** `SELECT MIN(capture_id)`. */
  method MinCapture(rows: seq<Row>, code: string) returns (min: int, any: bool)
    ensures IsMinimum(rows, code, min, any)
  {
    min, any := 0, false;
    for i := 0 to |rows|
      invariant any ==> exists j :: 0 <= j < i && rows[j].code == code && rows[j].captureId == min
      invariant forall j :: 0 <= j < i && rows[j].code == code ==> any && min <= rows[j].captureId
    {
      if rows[i].code == code && (!any || rows[i].captureId < min) {
        min, any := rows[i].captureId, true;
      }
    }
    if any {
      var j :| 0 <= j < |rows| && rows[j].code == code && rows[j].captureId == min;
      assert rows[j] in rows;
    }
  }

  /** One trim statement: it deletes the oldest capture, or nothing if that is the newest. */
  method TrimStatement(
    table: seq<Row>, ghost all: seq<Row>, code: string, ghost cap: nat, newest: int, ghost cutoff: int)
    returns (changed: bool, left: seq<Row>, ghost next: int)
    requires IsNewest(all, code, newest) && Trimming(all, code, cap, newest, cutoff, table)
    requires CountFrom(all, code, cutoff) > cap
    ensures Trimming(all, code, cap, newest, next, left)
    ensures changed ==> |left| < |table|
    ensures !changed ==> left == table && next == cutoff && OnlyCaptureFrom(all, code, cutoff, newest)
  {
    var min, any := MinCapture(table, code);
    changed := any && min != newest;
    if !changed {
      MinIsNewest(all, code, cutoff, newest, min, any);
      return false, table, cutoff;
    }
    MinIsOldest(table, code, newest, min);
    NextCutoff(all, code, cap, newest, cutoff, min);
    left := WithoutCapture(table, code, min);
    next := min + 1;
  }

  method TrimInSql(all: seq<Row>, code: string, cap: nat, member: Row) returns (table: seq<Row>)
    requires member in all && member.code == code
    ensures Trimmed(all, code, cap, table)
  {
    var newest := FindNewest(all, code, member);
    ghost var cutoff;
    table, cutoff := TrimUntilFits(all, code, cap, newest);
  }

  method TrimUntilFits(all: seq<Row>, code: string, cap: nat, newest: int) returns (table: seq<Row>, ghost cutoff: int)
    requires IsNewest(all, code, newest)
    ensures RightCutoff(all, code, cap, newest, cutoff) && table == KeepFrom(all, code, cutoff)
  {
    table := all;
    cutoff := LowestCutoff(all, code, newest);
    CountKept(all, code, cutoff);
    while true
      invariant Trimming(all, code, cap, newest, cutoff, table)
      decreases |table|
    {
      if Count(table, code) <= cap {
        break;
      }
      var changed;
      changed, table, cutoff := TrimStatement(table, all, code, cap, newest, cutoff);
      if !changed {
        break;
      }
    }
  }

  // ---------------------------------------------------------------- why the loops are right

  ghost function Lowest(rows: seq<Row>, code: string, bound: int): (low: int)
    ensures low <= bound && forall r :: r in rows && r.code == code ==> low <= r.captureId || bound <= r.captureId
  {
    if rows == [] then bound
    else
      assert rows == rows[..|rows| - 1] + [rows[|rows| - 1]];
      var low := Lowest(rows[..|rows| - 1], code, bound);
      if rows[|rows| - 1].code == code && rows[|rows| - 1].captureId < low then rows[|rows| - 1].captureId else low
  }

  ghost function LowestCutoff(all: seq<Row>, code: string, newest: int): (cutoff: int)
    requires IsNewest(all, code, newest)
    ensures cutoff <= newest && forall r :: r in all && r.code == code ==> cutoff <= r.captureId
    ensures KeepFrom(all, code, cutoff) == all
  {
    var cutoff := Lowest(all, code, newest);
    KeepAll(all, code, cutoff);
    cutoff
  }

  lemma {:induction false} KeepAll(rows: seq<Row>, code: string, cutoff: int)
    requires forall r :: r in rows ==> Kept(r, code, cutoff)
    ensures KeepFrom(rows, code, cutoff) == rows
  {
    if rows == [] {
    } else {
      var init, last := rows[..|rows| - 1], rows[|rows| - 1];
      assert init + [last] == rows;
      KeepAll(init, code, cutoff);
    }
  }

  lemma {:induction false} CountKept(rows: seq<Row>, code: string, cutoff: int)
    ensures Count(KeepFrom(rows, code, cutoff), code) == CountFrom(rows, code, cutoff)
  {
    if rows == [] {
    } else {
      var init, last := rows[..|rows| - 1], rows[|rows| - 1];
      CountKept(init, code, cutoff);
      var kept := KeepFrom(init, code, cutoff);
      assert (kept + [last])[..|kept|] == kept && kept + [] == kept;
    }
  }

  lemma {:induction false} DropCapture(rows: seq<Row>, code: string, cutoff: int, id: int)
    requires NoneBetween(rows, code, cutoff, id)
    ensures WithoutCapture(KeepFrom(rows, code, cutoff), code, id) == KeepFrom(rows, code, id + 1)
  {
    if rows == [] {
    } else {
      var init, last := rows[..|rows| - 1], rows[|rows| - 1];
      assert last in rows && forall r :: r in init ==> r in rows;
      DropCapture(init, code, cutoff, id);
      var kept := KeepFrom(init, code, cutoff);
      assert (kept + [last])[..|kept|] == kept && kept + [] == kept;
    }
  }

  lemma {:induction false} CountFromShrinks(rows: seq<Row>, code: string, low: int, high: int)
    requires low <= high
    ensures CountFrom(rows, code, high) <= CountFrom(rows, code, low)
  {
    if rows == [] {
    } else {
      CountFromShrinks(rows[..|rows| - 1], code, low, high);
    }
  }

  lemma {:induction false} SameCount(rows: seq<Row>, code: string, low: int, high: int)
    requires NoneBetween(rows, code, low, high)
    ensures CountFrom(rows, code, high) == CountFrom(rows, code, low)
  {
    if rows == [] {
    } else {
      assert rows[|rows| - 1] in rows && forall r :: r in rows[..|rows| - 1] ==> r in rows;
      SameCount(rows[..|rows| - 1], code, low, high);
    }
  }

  lemma {:induction false} KeepShrinks(rows: seq<Row>, code: string, low: int, high: int, gone: Row)
    requires low <= high && gone in rows && Kept(gone, code, low) && !Kept(gone, code, high)
    ensures |KeepFrom(rows, code, high)| < |KeepFrom(rows, code, low)|
  {
    var init, last := rows[..|rows| - 1], rows[|rows| - 1];
    KeepNotMore(init, code, low, high);
    if last != gone {
      assert init + [last] == rows;
      KeepShrinks(init, code, low, high, gone);
    }
  }

  lemma {:induction false} KeepNotMore(rows: seq<Row>, code: string, low: int, high: int)
    requires low <= high
    ensures |KeepFrom(rows, code, high)| <= |KeepFrom(rows, code, low)|
  {
    if rows == [] {
    } else {
      KeepNotMore(rows[..|rows| - 1], code, low, high);
    }
  }

  lemma {:induction false} KeepMember(rows: seq<Row>, code: string, cutoff: int, r: Row)
    ensures r in KeepFrom(rows, code, cutoff) <==> r in rows && Kept(r, code, cutoff)
  {
    if rows == [] {
    } else {
      var init, last := rows[..|rows| - 1], rows[|rows| - 1];
      assert init + [last] == rows;
      KeepMember(init, code, cutoff, r);
    }
  }

  lemma OnlyNewestLeft(all: seq<Row>, code: string, cutoff: int, newest: int)
    requires OnlyCapture(KeepFrom(all, code, cutoff), code, newest)
    ensures OnlyCaptureFrom(all, code, cutoff, newest)
  {
    forall r | r in all && r.code == code && r.captureId >= cutoff ensures r.captureId == newest {
      KeepMember(all, code, cutoff, r);
    }
  }

  lemma MinIsNewest(all: seq<Row>, code: string, cutoff: int, newest: int, min: int, any: bool)
    requires IsNewest(all, code, newest) && IsMinimum(KeepFrom(all, code, cutoff), code, min, any)
    requires !any || min == newest
    ensures OnlyCaptureFrom(all, code, cutoff, newest)
  {
    forall r | r in all && r.code == code && r.captureId >= cutoff ensures r.captureId == newest {
      KeepMember(all, code, cutoff, r);
    }
  }

  lemma MinIsOldest(rows: seq<Row>, code: string, newest: int, min: int)
    requires IsMinimum(rows, code, min, true) && min != newest
    ensures IsOldest(rows, code, newest, min)
  {
  }

  /** No capture of `code` lies between the cutoff and `oldest`. */
  predicate NoneBetween(all: seq<Row>, code: string, cutoff: int, oldest: int) {
    cutoff <= oldest && forall r :: r in all && r.code == code && cutoff <= r.captureId ==> oldest <= r.captureId
  }

  lemma OldestOfAll(all: seq<Row>, code: string, newest: int, cutoff: int, oldest: int) returns (gone: Row)
    requires IsNewest(all, code, newest) && cutoff <= newest
    requires IsOldest(KeepFrom(all, code, cutoff), code, newest, oldest)
    ensures gone in all && gone.code == code && gone.captureId == oldest
    ensures NoneBetween(all, code, cutoff, oldest) && oldest + 1 <= newest
  {
    gone :| gone in KeepFrom(all, code, cutoff) && gone.code == code && gone.captureId == oldest;
    KeepMember(all, code, cutoff, gone);
    forall r | r in all && r.code == code && cutoff <= r.captureId ensures oldest <= r.captureId {
      KeepMember(all, code, cutoff, r);
    }
  }

  lemma NeededNext(all: seq<Row>, code: string, cap: nat, cutoff: int, oldest: int)
    requires NeededSoFar(all, code, cap, cutoff) && NoneBetween(all, code, cutoff, oldest)
    requires CountFrom(all, code, cutoff) > cap
    ensures NeededSoFar(all, code, cap, oldest + 1)
  {
    SameCount(all, code, cutoff, oldest);
    forall r | r in all && r.code == code && r.captureId < oldest + 1 ensures CountFrom(all, code, r.captureId) > cap {
      if r.captureId >= cutoff {
        assert r.captureId == oldest;
      }
    }
  }

  /** Dropping the oldest capture still there, because it does not fit, moves the cutoff past it. */
  lemma NextCutoff(all: seq<Row>, code: string, cap: nat, newest: int, cutoff: int, oldest: int)
    requires IsNewest(all, code, newest) && Trimming(all, code, cap, newest, cutoff, KeepFrom(all, code, cutoff))
    requires CountFrom(all, code, cutoff) > cap
    requires IsOldest(KeepFrom(all, code, cutoff), code, newest, oldest)
    ensures Trimming(all, code, cap, newest, oldest + 1, WithoutCapture(KeepFrom(all, code, cutoff), code, oldest))
    ensures |WithoutCapture(KeepFrom(all, code, cutoff), code, oldest)| < |KeepFrom(all, code, cutoff)|
  {
    var gone := OldestOfAll(all, code, newest, cutoff, oldest);
    DropCapture(all, code, cutoff, oldest);
    NeededNext(all, code, cap, cutoff, oldest);
    KeepShrinks(all, code, cutoff, oldest + 1, gone);
    CountKept(all, code, oldest + 1);
  }

  // ---------------------------------------------------------------- both backends

  lemma CutoffsAgree(rows: seq<Row>, code: string, cap: nat, newest: int, a: int, b: int, r: Row)
    requires RightCutoff(rows, code, cap, newest, a) && RightCutoff(rows, code, cap, newest, b)
    requires r in rows
    ensures Kept(r, code, a) <==> Kept(r, code, b)
  {
    if r.code == code {
      if a <= r.captureId < b {
        CountFromShrinks(rows, code, a, r.captureId);
      }
      if b <= r.captureId < a {
        CountFromShrinks(rows, code, b, r.captureId);
      }
    }
  }

  lemma {:induction false} SameKept(rows: seq<Row>, code: string, a: int, b: int)
    requires forall r :: r in rows ==> (Kept(r, code, a) <==> Kept(r, code, b))
    ensures KeepFrom(rows, code, a) == KeepFrom(rows, code, b)
  {
    if rows == [] {
    } else {
      assert rows[|rows| - 1] in rows && forall r :: r in rows[..|rows| - 1] ==> r in rows;
      SameKept(rows[..|rows| - 1], code, a, b);
    }
  }

  /** What storing a batch leaves is determined, so the two backends retain the same rows. */
  lemma BackendsRetainTheSame(before: seq<Row>, batch: seq<Row>, cap: nat, a: seq<Row>, b: seq<Row>)
    requires Stored(before, batch, cap, a) && Stored(before, batch, cap, b)
    ensures a == b
  {
    if batch != [] && cap > 0 {
      var all, code := before + batch, batch[0].code;
      var m, x :| IsNewest(all, code, m) && RightCutoff(all, code, cap, m, x) && a == KeepFrom(all, code, x);
      var n, y :| IsNewest(all, code, n) && RightCutoff(all, code, cap, n, y) && b == KeepFrom(all, code, y);
      assert m == n;
      forall r | r in all ensures Kept(r, code, x) <==> Kept(r, code, y) {
        CutoffsAgree(all, code, cap, m, x, y, r);
      }
      SameKept(all, code, x, y);
    }
  }

  /**
   Retention works on whole captures and from the new end: rows of other faults stay, the rows of one
   capture stay or go together, a capture newer than a surviving one survives, and the newest survives.
   */
  lemma RetainsWholeNewest(before: seq<Row>, batch: seq<Row>, cap: nat, after: seq<Row>, r: Row)
    requires Stored(before, batch, cap, after) && batch != [] && r in before + batch
    ensures r.code != batch[0].code ==> r in after
    ensures r in after ==>
              forall s :: s in before + batch && s.code == r.code && s.captureId >= r.captureId ==> s in after
    ensures (forall s :: s in before + batch && s.code == r.code ==> s.captureId <= r.captureId) ==> r in after
  {
    if cap > 0 {
      var all, code := before + batch, batch[0].code;
      var newest, cutoff :| IsNewest(all, code, newest) && RightCutoff(all, code, cap, newest, cutoff) &&
                            after == KeepFrom(all, code, cutoff);
      KeepMember(all, code, cutoff, r);
      forall s | s in all && s.code == r.code && s.captureId >= r.captureId && r in after ensures s in after {
        KeepMember(all, code, cutoff, s);
      }
    }
  }

  /** Clearing leaves both backends the same snapshots exactly if it keeps them, or the fault is known or has none. */
  lemma ClearAgreesIff(rows: seq<Row>, code: string, known: bool, retainOnClear: bool)
    ensures ClearedInMemory(rows, code, known, retainOnClear) == ClearedInSql(rows, code, retainOnClear) <==>
            retainOnClear || known || forall r :: r in rows ==> r.code != code
  {
    if forall r :: r in rows ==> r.code != code {
      WithoutNone(rows, code);
    }
  }

  lemma {:induction false} WithoutNone(rows: seq<Row>, code: string)
    requires forall r :: r in rows ==> r.code != code
    ensures Without(rows, code) == rows
  {
    if rows == [] {
    } else {
      var init, last := rows[..|rows| - 1], rows[|rows| - 1];
      assert init + [last] == rows;
      WithoutNone(init, code);
    }
  }
}
