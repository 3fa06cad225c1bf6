/** The links from faults to recordings, and the bags on disk they keep alive. */
module RosbagRows {
  import opened RosbagTrim

  // ---------------------------------------------------------------- operations, on values

  /** The last component of a path, trailing slashes aside. */
  function RecordingId(path: string): string {
    if path != [] && path[|path| - 1] == '/' then RecordingId(path[..|path| - 1]) else LastComponent(path)
  }

  function LastComponent(path: string): string {
    if path == [] || path[|path| - 1] == '/' then [] else LastComponent(path[..|path| - 1]) + [path[|path| - 1]]
  }

  lemma {:induction false} TrailingSlashes(path: string, slashes: string)
    requires forall i :: 0 <= i < |slashes| ==> slashes[i] == '/'
    ensures RecordingId(path + slashes) == RecordingId(path)
  {
    if slashes == [] {
      assert path + slashes == path;
    } else {
      var init := slashes[..|slashes| - 1];
      assert (path + slashes)[..|path + slashes| - 1] == path + init;
      TrailingSlashes(path, init);
    }
  }

  lemma {:induction false} LastComponentOf(dir: string, name: string)
    requires '/' !in name && (dir == [] || dir[|dir| - 1] == '/')
    ensures LastComponent(dir + name) == name
  {
    if name == [] {
      assert dir + name == dir;
    } else {
      var init := name[..|name| - 1];
      assert (dir + name)[..|dir + name| - 1] == dir + init;
      LastComponentOf(dir, init);
      assert name == init + [name[|name| - 1]];
    }
  }

  /** The id of a recording is the name of its directory: what follows the last slash, trailing ones aside. */
  lemma RecordingIdIsName(dir: string, name: string, slashes: string)
    requires '/' !in name && name != [] && (dir == [] || dir[|dir| - 1] == '/')
    requires forall i :: 0 <= i < |slashes| ==> slashes[i] == '/'
    ensures RecordingId(dir + name + slashes) == name
  {
    TrailingSlashes(dir + name, slashes);
    assert name[|name| - 1] in name && (dir + name)[|dir + name| - 1] == name[|name| - 1];
    LastComponentOf(dir, name);
  }

  function Named(info: Info): Info {
    if info.recordingId == "" then info.(recordingId := RecordingId(info.path)) else info
  }

  predicate SameLink(r: Row, info: Info) {
    r.info.code == info.code && r.info.path == info.path
  }

  /** The link refreshed where it is stored, or appended with the next insertion number. */
  function Refreshed(rows: seq<Row>, info: Info): seq<Row> {
    if rows == [] then []
    else if SameLink(rows[0], info) then [rows[0].(info := info)] + rows[1..]
    else [rows[0]] + Refreshed(rows[1..], info)
  }

  predicate Linked(rows: seq<Row>, info: Info) {
    exists i :: 0 <= i < |rows| && SameLink(rows[i], info)
  }

  predicate Referenced(rows: seq<Row>, path: string) {
    exists i :: 0 <= i < |rows| && rows[i].info.path == path
  }

  /** A batch in progress: the rows so far, the last insertion number and the paths of evicted rows. */
  datatype Batch = Batch(rows: seq<Row>, last: nat, evicted: set<string>)

  function Upserted(b: Batch, info: Info): Batch {
    if Linked(b.rows, info) then b.(rows := Refreshed(b.rows, info))
    else b.(rows := b.rows + [Row(info, b.last + 1)], last := b.last + 1)
  }

  /** One row of a batch: the upsert, then the trim of that fault when there is a cap. */
  function StoredOne(b: Batch, raw: Info, cap: nat): Batch {
    var up := Upserted(b, Named(raw));
    if cap == 0 then up
    else
      var dead := Doomed(up.rows, raw.code, cap);
      up.(rows := Survivors(up.rows, dead), evicted := up.evicted + PathsAt(up.rows, dead))
  }

  function StoredAll(b: Batch, infos: seq<Info>, cap: nat): Batch {
    if infos == [] then b else StoredOne(StoredAll(b, infos[..|infos| - 1], cap), infos[|infos| - 1], cap)
  }

  /** `disk` is the set of bags that exist. */
  datatype Store = Store(rows: seq<Row>, last: nat, disk: set<string>)

  /** The bags among `paths` that no row names any more are removed. */
  function Unlinked(disk: set<string>, paths: set<string>, rows: seq<Row>): set<string> {
    set p | p in disk && (p !in paths || Referenced(rows, p))
  }

  function AfterStore(s: Store, infos: seq<Info>, cap: nat): Store {
    var b := StoredAll(Batch(s.rows, s.last, {}), infos, cap);
    Store(b.rows, b.last, Unlinked(s.disk, b.evicted, b.rows))
  }

  function Matching(rows: seq<Row>, gone: Row -> bool): set<int> {
    set i | 0 <= i < |rows| && gone(rows[i])
  }

  /** Deletes the rows that match, then the bags only they named. */
  function AfterDelete(s: Store, gone: Row -> bool): Store {
    var dead := Matching(s.rows, gone);
    var kept := Survivors(s.rows, dead);
    Store(kept, s.last, Unlinked(s.disk, PathsAt(s.rows, dead), kept))
  }

  datatype Step =
    | Record(path: string)
    | StoreBatch(infos: seq<Info>)
    | DeleteFault(code: string)
    | DeleteRecording(id: string)

  function OfFault(code: string): Row -> bool { (r: Row) => r.info.code == code }

  function OfRecording(id: string): Row -> bool { (r: Row) => r.info.recordingId == id }

  function After(s: Store, cap: nat, step: Step): Store {
    match step
    case Record(path) => s.(disk := s.disk + {path})
    case StoreBatch(infos) => AfterStore(s, infos, cap)
    case DeleteFault(code) => AfterDelete(s, OfFault(code))
    case DeleteRecording(id) => if id == "" then s else AfterDelete(s, OfRecording(id))
  }

  // ---------------------------------------------------------------- what every operation keeps

  predicate UniqueLinks(rows: seq<Row>) {
    forall i, j :: 0 <= i < j < |rows| ==>
      rows[i].info.code != rows[j].info.code || rows[i].info.path != rows[j].info.path
  }

  /** One row per link, insertion numbers never reused. */
  predicate RowsOk(rows: seq<Row>, last: nat) {
    && DistinctOrders(rows)
    && UniqueLinks(rows)
    && forall i :: 0 <= i < |rows| ==> rows[i].order <= last
  }

  /** Every row names a bag that is on disk. */
  predicate StoreOk(s: Store) {
    RowsOk(s.rows, s.last) && forall i :: 0 <= i < |s.rows| ==> s.rows[i].info.path in s.disk
  }

  lemma {:induction false} RefreshedAt(rows: seq<Row>, info: Info, i: int)
    requires 0 <= i < |rows| && UniqueLinks(rows)
    ensures |Refreshed(rows, info)| == |rows|
    ensures Refreshed(rows, info)[i] == if SameLink(rows[i], info) then rows[i].(info := info) else rows[i]
  {
    RefreshedSize(rows, info);
    if SameLink(rows[0], info) {
      assert i > 0 ==> !SameLink(rows[0], rows[i].info);
    } else if i > 0 {
      RefreshedAt(rows[1..], info, i - 1);
    }
  }

  lemma {:induction false} RefreshedSize(rows: seq<Row>, info: Info)
    ensures |Refreshed(rows, info)| == |rows|
  {
    if rows == [] || SameLink(rows[0], info) {
    } else {
      RefreshedSize(rows[1..], info);
    }
  }

  /** A link that is stored again is refreshed in its place; a new one is appended with the next number. */
  lemma UpsertRefreshesOrAppends(b: Batch, info: Info, i: nat)
    requires RowsOk(b.rows, b.last) && i < |b.rows|
    ensures var t, linked := Upserted(b, info), exists k ::
              0 <= k < |b.rows| && b.rows[k].info.code == info.code && b.rows[k].info.path == info.path;
            && |t.rows| == |b.rows| + (if linked then 0 else 1) && t.last == b.last + (if linked then 0 else 1)
            && t.rows[i] == (if b.rows[i].info.code == info.code && b.rows[i].info.path == info.path
                             then Row(info, b.rows[i].order) else b.rows[i])
            && (!linked ==> t.rows[|b.rows|] == Row(info, b.last + 1))
  {
    if k :| 0 <= k < |b.rows| && b.rows[k].info.code == info.code && b.rows[k].info.path == info.path {
      assert SameLink(b.rows[k], info);
      RefreshedAt(b.rows, info, i);
    }
  }

  lemma UpsertKeepsRows(b: Batch, info: Info)
    requires RowsOk(b.rows, b.last)
    ensures RowsOk(Upserted(b, info).rows, Upserted(b, info).last)
  {
    var t := Upserted(b, info).rows;
    if Linked(b.rows, info) {
      forall i | 0 <= i < |b.rows|
        ensures |t| == |b.rows| && t[i] == if SameLink(b.rows[i], info) then b.rows[i].(info := info) else b.rows[i]
      {
        RefreshedAt(b.rows, info, i);
      }
      forall i, j | 0 <= i < j < |t| ensures t[i].order != t[j].order && !SameLink(t[i], t[j].info) {
        assert b.rows[i].order != b.rows[j].order && !SameLink(b.rows[i], b.rows[j].info);
      }
    }
  }

  lemma {:induction false} SurvivorsKeepRows(rows: seq<Row>, dead: set<int>, last: nat)
    requires RowsOk(rows, last)
    ensures RowsOk(Survivors(rows, dead), last)
  {
    if rows == [] {
    } else {
      var init, r := rows[..|rows| - 1], rows[|rows| - 1];
      SurvivorsKeepRows(init, dead, last);
      var kept := Survivors(init, dead);
      forall i | 0 <= i < |kept| ensures kept[i].order != r.order && !SameLink(kept[i], r.info) {
        SurvivorMember(init, dead, kept[i]);
        assert kept[i] in kept;
        var k :| 0 <= k < |init| && init[k] == kept[i];
        assert rows[k] == kept[i];
      }
    }
  }

  lemma {:induction false} BatchKeepsRows(b: Batch, infos: seq<Info>, cap: nat)
    requires RowsOk(b.rows, b.last)
    ensures RowsOk(StoredAll(b, infos, cap).rows, StoredAll(b, infos, cap).last)
  {
    if infos == [] {
    } else {
      BatchKeepsRows(b, infos[..|infos| - 1], cap);
      var mid, raw := StoredAll(b, infos[..|infos| - 1], cap), infos[|infos| - 1];
      UpsertKeepsRows(mid, Named(raw));
      var up := Upserted(mid, Named(raw));
      SurvivorsKeepRows(up.rows, Doomed(up.rows, raw.code, cap), up.last);
    }
  }

  // ---------------------------------------------------------------- paths are accounted for

  function Paths(rows: seq<Row>): set<string> {
    set i | 0 <= i < |rows| :: rows[i].info.path
  }

  lemma PathsMeansReferenced(rows: seq<Row>, path: string)
    ensures path in Paths(rows) <==> Referenced(rows, path)
  {
  }

  lemma UpsertPaths(b: Batch, info: Info)
    requires RowsOk(b.rows, b.last)
    ensures Paths(Upserted(b, info).rows) == Paths(b.rows) + {info.path}
  {
    var t := Upserted(b, info).rows;
    if Linked(b.rows, info) {
      var k :| 0 <= k < |b.rows| && SameLink(b.rows[k], info);
      RefreshedSize(b.rows, info);
      forall i | 0 <= i < |b.rows| ensures t[i].info.path == b.rows[i].info.path {
        RefreshedAt(b.rows, info, i);
      }
      forall p ensures p in Paths(t) <==> p in Paths(b.rows) + {info.path} {
        if p in Paths(t) {
          var i :| 0 <= i < |t| && t[i].info.path == p;
          assert b.rows[i].info.path == p;
        }
        if p in Paths(b.rows) {
          var i :| 0 <= i < |b.rows| && b.rows[i].info.path == p;
          assert t[i].info.path == p;
        }
        assert t[k].info.path == info.path;
      }
    } else {
      AppendPaths(b.rows, Row(info, b.last + 1));
    }
  }

  lemma AppendPaths(rows: seq<Row>, r: Row)
    ensures Paths(rows + [r]) == Paths(rows) + {r.info.path}
  {
    var t := rows + [r];
    forall p ensures p in Paths(t) <==> p in Paths(rows) + {r.info.path} {
      if p in Paths(rows) {
        var i :| 0 <= i < |rows| && rows[i].info.path == p;
        assert t[i].info.path == p;
      }
      assert t[|rows|].info.path == r.info.path;
    }
  }

  /** Removing rows splits the paths into those still named and those of the removed rows. */
  lemma {:induction false} SurvivorPaths(rows: seq<Row>, dead: set<int>)
    ensures Paths(Survivors(rows, dead)) + PathsAt(rows, dead) == Paths(rows)
  {
    var kept := Survivors(rows, dead);
    forall p ensures p in Paths(kept) + PathsAt(rows, dead) <==> p in Paths(rows) {
      if p in Paths(kept) {
        var i :| 0 <= i < |kept| && kept[i].info.path == p;
        SurvivorMember(rows, dead, kept[i]);
        assert kept[i] in kept;
        var k :| 0 <= k < |rows| && rows[k] == kept[i];
        assert rows[k].info.path == p;
      }
      if p in Paths(rows) && p !in PathsAt(rows, dead) {
        var k :| 0 <= k < |rows| && rows[k].info.path == p;
        SurvivorMember(rows, dead, rows[k]);
        assert rows[k] in kept;
        var i :| 0 <= i < |kept| && kept[i] == rows[k];
        assert kept[i].info.path == p;
      }
    }
  }

  function BatchPaths(infos: seq<Info>): set<string> {
    set i | 0 <= i < |infos| :: infos[i].path
  }

  /** Every path named before or by the batch is still named or among the evicted ones, and no other is. */
  lemma {:induction false} BatchAccountsForPaths(b: Batch, infos: seq<Info>, cap: nat)
    requires RowsOk(b.rows, b.last)
    ensures var after := StoredAll(b, infos, cap);
            Paths(after.rows) + after.evicted == Paths(b.rows) + b.evicted + BatchPaths(infos)
  {
    if infos == [] {
      assert BatchPaths(infos) == {};
    } else {
      var init, raw := infos[..|infos| - 1], infos[|infos| - 1];
      BatchAccountsForPaths(b, init, cap);
      BatchKeepsRows(b, init, cap);
      var mid := StoredAll(b, init, cap);
      UpsertPaths(mid, Named(raw));
      var up := Upserted(mid, Named(raw));
      SurvivorPaths(up.rows, Doomed(up.rows, raw.code, cap));
      BatchPathsSnoc(infos);
    }
  }

  lemma BatchPathsSnoc(infos: seq<Info>)
    requires infos != []
    ensures BatchPaths(infos) == BatchPaths(infos[..|infos| - 1]) + {infos[|infos| - 1].path}
  {
    var init := infos[..|infos| - 1];
    forall p ensures p in BatchPaths(infos) <==> p in BatchPaths(init) + {infos[|infos| - 1].path} {
      if p in BatchPaths(init) {
        var i :| 0 <= i < |init| && init[i].path == p;
        assert infos[i].path == p;
      }
      if p in BatchPaths(infos) {
        var i :| 0 <= i < |infos| && infos[i].path == p;
        if i < |init| {
          assert init[i].path == p;
        }
      }
    }
  }

  // ---------------------------------------------------------------- every operation

  /** A batch may only be stored for bags that exist. */
  predicate Possible(s: Store, step: Step) {
    step.StoreBatch? ==> BatchPaths(step.infos) <= s.disk
  }

  /**
   What one operation does to the bags: one that loses its last row in the operation is removed by
   it, and one is removed only if the operation took a row from it and left none. It adds no bag, and
   names none but those it was given.
   */
  predicate BagsFollowRows(before: Store, after: Store, named: set<string>) {
    && after.disk <= before.disk && Paths(after.rows) <= Paths(before.rows) + named
    && (forall p :: p in Paths(before.rows) + named && p !in Paths(after.rows) ==> p !in after.disk)
    && (forall p :: p in before.disk && p !in after.disk ==> p in Paths(before.rows) + named && p !in Paths(after.rows))
  }

  lemma UnlinkKeepsBags(s: Store, after: Store, paths: set<string>, named: set<string>)
    requires StoreOk(s) && named <= s.disk && RowsOk(after.rows, after.last)
    requires Paths(after.rows) + paths == Paths(s.rows) + named
    requires after.disk == Unlinked(s.disk, paths, after.rows)
    ensures StoreOk(after) && BagsFollowRows(s, after, named)
  {
    forall p ensures p in Paths(after.rows) <==> Referenced(after.rows, p) {
      PathsMeansReferenced(after.rows, p);
    }
    forall p | p in Paths(s.rows) ensures p in s.disk {
    }
    forall i | 0 <= i < |after.rows| ensures after.rows[i].info.path in after.disk {
      assert after.rows[i].info.path in Paths(after.rows);
      assert after.rows[i].info.path in Paths(s.rows) + named;
    }
    forall p | p in Paths(s.rows) + named && p !in Paths(after.rows) ensures p !in after.disk {
      assert p in paths;
    }
    forall p | p in s.disk && p !in after.disk ensures p in Paths(s.rows) + named && p !in Paths(after.rows) {
      assert p in paths && p in Paths(after.rows) + paths;
    }
  }

  function NamedBy(step: Step): set<string> {
    if step.StoreBatch? then BatchPaths(step.infos) else {}
  }

  lemma DeleteKeepsBags(s: Store, gone: Row -> bool)
    requires StoreOk(s)
    ensures StoreOk(AfterDelete(s, gone)) && BagsFollowRows(s, AfterDelete(s, gone), {})
  {
    var dead := Matching(s.rows, gone);
    SurvivorPaths(s.rows, dead);
    SurvivorsKeepRows(s.rows, dead, s.last);
    UnlinkKeepsBags(s, AfterDelete(s, gone), PathsAt(s.rows, dead), {});
  }

  lemma StoreKeepsBags(s: Store, infos: seq<Info>, cap: nat)
    requires StoreOk(s) && BatchPaths(infos) <= s.disk
    ensures StoreOk(AfterStore(s, infos, cap)) && BagsFollowRows(s, AfterStore(s, infos, cap), BatchPaths(infos))
  {
    var b := Batch(s.rows, s.last, {});
    BatchKeepsRows(b, infos, cap);
    BatchAccountsForPaths(b, infos, cap);
    UnlinkKeepsBags(s, AfterStore(s, infos, cap), StoredAll(b, infos, cap).evicted, BatchPaths(infos));
  }

  /** Every operation keeps every row's bag on disk, and the bags follow the rows. */
  lemma StepKeepsBags(s: Store, cap: nat, step: Step)
    requires StoreOk(s) && Possible(s, step)
    ensures StoreOk(After(s, cap, step)) && (!step.Record? ==> BagsFollowRows(s, After(s, cap, step), NamedBy(step)))
  {
    match step {
      case Record(_) =>
      case StoreBatch(infos) => StoreKeepsBags(s, infos, cap);
      case DeleteFault(code) => DeleteKeepsBags(s, OfFault(code));
      case DeleteRecording(id) =>
        if id != "" {
          DeleteKeepsBags(s, OfRecording(id));
        } else {
          NothingChanged(s);
        }
    }
  }

  lemma NothingChanged(s: Store)
    requires StoreOk(s)
    ensures BagsFollowRows(s, s, {})
  {
  }

  const EMPTY := Store([], 0, {})

  function Run(cap: nat, steps: seq<Step>): Store {
    if steps == [] then EMPTY else After(Run(cap, steps[..|steps| - 1]), cap, steps[|steps| - 1])
  }

  ghost predicate PossibleRun(cap: nat, steps: seq<Step>) {
    steps != [] ==>
      PossibleRun(cap, steps[..|steps| - 1]) && Possible(Run(cap, steps[..|steps| - 1]), steps[|steps| - 1])
  }

  /** Across every sequence of batch stores, trims and deletes every row names a bag on disk. */
  lemma {:induction false} RunsKeepBags(cap: nat, steps: seq<Step>)
    requires PossibleRun(cap, steps)
    ensures StoreOk(Run(cap, steps))
  {
    if steps == [] {
    } else {
      RunsKeepBags(cap, steps[..|steps| - 1]);
      StepKeepsBags(Run(cap, steps[..|steps| - 1]), cap, steps[|steps| - 1]);
    }
  }

  // ---------------------------------------------------------------- what a delete takes

  /** A delete takes exactly the rows that match. */
  lemma DeleteTakesMatching(s: Store, gone: Row -> bool, r: Row)
    ensures r in AfterDelete(s, gone).rows <==> r in s.rows && !gone(r)
  {
    var dead := Matching(s.rows, gone);
    SurvivorMember(s.rows, dead, r);
    if r in s.rows && !gone(r) {
      var k :| 0 <= k < |s.rows| && s.rows[k] == r;
      assert k !in dead;
    }
  }

  lemma NamedByMember(rows: seq<Row>, p: string)
    ensures p in Paths(rows) <==> exists r :: r in rows && r.info.path == p
  {
    if i :| 0 <= i < |rows| && rows[i].info.path == p {
      assert rows[i] in rows;
    }
    if r :| r in rows && r.info.path == p {
      var i :| 0 <= i < |rows| && rows[i] == r;
      assert rows[i].info.path == p;
    }
  }

  /** A bag of the store is left exactly if some row that stays names it; a bag no row named stays. */
  lemma DeleteTakesBags(s: Store, gone: Row -> bool, p: string)
    requires StoreOk(s) && p in s.disk
    ensures p in AfterDelete(s, gone).disk <==>
            (exists r :: r in s.rows && r.info.path == p && !gone(r)) || forall r :: r in s.rows ==> r.info.path != p
  {
    var after := AfterDelete(s, gone);
    DeleteKeepsBags(s, gone);
    NamedByMember(s.rows, p);
    NamedByMember(after.rows, p);
    forall r ensures r in after.rows <==> r in s.rows && !gone(r) {
      DeleteTakesMatching(s, gone, r);
    }
    if r :| r in after.rows && r.info.path == p {
      var i :| 0 <= i < |after.rows| && after.rows[i] == r;
      assert after.rows[i].info.path in after.disk;
    }
  }

  /** Deleting the recordings of a fault takes exactly its rows, and the bags only it named. */
  lemma DeleteFaultTakes(s: Store, cap: nat, code: string, r: Row, p: string)
    requires StoreOk(s)
    ensures r in After(s, cap, DeleteFault(code)).rows <==> r in s.rows && r.info.code != code
    ensures p in s.disk ==>
              (p in After(s, cap, DeleteFault(code)).disk <==>
               (exists q :: q in s.rows && q.info.path == p && q.info.code != code) ||
               forall q :: q in s.rows ==> q.info.path != p)
  {
    DeleteTakesMatching(s, OfFault(code), r);
    if p in s.disk {
      DeleteTakesBags(s, OfFault(code), p);
    }
  }

  /** Deleting a recording takes exactly the rows with its id, and the bags only they named; an empty id names none. */
  lemma DeleteRecordingTakes(s: Store, cap: nat, id: string, r: Row, p: string)
    requires StoreOk(s)
    ensures r in After(s, cap, DeleteRecording(id)).rows <==> r in s.rows && (id == "" || r.info.recordingId != id)
    ensures p in s.disk ==>
              (p in After(s, cap, DeleteRecording(id)).disk <==>
               id == "" || (exists q :: q in s.rows && q.info.path == p && q.info.recordingId != id) ||
               forall q :: q in s.rows ==> q.info.path != p)
  {
    if id != "" {
      DeleteTakesMatching(s, OfRecording(id), r);
      if p in s.disk {
        DeleteTakesBags(s, OfRecording(id), p);
      }
    }
  }

  // ---------------------------------------------------------------- the cap

  lemma {:induction false} CountByCodes(a: seq<Row>, b: seq<Row>, code: string)
    requires |a| == |b| && forall i :: 0 <= i < |a| ==> a[i].info.code == b[i].info.code
    ensures CountOf(a, code) == CountOf(b, code)
  {
    if a == [] {
    } else {
      CountByCodes(a[..|a| - 1], b[..|b| - 1], code);
    }
  }

  lemma UpsertCountsOthers(b: Batch, info: Info, code: string)
    requires RowsOk(b.rows, b.last) && code != info.code
    ensures CountOf(Upserted(b, info).rows, code) == CountOf(b.rows, code)
  {
    if Linked(b.rows, info) {
      RefreshedSize(b.rows, info);
      forall i | 0 <= i < |b.rows| ensures Refreshed(b.rows, info)[i].info.code == b.rows[i].info.code {
        RefreshedAt(b.rows, info, i);
      }
      CountByCodes(Refreshed(b.rows, info), b.rows, code);
    } else {
      CountSnoc(b.rows, Row(info, b.last + 1), code);
    }
  }

  lemma {:induction false} SurvivorsCountOthers(rows: seq<Row>, dead: set<int>, code: string)
    requires forall i :: i in dead && 0 <= i < |rows| ==> rows[i].info.code != code
    ensures CountOf(Survivors(rows, dead), code) == CountOf(rows, code)
  {
    if rows == [] {
    } else {
      var init, k := rows[..|rows| - 1], |rows| - 1;
      SurvivorsCountOthers(init, dead, code);
      if k in dead {
        assert Survivors(rows, dead) == Survivors(init, dead);
      } else {
        CountSnoc(Survivors(init, dead), rows[k], code);
      }
    }
  }

  /** After a batch every fault it touched is within the cap, however the batch mixes faults. */
  lemma {:induction false} TouchedFaultsWithinCap(b: Batch, infos: seq<Info>, cap: nat, k: nat)
    requires RowsOk(b.rows, b.last) && cap > 0 && k < |infos|
    ensures CountOf(StoredAll(b, infos, cap).rows, infos[k].code) <= cap
  {
    var init, raw := infos[..|infos| - 1], infos[|infos| - 1];
    var code := infos[k].code;
    BatchKeepsRows(b, init, cap);
    var mid := StoredAll(b, init, cap);
    UpsertKeepsRows(mid, Named(raw));
    var up := Upserted(mid, Named(raw));
    if code == raw.code {
      KeepsUpToCap(up.rows, code, cap);
    } else {
      TouchedFaultsWithinCap(b, init, cap, k);
      UpsertCountsOthers(mid, Named(raw), code);
      SurvivorsCountOthers(up.rows, Doomed(up.rows, raw.code, cap), code);
    }
  }
}
