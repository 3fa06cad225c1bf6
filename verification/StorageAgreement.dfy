/** The two storage backends driven by the same operations. */
module StorageAgreement {
  import opened Basics
  import opened Debounce
  import opened FaultStore
  import opened StringSets
  import opened SqlText
  import opened MemoryStorage
  import opened SqliteStorage

  function Replies(bound: nat, ops: seq<Op>): seq<Reply> {
    if ops == [] then []
    else Replies(bound, ops[..|ops| - 1]) + [Apply(Run(bound, ops[..|ops| - 1]), bound, ops[|ops| - 1]).1]
  }

  function SqlRun(bound: nat, ops: seq<Op>): Store {
    if ops == [] then EMPTY else SqlApply(SqlRun(bound, ops[..|ops| - 1]), bound, ops[|ops| - 1]).0
  }

  function SqlReplies(bound: nat, ops: seq<Op>): seq<Reply> {
    if ops == [] then []
    else SqlReplies(bound, ops[..|ops| - 1]) + [SqlApply(SqlRun(bound, ops[..|ops| - 1]), bound, ops[|ops| - 1]).1]
  }

  // ---------------------------------------------------------------- what the node hands to a storage

  /**
   Every report carries usable thresholds and a positive wall-clock time, as the node guarantees, a code
   without NUL, as the node checks, and a source and a description without NUL, which nobody checks.
   */
  predicate FromNode(op: Op) {
    op.DoReport? ==>
      && Sane(op.report.config) && op.report.at > 0 && NulFree(op.report.code)
      && NulFree(op.report.source) && NulFree(op.report.description)
  }

  predicate FaultOk(f: Fault) {
    f.lastFailed > 0 && Ascending(f.sources) && NulFree(f.description) && AllNulFree(f.sources)
  }

  predicate StoreOk(s: Store) {
    forall code :: code in s.faults ==> NulFree(code) && FaultOk(s.faults[code])
  }

  lemma ReportedOk(f: Option<Fault>, r: FaultReport)
    requires FromNode(DoReport(r)) && (f.Some? ==> FaultOk(f.value))
    ensures Reported(f, r).Some? ==> FaultOk(Reported(f, r).value)
  {
    if f.Some? {
      InsertAscending(f.value.sources, r.source);
    }
  }

  lemma StepStaysOk(s: Store, bound: nat, op: Op)
    requires StoreOk(s) && FromNode(op)
    ensures StoreOk(Apply(s, bound, op).0)
  {
    if op.DoReport? {
      ReportedOk(Find(s.faults, op.report.code), op.report);
    }
  }

  lemma OkStepsAgree(s: Store, op: Op)
    requires StoreOk(s) && FromNode(op)
    ensures Agreeable(s, op)
  {
  }

  /** Operations as the node issues them, with texts free of NUL, take both backends through the same stores. */
  lemma {:induction false} NodeRunsAgree(bound: nat, ops: seq<Op>)
    requires forall i :: 0 <= i < |ops| ==> FromNode(ops[i])
    ensures SqlRun(bound, ops) == Run(bound, ops) && SqlReplies(bound, ops) == Replies(bound, ops)
    ensures StoreOk(Run(bound, ops))
  {
    if ops == [] {
    } else {
      var init, last := ops[..|ops| - 1], ops[|ops| - 1];
      NodeRunsAgree(bound, init);
      var s := Run(bound, init);
      assert FromNode(last);
      StepStaysOk(s, bound, last);
      OkStepsAgree(s, last);
      BackendsAgreeExactly(s, bound, last);
    }
  }

  /** A first FAILED report leaves the same in both backends exactly if source and description are free of NUL. */
  lemma FirstReportAgreesIff(bound: nat, r: FaultReport)
    requires r.failed
    ensures SqlRun(bound, [DoReport(r)]) == Run(bound, [DoReport(r)]) <==> NulFree(r.source) && NulFree(r.description)
  {
    assert [DoReport(r)][..0] == [];
    assert Run(bound, []) == SqlRun(bound, []) == EMPTY;
    ReportsAgreeExactly(EMPTY, bound, r);
  }

  /** The source of such a report is kept in memory and lost to SQLite. */
  lemma NulSourceLost(bound: nat, r: FaultReport, a: string, b: string)
    requires r.failed && r.source == a + ([NUL] + b) && NulFree(a) && (a != [] ==> a[|a| - 1] != ']')
    ensures var memory, sqlite := Run(bound, [DoReport(r)]).faults, SqlRun(bound, [DoReport(r)]).faults;
            && r.code in memory && memory[r.code].sources == [r.source]
            && r.code in sqlite && sqlite[r.code].sources == []
  {
    assert [DoReport(r)][..0] == [];
    assert Run(bound, []) == SqlRun(bound, []) == EMPTY;
    SourcesAreASet(None, r);
    NulLosesSource(a, b);
  }

  /** Its description, and the source of its near miss, are read back up to the NUL. */
  lemma NulTextCut(bound: nat, r: FaultReport, a: string, b: string)
    requires r.failed && NulFree(a)
    ensures var s := SqlRun(bound, [DoReport(r)]);
            && r.code in s.faults
            && (r.description == a + ([NUL] + b) ==> s.faults[r.code].description == a)
            && (r.source == a + ([NUL] + b) && s.faults[r.code].core.status != Confirmed ==>
                  var series := SeriesIn(s.nearMisses, r.code); |series| == 1 && series[0].source == a)
  {
    assert [DoReport(r)][..0] == [];
    assert SqlRun(bound, []) == EMPTY;
    CutAt(a, b);
  }

  // ---------------------------------------------------------------- the two storages

  method StepMemory(storage: InMemoryFaultStorage, op: Op) returns (reply: Reply)
    modifies storage
    ensures (storage.Model(), reply) == Apply(old(storage.Model()), storage.maxNearMisses, op)
  {
    match op {
      case DoReport(r) =>
        var b := storage.ReportFaultEvent(r);
        reply := Flag(b);
      case DoClear(code) =>
        var b := storage.ClearFault(code);
        reply := Flag(b);
      case DoReclassify =>
        var c := storage.ReclassifyHealedAsCleared();
        reply := Codes(c);
      case DoTimedConfirm(now, afterNs) =>
        var c := storage.CheckTimeBasedConfirmation(now, afterNs);
        reply := Codes(c);
    }
  }

  method StepSqlite(storage: SqliteFaultStorage, op: Op) returns (reply: Reply)
    requires storage.Valid()
    modifies storage
    ensures storage.Valid()
    ensures (storage.store, reply) == SqlApply(old(storage.store), storage.maxNearMisses, op)
  {
    match op {
      case DoReport(r) =>
        var b := storage.ReportFaultEvent(r);
        reply := Flag(b);
      case DoClear(code) =>
        var b := storage.ClearFault(code);
        reply := Flag(b);
      case DoReclassify =>
        var c := storage.ReclassifyHealedAsCleared();
        reply := Codes(c);
      case DoTimedConfirm(now, afterNs) =>
        var c := storage.CheckTimeBasedConfirmation(now, afterNs);
        reply := Codes(c);
    }
  }

  datatype Observed = Observed(replies: seq<Reply>, fault: Option<Fault>, series: seq<NearMiss>)

  /**
   Both backends, from empty, through any operations with a configuration of its own per report: each gives
   the replies, fault and series of its own specification, and for operations as the node issues them, with
   texts free of NUL, these are the same in every return value, every field and every near miss.
   */
  method RunBoth(bound: nat, ops: seq<Op>, code: string) returns (memory: Observed, sqlite: Observed)
    ensures memory == Observed(Replies(bound, ops), Find(Run(bound, ops).faults, code),
                               Newest(AllNearMisses(ops, code), bound))
    ensures sqlite == Observed(SqlReplies(bound, ops), Find(SqlRun(bound, ops).faults, code),
                               SeriesIn(SqlRun(bound, ops).nearMisses, code))
    ensures (forall i :: 0 <= i < |ops| ==> FromNode(ops[i])) ==> memory == sqlite
  {
    var m := new InMemoryFaultStorage(bound);
    var s := new SqliteFaultStorage(bound);
    var memoryReplies: seq<Reply>, sqliteReplies: seq<Reply> := [], [];
    for i := 0 to |ops|
      invariant fresh(m) && fresh(s)
      invariant m.Model() == Run(bound, ops[..i]) && memoryReplies == Replies(bound, ops[..i])
      invariant s.Valid() && s.store == SqlRun(bound, ops[..i]) && sqliteReplies == SqlReplies(bound, ops[..i])
    {
      assert ops[..i + 1][..i] == ops[..i];
      var a := StepMemory(m, ops[i]);
      var b := StepSqlite(s, ops[i]);
      memoryReplies, sqliteReplies := memoryReplies + [a], sqliteReplies + [b];
    }
    assert ops[..|ops|] == ops;
    SeriesIsNewestSuffix(bound, ops, code);
    if forall i :: 0 <= i < |ops| ==> FromNode(ops[i]) {
      NodeRunsAgree(bound, ops);
    }
    var mf := m.GetFault(code);
    var ms := m.GetNearMisses(code);
    var sf := s.GetFault(code);
    var ss := s.GetNearMisses(code);
    memory := Observed(memoryReplies, mf, ms);
    sqlite := Observed(sqliteReplies, sf, ss);
  }
}
