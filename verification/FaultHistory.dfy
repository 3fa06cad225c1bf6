/** What a stored fault tells about the reports of a run, and what every operation does to it. */
module FaultHistory {
  import opened Basics
  import opened Debounce
  import opened StringSets
  import opened FaultStore

  // ---------------------------------------------------------------- the reports of a code

  /** The FAILED reports of a code, oldest first. */
  function FailedReports(ops: seq<Op>, code: string): seq<FaultReport> {
    if ops == [] then []
    else
      var before, op := FailedReports(ops[..|ops| - 1], code), ops[|ops| - 1];
      if ReportsOn(op, code, true) then before + [op.report] else before
  }

  function HighestSeverity(rs: seq<FaultReport>): int
    requires rs != []
  {
    var last := rs[|rs| - 1].severity;
    if |rs| == 1 then last
    else
      var before := HighestSeverity(rs[..|rs| - 1]);
      if before >= last then before else last
  }

  /** The newest description that is not empty, or the first one. */
  function NewestDescription(rs: seq<FaultReport>): string
    requires rs != []
  {
    var last := rs[|rs| - 1].description;
    if |rs| == 1 || last != "" then last else NewestDescription(rs[..|rs| - 1])
  }

  /** The times of the reports that started an occurrence: FAILED, on a code unknown or cleared. */
  function StartTimes(ops: seq<Op>, code: string): seq<int> {
    if ops == [] then []
    else
      var init, op := ops[..|ops| - 1], ops[|ops| - 1];
      var s, before := Run(0, init), StartTimes(init, code);
      if ReportsOn(op, code, true) && (code !in s.faults || s.faults[code].core.status == Cleared) then
        before + [op.report.at]
      else before
  }

  /** The time of the last PASSED report that found the fault stored and not cleared, or zero. */
  function LastPassTime(ops: seq<Op>, code: string): int {
    if ops == [] then 0
    else
      var init, op := ops[..|ops| - 1], ops[|ops| - 1];
      var s := Run(0, init);
      if ReportsOn(op, code, false) && code in s.faults && s.faults[code].core.status != Cleared then op.report.at
      else LastPassTime(init, code)
  }

  /** Everything but the debounce state, as the reports tell it. */
  ghost predicate TellsHistory(f: Fault, rs: seq<FaultReport>, starts: seq<int>, lastPassed: int)
    requires rs != [] && starts != []
  {
    && f.severity == HighestSeverity(rs)
    && f.description == NewestDescription(rs)
    && f.firstOccurred == starts[|starts| - 1]
    && f.lastOccurred == f.lastFailed == rs[|rs| - 1].at
    && f.occurrenceCount == (if |starts| <= MAX_COUNT then |starts| else MAX_COUNT)
    && f.lastPassed == lastPassed
    && (forall x :: x in f.sources <==> exists i :: 0 <= i < |rs| && rs[i].source == x)
  }

  lemma SourcesAppend(sources: seq<string>, rs: seq<FaultReport>, r: FaultReport)
    requires forall x :: x in sources <==> exists i :: 0 <= i < |rs| && rs[i].source == x
    ensures forall x :: x in Insert(sources, r.source) <==>
              exists i :: 0 <= i < |rs + [r]| && (rs + [r])[i].source == x
  {
    forall x ensures x in Insert(sources, r.source) <==>
                       exists i :: 0 <= i < |rs + [r]| && (rs + [r])[i].source == x
    {
      if i :| 0 <= i < |rs| && rs[i].source == x {
        assert (rs + [r])[i].source == x;
      }
      assert (rs + [r])[|rs|].source == r.source;
      if i :| 0 <= i < |rs + [r]| && (rs + [r])[i].source == x && i < |rs| {
        assert rs[i].source == x;
      }
    }
  }

  /** One more FAILED report, on a fault that tells the history before it. */
  lemma RefreshedTells(f: Fault, r: FaultReport, core: Core, rs: seq<FaultReport>, starts: seq<int>, lastPassed: int)
    requires rs != [] && starts != [] && TellsHistory(f, rs, starts, lastPassed)
    ensures TellsHistory(Refreshed(f, r, core), rs + [r],
                         if f.core.status == Cleared then starts + [r.at] else starts, lastPassed)
  {
    assert (rs + [r])[..|rs|] == rs;
    SourcesAppend(f.sources, rs, r);
  }

  /**
   In every run a code is stored exactly if it was reported FAILED, and its record tells the history: the
   highest severity, the newest description, every source, the first and the last time of the current
   occurrence, the number of occurrences up to saturation and the last effective PASSED report.
   */
  lemma {:induction false} RecordTellsHistory(bound: nat, ops: seq<Op>, code: string)
    ensures code in Run(bound, ops).faults <==> FailedReports(ops, code) != []
    ensures StartTimes(ops, code) != [] <==> FailedReports(ops, code) != []
    ensures code in Run(bound, ops).faults ==>
              TellsHistory(Run(bound, ops).faults[code], FailedReports(ops, code), StartTimes(ops, code),
                           LastPassTime(ops, code))
    ensures code !in Run(bound, ops).faults ==> LastPassTime(ops, code) == 0
  {
    if ops == [] {
    } else {
      var init, op := ops[..|ops| - 1], ops[|ops| - 1];
      RecordTellsHistory(bound, init, code);
      FaultsIgnoreBound(bound, init);
      OperationTells(Run(bound, init), bound, op, code, FailedReports(init, code), StartTimes(init, code),
                     LastPassTime(init, code));
    }
  }

  ghost predicate StoreTells(s: Store, code: string, rs: seq<FaultReport>, starts: seq<int>, lastPassed: int) {
    && (code in s.faults <==> rs != []) && (starts != [] <==> rs != [])
    && (code in s.faults ==> TellsHistory(s.faults[code], rs, starts, lastPassed))
    && (code !in s.faults ==> lastPassed == 0)
  }

  lemma FailedTells(s: Store, bound: nat, r: FaultReport, rs: seq<FaultReport>, starts: seq<int>, passed: int)
    requires StoreTells(s, r.code, rs, starts, passed) && r.failed
    ensures var begins := r.code !in s.faults || s.faults[r.code].core.status == Cleared;
            StoreTells(AfterReport(s, bound, r), r.code, rs + [r], if begins then starts + [r.at] else starts, passed)
  {
    if r.code in s.faults {
      var f := s.faults[r.code];
      var core := Report(Some(f.core), true, Bypasses(r), r.config).value;
      RefreshedTells(f, r, core, rs, starts, passed);
      assert AfterReport(s, bound, r).faults[r.code] == Refreshed(f, r, core);
    } else {
      assert rs + [r] == [r] && starts + [r.at] == [r.at];
      assert [r][0].source == r.source;
    }
  }

  lemma PassedTells(s: Store, bound: nat, r: FaultReport, rs: seq<FaultReport>, starts: seq<int>, passed: int)
    requires StoreTells(s, r.code, rs, starts, passed) && !r.failed
    ensures var begins := r.code !in s.faults || s.faults[r.code].core.status == Cleared;
            StoreTells(AfterReport(s, bound, r), r.code, rs, starts, if begins then passed else r.at)
  {
  }

  lemma OthersTell(s: Store, bound: nat, op: Op, code: string, rs: seq<FaultReport>, starts: seq<int>, passed: int)
    requires StoreTells(s, code, rs, starts, passed) && (op.DoReport? ==> op.report.code != code)
    ensures StoreTells(Apply(s, bound, op).0, code, rs, starts, passed)
  {
  }

  lemma OperationTells(s: Store, bound: nat, op: Op, code: string, rs: seq<FaultReport>, starts: seq<int>, passed: int)
    requires StoreTells(s, code, rs, starts, passed)
    ensures var begins := code !in s.faults || s.faults[code].core.status == Cleared;
            StoreTells(Apply(s, bound, op).0, code,
                       if ReportsOn(op, code, true) then rs + [op.report] else rs,
                       if ReportsOn(op, code, true) && begins then starts + [op.report.at] else starts,
                       if ReportsOn(op, code, false) && !begins then op.report.at else passed)
  {
    if ReportsOn(op, code, true) {
      FailedTells(s, bound, op.report, rs, starts, passed);
    } else if ReportsOn(op, code, false) {
      PassedTells(s, bound, op.report, rs, starts, passed);
    } else {
      OthersTell(s, bound, op, code, rs, starts, passed);
    }
  }

  // ---------------------------------------------------------------- near misses

  /**
   In every run exactly the FAILED reports that leave their code not CONFIRMED are near misses; each records
   the time, severity, source and threshold of its report and the counter and status it left.
   */
  lemma NearMissTellsReport(ops: seq<Op>, r: FaultReport)
    ensures var after := Run(0, ops + [DoReport(r)]).faults;
            AllNearMisses(ops + [DoReport(r)], r.code) ==
            if r.failed && after[r.code].core.status != Confirmed then
              AllNearMisses(ops, r.code) +
              [NearMiss(r.at, after[r.code].core.counter, r.config.confirmationThreshold, r.severity, r.source,
                        after[r.code].core.status)]
            else AllNearMisses(ops, r.code)
  {
    assert (ops + [DoReport(r)])[..|ops|] == ops;
    assert AllNearMisses(ops, r.code) + [] == AllNearMisses(ops, r.code);
  }

  /** The stored series: all near misses without a bound, else the last of them, as many as the bound. */
  lemma SeriesIsBounded(bound: nat, ops: seq<Op>, code: string)
    ensures var all, kept := AllNearMisses(ops, code), SeriesIn(Run(bound, ops).nearMisses, code);
            && (bound == 0 || |all| <= bound ==> kept == all)
            && (0 < bound < |all| ==> |kept| == bound && exists older :: all == older + kept)
  {
    SeriesIsNewestSuffix(bound, ops, code);
    var all, kept := AllNearMisses(ops, code), SeriesIn(Run(bound, ops).nearMisses, code);
    if 0 < bound < |all| {
      assert all == all[..|all| - bound] + kept;
    }
  }

  // ---------------------------------------------------------------- severity

  /** A CRITICAL FAILED report under immediate confirmation confirms, whatever came before. */
  lemma CriticalConfirms(bound: nat, ops: seq<Op>, r: FaultReport)
    requires r.failed && r.config.criticalImmediateConfirm && r.severity == 3
    ensures var after := Run(bound, ops + [DoReport(r)]).faults;
            r.code in after && after[r.code].core.status == Confirmed
  {
    assert (ops + [DoReport(r)])[..|ops|] == ops;
  }

  predicate Critical(r: FaultReport) { r.config.criticalImmediateConfirm && r.severity == 3 }

  /** Otherwise the severity of a report has no influence on the debounce. */
  lemma SeverityIsNoSignal(bound: nat, ops: seq<Op>, r: FaultReport, severity: int)
    requires !Critical(r) && !Critical(r.(severity := severity))
    ensures var a := Run(bound, ops + [DoReport(r)]).faults;
            var b := Run(bound, ops + [DoReport(r.(severity := severity))]).faults;
            (r.code in a <==> r.code in b) && (r.code in a ==> a[r.code].core == b[r.code].core)
  {
    assert (ops + [DoReport(r)])[..|ops|] == ops;
    assert (ops + [DoReport(r.(severity := severity))])[..|ops|] == ops;
  }

  // ---------------------------------------------------------------- the other operations

  /** A clear takes exactly the status of its own code, and says whether there was one. */
  lemma ClearTakesStatus(s: Store, bound: nat, code: string, other: string)
    ensures var (after, reply) := Apply(s, bound, DoClear(code));
            && reply == Flag(code in s.faults) && after.nearMisses == s.nearMisses
            && after.faults.Keys == s.faults.Keys
            && (other in s.faults ==> after.faults[other].core.counter == s.faults[other].core.counter)
            && (other in s.faults ==>
                  after.faults[other].core.status == if other == code then Cleared else s.faults[other].core.status)
  {
  }

  /** A reclassification clears exactly the HEALED faults and returns them. */
  lemma ReclassifyTakesHealed(s: Store, bound: nat, code: string)
    requires code in s.faults
    ensures var (after, reply) := Apply(s, bound, DoReclassify);
            var healed := s.faults[code].core.status == Healed;
            && reply.Codes? && (code in reply.codes <==> healed)
            && after.faults.Keys == s.faults.Keys && after.nearMisses == s.nearMisses
            && after.faults[code].core.status == (if healed then Cleared else s.faults[code].core.status)
            && after.faults[code].core.counter == s.faults[code].core.counter
  {
  }

  // ---------------------------------------------------------------- the timer

  /**
   An operation that reports the code FAILED under `c` without confirming it at once, or does not concern
   the code: reports and clears of other codes, and reclassifications.
   */
  predicate BurstOp(op: Op, code: string, c: Config) {
    match op
    case DoReport(r) => r.code != code || (r.failed && r.config == c && !Critical(r))
    case DoClear(cleared) => cleared != code
    case DoReclassify => true
    case DoTimedConfirm(_, _) => false
  }

  predicate Fresh(s: Store, code: string) {
    code !in s.faults || s.faults[code].core.status == Cleared
  }

  /** PREFAILED after `n` reports since a fresh start, the last of them at `at`. */
  predicate PendingAfter(s: Store, code: string, n: nat, at: int) {
    && code in s.faults && s.faults[code].core == Core(Prefailed, 0 - n) && s.faults[code].lastFailed == at
  }

  predicate BurstLeft(s: Store, code: string, rs: seq<FaultReport>) {
    if rs == [] then Fresh(s, code) else PendingAfter(s, code, |rs|, rs[|rs| - 1].at)
  }

  lemma BurstStep(s: Store, bound: nat, op: Op, code: string, c: Config, rs: seq<FaultReport>)
    requires Sane(c) && BurstOp(op, code, c) && BurstLeft(s, code, rs)
    requires |rs| + (if ReportsOn(op, code, true) then 1 else 0) < 0 - c.confirmationThreshold
    ensures BurstLeft(Apply(s, bound, op).0, code, if ReportsOn(op, code, true) then rs + [op.report] else rs)
  {
  }

  lemma RunMore(bound: nat, ops: seq<Op>, op: Op)
    ensures Run(bound, ops + [op]) == Apply(Run(bound, ops), bound, op).0
  {
    assert (ops + [op])[..|ops|] == ops;
  }

  /** Fewer FAILED reports than the threshold asks for, since a fresh start, leave the fault PREFAILED. */
  lemma {:induction false} BelowThreshold(bound: nat, before: seq<Op>, burst: seq<Op>, code: string, c: Config)
    requires Sane(c) && Fresh(Run(bound, before), code)
    requires forall i :: 0 <= i < |burst| ==> BurstOp(burst[i], code, c)
    requires |FailedReports(burst, code)| < 0 - c.confirmationThreshold
    ensures BurstLeft(Run(bound, before + burst), code, FailedReports(burst, code))
    decreases burst
  {
    if burst == [] {
      assert before + burst == before;
    } else {
      var init, op := burst[..|burst| - 1], burst[|burst| - 1];
      BelowThreshold(bound, before, init, code, c);
      assert before + burst == (before + init) + [op];
      RunMore(bound, before + init, op);
      BurstStep(Run(bound, before + init), bound, op, code, c, FailedReports(init, code));
    }
  }

  /**
   In every run: a fault whose FAILED reports since it was unknown or cleared stay below the threshold is
   confirmed by the timer exactly once its last failure is old enough, and stays PREFAILED until then.
   */
  lemma TimerConfirmsBelowThreshold(
    bound: nat, before: seq<Op>, burst: seq<Op>, code: string, c: Config, now: int, afterNs: int)
    requires Sane(c) && Fresh(Run(bound, before), code) && afterNs > 0
    requires forall i :: 0 <= i < |burst| ==> BurstOp(burst[i], code, c)
    requires 0 < |FailedReports(burst, code)| < 0 - c.confirmationThreshold
    ensures var rs := FailedReports(burst, code);
            var due := now - rs[|rs| - 1].at >= afterNs;
            var (after, reply) := Apply(Run(bound, before + burst), bound, DoTimedConfirm(now, afterNs));
            && code in after.faults && after.faults[code].core.status == (if due then Confirmed else Prefailed)
            && reply.Codes? && (code in reply.codes <==> due)
  {
    BelowThreshold(bound, before, burst, code, c);
  }

  /** The timer touches no other status, and nothing when it is off. */
  lemma TimerTakesPrefailedOnly(s: Store, bound: nat, now: int, afterNs: int, code: string)
    requires code in s.faults && (s.faults[code].core.status != Prefailed || afterNs <= 0)
    ensures var (after, reply) := Apply(s, bound, DoTimedConfirm(now, afterNs));
            && code in after.faults && after.faults[code] == s.faults[code]
            && reply.Codes? && code !in reply.codes
  {
  }
}
