/**
 What a fault store does, independent of the backend: the debounce state machine carried by a
 record, and the bounded series of near misses per fault code.
 */
module FaultStore {
  import opened Basics
  import opened Debounce
  import opened StringSets

  const SEVERITY_CRITICAL := 3
  const MAX_COUNT := 0xFFFF_FFFF

  datatype FaultReport = FaultReport(
    code: string,
    failed: bool,
    severity: int,
    description: string,
    source: string,
    at: int,
    config: Config)

  datatype Fault = Fault(
    severity: int,
    description: string,
    firstOccurred: int,
    lastOccurred: int,
    occurrenceCount: nat,
    core: Core,
    sources: seq<string>,
    lastFailed: int,
    lastPassed: int)

  datatype NearMiss = NearMiss(at: int, counter: int, threshold: int, severity: int, source: string, status: Status)

  datatype Store = Store(faults: map<string, Fault>, nearMisses: map<string, seq<NearMiss>>)

  const EMPTY := Store(map[], map[])

  datatype Op =
    | DoReport(report: FaultReport)
    | DoClear(code: string)
    | DoReclassify
    | DoTimedConfirm(now: int, afterNs: int)

  datatype Reply = Flag(b: bool) | Codes(codes: set<string>)

  predicate Bypasses(r: FaultReport) {
    r.config.criticalImmediateConfirm && r.severity == SEVERITY_CRITICAL
  }

  function Find<T>(m: map<string, T>, code: string): Option<T> {
    if code in m then Some(m[code]) else None
  }

  function CoreOf(f: Option<Fault>): Option<Core> {
    if f.Some? then Some(f.value.core) else None
  }

  /** A FAILED report on a code that is new, or cleared, starts an occurrence. */
  predicate StartsOccurrence(f: Option<Fault>, r: FaultReport) {
    r.failed && (f.None? || f.value.core.status == Cleared)
  }

  function Refreshed(g: Fault, r: FaultReport, core: Core): Fault {
    var reactivated := g.core.status == Cleared;
    Fault(Max(g.severity, r.severity),
          if r.description == "" then g.description else r.description,
          if reactivated then r.at else g.firstOccurred,
          r.at,
          if reactivated && g.occurrenceCount < MAX_COUNT then g.occurrenceCount + 1 else g.occurrenceCount,
          core,
          Insert(g.sources, r.source),
          r.at,
          g.lastPassed)
  }

  /** The record of a code after a report, in terms of the debounce state machine. */
  function Reported(f: Option<Fault>, r: FaultReport): Option<Fault> {
    var core := Report(CoreOf(f), r.failed, Bypasses(r), r.config);
    if core.None? then None
    else if f.None? then
      Some(Fault(r.severity, r.description, r.at, r.at, 1, core.value, [r.source], r.at, 0))
    else if r.failed then Some(Refreshed(f.value, r, core.value))
    else if f.value.core.status == Cleared then f
    else Some(f.value.(core := core.value, lastPassed := r.at))
  }

  // ---------------------------------------------------------------- near misses

  /** The near miss a report that left `after` is recorded as, if it is one. */
  function NearMissOf(after: Option<Fault>, r: FaultReport): seq<NearMiss> {
    if after.Some? && IsNearMiss(r.failed, after.value.core.status) then
      [NearMiss(r.at, after.value.core.counter, r.config.confirmationThreshold, r.severity, r.source,
                after.value.core.status)]
    else []
  }

  function NearMissesBy(f: Option<Fault>, r: FaultReport): seq<NearMiss> {
    NearMissOf(Reported(f, r), r)
  }

  /** The newest `n` entries of a series; no bound when `n` is zero. */
  function Newest<T>(s: seq<T>, n: nat): seq<T> {
    if n > 0 && |s| > n then s[|s| - n..] else s
  }

  function SeriesIn(m: map<string, seq<NearMiss>>, code: string): seq<NearMiss> {
    if code in m then m[code] else []
  }

  function Recorded(m: map<string, seq<NearMiss>>, code: string, added: seq<NearMiss>, bound: nat)
    : map<string, seq<NearMiss>>
  {
    if added == [] then m else m[code := Newest(SeriesIn(m, code) + added, bound)]
  }

  // ---------------------------------------------------------------- operations

  /** The store with the record a report left for its code, and the near miss that came with it. */
  function Written(s: Store, bound: nat, r: FaultReport, after: Option<Fault>): Store {
    Store(if after.Some? then s.faults[r.code := after.value] else s.faults,
          Recorded(s.nearMisses, r.code, NearMissOf(after, r), bound))
  }

  function AfterReport(s: Store, bound: nat, r: FaultReport): Store {
    Written(s, bound, r, Reported(Find(s.faults, r.code), r))
  }

  function SetStatus(f: Fault, status: Status): Fault {
    f.(core := f.core.(status := status))
  }

  function SetAll(faults: map<string, Fault>, codes: set<string>, status: Status): map<string, Fault> {
    map code | code in faults :: if code in codes then SetStatus(faults[code], status) else faults[code]
  }

  function HealedCodes(faults: map<string, Fault>): set<string> {
    set code | code in faults && faults[code].core.status == Healed
  }

  /** The PREFAILED codes whose last failure is at least `afterNs` old. */
  function OverdueCodes(faults: map<string, Fault>, now: int, afterNs: int): set<string> {
    set code | code in faults && faults[code].core.status == Prefailed && now - faults[code].lastFailed >= afterNs
  }

  function Apply(s: Store, bound: nat, op: Op): (Store, Reply) {
    match op
    case DoReport(r) =>
      (AfterReport(s, bound, r), Flag(StartsOccurrence(Find(s.faults, r.code), r)))
    case DoClear(code) =>
      if code in s.faults then (s.(faults := s.faults[code := SetStatus(s.faults[code], Cleared)]), Flag(true))
      else (s, Flag(false))
    case DoReclassify =>
      (s.(faults := SetAll(s.faults, HealedCodes(s.faults), Cleared)), Codes(HealedCodes(s.faults)))
    case DoTimedConfirm(now, afterNs) =>
      if afterNs <= 0 then (s, Codes({}))
      else (s.(faults := SetAll(s.faults, OverdueCodes(s.faults, now, afterNs), Confirmed)),
            Codes(OverdueCodes(s.faults, now, afterNs)))
  }

  function Run(bound: nat, ops: seq<Op>): Store {
    if ops == [] then EMPTY else Apply(Run(bound, ops[..|ops| - 1]), bound, ops[|ops| - 1]).0
  }

  // ---------------------------------------------------------------- the near-miss series of a run

  /** The bound on a series has no influence on the faults. */
  lemma {:induction false} FaultsIgnoreBound(bound: nat, ops: seq<Op>)
    ensures Run(bound, ops).faults == Run(0, ops).faults
  {
    if ops == [] {
    } else {
      FaultsIgnoreBound(bound, ops[..|ops| - 1]);
    }
  }

  /** Every FAILED report of `code` that did not leave it CONFIRMED, oldest first. */
  function AllNearMisses(ops: seq<Op>, code: string): seq<NearMiss> {
    if ops == [] then []
    else
      var before := AllNearMisses(ops[..|ops| - 1], code);
      var op := ops[|ops| - 1];
      if op.DoReport? && op.report.code == code then
        before + NearMissesBy(Find(Run(0, ops[..|ops| - 1]).faults, code), op.report)
      else before
  }

  lemma NewestOfNewest(s: seq<NearMiss>, added: seq<NearMiss>, n: nat)
    ensures Newest(Newest(s, n) + added, n) == Newest(s + added, n)
  {
    if n > 0 && |s| > n {
      assert Newest(s, n) + added == (s + added)[|s| - n..];
    }
  }

  /** The stored series is exactly the newest part of all near misses, as long as the bound allows. */
  lemma {:induction false} SeriesIsNewestSuffix(bound: nat, ops: seq<Op>, code: string)
    ensures SeriesIn(Run(bound, ops).nearMisses, code) == Newest(AllNearMisses(ops, code), bound)
  {
    if ops == [] {
    } else {
      var before := ops[..|ops| - 1];
      var op := ops[|ops| - 1];
      SeriesIsNewestSuffix(bound, before, code);
      FaultsIgnoreBound(bound, before);
      if op.DoReport? && op.report.code == code {
        var added := NearMissesBy(Find(Run(bound, before).faults, code), op.report);
        NewestOfNewest(AllNearMisses(before, code), added, bound);
        if added == [] {
          assert AllNearMisses(before, code) + added == AllNearMisses(before, code);
        }
      }
    }
  }

  // ---------------------------------------------------------------- status invariant of every run

  lemma {:induction false} NoUnsetStatus(bound: nat, ops: seq<Op>, code: string)
    requires forall i :: 0 <= i < |ops| && ops[i].DoReport? ==> Sane(ops[i].report.config)
    requires code in Run(bound, ops).faults
    ensures Run(bound, ops).faults[code].core.status != Unset
  {
    var before := ops[..|ops| - 1];
    var op := ops[|ops| - 1];
    var s := Run(bound, before);
    if code in s.faults {
      NoUnsetStatus(bound, before, code);
    }
    if op.DoReport? && op.report.code == code {
      var r := op.report;
      ReportRespectsLifecycle(CoreOf(Find(s.faults, code)), r.failed, Bypasses(r), r.config);
    }
  }

  // ---------------------------------------------------------------- the lifecycle over every operation of a run

  predicate ReportsOn(op: Op, code: string, failed: bool) {
    op.DoReport? && op.report.code == code && op.report.failed == failed
  }

  /** Which operation may move a stored fault between which statuses. */
  predicate LifecycleMove(before: Status, after: Status, op: Op, code: string) {
    && (before == Confirmed ==> after == Confirmed || after == Healed || after == Cleared)
    && (before == Healed ==> after == Healed || after == Confirmed || after == Cleared)
    && (after == Healed && before != Healed ==> ReportsOn(op, code, false))
    && (after == Confirmed && before != Confirmed ==>
          ReportsOn(op, code, true) || (op.DoTimedConfirm? && before == Prefailed))
    && (after == Cleared && before != Cleared ==> op == DoClear(code) || (op.DoReclassify? && before == Healed))
    && (before == Cleared && after != Cleared ==> ReportsOn(op, code, true))
  }

  lemma OpRespectsLifecycle(s: Store, bound: nat, op: Op, code: string)
    requires op.DoReport? ==> Sane(op.report.config)
    requires code in s.faults && s.faults[code].core.status != Unset
    ensures var t := Apply(s, bound, op).0;
            && code in t.faults
            && LifecycleMove(s.faults[code].core.status, t.faults[code].core.status, op, code)
            && (ReportsOn(op, code, true) || (ReportsOn(op, code, false) && s.faults[code].core.status != Cleared) ==>
                  InBand(t.faults[code].core.counter, op.report.config))
  {
    if op.DoReport? && op.report.code == code {
      var r := op.report;
      ReportRespectsLifecycle(CoreOf(Find(s.faults, code)), r.failed, Bypasses(r), r.config);
    }
  }

  /**
   In every run, clears, reclassifications and timed confirmations included, and with any usable
   configuration per report: a stored fault stays stored, CONFIRMED is left only for HEALED or CLEARED and
   HEALED only for CONFIRMED or CLEARED, only a PASSED report heals, only a FAILED report or the timer on a
   PREFAILED fault confirms, and a report leaves the counter in its own band.
   */
  lemma RunsRespectLifecycle(bound: nat, ops: seq<Op>, op: Op, code: string)
    requires forall i :: 0 <= i < |ops| && ops[i].DoReport? ==> Sane(ops[i].report.config)
    requires (op.DoReport? ==> Sane(op.report.config)) && code in Run(bound, ops).faults
    ensures var s, t := Run(bound, ops), Run(bound, ops + [op]);
            && code in t.faults
            && LifecycleMove(s.faults[code].core.status, t.faults[code].core.status, op, code)
            && (ReportsOn(op, code, true) || (ReportsOn(op, code, false) && s.faults[code].core.status != Cleared) ==>
                  InBand(t.faults[code].core.counter, op.report.config))
  {
    assert (ops + [op])[..|ops|] == ops;
    NoUnsetStatus(bound, ops, code);
    OpRespectsLifecycle(Run(bound, ops), bound, op, code);
  }
}
