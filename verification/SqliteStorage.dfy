/**
 `SqliteFaultStorage`: the same store over SQL tables. A fault row keeps its reporting sources as
 JSON text, and the near misses of all codes share one table in arrival order. The tables hold whole texts;
 reading one back stops at its first NUL.
 */
module SqliteStorage {
  import opened Basics
  import opened Debounce
  import opened StringSets
  import opened FaultStore
  import opened SqlText
  import JsonArray

  datatype FaultRow = FaultRow(
    severity: int,
    description: string,
    firstOccurredNs: int,
    lastOccurredNs: int,
    occurrenceCount: nat,
    status: Status,
    reportingSources: string,
    debounceCounter: int,
    lastFailedNs: int,
    lastPassedNs: int,
    confirmedAtNs: int)

  datatype NearMissRow = NearMissRow(code: string, record: NearMiss)

  /** A row read back as a fault; the confirmation instant exists only in this backend. */
  function Decoded(row: FaultRow): Fault {
    Fault(row.severity, Cut(row.description), row.firstOccurredNs, row.lastOccurredNs, row.occurrenceCount,
          Core(row.status, row.debounceCounter), JsonArray.Parsed(Cut(row.reportingSources)),
          row.lastFailedNs, row.lastPassedNs)
  }

  function CutSource(n: NearMiss): NearMiss { n.(source := Cut(n.source)) }

  // ---------------------------------------------------------------- SQL over the near-miss table

  function CountOf(rows: seq<NearMissRow>, code: string): nat {
    if rows == [] then 0 else (if rows[0].code == code then 1 else 0) + CountOf(rows[1..], code)
  }

  /** `SELECT ... WHERE fault_code = ? ORDER BY id ASC`. */
  function SeriesOf(rows: seq<NearMissRow>, code: string): (s: seq<NearMiss>)
    ensures |s| == CountOf(rows, code)
  {
    if rows == [] then []
    else (if rows[0].code == code then [CutSource(rows[0].record)] else []) + SeriesOf(rows[1..], code)
  }

  /** Deletes the rows of `code` that are not among its newest `n`. */
  function TrimTo(rows: seq<NearMissRow>, code: string, n: nat): seq<NearMissRow> {
    if rows == [] then []
    else if rows[0].code == code && CountOf(rows[1..], code) >= n then TrimTo(rows[1..], code, n)
    else [rows[0]] + TrimTo(rows[1..], code, n)
  }

  lemma {:induction false} SeriesOfAppend(rows: seq<NearMissRow>, row: NearMissRow, code: string)
    ensures SeriesOf(rows + [row], code) ==
            SeriesOf(rows, code) + (if row.code == code then [CutSource(row.record)] else [])
  {
    if rows == [] {
      assert rows + [row] == [row];
    } else {
      assert (rows + [row])[1..] == rows[1..] + [row];
      SeriesOfAppend(rows[1..], row, code);
    }
  }

  lemma SeriesOfCons(row: NearMissRow, rows: seq<NearMissRow>, code: string)
    ensures SeriesOf([row] + rows, code) ==
            (if row.code == code then [CutSource(row.record)] else []) + SeriesOf(rows, code)
  {
    assert ([row] + rows)[1..] == rows;
  }

  lemma NewestOfLonger(x: NearMiss, s: seq<NearMiss>, n: nat)
    requires n > 0
    ensures Newest([x] + s, n) == if |s| >= n then Newest(s, n) else [x] + s
  {
  }

  lemma {:induction false} TrimKeepsOthers(rows: seq<NearMissRow>, code: string, n: nat, other: string)
    requires other != code
    ensures SeriesOf(TrimTo(rows, code, n), other) == SeriesOf(rows, other)
  {
    if rows == [] {
    } else {
      TrimKeepsOthers(rows[1..], code, n, other);
      SeriesOfCons(rows[0], TrimTo(rows[1..], code, n), other);
      assert rows[0].code == code ==> SeriesOf(rows, other) == SeriesOf(rows[1..], other);
    }
  }

  /** Trimming keeps the newest entries of the code. */
  lemma {:induction false} TrimKeepsNewest(rows: seq<NearMissRow>, code: string, n: nat)
    requires n > 0
    ensures SeriesOf(TrimTo(rows, code, n), code) == Newest(SeriesOf(rows, code), n)
  {
    if rows == [] {
    } else {
      var row, rest := rows[0], rows[1..];
      var trimmed, series := TrimTo(rest, code, n), SeriesOf(rest, code);
      TrimKeepsNewest(rest, code, n);
      SeriesOfCons(row, trimmed, code);
      if row.code == code {
        assert SeriesOf(rows, code) == [CutSource(row.record)] + series;
        NewestOfLonger(CutSource(row.record), series, n);
        assert |series| < n ==> Newest(series, n) == series;
      } else {
        assert SeriesOf(rows, code) == series;
      }
    }
  }

  // ---------------------------------------------------------------- what this backend does differently

  predicate Reactivates(f: Option<Fault>, r: FaultReport) {
    r.failed && f.Some? && f.value.core.status == Cleared
  }

  /** A fault as it is read back after it was written. */
  function AsRead(f: Fault): Fault {
    f.(description := Cut(f.description), sources := ReadBack(f.sources))
  }

  /** The sources are read from JSON text and sorted before the new one joins them. */
  function WithSourceSet(f: Fault): Fault { f.(sources := FromList(f.sources)) }

  /**
   A cleared fault that fails again restarts from a counter of zero, clamped, not from minus one; and a
   FAILED report writes the texts, which later reads cut.
   */
  function SqlReported(f: Option<Fault>, r: FaultReport): Option<Fault> {
    if !r.failed then Reported(f, r)
    else if Reactivates(f, r) then
      Some(AsRead(Refreshed(WithSourceSet(f.value), r, Decide(Clamp(0 - 1, r.config), Cleared, Bypasses(r), r.config))))
    else if f.Some? then Some(AsRead(Reported(Some(WithSourceSet(f.value)), r).value))
    else Some(AsRead(Reported(None, r).value))
  }

  /** The SQL predicate also asks for a positive failure time. */
  function SqlOverdue(faults: map<string, Fault>, now: int, afterNs: int): set<string> {
    set code | code in faults && faults[code].core.status == Prefailed && faults[code].lastFailed <= now - afterNs &&
               faults[code].lastFailed > 0
  }

  function AfterSqlReport(s: Store, bound: nat, r: FaultReport): Store {
    Written(s, bound, r.(source := Cut(r.source)), SqlReported(Find(s.faults, r.code), r))
  }

  function CutAll(codes: set<string>): set<string> {
    set code | code in codes :: Cut(code)
  }

  function SqlApply(s: Store, bound: nat, op: Op): (Store, Reply) {
    match op
    case DoReport(r) => (AfterSqlReport(s, bound, r), Flag(StartsOccurrence(Find(s.faults, r.code), r)))
    case DoTimedConfirm(now, afterNs) =>
      if afterNs <= 0 then (s, Codes({}))
      else (s.(faults := SetAll(s.faults, SqlOverdue(s.faults, now, afterNs), Confirmed)),
            Codes(CutAll(SqlOverdue(s.faults, now, afterNs))))
    case DoReclassify => (Apply(s, bound, op).0, Codes(CutAll(HealedCodes(s.faults))))
    case DoClear(_) => Apply(s, bound, op)
  }

  // ---------------------------------------------------------------- the tables stand for a store

  ghost predicate FaultsStandFor(faults: map<string, FaultRow>, abstracted: map<string, Fault>) {
    && faults.Keys == abstracted.Keys
    && (forall code :: code in faults ==> Decoded(faults[code]) == abstracted[code])
  }

  ghost predicate SeriesStandFor(rows: seq<NearMissRow>, abstracted: map<string, seq<NearMiss>>) {
    forall code :: SeriesOf(rows, code) == SeriesIn(abstracted, code)
  }

  ghost predicate StandsFor(faults: map<string, FaultRow>, nearMisses: seq<NearMissRow>, s: Store) {
    FaultsStandFor(faults, s.faults) && SeriesStandFor(nearMisses, s.nearMisses)
  }

  lemma UpdateStandsFor(faults: map<string, FaultRow>, abstracted: map<string, Fault>, code: string, row: FaultRow)
    requires FaultsStandFor(faults, abstracted)
    ensures FaultsStandFor(faults[code := row], abstracted[code := Decoded(row)])
  {
  }

  class SqliteFaultStorage {
    var faults: map<string, FaultRow>
    var nearMisses: seq<NearMissRow>
    const maxNearMisses: nat
    ghost var store: Store

    ghost predicate Valid()
      reads this
    {
      StandsFor(faults, nearMisses, store)
    }

    constructor (maxNearMissesPerFault: nat)
      ensures Valid() && store == EMPTY && maxNearMisses == maxNearMissesPerFault
    {
      faults, nearMisses, maxNearMisses, store := map[], [], maxNearMissesPerFault, EMPTY;
    }

    method RecordNearMiss(code: string, record: NearMiss, ghost abstracted: map<string, seq<NearMiss>>)
      requires SeriesStandFor(nearMisses, abstracted)
      modifies this`nearMisses
      ensures SeriesStandFor(nearMisses, Recorded(abstracted, code, [CutSource(record)], maxNearMisses))
    {
      AppendNearMiss(code, record);
    }

    method AppendNearMiss(code: string, record: NearMiss)
      modifies this`nearMisses
      ensures forall c :: SeriesOf(nearMisses, c) ==
                if c == code then Newest(SeriesOf(old(nearMisses), c) + [CutSource(record)], maxNearMisses)
                else SeriesOf(old(nearMisses), c)
    {
      ghost var before := nearMisses;
      var row := NearMissRow(code, record);
      nearMisses := nearMisses + [row];
      forall c
        ensures SeriesOf(nearMisses, c) ==
                if c == code then SeriesOf(before, c) + [CutSource(record)] else SeriesOf(before, c)
      {
        SeriesOfAppend(before, row, c);
      }
      if maxNearMisses == 0 {
        return;
      }
      ghost var appended := nearMisses;
      nearMisses := TrimTo(nearMisses, code, maxNearMisses);
      forall c
        ensures SeriesOf(nearMisses, c) ==
                if c == code then Newest(SeriesOf(before, c) + [CutSource(record)], maxNearMisses)
                else SeriesOf(before, c)
      {
        if c == code {
          TrimKeepsNewest(appended, code, maxNearMisses);
        } else {
          TrimKeepsOthers(appended, code, maxNearMisses, c);
        }
      }
    }

    /** `report_fault_event_locked`. Returns whether the report started an occurrence. */
    method ReportFaultEvent(r: FaultReport) returns (isNew: bool)
      requires Valid()
      modifies this
      ensures Valid()
      ensures (store, Flag(isNew)) == SqlApply(old(store), maxNearMisses, DoReport(r))
    {
      if r.code in faults {
        if !r.failed {
          isNew := false;
          ReportPassed(r);
        } else {
          isNew := ReportFailed(r);
        }
      } else {
        isNew := r.failed;
        if r.failed {
          InsertFault(r);
        }
      }
    }

    method ReportPassed(r: FaultReport)
      requires Valid() && r.code in faults && !r.failed
      modifies this
      ensures Valid() && store == AfterSqlReport(old(store), maxNearMisses, r)
    {
      ghost var f := Find(store.faults, r.code);
      var row := faults[r.code];
      var counter := Clamp(row.debounceCounter, r.config);
      if row.status == Cleared {
        assert store.faults == store.faults[r.code := f.value];
        return;
      }
      counter := Clamp(counter + 1, r.config);
      var newStatus := ComputeStatus(counter, row.status, r.config);
      var updated := row.(lastPassedNs := r.at, status := newStatus, debounceCounter := counter);
      assert Some(Decoded(updated)) == SqlReported(f, r);
      WriteFault(r, updated);
    }

    method ReportFailed(r: FaultReport) returns (isReactivation: bool)
      requires Valid() && r.code in faults && r.failed
      modifies this
      ensures Valid() && store == AfterSqlReport(old(store), maxNearMisses, r)
      ensures isReactivation == StartsOccurrence(Find(old(store).faults, r.code), r)
    {
      ghost var f := store.faults[r.code];
      var row := faults[r.code];
      assert Decoded(row) == f;
      var sources := AddSource(row.reportingSources, r.source, f.sources);
      var updated := FailedUpdate(row, r, sources);
      isReactivation := row.status == Cleared;
      WriteFault(r, updated);
    }

    /** The row a FAILED report writes over an existing one. */
    static method FailedUpdate(row: FaultRow, r: FaultReport, sources: string) returns (updated: FaultRow)
      requires r.failed
      requires JsonArray.Parsed(Cut(sources)) == ReadBack(Insert(FromList(Decoded(row).sources), r.source))
      ensures Some(Decoded(updated)) == SqlReported(Some(Decoded(row)), r)
    {
      var counter := Clamp(row.debounceCounter, r.config);
      var firstOccurredNs := row.firstOccurredNs;
      var isReactivation := false;
      if row.status == Cleared {
        counter := 0;
        firstOccurredNs := r.at;
        isReactivation := true;
      }
      var newSeverity := if row.severity >= r.severity then row.severity else r.severity;
      var newCount := row.occurrenceCount;
      if isReactivation && newCount < MAX_COUNT {
        newCount := newCount + 1;
      }
      counter := Clamp(counter - 1, r.config);
      var newStatus := if Bypasses(r) then Confirmed else ComputeStatus(counter, row.status, r.config);
      var confirmedAtNs := row.confirmedAtNs;
      if newStatus == Confirmed && row.status != Confirmed {
        confirmedAtNs := r.at;
      }
      updated := FaultRow(newSeverity, if r.description == "" then row.description else r.description,
                          firstOccurredNs, r.at, newCount, newStatus, sources, counter, r.at,
                          row.lastPassedNs, confirmedAtNs);
      CutExactly(Cut(row.description));
    }

    method InsertFault(r: FaultReport)
      requires Valid() && r.code !in faults && r.failed
      modifies this
      ensures Valid() && store == AfterSqlReport(old(store), maxNearMisses, r)
    {
      var initialStatus := if Bypasses(r) then Confirmed else ComputeStatus(-1, Unset, r.config);
      var sources := JsonArray.SerializeJsonArray([r.source]);
      var inserted := FaultRow(r.severity, r.description, r.at, r.at, 1, initialStatus, sources, -1, r.at, 0,
                               if initialStatus == Confirmed then r.at else 0);
      assert Some(Decoded(inserted)) == SqlReported(None, r);
      WriteFault(r, inserted);
    }

    /** Stores the row and, for a near miss, its record, in one transaction. */
    method WriteFault(r: FaultReport, row: FaultRow)
      requires Valid()
      requires Some(Decoded(row)) == SqlReported(Find(store.faults, r.code), r)
      modifies this
      ensures Valid() && store == AfterSqlReport(old(store), maxNearMisses, r)
    {
      ghost var f := Find(store.faults, r.code);
      UpdateStandsFor(faults, store.faults, r.code, row);
      faults := faults[r.code := row];
      if IsNearMiss(r.failed, row.status) {
        var record := NearMiss(r.at, row.debounceCounter, r.config.confirmationThreshold, r.severity, r.source,
                               row.status);
        assert NearMissOf(SqlReported(f, r), r.(source := Cut(r.source))) == [CutSource(record)];
        RecordNearMiss(r.code, record, store.nearMisses);
      } else {
        assert NearMissOf(SqlReported(f, r), r.(source := Cut(r.source))) == [];
      }
      store := AfterSqlReport(store, maxNearMisses, r);
    }

    /** The stored source list, as it is read, with one more source and printed again. */
    static method AddSource(text: string, source: string, ghost sources: seq<string>) returns (updated: string)
      requires JsonArray.Parsed(Cut(text)) == sources
      ensures JsonArray.Parsed(Cut(updated)) == ReadBack(Insert(FromList(sources), source))
    {
      var listed := JsonArray.ParseJsonArray(Cut(text));
      var sorted := Insert(FromList(listed), source);
      updated := JsonArray.SerializeJsonArray(sorted);
    }

    method ClearFault(code: string) returns (found: bool)
      requires Valid()
      modifies this`faults, this`store
      ensures Valid()
      ensures (store, Flag(found)) == Apply(old(store), maxNearMisses, DoClear(code))
    {
      found := code in faults;
      if found {
        faults := faults[code := faults[code].(status := Cleared)];
      }
      store := Apply(store, maxNearMisses, DoClear(code)).0;
    }

    /** `UPDATE faults SET status = ? WHERE fault_code IN codes`. */
    function WithStatus(codes: set<string>, status: Status, confirmedAtNs: Option<int>): map<string, FaultRow>
      reads this
    {
      map code | code in faults ::
        if code !in codes then faults[code]
        else faults[code].(status := status,
                           confirmedAtNs := if confirmedAtNs.Some? then confirmedAtNs.value
                                            else faults[code].confirmedAtNs)
    }

    method ReclassifyHealedAsCleared() returns (reclassified: set<string>)
      requires Valid()
      modifies this`faults, this`store
      ensures Valid()
      ensures (store, Codes(reclassified)) == SqlApply(old(store), maxNearMisses, DoReclassify)
    {
      var selected := set code | code in faults && faults[code].status == Healed;
      assert selected == HealedCodes(store.faults);
      reclassified := CutAll(selected);
      faults := WithStatus(selected, Cleared, None);
      store := Apply(store, maxNearMisses, DoReclassify).0;
    }

    method CheckTimeBasedConfirmation(now: int, afterNs: int) returns (confirmed: set<string>)
      requires Valid()
      modifies this`faults, this`store
      ensures Valid()
      ensures (store, Codes(confirmed)) == SqlApply(old(store), maxNearMisses, DoTimedConfirm(now, afterNs))
    {
      confirmed := {};
      if afterNs <= 0 {
        return;
      }
      var cutoffNs := now - afterNs;
      var selected := set code | code in faults && faults[code].status == Prefailed &&
                                 faults[code].lastFailedNs <= cutoffNs && faults[code].lastFailedNs > 0;
      assert selected == SqlOverdue(store.faults, now, afterNs);
      confirmed := CutAll(selected);
      faults := WithStatus(selected, Confirmed, Some(now));
      store := SqlApply(store, maxNearMisses, DoTimedConfirm(now, afterNs)).0;
    }

    method GetFault(code: string) returns (fault: Option<Fault>)
      requires Valid()
      ensures fault == Find(store.faults, code)
    {
      fault := if code in faults then Some(Decoded(faults[code])) else None;
    }

    method GetNearMisses(code: string) returns (series: seq<NearMiss>)
      requires Valid()
      ensures series == SeriesIn(store.nearMisses, code)
    {
      series := SeriesOf(nearMisses, code);
    }
  }

  // ---------------------------------------------------------------- where the two backends agree

  /** Minus one is in the band of a configuration. */
  predicate BandHasMinusOne(c: Config) {
    c.confirmationThreshold < 0 && c.healingThreshold >= -1
  }

  /** The description a FAILED report leaves. */
  function DescriptionAfter(f: Option<Fault>, r: FaultReport): string {
    if f.Some? && r.description == "" then f.value.description else r.description
  }

  function SourcesAfter(f: Option<Fault>, r: FaultReport): seq<string> {
    if f.Some? then Insert(f.value.sources, r.source) else [r.source]
  }

  /** Every text a FAILED report leaves in the record is free of NUL. */
  predicate TextsNulFree(f: Option<Fault>, r: FaultReport) {
    NulFree(DescriptionAfter(f, r)) && AllNulFree(SourcesAfter(f, r))
  }

  lemma SourcesAreASet(f: Option<Fault>, r: FaultReport)
    requires f.Some? ==> Ascending(f.value.sources)
    ensures r.failed ==> SqlReported(f, r).Some? && Reported(f, r).Some?
    ensures r.failed ==> SqlReported(f, r).value.sources == ReadBack(SourcesAfter(f, r))
    ensures r.failed ==> Reported(f, r).value.sources == SourcesAfter(f, r)
    ensures r.failed ==> SqlReported(f, r).value.description == Cut(DescriptionAfter(f, r))
    ensures r.failed ==> Reported(f, r).value.description == DescriptionAfter(f, r)
  {
    if f.Some? {
      FromAscendingList(f.value.sources);
    }
  }

  /** On a FAILED report that starts over a cleared fault the counters agree exactly if minus one is in the band. */
  lemma CountersAgreeExactly(f: Option<Fault>, r: FaultReport)
    requires r.failed && (f.Some? ==> Ascending(f.value.sources))
    ensures SqlReported(f, r).Some? && Reported(f, r).Some?
    ensures SqlReported(f, r).value.core == Reported(f, r).value.core <==>
            !Reactivates(f, r) || BandHasMinusOne(r.config)
  {
    assert Clamp(0 - 1, r.config) == -1 <==> BandHasMinusOne(r.config);
    if f.Some? {
      FromAscendingList(f.value.sources);
    }
    if Reactivates(f, r) {
      assert Reported(f, r).value.core.counter == -1;
      assert SqlReported(f, r).value.core.counter == Clamp(0 - 1, r.config);
    }
  }

  /**
   The records the two backends leave after a report are the same exactly if it is a PASSED one, or every
   text of the record is free of NUL and, where a cleared fault starts over, minus one is in the band. The
   sources of a fault are a set in ascending order.
   */
  lemma ReactivationAgreesExactly(f: Option<Fault>, r: FaultReport)
    requires f.Some? ==> Ascending(f.value.sources)
    ensures SqlReported(f, r) == Reported(f, r) <==>
            || !r.failed
            || (&& NulFree(DescriptionAfter(f, r)) && AllNulFree(SourcesAfter(f, r))
                && (f.Some? && f.value.core.status == Cleared ==>
                      r.config.confirmationThreshold < 0 && r.config.healingThreshold >= -1))
  {
    if r.failed {
      SourcesAreASet(f, r);
      CountersAgreeExactly(f, r);
      ReadBackExactly(SourcesAfter(f, r));
      CutExactly(DescriptionAfter(f, r));
      OtherFieldsAgree(f, r);
    }
  }

  /** Nothing but the texts and the debounce state can differ. */
  lemma OtherFieldsAgree(f: Option<Fault>, r: FaultReport)
    requires r.failed
    ensures SqlReported(f, r).Some? && Reported(f, r).Some?
    ensures var a, b := SqlReported(f, r).value, Reported(f, r).value;
            a.(description := b.description, sources := b.sources, core := b.core) == b
  {
  }

  /** No PREFAILED fault is due with a failure time that is not positive. */
  predicate DueTimesPositive(faults: map<string, Fault>, now: int, afterNs: int) {
    forall code :: code in OverdueCodes(faults, now, afterNs) ==> faults[code].lastFailed > 0
  }

  /** Timed confirmation confirms the same faults in both exactly if every due failure time is positive. */
  lemma TimedConfirmationAgreesExactly(faults: map<string, Fault>, now: int, afterNs: int)
    ensures SqlOverdue(faults, now, afterNs) == OverdueCodes(faults, now, afterNs) <==>
            DueTimesPositive(faults, now, afterNs)
  {
    if SqlOverdue(faults, now, afterNs) == OverdueCodes(faults, now, afterNs) {
      forall code | code in OverdueCodes(faults, now, afterNs) ensures faults[code].lastFailed > 0 {
        assert code in SqlOverdue(faults, now, afterNs);
      }
    }
  }

  /** A list of codes is returned whole exactly if every code is free of NUL. */
  lemma CutAllExactly(codes: set<string>)
    ensures CutAll(codes) == codes <==> forall code :: code in codes ==> NulFree(code)
  {
    forall code | code in codes ensures Cut(code) == code <==> NulFree(code) {
      CutExactly(code);
    }
    if forall code :: code in codes ==> NulFree(code) {
      forall code ensures code in CutAll(codes) <==> code in codes {
        if code in codes {
          assert Cut(code) in CutAll(codes);
        }
      }
    } else {
      var code :| code in codes && !NulFree(code);
      assert code !in CutAll(codes);
    }
  }

  /** What an operation needs for the two backends to do the same. */
  predicate Agreeable(s: Store, op: Op) {
    match op
    case DoReport(r) =>
      var f := Find(s.faults, r.code);
      || !r.failed
      || (TextsNulFree(f, r) && (f.Some? && f.value.core.status == Cleared ==> BandHasMinusOne(r.config)))
    case DoTimedConfirm(now, afterNs) =>
      afterNs <= 0 || (DueTimesPositive(s.faults, now, afterNs) &&
                       forall code :: code in OverdueCodes(s.faults, now, afterNs) ==> NulFree(code))
    case DoReclassify => forall code :: code in HealedCodes(s.faults) ==> NulFree(code)
    case DoClear(_) => true
  }

  lemma WrittenDiffers(s: Store, bound: nat, r: FaultReport, q: FaultReport, a: Fault, b: Fault)
    requires a != b && r.code == q.code
    ensures Written(s, bound, r, Some(a)) != Written(s, bound, q, Some(b))
  {
    assert Written(s, bound, r, Some(a)).faults[r.code] == a;
    assert Written(s, bound, q, Some(b)).faults[r.code] == b;
  }

  predicate SourcesAscending(s: Store) {
    forall code :: code in s.faults ==> Ascending(s.faults[code].sources)
  }

  lemma ReportsAgreeExactly(s: Store, bound: nat, r: FaultReport)
    requires SourcesAscending(s)
    ensures AfterSqlReport(s, bound, r) == AfterReport(s, bound, r) <==> Agreeable(s, DoReport(r))
  {
    var f, cut := Find(s.faults, r.code), r.(source := Cut(r.source));
    ReactivationAgreesExactly(f, r);
    if !r.failed {
      PassedHasNoNearMiss(f, r);
    } else if SqlReported(f, r) == Reported(f, r) {
      assert r.source in SourcesAfter(f, r);
      CutExactly(r.source);
      assert cut == r;
    } else {
      SourcesAreASet(f, r);
      WrittenDiffers(s, bound, cut, r, SqlReported(f, r).value, Reported(f, r).value);
    }
  }

  lemma PassedHasNoNearMiss(f: Option<Fault>, r: FaultReport)
    requires !r.failed
    ensures NearMissOf(SqlReported(f, r), r.(source := Cut(r.source))) == NearMissOf(Reported(f, r), r) == []
  {
  }

  lemma TimedStoresDiffer(faults: map<string, Fault>, now: int, afterNs: int)
    requires !DueTimesPositive(faults, now, afterNs)
    ensures SetAll(faults, SqlOverdue(faults, now, afterNs), Confirmed) !=
            SetAll(faults, OverdueCodes(faults, now, afterNs), Confirmed)
  {
    var code :| code in OverdueCodes(faults, now, afterNs) && faults[code].lastFailed <= 0;
    assert SetAll(faults, SqlOverdue(faults, now, afterNs), Confirmed)[code].core.status == Prefailed;
    assert SetAll(faults, OverdueCodes(faults, now, afterNs), Confirmed)[code].core.status == Confirmed;
  }

  /**
   The two backends take a store to the same store with the same reply exactly under that condition. The
   sources of every fault are a set in ascending order, as the code keeps them.
   */
  lemma BackendsAgreeExactly(s: Store, bound: nat, op: Op)
    requires SourcesAscending(s)
    ensures SqlApply(s, bound, op) == Apply(s, bound, op) <==> Agreeable(s, op)
  {
    match op {
      case DoReport(r) => ReportsAgreeExactly(s, bound, r);
      case DoTimedConfirm(now, afterNs) =>
        TimedConfirmationAgreesExactly(s.faults, now, afterNs);
        CutAllExactly(OverdueCodes(s.faults, now, afterNs));
        if !DueTimesPositive(s.faults, now, afterNs) {
          TimedStoresDiffer(s.faults, now, afterNs);
        }
      case DoReclassify => CutAllExactly(HealedCodes(s.faults));
      case DoClear(_) =>
    }
  }
}
