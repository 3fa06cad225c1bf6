/** Which fault transitions the node writes to the audit log, over every run of its handlers. */
module AuditTrail {
  import opened Basics
  import opened Debounce
  import opened FaultStore
  import opened FaultCodes

  /** The transition kinds of an audit record. */
  datatype Kind = WasOccurred | WasConfirmed | WasHealed | WasCleared

  datatype Entry = Entry(kind: Kind, code: string)

  datatype Mode = All | ConfirmedOnly

  const EVENT_FAILED := 0
  const EVENT_PASSED := 1

  /** A `~/report_fault` request, before validation, with the configuration resolved for its source. */
  datatype ReportRequest = ReportRequest(
    code: string,
    eventType: int,
    severity: int,
    description: string,
    source: string,
    at: int,
    config: Config)

  datatype Request =
    | ReportFault(request: ReportRequest)
    | ClearFault(code: string, autoCleared: seq<string>)
    | AutoConfirm(now: int, afterNs: int, listed: seq<string>)
    | StartupReclassify(listed: seq<string>)

  datatype Node = Node(store: Store, trail: seq<Entry>)

  predicate Accepted(q: ReportRequest) {
    && ValidFaultCode(q.code)
    && (q.eventType == EVENT_FAILED || q.eventType == EVENT_PASSED)
    && (q.eventType == EVENT_FAILED ==> 0 <= q.severity <= SEVERITY_CRITICAL)
    && q.source != ""
  }

  function ToReport(q: ReportRequest): FaultReport {
    FaultReport(q.code, q.eventType == EVENT_FAILED, q.severity, q.description, q.source, q.at, q.config)
  }

  /** The vector a storage call returns lists each code of the set once. */
  ghost predicate Lists(listed: seq<string>, codes: set<string>) {
    && (forall i, j :: 0 <= i < j < |listed| ==> listed[i] != listed[j])
    && (forall code :: code in listed <==> code in codes)
  }

  // ---------------------------------------------------------------- the handlers, on values

  function Audited(mode: Mode, trail: seq<Entry>, kind: Kind, code: string): seq<Entry> {
    if mode == ConfirmedOnly && kind != WasConfirmed then trail else trail + [Entry(kind, code)]
  }

  function AuditedIf(mode: Mode, trail: seq<Entry>, condition: bool, kind: Kind, code: string): seq<Entry> {
    if condition then Audited(mode, trail, kind, code) else trail
  }

  /** What the store tells about one code. */
  datatype View = View(known: bool, status: Status, count: nat)

  function ViewOf(s: Store, code: string): View {
    if code in s.faults then View(true, s.faults[code].core.status, s.faults[code].occurrenceCount)
    else View(false, Unset, 0)
  }

  function StatusIn(s: Store, code: string): Status { ViewOf(s, code).status }

  predicate JustConfirmed(isNew: bool, before: Status, after: Status) {
    after == Confirmed && (isNew || before != Confirmed)
  }

  predicate JustHealed(isNew: bool, before: Status, after: Status) {
    !isNew && before != Healed && after == Healed
  }

  /** The trail after a report of `code` that moved it from `before` to `after`. */
  function ReportTrail(mode: Mode, trail: seq<Entry>, code: string, isNew: bool, before: Status, after: Status)
    : seq<Entry>
  {
    var t1 := AuditedIf(mode, trail, isNew, WasOccurred, code);
    var t2 := AuditedIf(mode, t1, JustConfirmed(isNew, before, after), WasConfirmed, code);
    AuditedIf(mode, t2, JustHealed(isNew, before, after), WasHealed, code)
  }

  function AfterReportRequest(mode: Mode, bound: nat, n: Node, q: ReportRequest): Node {
    if !Accepted(q) then n
    else
      var store := AfterReport(n.store, bound, ToReport(q));
      var isNew := StartsOccurrence(Find(n.store.faults, q.code), ToReport(q));
      Node(store, ReportTrail(mode, n.trail, q.code, isNew, StatusIn(n.store, q.code), StatusIn(store, q.code)))
  }

  /** Clears one code and audits it if the store knows it. */
  function Cleared1(mode: Mode, bound: nat, n: Node, code: string): Node {
    Node(Apply(n.store, bound, DoClear(code)).0, AuditedIf(mode, n.trail, code in n.store.faults, WasCleared, code))
  }

  function ClearedEach(mode: Mode, bound: nat, n: Node, codes: seq<string>): Node {
    if codes == [] then n
    else Cleared1(mode, bound, ClearedEach(mode, bound, n, codes[..|codes| - 1]), codes[|codes| - 1])
  }

  /** The store clears the requested code first; its record is written after those of its symptoms. */
  function AfterClear(mode: Mode, bound: nat, n: Node, code: string, autoCleared: seq<string>): Node {
    if !ValidFaultCode(code) || code !in n.store.faults then n
    else
      var first := n.(store := Apply(n.store, bound, DoClear(code)).0);
      var each := ClearedEach(mode, bound, first, autoCleared);
      each.(trail := AuditedIf(mode, each.trail, code in each.store.faults, WasCleared, code))
  }

  function AuditedEach(mode: Mode, trail: seq<Entry>, kind: Kind, codes: seq<string>): seq<Entry> {
    if codes == [] then trail
    else Audited(mode, AuditedEach(mode, trail, kind, codes[..|codes| - 1]), kind, codes[|codes| - 1])
  }

  function Handled(mode: Mode, bound: nat, n: Node, q: Request): Node {
    match q
    case ReportFault(request) => AfterReportRequest(mode, bound, n, request)
    case ClearFault(code, autoCleared) => AfterClear(mode, bound, n, code, autoCleared)
    case AutoConfirm(now, afterNs, listed) =>
      Node(Apply(n.store, bound, DoTimedConfirm(now, afterNs)).0, AuditedEach(mode, n.trail, WasConfirmed, listed))
    case StartupReclassify(listed) =>
      Node(Apply(n.store, bound, DoReclassify).0, AuditedEach(mode, n.trail, WasCleared, listed))
  }

  /** What the node and its storage guarantee about a request. */
  ghost predicate Possible(bound: nat, n: Node, q: Request) {
    match q
    case ReportFault(request) => Sane(request.config)
    case ClearFault(_, _) => true
    case AutoConfirm(now, afterNs, listed) => Lists(listed, Apply(n.store, bound, DoTimedConfirm(now, afterNs)).1.codes)
    case StartupReclassify(listed) => Lists(listed, Apply(n.store, bound, DoReclassify).1.codes)
  }

  function Run(mode: Mode, bound: nat, requests: seq<Request>): Node {
    if requests == [] then Node(EMPTY, [])
    else Handled(mode, bound, Run(mode, bound, requests[..|requests| - 1]), requests[|requests| - 1])
  }

  ghost predicate PossibleRun(mode: Mode, bound: nat, requests: seq<Request>) {
    requests != [] ==>
      && PossibleRun(mode, bound, requests[..|requests| - 1])
      && Possible(bound, Run(mode, bound, requests[..|requests| - 1]), requests[|requests| - 1])
  }

  // ---------------------------------------------------------------- the handlers, as the node runs them

  class FaultManagerNode {
    var store: Store
    var trail: seq<Entry>
    const mode: Mode
    const bound: nat

    ghost function Model(): Node
      reads this
    {
      Node(store, trail)
    }

    constructor (mode: Mode, bound: nat)
      ensures Model() == Node(EMPTY, []) && this.mode == mode && this.bound == bound
    {
      this.store, this.trail, this.mode, this.bound := EMPTY, [], mode, bound;
    }

    method AuditTransition(kind: Kind, code: string)
      modifies this`trail
      ensures trail == Audited(mode, old(trail), kind, code)
    {
      if mode == ConfirmedOnly && kind != WasConfirmed {
        return;
      }
      trail := trail + [Entry(kind, code)];
    }

    method HandleReportFault(q: ReportRequest) returns (accepted: bool)
      modifies this
      ensures accepted == Accepted(q)
      ensures Model() == Handled(mode, bound, old(Model()), ReportFault(q))
    {
      var validCode := ValidateFaultCode(q.code);
      if !validCode {
        return false;
      }
      if q.eventType != EVENT_FAILED && q.eventType != EVENT_PASSED {
        return false;
      }
      if q.eventType == EVENT_FAILED && !(0 <= q.severity <= SEVERITY_CRITICAL) {
        return false;
      }
      if q.source == "" {
        return false;
      }
      var statusBefore := StatusIn(store, q.code);
      var r := ToReport(q);
      var isNew := StartsOccurrence(Find(store.faults, q.code), r);
      store := AfterReport(store, bound, r);
      accepted := true;
      if q.code in store.faults {
        var statusAfter := store.faults[q.code].core.status;
        var justConfirmed := false;
        if isNew && statusAfter == Confirmed {
          justConfirmed := true;
        } else if !isNew && statusBefore != Confirmed && statusAfter == Confirmed {
          justConfirmed := true;
        }
        var justHealed := !isNew && statusBefore != Healed && statusAfter == Healed;
        if isNew {
          AuditTransition(WasOccurred, q.code);
        }
        if justConfirmed {
          AuditTransition(WasConfirmed, q.code);
        }
        if justHealed {
          AuditTransition(WasHealed, q.code);
        }
      }
    }

    method HandleClearFault(code: string, autoCleared: seq<string>) returns (success: bool)
      modifies this
      ensures success == (ValidFaultCode(code) && code in old(store).faults)
      ensures Model() == Handled(mode, bound, old(Model()), ClearFault(code, autoCleared))
    {
      var validCode := ValidateFaultCode(code);
      if !validCode || code !in store.faults {
        return false;
      }
      success := true;
      store := store.(faults := store.faults[code := SetStatus(store.faults[code], Debounce.Cleared)]);
      ghost var first := Model();
      for i := 0 to |autoCleared|
        invariant Model() == ClearedEach(mode, bound, first, autoCleared[..i])
      {
        var symptom := autoCleared[i];
        assert autoCleared[..i + 1][..i] == autoCleared[..i];
        if symptom in store.faults {
          store := store.(faults := store.faults[symptom := SetStatus(store.faults[symptom], Debounce.Cleared)]);
          AuditTransition(WasCleared, symptom);
        }
      }
      assert autoCleared[..|autoCleared|] == autoCleared;
      if code in store.faults {
        AuditTransition(WasCleared, code);
      }
    }

    /** Audits each code of a vector the storage returned. */
    method AuditEach(kind: Kind, listed: seq<string>)
      requires forall code :: code in listed ==> code in store.faults
      modifies this`trail
      ensures trail == AuditedEach(mode, old(trail), kind, listed)
    {
      for i := 0 to |listed|
        invariant trail == AuditedEach(mode, old(trail), kind, listed[..i])
      {
        assert listed[..i + 1][..i] == listed[..i];
        if listed[i] in store.faults {
          AuditTransition(kind, listed[i]);
        }
      }
      assert listed[..|listed|] == listed;
    }

    method AutoConfirmTick(now: int, afterNs: int, listed: seq<string>)
      requires Possible(bound, Model(), AutoConfirm(now, afterNs, listed))
      modifies this
      ensures Model() == Handled(mode, bound, old(Model()), AutoConfirm(now, afterNs, listed))
    {
      store := Apply(store, bound, DoTimedConfirm(now, afterNs)).0;
      AuditEach(WasConfirmed, listed);
    }

    method ReclassifyAtStartup(listed: seq<string>)
      requires Possible(bound, Model(), StartupReclassify(listed))
      modifies this
      ensures Model() == Handled(mode, bound, old(Model()), StartupReclassify(listed))
    {
      store := Apply(store, bound, DoReclassify).0;
      AuditEach(WasCleared, listed);
    }
  }

  // ---------------------------------------------------------------- the trail of one code

  /** The kind of a code's last record that is not an "occurred" one. */
  function LastState(trail: seq<Entry>, code: string): Option<Kind> {
    if trail == [] then None
    else
      var last := trail[|trail| - 1];
      if last.code == code && last.kind != WasOccurred then Some(last.kind) else LastState(trail[..|trail| - 1], code)
  }

  function CountOccurred(trail: seq<Entry>, code: string): nat {
    if trail == [] then 0
    else CountOccurred(trail[..|trail| - 1], code) + (if trail[|trail| - 1] == Entry(WasOccurred, code) then 1 else 0)
  }

  predicate EndRecord(e: Entry, code: string) {
    e.code == code && (e.kind == WasHealed || e.kind == WasCleared)
  }

  /** Two confirmed records of a code always have a healed or a cleared one between them. */
  ghost predicate Separated(trail: seq<Entry>, code: string) {
    forall i, j :: 0 <= i < j < |trail| && trail[i] == trail[j] == Entry(WasConfirmed, code) ==>
      exists k :: i < k < j && EndRecord(trail[k], code)
  }

  /** What the trail tells about one code. */
  datatype Tally = Tally(last: Option<Kind>, occurred: nat, separated: bool)

  ghost function TallyOf(trail: seq<Entry>, code: string): Tally {
    Tally(LastState(trail, code), CountOccurred(trail, code), Separated(trail, code))
  }

  function Note(t: Tally, kind: Kind): Tally {
    if kind == WasOccurred then t.(occurred := t.occurred + 1)
    else Tally(Some(kind), t.occurred, t.separated && (kind == WasConfirmed ==> t.last != Some(WasConfirmed)))
  }

  function NoteIf(t: Tally, condition: bool, kind: Kind): Tally {
    if condition then Note(t, kind) else t
  }

  /** The last state record is a confirmed one exactly if no end record follows some confirmed record. */
  lemma {:induction false} LastStateConfirmed(trail: seq<Entry>, code: string) returns (i: nat)
    requires LastState(trail, code) == Some(WasConfirmed)
    ensures i < |trail| && trail[i] == Entry(WasConfirmed, code)
    ensures forall k :: i < k < |trail| ==> !EndRecord(trail[k], code)
  {
    var last := trail[|trail| - 1];
    if last.code == code && last.kind != WasOccurred {
      i := |trail| - 1;
    } else {
      i := LastStateConfirmed(trail[..|trail| - 1], code);
    }
  }

  lemma {:induction false} LastStateAfterConfirmed(trail: seq<Entry>, code: string, i: nat)
    requires i < |trail| && trail[i] == Entry(WasConfirmed, code)
    requires forall k :: i < k < |trail| ==> !EndRecord(trail[k], code)
    ensures LastState(trail, code) == Some(WasConfirmed)
  {
    if i < |trail| - 1 {
      LastStateAfterConfirmed(trail[..|trail| - 1], code, i);
    }
  }

  /** One more confirmed record keeps the records separated exactly if the last state was not confirmed. */
  lemma SeparatedAppend(trail: seq<Entry>, e: Entry, code: string)
    ensures Separated(trail + [e], code) ==
            (&& Separated(trail, code)
             && (e == Entry(WasConfirmed, code) ==> LastState(trail, code) != Some(WasConfirmed)))
  {
    var longer := trail + [e];
    if Separated(longer, code) {
      assert Separated(trail, code) by {
        forall i, j | 0 <= i < j < |trail| && trail[i] == trail[j] == Entry(WasConfirmed, code)
          ensures exists k :: i < k < j && EndRecord(trail[k], code)
        {
          assert longer[i] == longer[j] == Entry(WasConfirmed, code);
          var k :| i < k < j && EndRecord(longer[k], code);
          assert EndRecord(trail[k], code);
        }
      }
    }
    if e == Entry(WasConfirmed, code) && LastState(trail, code) == Some(WasConfirmed) {
      var i := LastStateConfirmed(trail, code);
      assert longer[i] == longer[|trail|] == Entry(WasConfirmed, code);
      assert forall k :: i < k < |trail| ==> longer[k] == trail[k];
    }
    if Separated(trail, code) && (e == Entry(WasConfirmed, code) ==> LastState(trail, code) != Some(WasConfirmed)) {
      forall i, j | 0 <= i < j < |longer| && longer[i] == longer[j] == Entry(WasConfirmed, code)
        ensures exists k :: i < k < j && EndRecord(longer[k], code)
      {
        if forall k :: i < k < j ==> !EndRecord(longer[k], code) {
          assert forall k :: i < k < j ==> longer[k] == trail[k];
          if j < |trail| {
            assert trail[i] == trail[j] == Entry(WasConfirmed, code);
          } else {
            LastStateAfterConfirmed(trail, code, i);
          }
        }
      }
    }
  }

  lemma TallyOfAudited(trail: seq<Entry>, kind: Kind, code: string, other: string)
    ensures TallyOf(Audited(All, trail, kind, code), other) ==
            (if code == other then Note(TallyOf(trail, other), kind) else TallyOf(trail, other))
  {
    assert (trail + [Entry(kind, code)])[..|trail|] == trail;
    SeparatedAppend(trail, Entry(kind, code), other);
  }

  // ---------------------------------------------------------------- trail against store

  /** The records of a code tell its latched status and its occurrence count. */
  predicate Faithful(v: View, t: Tally) {
    && (t.last == Some(WasConfirmed) <==> v.status == Confirmed)
    && (t.last == Some(WasHealed) <==> v.status == Healed)
    && (v.status == Debounce.Cleared ==> t.last == Some(WasCleared))
    && t.separated
    && v.count == Min(t.occurred, MAX_COUNT)
    && (v.known <==> t.occurred > 0)
    && (v.known <==> v.status != Unset)
  }

  ghost predicate Consistent(n: Node, code: string) {
    Faithful(ViewOf(n.store, code), TallyOf(n.trail, code))
  }

  // ---------------------------------------------------------------- a report

  function NoteReport(t: Tally, isNew: bool, before: Status, after: Status): Tally {
    NoteIf(NoteIf(NoteIf(t, isNew, WasOccurred), JustConfirmed(isNew, before, after), WasConfirmed),
           JustHealed(isNew, before, after), WasHealed)
  }

  lemma TallyOfReportTrail(
    trail: seq<Entry>, code: string, isNew: bool, before: Status, after: Status, other: string)
    ensures TallyOf(ReportTrail(All, trail, code, isNew, before, after), other) ==
            (if code == other then NoteReport(TallyOf(trail, other), isNew, before, after) else TallyOf(trail, other))
  {
    var t1 := AuditedIf(All, trail, isNew, WasOccurred, code);
    var t2 := AuditedIf(All, t1, JustConfirmed(isNew, before, after), WasConfirmed, code);
    TallyOfAudited(trail, WasOccurred, code, other);
    TallyOfAudited(t1, WasConfirmed, code, other);
    TallyOfAudited(t2, WasHealed, code, other);
  }

  /** How one report moves what the store tells about its code. */
  predicate ReportMove(v: View, after: View, isNew: bool) {
    && after.known == (v.known || isNew)
    && (after.known <==> after.status != Unset)
    && after.count == (if isNew then Min(v.count + 1, MAX_COUNT) else v.count)
    && (isNew ==> v.status == Unset || v.status == Debounce.Cleared)
    && (isNew ==> after.status != Healed)
    && (v.status == Confirmed || v.status == Healed ==> after.status == Confirmed || after.status == Healed)
    && (after.status == Debounce.Cleared ==> v.status == Debounce.Cleared)
  }

  lemma ReportMoves(s: Store, bound: nat, r: FaultReport)
    requires Sane(r.config) && (ViewOf(s, r.code).known <==> ViewOf(s, r.code).status != Unset)
    requires ViewOf(s, r.code).count <= MAX_COUNT
    ensures ReportMove(ViewOf(s, r.code), ViewOf(AfterReport(s, bound, r), r.code),
                       StartsOccurrence(Find(s.faults, r.code), r))
  {
    ReportRespectsLifecycle(CoreOf(Find(s.faults, r.code)), r.failed, Bypasses(r), r.config);
  }

  lemma ReportMoveFaithful(v: View, after: View, isNew: bool, t: Tally)
    requires Faithful(v, t) && ReportMove(v, after, isNew)
    ensures Faithful(after, NoteReport(t, isNew, v.status, after.status))
  {
  }

  lemma ReportKeepsOthers(s: Store, bound: nat, r: FaultReport, code: string)
    requires code != r.code
    ensures ViewOf(AfterReport(s, bound, r), code) == ViewOf(s, code)
  {
  }

  lemma ReportStaysFaithful(bound: nat, n: Node, q: ReportRequest, code: string)
    requires Sane(q.config) && Consistent(n, code)
    ensures Consistent(AfterReportRequest(All, bound, n, q), code)
  {
    if Accepted(q) {
      var r := ToReport(q);
      var store := AfterReport(n.store, bound, r);
      var isNew := StartsOccurrence(Find(n.store.faults, q.code), r);
      TallyOfReportTrail(n.trail, q.code, isNew, StatusIn(n.store, q.code), StatusIn(store, q.code), code);
      if code == q.code {
        ReportMoves(n.store, bound, r);
        ReportMoveFaithful(ViewOf(n.store, code), ViewOf(store, code), isNew, TallyOf(n.trail, code));
      } else {
        ReportKeepsOthers(n.store, bound, r, code);
      }
    }
  }

  // ---------------------------------------------------------------- a clear

  function ClearedView(v: View): View {
    if v.known then v.(status := Debounce.Cleared) else v
  }

  lemma ClearedStep(bound: nat, n: Node, cleared: string, code: string)
    ensures var after, v, t := Cleared1(All, bound, n, cleared), ViewOf(n.store, code), TallyOf(n.trail, code);
            && ViewOf(after.store, code) == (if cleared == code then ClearedView(v) else v)
            && TallyOf(after.trail, code) == NoteIf(t, cleared == code && v.known, WasCleared)
  {
    TallyOfAudited(n.trail, WasCleared, cleared, code);
  }

  lemma {:induction false} ClearsStayFaithful(bound: nat, n: Node, codes: seq<string>, code: string)
    requires Consistent(n, code)
    ensures Consistent(ClearedEach(All, bound, n, codes), code)
  {
    if codes == [] {
    } else {
      var init, last := codes[..|codes| - 1], codes[|codes| - 1];
      ClearsStayFaithful(bound, n, init, code);
      ClearedStep(bound, ClearedEach(All, bound, n, init), last, code);
    }
  }

  /** The requested code is cleared in the store first and waits for its own record. */
  predicate AwaitsClear(v: View, t: Tally) {
    v.known && v.status == Debounce.Cleared && Faithful(v, Note(t, WasCleared))
  }

  lemma {:induction false} ClearsWhileAwaiting(bound: nat, n: Node, codes: seq<string>, code: string)
    requires AwaitsClear(ViewOf(n.store, code), TallyOf(n.trail, code))
    ensures var each := ClearedEach(All, bound, n, codes);
            AwaitsClear(ViewOf(each.store, code), TallyOf(each.trail, code))
  {
    if codes == [] {
    } else {
      var init, last := codes[..|codes| - 1], codes[|codes| - 1];
      ClearsWhileAwaiting(bound, n, init, code);
      ClearedStep(bound, ClearedEach(All, bound, n, init), last, code);
    }
  }

  lemma ClearStaysFaithful(bound: nat, n: Node, cleared: string, autoCleared: seq<string>, code: string)
    requires Consistent(n, code)
    ensures Consistent(AfterClear(All, bound, n, cleared, autoCleared), code)
  {
    if ValidFaultCode(cleared) && cleared in n.store.faults {
      var first := n.(store := Apply(n.store, bound, DoClear(cleared)).0);
      var each := ClearedEach(All, bound, first, autoCleared);
      TallyOfAudited(each.trail, WasCleared, cleared, code);
      if cleared == code {
        ClearsWhileAwaiting(bound, first, autoCleared, code);
      } else {
        assert ViewOf(first.store, code) == ViewOf(n.store, code);
        ClearsStayFaithful(bound, first, autoCleared, code);
      }
    }
  }

  // ---------------------------------------------------------------- the sweeps

  lemma {:induction false} TallyOfAuditedEach(trail: seq<Entry>, kind: Kind, codes: seq<string>, code: string)
    requires forall i, j :: 0 <= i < j < |codes| ==> codes[i] != codes[j]
    ensures TallyOf(AuditedEach(All, trail, kind, codes), code) == NoteIf(TallyOf(trail, code), code in codes, kind)
  {
    if codes == [] {
    } else {
      var init, last := codes[..|codes| - 1], codes[|codes| - 1];
      TallyOfAuditedEach(trail, kind, init, code);
      TallyOfAudited(AuditedEach(All, trail, kind, init), kind, last, code);
      assert codes == init + [last];
    }
  }

  lemma AutoConfirmStaysFaithful(bound: nat, n: Node, now: int, afterNs: int, listed: seq<string>, code: string)
    requires Possible(bound, n, AutoConfirm(now, afterNs, listed)) && Consistent(n, code)
    ensures Consistent(Handled(All, bound, n, AutoConfirm(now, afterNs, listed)), code)
  {
    TallyOfAuditedEach(n.trail, WasConfirmed, listed, code);
    var v, after := ViewOf(n.store, code), ViewOf(Apply(n.store, bound, DoTimedConfirm(now, afterNs)).0, code);
    assert after == (if code in listed then v.(status := Confirmed) else v);
    assert code in listed ==> v.status == Prefailed;
  }

  lemma ReclassifyStaysFaithful(bound: nat, n: Node, listed: seq<string>, code: string)
    requires Possible(bound, n, StartupReclassify(listed)) && Consistent(n, code)
    ensures Consistent(Handled(All, bound, n, StartupReclassify(listed)), code)
  {
    TallyOfAuditedEach(n.trail, WasCleared, listed, code);
    var v, after := ViewOf(n.store, code), ViewOf(Apply(n.store, bound, DoReclassify).0, code);
    assert after == (if code in listed then v.(status := Debounce.Cleared) else v);
    assert code in listed ==> v.status == Healed;
  }

  // ---------------------------------------------------------------- every run

  lemma HandledStaysConsistent(bound: nat, n: Node, q: Request, code: string)
    requires Possible(bound, n, q) && Consistent(n, code)
    ensures Consistent(Handled(All, bound, n, q), code)
  {
    match q {
      case ReportFault(request) => ReportStaysFaithful(bound, n, request, code);
      case ClearFault(cleared, autoCleared) => ClearStaysFaithful(bound, n, cleared, autoCleared, code);
      case AutoConfirm(now, afterNs, listed) => AutoConfirmStaysFaithful(bound, n, now, afterNs, listed, code);
      case StartupReclassify(listed) => ReclassifyStaysFaithful(bound, n, listed, code);
    }
  }

  /**
   In every run from an empty store with every transition audited: the last state record of a code
   is "confirmed" exactly when its stored status is CONFIRMED and "healed" exactly when it is
   HEALED, two confirmed records have a healed or cleared one between them, and the "occurred"
   records count the occurrences up to the counter's saturation.
   */
  lemma {:induction false} TrailTellsStatus(bound: nat, requests: seq<Request>, code: string)
    requires PossibleRun(All, bound, requests)
    ensures var n := Run(All, bound, requests);
            && (LastState(n.trail, code) == Some(WasConfirmed) <==> StatusIn(n.store, code) == Confirmed)
            && (LastState(n.trail, code) == Some(WasHealed) <==> StatusIn(n.store, code) == Healed)
            && Separated(n.trail, code)
            && (code in n.store.faults ==>
                  n.store.faults[code].occurrenceCount == Min(CountOccurred(n.trail, code), MAX_COUNT))
            && (code !in n.store.faults ==> CountOccurred(n.trail, code) == 0)
            && Consistent(n, code)
  {
    if requests == [] {
    } else {
      var before := requests[..|requests| - 1];
      TrailTellsStatus(bound, before, code);
      HandledStaysConsistent(bound, Run(All, bound, before), requests[|requests| - 1], code);
    }
  }

  // ---------------------------------------------------------------- the other mode

  function ConfirmedEntries(trail: seq<Entry>): seq<Entry> {
    if trail == [] then []
    else
      var last := trail[|trail| - 1];
      ConfirmedEntries(trail[..|trail| - 1]) + (if last.kind == WasConfirmed then [last] else [])
  }

  lemma ConfirmedOfAudited(trail: seq<Entry>, kind: Kind, code: string)
    ensures Audited(ConfirmedOnly, ConfirmedEntries(trail), kind, code) ==
            ConfirmedEntries(Audited(All, trail, kind, code))
  {
    assert (trail + [Entry(kind, code)])[..|trail|] == trail;
  }

  /** Whether `some` is `all` under the confirmed-only mode. */
  predicate OnlyConfirmed(some: Node, all: Node) {
    some.store == all.store && some.trail == ConfirmedEntries(all.trail)
  }

  lemma {:induction false} ConfirmedOfClears(bound: nat, some: Node, all: Node, codes: seq<string>)
    requires OnlyConfirmed(some, all)
    ensures OnlyConfirmed(ClearedEach(ConfirmedOnly, bound, some, codes), ClearedEach(All, bound, all, codes))
  {
    if codes == [] {
    } else {
      var init, last := codes[..|codes| - 1], codes[|codes| - 1];
      ConfirmedOfClears(bound, some, all, init);
      ConfirmedOfAudited(ClearedEach(All, bound, all, init).trail, WasCleared, last);
    }
  }

  lemma {:induction false} ConfirmedOfEach(trail: seq<Entry>, kind: Kind, codes: seq<string>)
    ensures AuditedEach(ConfirmedOnly, ConfirmedEntries(trail), kind, codes) ==
            ConfirmedEntries(AuditedEach(All, trail, kind, codes))
  {
    if codes == [] {
    } else {
      ConfirmedOfEach(trail, kind, codes[..|codes| - 1]);
      ConfirmedOfAudited(AuditedEach(All, trail, kind, codes[..|codes| - 1]), kind, codes[|codes| - 1]);
    }
  }

  lemma ConfirmedOfReportTrail(trail: seq<Entry>, code: string, isNew: bool, before: Status, after: Status)
    ensures ReportTrail(ConfirmedOnly, ConfirmedEntries(trail), code, isNew, before, after) ==
            ConfirmedEntries(ReportTrail(All, trail, code, isNew, before, after))
  {
    var t1 := AuditedIf(All, trail, isNew, WasOccurred, code);
    var t2 := AuditedIf(All, t1, JustConfirmed(isNew, before, after), WasConfirmed, code);
    ConfirmedOfAudited(trail, WasOccurred, code);
    ConfirmedOfAudited(t1, WasConfirmed, code);
    ConfirmedOfAudited(t2, WasHealed, code);
  }

  lemma ConfirmedOfHandled(bound: nat, some: Node, all: Node, q: Request)
    requires OnlyConfirmed(some, all)
    ensures OnlyConfirmed(Handled(ConfirmedOnly, bound, some, q), Handled(All, bound, all, q))
  {
    match q {
      case ReportFault(request) =>
        var store := AfterReport(all.store, bound, ToReport(request));
        ConfirmedOfReportTrail(all.trail, request.code,
                               StartsOccurrence(Find(all.store.faults, request.code), ToReport(request)),
                               StatusIn(all.store, request.code), StatusIn(store, request.code));
      case ClearFault(code, autoCleared) =>
        var cleared := Apply(all.store, bound, DoClear(code)).0;
        ConfirmedOfClears(bound, some.(store := cleared), all.(store := cleared), autoCleared);
        ConfirmedOfAudited(ClearedEach(All, bound, all.(store := cleared), autoCleared).trail, WasCleared, code);
      case AutoConfirm(_, _, listed) => ConfirmedOfEach(all.trail, WasConfirmed, listed);
      case StartupReclassify(listed) => ConfirmedOfEach(all.trail, WasCleared, listed);
    }
  }

  /** The confirmed-only log of a run is the full log of the same run without its other records. */
  lemma {:induction false} ConfirmedOnlyIsProjection(bound: nat, requests: seq<Request>)
    ensures OnlyConfirmed(Run(ConfirmedOnly, bound, requests), Run(All, bound, requests))
  {
    if requests == [] {
    } else {
      var before := requests[..|requests| - 1];
      ConfirmedOnlyIsProjection(bound, before);
      ConfirmedOfHandled(bound, Run(ConfirmedOnly, bound, before), Run(All, bound, before), requests[|requests| - 1]);
    }
  }
}
