/** What each request to the node does to the store and to the audit trail, told from the request's own fields. */
module RequestEffects {
  import opened Basics
  import opened Debounce
  import opened StringSets
  import opened FaultStore
  import opened FaultCodes
  import opened AuditTrail

  function Records(trail: seq<Entry>, e: Entry): nat {
    if trail == [] then 0
    else Records(trail[..|trail| - 1], e) + (if trail[|trail| - 1] == e then 1 else 0)
  }

  lemma RecordsSnoc(trail: seq<Entry>, last: Entry, e: Entry)
    ensures Records(trail + [last], e) == Records(trail, e) + (if last == e then 1 else 0)
  {
    assert (trail + [last])[..|trail|] == trail;
  }

  lemma AuditedIfRecords(trail: seq<Entry>, condition: bool, kind: Kind, code: string, e: Entry)
    ensures Records(AuditedIf(All, trail, condition, kind, code), e) ==
            Records(trail, e) + (if condition && e == Entry(kind, code) then 1 else 0)
  {
    RecordsSnoc(trail, Entry(kind, code), e);
  }

  /** Unknown to the store, or cleared. */
  predicate Inactive(s: Store, code: string) {
    code !in s.faults || s.faults[code].core.status == Debounce.Cleared
  }

  function CountIn(s: Store, code: string): nat {
    if code in s.faults then s.faults[code].occurrenceCount else 0
  }

  // ---------------------------------------------------------------- reports

  /** The node accepts a report with a valid code, event type 0 or 1, a source, and for type 0 a severity up to 3. */
  lemma RejectedChangesNothing(mode: Mode, bound: nat, n: Node, q: ReportRequest)
    requires || !ValidFaultCode(q.code) || q.source == "" || (q.eventType != 0 && q.eventType != 1)
             || (q.eventType == 0 && (q.severity < 0 || q.severity > 3))
    ensures Handled(mode, bound, n, ReportFault(q)) == n
  {
  }

  /** Every other request is accepted. */
  predicate WellFormedReport(q: ReportRequest) {
    ValidFaultCode(q.code) && q.source != "" && (q.eventType == 1 || (q.eventType == 0 && 0 <= q.severity <= 3))
  }

  /**
   An accepted request of event type 0 stores the fault and leaves it not cleared, with its source, its time
   and at least its severity; on an inactive code it starts one more occurrence, up to saturation.
   */
  lemma FailedRequestStores(mode: Mode, bound: nat, n: Node, q: ReportRequest)
    requires WellFormedReport(q) && q.eventType == 0
    ensures var s, t := n.store, Handled(mode, bound, n, ReportFault(q)).store;
            && q.code in t.faults && t.faults[q.code].core.status != Debounce.Cleared
            && t.faults[q.code].severity >= q.severity
            && t.faults[q.code].lastOccurred == t.faults[q.code].lastFailed == q.at
            && q.source in t.faults[q.code].sources
            && (q.description != "" ==> t.faults[q.code].description == q.description)
            && CountIn(t, q.code) ==
               (if Inactive(s, q.code) && CountIn(s, q.code) < 0xFFFF_FFFF then CountIn(s, q.code) + 1
                else CountIn(s, q.code))
            && (Inactive(s, q.code) ==> t.faults[q.code].firstOccurred == q.at)
  {
  }

  /** It writes an occurred record exactly on an inactive code, and a confirmed one exactly if it confirms. */
  lemma FailedRequestRecords(bound: nat, n: Node, q: ReportRequest, kind: Kind)
    requires WellFormedReport(q) && q.eventType == 0
    ensures var m := Handled(All, bound, n, ReportFault(q));
            var confirms := StatusIn(m.store, q.code) == Confirmed &&
                            (Inactive(n.store, q.code) || StatusIn(n.store, q.code) != Confirmed);
            Records(m.trail, Entry(kind, q.code)) == Records(n.trail, Entry(kind, q.code)) +
              (match kind
               case WasOccurred => if Inactive(n.store, q.code) then 1 else 0
               case WasConfirmed => if confirms then 1 else 0
               case WasHealed => if StatusIn(m.store, q.code) == Healed && !Inactive(n.store, q.code) &&
                                    StatusIn(n.store, q.code) != Healed then 1 else 0
               case WasCleared => 0)
  {
    ReportTrailRecords(n.trail, q.code, Inactive(n.store, q.code), StatusIn(n.store, q.code),
                       StatusIn(Handled(All, bound, n, ReportFault(q)).store, q.code), Entry(kind, q.code));
  }

  lemma ReportTrailRecords(trail: seq<Entry>, code: string, isNew: bool, before: Status, after: Status, e: Entry)
    ensures Records(ReportTrail(All, trail, code, isNew, before, after), e) == Records(trail, e)
            + (if isNew && e == Entry(WasOccurred, code) then 1 else 0)
            + (if JustConfirmed(isNew, before, after) && e == Entry(WasConfirmed, code) then 1 else 0)
            + (if JustHealed(isNew, before, after) && e == Entry(WasHealed, code) then 1 else 0)
  {
    var t1 := AuditedIf(All, trail, isNew, WasOccurred, code);
    var t2 := AuditedIf(All, t1, JustConfirmed(isNew, before, after), WasConfirmed, code);
    AuditedIfRecords(trail, isNew, WasOccurred, code, e);
    AuditedIfRecords(t1, JustConfirmed(isNew, before, after), WasConfirmed, code, e);
    AuditedIfRecords(t2, JustHealed(isNew, before, after), WasHealed, code, e);
  }

  /**
   An accepted request of event type 1 changes nothing on an inactive code; on a tracked one it moves only
   the debounce state and the time of the last PASSED report, never to CONFIRMED.
   */
  lemma PassedRequestMoves(mode: Mode, bound: nat, n: Node, q: ReportRequest)
    requires WellFormedReport(q) && q.eventType == 1
    ensures Inactive(n.store, q.code) ==> Handled(mode, bound, n, ReportFault(q)) == n
    ensures !Inactive(n.store, q.code) ==>
              var f, t := n.store.faults[q.code], Handled(mode, bound, n, ReportFault(q)).store;
              && q.code in t.faults && t.nearMisses == n.store.nearMisses
              && t.faults[q.code] == f.(core := t.faults[q.code].core, lastPassed := q.at)
              && t.faults[q.code].core.status != Debounce.Cleared
  {
    if q.code in n.store.faults && Inactive(n.store, q.code) {
      assert n.store.faults[q.code := n.store.faults[q.code]] == n.store.faults;
    }
  }

  /** A report changes no other fault. */
  lemma ReportLeavesOthers(mode: Mode, bound: nat, n: Node, q: ReportRequest, other: string, kind: Kind)
    requires other != q.code
    ensures var m := Handled(mode, bound, n, ReportFault(q));
            Find(m.store.faults, other) == Find(n.store.faults, other)
    ensures Records(Handled(All, bound, n, ReportFault(q)).trail, Entry(kind, other)) ==
            Records(n.trail, Entry(kind, other))
  {
    if Accepted(q) {
      var store := AfterReport(n.store, bound, ToReport(q));
      ReportTrailRecords(n.trail, q.code, StartsOccurrence(Find(n.store.faults, q.code), ToReport(q)),
                         StatusIn(n.store, q.code), StatusIn(store, q.code), Entry(kind, other));
    }
  }

  // ---------------------------------------------------------------- clears

  function Occurrences(codes: seq<string>, code: string): nat {
    if codes == [] then 0
    else Occurrences(codes[..|codes| - 1], code) + (if codes[|codes| - 1] == code then 1 else 0)
  }

  lemma {:induction false} EachCleared(bound: nat, n: Node, codes: seq<string>, code: string)
    ensures var m := ClearedEach(All, bound, n, codes);
            && m.store.faults.Keys == n.store.faults.Keys && m.store.nearMisses == n.store.nearMisses
            && (code in n.store.faults ==>
                  m.store.faults[code] ==
                  if code in codes then SetStatus(n.store.faults[code], Debounce.Cleared) else n.store.faults[code])
            && Records(m.trail, Entry(WasCleared, code)) == Records(n.trail, Entry(WasCleared, code)) +
                 (if code in n.store.faults then Occurrences(codes, code) else 0)
  {
    if codes == [] {
    } else {
      var init, last := codes[..|codes| - 1], codes[|codes| - 1];
      EachCleared(bound, n, init, code);
      assert code in codes <==> code in init || code == last;
      var mid := ClearedEach(All, bound, n, init);
      AuditedIfRecords(mid.trail, last in mid.store.faults, WasCleared, last, Entry(WasCleared, code));
    }
  }

  /**
   Clearing a known code leaves it and every known symptom CLEARED with the rest of their records as they
   were, touches no other fault, and writes one cleared record for the code and one per listed symptom.
   */
  lemma ClearRequestClears(bound: nat, n: Node, code: string, autoCleared: seq<string>, other: string)
    requires ValidFaultCode(code) && code in n.store.faults
    ensures var m := Handled(All, bound, n, ClearFault(code, autoCleared));
            && m.store.faults.Keys == n.store.faults.Keys && m.store.nearMisses == n.store.nearMisses
            && (other in n.store.faults ==>
                  && m.store.faults[other].core.status ==
                     (if other == code || other in autoCleared then Debounce.Cleared
                      else n.store.faults[other].core.status)
                  && m.store.faults[other].core.counter == n.store.faults[other].core.counter
                  && m.store.faults[other].(core := n.store.faults[other].core) == n.store.faults[other])
            && Records(m.trail, Entry(WasCleared, other)) == Records(n.trail, Entry(WasCleared, other)) +
                 (if other in n.store.faults then Occurrences(autoCleared, other) else 0) +
                 (if other == code then 1 else 0)
  {
    var first := n.(store := Apply(n.store, bound, DoClear(code)).0);
    EachCleared(bound, first, autoCleared, other);
    var each := ClearedEach(All, bound, first, autoCleared);
    EachCleared(bound, first, autoCleared, code);
    AuditedIfRecords(each.trail, code in each.store.faults, WasCleared, code, Entry(WasCleared, other));
  }

  /** Clearing an unknown or invalid code changes nothing. */
  lemma UnknownClearChangesNothing(mode: Mode, bound: nat, n: Node, code: string, autoCleared: seq<string>)
    requires !ValidFaultCode(code) || code !in n.store.faults
    ensures Handled(mode, bound, n, ClearFault(code, autoCleared)) == n
  {
  }

  // ---------------------------------------------------------------- timer and startup

  lemma {:induction false} EachRecorded(trail: seq<Entry>, kind: Kind, codes: seq<string>, code: string)
    ensures Records(AuditedEach(All, trail, kind, codes), Entry(kind, code)) ==
            Records(trail, Entry(kind, code)) + Occurrences(codes, code)
  {
    if codes == [] {
    } else {
      var init, last := codes[..|codes| - 1], codes[|codes| - 1];
      EachRecorded(trail, kind, init, code);
      RecordsSnoc(AuditedEach(All, trail, kind, init), Entry(kind, last), Entry(kind, code));
    }
  }

  lemma {:induction false} ListedOnce(listed: seq<string>, code: string)
    requires forall i, j :: 0 <= i < j < |listed| ==> listed[i] != listed[j]
    ensures Occurrences(listed, code) == if code in listed then 1 else 0
  {
    if listed == [] {
    } else {
      var init, last := listed[..|listed| - 1], listed[|listed| - 1];
      ListedOnce(init, code);
      assert listed == init + [last];
    }
  }

  /** The timer confirms exactly the PREFAILED faults whose last failure is old enough, with one record each. */
  lemma TimerRequestConfirms(bound: nat, n: Node, now: int, afterNs: int, listed: seq<string>, code: string)
    requires Possible(bound, n, AutoConfirm(now, afterNs, listed)) && code in n.store.faults
    ensures var m, f := Handled(All, bound, n, AutoConfirm(now, afterNs, listed)), n.store.faults[code];
            var due := afterNs > 0 && f.core.status == Prefailed && now - f.lastFailed >= afterNs;
            && code in m.store.faults
            && m.store.faults[code].core.status == (if due then Confirmed else f.core.status)
            && Records(m.trail, Entry(WasConfirmed, code)) == Records(n.trail, Entry(WasConfirmed, code)) +
                 (if due then 1 else 0)
  {
    EachRecorded(n.trail, WasConfirmed, listed, code);
    ListedOnce(listed, code);
  }

  /** At startup exactly the HEALED faults become CLEARED, with one record each. */
  lemma StartupRequestClears(bound: nat, n: Node, listed: seq<string>, code: string)
    requires Possible(bound, n, StartupReclassify(listed)) && code in n.store.faults
    ensures var m, f := Handled(All, bound, n, StartupReclassify(listed)), n.store.faults[code];
            && code in m.store.faults
            && m.store.faults[code].core.status == (if f.core.status == Healed then Debounce.Cleared else f.core.status)
            && Records(m.trail, Entry(WasCleared, code)) == Records(n.trail, Entry(WasCleared, code)) +
                 (if f.core.status == Healed then 1 else 0)
  {
    EachRecorded(n.trail, WasCleared, listed, code);
    ListedOnce(listed, code);
  }
}
