/** The fault transitions of a run against the audit file they end up in, failed appends included. */
module AuditedRuns {
  import opened Basics
  import opened AuditCanonical
  import opened AuditLog
  import opened Debounce
  import FaultStore
  import Trail = AuditTrail

  /** The fault transition a record tells of; the markers of logging itself tell of none. */
  function EntryOf(e: Event): Option<Trail.Entry> {
    var code, transition := WellFormed(e.faultCode), WellFormed(e.transition);
    if transition == "occurred" then Some(Trail.Entry(Trail.WasOccurred, code))
    else if transition == "confirmed" then Some(Trail.Entry(Trail.WasConfirmed, code))
    else if transition == "healed" then Some(Trail.Entry(Trail.WasHealed, code))
    else if transition == "cleared" then Some(Trail.Entry(Trail.WasCleared, code))
    else None
  }

  type Reading = Event -> Option<Trail.Entry>

  function Entries(tell: Reading, events: seq<Event>): seq<Trail.Entry> {
    if events == [] then []
    else
      var before, last := Entries(tell, events[..|events| - 1]), tell(events[|events| - 1]);
      if last.Some? then before + [last.value] else before
  }

  function EventsOf(rows: seq<Row>): (events: seq<Event>)
    ensures |events| == |rows|
  {
    seq(|rows|, i requires 0 <= i < |rows| => rows[i].event)
  }

  // ---------------------------------------------------------------- what was attempted, and what committed

  /** The events handed to the log, in order, whatever became of them. */
  function Attempted(steps: seq<Step>): seq<Event> {
    if steps == [] then []
    else
      var before, last := Attempted(steps[..|steps| - 1]), steps[|steps| - 1];
      if last.Append? then before + [last.event] else before
  }

  /** For every transition handed to the log, whether its append committed. */
  function Outcomes(tell: Reading, steps: seq<Step>): seq<bool> {
    if steps == [] then []
    else
      var before, last := Outcomes(tell, steps[..|steps| - 1]), steps[|steps| - 1];
      if last.Append? && tell(last.event).Some? then before + [last.io.commits] else before
  }

  function Select(trail: seq<Trail.Entry>, kept: seq<bool>): seq<Trail.Entry>
    requires |trail| == |kept|
  {
    if trail == [] then []
    else
      var n := |trail| - 1;
      var before := Select(trail[..n], kept[..n]);
      if kept[n] then before + [trail[n]] else before
  }

  lemma EntriesSnoc(tell: Reading, events: seq<Event>, e: Event)
    ensures Entries(tell, events + [e]) ==
            if tell(e).Some? then Entries(tell, events) + [tell(e).value] else Entries(tell, events)
  {
    assert (events + [e])[..|events|] == events;
  }

  lemma SelectSnoc(trail: seq<Trail.Entry>, kept: seq<bool>, entry: Trail.Entry, keep: bool)
    requires |trail| == |kept|
    ensures Select(trail + [entry], kept + [keep]) ==
            if keep then Select(trail, kept) + [entry] else Select(trail, kept)
  {
    assert (trail + [entry])[..|trail|] == trail && (kept + [keep])[..|trail|] == kept;
  }

  lemma CommittedLast(steps: seq<Step>)
    requires steps != []
    ensures var before, last := Committed(steps[..|steps| - 1]), steps[|steps| - 1];
            Committed(steps) == if last.Append? && last.io.commits then before + [last.event] else before
  {
  }

  /** The transitions in committed records are exactly those handed over whose append committed. */
  lemma {:induction false} CommittedAreSelected(tell: Reading, steps: seq<Step>)
    ensures |Outcomes(tell, steps)| == |Entries(tell, Attempted(steps))|
    ensures Entries(tell, Committed(steps)) == Select(Entries(tell, Attempted(steps)), Outcomes(tell, steps))
  {
    if steps == [] {
    } else {
      var init, last := steps[..|steps| - 1], steps[|steps| - 1];
      CommittedAreSelected(tell, init);
      CommittedLast(steps);
      if last.Append? {
        EntriesSnoc(tell, Attempted(init), last.event);
        EntriesSnoc(tell, Committed(init), last.event);
        if tell(last.event).Some? {
          SelectSnoc(Entries(tell, Attempted(init)), Outcomes(tell, init), tell(last.event).value, last.io.commits);
        }
      }
    }
  }

  // ---------------------------------------------------------------- what is retained

  lemma {:induction false} EntriesConcat(tell: Reading, a: seq<Event>, b: seq<Event>)
    ensures Entries(tell, a + b) == Entries(tell, a) + Entries(tell, b)
  {
    if b == [] {
      assert a + b == a;
    } else {
      var init, last := b[..|b| - 1], b[|b| - 1];
      EntriesConcat(tell, a, init);
      assert a + b == (a + init) + [last];
      EntriesSnoc(tell, a + init, last);
    }
  }

  lemma {:induction false} ChainEvents(h: RecordDigest, events: seq<Event>)
    ensures EventsOf(ChainOf(h, events)) == events
  {
    if events == [] {
    } else {
      var init := events[..|events| - 1];
      ChainEvents(h, init);
      assert forall i :: 0 <= i < |init| ==> ChainOf(h, events)[i] == ChainOf(h, init)[i];
      assert forall i :: 0 <= i < |init| ==> EventsOf(ChainOf(h, init))[i] == events[i];
    }
  }

  lemma EventsOfTail(rows: seq<Row>, from: nat)
    requires from <= |rows|
    ensures EventsOf(rows[from..]) == EventsOf(rows)[from..]
  {
  }

  lemma RetainedEvents(h: RecordDigest, retentionMaxRecords: int, steps: seq<Step>) returns (pruned: nat)
    ensures pruned <= |Committed(steps)|
    ensures EventsOf(Run(h, retentionMaxRecords, steps).db.rows) == Committed(steps)[pruned..]
  {
    pruned := RunRepresents(h, retentionMaxRecords, steps);
    ChainEvents(h, Committed(steps));
    EventsOfTail(ChainOf(h, Committed(steps)), pruned);
  }

  predicate IsTail<T(==)>(tail: seq<T>, whole: seq<T>) {
    |tail| <= |whole| && whole[|whole| - |tail|..] == tail
  }

  lemma EntriesOfTail(tell: Reading, events: seq<Event>, from: nat)
    requires from <= |events|
    ensures IsTail(Entries(tell, events[from..]), Entries(tell, events))
  {
    assert events == events[..from] + events[from..];
    EntriesConcat(tell, events[..from], events[from..]);
  }

  /** The transitions the file tells of. */
  function Retained(tell: Reading, h: RecordDigest, retentionMaxRecords: int, steps: seq<Step>): seq<Trail.Entry> {
    Entries(tell, EventsOf(Run(h, retentionMaxRecords, steps).db.rows))
  }

  lemma RetainedTail(tell: Reading, h: RecordDigest, retentionMaxRecords: int, steps: seq<Step>)
    ensures |Outcomes(tell, steps)| == |Entries(tell, Attempted(steps))|
    ensures IsTail(Retained(tell, h, retentionMaxRecords, steps),
                   Select(Entries(tell, Attempted(steps)), Outcomes(tell, steps)))
  {
    CommittedAreSelected(tell, steps);
    var pruned := RetainedEvents(h, retentionMaxRecords, steps);
    EntriesOfTail(tell, Committed(steps), pruned);
  }

  /**
   In every run of the node and of its audit log, with appends that fail and are passed over, rotations and
   restarts: the file is intact, so `Verify` accepts it, and the transitions in its retained records are
   the tail of exactly those transitions of the trail whose append committed.
   */
  lemma RetainedIsCommittedTail(
    mode: Trail.Mode, bound: nat, requests: seq<Trail.Request>,
    h: RecordDigest, retentionMaxRecords: int, steps: seq<Step>)
    requires Entries(EntryOf, Attempted(steps)) == Trail.Run(mode, bound, requests).trail
    ensures var trail := Trail.Run(mode, bound, requests).trail;
            && Intact(h, Run(h, retentionMaxRecords, steps).db)
            && |Outcomes(EntryOf, steps)| == |trail|
            && IsTail(Retained(EntryOf, h, retentionMaxRecords, steps), Select(trail, Outcomes(EntryOf, steps)))
  {
    RunsStayIntact(h, retentionMaxRecords, steps);
    RetainedTail(EntryOf, h, retentionMaxRecords, steps);
  }

  // ---------------------------------------------------------------- reading the status off the file

  lemma {:induction false} SelectAll(trail: seq<Trail.Entry>, kept: seq<bool>)
    requires |trail| == |kept| && forall i :: 0 <= i < |kept| ==> kept[i]
    ensures Select(trail, kept) == trail
  {
    if trail == [] {
    } else {
      SelectAll(trail[..|trail| - 1], kept[..|trail| - 1]);
    }
  }

  lemma {:induction false} LastStateOfTail(before: seq<Trail.Entry>, tail: seq<Trail.Entry>, code: string)
    requires Trail.LastState(tail, code).Some?
    ensures Trail.LastState(before + tail, code) == Trail.LastState(tail, code)
  {
    var init, last := tail[..|tail| - 1], tail[|tail| - 1];
    assert (before + tail)[..|before + tail| - 1] == before + init;
    if last.code == code && last.kind != Trail.WasOccurred {
    } else {
      LastStateOfTail(before, init, code);
    }
  }

  /**
   If no append failed and all transitions are audited, the newest retained state record of a code tells its
   stored status: it is a confirmed record exactly when the fault is CONFIRMED, and a healed one exactly
   when it is HEALED, however much older history was pruned.
   */
  lemma RetainedRecordTellsStatus(
    bound: nat, requests: seq<Trail.Request>, h: RecordDigest, retentionMaxRecords: int, steps: seq<Step>, code: string)
    requires Trail.PossibleRun(Trail.All, bound, requests)
    requires Entries(EntryOf, Attempted(steps)) == Trail.Run(Trail.All, bound, requests).trail
    requires forall i :: 0 <= i < |Outcomes(EntryOf, steps)| ==> Outcomes(EntryOf, steps)[i]
    requires Trail.LastState(Retained(EntryOf, h, retentionMaxRecords, steps), code).Some?
    ensures var told := Trail.LastState(Retained(EntryOf, h, retentionMaxRecords, steps), code).value;
            var status := Trail.StatusIn(Trail.Run(Trail.All, bound, requests).store, code);
            && (told == Trail.WasConfirmed <==> status == Confirmed)
            && (told == Trail.WasHealed <==> status == Healed)
  {
    var trail := Trail.Run(Trail.All, bound, requests).trail;
    var tail := Retained(EntryOf, h, retentionMaxRecords, steps);
    RetainedIsCommittedTail(Trail.All, bound, requests, h, retentionMaxRecords, steps);
    SelectAll(trail, Outcomes(EntryOf, steps));
    var before := trail[..|trail| - |tail|];
    assert trail == before + tail;
    LastStateOfTail(before, tail, code);
    Trail.TrailTellsStatus(bound, requests, code);
  }
}
