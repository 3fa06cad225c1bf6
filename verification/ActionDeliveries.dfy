/** What the calls made for one action leave active, against the messages the bridge saw. */
module ActionDeliveries {
  import opened Basics
  import opened ActionBridge

  function CodeSet(codes: seq<string>): set<string> {
    set code | code in codes
  }

  function ActiveAfter(before: set<string>, e: Event): set<string> {
    match e
    case Raised(code) => before + {code}
    case Healed(codes) => before - CodeSet(codes)
    case Dropped => before
  }

  /** The fault codes active after the calls of a log; forgetting an action calls nothing. */
  function Active(log: seq<Event>): set<string> {
    if log == [] then {} else ActiveAfter(Active(log[..|log| - 1]), log[|log| - 1])
  }

  lemma ActiveSnoc(log: seq<Event>, e: Event)
    ensures Active(log + [e]) == ActiveAfter(Active(log), e)
  {
    assert (log + [e])[..|log|] == log;
  }

  /** The codes a call names. */
  function Touched(e: Event): set<string> {
    match e
    case Raised(code) => {code}
    case Healed(codes) => CodeSet(codes)
    case Dropped => {}
  }

  predicate OwnLog(log: seq<Event>, codes: Codes, p: Policy) {
    forall e :: e in log ==> Touched(e) <= CodeSet(HealCodes(codes, p))
  }

  // ---------------------------------------------------------------- what the steps say

  /**
   What the steps so far say about one action: the state the messages call for, the state last
   delivered, and whether a forgetting left a fault behind that no heal has reached since.
   */
  datatype Told = Told(wanted: Net, delivered: Net, stranded: bool)

  const NOTHING := Told(Unknown, Healthy, false)

  function Delivering(t: Told, ready: bool): Told {
    if !ready || t.wanted == Unknown || t.wanted == t.delivered then t
    else Told(t.wanted, t.wanted, t.stranded && t.wanted == Failed)
  }

  /** A success while healing is disabled calls for nothing. */
  function Calling(t: Told, verdict: Net, p: Policy): Told {
    if verdict == Failed || (verdict == Healthy && p.healOnSucceeded) then t.(wanted := verdict) else t
  }

  /** Forgetting strands an active fault unless its heal goes out at that moment. */
  function Forgetting(t: Told, heals: bool): Told {
    Told(Unknown, Healthy, if t.delivered == Failed then !heals else t.stranded)
  }

  function Tell(u: Setup, watched: set<string>, t: Told, step: Step, action: string): Told {
    match step
    case Status(a, statuses, service) =>
      var verdict := Verdict(statuses, u.policy);
      if a != action || verdict == Unknown then t else Delivering(Calling(t, verdict, u.policy), service)
    case Retry(ready) => Delivering(t, action in ready)
    case Rescan(present, readyToPrune, readyAfter) =>
      var gone := action in watched && action !in present;
      Delivering(if gone then Forgetting(t, u.policy.healOnSucceeded && action in readyToPrune) else t,
                 action in readyAfter)
  }

  function Watched(steps: seq<Step>): set<string> {
    if steps == [] then {}
    else if steps[|steps| - 1].Rescan? then steps[|steps| - 1].present
    else Watched(steps[..|steps| - 1])
  }

  function ToldBy(u: Setup, steps: seq<Step>, action: string): Told {
    if steps == [] then NOTHING
    else
      var init := steps[..|steps| - 1];
      Tell(u, Watched(init), ToldBy(u, init, action), steps[|steps| - 1], action)
  }

  // ---------------------------------------------------------------- one action

  predicate Tracks(c: Cell, t: Told, codes: Codes, p: Policy) {
    && CellOk(c, codes, p)
    && DesiredNet(c) == t.wanted
    && ReportedNet(c) == t.delivered
    && Active(c.log) <= CodeSet(HealCodes(codes, p)) && OwnLog(c.log, codes, p)
    && (Active(c.log) != {} <==> t.delivered == Failed || t.stranded)
  }

  lemma ReconciledTracks(c: Cell, t: Told, ready: bool, codes: Codes, p: Policy)
    requires Tracks(c, t, codes, p) && c.hasReporter
    ensures Tracks(Reconciled(c, ready, codes, p), Delivering(t, ready), codes, p)
  {
    ReconciledOk(c, ready, codes, p);
    if Pending(c) && ready {
      if DesiredNet(c) == Failed {
        var code := codes(c.desired.value.canceled);
        ActiveSnoc(c.log, Raised(code));
        assert code in HealCodes(codes, p) && code in Active(c.log + [Raised(code)]);
      } else {
        ActiveSnoc(c.log, Healed(HealCodes(codes, p)));
      }
    }
  }

  lemma RetriedTracks(c: Cell, t: Told, ready: bool, codes: Codes, p: Policy)
    requires Tracks(c, t, codes, p)
    ensures Tracks(Retried(c, ready, codes, p), Delivering(t, ready), codes, p)
  {
    if Pending(c) {
      ReconciledTracks(c.(hasReporter := true), t, ready, codes, p);
    }
  }

  lemma PrunedTracks(c: Cell, t: Told, ready: bool, codes: Codes, p: Policy)
    requires Tracks(c, t, codes, p)
    ensures Tracks(Pruned(c, ready, codes, p), Forgetting(t, p.healOnSucceeded && ready), codes, p)
  {
    PrunedOk(c, ready, codes, p);
    if ReportedNet(c) == Failed && p.healOnSucceeded && ready {
      var healed := c.log + [Healed(HealCodes(codes, p))];
      ActiveSnoc(c.log, Healed(HealCodes(codes, p)));
      ActiveSnoc(healed, Dropped);
    } else {
      ActiveSnoc(c.log, Dropped);
    }
  }

  lemma StatusTracks(c: Cell, t: Told, statuses: seq<int>, ready: bool, codes: Codes, p: Policy)
    requires Tracks(c, t, codes, p)
    ensures var verdict := Verdict(statuses, p);
            Tracks(StatusCell(c, statuses, ready, codes, p),
                   if verdict == Unknown then t else Delivering(Calling(t, verdict, p), ready), codes, p)
  {
    var withReporter := c.(hasReporter := true);
    if Verdict(statuses, p) != Unknown {
      ObservedOk(withReporter, statuses, codes, p);
      ReconciledTracks(Observed(withReporter, statuses, p), Calling(t, Verdict(statuses, p), p), ready, codes, p);
    }
  }

  // ---------------------------------------------------------------- every run

  lemma RetryCellAt(u: Setup, cells: map<string, Cell>, ready: set<string>, action: string)
    ensures CellIn(RetriedCells(u, cells, ready), action) ==
            Retried(CellIn(cells, action), action in ready, CodesOf(u, action), u.policy)
  {
  }

  lemma PruneCellAt(u: Setup, cells: map<string, Cell>, gone: set<string>, ready: set<string>, action: string)
    ensures CellIn(PrunedCells(u, cells, gone, ready), action) ==
            if action in gone then Pruned(CellIn(cells, action), action in ready, CodesOf(u, action), u.policy)
            else CellIn(cells, action)
  {
  }

  lemma RescanTracks(u: Setup, b: Bridge, t: Told, step: Step, action: string)
    requires step.Rescan? && Tracks(CellAt(b, action), t, CodesOf(u, action), u.policy)
    ensures Tracks(CellAt(After(u, b, step), action), Tell(u, b.watched, t, step, action),
                   CodesOf(u, action), u.policy)
  {
    var c, codes, p := CellAt(b, action), CodesOf(u, action), u.policy;
    var gone := b.watched - step.present;
    var kept := PrunedCells(u, b.cells, gone, step.readyToPrune);
    PruneCellAt(u, b.cells, gone, step.readyToPrune, action);
    RetryCellAt(u, kept, step.readyAfter, action);
    var mid := CellIn(kept, action);
    if action in gone {
      PrunedTracks(c, t, action in step.readyToPrune, codes, p);
      RetriedTracks(mid, Forgetting(t, p.healOnSucceeded && action in step.readyToPrune),
                    action in step.readyAfter, codes, p);
    } else {
      RetriedTracks(mid, t, action in step.readyAfter, codes, p);
    }
  }

  lemma StepTracks(u: Setup, b: Bridge, t: Told, step: Step, action: string)
    requires Tracks(CellAt(b, action), t, CodesOf(u, action), u.policy)
    ensures Tracks(CellAt(After(u, b, step), action), Tell(u, b.watched, t, step, action),
                   CodesOf(u, action), u.policy)
  {
    match step {
      case Status(_, statuses, service) =>
        StatusTracks(CellAt(b, action), t, statuses, service, CodesOf(u, action), u.policy);
      case Retry(ready) =>
        RetriedTracks(CellAt(b, action), t, action in ready, CodesOf(u, action), u.policy);
        RetryCellAt(u, b.cells, ready, action);
      case Rescan(_, _, _) => RescanTracks(u, b, t, step, action);
    }
  }

  lemma {:induction false} RunTracks(u: Setup, steps: seq<Step>, action: string)
    ensures Run(u, steps).watched == Watched(steps)
    ensures Tracks(CellAt(Run(u, steps), action), ToldBy(u, steps, action), CodesOf(u, action), u.policy)
  {
    if steps == [] {
    } else {
      var init, last := steps[..|steps| - 1], steps[|steps| - 1];
      RunTracks(u, init, action);
      StepTracks(u, Run(u, init), ToldBy(u, init, action), last, action);
    }
  }

  /** The bridge's desired and reported states are what the steps call for and what they delivered. */
  lemma StateIsTold(u: Setup, steps: seq<Step>, action: string)
    ensures var c, t := CellAt(Run(u, steps), action), ToldBy(u, steps, action);
            DesiredNet(c) == t.wanted && ReportedNet(c) == t.delivered
  {
    RunTracks(u, steps, action);
  }

  /**
   Once nothing is pending for an action, the calls made for it leave one of its codes active exactly when
   the messages since the last forgetting call for one, or an earlier forgetting found the action reported
   failed with healing disabled or the service not ready and no heal was delivered since.
   */
  lemma OwnCallsLeave(u: Setup, steps: seq<Step>, action: string)
    requires !Pending(CellAt(Run(u, steps), action))
    ensures var t := ToldBy(u, steps, action);
            Active(CellAt(Run(u, steps), action).log) != {} <==> t.wanted == Failed || t.stranded
  {
    RunTracks(u, steps, action);
  }

  /** With healing on and the service ready at every forgetting, nothing is ever stranded. */
  lemma {:induction false} NeverStranded(u: Setup, steps: seq<Step>, action: string)
    requires u.policy.healOnSucceeded
    requires forall i :: 0 <= i < |steps| && steps[i].Rescan? ==>
               action in steps[i].present || action in steps[i].readyToPrune
    ensures !ToldBy(u, steps, action).stranded
  {
    if steps == [] {
    } else {
      NeverStranded(u, steps[..|steps| - 1], action);
    }
  }
}
