/** All calls of the bridge in one order, and what the fault manager, which knows faults by code, holds after them. */
module ActionCalls {
  import opened Basics
  import opened ActionBridge
  import opened ActionDeliveries
  import FaultCodes

  /** The codes active at the fault manager after the calls, whichever actions they were made for. */
  function Held(log: seq<Call>): set<string> {
    if log == [] then {} else ActiveAfter(Held(log[..|log| - 1]), log[|log| - 1].event)
  }

  /** The log holds, in some order, what the bridge has sent for every action. */
  ghost predicate Orders(b: Bridge, log: seq<Call>) {
    forall action :: For(log, action) == CellAt(b, action).log
  }

  /** A log of a run: each step appends its calls, in whatever order it visits the actions. */
  ghost predicate IsLog(u: Setup, steps: seq<Step>, log: seq<Call>) {
    && Orders(Run(u, steps), log)
    && (if steps == [] then log == []
        else exists k :: 0 <= k <= |log| && IsLog(u, steps[..|steps| - 1], log[..k]))
  }

  /** Whatever a callback appends is the next part of the log. */
  lemma LogExtends(u: Setup, steps: seq<Step>, step: Step, log: seq<Call>, more: seq<Call>)
    requires IsLog(u, steps, log) && Orders(After(u, Run(u, steps), step), log + more)
    ensures IsLog(u, steps + [step], log + more)
  {
    assert (steps + [step])[..|steps|] == steps;
    assert (log + more)[..|log|] == log;
  }

  // ---------------------------------------------------------------- actions that no step names

  function NamedBy(step: Step): set<string> {
    match step
    case Status(action, _, _) => {action}
    case Retry(_) => {}
    case Rescan(present, _, _) => present
  }

  function NamedIn(steps: seq<Step>): set<string> {
    if steps == [] then {} else NamedIn(steps[..|steps| - 1]) + NamedBy(steps[|steps| - 1])
  }

  lemma {:induction false} OnlyNamed(u: Setup, steps: seq<Step>)
    ensures Run(u, steps).cells.Keys <= NamedIn(steps) && Run(u, steps).watched <= NamedIn(steps)
  {
    if steps == [] {
    } else {
      OnlyNamed(u, steps[..|steps| - 1]);
    }
  }

  // ---------------------------------------------------------------- one action's share of the log

  lemma {:induction false} CallIsSent(log: seq<Call>, i: nat)
    requires i < |log|
    ensures log[i].event in For(log, log[i].action)
  {
    if i == |log| - 1 {
    } else {
      CallIsSent(log[..|log| - 1], i);
    }
  }

  function OwnCodes(u: Setup, action: string): set<string> {
    CodeSet(HealCodes(CodesOf(u, action), u.policy))
  }

  /** Every call names codes of its own action only, and that action is named by a step. */
  lemma CallsNameOwnCodes(u: Setup, steps: seq<Step>, log: seq<Call>, i: nat)
    requires Orders(Run(u, steps), log) && i < |log|
    ensures Touched(log[i].event) <= OwnCodes(u, log[i].action) && log[i].action in NamedIn(steps)
  {
    var action := log[i].action;
    CallIsSent(log, i);
    assert For(log, action) == CellAt(Run(u, steps), action).log;
    RunTracks(u, steps, action);
    OnlyNamed(u, steps);
  }

  /** A call changes nothing about the codes it does not name, and decides about the others. */
  lemma OneCodeAfter(a: set<string>, b: set<string>, e: Event, code: string)
    requires code in a <==> code in b
    ensures code in ActiveAfter(a, e) <==> code in ActiveAfter(b, e)
    ensures code !in Touched(e) ==> (code in ActiveAfter(a, e) <==> code in a)
  {
  }

  /** A code no other action's calls name is held exactly if its own action's calls leave it active. */
  lemma {:induction false} HeldIsOwn(log: seq<Call>, action: string, code: string)
    requires forall i :: 0 <= i < |log| && log[i].action != action ==> code !in Touched(log[i].event)
    ensures code in Held(log) <==> code in Active(For(log, action))
  {
    if log == [] {
    } else {
      var init, last := log[..|log| - 1], log[|log| - 1];
      assert forall i :: 0 <= i < |init| ==> init[i] == log[i];
      HeldIsOwn(init, action, code);
      OneCodeAfter(Held(init), Active(For(init, action)), last.event, code);
      if last.action == action {
        ActiveSnoc(For(init, action), last.event);
      } else {
        assert code !in Touched(log[|log| - 1].event);
        assert For(log, action) == For(init, action);
      }
    }
  }

  // ---------------------------------------------------------------- every run

  predicate Shares(u: Setup, a: string, b: string) {
    OwnCodes(u, a) * OwnCodes(u, b) != {}
  }

  /** The fault manager holds a fault of the action exactly when the steps say it should. */
  predicate HeldAsTold(u: Setup, steps: seq<Step>, log: seq<Call>, action: string) {
    var t := ToldBy(u, steps, action);
    Held(log) * OwnCodes(u, action) != {} <==> t.wanted == Failed || t.stranded
  }

  lemma NotShared(u: Setup, other: string, action: string, code: string)
    requires !Shares(u, other, action) && code in OwnCodes(u, action)
    ensures code !in OwnCodes(u, other)
  {
    assert code !in OwnCodes(u, other) * OwnCodes(u, action);
  }

  lemma OwnPart(u: Setup, steps: seq<Step>, log: seq<Call>, action: string)
    requires Orders(Run(u, steps), log)
    requires forall other :: other in NamedIn(steps) && other != action ==> !Shares(u, other, action)
    ensures Held(log) * OwnCodes(u, action) == Active(For(log, action))
  {
    RunTracks(u, steps, action);
    assert For(log, action) == CellAt(Run(u, steps), action).log;
    forall code | code in OwnCodes(u, action)
      ensures code in Held(log) <==> code in Active(For(log, action))
    {
      forall i | 0 <= i < |log| && log[i].action != action ensures code !in Touched(log[i].event) {
        CallsNameOwnCodes(u, steps, log, i);
        NotShared(u, log[i].action, action, code);
      }
      HeldIsOwn(log, action, code);
    }
  }

  /**
   In every run in which no other action shares a code with it, once nothing is pending for an action: the
   fault manager holds an active fault of it exactly when the messages since the last forgetting call for
   one, or an earlier forgetting found it reported failed with healing disabled or the service not ready
   and no heal was delivered since.
   */
  lemma HeldExactly(u: Setup, steps: seq<Step>, log: seq<Call>, action: string)
    requires IsLog(u, steps, log) && !Pending(CellAt(Run(u, steps), action))
    requires forall other :: other in NamedIn(steps) && other != action ==> !Shares(u, other, action)
    ensures HeldAsTold(u, steps, log, action)
  {
    OwnPart(u, steps, log, action);
    OwnCallsLeave(u, steps, action);
  }

  // ---------------------------------------------------------------- actions that share a code

  lemma FailingVerdict(canceled: bool, p: Policy)
    requires canceled ==> p.cancelIsFault
    ensures var statuses := [if canceled then STATUS_CANCELED else STATUS_ABORTED];
            Verdict(statuses, p) == Failed && OnlyCanceled(statuses, p) == canceled
  {
    var statuses := [if canceled then STATUS_CANCELED else STATUS_ABORTED];
    assert Failing(statuses[0], p);
  }

  lemma OneStep(u: Setup, step: Step, action: string)
    ensures Run(u, [step]) == After(u, START, step)
    ensures ToldBy(u, [step], action) == Tell(u, {}, NOTHING, step, action)
    ensures NamedIn([step]) == NamedBy(step)
  {
    assert [step][..0] == [];
    assert Run(u, []) == START && ToldBy(u, [], action) == NOTHING && NamedIn([]) == {} && Watched([]) == {};
  }

  lemma OneCall(call: Call)
    ensures forall action :: For([call], action) == if action == call.action then [call.event] else []
    ensures Held([call]) == ActiveAfter({}, call.event)
  {
    assert [call][..0] == [];
    assert Held([]) == {} && forall action :: For([], action) == [];
  }

  function FailureOf(action: string, canceled: bool): Step {
    Status(action, [if canceled then STATUS_CANCELED else STATUS_ABORTED], true)
  }

  lemma FailureRaises(u: Setup, other: string, canceled: bool)
    requires canceled ==> u.policy.cancelIsFault
    ensures var b := After(u, START, FailureOf(other, canceled));
            && CellAt(b, other).log == [Raised(u.codeFor(other, canceled))]
            && forall a :: a != other ==> CellAt(b, a) == FRESH
  {
    FailingVerdict(canceled, u.policy);
  }

  lemma SingleLog(u: Setup, step: Step, call: Call)
    requires CellAt(After(u, START, step), call.action).log == [call.event]
    requires forall a :: a != call.action ==> CellAt(After(u, START, step), a) == FRESH
    ensures IsLog(u, [step], [call])
  {
    OneStep(u, step, call.action);
    OneCall(call);
    assert [step][..0] == [] && [call][..0] == [] && IsLog(u, [], []);
  }

  lemma SharedCode(u: Setup, other: string, action: string) returns (canceled: bool)
    requires Shares(u, other, action)
    ensures u.codeFor(other, canceled) in OwnCodes(u, action) && (canceled ==> u.policy.cancelIsFault)
  {
    var code :| code in OwnCodes(u, other) * OwnCodes(u, action);
    canceled := code != u.codeFor(other, false);
  }

  lemma NothingTold(u: Setup, action: string, other: string, canceled: bool)
    requires other != action && (canceled ==> u.policy.cancelIsFault)
    ensures var steps := [FailureOf(other, canceled)];
            && NamedIn(steps) == {other} && ToldBy(u, steps, action) == NOTHING
            && !Pending(CellAt(Run(u, steps), action))
  {
    OneStep(u, FailureOf(other, canceled), action);
    FailureRaises(u, other, canceled);
  }

  /** Another action's failure puts a shared code among the faults of an action nothing was said about. */
  lemma StrayFault(u: Setup, action: string, other: string) returns (steps: seq<Step>, log: seq<Call>)
    requires other != action && Shares(u, other, action)
    ensures NamedIn(steps) == {other} && IsLog(u, steps, log)
    ensures !Pending(CellAt(Run(u, steps), action)) && !HeldAsTold(u, steps, log, action)
  {
    var canceled := SharedCode(u, other, action);
    var status, call := FailureOf(other, canceled), Call(other, Raised(u.codeFor(other, canceled)));
    steps, log := [status], [call];
    FailureRaises(u, other, canceled);
    SingleLog(u, status, call);
    NothingTold(u, action, other, canceled);
    OneCall(call);
    assert call.event.code in Held(log) * OwnCodes(u, action);
  }

  /**
   Over a given set of actions, what the fault manager holds for one of them is as the steps say in every
   run exactly if none of the others shares a code with it.
   */
  lemma AlwaysHeldIff(u: Setup, names: set<string>, action: string)
    requires action in names
    ensures (forall steps, log :: NamedIn(steps) <= names && IsLog(u, steps, log) ==>
               Pending(CellAt(Run(u, steps), action)) || HeldAsTold(u, steps, log, action)) <==>
            forall other :: other in names && other != action ==> !Shares(u, other, action)
  {
    if other :| other in names && other != action && Shares(u, other, action) {
      var steps, log := StrayFault(u, action, other);
      assert NamedIn(steps) <= names && IsLog(u, steps, log);
    } else {
      forall steps, log | NamedIn(steps) <= names && IsLog(u, steps, log)
        ensures Pending(CellAt(Run(u, steps), action)) || HeldAsTold(u, steps, log, action)
      {
        if !Pending(CellAt(Run(u, steps), action)) {
          HeldExactly(u, steps, log, action);
        }
      }
    }
  }

  // ---------------------------------------------------------------- runs, step by step

  lemma TellMore(u: Setup, steps: seq<Step>, step: Step, action: string)
    ensures Run(u, steps + [step]) == After(u, Run(u, steps), step)
    ensures ToldBy(u, steps + [step], action) == Tell(u, Watched(steps), ToldBy(u, steps, action), step, action)
    ensures Watched(steps + [step]) == if step.Rescan? then step.present else Watched(steps)
    ensures NamedIn(steps + [step]) == NamedIn(steps) + NamedBy(step)
  {
    assert (steps + [step])[..|steps|] == steps;
  }

  lemma HeldMore(log: seq<Call>, call: Call)
    ensures Held(log + [call]) == ActiveAfter(Held(log), call.event)
  {
    assert (log + [call])[..|log|] == log;
  }

  lemma QuietStep(u: Setup, steps: seq<Step>, log: seq<Call>, step: Step)
    requires IsLog(u, steps, log)
    requires forall a :: CellAt(After(u, Run(u, steps), step), a).log == CellAt(Run(u, steps), a).log
    ensures IsLog(u, steps + [step], log)
  {
    assert log + [] == log;
    LogExtends(u, steps, step, log, []);
  }

  /** A message whose delivery goes out at once. */
  lemma CallingStep(u: Setup, steps: seq<Step>, log: seq<Call>, action: string, statuses: seq<int>, e: Event)
    requires IsLog(u, steps, log)
    requires CellAt(After(u, Run(u, steps), Status(action, statuses, true)), action).log ==
             CellAt(Run(u, steps), action).log + [e]
    ensures IsLog(u, steps + [Status(action, statuses, true)], log + [Call(action, e)])
  {
    var after := After(u, Run(u, steps), Status(action, statuses, true));
    forall a ensures For(log + [Call(action, e)], a) == CellAt(after, a).log {
      ForSnoc(log, Call(action, e), a);
      assert For(log, a) == CellAt(Run(u, steps), a).log;
    }
    LogExtends(u, steps, Status(action, statuses, true), log, [Call(action, e)]);
  }

  // ---------------------------------------------------------------- every run has a log

  lemma {:induction false} ForConcat(a: seq<Call>, b: seq<Call>, action: string)
    ensures For(a + b, action) == For(a, action) + For(b, action)
  {
    if b == [] {
      assert a + b == a;
    } else {
      var init, last := b[..|b| - 1], b[|b| - 1];
      ForConcat(a, init, action);
      assert a + b == (a + init) + [last];
      ForSnoc(a + init, last, action);
    }
  }

  function Tagged(action: string, events: seq<Event>): seq<Call> {
    if events == [] then [] else Tagged(action, events[..|events| - 1]) + [Call(action, events[|events| - 1])]
  }

  lemma {:induction false} ForTagged(action: string, events: seq<Event>, a: string)
    ensures For(Tagged(action, events), a) == if a == action then events else []
  {
    if events == [] {
    } else {
      var init, last := events[..|events| - 1], events[|events| - 1];
      ForTagged(action, init, a);
      ForSnoc(Tagged(action, init), Call(action, last), a);
    }
  }

  lemma OneMoreListed(rest: seq<Call>, action: string, events: seq<Event>, a: string)
    requires For(rest, action) == []
    ensures For(rest + Tagged(action, events), a) == if a == action then events else For(rest, a)
  {
    ForConcat(rest, Tagged(action, events), a);
    ForTagged(action, events, a);
  }

  lemma {:induction false} Listed(keys: set<string>, grown: map<string, seq<Event>>) returns (more: seq<Call>)
    requires keys <= grown.Keys
    ensures forall a :: For(more, a) == if a in keys then grown[a] else []
    decreases |keys|
  {
    if keys == {} {
      more := [];
    } else {
      var action :| action in keys;
      var rest := Listed(keys - {action}, grown);
      more := rest + Tagged(action, grown[action]);
      forall a ensures For(more, a) == if a in keys then grown[a] else [] {
        OneMoreListed(rest, action, grown[action], a);
      }
    }
  }

  lemma LogGrows(u: Setup, b: Bridge, step: Step, action: string)
    ensures CellAt(b, action).log <= CellAt(After(u, b, step), action).log
    ensures action !in After(u, b, step).cells ==> CellAt(b, action).log == []
  {
    match step {
      case Status(_, _, _) =>
      case Retry(ready) => RetryCellAt(u, b.cells, ready, action);
      case Rescan(present, readyToPrune, readyAfter) =>
        var kept := PrunedCells(u, b.cells, b.watched - present, readyToPrune);
        PruneCellAt(u, b.cells, b.watched - present, readyToPrune, action);
        RetryCellAt(u, kept, readyAfter, action);
    }
  }

  /** Every run has a log. */
  lemma {:induction false} LogExists(u: Setup, steps: seq<Step>) returns (log: seq<Call>)
    ensures IsLog(u, steps, log)
  {
    if steps == [] {
      log := [];
    } else {
      var init, step := steps[..|steps| - 1], steps[|steps| - 1];
      var before := LogExists(u, init);
      var more := StepCalls(u, Run(u, init), step, before);
      assert init + [step] == steps;
      LogExtends(u, init, step, before, more);
      log := before + more;
    }
  }

  /** What a step appended to the log of an action. */
  function Growth(before: Bridge, after: Bridge, action: string): seq<Event> {
    var was, now := CellAt(before, action).log, CellAt(after, action).log;
    if was <= now then now[|was|..] else []
  }

  lemma GrowthAppends(u: Setup, b: Bridge, step: Step, log: seq<Call>, more: seq<Call>, action: string)
    requires For(log, action) == CellAt(b, action).log
    requires For(more, action) == Growth(b, After(u, b, step), action)
    ensures For(log + more, action) == CellAt(After(u, b, step), action).log
  {
    LogGrows(u, b, step, action);
    ForConcat(log, more, action);
  }

  lemma NoGrowth(u: Setup, b: Bridge, step: Step, action: string)
    requires action !in After(u, b, step).cells
    ensures Growth(b, After(u, b, step), action) == []
  {
    LogGrows(u, b, step, action);
  }

  lemma StepCalls(u: Setup, b: Bridge, step: Step, log: seq<Call>) returns (more: seq<Call>)
    requires Orders(b, log)
    ensures Orders(After(u, b, step), log + more)
  {
    var after := After(u, b, step);
    var grown := map a | a in after.cells :: Growth(b, after, a);
    more := Listed(after.cells.Keys, grown);
    forall a ensures For(log + more, a) == CellAt(after, a).log {
      assert For(log, a) == CellAt(b, a).log;
      if a !in after.cells {
        NoGrowth(u, b, step, a);
      }
      GrowthAppends(u, b, step, log, more, a);
    }
  }

  // ---------------------------------------------------------------- a fault nobody calls for, and one nobody sees

  /** An action that fails and vanishes while the service is away. */
  function Away(action: string): seq<Step> {
    [Rescan({action}, {}, {})] + [FailureOf(action, false)] + [Rescan({}, {}, {})]
  }

  /** It then comes back and succeeds. */
  function AwayAndBack(action: string): seq<Step> {
    Away(action) + [Rescan({action}, {}, {})] + [Status(action, [STATUS_SUCCEEDED], true)]
  }

  lemma SuccessVerdict(p: Policy)
    ensures Verdict([STATUS_SUCCEEDED], p) == Healthy
  {
    assert STATUS_SUCCEEDED <= [STATUS_SUCCEEDED][0] <= STATUS_ABORTED;
  }

  lemma AwayTells(u: Setup, action: string)
    requires u.policy.healOnSucceeded
    ensures ToldBy(u, Away(action), action) == Told(Unknown, Healthy, true)
    ensures Watched(Away(action)) == {} && NamedIn(Away(action)) == {action}
  {
    var first: seq<Step> := [Rescan({action}, {}, {})];
    FailingVerdict(false, u.policy);
    OneStep(u, first[0], action);
    assert first[..0] == [] && Watched(first) == {action};
    TellMore(u, first, FailureOf(action, false), action);
    TellMore(u, first + [FailureOf(action, false)], Rescan({}, {}, {}), action);
  }

  lemma AwayAndBackTells(u: Setup, action: string)
    requires u.policy.healOnSucceeded
    ensures ToldBy(u, AwayAndBack(action), action) == Told(Healthy, Healthy, true)
    ensures NamedIn(AwayAndBack(action)) == {action}
  {
    AwayTells(u, action);
    SuccessVerdict(u.policy);
    TellMore(u, Away(action), Rescan({action}, {}, {}), action);
    TellMore(u, Away(action) + [Rescan({action}, {}, {})], Status(action, [STATUS_SUCCEEDED], true), action);
  }

  /** In that run nothing is pending, the messages call for no fault, and the fault manager still holds one. */
  lemma ForgottenFaultStaysActive(u: Setup, action: string, log: seq<Call>)
    requires u.policy.healOnSucceeded && IsLog(u, AwayAndBack(action), log)
    ensures !Pending(CellAt(Run(u, AwayAndBack(action)), action))
    ensures ToldBy(u, AwayAndBack(action), action).wanted == Healthy && Held(log) * OwnCodes(u, action) != {}
  {
    AwayAndBackTells(u, action);
    StateIsTold(u, AwayAndBack(action), action);
    HeldExactly(u, AwayAndBack(action), log, action);
  }

  lemma AbortRaises(u: Setup, b: Bridge, action: string)
    requires ReportedNet(CellAt(b, action)) == Healthy
    ensures var after := CellAt(After(u, b, FailureOf(action, false)), action);
            && after.log == CellAt(b, action).log + [Raised(u.codeFor(action, false))]
            && ReportedNet(after) == Failed && DesiredNet(after) == Failed
  {
    FailingVerdict(false, u.policy);
  }

  lemma SuccessHeals(u: Setup, b: Bridge, action: string)
    requires ReportedNet(CellAt(b, action)) == Failed && u.policy.healOnSucceeded
    ensures var after := CellAt(After(u, b, Status(action, [STATUS_SUCCEEDED], true)), action);
            after.log == CellAt(b, action).log + [Healed(HealCodes(CodesOf(u, action), u.policy))]
  {
    SuccessVerdict(u.policy);
  }

  /** Two actions with one code both fail, then the second succeeds. */
  function TwoFailOneHeals(a: string, b: string): seq<Step> {
    [Rescan({a, b}, {}, {})] + [FailureOf(a, false)] + [FailureOf(b, false)] + [Status(b, [STATUS_SUCCEEDED], true)]
  }

  /**
   In that run nothing is pending for the first action and its messages call for a fault, but the heal of
   the second has taken the shared code, and the fault manager holds nothing.
   */
  lemma SharedCodeHidesFault(u: Setup, a: string, b: string) returns (log: seq<Call>)
    requires a != b && u.policy.healOnSucceeded && u.codeFor(a, false) == u.codeFor(b, false)
    ensures IsLog(u, TwoFailOneHeals(a, b), log)
    ensures !Pending(CellAt(Run(u, TwoFailOneHeals(a, b)), a)) && ToldBy(u, TwoFailOneHeals(a, b), a).wanted == Failed
    ensures Held(log) == {}
  {
    var code, success := u.codeFor(a, false), Status(b, [STATUS_SUCCEEDED], true);
    var s0: seq<Step> := [Rescan({a, b}, {}, {})];
    var s1, s2 := s0 + [FailureOf(a, false)], s0 + [FailureOf(a, false)] + [FailureOf(b, false)];
    var healed := Healed(HealCodes(CodesOf(u, b), u.policy));
    OneStep(u, s0[0], a);
    assert Run(u, s0).cells == map[];
    var l0 := LogExists(u, s0);
    assert l0 == [] by { NothingSent(u, s0, l0); }
    AbortRaises(u, Run(u, s0), a);
    CallingStep(u, s0, l0, a, [STATUS_ABORTED], Raised(code));
    TellMore(u, s0, FailureOf(a, false), a);
    var l1 := l0 + [Call(a, Raised(code))];
    HeldMore(l0, Call(a, Raised(code)));
    AbortRaises(u, Run(u, s1), b);
    CallingStep(u, s1, l1, b, [STATUS_ABORTED], Raised(code));
    TellMore(u, s1, FailureOf(b, false), a);
    var l2 := l1 + [Call(b, Raised(code))];
    HeldMore(l1, Call(b, Raised(code)));
    SuccessHeals(u, Run(u, s2), b);
    CallingStep(u, s2, l2, b, [STATUS_SUCCEEDED], healed);
    TellMore(u, s2, success, a);
    log := l2 + [Call(b, healed)];
    HeldMore(l2, Call(b, healed));
    FailingVerdict(false, u.policy);
    StateIsTold(u, s2 + [success], a);
  }

  lemma NothingSent(u: Setup, steps: seq<Step>, log: seq<Call>)
    requires IsLog(u, steps, log) && Run(u, steps).cells == map[]
    ensures log == []
  {
    if log != [] {
      CallIsSent(log, 0);
    }
  }

  // ---------------------------------------------------------------- the codes the bridge generates

  function Generated(p: Policy, prefix: string, hash: string -> nat): Setup
    requires FaultCodes.UsablePrefix(prefix)
  {
    Setup(p, (action, canceled) => if FaultCodes.UsablePrefix(prefix)
                                   then FaultCodes.CodeOf(prefix, action, canceled, hash) else "")
  }

  /**
   With the bridge's own codes two actions share one exactly if their names normalise alike, are cut to the
   same stem with the same sixteen bits of hash, or one spells out what the other is cut to.
   */
  lemma GeneratedShareIff(p: Policy, prefix: string, hash: string -> nat, a: string, b: string)
    requires FaultCodes.UsablePrefix(prefix)
    ensures var f, g, n := FaultCodes.Normalised(a), FaultCodes.Normalised(b), FaultCodes.ActionBudget(prefix);
            Shares(Generated(p, prefix, hash), a, b) <==>
            || f == g
            || FaultCodes.SameCut(f, g, n, hash)
            || FaultCodes.LooksCut(f, g, n, hash)
            || FaultCodes.LooksCut(g, f, n, hash)
  {
    var u := Generated(p, prefix, hash);
    FaultCodes.SamePartIff(a, b, FaultCodes.ActionBudget(prefix), hash);
    forall x, y ensures u.codeFor(a, x) == u.codeFor(b, y) <==> x == y && FaultCodes.SamePart(prefix, a, b, hash) {
      FaultCodes.SameCodeIff(prefix, a, x, b, y, hash);
    }
    if FaultCodes.SamePart(prefix, a, b, hash) {
      assert u.codeFor(a, false) in OwnCodes(u, a) * OwnCodes(u, b);
    } else if Shares(u, a, b) {
      var x := SharedCode(u, a, b);
    }
  }

  /** Two action names that differ only in a separator or in case share a code, and one can hide the other's fault. */
  lemma SpellingHidesFault(p: Policy, prefix: string, hash: string -> nat, a: string, i: nat, c: char)
    returns (log: seq<Call>)
    requires FaultCodes.UsablePrefix(prefix) && p.healOnSucceeded
    requires i < |a| && FaultCodes.Alike(a[i], c) && c != a[i]
    ensures var u, b := Generated(p, prefix, hash), a[i := c];
            && IsLog(u, TwoFailOneHeals(a, b), log)
            && !Pending(CellAt(Run(u, TwoFailOneHeals(a, b)), a))
            && ToldBy(u, TwoFailOneHeals(a, b), a).wanted == Failed && Held(log) == {}
  {
    var b := a[i := c];
    assert a[i] != b[i];
    FaultCodes.SpelledAlike(a, i, c);
    log := SharedCodeHidesFault(Generated(p, prefix, hash), a, b);
  }
}
