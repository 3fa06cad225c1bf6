/**
 The action status bridge: action goal statuses become raised and healed faults, delivered to a fault
 manager service that is not always there. Callbacks run one at a time (single-threaded executor).
 */
module ActionBridge {
  import opened Basics

  datatype Net = Unknown | Healthy | Failed

  /** `canceled` says that only CANCELED goals made the action fail. */
  datatype Desired = Desired(net: Net, canceled: bool)

  datatype Policy = Policy(cancelIsFault: bool, healOnSucceeded: bool)

  /** What leaves the bridge for one action, and where the bridge forgets the action. */
  datatype Event = Raised(code: string) | Healed(codes: seq<string>) | Dropped

  /** One call of the bridge to the fault manager, or the moment it forgets an action. */
  datatype Call = Call(action: string, event: Event)

  /** The part of an ordered log that concerns one action. */
  function For(log: seq<Call>, action: string): seq<Event> {
    if log == [] then []
    else
      var last := log[|log| - 1];
      For(log[..|log| - 1], action) + (if last.action == action then [last.event] else [])
  }

  lemma ForSnoc(log: seq<Call>, call: Call, action: string)
    ensures For(log + [call], action) == For(log, action) + (if call.action == action then [call.event] else [])
  {
    assert (log + [call])[..|log|] == log;
  }

  /** The fault codes of one action, by whether the failure is a cancellation. */
  type Codes = bool -> string

  const STATUS_SUCCEEDED := 4
  const STATUS_CANCELED := 5
  const STATUS_ABORTED := 6

  // ---------------------------------------------------------------- verdict of a status message

  predicate Failing(status: int, p: Policy) {
    status == STATUS_ABORTED || (status == STATUS_CANCELED && p.cancelIsFault)
  }

  predicate AnyFailing(statuses: seq<int>, p: Policy) {
    exists i :: 0 <= i < |statuses| && Failing(statuses[i], p)
  }

  predicate AnyTerminal(statuses: seq<int>) {
    exists i :: 0 <= i < |statuses| && STATUS_SUCCEEDED <= statuses[i] <= STATUS_ABORTED
  }

  function Verdict(statuses: seq<int>, p: Policy): Net {
    if AnyFailing(statuses, p) then Failed else if AnyTerminal(statuses) then Healthy else Unknown
  }

  predicate OnlyCanceled(statuses: seq<int>, p: Policy) {
    STATUS_ABORTED !in statuses && STATUS_CANCELED in statuses && p.cancelIsFault
  }

  /**
   What a status list says, in terms of which goals it holds: 6 is an aborted goal, 5 a canceled and 4 a
   succeeded one. Neither order nor number matters.
   */
  lemma VerdictByMembers(statuses: seq<int>, p: Policy)
    ensures Verdict(statuses, p) == Failed <==> 6 in statuses || (5 in statuses && p.cancelIsFault)
    ensures Verdict(statuses, p) == Healthy <==>
            && 6 !in statuses
            && (if p.cancelIsFault then 5 !in statuses && 4 in statuses else 4 in statuses || 5 in statuses)
    ensures OnlyCanceled(statuses, p) <==> Verdict(statuses, p) == Failed && 6 !in statuses
  {
    if 6 in statuses || 5 in statuses || 4 in statuses {
      var x := if 6 in statuses then 6 else if 5 in statuses then 5 else 4;
      var i :| 0 <= i < |statuses| && statuses[i] == x;
      assert Failing(statuses[i], p) <==> x == 6 || (x == 5 && p.cancelIsFault);
      assert STATUS_SUCCEEDED <= statuses[i] <= STATUS_ABORTED;
    }
  }

  method DeriveState(statuses: seq<int>, p: Policy) returns (net: Net)
    ensures net == Verdict(statuses, p)
  {
    var anyTerminal := false;
    for i := 0 to |statuses|
      invariant forall j :: 0 <= j < i ==> !Failing(statuses[j], p)
      invariant anyTerminal <==> exists j :: 0 <= j < i && STATUS_SUCCEEDED <= statuses[j] <= STATUS_ABORTED
    {
      if Failing(statuses[i], p) {
        return Failed;
      }
      if statuses[i] == STATUS_SUCCEEDED || statuses[i] == STATUS_CANCELED {
        anyTerminal := true;
      }
    }
    net := if anyTerminal then Healthy else Unknown;
  }

  method DescribeFailureIsCancel(statuses: seq<int>, p: Policy) returns (canceled: bool)
    ensures canceled == OnlyCanceled(statuses, p)
  {
    canceled := false;
    for i := 0 to |statuses|
      invariant STATUS_ABORTED !in statuses[..i]
      invariant canceled == (STATUS_CANCELED in statuses[..i] && p.cancelIsFault)
    {
      if statuses[i] == STATUS_ABORTED {
        return false;
      }
      if statuses[i] == STATUS_CANCELED && p.cancelIsFault {
        canceled := true;
      }
    }
  }

  // ---------------------------------------------------------------- one action, on values

  /** Everything the bridge knows about one action, and what it has sent for it. */
  datatype Cell = Cell(desired: Option<Desired>, reported: Option<Net>, hasReporter: bool, log: seq<Event>)

  const FRESH := Cell(None, None, false, [])

  /** An action that was never reported counts as healthy. */
  function ReportedNet(c: Cell): Net {
    if c.reported.Some? then c.reported.value else Healthy
  }

  function DesiredNet(c: Cell): Net {
    if c.desired.Some? then c.desired.value.net else Unknown
  }

  predicate Pending(c: Cell) {
    DesiredNet(c) != Unknown && DesiredNet(c) != ReportedNet(c)
  }

  /** The desired state after a message; a success while healing is disabled leaves it as it was. */
  function Observed(c: Cell, statuses: seq<int>, p: Policy): Cell {
    var before := if c.desired.Some? then c.desired.value else Desired(Unknown, false);
    match Verdict(statuses, p)
    case Unknown => c
    case Failed => c.(desired := Some(Desired(Failed, OnlyCanceled(statuses, p))))
    case Healthy => c.(desired := Some(if p.healOnSucceeded then before.(net := Healthy) else before))
  }

  function HealCodes(codes: Codes, p: Policy): seq<string> {
    if p.cancelIsFault then [codes(false), codes(true)] else [codes(false)]
  }

  function Reconciled(c: Cell, ready: bool, codes: Codes, p: Policy): Cell {
    if !Pending(c) || !ready then c
    else if DesiredNet(c) == Failed then
      c.(reported := Some(Failed), log := c.log + [Raised(codes(c.desired.value.canceled))])
    else c.(reported := Some(Healthy), log := c.log + [Healed(HealCodes(codes, p))])
  }

  /** The retry pass creates a reporter only for an action with something to deliver. */
  function Retried(c: Cell, ready: bool, codes: Codes, p: Policy): Cell {
    if Pending(c) then Reconciled(c.(hasReporter := true), ready, codes, p) else c
  }

  function PrunedLog(c: Cell, ready: bool, codes: Codes, p: Policy): seq<Event> {
    var heals := c.reported == Some(Failed) && p.healOnSucceeded && c.hasReporter && ready;
    (if heals then c.log + [Healed(HealCodes(codes, p))] else c.log) + [Dropped]
  }

  function Pruned(c: Cell, ready: bool, codes: Codes, p: Policy): Cell {
    Cell(None, None, false, PrunedLog(c, ready, codes, p))
  }

  // ---------------------------------------------------------------- what one action's log keeps

  /** A raise never follows a raise, and a heal directly follows a raise whose code it covers. */
  predicate InTurn(log: seq<Event>, j: nat)
    requires j < |log|
  {
    match log[j]
    case Raised(_) => j == 0 || !log[j - 1].Raised?
    case Healed(codes) => j > 0 && log[j - 1].Raised? && log[j - 1].code in codes
    case Dropped => true
  }

  predicate Alternates(log: seq<Event>) {
    forall j :: 0 <= j < |log| ==> InTurn(log, j)
  }

  /** The last thing sent since the action was last forgotten is a raise. */
  predicate FaultOpen(log: seq<Event>) {
    log != [] && log[|log| - 1].Raised?
  }

  predicate CellOk(c: Cell, codes: Codes, p: Policy) {
    && Alternates(c.log)
    && (FaultOpen(c.log) <==> ReportedNet(c) == Failed)
    && (FaultOpen(c.log) ==> c.log[|c.log| - 1].code in HealCodes(codes, p))
    && (ReportedNet(c) == Failed ==> c.hasReporter && DesiredNet(c) != Unknown)
    && ReportedNet(c) != Unknown
    && (c.desired.Some? && c.desired.value.canceled ==> p.cancelIsFault)
  }

  lemma AlternatesAppend(log: seq<Event>, e: Event)
    requires Alternates(log) && InTurn(log + [e], |log|)
    ensures Alternates(log + [e])
  {
    forall j | 0 <= j < |log + [e]| ensures InTurn(log + [e], j) {
      if j < |log| {
        assert InTurn(log, j);
      }
    }
  }

  lemma ObservedOk(c: Cell, statuses: seq<int>, codes: Codes, p: Policy)
    requires CellOk(c, codes, p)
    ensures CellOk(Observed(c, statuses, p), codes, p)
  {
  }

  lemma ReconciledOk(c: Cell, ready: bool, codes: Codes, p: Policy)
    requires CellOk(c, codes, p) && c.hasReporter
    ensures CellOk(Reconciled(c, ready, codes, p), codes, p)
    ensures ready ==> !Pending(Reconciled(c, ready, codes, p))
  {
    if Pending(c) && ready {
      AlternatesAppend(c.log, if DesiredNet(c) == Failed then Raised(codes(c.desired.value.canceled))
                              else Healed(HealCodes(codes, p)));
    }
  }

  lemma RetriedOk(c: Cell, ready: bool, codes: Codes, p: Policy)
    requires CellOk(c, codes, p)
    ensures CellOk(Retried(c, ready, codes, p), codes, p)
    ensures ready ==> !Pending(Retried(c, ready, codes, p))
  {
    if Pending(c) {
      ReconciledOk(c.(hasReporter := true), ready, codes, p);
    }
  }

  /**
   Forgetting an action keeps its log in turn, and leaves the raise as the last thing sent for it
   exactly when the action was last reported failed and its heal is disabled or cannot be delivered now.
   */
  lemma PrunedOk(c: Cell, ready: bool, codes: Codes, p: Policy)
    requires CellOk(c, codes, p)
    ensures var after := Pruned(c, ready, codes, p);
            && CellOk(after, codes, p)
            && after.log[|after.log| - 1] == Dropped
            && (FaultOpen(after.log[..|after.log| - 1]) <==> ReportedNet(c) == Failed && !(p.healOnSucceeded && ready))
  {
    if ReportedNet(c) == Failed && p.healOnSucceeded && ready {
      var healed := c.log + [Healed(HealCodes(codes, p))];
      AlternatesAppend(c.log, Healed(HealCodes(codes, p)));
      AlternatesAppend(healed, Dropped);
      assert (healed + [Dropped])[..|healed|] == healed;
    } else {
      AlternatesAppend(c.log, Dropped);
      assert (c.log + [Dropped])[..|c.log|] == c.log;
    }
  }

  // ---------------------------------------------------------------- the bridge, on values

  /** `watched` are the actions with a subscription, `armed` the retry timer. */
  datatype Bridge = Bridge(cells: map<string, Cell>, watched: set<string>, armed: bool)

  const START := Bridge(map[], {}, false)

  /** The callbacks; `ready` says for which actions the reporter sees the fault manager service. */
  datatype Step =
    | Status(action: string, statuses: seq<int>, service: bool)
    | Retry(ready: set<string>)
    | Rescan(present: set<string>, readyToPrune: set<string>, readyAfter: set<string>)

  /** What stays fixed in a run: the parameters and the code generator. */
  datatype Setup = Setup(policy: Policy, codeFor: (string, bool) -> string)

  function CodesOf(u: Setup, action: string): Codes {
    canceled => u.codeFor(action, canceled)
  }

  function CellIn(cells: map<string, Cell>, action: string): Cell {
    if action in cells then cells[action] else FRESH
  }

  function CellAt(b: Bridge, action: string): Cell {
    CellIn(b.cells, action)
  }

  predicate AnyPending(cells: map<string, Cell>) {
    exists action :: action in cells && Pending(cells[action])
  }

  function TimerUpdated(b: Bridge): Bridge {
    b.(armed := AnyPending(b.cells))
  }

  function StatusCell(c: Cell, statuses: seq<int>, ready: bool, codes: Codes, p: Policy): Cell {
    var withReporter := c.(hasReporter := true);
    if Verdict(statuses, p) == Unknown then withReporter
    else Reconciled(Observed(withReporter, statuses, p), ready, codes, p)
  }

  function RetriedCells(u: Setup, cells: map<string, Cell>, ready: set<string>): map<string, Cell> {
    map action | action in cells :: Retried(cells[action], action in ready, CodesOf(u, action), u.policy)
  }

  function PrunedCells(u: Setup, cells: map<string, Cell>, gone: set<string>, ready: set<string>): map<string, Cell> {
    map action | action in cells.Keys + gone ::
      if action in gone then Pruned(CellIn(cells, action), action in ready, CodesOf(u, action), u.policy)
      else CellIn(cells, action)
  }

  /** The retry pass after it has handled `done`. */
  ghost function RetriedSome(u: Setup, cells: map<string, Cell>, done: set<string>, ready: set<string>)
    : map<string, Cell>
  {
    map action | action in cells ::
      if action in done then Retried(cells[action], action in ready, CodesOf(u, action), u.policy) else cells[action]
  }

  lemma RetryNone(u: Setup, cells: map<string, Cell>, ready: set<string>)
    ensures RetriedSome(u, cells, {}, ready) == cells
  {
  }

  lemma RetryOneMore(u: Setup, cells: map<string, Cell>, done: set<string>, ready: set<string>, action: string)
    requires action in cells && action !in done
    ensures var so := RetriedSome(u, cells, done, ready);
            && so[action] == cells[action]
            && RetriedSome(u, cells, done + {action}, ready) ==
               so[action := Retried(cells[action], action in ready, CodesOf(u, action), u.policy)]
  {
  }

  lemma RetryPending(u: Setup, cells: map<string, Cell>, pending: set<string>, ready: set<string>)
    requires forall action :: action in pending <==> action in cells && Pending(cells[action])
    ensures RetriedSome(u, cells, pending, ready) == RetriedCells(u, cells, ready)
  {
  }

  lemma PruneNone(u: Setup, cells: map<string, Cell>, ready: set<string>)
    ensures PrunedCells(u, cells, {}, ready) == cells
  {
  }

  lemma PruneOneMore(u: Setup, cells: map<string, Cell>, gone: set<string>, ready: set<string>, action: string)
    requires action !in gone
    ensures var so := PrunedCells(u, cells, gone, ready);
            PrunedCells(u, cells, gone + {action}, ready) ==
            so[action := Pruned(CellIn(so, action), action in ready, CodesOf(u, action), u.policy)]
  {
    assert cells.Keys + (gone + {action}) == (cells.Keys + gone) + {action};
  }

  function After(u: Setup, b: Bridge, step: Step): Bridge {
    match step
    case Status(action, statuses, service) =>
      var cell := StatusCell(CellAt(b, action), statuses, service, CodesOf(u, action), u.policy);
      var next := b.(cells := b.cells[action := cell]);
      if Verdict(statuses, u.policy) == Unknown then next else TimerUpdated(next)
    case Retry(ready) => TimerUpdated(b.(cells := RetriedCells(u, b.cells, ready)))
    case Rescan(present, readyToPrune, readyAfter) =>
      var kept := PrunedCells(u, b.cells, b.watched - present, readyToPrune);
      TimerUpdated(Bridge(RetriedCells(u, kept, readyAfter), present, b.armed))
  }

  function Run(u: Setup, steps: seq<Step>): Bridge {
    if steps == [] then START else After(u, Run(u, steps[..|steps| - 1]), steps[|steps| - 1])
  }

  // ---------------------------------------------------------------- every run

  ghost predicate BridgeOk(u: Setup, b: Bridge) {
    && (forall action :: action in b.cells ==> CellOk(b.cells[action], CodesOf(u, action), u.policy))
    && (b.armed <==> exists action :: action in b.cells && Pending(b.cells[action]))
  }

  lemma StatusCellOk(c: Cell, statuses: seq<int>, ready: bool, codes: Codes, p: Policy)
    requires CellOk(c, codes, p)
    ensures CellOk(StatusCell(c, statuses, ready, codes, p), codes, p)
    ensures ready && Verdict(statuses, p) != Unknown ==> !Pending(StatusCell(c, statuses, ready, codes, p))
    ensures Verdict(statuses, p) == Unknown ==> Pending(StatusCell(c, statuses, ready, codes, p)) == Pending(c)
  {
    var withReporter := c.(hasReporter := true);
    if Verdict(statuses, p) != Unknown {
      ObservedOk(withReporter, statuses, codes, p);
      ReconciledOk(Observed(withReporter, statuses, p), ready, codes, p);
    }
  }

  lemma StatusOk(u: Setup, b: Bridge, action: string, statuses: seq<int>, service: bool)
    requires BridgeOk(u, b)
    ensures BridgeOk(u, After(u, b, Status(action, statuses, service)))
  {
    var next := After(u, b, Status(action, statuses, service));
    var codes := CodesOf(u, action);
    StatusCellOk(CellAt(b, action), statuses, service, codes, u.policy);
    if Verdict(statuses, u.policy) == Unknown {
      if a :| a in b.cells && Pending(b.cells[a]) {
        assert Pending(next.cells[a]);
      }
      if a :| a in next.cells && Pending(next.cells[a]) {
        assert Pending(CellAt(b, a));
      }
    }
  }

  lemma RetriedCellsOk(u: Setup, cells: map<string, Cell>, ready: set<string>)
    requires forall action :: action in cells ==> CellOk(cells[action], CodesOf(u, action), u.policy)
    ensures var after := RetriedCells(u, cells, ready);
            forall action :: action in after ==> CellOk(after[action], CodesOf(u, action), u.policy)
  {
    forall action | action in cells
      ensures CellOk(RetriedCells(u, cells, ready)[action], CodesOf(u, action), u.policy)
    {
      RetriedOk(cells[action], action in ready, CodesOf(u, action), u.policy);
    }
  }

  lemma PrunedCellsOk(u: Setup, cells: map<string, Cell>, gone: set<string>, ready: set<string>)
    requires forall action :: action in cells ==> CellOk(cells[action], CodesOf(u, action), u.policy)
    ensures var after := PrunedCells(u, cells, gone, ready);
            forall action :: action in after ==> CellOk(after[action], CodesOf(u, action), u.policy)
  {
    forall action | action in cells.Keys + gone
      ensures CellOk(PrunedCells(u, cells, gone, ready)[action], CodesOf(u, action), u.policy)
    {
      PrunedOk(CellIn(cells, action), action in ready, CodesOf(u, action), u.policy);
    }
  }

  /**
   In every run, at the end of every callback: between two forgettings of an action its deliveries
   alternate between a raise and a heal of that raise, starting with a raise, and the retry timer is
   armed exactly when some action's desired state is not the reported one.
   */
  lemma {:induction false} RunsAlternate(u: Setup, steps: seq<Step>)
    ensures BridgeOk(u, Run(u, steps))
  {
    if steps == [] {
    } else {
      var before := steps[..|steps| - 1];
      RunsAlternate(u, before);
      var b := Run(u, before);
      match steps[|steps| - 1] {
        case Status(action, statuses, service) => StatusOk(u, b, action, statuses, service);
        case Retry(ready) => RetriedCellsOk(u, b.cells, ready);
        case Rescan(present, readyToPrune, readyAfter) =>
          PrunedCellsOk(u, b.cells, b.watched - present, readyToPrune);
          RetriedCellsOk(u, PrunedCells(u, b.cells, b.watched - present, readyToPrune), readyAfter);
      }
    }
  }

  /** One pass with the service ready for every action leaves nothing pending and the timer disarmed. */
  lemma ReadyPassDrains(u: Setup, b: Bridge, ready: set<string>)
    requires BridgeOk(u, b) && b.cells.Keys <= ready
    ensures var after := After(u, b, Retry(ready));
            !AnyPending(after.cells) && !after.armed
  {
    forall action | action in b.cells
      ensures !Pending(RetriedCells(u, b.cells, ready)[action])
    {
      RetriedOk(b.cells[action], true, CodesOf(u, action), u.policy);
    }
  }
}
