/** The action status bridge with its maps updated in place, proved against the bridge on values. */
module ActionBridgeNode {
  import opened Basics
  import opened ActionBridge

  function DeliveryOf(u: Setup, action: string, desired: Desired): Event {
    if desired.net == Failed then Raised(u.codeFor(action, desired.canceled))
    else Healed(HealCodes(CodesOf(u, action), u.policy))
  }

  class ActionStatusBridge {
    var desired: map<string, Desired>
    var reported: map<string, Net>
    var reporters: set<string>
    var subs: set<string>
    var armed: bool
    /** The calls made to the fault manager service, in the order they were made. */
    var sent: seq<Call>
    const setup: Setup

    /** The same maps, by action. */
    ghost var cells: map<string, Cell>

    function SentFor(action: string): seq<Event>
      reads this`sent
    {
      For(sent, action)
    }

    ghost predicate CellMatches(action: string)
      reads this
    {
      CellIn(cells, action) ==
      Cell(if action in desired then Some(desired[action]) else None,
           if action in reported then Some(reported[action]) else None,
           action in reporters,
           SentFor(action))
    }

    ghost predicate Valid()
      reads this
    {
      forall action :: CellMatches(action)
    }

    ghost function Model(): Bridge
      reads this
    {
      Bridge(cells, subs, armed)
    }

    constructor (setup: Setup)
      ensures Valid() && this.setup == setup && Model() == START
    {
      this.setup := setup;
      desired, reported, reporters, subs, armed, sent := map[], map[], {}, {}, false, [];
      cells := map[];
    }

    predicate IsPending(action: string)
      reads this
    {
      && action in desired
      && desired[action].net != Unknown
      && desired[action].net != (if action in reported then reported[action] else Healthy)
    }

    lemma IsPendingMeans(action: string)
      requires Valid()
      ensures IsPending(action) == Pending(CellIn(cells, action))
      ensures IsPending(action) ==> action in cells
      ensures action in desired ==> action in cells
    {
      assert CellMatches(action);
    }

    method Send(action: string, e: Event)
      modifies this`sent
      ensures old(sent) <= sent
      ensures SentFor(action) == old(SentFor(action)) + [e]
      ensures forall a :: a != action ==> SentFor(a) == old(SentFor(a))
    {
      var more := sent + [Call(action, e)];
      forall a ensures For(more, a) == if a == action then For(sent, a) + [e] else For(sent, a) {
        ForSnoc(sent, Call(action, e), a);
      }
      sent := more;
    }

    method SendHeal(action: string)
      modifies this`sent
      ensures old(sent) <= sent
      ensures SentFor(action) == old(SentFor(action)) + [Healed(HealCodes(CodesOf(setup, action), setup.policy))]
      ensures forall a :: a != action ==> SentFor(a) == old(SentFor(a))
    {
      var healed := [setup.codeFor(action, false)];
      if setup.policy.cancelIsFault {
        healed := healed + [setup.codeFor(action, true)];
      }
      assert healed == HealCodes(CodesOf(setup, action), setup.policy);
      Send(action, Healed(healed));
    }

    /** `cells` follows a change that touches only the maps' entries for `action`. */
    twostate lemma OnlyTouched(action: string)
      requires old(Valid()) && CellMatches(action)
      requires forall a :: a != action ==> CellIn(cells, a) == old(CellIn(cells, a))
      requires forall a :: a != action ==> (a in desired <==> a in old(desired))
      requires forall a :: a != action ==> (a in reported <==> a in old(reported))
      requires forall a :: a != action && a in desired ==> desired[a] == old(desired)[a]
      requires forall a :: a != action && a in reported ==> reported[a] == old(reported)[a]
      requires forall a :: a != action ==> (a in reporters <==> a in old(reporters)) && SentFor(a) == old(SentFor(a))
      ensures Valid()
    {
      forall a ensures CellMatches(a) {
        if a != action {
          assert old(CellMatches(a));
        }
      }
    }

    method Reconcile(action: string, ready: bool)
      requires Valid()
      modifies this`reported, this`sent, this`cells
      ensures Valid() && old(sent) <= sent
      ensures cells == if action in old(cells) then old(cells)[action :=
                         Reconciled(old(cells)[action], ready, CodesOf(setup, action), setup.policy)] else old(cells)
    {
      IsPendingMeans(action);
      assert action in cells ==> cells == cells[action := cells[action]];
      assert CellMatches(action);
      if !IsPending(action) || !ready {
        return;
      }
      cells := cells[action := Reconciled(cells[action], ready, CodesOf(setup, action), setup.policy)];
      Deliver(action);
      OnlyTouched(action);
    }

    /** The one call of a reconcile, and the state it reports. */
    method Deliver(action: string)
      requires action in desired
      modifies this`reported, this`sent
      ensures old(sent) <= sent && forall a :: a != action ==> SentFor(a) == old(SentFor(a))
      ensures reported == old(reported)[action := if desired[action].net == Failed then Failed else Healthy]
      ensures SentFor(action) == old(SentFor(action)) + [DeliveryOf(setup, action, desired[action])]
    {
      if desired[action].net == Failed {
        Send(action, Raised(setup.codeFor(action, desired[action].canceled)));
        reported := reported[action := Failed];
      } else {
        SendHeal(action);
        reported := reported[action := Healthy];
      }
    }

    method UpdateRetryTimer()
      requires Valid()
      modifies this`armed
      ensures Valid() && armed == AnyPending(cells)
    {
      var anyPending := false;
      var todo := desired.Keys;
      while todo != {} && !anyPending
        invariant Valid() && todo <= desired.Keys
        invariant anyPending ==> AnyPending(cells)
        invariant !anyPending ==> forall action :: action in desired && action !in todo ==> !IsPending(action)
        decreases |todo|
      {
        var action :| action in todo;
        todo := todo - {action};
        if IsPending(action) {
          IsPendingMeans(action);
          anyPending := true;
        }
      }
      if !anyPending {
        forall action | action in cells ensures !Pending(cells[action]) {
          IsPendingMeans(action);
        }
      }
      armed := anyPending;
      forall action ensures CellMatches(action) { assert old(CellMatches(action)); }
    }

    method RecordDesired(action: string, statuses: seq<int>, net: Net)
      requires Valid() && action in cells && net == Verdict(statuses, setup.policy) && net != Unknown
      modifies this`desired, this`cells
      ensures Valid()
      ensures cells == old(cells)[action := Observed(old(cells)[action], statuses, setup.policy)]
    {
      assert CellMatches(action);
      var want := if action in desired then desired[action] else Desired(Unknown, false);
      if net == Failed {
        var canceled := DescribeFailureIsCancel(statuses, setup.policy);
        want := Desired(Failed, canceled);
      } else if setup.policy.healOnSucceeded {
        want := want.(net := Healthy);
      }
      desired := desired[action := want];
      cells := cells[action := Observed(cells[action], statuses, setup.policy)];
      OnlyTouched(action);
    }

    method ReporterFor(action: string)
      requires Valid()
      modifies this`reporters, this`cells
      ensures Valid()
      ensures cells == old(cells)[action := CellIn(old(cells), action).(hasReporter := true)]
    {
      assert CellMatches(action);
      reporters := reporters + {action};
      cells := cells[action := CellIn(cells, action).(hasReporter := true)];
      OnlyTouched(action);
    }

    method StatusCallback(action: string, statuses: seq<int>, service: bool)
      requires Valid()
      modifies this
      ensures Valid() && Model() == After(setup, old(Model()), Status(action, statuses, service))
      ensures old(sent) <= sent
    {
      ReporterFor(action);
      var net := DeriveState(statuses, setup.policy);
      if net == Unknown {
        return;
      }
      ghost var withReporter := cells;
      RecordDesired(action, statuses, net);
      Reconcile(action, service);
      assert cells == withReporter[action := cells[action]] == old(cells)[action := cells[action]];
      UpdateRetryTimer();
    }

    method CollectPending() returns (pending: set<string>)
      requires Valid()
      ensures forall a :: a in pending <==> a in cells && Pending(cells[a])
    {
      pending := {};
      var todo := desired.Keys;
      while todo != {}
        invariant todo <= desired.Keys
        invariant forall a :: a in pending <==> a !in todo && IsPending(a)
        decreases |todo|
      {
        var action :| action in todo;
        todo := todo - {action};
        if IsPending(action) {
          pending := pending + {action};
        }
      }
      forall a ensures a in pending <==> a in cells && Pending(cells[a]) {
        IsPendingMeans(a);
      }
    }

    method RetryOne(action: string, ready: bool)
      requires Valid() && action in cells && Pending(cells[action])
      modifies this`reported, this`sent, this`reporters, this`cells
      ensures Valid() && old(sent) <= sent
      ensures cells == old(cells)[action := Retried(old(cells)[action], ready, CodesOf(setup, action), setup.policy)]
    {
      ReporterFor(action);
      Reconcile(action, ready);
    }

    /** The retry callback, also run at the end of every rescan. */
    method ReconcilePending(ready: set<string>)
      requires Valid()
      modifies this`reported, this`sent, this`reporters, this`armed, this`cells
      ensures Valid() && Model() == After(setup, old(Model()), Retry(ready))
      ensures old(sent) <= sent
    {
      var pending := CollectPending();
      ghost var all, was := pending, cells;
      ghost var done: set<string> := {};
      RetryNone(setup, was, ready);
      while pending != {}
        invariant Valid() && old(sent) <= sent && forall a :: a in pending ==> a in all
        invariant forall a :: a in done <==> a in all && a !in pending
        invariant cells == RetriedSome(setup, was, done, ready)
        decreases |pending|
      {
        var action :| action in pending;
        pending := pending - {action};
        RetryOneMore(setup, was, done, ready, action);
        RetryOne(action, action in ready);
        done := done + {action};
      }
      assert done == all;
      RetryPending(setup, was, all, ready);
      UpdateRetryTimer();
    }

    method Prune(action: string, ready: bool)
      requires Valid()
      modifies this`desired, this`reported, this`reporters, this`sent, this`cells
      ensures Valid() && old(sent) <= sent
      ensures cells == old(cells)[action :=
                         Pruned(CellIn(old(cells), action), ready, CodesOf(setup, action), setup.policy)]
    {
      assert CellMatches(action);
      cells := cells[action := Pruned(CellIn(cells, action), ready, CodesOf(setup, action), setup.policy)];
      var wasFailed := action in reported && reported[action] == Failed;
      if wasFailed && setup.policy.healOnSucceeded && action in reporters {
        if ready {
          SendHeal(action);
        }
      }
      reporters := reporters - {action};
      reported := reported - {action};
      desired := desired - {action};
      Send(action, Dropped);
      OnlyTouched(action);
    }

    method PruneVanished(present: set<string>, ready: set<string>)
      requires Valid()
      modifies this`desired, this`reported, this`reporters, this`sent, this`subs, this`cells
      ensures Valid() && subs == old(subs) * present && old(sent) <= sent
      ensures cells == PrunedCells(setup, old(cells), old(subs) - present, ready)
    {
      var todo := subs;
      ghost var gone: set<string> := {};
      ghost var was := cells;
      PruneNone(setup, was, ready);
      while todo != {}
        invariant Valid() && old(sent) <= sent && forall a :: a in todo ==> a in old(subs)
        invariant forall a :: a in gone <==> a in old(subs) && a !in present && a !in todo
        invariant forall a :: a in subs <==> a in old(subs) && a !in gone
        invariant cells == PrunedCells(setup, was, gone, ready)
        decreases |todo|
      {
        var action :| action in todo;
        todo := todo - {action};
        if action !in present {
          PruneOneMore(setup, was, gone, ready, action);
          Prune(action, action in ready);
          DropSubscription(action);
          gone := gone + {action};
        }
      }
      assert gone == old(subs) - present;
    }

    method DropSubscription(action: string)
      requires Valid()
      modifies this`subs
      ensures Valid() && subs == old(subs) - {action}
    {
      subs := subs - {action};
      forall a ensures CellMatches(a) { assert old(CellMatches(a)); }
    }

    method RescanActions(present: set<string>, readyToPrune: set<string>, readyAfter: set<string>)
      requires Valid()
      modifies this
      ensures Valid() && Model() == After(setup, old(Model()), Rescan(present, readyToPrune, readyAfter))
      ensures old(sent) <= sent
    {
      subs := subs + present;
      forall a ensures CellMatches(a) { assert old(CellMatches(a)); }
      assert subs - present == old(subs) - present;
      PruneVanished(present, readyToPrune);
      assert subs == present;
      ReconcilePending(readyAfter);
    }
  }
}
