/** From the confirmation of a fault to its row, over whole runs of the recording window. */
module RecordingRuns {
  import opened Basics
  import opened BurstStore
  import opened RosbagTrim
  import opened RecordingWindow
  import Rows = RosbagRows

  /** Whether a clear takes a fault out of the window and out of the rows. */
  predicate ClearsDrop(c: Config) {
    c.autoCleanup && !KeepsHistory(c)
  }

  /** Between states `i` and `j` the recording in `path` is not stored, and no clear takes the fault out of it. */
  predicate LeftAlone(c: Config, steps: seq<Step>, i: nat, j: nat, path: string, code: string)
    requires j <= |steps|
  {
    forall k :: i <= k < j ==>
      && !(steps[k].FinalizeStore? && steps[k].path == path)
      && (ClearsDrop(c) ==> steps[k] != Clear(code))
  }

  lemma RunPrefixOk(c: Config, states: seq<State>, steps: seq<Step>, k: nat)
    requires IsRun(c, states, steps) && k <= |steps|
    ensures Inv(c, states[k])
  {
    RunsKeepRecordings(c, states[..k + 1], steps[..k]);
  }

  lemma {:induction false} JoinedPersists(
    c: Config, states: seq<State>, steps: seq<Step>, i: nat, j: nat, path: string, code: string)
    requires IsRun(c, states, steps) && i <= j <= |steps| && code != ""
    requires Joined(states[i], path, code) && LeftAlone(c, steps, i, j, path, code)
    ensures Joined(states[j], path, code)
    decreases j
  {
    if i == j {
    } else {
      JoinedPersists(c, states, steps, i, j - 1, path, code);
      RunPrefixOk(c, states, steps, j - 1);
      assert states[j - 1 + 1] == After(c, states[j - 1], steps[j - 1]);
      JoinedStays(c, states[j - 1], steps[j - 1], path, code);
    }
  }

  lemma {:induction false} StaysUncleared(
    c: Config, states: seq<State>, steps: seq<Step>, i: nat, j: nat, code: string)
    requires IsRun(c, states, steps) && i <= j <= |steps|
    requires code !in states[i].cleared && forall k :: i <= k < j ==> steps[k] != Clear(code)
    ensures code !in states[j].cleared
    decreases j
  {
    if i == j {
    } else {
      StaysUncleared(c, states, steps, i, j - 1, code);
      assert states[j - 1 + 1] == After(c, states[j - 1], steps[j - 1]);
      OnlyClearClears(c, states[j - 1], steps[j - 1], code);
    }
  }

  lemma OnlyClearClears(c: Config, s: State, step: Step, code: string)
    requires Enabled(c, s, step) && step != Clear(code) && code !in s.cleared
    ensures code !in After(c, s, step).cleared
  {
  }

  /** Step `j` stores the recording in `path`. */
  predicate Stores(steps: seq<Step>, j: nat, path: string) {
    j < |steps| && steps[j].FinalizeStore? && steps[j].path == path && steps[j].stores
  }

  /**
   In every run: a fault that is with a recording, is not cleared, and is not cleared under clean-up until
   the recording is stored has its row then exactly if fewer than the cap of its stored rows were created
   later by the wall clock.
   */
  lemma JoinedFaultGetsRow(
    c: Config, states: seq<State>, steps: seq<Step>, i: nat, j: nat, path: string, code: string)
    requires IsRun(c, states, steps) && i <= j && Stores(steps, j, path) && code != ""
    requires Joined(states[i], path, code) && LeftAlone(c, steps, i, j, path, code)
    requires ClearsDrop(c) ==> code !in states[i].cleared
    ensures HasLink(states[j + 1].store.rows, code, path) <==>
            Fits(states[j].store.rows, code, steps[j].bag.at, c.cap)
  {
    JoinedPersists(c, states, steps, i, j, path, code);
    RunPrefixOk(c, states, steps, j);
    assert Enabled(c, states[j], steps[j]) && states[j + 1] == After(c, states[j], steps[j]);
    if ClearsDrop(c) {
      StaysUncleared(c, states, steps, i, j, code);
    }
    JoinedGetsRow(c, states[j], path, steps[j].codes, steps[j].bag, code);
  }

  /** In particular a confirmation inside the window, up to the cap on attached faults. */
  lemma ConfirmedFaultGetsRow(c: Config, states: seq<State>, steps: seq<Step>, i: nat, j: nat)
    requires IsRun(c, states, steps) && i < j < |steps| && steps[i].Confirm? && states[i].guard
    requires |states[i].attached| < MAX_ATTACHED && LeftAlone(c, steps, i + 1, j, states[i].bagPath, steps[i].code)
    requires ClearsDrop(c) ==> steps[i].code !in states[i].cleared
    requires Stores(steps, j, states[i].bagPath)
    ensures HasLink(states[j + 1].store.rows, steps[i].code, states[i].bagPath) <==>
            Fits(states[j].store.rows, steps[i].code, steps[j].bag.at, c.cap)
  {
    var code, path := steps[i].code, states[i].bagPath;
    RunPrefixOk(c, states, steps, i);
    assert Enabled(c, states[i], steps[i]) && states[i + 1] == After(c, states[i], steps[i]);
    ConfirmJoins(c, states[i], code, steps[i].topics);
    if ClearsDrop(c) {
      OnlyClearClears(c, states[i], steps[i], code);
    }
    JoinedFaultGetsRow(c, states, steps, i + 1, j, path, code);
  }

  // ---------------------------------------------------------------- and no other fault

  /** The state carries the code: a confirmation in progress, the window, or a recording taken out of it. */
  predicate Carries(s: State, code: string) {
    || (!s.pc.Idle? && s.pc.code == code)
    || code == s.primary || code in s.attached
    || exists path :: path in s.taken && (code == s.taken[path].primary || code in s.taken[path].attached)
  }

  ghost predicate ConfirmedIn(steps: seq<Step>, code: string) {
    exists i :: 0 <= i < |steps| && steps[i].Confirm? && steps[i].code == code
  }

  lemma CarriedFrom(c: Config, s: State, step: Step, code: string)
    requires Enabled(c, s, step) && code != "" && Carries(After(c, s, step), code)
    ensures Carries(s, code) || (step.Confirm? && step.code == code)
  {
    var after := After(c, s, step);
    if path :| path in after.taken && (code == after.taken[path].primary || code in after.taken[path].attached) {
      if path in s.taken && s.taken[path] == after.taken[path] {
        assert Carries(s, code);
      }
    }
  }

  /** Nothing carries a fault that was never confirmed. */
  lemma {:induction false} CarriedWasConfirmed(c: Config, states: seq<State>, steps: seq<Step>, code: string)
    requires IsRun(c, states, steps) && code != "" && Carries(states[|steps|], code)
    ensures ConfirmedIn(steps, code)
    decreases |steps|
  {
    if steps == [] {
    } else {
      var last := |steps| - 1;
      assert Enabled(c, states[last], steps[last]) && states[last + 1] == After(c, states[last], steps[last]);
      CarriedFrom(c, states[last], steps[last], code);
      if Carries(states[last], code) {
        CarriedWasConfirmed(c, states[..|steps|], steps[..last], code);
        var i :| 0 <= i < |steps[..last]| && steps[..last][i].Confirm? && steps[..last][i].code == code;
        assert steps[i].Confirm? && steps[i].code == code;
      }
    }
  }

  /**
   In every run: storing a recording leaves its bag with a row for exactly the faults that are with it then,
   still want one and have fewer than the cap of stored rows created later; each of them was confirmed
   earlier in the run.
   */
  lemma StoredRowsExactly(c: Config, states: seq<State>, steps: seq<Step>, j: nat, path: string, code: string)
    requires IsRun(c, states, steps) && Stores(steps, j, path)
    ensures HasLink(states[j + 1].store.rows, code, path) <==>
            && code != "" && Joined(states[j], path, code) && WantsARow(c, states[j], code)
            && Fits(states[j].store.rows, code, steps[j].bag.at, c.cap)
    ensures HasLink(states[j + 1].store.rows, code, path) ==> ConfirmedIn(steps[..j], code)
  {
    RunPrefixOk(c, states, steps, j);
    var s := states[j];
    assert Enabled(c, s, steps[j]) && states[j + 1] == After(c, s, steps[j]);
    FinalizedBagHasItsRows(c, s, path, steps[j].codes, steps[j].bag, true);
    LinkAt(states[j + 1].store, path, code);
    if code != "" && Joined(s, path, code) {
      JoinedGetsRow(c, s, path, steps[j].codes, steps[j].bag, code);
      assert Carries(s, code);
      CarriedWasConfirmed(c, states[..j + 1], steps[..j], code);
    }
  }

  // ---------------------------------------------------------------- the wall clock

  predicate StoredBy(step: Step, t: int) {
    (step.FinalizeStore? || step.StoreClosed?) ==> step.bag.at <= t
  }

  lemma DeletedFrom(store: Rows.Store, gone: Row -> bool, t: int)
    requires NoneAfter(store.rows, t)
    ensures NoneAfter(Rows.AfterDelete(store, gone).rows, t)
  {
    forall r | r in Rows.AfterDelete(store, gone).rows ensures r.info.createdAt <= t {
      SurvivorMember(store.rows, Rows.Matching(store.rows, gone), r);
    }
  }

  lemma StepCreatesBy(c: Config, s: State, step: Step, t: int)
    requires Inv(c, s) && Enabled(c, s, step) && StoredBy(step, t) && NoneAfter(s.store.rows, t)
    ensures NoneAfter(After(c, s, step).store.rows, t)
  {
    var b := Rows.Batch(s.store.rows, s.store.last, {});
    match step {
      case StoreClosed(bag, _) => BurstFrom(b, [s.pc.code], s.pc.path, bag.size, bag.at, c.cap, t);
      case FinalizeStore(path, codes, bag, _) => BurstFrom(b, codes, path, bag.size, bag.at, c.cap, t);
      case Clear(code) => DeletedFrom(s.store, Rows.OfFault(code), t);
      case Evict(id) => DeletedFrom(s.store, Rows.OfRecording(id), t);
      case _ =>
    }
  }

  lemma {:induction false} RowsCreatedBy(c: Config, states: seq<State>, steps: seq<Step>, t: int)
    requires IsRun(c, states, steps) && forall i :: 0 <= i < |steps| ==> StoredBy(steps[i], t)
    ensures NoneAfter(states[|steps|].store.rows, t)
    decreases |steps|
  {
    if steps == [] {
    } else {
      var last := |steps| - 1;
      RowsCreatedBy(c, states[..|steps|], steps[..last], t);
      RunPrefixOk(c, states, steps, last);
      assert Enabled(c, states[last], steps[last]) && states[last + 1] == After(c, states[last], steps[last]);
      StepCreatesBy(c, states[last], steps[last], t);
    }
  }

  /**
   With a wall clock that has not gone back since the stored recordings were closed, a new recording is
   kept for every fault it owes a row to, whatever the cap: the new replaces the old.
   */
  lemma ForwardClockKeepsRows(c: Config, states: seq<State>, steps: seq<Step>, j: nat, path: string, code: string)
    requires IsRun(c, states, steps) && Stores(steps, j, path)
    requires forall i :: 0 <= i < j ==> StoredBy(steps[i], steps[j].bag.at)
    ensures HasLink(states[j + 1].store.rows, code, path) <==>
            code != "" && Joined(states[j], path, code) && WantsARow(c, states[j], code)
  {
    RowsCreatedBy(c, states[..j + 1], steps[..j], steps[j].bag.at);
    NoneAfterFits(states[j].store.rows, code, steps[j].bag.at, c.cap);
    StoredRowsExactly(c, states, steps, j, path, code);
  }

  // ---------------------------------------------------------------- a clock that goes back

  /** Nothing is being recorded, and a bag may be opened at `path` for `code`. */
  predicate Quiet(s: State, code: string, path: string) {
    s.pc.Idle? && !s.guard && path !in s.used && s.taken == map[] && code != "" && code !in s.cleared
  }

  lemma WindowOpens(c: Config, states: seq<State>, steps: seq<Step>, code: string, path: string)
    returns (states': seq<State>, steps': seq<Step>)
    requires IsRun(c, states, steps) && c.postRoll && Quiet(states[|steps|], code, path)
    ensures IsRun(c, states', steps')
    ensures var s, t := states[|steps|], states'[|steps'|];
            && t.guard && t.primary == code && t.bagPath == path && t.attached == {} && t.pc.Idle?
            && t.taken == map[] && t.store == WithBag(s.store, path)
            && t.cleared == s.cleared && t.used == s.used + {path}
  {
    states', steps' := states, steps;
    RunExtends(c, states', steps', Confirm(code, {}));
    states', steps' := states' + [After(c, states'[|steps'|], Confirm(code, {}))], steps' + [Confirm(code, {})];
    RunExtends(c, states', steps', Open(path, true));
    states', steps' := states' + [After(c, states'[|steps'|], Open(path, true))], steps' + [Open(path, true)];
    RunExtends(c, states', steps', Publish);
    states', steps' := states' + [After(c, states'[|steps'|], Publish)], steps' + [Publish];
  }

  lemma WindowStores(
    c: Config, states: seq<State>, steps: seq<Step>, codes: seq<string>, path: string, bag: Closed)
    returns (states': seq<State>, steps': seq<Step>)
    requires IsRun(c, states, steps)
    requires var s := states[|steps|];
             && s.guard && s.bagPath == path && s.taken == map[]
             && Lists(codes, Owed(c, s, Taken(s.primary, s.attached, s.writer)))
    ensures IsRun(c, states', steps') && |steps'| == |steps| + 2 && Stores(steps', |steps'| - 1, path)
    ensures var s, m, t := states[|steps|], states'[|steps'| - 1], states'[|steps'|];
            && steps'[|steps'| - 1] == FinalizeStore(path, codes, bag, true)
            && m.store == s.store && m.taken == map[path := Taken(s.primary, s.attached, s.writer)]
            && m.cleared == s.cleared
            && t.pc == s.pc && !t.guard && t.taken == map[] && t.cleared == s.cleared && t.used == s.used
            && t.store == StoredFor(c, s.store, path, codes, bag, true)
  {
    var store := FinalizeStore(path, codes, bag, true);
    RunExtends(c, states, steps, FinalizeTake);
    states', steps' := states + [After(c, states[|steps|], FinalizeTake)], steps + [FinalizeTake];
    RunExtends(c, states', steps', store);
    states', steps' := states' + [After(c, states'[|steps'|], store)], steps' + [store];
  }

  lemma OneInfo(code: string, path: string, bag: Closed)
    ensures BurstInfos([code], path, bag.size, bag.at) == [Info(code, Rows.RecordingId(path), path, bag.size, bag.at)]
  {
    assert [code][..0] == [];
    assert BurstInfos([], path, bag.size, bag.at) == [];
  }

  lemma NewRowAlone(r: Row, cap: nat)
    requires cap > 0
    ensures Survivors([r], Doomed([r], r.info.code, cap)) == [r]
  {
    assert Newer([r], 0) == {};
    assert Doomed([r], r.info.code, cap) == {};
    SurvivorsAll([r], {});
  }

  lemma FirstRow(c: Config, disk: set<string>, code: string, path: string, bag: Closed)
    requires c.cap == 1
    ensures var after := StoredFor(c, Rows.Store([], 0, disk), path, [code], bag, true);
            after.rows == [Row(Info(code, Rows.RecordingId(path), path, bag.size, bag.at), 1)] && after.last == 1
  {
    var info := Info(code, Rows.RecordingId(path), path, bag.size, bag.at);
    OneInfo(code, path, bag);
    var b := Rows.Batch([], 0, {});
    assert [info][..0] == [];
    assert Rows.StoredAll(b, [info], 1) == Rows.StoredOne(b, info, 1);
    assert Rows.Upserted(b, Rows.Named(info)).rows == [Row(info, 1)];
    NewRowAlone(Row(info, 1), 1);
  }

  /** A recording of `code` stored at `late`, and the window of a second one open in `q`. */
  lemma SecondWindow(c: Config, code: string, p: string, q: string, size: nat, late: int)
    returns (states: seq<State>, steps: seq<Step>)
    requires c.cap == 1 && c.postRoll && code != "" && p != q
    ensures IsRun(c, states, steps)
    ensures var s := states[|steps|];
            && s.guard && s.primary == code && s.bagPath == q && s.attached == {} && s.pc.Idle?
            && s.taken == map[] && s.cleared == {}
            && s.store.rows == [Row(Info(code, Rows.RecordingId(p), p, size, late), 1)]
  {
    states, steps := WindowOpens(c, [START], [], code, p);
    var s := states[|steps|];
    assert s.store == Rows.Store([], 0, {p});
    states, steps := WindowStores(c, states, steps, [code], p, Closed(size, late));
    FirstRow(c, {p}, code, p, Closed(size, late));
    states, steps := WindowOpens(c, states, steps, code, q);
  }

  lemma LateRowCounts(rows: seq<Row>, code: string, p: string, size: nat, late: int, early: int)
    requires rows == [Row(Info(code, Rows.RecordingId(p), p, size, late), 1)] && early < late
    ensures !Fits(rows, code, early, 1)
  {
    assert rows[0] in Later(rows, code, early);
  }

  /**
   Reachable with the default cap of one: after the wall clock went back, a recording is removed by the
   very store that should have replaced the older one with it, though its fault is owed a row.
   */
  lemma ClockStepLosesRecording(c: Config, code: string, p: string, q: string, size: nat, late: int, early: int)
    returns (states: seq<State>, steps: seq<Step>)
    requires c.cap == 1 && c.postRoll && code != "" && p != q && early < late
    ensures IsRun(c, states, steps) && |steps| > 0 && Stores(steps, |steps| - 1, q)
    ensures var before, after := states[|steps| - 1], states[|steps|];
            && Joined(before, q, code) && WantsARow(c, before, code)
            && !HasLink(after.store.rows, code, q) && q !in after.store.disk
  {
    states, steps := SecondWindow(c, code, p, q, size, late);
    var s := states[|steps|];
    states, steps := WindowStores(c, states, steps, [code], q, Closed(size, early));
    LateRowCounts(s.store.rows, code, p, size, late, early);
    StoredRowsExactly(c, states, steps, |steps| - 1, q, code);
    RunPrefixOk(c, states, steps, |steps| - 1);
    var before := states[|steps| - 1];
    assert Enabled(c, before, steps[|steps| - 1]) && states[|steps|] == After(c, before, steps[|steps| - 1]);
    FinalizedBagHasItsRows(c, before, q, [code], Closed(size, early), true);
    assert Kept(c, before.store, Owed(c, before, before.taken[q]), early) == {};
  }

  /** As before, with another fault in the window that has no recording yet. */
  lemma SecondBurst(c: Config, code: string, other: string, p: string, q: string, size: nat, late: int)
    returns (states: seq<State>, steps: seq<Step>)
    requires c.cap == 1 && c.postRoll && code != "" && other != "" && code != other && p != q
    ensures IsRun(c, states, steps)
    ensures var s := states[|steps|];
            && s.guard && s.primary == code && s.bagPath == q && s.attached == {other} && s.taken == map[]
            && s.cleared == {} && s.store.rows == [Row(Info(code, Rows.RecordingId(p), p, size, late), 1)]
  {
    states, steps := SecondWindow(c, code, p, q, size, late);
    var s := states[|steps|];
    RunExtends(c, states, steps, Confirm(other, {}));
    states, steps := states + [After(c, s, Confirm(other, {}))], steps + [Confirm(other, {})];
  }

  lemma OtherFits(rows: seq<Row>, code: string, other: string, p: string, size: nat, late: int, early: int)
    requires rows == [Row(Info(code, Rows.RecordingId(p), p, size, late), 1)] && code != other
    ensures Fits(rows, other, early, 1)
  {
    assert Later(rows, other, early) == {};
  }

  /** Likewise a burst may be split: the bag stays for one of its faults and is lost to the other. */
  lemma ClockStepSplitsBurst(
    c: Config, code: string, other: string, p: string, q: string, size: nat, late: int, early: int)
    returns (states: seq<State>, steps: seq<Step>)
    requires c.cap == 1 && c.postRoll && code != "" && other != "" && code != other && p != q && early < late
    ensures IsRun(c, states, steps) && |steps| > 0 && Stores(steps, |steps| - 1, q)
    ensures var before, after := states[|steps| - 1], states[|steps|];
            && Joined(before, q, code) && WantsARow(c, before, code)
            && !HasLink(after.store.rows, code, q) && HasLink(after.store.rows, other, q)
  {
    states, steps := SecondBurst(c, code, other, p, q, size, late);
    var rows := states[|steps|].store.rows;
    states, steps := WindowStores(c, states, steps, [code, other], q, Closed(size, early));
    LateRowCounts(rows, code, p, size, late, early);
    OtherFits(rows, code, other, p, size, late, early);
    StoredRowsExactly(c, states, steps, |steps| - 1, q, code);
    StoredRowsExactly(c, states, steps, |steps| - 1, q, other);
  }

  // ---------------------------------------------------------------- the ends of a recording

  /** A recording that leaves the window takes its filter and its faults with it. */
  lemma HandedOverWindowIsBare(c: Config, s: State, step: Step)
    requires Inv(c, s) && Enabled(c, s, step) && (step.StoreClosed? || (step.FinalizeTake? && s.guard))
    ensures var after := After(c, s, step);
            && after.filter == {} && after.writer == None
            && (step.FinalizeTake? ==>
                  && !after.guard && after.attached == {} && after.primary == "" && after.bagPath == ""
                  && s.bagPath in after.taken
                  && forall code :: code != "" ==> (Joined(after, s.bagPath, code) <==> Joined(s, s.bagPath, code)))
  {
  }

  /** A bag that cannot be opened leaves nothing behind, and the next confirmation may come. */
  lemma FailedOpenLeavesNothing(c: Config, s: State, path: string, code: string)
    requires Inv(c, s) && Enabled(c, s, Open(path, false)) && code != ""
    ensures var after := After(c, s, Open(path, false));
            && after.store == s.store && after.writer == None && after.guard == s.guard && after.taken == s.taken
            && Enabled(c, after, Confirm(code, {}))
  {
  }
}
