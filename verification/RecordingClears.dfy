/** What clearing a fault does to its recordings, over whole runs of the recording window. */
module RecordingClears {
  import opened Basics
  import opened BurstStore
  import opened RosbagTrim
  import opened RecordingWindow
  import opened RecordingRuns
  import Rows = RosbagRows

  /** Clears drop recordings: clean-up is on and a fault keeps one recording. */
  predicate DropsOnClear(c: Config) { c.autoCleanup && c.cap == 1 }

  /** Step `k` clears the code and no step from then up to `j` reactivates it. */
  predicate ClearedSince(steps: seq<Step>, k: nat, j: nat, code: string)
    requires j <= |steps|
  {
    k < j && steps[k] == Clear(code) && forall i :: k < i < j ==> steps[i] != Reactivate(code)
  }

  lemma {:induction false} StaysCleared(
    c: Config, states: seq<State>, steps: seq<Step>, k: nat, j: nat, code: string)
    requires IsRun(c, states, steps) && j <= |steps| && ClearedSince(steps, k, j, code)
    ensures code in states[j].cleared
    decreases j
  {
    assert Enabled(c, states[j - 1], steps[j - 1]) && states[j - 1 + 1] == After(c, states[j - 1], steps[j - 1]);
    if j == k + 1 {
    } else {
      StaysCleared(c, states, steps, k, j - 1, code);
      OnlyReactivateRevives(c, states[j - 1], steps[j - 1], code);
    }
  }

  lemma OnlyReactivateRevives(c: Config, s: State, step: Step, code: string)
    requires Enabled(c, s, step) && step != Reactivate(code) && code in s.cleared
    ensures code in After(c, s, step).cleared
  {
  }

  /** Some step before `j` cleared the code, and it was not reactivated since. */
  ghost predicate ClearedBefore(steps: seq<Step>, j: nat, code: string)
    requires j <= |steps|
  {
    exists k: nat :: k < j && ClearedSince(steps, k, j, code)
  }

  lemma ClearedBeforeStep(steps: seq<Step>, i: nat, code: string)
    requires i < |steps|
    ensures ClearedBefore(steps, i + 1, code) <==>
            steps[i] == Clear(code) || (ClearedBefore(steps, i, code) && steps[i] != Reactivate(code))
  {
    if steps[i] == Clear(code) {
      assert ClearedSince(steps, i, i + 1, code);
    } else if k: nat :| k < i && ClearedSince(steps, k, i, code) {
      assert steps[i] == Reactivate(code) || ClearedSince(steps, k, i + 1, code);
    }
    var j := i + 1;
    if k: nat :| k < j && ClearedSince(steps, k, j, code) {
      assert k == i || ClearedSince(steps, k, i, code);
    }
  }

  lemma ClearedByStep(c: Config, s: State, step: Step, code: string)
    requires Enabled(c, s, step)
    ensures code in After(c, s, step).cleared <==>
            step == Clear(code) || (code in s.cleared && step != Reactivate(code))
  {
  }

  /** In every run a code counts as cleared exactly if its last clear was not followed by a reactivation. */
  lemma {:induction false} ClearedExactly(c: Config, states: seq<State>, steps: seq<Step>, j: nat, code: string)
    requires IsRun(c, states, steps) && j <= |steps|
    ensures code in states[j].cleared <==> ClearedBefore(steps, j, code)
    decreases j
  {
    if j == 0 {
    } else {
      ClearedExactly(c, states, steps, j - 1, code);
      assert Enabled(c, states[j - 1], steps[j - 1]) && states[j - 1 + 1] == After(c, states[j - 1], steps[j - 1]);
      ClearedByStep(c, states[j - 1], steps[j - 1], code);
      ClearedBeforeStep(steps, j - 1, code);
    }
  }

  // ---------------------------------------------------------------- a recording that is being stored

  /**
   In every run with clean-up and one recording per fault: a fault cleared before its recording is stored,
   and not reactivated, gets no row, whether it was cleared in the window or after it was taken out of it.
   */
  lemma ClearedFaultGetsNoRow(
    c: Config, states: seq<State>, steps: seq<Step>, k: nat, j: nat, path: string, code: string)
    requires IsRun(c, states, steps) && DropsOnClear(c) && Stores(steps, j, path) && ClearedSince(steps, k, j, code)
    ensures !HasLink(states[j + 1].store.rows, code, path)
  {
    StaysCleared(c, states, steps, k, j, code);
    StoredRowsExactly(c, states, steps, j, path, code);
  }

  /** If that holds for every fault of the recording, its bag is gone. */
  lemma AllClearedDiscardsBag(c: Config, states: seq<State>, steps: seq<Step>, j: nat, path: string)
    requires IsRun(c, states, steps) && DropsOnClear(c) && Stores(steps, j, path)
    requires forall code :: code != "" && Joined(states[j], path, code) ==> ClearedBefore(steps, j, code)
    ensures path !in states[j + 1].store.disk
  {
    RunPrefixOk(c, states, steps, j);
    var s := states[j];
    assert Enabled(c, s, steps[j]) && states[j + 1] == After(c, s, steps[j]);
    FinalizedBagHasItsRows(c, s, path, steps[j].codes, steps[j].bag, true);
    forall code ensures code !in Owed(c, s, s.taken[path]) {
      if code != "" && Joined(s, path, code) {
        var k: nat :| k < j && ClearedSince(steps, k, j, code);
        StaysCleared(c, states, steps, k, j, code);
      }
    }
    assert Kept(c, s.store, Owed(c, s, s.taken[path]), steps[j].bag.at) == {};
  }

  /**
   Without clean-up, or with a history, clears cost no row: a fault with a recording has its row after the
   store exactly if fewer than the cap of its rows were created later, however often it was cleared.
   */
  lemma HistoryOutlivesClears(
    c: Config, states: seq<State>, steps: seq<Step>, i: nat, j: nat, path: string, code: string)
    requires IsRun(c, states, steps) && (!c.autoCleanup || c.cap != 1) && i <= j && Stores(steps, j, path) && code != ""
    requires Joined(states[i], path, code)
    requires forall k :: i <= k < j ==> !(steps[k].FinalizeStore? && steps[k].path == path)
    ensures HasLink(states[j + 1].store.rows, code, path) <==>
            Fits(states[j].store.rows, code, steps[j].bag.at, c.cap)
  {
    JoinedFaultGetsRow(c, states, steps, i, j, path, code);
  }

  // ---------------------------------------------------------------- recordings already stored

  /** With clean-up and one recording per fault a clear takes every row of the code and none of another. */
  lemma ClearTakesRows(c: Config, s: State, code: string, r: Row)
    requires Inv(c, s)
    ensures r in After(c, s, Clear(code)).store.rows <==>
            r in s.store.rows && (r.info.code != code || !DropsOnClear(c))
  {
    Rows.DeleteFaultTakes(s.store, c.cap, code, r, "");
  }

  /** An eviction takes exactly the rows of its recording, in every fault. */
  lemma EvictTakesRows(c: Config, s: State, id: string, r: Row)
    requires Inv(c, s)
    ensures r in After(c, s, Evict(id)).store.rows <==> r in s.store.rows && (id == "" || r.info.recordingId != id)
  {
    Rows.DeleteRecordingTakes(s.store, c.cap, id, r, "");
  }

  /** No row of the code. */
  predicate Unrecorded(s: State, code: string) {
    forall r :: r in s.store.rows ==> r.info.code != code
  }

  lemma ClearedStepStaysUnrecorded(c: Config, s: State, step: Step, code: string)
    requires Inv(c, s) && Enabled(c, s, step) && DropsOnClear(c) && !step.StoreClosed?
    requires code in s.cleared && Unrecorded(s, code)
    ensures Unrecorded(After(c, s, step), code)
  {
    match step {
      case Clear(cleared) =>
        forall r | r in After(c, s, step).store.rows ensures r.info.code != code {
          ClearTakesRows(c, s, cleared, r);
        }
      case Evict(id) =>
        forall r | r in After(c, s, step).store.rows ensures r.info.code != code {
          Rows.DeleteRecordingTakes(s.store, c.cap, id, r, "");
        }
      case FinalizeStore(path, codes, bag, stores) =>
        assert code !in codes;
        forall r | r in After(c, s, step).store.rows ensures r.info.code != code {
          if r.info.code == code {
            BurstLeavesOthers(Rows.Batch(s.store.rows, s.store.last, {}), codes, path, bag.size, bag.at, c.cap, r);
          }
        }
      case _ =>
    }
  }

  lemma {:induction false} NeverClosing(c: Config, states: seq<State>, steps: seq<Step>)
    requires IsRun(c, states, steps) && c.postRoll
    ensures !states[|steps|].pc.Closing?
    decreases |steps|
  {
    if steps == [] {
    } else {
      var last := |steps| - 1;
      NeverClosing(c, states[..|steps|], steps[..last]);
      assert Enabled(c, states[last], steps[last]) && states[last + 1] == After(c, states[last], steps[last]);
    }
  }

  lemma NoCloseStored(c: Config, states: seq<State>, steps: seq<Step>, i: nat)
    requires IsRun(c, states, steps) && c.postRoll && i < |steps|
    ensures !steps[i].StoreClosed?
  {
    NeverClosing(c, states[..i + 1], steps[..i]);
    assert Enabled(c, states[i], steps[i]);
  }

  lemma ClearUnrecords(c: Config, states: seq<State>, steps: seq<Step>, k: nat, code: string)
    requires IsRun(c, states, steps) && DropsOnClear(c) && k < |steps| && steps[k] == Clear(code)
    ensures Unrecorded(states[k + 1], code)
  {
    RunPrefixOk(c, states, steps, k);
    assert states[k + 1] == After(c, states[k], steps[k]);
    forall r | r in states[k + 1].store.rows ensures r.info.code != code {
      ClearTakesRows(c, states[k], code, r);
    }
  }

  lemma ClearedStays(c: Config, states: seq<State>, steps: seq<Step>, i: nat, code: string)
    requires IsRun(c, states, steps) && c.postRoll && DropsOnClear(c) && i < |steps|
    requires code in states[i].cleared && Unrecorded(states[i], code)
    ensures Unrecorded(states[i + 1], code)
  {
    RunPrefixOk(c, states, steps, i);
    NoCloseStored(c, states, steps, i);
    assert Enabled(c, states[i], steps[i]) && states[i + 1] == After(c, states[i], steps[i]);
    ClearedStepStaysUnrecorded(c, states[i], steps[i], code);
  }

  /**
   In every run with a post-roll, clean-up and one recording per fault: from its clear until it is
   reactivated a fault has no recording, whatever was being recorded, stored or evicted at the time.
   */
  lemma {:induction false} ClearedHasNoRecording(
    c: Config, states: seq<State>, steps: seq<Step>, k: nat, j: nat, code: string)
    requires IsRun(c, states, steps) && c.postRoll && DropsOnClear(c) && j <= |steps| && ClearedSince(steps, k, j, code)
    ensures Unrecorded(states[j], code)
    decreases j
  {
    if j == k + 1 {
      ClearUnrecords(c, states, steps, k, code);
    } else {
      ClearedHasNoRecording(c, states, steps, k, j - 1, code);
      StaysCleared(c, states, steps, k, j - 1, code);
      ClearedStays(c, states, steps, j - 1, code);
    }
  }

  // ---------------------------------------------------------------- cleared out of the window

  /** The recording in `path` is in the window or taken out of it. */
  predicate InPlay(s: State, path: string) {
    (s.guard && s.bagPath == path) || path in s.taken
  }

  lemma ClearDropsOut(c: Config, s: State, code: string)
    requires Inv(c, s) && DropsOnClear(c) && s.guard && code != ""
    ensures InPlay(After(c, s, Clear(code)), s.bagPath) && !Joined(After(c, s, Clear(code)), s.bagPath, code)
  {
  }

  lemma StaysInPlay(c: Config, s: State, step: Step, path: string)
    requires Inv(c, s) && Enabled(c, s, step) && InPlay(s, path) && !(step.FinalizeStore? && step.path == path)
    ensures InPlay(After(c, s, step), path)
  {
    if step.Publish? {
      assert !s.guard;
    }
  }

  lemma TakenOnlyShrinks(c: Config, s: State, step: Step, path: string)
    requires Enabled(c, s, step) && path in After(c, s, step).taken && !step.FinalizeTake?
    ensures path in s.taken && After(c, s, step).taken[path] == s.taken[path]
  {
  }

  lemma OnlyConfirmJoins(c: Config, s: State, step: Step, path: string, code: string)
    requires Inv(c, s) && Enabled(c, s, step) && InPlay(s, path) && !Joined(s, path, code) && code != ""
    requires !(step.Confirm? && step.code == code)
    ensures !Joined(After(c, s, step), path, code)
  {
    var after := After(c, s, step);
    if step.FinalizeTake? {
    } else {
      if path in after.taken {
        TakenOnlyShrinks(c, s, step, path);
      }
      if step.Publish? {
        assert !s.guard && s.pc.path != path;
      }
    }
  }

  lemma {:induction false} StaysOut(
    c: Config, states: seq<State>, steps: seq<Step>, i: nat, j: nat, path: string, code: string)
    requires IsRun(c, states, steps) && i <= j <= |steps| && code != ""
    requires InPlay(states[i], path) && !Joined(states[i], path, code)
    requires forall k :: i <= k < j ==>
               !(steps[k].Confirm? && steps[k].code == code) && !(steps[k].FinalizeStore? && steps[k].path == path)
    ensures InPlay(states[j], path) && !Joined(states[j], path, code)
    decreases j
  {
    if i == j {
    } else {
      StaysOut(c, states, steps, i, j - 1, path, code);
      RunPrefixOk(c, states, steps, j - 1);
      assert Enabled(c, states[j - 1], steps[j - 1]) && states[j - 1 + 1] == After(c, states[j - 1], steps[j - 1]);
      StaysInPlay(c, states[j - 1], steps[j - 1], path);
      OnlyConfirmJoins(c, states[j - 1], steps[j - 1], path, code);
    }
  }

  /**
   In every run with clean-up and one recording per fault: a fault cleared inside the window is out of its
   recording for good, even if it is reactivated, unless it is confirmed again before the store.
   */
  lemma ClearedInWindowIsOut(c: Config, states: seq<State>, steps: seq<Step>, k: nat, j: nat, code: string)
    requires IsRun(c, states, steps) && DropsOnClear(c) && k < j && code != ""
    requires k < |steps| && steps[k] == Clear(code) && states[k].guard && Stores(steps, j, states[k].bagPath)
    requires forall i :: k < i < j ==>
               !(steps[i].Confirm? && steps[i].code == code) &&
               !(steps[i].FinalizeStore? && steps[i].path == states[k].bagPath)
    ensures !HasLink(states[j + 1].store.rows, code, states[k].bagPath)
  {
    RunPrefixOk(c, states, steps, k);
    assert states[k + 1] == After(c, states[k], steps[k]);
    ClearDropsOut(c, states[k], code);
    StaysOut(c, states, steps, k + 1, j, states[k].bagPath, code);
    StoredRowsExactly(c, states, steps, j, states[k].bagPath, code);
  }
}
