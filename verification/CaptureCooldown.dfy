/**
 The recapture cooldown around the capture queue. Confirmations and clears run on the node's
 single-threaded executor; workers and shutdown may come in between their steps.
 */
module CaptureCooldown {
  import opened Basics
  import opened CapturePool

  /** An enqueue whose outcome the confirmation has yet to record. */
  datatype Outcome = Outcome(code: string, result: Result)

  /**
   What happened to cooldown entries: a capture queued, with the job it pushed out if any, a pending
   job evicted, and faults cleared.
   */
  datatype Event =
    | Queued(code: string, at: int, evicted: Option<string>)
    | Lost(code: string)
    | Forgotten(codes: seq<string>)

  datatype Node = Node(
    pool: Pool,
    times: map<string, int>,
    inFlight: Option<Outcome>,
    clock: int,
    log: seq<Event>)

  const IDLE := Node(EMPTY_POOL, map[], None, 0, [])

  datatype Config = Config(limits: Limits, cooldown: int)

  datatype Step =
    | ConfirmEnqueue(code: string, sweepNow: int)
    | ConfirmRecord(now: int)
    | PoolStep(step: CapturePool.Step)
    | Clear(codes: seq<string>)

  // ---------------------------------------------------------------- steps, on values

  /** Entries older than the cooldown can never gate a capture again. */
  function Swept(times: map<string, int>, now: int, cooldown: int): map<string, int> {
    map code | code in times && now - times[code] < cooldown :: times[code]
  }

  predicate OnCooldown(n: Node, c: Config, code: string, now: int) {
    c.cooldown > 0 && code in n.times && now - n.times[code] < c.cooldown
  }

  function EnqueuedFor(n: Node, c: Config, code: string, now: int): Node
    requires WellSized(c.limits)
  {
    var swept := n.(times := if c.cooldown > 0 then Swept(n.times, now, c.cooldown) else n.times, clock := now);
    if OnCooldown(n, c, code, now) then swept
    else
      var result := EnqueueResult(n.pool, c.limits, code);
      swept.(pool := CapturePool.After(n.pool, c.limits, Enqueue(code)),
             inFlight := Some(Outcome(code, result)),
             log := if result.EvictedOldest? then n.log + [Lost(result.evicted)] else n.log)
  }

  function RecordedAt(n: Node, c: Config, now: int): Node
    requires n.inFlight.Some?
  {
    var done := n.(inFlight := None, clock := now);
    var code := n.inFlight.value.code;
    if c.cooldown <= 0 then done
    else
      match n.inFlight.value.result
      case Accepted => done.(times := n.times[code := now], log := n.log + [Queued(code, now, None)])
      case EvictedOldest(evicted) =>
        done.(times := n.times[code := now] - {evicted}, log := n.log + [Queued(code, now, Some(evicted))])
      case _ => done
  }

  /** A confirmation holds the executor from its enqueue to its record, and the clock is monotone. */
  predicate Enabled(n: Node, step: Step) {
    match step
    case ConfirmEnqueue(_, now) => n.inFlight.None? && n.clock <= now
    case ConfirmRecord(now) => n.inFlight.Some? && n.clock <= now
    case PoolStep(step) => !step.Enqueue?
    case Clear(_) => n.inFlight.None?
  }

  function After(n: Node, c: Config, step: Step): Node
    requires WellSized(c.limits) && Enabled(n, step)
  {
    match step
    case ConfirmEnqueue(code, now) => EnqueuedFor(n, c, code, now)
    case ConfirmRecord(now) => RecordedAt(n, c, now)
    case PoolStep(step) => n.(pool := CapturePool.After(n.pool, c.limits, step))
    case Clear(codes) => n.(times := n.times - (set code | code in codes), log := n.log + [Forgotten(codes)])
  }

  /** `states` is a run of `steps` from an idle node. */
  ghost predicate IsRun(c: Config, states: seq<Node>, steps: seq<Step>)
    requires WellSized(c.limits)
  {
    && |states| == |steps| + 1 && states[0] == IDLE
    && forall i :: 0 <= i < |steps| ==> Enabled(states[i], steps[i]) && states[i + 1] == After(states[i], c, steps[i])
  }

  // ---------------------------------------------------------------- the handler

  class CaptureTrigger {
    var times: map<string, int>
    const pool: CaptureThreadPool
    const cooldown: int

    constructor (pool: CaptureThreadPool, cooldown: int)
      ensures this.pool == pool && this.cooldown == cooldown && times == map[]
    {
      this.pool, this.cooldown, times := pool, cooldown, map[];
    }

    method SweepExpired(now: int)
      modifies this
      ensures times == Swept(old(times), now, cooldown)
    {
      var todo := times.Keys;
      while todo != {}
        invariant forall code :: code in todo ==> code in old(times)
        invariant forall code :: code in times <==>
                    code in old(times) && (code in todo || now - old(times)[code] < cooldown)
        invariant forall code :: code in times ==> times[code] == old(times)[code]
        decreases |todo|
      {
        var code :| code in todo;
        todo := todo - {code};
        if now - times[code] >= cooldown {
          times := times - {code};
        }
      }
      assert times == Swept(old(times), now, cooldown);
    }

    /** `capture_on_confirm` with nothing in between; `n` is the node it runs in. */
    method CaptureOnConfirm(code: string, sweepNow: int, now: int, ghost n: Node)
      requires WellSized(pool.limits) && n.inFlight.None? && n.clock <= sweepNow <= now
      requires n.times == times && n.pool == pool.Model()
      modifies this, pool
      ensures var c := Config(pool.limits, cooldown);
              var mid := EnqueuedFor(n, c, code, sweepNow);
              var after := if mid.inFlight.Some? then RecordedAt(mid, c, now) else mid;
              times == after.times && pool.Model() == after.pool
    {
      var onCooldown := false;
      if cooldown > 0 {
        SweepExpired(sweepNow);
        if code in times {
          onCooldown := sweepNow - times[code] < cooldown;
        }
      }
      if onCooldown {
        return;
      }
      var outcome := pool.EnqueueJob(code);
      match outcome {
        case Accepted =>
          if cooldown > 0 {
            times := times[code := now];
          }
        case EvictedOldest(evicted) =>
          if cooldown > 0 {
            times := times[code := now];
            times := times - {evicted};
          }
        case DroppedNewest =>
        case ShuttingDown =>
      }
    }

    method ForgetCleared(code: string, symptoms: seq<string>)
      modifies this
      ensures times == old(times) - (set c | c in [code] + symptoms)
    {
      times := times - {code};
      for i := 0 to |symptoms|
        invariant times == old(times) - (set c | c in [code] + symptoms[..i])
      {
        times := times - {symptoms[i]};
        assert [code] + symptoms[..i + 1] == [code] + symptoms[..i] + [symptoms[i]];
      }
      assert symptoms[..|symptoms|] == symptoms;
    }
  }

  // ---------------------------------------------------------------- what a cooldown entry means

  predicate Resets(e: Event, code: string) {
    e == Lost(code) || (e.Forgotten? && code in e.codes)
  }

  /** No event from `from` on took the code's pending capture or its fault away. */
  predicate Undisturbed(log: seq<Event>, code: string, from: int) {
    forall k :: 0 <= k < |log| && from <= k ==> !Resets(log[k], code)
  }

  /** `log[i]` queued a capture of `code` at `at`. */
  predicate QueuedAt(log: seq<Event>, i: int, code: string, at: int) {
    0 <= i < |log| && log[i].Queued? && log[i].code == code && log[i].at == at
  }

  /** The eviction a confirmation in flight has caused and not recorded yet. */
  predicate BeingLost(n: Node, code: string) {
    n.inFlight.Some? && n.inFlight.value.result == EvictedOldest(code)
  }

  /** A capture of the code was queued at `at`, kept its entry and was not disturbed since. */
  ghost predicate HasCapture(log: seq<Event>, code: string, at: int) {
    exists i :: QueuedAt(log, i, code, at) && Undisturbed(log, code, i) && !EvictedItself(log[i])
  }

  /** An entry was written when its capture was queued, and none of the code's jobs was evicted since. */
  ghost predicate EntryHolds(n: Node, code: string)
    requires code in n.times
  {
    HasCapture(n.log, code, n.times[code])
  }

  ghost predicate EntriesHold(n: Node) {
    forall code :: code in n.times && !BeingLost(n, code) ==> EntryHolds(n, code)
  }

  /** The capture pushed out an older job of its own code, so its entry was erased as soon as it was written. */
  predicate EvictedItself(e: Event) {
    e.Queued? && e.evicted == Some(e.code)
  }

  /** A capture queued and undisturbed since is still remembered, unless its cooldown is over or it evicted itself. */
  ghost predicate Remembered(n: Node, cooldown: int) {
    forall i, code, at ::
      QueuedAt(n.log, i, code, at) && Undisturbed(n.log, code, i) && !EvictedItself(n.log[i])
      ==> (code in n.times && at <= n.times[code]) || at + cooldown <= n.clock
  }

  /** Two captures of a code, undisturbed in between, are at least the cooldown apart. */
  ghost predicate SpacedPair(log: seq<Event>, cooldown: int, i: int, j: int) {
    forall code, at, later ::
      0 <= i < j && QueuedAt(log, i, code, at) && QueuedAt(log, j, code, later) && Undisturbed(log[..j], code, i)
      ==> later - at >= cooldown
  }

  /** They are, unless the earlier one evicted an older job of its own code. */
  ghost predicate Spaced(log: seq<Event>, cooldown: int) {
    forall i, j :: 0 <= i < j < |log| && !EvictedItself(log[i]) ==> SpacedPair(log, cooldown, i, j)
  }

  /** Every pair of captures is spaced. */
  ghost predicate AllSpaced(log: seq<Event>, cooldown: int) {
    forall i, j :: 0 <= i < j < |log| ==> SpacedPair(log, cooldown, i, j)
  }

  ghost predicate NodeOk(n: Node, c: Config) {
    && Conserved(n.pool, c.limits)
    && (c.cooldown <= 0 ==> n.times == map[])
    && EntriesHold(n)
    && Remembered(n, c.cooldown)
    && Spaced(n.log, c.cooldown)
    && (n.inFlight.Some? && c.cooldown > 0 ==> n.inFlight.value.code !in n.times)
    && (n.inFlight.Some? && n.inFlight.value.result.EvictedOldest? ==>
          n.log != [] && n.log[|n.log| - 1] == Lost(n.inFlight.value.result.evicted))
    && (forall i, code, at :: QueuedAt(n.log, i, code, at) ==> at <= n.clock)
    && (c.cooldown <= 0 ==> forall i :: 0 <= i < |n.log| ==> !n.log[i].Queued?)
  }

  // ---------------------------------------------------------------- appending to the log

  lemma UndisturbedPrefix(log: seq<Event>, e: Event, code: string, from: int)
    requires Undisturbed(log + [e], code, from)
    ensures Undisturbed(log, code, from)
  {
    forall k | 0 <= k < |log| && from <= k ensures !Resets(log[k], code) {
      assert (log + [e])[k] == log[k];
    }
  }

  lemma UndisturbedAppend(log: seq<Event>, e: Event, code: string, from: int)
    requires Undisturbed(log, code, from) && !Resets(e, code)
    ensures Undisturbed(log + [e], code, from)
  {
  }

  lemma SpacedAppend(log: seq<Event>, e: Event, cooldown: int)
    requires Spaced(log, cooldown)
    requires forall i, at ::
               e.Queued? && QueuedAt(log, i, e.code, at) && Undisturbed(log, e.code, i) && !EvictedItself(log[i])
               ==> at + cooldown <= e.at
    ensures Spaced(log + [e], cooldown)
  {
    var longer := log + [e];
    forall i, j | 0 <= i < j < |longer| && !EvictedItself(longer[i]) ensures SpacedPair(longer, cooldown, i, j) {
      forall code, at, later | QueuedAt(longer, i, code, at) && QueuedAt(longer, j, code, later) &&
                               Undisturbed(longer[..j], code, i)
        ensures later - at >= cooldown
      {
        assert longer[..j] == log[..j];
        assert QueuedAt(log, i, code, at) && !EvictedItself(log[i]);
        if j < |log| {
          assert QueuedAt(log, j, code, later) && SpacedPair(log, cooldown, i, j);
        } else {
          assert log[..j] == log;
        }
      }
    }
  }

  lemma RememberedAppend(n: Node, e: Event, cooldown: int)
    requires Remembered(n, cooldown) && !e.Queued?
    ensures Remembered(n.(log := n.log + [e]), cooldown)
  {
    var longer := n.log + [e];
    forall i, code, at | QueuedAt(longer, i, code, at) && Undisturbed(longer, code, i) && !EvictedItself(longer[i])
      ensures (code in n.times && at <= n.times[code]) || at + cooldown <= n.clock
    {
      assert QueuedAt(n.log, i, code, at) && !EvictedItself(n.log[i]);
      UndisturbedPrefix(n.log, e, code, i);
    }
  }

  lemma EntryAppend(log: seq<Event>, e: Event, code: string, at: int)
    requires HasCapture(log, code, at) && !Resets(e, code)
    ensures HasCapture(log + [e], code, at)
  {
    var i :| QueuedAt(log, i, code, at) && Undisturbed(log, code, i) && !EvictedItself(log[i]);
    UndisturbedAppend(log, e, code, i);
    assert QueuedAt(log + [e], i, code, at) && !EvictedItself((log + [e])[i]);
  }

  lemma ClockAppend(log: seq<Event>, e: Event, clock: int)
    requires forall i, code, at :: QueuedAt(log, i, code, at) ==> at <= clock
    requires e.Queued? ==> e.at <= clock
    ensures forall i, code, at :: QueuedAt(log + [e], i, code, at) ==> at <= clock
  {
    forall i, code, at | QueuedAt(log + [e], i, code, at) ensures at <= clock {
      if i < |log| {
        assert QueuedAt(log, i, code, at);
      }
    }
  }

  // ---------------------------------------------------------------- the steps

  lemma SweepOk(n: Node, c: Config, now: int)
    requires NodeOk(n, c) && n.inFlight.None? && n.clock <= now
    ensures NodeOk(n.(times := if c.cooldown > 0 then Swept(n.times, now, c.cooldown) else n.times, clock := now), c)
  {
    var after := n.(times := if c.cooldown > 0 then Swept(n.times, now, c.cooldown) else n.times, clock := now);
    forall code | code in after.times ensures EntryHolds(after, code) {
      assert EntryHolds(n, code);
    }
    assert Remembered(after, c.cooldown) by {
      forall i, code, at |
        QueuedAt(after.log, i, code, at) && Undisturbed(after.log, code, i) && !EvictedItself(after.log[i])
        ensures (code in after.times && at <= after.times[code]) || at + c.cooldown <= after.clock
      {
        assert QueuedAt(n.log, i, code, at);
      }
    }
  }

  /** An enqueue that evicts leaves the loss in the log and its outcome in flight. */
  lemma EvictingOk(n: Node, c: Config, pool: Pool, code: string, evicted: string)
    requires NodeOk(n, c) && n.inFlight.None? && Conserved(pool, c.limits)
    requires c.cooldown > 0 ==> code !in n.times
    ensures NodeOk(n.(pool := pool, inFlight := Some(Outcome(code, EvictedOldest(evicted))),
                      log := n.log + [Lost(evicted)]), c)
  {
    var e := Lost(evicted);
    var after := n.(pool := pool, inFlight := Some(Outcome(code, EvictedOldest(evicted))), log := n.log + [e]);
    SpacedAppend(n.log, e, c.cooldown);
    RememberedAppend(n, e, c.cooldown);
    ClockAppend(n.log, e, n.clock);
    forall other | other in after.times && !BeingLost(after, other) ensures EntryHolds(after, other) {
      assert EntryHolds(n, other);
      EntryAppend(n.log, e, other, n.times[other]);
    }
  }

  /** Any other outcome leaves the log as it is. */
  lemma OutcomeOk(n: Node, c: Config, pool: Pool, code: string, result: Result)
    requires NodeOk(n, c) && n.inFlight.None? && Conserved(pool, c.limits) && !result.EvictedOldest?
    requires c.cooldown > 0 ==> code !in n.times
    ensures NodeOk(n.(pool := pool, inFlight := Some(Outcome(code, result))), c)
  {
    var after := n.(pool := pool, inFlight := Some(Outcome(code, result)));
    forall other | other in after.times ensures EntryHolds(after, other) {
      assert EntryHolds(n, other);
    }
  }

  lemma EnqueueOk(n: Node, c: Config, code: string, now: int)
    requires WellSized(c.limits) && NodeOk(n, c) && n.inFlight.None? && n.clock <= now
    ensures NodeOk(EnqueuedFor(n, c, code, now), c)
  {
    SweepOk(n, c, now);
    var swept := n.(times := if c.cooldown > 0 then Swept(n.times, now, c.cooldown) else n.times, clock := now);
    StepConserves(n.pool, c.limits, Enqueue(code));
    if !OnCooldown(n, c, code, now) {
      var result, pool := EnqueueResult(n.pool, c.limits, code), CapturePool.After(n.pool, c.limits, Enqueue(code));
      if result.EvictedOldest? {
        EvictingOk(swept, c, pool, code, result.evicted);
      } else {
        OutcomeOk(swept, c, pool, code, result);
      }
    }
  }

  /** The event a successful enqueue is recorded with. */
  function RecordEvent(n: Node, now: int): Event
    requires n.inFlight.Some?
  {
    var o := n.inFlight.value;
    Queued(o.code, now, if o.result.EvictedOldest? then Some(o.result.evicted) else None)
  }

  lemma RecordedEntries(n: Node, c: Config, now: int)
    requires NodeOk(n, c) && n.inFlight.Some? && n.clock <= now && c.cooldown > 0
    requires n.inFlight.value.result == Accepted || n.inFlight.value.result.EvictedOldest?
    ensures EntriesHold(RecordedAt(n, c, now))
  {
    var after := RecordedAt(n, c, now);
    var e := RecordEvent(n, now);
    forall other | other in after.times ensures EntryHolds(after, other) {
      if other == e.code {
        assert QueuedAt(after.log, |n.log|, other, now) && Undisturbed(after.log, other, |n.log|);
      } else {
        assert EntryHolds(n, other);
        EntryAppend(n.log, e, other, n.times[other]);
      }
    }
  }

  lemma RecordedRemembered(n: Node, c: Config, now: int)
    requires NodeOk(n, c) && n.inFlight.Some? && n.clock <= now && c.cooldown > 0
    requires n.inFlight.value.result == Accepted || n.inFlight.value.result.EvictedOldest?
    ensures Remembered(RecordedAt(n, c, now), c.cooldown)
  {
    var after := RecordedAt(n, c, now);
    var e := RecordEvent(n, now);
    assert after.log == n.log + [e];
    forall i, code, at |
      QueuedAt(after.log, i, code, at) && Undisturbed(after.log, code, i) && !EvictedItself(after.log[i])
      ensures (code in after.times && at <= after.times[code]) || at + c.cooldown <= after.clock
    {
      if i < |n.log| {
        if n.inFlight.value.result.EvictedOldest? {
          assert after.log[|n.log| - 1] == Lost(n.inFlight.value.result.evicted);
          assert i <= |n.log| - 1 ==> !Resets(after.log[|n.log| - 1], code);
        }
        UndisturbedPrefix(n.log, e, code, i);
        assert QueuedAt(n.log, i, code, at) && !EvictedItself(n.log[i]);
      }
    }
  }

  lemma RecordOk(n: Node, c: Config, now: int)
    requires NodeOk(n, c) && n.inFlight.Some? && n.clock <= now
    ensures NodeOk(RecordedAt(n, c, now), c)
  {
    var result := n.inFlight.value.result;
    if c.cooldown > 0 && (result == Accepted || result.EvictedOldest?) {
      var e := RecordEvent(n, now);
      forall i, at | QueuedAt(n.log, i, e.code, at) && Undisturbed(n.log, e.code, i) && !EvictedItself(n.log[i])
        ensures at + c.cooldown <= e.at
      {
        assert e.code !in n.times;
      }
      SpacedAppend(n.log, e, c.cooldown);
      RecordedEntries(n, c, now);
      RecordedRemembered(n, c, now);
      ClockAppend(n.log, e, now);
    } else {
      var after := RecordedAt(n, c, now);
      forall other | other in after.times ensures EntryHolds(after, other) {
        assert EntryHolds(n, other);
      }
      assert Remembered(after, c.cooldown) by {
        forall i, code, at |
          QueuedAt(after.log, i, code, at) && Undisturbed(after.log, code, i) && !EvictedItself(after.log[i])
          ensures (code in after.times && at <= after.times[code]) || at + c.cooldown <= after.clock
        {
          assert QueuedAt(n.log, i, code, at);
        }
      }
    }
  }

  lemma ClearOk(n: Node, c: Config, codes: seq<string>)
    requires WellSized(c.limits) && NodeOk(n, c) && n.inFlight.None?
    ensures NodeOk(After(n, c, Clear(codes)), c)
  {
    var after := After(n, c, Clear(codes));
    var e := Forgotten(codes);
    SpacedAppend(n.log, e, c.cooldown);
    ClockAppend(n.log, e, n.clock);
    forall i, code, at |
      QueuedAt(after.log, i, code, at) && Undisturbed(after.log, code, i) && !EvictedItself(after.log[i])
      ensures (code in after.times && at <= after.times[code]) || at + c.cooldown <= after.clock
    {
      assert !Resets(after.log[|n.log|], code);
      assert QueuedAt(n.log, i, code, at) && !EvictedItself(n.log[i]);
      UndisturbedPrefix(n.log, e, code, i);
    }
    forall other | other in after.times ensures EntryHolds(after, other) {
      assert EntryHolds(n, other);
      EntryAppend(n.log, e, other, n.times[other]);
    }
  }

  lemma PoolStepOk(n: Node, c: Config, step: CapturePool.Step)
    requires WellSized(c.limits) && NodeOk(n, c) && !step.Enqueue?
    ensures NodeOk(After(n, c, PoolStep(step)), c)
  {
    var after := After(n, c, PoolStep(step));
    StepConserves(n.pool, c.limits, step);
    forall other | other in after.times && !BeingLost(after, other) ensures EntryHolds(after, other) {
      assert EntryHolds(n, other);
    }
  }

  /**
   In every interleaving: the queue conserves its jobs; a code in the cooldown map has had no job
   evicted and was not cleared since its entry was written; and two captures of a code with neither
   in between are at least the cooldown apart, unless the earlier one evicted an older job of its own
   code.
   */
  lemma {:induction false} RunsKeepCooldowns(c: Config, states: seq<Node>, steps: seq<Step>)
    requires WellSized(c.limits) && IsRun(c, states, steps)
    ensures NodeOk(states[|steps|], c)
    decreases |steps|
  {
    if steps == [] {
    } else {
      var last := |steps| - 1;
      RunsKeepCooldowns(c, states[..|steps|], steps[..last]);
      var n := states[last];
      match steps[last] {
        case ConfirmEnqueue(code, now) => EnqueueOk(n, c, code, now);
        case ConfirmRecord(now) => RecordOk(n, c, now);
        case PoolStep(step) => PoolStepOk(n, c, step);
        case Clear(codes) => ClearOk(n, c, codes);
      }
    }
  }
}
