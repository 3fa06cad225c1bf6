/** When the recapture cooldown keeps every two captures of a fault apart, and when it does not. */
module CooldownSpacing {
  import opened Basics
  import opened CapturePool
  import opened CaptureCooldown

  // ---------------------------------------------------------------- a queue that rejects never evicts

  predicate NothingEvicted(n: Node) {
    && (n.inFlight.Some? ==> !n.inFlight.value.result.EvictedOldest?)
    && forall i :: 0 <= i < |n.log| ==> !EvictedItself(n.log[i])
  }

  lemma {:induction false} RejectingNeverEvicts(c: Config, states: seq<Node>, steps: seq<CaptureCooldown.Step>)
    requires WellSized(c.limits) && IsRun(c, states, steps) && c.limits.policy == RejectNewest
    ensures NothingEvicted(states[|steps|])
    decreases |steps|
  {
    if steps == [] {
    } else {
      RejectingNeverEvicts(c, states[..|steps|], steps[..|steps| - 1]);
    }
  }

  lemma RejectingIsSpaced(c: Config, states: seq<Node>, steps: seq<CaptureCooldown.Step>)
    requires WellSized(c.limits) && IsRun(c, states, steps) && (c.cooldown <= 0 || c.limits.policy == RejectNewest)
    ensures AllSpaced(states[|steps|].log, c.cooldown)
  {
    RunsKeepCooldowns(c, states, steps);
    if c.limits.policy == RejectNewest {
      RejectingNeverEvicts(c, states, steps);
    }
  }

  // ---------------------------------------------------------------- a queue that evicts may evict its own code

  lemma Extend(c: Config, states: seq<Node>, steps: seq<CaptureCooldown.Step>, step: CaptureCooldown.Step)
    requires WellSized(c.limits) && IsRun(c, states, steps) && Enabled(states[|steps|], step)
    ensures IsRun(c, states + [CaptureCooldown.After(states[|steps|], c, step)], steps + [step])
  {
  }

  /** An idle node at time zero with `k` captures of one code pending and no cooldown entry. */
  predicate Holding(n: Node, code: string, k: nat) {
    && n.inFlight == None && n.clock == 0 && n.times == map[]
    && !n.pool.stop && |n.pool.queue| == k && forall i :: 0 <= i < k ==> n.pool.queue[i] == code
  }

  /** A confirmation at time zero that finds room. */
  lemma ConfirmOnce(c: Config, states: seq<Node>, steps: seq<CaptureCooldown.Step>, code: string, k: nat)
    returns (longer: seq<Node>, more: seq<CaptureCooldown.Step>)
    requires WellSized(c.limits) && IsRun(c, states, steps) && c.cooldown > 0
    requires Holding(states[|steps|], code, k) && k < c.limits.depth
    ensures IsRun(c, longer, more)
    ensures longer[|more|].log == states[|steps|].log + [Queued(code, 0, None)]
    ensures Holding(longer[|more|].(times := map[]), code, k + 1) && longer[|more|].times == map[code := 0]
  {
    var n := states[|steps|];
    var mid := EnqueuedFor(n, c, code, 0);
    assert Swept(n.times, 0, c.cooldown) == map[];
    Extend(c, states, steps, ConfirmEnqueue(code, 0));
    var done := RecordedAt(mid, c, 0);
    assert done.times == map[code := 0];
    Extend(c, states + [mid], steps + [ConfirmEnqueue(code, 0)], ConfirmRecord(0));
    longer, more := states + [mid] + [done], steps + [ConfirmEnqueue(code, 0)] + [ConfirmRecord(0)];
  }

  /** Confirming and clearing one fault fills the queue with its captures. */
  lemma {:induction false} FillUp(c: Config, code: string, k: nat)
    returns (states: seq<Node>, steps: seq<CaptureCooldown.Step>)
    requires WellSized(c.limits) && c.cooldown > 0 && k <= c.limits.depth
    ensures IsRun(c, states, steps) && Holding(states[|steps|], code, k)
  {
    if k == 0 {
      states, steps := [IDLE], [];
    } else {
      states, steps := FillUp(c, code, k - 1);
      states, steps := ConfirmOnce(c, states, steps, code, k - 1);
      var n := states[|steps|];
      Extend(c, states, steps, Clear([code]));
      var cleared := CaptureCooldown.After(n, c, Clear([code]));
      assert cleared.times == map[];
      states, steps := states + [cleared], steps + [Clear([code])];
    }
  }

  /** A confirmation that finds the queue full of its own code's jobs evicts one and keeps no entry. */
  lemma EvictOwn(c: Config, states: seq<Node>, steps: seq<CaptureCooldown.Step>, code: string)
    returns (longer: seq<Node>, more: seq<CaptureCooldown.Step>)
    requires WellSized(c.limits) && IsRun(c, states, steps) && c.cooldown > 0 && c.limits.policy == DropOldest
    requires Holding(states[|steps|], code, c.limits.depth)
    ensures IsRun(c, longer, more) && Holding(longer[|more|], code, c.limits.depth)
    ensures longer[|more|].log == states[|steps|].log + [Lost(code), Queued(code, 0, Some(code))]
  {
    var n := states[|steps|];
    var mid := EnqueuedFor(n, c, code, 0);
    assert Swept(n.times, 0, c.cooldown) == map[];
    Extend(c, states, steps, ConfirmEnqueue(code, 0));
    var done := RecordedAt(mid, c, 0);
    assert done.times == map[];
    assert n.log + [Lost(code)] + [Queued(code, 0, Some(code))] == n.log + [Lost(code), Queued(code, 0, Some(code))];
    Extend(c, states + [mid], steps + [ConfirmEnqueue(code, 0)], ConfirmRecord(0));
    longer, more := states + [mid] + [done], steps + [ConfirmEnqueue(code, 0)] + [ConfirmRecord(0)];
  }

  /**
   For every depth, with the oldest job evicted when the queue is full: a capture that pushes out an
   older job of its own code leaves no cooldown entry, and the next capture of the code follows at once.
   */
  lemma SelfEvictionBreaksSpacing(c: Config, code: string)
    returns (states: seq<Node>, steps: seq<CaptureCooldown.Step>, i: nat)
    requires WellSized(c.limits) && c.cooldown > 0 && c.limits.policy == DropOldest
    ensures IsRun(c, states, steps)
    ensures var log := states[|steps|].log;
            i + 1 < |log| && EvictedItself(log[i]) && !SpacedPair(log, c.cooldown, i, i + 1)
  {
    states, steps := FillUp(c, code, c.limits.depth);
    states, steps := EvictOwn(c, states, steps, code);
    i := |states[|steps|].log| - 1;
    var n := states[|steps|];
    var taken := CaptureCooldown.After(n, c, PoolStep(Take));
    Extend(c, states, steps, PoolStep(Take));
    states, steps := states + [taken], steps + [PoolStep(Take)];
    states, steps := ConfirmOnce(c, states, steps, code, c.limits.depth - 1);
    var log := states[|steps|].log;
    assert QueuedAt(log, i, code, 0) && QueuedAt(log, i + 1, code, 0) && Undisturbed(log[..i + 1], code, i);
  }

  /** The cooldown spaces every two undisturbed captures in every run exactly if it is off or a full queue rejects. */
  lemma AlwaysSpacedIff(c: Config)
    requires WellSized(c.limits)
    ensures (forall states: seq<Node>, steps: seq<CaptureCooldown.Step> ::
               IsRun(c, states, steps) ==> AllSpaced(states[|steps|].log, c.cooldown)) <==>
            c.cooldown <= 0 || c.limits.policy == RejectNewest
  {
    if c.cooldown <= 0 || c.limits.policy == RejectNewest {
      forall states: seq<Node>, steps: seq<CaptureCooldown.Step> | IsRun(c, states, steps)
        ensures AllSpaced(states[|steps|].log, c.cooldown)
      {
        RejectingIsSpaced(c, states, steps);
      }
    } else {
      var states, steps, i := SelfEvictionBreaksSpacing(c, "A");
      assert !AllSpaced(states[|steps|].log, c.cooldown);
    }
  }

  /**
   In every run a confirmation is held back exactly if the cooldown is on and an earlier capture of the code,
   undisturbed since and not erased by its own eviction, is less than a cooldown old. Every other one reaches
   the queue.
   */
  lemma HeldBackExactly(c: Config, states: seq<Node>, steps: seq<CaptureCooldown.Step>, code: string, now: int)
    requires WellSized(c.limits) && IsRun(c, states, steps)
    requires var n := states[|steps|]; n.inFlight.None? && n.clock <= now
    ensures var n := states[|steps|];
            var after := CaptureCooldown.After(n, c, ConfirmEnqueue(code, now));
            && (after.inFlight.None? <==>
                  c.cooldown > 0 && exists at :: HasCapture(n.log, code, at) && now - at < c.cooldown)
            && (after.inFlight.Some? ==>
                  && after.pool == CapturePool.After(n.pool, c.limits, Enqueue(code))
                  && after.inFlight.value == Outcome(code, EnqueueResult(n.pool, c.limits, code)))
            && (after.inFlight.None? ==> after.pool == n.pool)
  {
    var n := states[|steps|];
    RunsKeepCooldowns(c, states, steps);
    if OnCooldown(n, c, code, now) {
      assert EntryHolds(n, code);
      assert HasCapture(n.log, code, n.times[code]) && now - n.times[code] < c.cooldown;
    } else if c.cooldown > 0 {
      forall at | HasCapture(n.log, code, at) ensures now - at >= c.cooldown {
        var i :| QueuedAt(n.log, i, code, at) && Undisturbed(n.log, code, i) && !EvictedItself(n.log[i]);
      }
    }
  }

  /** A clear forgets exactly the entries of the codes it names. */
  lemma ClearForgets(n: Node, c: Config, codes: seq<string>, code: string)
    requires WellSized(c.limits) && n.inFlight.None?
    ensures var after := CaptureCooldown.After(n, c, Clear(codes));
            code in after.times <==> code in n.times && code !in codes
  {
  }

  /**
   Recording the outcome ends the confirmation; the code has an entry from then on exactly if the cooldown is
   on and its job was accepted, or accepted for a job of another code.
   */
  lemma RecordEndsConfirmation(c: Config, states: seq<Node>, steps: seq<CaptureCooldown.Step>, now: int)
    requires WellSized(c.limits) && IsRun(c, states, steps)
    requires var n := states[|steps|]; n.inFlight.Some? && n.clock <= now
    ensures var n := states[|steps|];
            var after, code := CaptureCooldown.After(n, c, ConfirmRecord(now)), n.inFlight.value.code;
            var result := n.inFlight.value.result;
            && after.inFlight.None? && after.pool == n.pool
            && (code in after.times <==>
                  c.cooldown > 0 && (result == Accepted || (result.EvictedOldest? && result.evicted != code)))
            && (code in after.times ==> after.times[code] == now)
  {
    RunsKeepCooldowns(c, states, steps);
  }
}
