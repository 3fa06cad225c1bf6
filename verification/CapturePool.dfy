/** The bounded capture queue: enqueue, worker take and shutdown as atomic steps under the queue lock. */
module CapturePool {
  import opened Basics

  datatype Policy = DropOldest | RejectNewest

  datatype Result = Accepted | DroppedNewest | EvictedOldest(evicted: string) | ShuttingDown

  /** How a job left the queue. */
  datatype Fate = Taken | Evicted | Discarded

  datatype Gone = Gone(code: string, fate: Fate)

  /** The queue, and the history of what was accepted, what left and what was turned away for lack of room. */
  datatype Pool = Pool(
    queue: seq<string>,
    stop: bool,
    dropped: nat,
    accepted: seq<string>,
    gone: seq<Gone>,
    rejected: nat)

  const EMPTY_POOL := Pool([], false, 0, [], [], 0)

  /** The configured depth is at least one. */
  datatype Limits = Limits(depth: nat, policy: Policy)

  predicate WellSized(limits: Limits) { limits.depth > 0 }

  // ---------------------------------------------------------------- steps, on values

  function EnqueueResult(p: Pool, limits: Limits, code: string): Result
    requires WellSized(limits)
  {
    if p.stop then ShuttingDown
    else if |p.queue| < limits.depth then Accepted
    else if limits.policy == RejectNewest then DroppedNewest
    else EvictedOldest(p.queue[0])
  }

  function Enqueued(p: Pool, limits: Limits, code: string): Pool
    requires WellSized(limits)
  {
    match EnqueueResult(p, limits, code)
    case ShuttingDown => p
    case Accepted => p.(queue := p.queue + [code], accepted := p.accepted + [code])
    case DroppedNewest => p.(dropped := p.dropped + 1, rejected := p.rejected + 1)
    case EvictedOldest(evicted) =>
      p.(queue := p.queue[1..] + [code], accepted := p.accepted + [code], dropped := p.dropped + 1,
         gone := p.gone + [Gone(evicted, Evicted)])
  }

  /** A worker takes the front job, if it may take one at all. */
  function TakenFrom(p: Pool): Pool {
    if p.stop || p.queue == [] then p
    else p.(queue := p.queue[1..], gone := p.gone + [Gone(p.queue[0], Taken)])
  }

  function WithFate(codes: seq<string>, fate: Fate): seq<Gone> {
    if codes == [] then [] else [Gone(codes[0], fate)] + WithFate(codes[1..], fate)
  }

  function ShutDown(p: Pool): Pool {
    if p.stop then p
    else p.(stop := true, queue := [], gone := p.gone + WithFate(p.queue, Discarded))
  }

  datatype Step = Enqueue(code: string) | Take | Shutdown

  function After(p: Pool, limits: Limits, step: Step): Pool
    requires WellSized(limits)
  {
    match step
    case Enqueue(code) => Enqueued(p, limits, code)
    case Take => TakenFrom(p)
    case Shutdown => ShutDown(p)
  }

  function Run(p: Pool, limits: Limits, steps: seq<Step>): Pool
    requires WellSized(limits)
  {
    if steps == [] then p else After(Run(p, limits, steps[..|steps| - 1]), limits, steps[|steps| - 1])
  }

  // ---------------------------------------------------------------- the class

  class CaptureThreadPool {
    var queue: seq<string>
    var stop: bool
    var dropped: nat
    const limits: Limits

    ghost var accepted: seq<string>
    ghost var gone: seq<Gone>
    ghost var rejected: nat

    ghost function Model(): Pool
      reads this
    {
      Pool(queue, stop, dropped, accepted, gone, rejected)
    }

    constructor (queueDepth: nat, policy: Policy)
      ensures WellSized(limits) && Model() == EMPTY_POOL
      ensures limits == Limits(if queueDepth == 0 then 1 else queueDepth, policy)
    {
      limits := Limits(if queueDepth == 0 then 1 else queueDepth, policy);
      queue, stop, dropped := [], false, 0;
      accepted, gone, rejected := [], [], 0;
    }

    method EnqueueJob(code: string) returns (r: Result)
      requires WellSized(limits)
      modifies this
      ensures r == EnqueueResult(old(Model()), limits, code)
      ensures Model() == After(old(Model()), limits, Enqueue(code))
    {
      if stop {
        return ShuttingDown;
      }
      if |queue| < limits.depth {
        queue := queue + [code];
        accepted := accepted + [code];
        return Accepted;
      }
      dropped := dropped + 1;
      if limits.policy == RejectNewest {
        rejected := rejected + 1;
        return DroppedNewest;
      }
      var evicted := queue[0];
      queue := queue[1..];
      queue := queue + [code];
      accepted := accepted + [code];
      gone := gone + [Gone(evicted, Evicted)];
      r := EvictedOldest(evicted);
    }

    /** One turn of a worker; it blocks (here: gets nothing) while the queue is empty. */
    method TakeJob() returns (job: string, got: bool)
      requires WellSized(limits)
      modifies this
      ensures got <==> !old(stop) && old(queue) != []
      ensures got ==> job == old(queue)[0]
      ensures Model() == After(old(Model()), limits, Take)
    {
      job, got := "", false;
      if stop {
        return;
      }
      if queue != [] {
        job, got := queue[0], true;
        queue := queue[1..];
        gone := gone + [Gone(job, Taken)];
      }
    }

    method ShutdownPool()
      requires WellSized(limits)
      modifies this
      ensures Model() == After(old(Model()), limits, Shutdown)
    {
      if stop {
        return;
      }
      stop := true;
      gone := gone + WithFate(queue, Discarded);
      queue := [];
    }
  }

  // ---------------------------------------------------------------- every interleaving

  function CodesOf(gone: seq<Gone>): seq<string> {
    if gone == [] then [] else CodesOf(gone[..|gone| - 1]) + [gone[|gone| - 1].code]
  }

  function Count(gone: seq<Gone>, fate: Fate): nat {
    if gone == [] then 0 else Count(gone[..|gone| - 1], fate) + (if gone[|gone| - 1].fate == fate then 1 else 0)
  }

  /**
   The jobs that left, in the order they left, followed by the pending ones are the accepted jobs in
   the order they were accepted; nothing is lost, doubled or overtaken.
   */
  predicate Conserved(p: Pool, limits: Limits) {
    && p.accepted == CodesOf(p.gone) + p.queue
    && |p.queue| <= limits.depth
    && p.dropped == Count(p.gone, Evicted) + p.rejected
    && (p.stop ==> p.queue == [])
  }

  lemma GoneAppend(gone: seq<Gone>, g: Gone, fate: Fate)
    ensures CodesOf(gone + [g]) == CodesOf(gone) + [g.code]
    ensures Count(gone + [g], fate) == Count(gone, fate) + (if g.fate == fate then 1 else 0)
  {
    assert (gone + [g])[..|gone|] == gone;
  }

  lemma {:induction false} GoneConcat(gone: seq<Gone>, codes: seq<string>, fate: Fate, other: Fate)
    ensures CodesOf(gone + WithFate(codes, fate)) == CodesOf(gone) + codes
    ensures Count(gone + WithFate(codes, fate), other) == Count(gone, other) + (if fate == other then |codes| else 0)
    decreases codes
  {
    if codes == [] {
      assert gone + WithFate(codes, fate) == gone;
    } else {
      var g, rest := Gone(codes[0], fate), codes[1..];
      Reassociate(gone, [g], WithFate(rest, fate));
      GoneConcat(gone + [g], rest, fate, other);
      GoneAppend(gone, g, other);
      Reassociate(CodesOf(gone), [codes[0]], rest);
      assert codes == [codes[0]] + rest;
    }
  }

  lemma EnqueueConserves(p: Pool, limits: Limits, code: string)
    requires WellSized(limits) && Conserved(p, limits)
    ensures Conserved(Enqueued(p, limits, code), limits)
  {
    var left := CodesOf(p.gone);
    if EnqueueResult(p, limits, code) == Accepted {
      Reassociate(left, p.queue, [code]);
    } else if EnqueueResult(p, limits, code).EvictedOldest? {
      GoneAppend(p.gone, Gone(p.queue[0], Evicted), Evicted);
      MoveFront(left, p.queue);
      Reassociate(left + [p.queue[0]], p.queue[1..], [code]);
    }
  }

  lemma MoveFront(left: seq<string>, queue: seq<string>)
    requires queue != []
    ensures (left + [queue[0]]) + queue[1..] == left + queue
  {
    Reassociate(left, [queue[0]], queue[1..]);
    assert queue == [queue[0]] + queue[1..];
  }

  lemma StepConserves(p: Pool, limits: Limits, step: Step)
    requires WellSized(limits) && Conserved(p, limits)
    ensures Conserved(After(p, limits, step), limits)
  {
    match step {
      case Enqueue(code) => EnqueueConserves(p, limits, code);
      case Take =>
        if !p.stop && p.queue != [] {
          GoneAppend(p.gone, Gone(p.queue[0], Taken), Evicted);
          MoveFront(CodesOf(p.gone), p.queue);
        }
      case Shutdown =>
        if !p.stop {
          GoneConcat(p.gone, p.queue, Discarded, Evicted);
          assert CodesOf(p.gone) + p.queue + [] == CodesOf(p.gone) + p.queue;
        }
    }
  }

  lemma {:induction false} RunsConserve(limits: Limits, steps: seq<Step>)
    requires WellSized(limits)
    ensures Conserved(Run(EMPTY_POOL, limits, steps), limits)
  {
    if steps == [] {
    } else {
      RunsConserve(limits, steps[..|steps| - 1]);
      StepConserves(Run(EMPTY_POOL, limits, steps[..|steps| - 1]), limits, steps[|steps| - 1]);
    }
  }

  lemma {:induction false} FatesPartition(gone: seq<Gone>)
    ensures |CodesOf(gone)| == |gone| == Count(gone, Taken) + Count(gone, Evicted) + Count(gone, Discarded)
  {
    if gone == [] {
    } else {
      FatesPartition(gone[..|gone| - 1]);
    }
  }

  /** Accepted jobs are pending, taken, evicted or discarded, and each job left in its turn of acceptance. */
  lemma AcceptedAccountedFor(limits: Limits, steps: seq<Step>)
    requires WellSized(limits)
    ensures var p := Run(EMPTY_POOL, limits, steps);
            && |p.accepted| == |p.queue| + Count(p.gone, Taken) + Count(p.gone, Evicted) + Count(p.gone, Discarded)
            && p.dropped == Count(p.gone, Evicted) + p.rejected
            && forall i :: 0 <= i < |p.gone| ==> i < |p.accepted| && p.gone[i].code == p.accepted[i]
  {
    var p := Run(EMPTY_POOL, limits, steps);
    RunsConserve(limits, steps);
    FatesPartition(p.gone);
    forall i | 0 <= i < |p.gone| ensures i < |p.accepted| && p.gone[i].code == p.accepted[i] {
      CodeAt(p.gone, i);
    }
  }

  lemma {:induction false} CodeAt(gone: seq<Gone>, i: nat)
    requires i < |gone|
    ensures i < |CodesOf(gone)| && CodesOf(gone)[i] == gone[i].code
  {
    FatesPartition(gone);
    if i < |gone| - 1 {
      CodeAt(gone[..|gone| - 1], i);
    } else {
      FatesPartition(gone[..|gone| - 1]);
    }
  }

  /** Once stopped, a pool never changes again: nothing is accepted, taken or evicted. */
  lemma {:induction false} StoppedForGood(p: Pool, limits: Limits, steps: seq<Step>)
    requires WellSized(limits) && p.stop
    ensures Run(p, limits, steps) == p
  {
    if steps == [] {
    } else {
      StoppedForGood(p, limits, steps[..|steps| - 1]);
    }
  }

  // ---------------------------------------------------------------- shutdown

  /** A shutdown in a run leaves a stopped, empty pool, and every pending job discarded in its order. */
  lemma ShutdownDiscards(limits: Limits, steps: seq<Step>)
    requires WellSized(limits)
    ensures var p, after := Run(EMPTY_POOL, limits, steps), Run(EMPTY_POOL, limits, steps + [Shutdown]);
            && after.stop && after.queue == [] && after.accepted == p.accepted
            && Count(after.gone, Discarded) == Count(p.gone, Discarded) + |p.queue|
            && Count(after.gone, Taken) == Count(p.gone, Taken)
            && Count(after.gone, Evicted) == Count(p.gone, Evicted)
  {
    assert (steps + [Shutdown])[..|steps|] == steps;
    var p := Run(EMPTY_POOL, limits, steps);
    RunsConserve(limits, steps);
    GoneConcat(p.gone, p.queue, Discarded, Discarded);
    GoneConcat(p.gone, p.queue, Discarded, Taken);
    GoneConcat(p.gone, p.queue, Discarded, Evicted);
  }

  /** A pool is stopped exactly if it was shut down; every enqueue from then on is refused as such. */
  lemma {:induction false} StoppedIffShutDown(limits: Limits, steps: seq<Step>, code: string)
    requires WellSized(limits)
    ensures var p := Run(EMPTY_POOL, limits, steps);
            && (p.stop <==> exists i :: 0 <= i < |steps| && steps[i].Shutdown?)
            && (EnqueueResult(p, limits, code) == ShuttingDown <==> p.stop)
  {
    if steps == [] {
    } else {
      var init, last := steps[..|steps| - 1], steps[|steps| - 1];
      StoppedIffShutDown(limits, init, code);
      if i :| 0 <= i < |steps| && steps[i].Shutdown? {
        assert i < |init| ==> init[i].Shutdown?;
      }
      if i :| 0 <= i < |init| && init[i].Shutdown? {
        assert steps[i].Shutdown?;
      }
    }
  }

  // ---------------------------------------------------------------- how far the queue fills

  function Enqueues(codes: seq<string>): seq<Step> {
    if codes == [] then [] else Enqueues(codes[..|codes| - 1]) + [Enqueue(codes[|codes| - 1])]
  }

  lemma RunMore(limits: Limits, steps: seq<Step>, step: Step)
    requires WellSized(limits)
    ensures Run(EMPTY_POOL, limits, steps + [step]) == After(Run(EMPTY_POOL, limits, steps), limits, step)
  {
    assert (steps + [step])[..|steps|] == steps;
  }

  /** What is pending after enqueues alone: the newest jobs, or the first, as many as fit. */
  function Pending(codes: seq<string>, limits: Limits): seq<string> {
    if |codes| <= limits.depth then codes
    else if limits.policy == DropOldest then codes[|codes| - limits.depth..]
    else codes[..limits.depth]
  }

  lemma PendingSnoc(codes: seq<string>, code: string, limits: Limits)
    requires WellSized(limits)
    ensures var before := Pending(codes, limits);
            Pending(codes + [code], limits) ==
            if |codes| < limits.depth then before + [code]
            else if limits.policy == DropOldest then before[1..] + [code]
            else before
  {
    var longer := codes + [code];
    if |codes| >= limits.depth && limits.policy == DropOldest {
      assert longer[|longer| - limits.depth..] == Pending(codes, limits)[1..] + [code];
    } else if |codes| >= limits.depth {
      assert longer[..limits.depth] == codes[..limits.depth];
    }
  }

  /**
   Without takes the queue fills to its depth before anything is turned away; beyond it the newest jobs are
   pending under one policy and the first under the other, and every job in excess is counted as dropped.
   */
  lemma {:induction false} QueueFillsToDepth(limits: Limits, codes: seq<string>)
    requires WellSized(limits)
    ensures Filled(Run(EMPTY_POOL, limits, Enqueues(codes)), limits, codes)
  {
    if codes == [] {
    } else {
      var init, last := codes[..|codes| - 1], codes[|codes| - 1];
      QueueFillsToDepth(limits, init);
      RunMore(limits, Enqueues(init), Enqueue(last));
      assert codes == init + [last];
      FillsOneMore(Run(EMPTY_POOL, limits, Enqueues(init)), limits, init, last);
    }
  }

  predicate Filled(p: Pool, limits: Limits, codes: seq<string>) {
    && p.queue == Pending(codes, limits) && !p.stop
    && p.dropped == if |codes| <= limits.depth then 0 else |codes| - limits.depth
  }

  lemma FillsOneMore(p: Pool, limits: Limits, codes: seq<string>, code: string)
    requires WellSized(limits) && Filled(p, limits, codes)
    ensures Filled(Enqueued(p, limits, code), limits, codes + [code])
  {
    PendingSnoc(codes, code, limits);
  }

  /** A worker that finds a running, non-empty pool takes the oldest pending job and leaves the others in order. */
  lemma TakeTakesOldest(limits: Limits, steps: seq<Step>)
    requires WellSized(limits)
    ensures var p, after := Run(EMPTY_POOL, limits, steps), Run(EMPTY_POOL, limits, steps + [Take]);
            if p.stop || p.queue == [] then after == p
            else p.queue == [after.gone[|after.gone| - 1].code] + after.queue &&
                 after.gone == p.gone + [Gone(p.queue[0], Taken)]
  {
    assert (steps + [Take])[..|steps|] == steps;
  }
}
