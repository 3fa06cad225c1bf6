/** The debounce state machine both storage backends share: a bounded counter with a hysteresis latch. */
module Debounce {
  import opened Basics

  datatype Status = Unset | Prefailed | Prepassed | Confirmed | Healed | Cleared

  datatype Config = Config(
    confirmationThreshold: int,
    healingEnabled: bool,
    healingThreshold: int,
    criticalImmediateConfirm: bool)

  /** What the storage layer expects of every configuration it is handed. */
  predicate Sane(c: Config) {
    c.confirmationThreshold < 0 <= c.healingThreshold
  }

  function Clamp(counter: int, c: Config): int {
    if counter < c.confirmationThreshold then c.confirmationThreshold
    else if counter > c.healingThreshold then c.healingThreshold
    else counter
  }

  predicate InBand(counter: int, c: Config) {
    c.confirmationThreshold <= counter <= c.healingThreshold
  }

  function ComputeStatus(counter: int, current: Status, c: Config): Status {
    if counter <= c.confirmationThreshold then Confirmed
    else if c.healingEnabled && counter >= c.healingThreshold then Healed
    else if current == Confirmed || current == Healed then current
    else if counter < 0 then Prefailed
    else if counter > 0 then Prepassed
    else current
  }

  predicate IsNearMiss(failed: bool, resulting: Status) {
    failed && resulting != Confirmed
  }

  /** `sanitize_debounce_config`: the repaired configuration, and whether it needed no repair. */
  function Sanitize(c: Config): (r: (Config, bool))
    ensures Sane(r.0)
    ensures r.1 <==> Sane(c)
    ensures r.1 <==> r.0 == c
  {
    var confirm := if c.confirmationThreshold >= 0 then -1 else c.confirmationThreshold;
    var heal := if c.healingThreshold < 0 then 3 else c.healingThreshold;
    (c.(confirmationThreshold := confirm, healingThreshold := heal),
     c.confirmationThreshold < 0 && c.healingThreshold >= 0)
  }

  /** A threshold that is usable stays; a bad one becomes -1 for confirmation and 3 for healing. */
  lemma SanitizeRepairs(c: Config)
    ensures var r := Sanitize(c).0;
            && r.confirmationThreshold == (if c.confirmationThreshold < 0 then c.confirmationThreshold else -1)
            && r.healingThreshold == (if 0 <= c.healingThreshold then c.healingThreshold else 3)
            && r.healingEnabled == c.healingEnabled && r.criticalImmediateConfirm == c.criticalImmediateConfirm
  {
  }

  // ---------------------------------------------------------------- one report

  /** The debounce part of a stored fault. */
  datatype Core = Core(status: Status, counter: int)

  function Decide(counter: int, current: Status, bypass: bool, c: Config): Core {
    Core(if bypass then Confirmed else ComputeStatus(counter, current, c), counter)
  }

  /** A report against a stored fault, or none; `bypass` is a CRITICAL report under immediate confirmation. */
  function Report(fault: Option<Core>, failed: bool, bypass: bool, c: Config): Option<Core> {
    match fault
    case None => if failed then Some(Decide(-1, Unset, bypass, c)) else None
    case Some(core) =>
      if core.status == Cleared then
        if failed then Some(Decide(-1, Cleared, bypass, c)) else fault
      else
        var counter := Clamp(core.counter, c);
        if failed then Some(Decide(Clamp(counter - 1, c), core.status, bypass, c))
        else Some(Decide(Clamp(counter + 1, c), core.status, false, c))
  }

  /** The statuses a stored fault may move between in one report. */
  predicate AllowedMove(before: Status, after: Status, failed: bool) {
    && (before == Confirmed ==> after == Confirmed || after == Healed)
    && (before == Healed ==> after == Healed || after == Confirmed)
    && (before == Cleared && !failed ==> after == Cleared)
    && (failed && after == Healed ==> before == Healed)
    && (!failed && after == Confirmed ==> before == Confirmed)
    && (failed ==> after != Cleared && after != Unset)
  }

  /**
   Whatever configurations earlier reports used: a report leaves the counter in its own band, a
   FAILED report never moves a fault into HEALED, a PASSED report never into CONFIRMED, and the two
   latched statuses are left only for each other.
   */
  lemma ReportRespectsLifecycle(fault: Option<Core>, failed: bool, bypass: bool, c: Config)
    requires Sane(c) && (fault.Some? ==> fault.value.status != Unset)
    ensures var after := Report(fault, failed, bypass, c);
            && (after.None? <==> fault.None? && !failed)
            && (after.Some? && (failed || fault.value.status != Cleared) ==> InBand(after.value.counter, c))
            && (after.Some? ==>
                  AllowedMove(if fault.Some? then fault.value.status else Unset, after.value.status, failed))
            && (after.Some? ==> after.value.status != Unset)
  {
    if fault.Some? && fault.value.status != Cleared {
      var x := Clamp(fault.value.counter, c);
      assert InBand(x, c);
      assert Clamp(x - 1, c) < c.healingThreshold;
      assert Clamp(x + 1, c) > c.confirmationThreshold;
    }
  }

  /**
   The status a report leaves, by the counter it leaves: CONFIRMED at the lower threshold, HEALED at the
   upper one if healing is on, and in between the latch if there is one, else PREFAILED below zero,
   PREPASSED above it and no change at zero. A bypassing FAILED report confirms at any counter.
   */
  lemma StatusFollowsCounter(fault: Option<Core>, failed: bool, bypass: bool, c: Config)
    requires Sane(c) && (fault.Some? ==> fault.value.status != Unset)
    requires failed || (fault.Some? && fault.value.status != Cleared)
    ensures Report(fault, failed, bypass, c).Some?
    ensures var after := Report(fault, failed, bypass, c).value;
            var latch := if fault.Some? && fault.value.status in {Confirmed, Healed} then fault.value.status else Unset;
            && (failed && bypass ==> after.status == Confirmed)
            && (!(failed && bypass) ==>
                  && (after.counter == c.confirmationThreshold ==> after.status == Confirmed)
                  && (after.counter == c.healingThreshold && c.healingEnabled ==> after.status == Healed)
                  && (Undecided(after.counter, c) && latch != Unset ==> after.status == latch)
                  && (Undecided(after.counter, c) && latch == Unset && after.counter < 0 ==> after.status == Prefailed)
                  && (Undecided(after.counter, c) && latch == Unset && after.counter > 0 ==> after.status == Prepassed)
                  && (Undecided(after.counter, c) && after.counter == 0 ==>
                        fault.Some? && after.status == fault.value.status))
  {
    ReportRespectsLifecycle(fault, failed, bypass, c);
  }

  /** No threshold decides: the counter is inside the band, or at its upper end with healing off. */
  predicate Undecided(counter: int, c: Config) {
    c.confirmationThreshold < counter && (counter < c.healingThreshold || !c.healingEnabled)
  }

  // ---------------------------------------------------------------- the reflected walk

  /** One report of a word: FAILED or PASSED, and whether it bypasses the debounce. */
  datatype Signal = Signal(failed: bool, bypass: bool)

  type Word = seq<Signal>

  function StepCounter(x: int, failed: bool, c: Config): int {
    Clamp(if failed then x - 1 else x + 1, c)
  }

  function Walk(x: int, w: Word, c: Config): int
    decreases |w|
  {
    if w == [] then x else Walk(StepCounter(x, w[0].failed, c), w[1..], c)
  }

  function Net(w: Word): int {
    if w == [] then 0 else (if w[0].failed then -1 else 1) + Net(w[1..])
  }

  function Min(a: int, b: int): int { if a <= b then a else b }

  function Max(a: int, b: int): int { if a >= b then a else b }

  lemma {:induction false} WalkMonotone(x: int, y: int, w: Word, c: Config)
    requires Sane(c) && x <= y
    ensures Walk(x, w, c) <= Walk(y, w, c)
    decreases |w|
  {
    if w == [] {
    } else {
      WalkMonotone(StepCounter(x, w[0].failed, c), StepCounter(y, w[0].failed, c), w[1..], c);
    }
  }

  lemma {:induction false} WalkInBand(x: int, w: Word, c: Config)
    requires Sane(c) && InBand(x, c)
    ensures InBand(Walk(x, w, c), c)
    decreases |w|
  {
    if w == [] {
    } else {
      WalkInBand(StepCounter(x, w[0].failed, c), w[1..], c);
    }
  }

  /**
   Two-sided reflection: from any start in the band, a word moves the counter by its net effect,
   cut off by where the same word takes the lower and the upper threshold.
   */
  lemma {:induction false} WalkIsReflected(x: int, w: Word, c: Config)
    requires Sane(c) && InBand(x, c)
    ensures Walk(x, w, c) ==
            Min(Walk(c.healingThreshold, w, c), Max(Walk(c.confirmationThreshold, w, c), x + Net(w)))
    decreases |w|
  {
    if w == [] {
    } else {
      var lo, hi := c.confirmationThreshold, c.healingThreshold;
      var x1, lo1 := StepCounter(x, w[0].failed, c), StepCounter(lo, w[0].failed, c);
      var hi1 := StepCounter(hi, w[0].failed, c);
      var rest := w[1..];
      WalkIsReflected(x1, rest, c);
      WalkIsReflected(lo1, rest, c);
      WalkIsReflected(hi1, rest, c);
      WalkMonotone(lo, hi, rest, c);
      WalkMonotone(lo1, x1, rest, c);
      WalkMonotone(x1, hi1, rest, c);
    }
  }

  /** A word whose net effect spans the band makes the counter forget everything before it. */
  lemma WideWordForgets(x: int, y: int, w: Word, c: Config)
    requires Sane(c) && InBand(x, c) && InBand(y, c)
    requires || Net(w) <= c.confirmationThreshold - c.healingThreshold
             || Net(w) >= c.healingThreshold - c.confirmationThreshold
    ensures Walk(x, w, c) == Walk(y, w, c)
  {
    WalkIsReflected(x, w, c);
    WalkIsReflected(y, w, c);
    WalkMonotone(c.confirmationThreshold, c.healingThreshold, w, c);
    WalkInBand(c.confirmationThreshold, w, c);
    WalkInBand(c.healingThreshold, w, c);
  }

  function Reports(fault: Option<Core>, w: Word, c: Config): Option<Core>
    decreases |w|
  {
    if w == [] then fault else Reports(Report(fault, w[0].failed, w[0].bypass, c), w[1..], c)
  }

  /** The counter of a tracked fault under one configuration is that walk, CRITICAL reports included. */
  lemma {:induction false} CounterIsReflectedWalk(core: Core, w: Word, c: Config)
    requires Sane(c) && InBand(core.counter, c) && core.status != Cleared && core.status != Unset
    ensures Reports(Some(core), w, c).Some?
    ensures Reports(Some(core), w, c).value.counter ==
            Min(Walk(c.healingThreshold, w, c), Max(Walk(c.confirmationThreshold, w, c), core.counter + Net(w)))
    decreases |w|
  {
    ReportsCounter(core, w, c);
    WalkIsReflected(core.counter, w, c);
  }

  lemma {:induction false} ReportsCounter(core: Core, w: Word, c: Config)
    requires Sane(c) && InBand(core.counter, c) && core.status != Cleared && core.status != Unset
    ensures Reports(Some(core), w, c).Some? && Reports(Some(core), w, c).value.counter == Walk(core.counter, w, c)
    decreases |w|
  {
    if w == [] {
    } else {
      ReportRespectsLifecycle(Some(core), w[0].failed, w[0].bypass, c);
      var next := Report(Some(core), w[0].failed, w[0].bypass, c).value;
      ReportsCounter(next, w[1..], c);
    }
  }

  // ---------------------------------------------------------------- bursts

  function StatusOf(fault: Option<Core>): Status {
    if fault.Some? then fault.value.status else Unset
  }

  /** `n` reports in a row, none of them CRITICAL. */
  function Burst(fault: Option<Core>, failed: bool, n: nat, c: Config): Option<Core> {
    if n == 0 then fault else Report(Burst(fault, failed, n - 1, c), failed, false, c)
  }

  /** A burst of FAILED reports on a fault that is being tracked. */
  lemma {:induction false} FailedBurst(core: Core, n: nat, c: Config)
    requires Sane(c) && core.status != Cleared && core.status != Unset && n > 0
    ensures Burst(Some(core), true, n, c).Some?
    ensures var after := Burst(Some(core), true, n, c).value;
            && after.counter == Max(c.confirmationThreshold, Clamp(core.counter, c) - n)
            && after.status != Cleared && after.status != Unset
            && (after.status == Confirmed <==>
                  core.status == Confirmed || Clamp(core.counter, c) - n <= c.confirmationThreshold)
  {
    if n <= 1 {
    } else {
      FailedBurst(core, n - 1, c);
    }
    assert Burst(Some(core), true, 0, c) == Some(core);
  }

  /** A burst of FAILED reports on a fault the store has never seen, or that was cleared. */
  lemma {:induction false} FreshFailedBurst(fault: Option<Core>, n: nat, c: Config)
    requires Sane(c) && (fault.None? || fault.value.status == Cleared) && n > 0
    ensures Burst(fault, true, n, c).Some?
    ensures var after := Burst(fault, true, n, c).value;
            && after.counter == Max(c.confirmationThreshold, 0 - n)
            && after.status != Cleared && after.status != Unset
            && after.status == if 0 - n <= c.confirmationThreshold then Confirmed else Prefailed
  {
    assert Burst(fault, true, 0, c) == fault;
    if n <= 1 {
    } else {
      FreshFailedBurst(fault, n - 1, c);
    }
  }

  lemma {:induction false} PassedBurst(core: Core, n: nat, c: Config)
    requires Sane(c) && core.status != Cleared && core.status != Unset && n > 0
    ensures Burst(Some(core), false, n, c).Some?
    ensures var after := Burst(Some(core), false, n, c).value;
            && after.counter == Min(c.healingThreshold, Clamp(core.counter, c) + n)
            && after.status != Cleared && after.status != Unset
            && (after.status == Healed <==>
                  core.status == Healed || (c.healingEnabled && Clamp(core.counter, c) + n >= c.healingThreshold))
  {
    assert Burst(Some(core), false, 0, c) == Some(core);
    if n <= 1 {
    } else {
      PassedBurst(core, n - 1, c);
    }
  }

  predicate Unlatched(status: Status) { status == Prefailed || status == Prepassed }

  /** The side of zero the counter is on. */
  predicate Leans(core: Core) {
    (core.counter < 0 ==> core.status == Prefailed) && (core.counter > 0 ==> core.status == Prepassed)
  }

  /** A burst that latches nothing leaves the status on the side of zero its counter is on. */
  lemma {:induction false} BurstLeans(core: Core, failed: bool, n: nat, c: Config)
    requires Sane(c) && Unlatched(core.status) && n > 0
    ensures Burst(Some(core), failed, n, c).Some?
    ensures var after := Burst(Some(core), failed, n, c).value;
            if Unlatched(after.status) then Leans(after) else after.status == if failed then Confirmed else Healed
  {
    var before := Burst(Some(core), failed, n - 1, c);
    if n == 1 {
      assert before == Some(core);
    } else {
      BurstLeans(core, failed, n - 1, c);
    }
    ReportRespectsLifecycle(before, failed, false, c);
    StatusFollowsCounter(before, failed, false, c);
  }

  /**
   After any history, however long the opposite burst, a band's width of FAILED reports confirms a
   fault and a band's width of PASSED reports heals one that is not cleared; the width is the least
   number with that property.
   */
  lemma BandWidthOfReportsSettles(fault: Option<Core>, n: nat, c: Config)
    requires Sane(c) && (fault.Some? ==> fault.value.status != Unset)
    ensures n >= c.healingThreshold - c.confirmationThreshold ==>
              && StatusOf(Burst(fault, true, n, c)) == Confirmed
              && (fault.Some? && fault.value.status != Cleared && c.healingEnabled ==>
                    StatusOf(Burst(fault, false, n, c)) == Healed)
    ensures 0 < n < c.healingThreshold - c.confirmationThreshold ==>
              && StatusOf(Burst(Some(Core(Healed, c.healingThreshold)), true, n, c)) != Confirmed
              && StatusOf(Burst(Some(Core(Confirmed, c.confirmationThreshold)), false, n, c)) != Healed
  {
    if n > 0 {
      if fault.Some? && fault.value.status != Cleared {
        FailedBurst(fault.value, n, c);
        PassedBurst(fault.value, n, c);
      } else {
        FreshFailedBurst(fault, n, c);
      }
      FailedBurst(Core(Healed, c.healingThreshold), n, c);
      PassedBurst(Core(Confirmed, c.confirmationThreshold), n, c);
    }
  }
}
