/** `InMemoryFaultStorage`: faults and near misses in ordered maps, updated in place. */
module MemoryStorage {
  import opened Basics
  import opened Debounce
  import opened StringSets
  import opened FaultStore

  class InMemoryFaultStorage {
    var faults: map<string, Fault>
    var nearMisses: map<string, seq<NearMiss>>
    const maxNearMisses: nat

    ghost function Model(): Store
      reads this
    {
      Store(faults, nearMisses)
    }

    constructor (maxNearMissesPerFault: nat)
      ensures Model() == EMPTY && maxNearMisses == maxNearMissesPerFault
    {
      faults, nearMisses, maxNearMisses := map[], map[], maxNearMissesPerFault;
    }

    method RecordNearMiss(code: string, state: Fault, r: FaultReport)
      modifies this`nearMisses
      ensures nearMisses == Recorded(old(nearMisses), code,
                [NearMiss(r.at, state.core.counter, r.config.confirmationThreshold, r.severity, r.source,
                          state.core.status)],
                maxNearMisses)
    {
      var series := if code in nearMisses then nearMisses[code] else [];
      series := series + [NearMiss(r.at, state.core.counter, r.config.confirmationThreshold, r.severity, r.source,
                                   state.core.status)];
      if maxNearMisses > 0 && |series| > maxNearMisses {
        var excess := |series| - maxNearMisses;
        series := series[excess..];
      }
      nearMisses := nearMisses[code := series];
    }

    /** Returns whether the report started an occurrence. */
    method ReportFaultEvent(r: FaultReport) returns (isNew: bool)
      modifies this
      ensures (Model(), Flag(isNew)) == Apply(old(Model()), maxNearMisses, DoReport(r))
    {
      if r.code !in faults {
        if !r.failed {
          return false;
        }
        var status := if Bypasses(r) then Confirmed else ComputeStatus(-1, Unset, r.config);
        var created := Fault(r.severity, r.description, r.at, r.at, 1, Core(status, -1), [r.source], r.at, 0);
        if IsNearMiss(true, status) {
          RecordNearMiss(r.code, created, r);
        }
        faults := faults[r.code := created];
        return true;
      }

      var state := faults[r.code];
      if state.core.status == Cleared {
        if !r.failed {
          assert faults == faults[r.code := state];
          return false;
        }
        isNew := true;
        var count := if state.occurrenceCount < MAX_COUNT then state.occurrenceCount + 1 else state.occurrenceCount;
        state := state.(firstOccurred := r.at, lastFailed := r.at, lastOccurred := r.at,
                        sources := Insert(state.sources, r.source), occurrenceCount := count);
        state := Escalated(state, r);
        var status := if Bypasses(r) then Confirmed else ComputeStatus(-1, Cleared, r.config);
        state := state.(core := Core(status, -1));
        faults := faults[r.code := state];
        if IsNearMiss(true, status) {
          RecordNearMiss(r.code, state, r);
        }
        return;
      }

      isNew := false;
      var counter := Clamp(state.core.counter, r.config);
      var status := state.core.status;
      if r.failed {
        counter := Clamp(counter - 1, r.config);
        state := state.(lastOccurred := r.at, lastFailed := r.at, sources := Insert(state.sources, r.source));
        state := Escalated(state, r);
        if Bypasses(r) {
          state := state.(core := Core(Confirmed, counter));
          faults := faults[r.code := state];
          return;
        }
      } else {
        counter := Clamp(counter + 1, r.config);
        state := state.(lastPassed := r.at);
      }
      status := ComputeStatus(counter, status, r.config);
      state := state.(core := Core(status, counter));
      faults := faults[r.code := state];
      if IsNearMiss(r.failed, status) {
        RecordNearMiss(r.code, state, r);
      }
    }

    static function Escalated(f: Fault, r: FaultReport): Fault {
      f.(severity := if r.severity > f.severity then r.severity else f.severity,
         description := if r.description != "" then r.description else f.description)
    }

    method ClearFault(code: string) returns (found: bool)
      modifies this`faults
      ensures (Model(), Flag(found)) == Apply(old(Model()), maxNearMisses, DoClear(code))
    {
      if code !in faults {
        return false;
      }
      faults := faults[code := SetStatus(faults[code], Cleared)];
      return true;
    }

    method ReclassifyHealedAsCleared() returns (reclassified: set<string>)
      modifies this`faults
      ensures (Model(), Codes(reclassified)) == Apply(old(Model()), maxNearMisses, DoReclassify)
    {
      reclassified := {};
      var todo := faults.Keys;
      ghost var before := faults;
      while todo != {}
        invariant faults.Keys == before.Keys && todo <= before.Keys
        invariant forall code :: code in todo ==> faults[code] == before[code]
        invariant reclassified == set code | code in before && code !in todo && before[code].core.status == Healed
        invariant forall code :: code in before && code !in todo ==>
          faults[code] == if code in reclassified then SetStatus(before[code], Cleared) else before[code]
      {
        var code :| code in todo;
        if faults[code].core.status == Healed {
          faults := faults[code := SetStatus(faults[code], Cleared)];
          reclassified := reclassified + {code};
        }
        todo := todo - {code};
      }
      assert reclassified == HealedCodes(before);
      assert faults == SetAll(before, reclassified, Cleared);
    }

    method CheckTimeBasedConfirmation(now: int, afterNs: int) returns (confirmed: set<string>)
      modifies this`faults
      ensures (Model(), Codes(confirmed)) == Apply(old(Model()), maxNearMisses, DoTimedConfirm(now, afterNs))
    {
      confirmed := {};
      if afterNs <= 0 {
        return;
      }
      var todo := faults.Keys;
      ghost var before := faults;
      while todo != {}
        invariant faults.Keys == before.Keys && todo <= before.Keys
        invariant forall code :: code in todo ==> faults[code] == before[code]
        invariant confirmed == set code |
                    code in before && code !in todo &&
                    before[code].core.status == Prefailed && now - before[code].lastFailed >= afterNs
        invariant forall code :: code in before && code !in todo ==>
          faults[code] == if code in confirmed then SetStatus(before[code], Confirmed) else before[code]
      {
        var code :| code in todo;
        if faults[code].core.status == Prefailed {
          var ageNs := now - faults[code].lastFailed;
          if ageNs >= afterNs {
            faults := faults[code := SetStatus(faults[code], Confirmed)];
            confirmed := confirmed + {code};
          }
        }
        todo := todo - {code};
      }
      assert confirmed == OverdueCodes(before, now, afterNs);
      assert faults == SetAll(before, confirmed, Confirmed);
    }

    method GetFault(code: string) returns (fault: Option<Fault>)
      ensures fault == Find(Model().faults, code)
    {
      fault := if code in faults then Some(faults[code]) else None;
    }

    method GetNearMisses(code: string) returns (series: seq<NearMiss>)
      ensures series == SeriesIn(Model().nearMisses, code)
    {
      series := if code in nearMisses then nearMisses[code] else [];
    }
  }
}
