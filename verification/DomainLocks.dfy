/** Taking DDS domains by binding their lock ports: one attempt, with nobody else binding meanwhile. */
module DomainLocks {
  import opened Basics
  import BandText

  /** How often `domain_id` asks its selector before it gives up. */
  const MAX_TRIES := 100

  predicate Distinct(v: seq<int>) {
    forall i, j :: 0 <= i < j < |v| ==> v[i] != v[j]
  }

  function ToSet(v: seq<int>): (s: set<int>)
    ensures forall d :: d in s <==> d in v
  {
    set d | d in v
  }

  function NextIndex(i: nat, n: nat): (r: nat)
    requires i < n
    ensures r < n && r == (i + 1) % n
  {
    if i + 1 < n then i + 1 else 0
  }

  // ---------------------------------------------------------------- the selector and one attempt

  /** Walks the band in order from its start. */
  class BandSelector {
    const domains: seq<int>
    var next: nat

    ghost predicate Valid()
      reads this
    {
      next < |domains|
    }

    constructor (domains: seq<int>, start: nat)
      requires domains != []
      ensures Valid() && this.domains == domains && next == start % |domains|
    {
      this.domains := domains;
      next := start % |domains|;
    }

    method Select() returns (domain: int)
      requires Valid()
      modifies this
      ensures Valid() && domain == domains[old(next)] && next == NextIndex(old(next), |domains|)
    {
      domain := domains[next];
      next := NextIndex(next, |domains|);
    }
  }

  /** The cursor after `k` more candidates. */
  function Advanced(i: nat, k: nat, n: nat): (r: nat)
    requires i < n
    ensures r < n
  {
    if k == 0 then i else NextIndex(Advanced(i, k - 1, n), n)
  }

  /** The first of the next `tries` candidates that nobody holds, as the number of candidates before it. */
  function FirstFree(domains: seq<int>, i: nat, taken: set<int>, tries: nat): (r: Option<nat>)
    requires i < |domains|
    ensures r.Some? ==> r.value < tries && domains[Advanced(i, r.value, |domains|)] !in taken
    ensures forall k :: 0 <= k < (if r.Some? then r.value else tries) ==> domains[Advanced(i, k, |domains|)] in taken
  {
    if tries == 0 then None
    else
      var before := FirstFree(domains, i, taken, tries - 1);
      if before.Some? then before
      else if domains[Advanced(i, tries - 1, |domains|)] !in taken then Some(tries - 1)
      else None
  }

  method DomainId(selector: BandSelector, taken: set<int>) returns (domain: Option<int>)
    requires selector.Valid()
    modifies selector
    ensures selector.Valid()
    ensures var n, i := |selector.domains|, old(selector.next);
            match FirstFree(selector.domains, i, taken, MAX_TRIES)
            case None => domain == None && selector.next == Advanced(i, MAX_TRIES, n)
            case Some(k) =>
              domain == Some(selector.domains[Advanced(i, k, n)]) && selector.next == Advanced(i, k + 1, n)
  {
    for t := 0 to MAX_TRIES
      invariant selector.Valid() && selector.next == Advanced(old(selector.next), t, |selector.domains|)
      invariant FirstFree(selector.domains, old(selector.next), taken, t) == None
    {
      var candidate := selector.Select();
      if candidate !in taken {
        FirstFreeStays(selector.domains, old(selector.next), taken, t, MAX_TRIES);
        return Some(candidate);
      }
    }
    domain := None;
  }

  lemma {:induction false} FirstFreeStays(domains: seq<int>, i: nat, taken: set<int>, t: nat, tries: nat)
    requires i < |domains| && t < tries
    requires FirstFree(domains, i, taken, t) == None && domains[Advanced(i, t, |domains|)] !in taken
    ensures FirstFree(domains, i, taken, tries) == Some(t)
  {
    if t >= tries - 1 {
    } else {
      FirstFreeStays(domains, i, taken, t, tries - 1);
    }
  }

  /** What one attempt from cursor `i` acquires when the ports in `taken` stay bound by others. */
  function Attempt(domains: seq<int>, i: nat, taken: set<int>, count: nat): Option<seq<int>>
    requires i < |domains|
    decreases count
  {
    if count == 0 then Some([])
    else
      match FirstFree(domains, i, taken, MAX_TRIES)
      case None => None
      case Some(k) =>
        var d := domains[Advanced(i, k, |domains|)];
        Prepended([d], Attempt(domains, Advanced(i, k + 1, |domains|), taken + {d}, count - 1))
  }

  /**
   `_try_take`: the whole set or nothing. `bound` is the set of bound ports before and after.
   */
  method TryTake(count: nat, domains: seq<int>, start: nat, bound: set<int>)
    returns (acquired: Option<seq<int>>, after: set<int>)
    requires domains != []
    ensures acquired == Attempt(domains, start % |domains|, bound, count)
    ensures acquired.Some? ==> after == bound + ToSet(acquired.value)
    ensures acquired.None? ==> after == bound
  {
    var selector := new BandSelector(domains, start);
    ghost var i := selector.next;
    var held: seq<int> := [];
    after := bound;
    PrependedNone(Attempt(domains, i, bound, count));
    while |held| < count
      invariant selector.Valid() && selector.domains == domains && |held| <= count
      invariant Holds(after, bound, held)
      invariant Attempt(domains, i, bound, count) ==
                Prepended(held, Attempt(domains, selector.next, after, count - |held|))
      decreases count - |held|
    {
      var domain := DomainId(selector, after);
      if domain.None? {
        ReleaseUndoes(after, bound, held);
        after := Release(after, held);
        return None, after;
      }
      PrependedStep(held, domain.value, Attempt(domains, selector.next, after + {domain.value}, count - |held| - 1));
      HoldsOneMore(after, bound, held, domain.value);
      held := held + [domain.value];
      after := after + {domain.value};
    }
    acquired := Some(held);
    HoldsAll(after, bound, held);
    assert held + [] == held;
  }

  /** `after` is `bound` with the ports of `held` on top. */
  ghost predicate Holds(after: set<int>, bound: set<int>, held: seq<int>) {
    && (forall d :: d in after <==> d in bound || d in held)
    && forall d :: d in held ==> d !in bound
  }

  lemma HoldsOneMore(after: set<int>, bound: set<int>, held: seq<int>, d: int)
    requires Holds(after, bound, held) && d !in after
    ensures Holds(after + {d}, bound, held + [d])
  {
  }

  lemma HoldsAll(after: set<int>, bound: set<int>, held: seq<int>)
    requires Holds(after, bound, held)
    ensures after == bound + ToSet(held)
  {
    forall d ensures d in after <==> d in bound + ToSet(held) {
    }
  }

  lemma ReleaseUndoes(after: set<int>, bound: set<int>, held: seq<int>)
    requires Holds(after, bound, held)
    ensures after - ToSet(held) == bound
  {
    forall d ensures d in after - ToSet(held) <==> d in bound {
      assert d in after <==> d in bound || d in held;
    }
  }

  lemma PrependedNone(rest: Option<seq<int>>)
    ensures Prepended([], rest) == rest
  {
    if rest.Some? {
      assert [] + rest.value == rest.value;
    }
  }

  function Prepended(held: seq<int>, rest: Option<seq<int>>): Option<seq<int>> {
    if rest.None? then None else Some(held + rest.value)
  }

  lemma PrependedStep(held: seq<int>, d: int, rest: Option<seq<int>>)
    ensures Prepended(held, Prepended([d], rest)) == Prepended(held + [d], rest)
  {
    if rest.Some? {
      assert held + ([d] + rest.value) == (held + [d]) + rest.value;
    }
  }

  /** `_release`: every held port is closed, the last taken first. */
  method Release(bound: set<int>, held: seq<int>) returns (after: set<int>)
    ensures after == bound - ToSet(held)
  {
    after := bound;
    var n := |held|;
    while n > 0
      invariant 0 <= n <= |held| && after == bound - ToSet(held[n..])
    {
      n := n - 1;
      assert held[n..] == [held[n]] + held[n + 1..];
      after := after - {held[n]};
    }
    assert held[0..] == held;
  }

  // ---------------------------------------------------------------- what an attempt acquires

  /** A full set is distinct, from the band and free before. */
  lemma {:induction false} AttemptIsFresh(domains: seq<int>, i: nat, taken: set<int>, count: nat)
    requires i < |domains| && Attempt(domains, i, taken, count).Some?
    ensures var acquired := Attempt(domains, i, taken, count).value;
            && |acquired| == count
            && Distinct(acquired)
            && forall d :: d in acquired ==> d in domains && d !in taken
    decreases count
  {
    if count == 0 {
    } else {
      var k := FirstFree(domains, i, taken, MAX_TRIES).value;
      var d := domains[Advanced(i, k, |domains|)];
      AttemptIsFresh(domains, Advanced(i, k + 1, |domains|), taken + {d}, count - 1);
      var rest := Attempt(domains, Advanced(i, k + 1, |domains|), taken + {d}, count - 1).value;
      var acquired := [d] + rest;
      forall a, b | 0 <= a < b < |acquired| ensures acquired[a] != acquired[b] {
        assert acquired[b] == rest[b - 1] && rest[b - 1] in rest;
      }
    }
  }

  lemma AttemptStep(domains: seq<int>, i: nat, taken: set<int>, count: nat, got: seq<int>) returns (k: nat)
    requires i < |domains| && count > 0 && Attempt(domains, i, taken, count) == Some(got)
    ensures FirstFree(domains, i, taken, MAX_TRIES) == Some(k) && got != []
    ensures got[0] == domains[Advanced(i, k, |domains|)]
    ensures Attempt(domains, Advanced(i, k + 1, |domains|), taken + {got[0]}, count - 1) == Some(got[1..])
  {
    k := FirstFree(domains, i, taken, MAX_TRIES).value;
  }

  /** Index `j` is among the `k` positions that start at `start`, wrapping around. */
  predicate InWindow(j: int, start: nat, k: nat, n: nat) {
    if j >= start then j - start < k else j + n - start < k
  }

  function WindowEnd(start: nat, k: nat, n: nat): nat
    requires start < n && k <= n
  {
    if start + k < n then start + k else start + k - n
  }

  /** Exactly the domains of a window are taken. */
  predicate TakenIsWindow(domains: seq<int>, taken: set<int>, start: nat, k: nat) {
    forall j :: 0 <= j < |domains| ==> (domains[j] in taken <==> InWindow(j, start, k, |domains|))
  }

  lemma FirstCandidateFree(domains: seq<int>, i: nat, taken: set<int>)
    requires i < |domains| && domains[i] !in taken
    ensures FirstFree(domains, i, taken, MAX_TRIES) == Some(0)
  {
    assert Advanced(i, 0, |domains|) == i;
    assert FirstFree(domains, i, taken, 0) == None;
    FirstFreeStays(domains, i, taken, 0, MAX_TRIES);
  }

  lemma WindowGrows(domains: seq<int>, taken: set<int>, start: nat, k: nat)
    requires Distinct(domains) && start < |domains| && k < |domains| && TakenIsWindow(domains, taken, start, k)
    ensures var i := WindowEnd(start, k, |domains|);
            && domains[i] !in taken
            && TakenIsWindow(domains, taken + {domains[i]}, start, k + 1)
            && NextIndex(i, |domains|) == WindowEnd(start, k + 1, |domains|) % |domains|
            && WindowEnd(start, k + 1, |domains|) < |domains|
  {
    var i := WindowEnd(start, k, |domains|);
    forall j | 0 <= j < |domains|
      ensures domains[j] in taken + {domains[i]} <==> InWindow(j, start, k + 1, |domains|)
    {
      assert domains[j] == domains[i] <==> j == i;
    }
  }

  lemma ExhaustedBand(domains: seq<int>, taken: set<int>, start: nat, i: nat)
    requires start < |domains| && i < |domains| && TakenIsWindow(domains, taken, start, |domains|)
    ensures FirstFree(domains, i, taken, MAX_TRIES).None?
  {
    forall j | 0 <= j < |domains| ensures domains[j] in taken {
      assert InWindow(j, start, |domains|, |domains|);
    }
  }

  lemma {:induction false} AloneUpToBand(domains: seq<int>, taken: set<int>, start: nat, k: nat, count: nat)
    requires Distinct(domains) && start < |domains| && k <= |domains| && TakenIsWindow(domains, taken, start, k)
    ensures Attempt(domains, WindowEnd(start, k, |domains|), taken, count).Some? <==> k + count <= |domains|
    decreases count
  {
    if count == 0 {
    } else {
      var i := WindowEnd(start, k, |domains|);
      if k < |domains| {
        WindowGrows(domains, taken, start, k);
        FirstCandidateFree(domains, i, taken);
        AloneUpToBand(domains, taken + {domains[i]}, start, k + 1, count - 1);
        assert Advanced(i, 1, |domains|) == NextIndex(Advanced(i, 0, |domains|), |domains|);
      } else {
        ExhaustedBand(domains, taken, start, i);
      }
    }
  }

  /** An attempt made while nobody holds anything succeeds exactly if the band is large enough. */
  lemma AloneSucceedsIff(domains: seq<int>, start: nat, count: nat)
    requires Distinct(domains) && domains != []
    ensures Attempt(domains, start % |domains|, {}, count).Some? <==> count <= |domains|
  {
    AloneUpToBand(domains, {}, start % |domains|, 0, count);
  }

  // ---------------------------------------------------------------- an attempt among others

  /** The domains of the band nobody holds. */
  function FreeIn(domains: seq<int>, taken: set<int>): set<int> {
    set d | d in domains && d !in taken
  }

  lemma {:induction false} AdvancedWraps(i: nat, k: nat, n: nat)
    requires i < n && k <= n
    ensures Advanced(i, k, n) == if i + k < n then i + k else i + k - n
  {
    if k == 0 {
    } else {
      AdvancedWraps(i, k - 1, n);
    }
  }

  /** A band of at most a hundred domains is searched completely. */
  lemma SearchedCompletely(domains: seq<int>, i: nat, taken: set<int>)
    requires i < |domains| <= MAX_TRIES
    ensures FirstFree(domains, i, taken, MAX_TRIES).None? <==> FreeIn(domains, taken) == {}
  {
    var n := |domains|;
    if FirstFree(domains, i, taken, MAX_TRIES).None? {
      forall j | 0 <= j < n ensures domains[j] in taken {
        var k := if j >= i then j - i else j + n - i;
        AdvancedWraps(i, k, n);
        assert domains[Advanced(i, k, n)] in taken;
      }
    } else {
      var k := FirstFree(domains, i, taken, MAX_TRIES).value;
      assert domains[Advanced(i, k, n)] in FreeIn(domains, taken);
    }
  }

  lemma OneFewerFree(domains: seq<int>, taken: set<int>, d: int)
    requires d in FreeIn(domains, taken)
    ensures |FreeIn(domains, taken + {d})| == |FreeIn(domains, taken)| - 1
  {
    assert FreeIn(domains, taken + {d}) == FreeIn(domains, taken) - {d};
  }

  /** On such a band an attempt succeeds exactly if enough of its domains are free, whoever holds the others. */
  lemma {:induction false} EnoughFreeSucceeds(domains: seq<int>, i: nat, taken: set<int>, count: nat)
    requires i < |domains| <= MAX_TRIES
    ensures Attempt(domains, i, taken, count).Some? <==> count <= |FreeIn(domains, taken)|
    decreases count
  {
    if count == 0 {
    } else {
      SearchedCompletely(domains, i, taken);
      var first := FirstFree(domains, i, taken, MAX_TRIES);
      if first.Some? {
        var d := domains[Advanced(i, first.value, |domains|)];
        assert d in FreeIn(domains, taken);
        OneFewerFree(domains, taken, d);
        EnoughFreeSucceeds(domains, Advanced(i, first.value + 1, |domains|), taken + {d}, count - 1);
      }
    }
  }

  lemma {:induction false} SizeOfTail(domains: seq<int>, free: set<int>)
    requires Distinct(domains) && forall d :: d in free <==> d in domains
    ensures |free| == |domains|
  {
    if domains == [] {
      assert free == {} by {
        assert forall d :: d in free ==> d in domains;
      }
    } else {
      var init, last := domains[..|domains| - 1], domains[|domains| - 1];
      assert domains == init + [last];
      SizeOfTail(init, free - {last});
    }
  }

  /** On a longer band a hundred bound candidates in a row end the attempt while others are free. */
  lemma LongBandGivesUpEarly(domains: seq<int>) returns (taken: set<int>)
    requires Distinct(domains) && |domains| > MAX_TRIES
    ensures |FreeIn(domains, taken)| == |domains| - MAX_TRIES
    ensures Attempt(domains, 0, taken, 1).None?
  {
    var n := |domains|;
    taken := ToSet(domains[..MAX_TRIES]);
    forall k | 0 <= k < MAX_TRIES ensures domains[Advanced(0, k, n)] in taken {
      AdvancedWraps(0, k, n);
      assert domains[..MAX_TRIES][k] == domains[k];
    }
    assert FirstFree(domains, 0, taken, MAX_TRIES).None?;
    var rest := domains[MAX_TRIES..];
    forall d ensures d in FreeIn(domains, taken) <==> d in rest {
      FreeIsRest(domains, d);
    }
    SizeOfTail(rest, FreeIn(domains, taken));
  }

  lemma FreeIsRest(domains: seq<int>, d: int)
    requires Distinct(domains) && |domains| > MAX_TRIES
    ensures d in domains && d !in domains[..MAX_TRIES] <==> d in domains[MAX_TRIES..]
  {
    assert domains == domains[..MAX_TRIES] + domains[MAX_TRIES..];
    if d in domains[MAX_TRIES..] {
      var j :| 0 <= j < |domains[MAX_TRIES..]| && domains[MAX_TRIES..][j] == d;
      assert domains[MAX_TRIES + j] == d;
    }
  }

  /** Free domains are enough in every situation exactly if the band has at most a hundred of them. */
  lemma EnoughFreeSucceedsIff(domains: seq<int>)
    requires Distinct(domains) && domains != []
    ensures (forall i: nat, taken: set<int>, count: nat :: i < |domains| ==>
               (Attempt(domains, i, taken, count).Some? <==> count <= |FreeIn(domains, taken)|)) <==>
            |domains| <= MAX_TRIES
  {
    if |domains| <= MAX_TRIES {
      forall i: nat, taken: set<int>, count: nat | i < |domains|
        ensures Attempt(domains, i, taken, count).Some? <==> count <= |FreeIn(domains, taken)|
      {
        EnoughFreeSucceeds(domains, i, taken, count);
      }
    } else {
      var taken := LongBandGivesUpEarly(domains);
      assert !(Attempt(domains, 0, taken, 1).Some? <==> 1 <= |FreeIn(domains, taken)|);
    }
  }

  /** The band a process draws from when no other is named. */
  const USABLE_DOMAINS := BandText.Range(1, 100) + BandText.Range(215, 231)

  lemma {:induction false} RangeAt(low: int, high: int)
    requires low <= high + 1
    ensures |BandText.Range(low, high)| == high + 1 - low
    ensures forall i :: 0 <= i <= high - low ==> BandText.Range(low, high)[i] == low + i
    decreases high - low
  {
    if low > high {
    } else {
      RangeAt(low, high - 1);
    }
  }

  /** The default band is such a band: an attempt on it can end with seventeen of its domains free. */
  lemma DefaultBandGivesUpEarly() returns (taken: set<int>)
    ensures Distinct(USABLE_DOMAINS) && |FreeIn(USABLE_DOMAINS, taken)| == 17
    ensures Attempt(USABLE_DOMAINS, 0, taken, 1).None?
  {
    RangeAt(1, 100);
    RangeAt(215, 231);
    taken := LongBandGivesUpEarly(USABLE_DOMAINS);
  }
}
