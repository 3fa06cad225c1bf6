/** Per-entity debounce overrides: longest path-boundary prefix, merged field by field with the global config. */
module ThresholdResolver {
  import opened Basics
  import opened Debounce

  datatype Override = Override(
    prefix: string,
    confirmationThreshold: Option<int>,
    healingEnabled: Option<bool>,
    healingThreshold: Option<int>)

  /** The source is the prefix, or lies below it at a path separator. */
  predicate Matches(source: string, prefix: string) {
    prefix <= source && (|source| == |prefix| || source[|prefix|] == '/')
  }

  /** Below at a separator: `/a` covers `/a` and `/a/b`, and not `/ab`. */
  lemma MatchesAtBoundary(source: string, prefix: string)
    ensures Matches(source, prefix) <==> source == prefix || exists rest :: source == prefix + ['/'] + rest
  {
    if Matches(source, prefix) && source != prefix {
      assert source == prefix + ['/'] + source[|prefix| + 1..];
    }
    if rest :| source == prefix + ['/'] + rest {
      assert source[..|prefix|] == prefix && source[|prefix|] == '/';
    }
  }

  function GetOr<T>(o: Option<T>, default: T): T {
    if o.Some? then o.value else default
  }

  function Merge(e: Override, global: Config): Config {
    global.(confirmationThreshold := GetOr(e.confirmationThreshold, global.confirmationThreshold),
            healingEnabled := GetOr(e.healingEnabled, global.healingEnabled),
            healingThreshold := GetOr(e.healingThreshold, global.healingThreshold))
  }

  /** A field the override sets wins, every other one is the global one. */
  lemma OverrideWins(e: Override, global: Config, x: int, b: bool)
    ensures var r := Merge(e, global);
            && (r.confirmationThreshold == x <==>
                  || e.confirmationThreshold == Some(x)
                  || (e.confirmationThreshold.None? && global.confirmationThreshold == x))
            && (r.healingThreshold == x <==>
                  e.healingThreshold == Some(x) || (e.healingThreshold.None? && global.healingThreshold == x))
            && (r.healingEnabled == b <==>
                  e.healingEnabled == Some(b) || (e.healingEnabled.None? && global.healingEnabled == b))
            && r.criticalImmediateConfirm == global.criticalImmediateConfirm
  {
  }

  // ---------------------------------------------------------------- the resolver

  predicate LongestFirst(s: seq<Override>) {
    forall i, j :: 0 <= i < j < |s| ==> |s[i].prefix| >= |s[j].prefix|
  }

  predicate IsLongestMatch(entries: seq<Override>, source: string, e: Override) {
    && e in entries && Matches(source, e.prefix)
    && forall d :: d in entries && Matches(source, d.prefix) ==> |d.prefix| <= |e.prefix|
  }

  /** Inserts before the first shorter entry. */
  method InsertLongestFirst(s: seq<Override>, e: Override) returns (t: seq<Override>)
    requires LongestFirst(s)
    ensures LongestFirst(t) && multiset(t) == multiset(s) + multiset{e}
  {
    var i := 0;
    while i < |s| && |s[i].prefix| >= |e.prefix|
      invariant i <= |s|
      invariant forall k :: 0 <= k < i ==> |s[k].prefix| >= |e.prefix|
    {
      i := i + 1;
    }
    InsertKeepsOrder(s, e, i);
    InsertKeepsElements(s, e, i);
    t := s[..i] + [e] + s[i..];
  }

  lemma InsertKeepsOrder(s: seq<Override>, e: Override, i: nat)
    requires LongestFirst(s) && i <= |s|
    requires forall k :: 0 <= k < i ==> |s[k].prefix| >= |e.prefix|
    requires i < |s| ==> |s[i].prefix| < |e.prefix|
    ensures LongestFirst(s[..i] + [e] + s[i..])
  {
    var t := s[..i] + [e] + s[i..];
    forall a, b | 0 <= a < b < |t|
      ensures |t[a].prefix| >= |t[b].prefix|
    {
      var x := if a < i then a else a - 1;
      var y := if b < i then b else b - 1;
      assert a != i ==> t[a] == s[x];
      assert b != i ==> t[b] == s[y];
    }
  }

  lemma InsertKeepsElements(s: seq<Override>, e: Override, i: nat)
    requires i <= |s|
    ensures multiset(s[..i] + [e] + s[i..]) == multiset(s) + multiset{e}
  {
    assert s == s[..i] + s[i..];
  }

  class EntityThresholdResolver {
    const entries: seq<Override>

    ghost predicate Valid() {
      LongestFirst(entries)
    }

    constructor (given: seq<Override>)
      ensures Valid() && multiset(entries) == multiset(given)
    {
      var sorted: seq<Override> := [];
      for i := 0 to |given|
        invariant LongestFirst(sorted) && multiset(sorted) == multiset(given[..i])
      {
        sorted := InsertLongestFirst(sorted, given[i]);
        assert given[..i + 1] == given[..i] + [given[i]];
      }
      assert given[..|given|] == given;
      entries := sorted;
    }

    /** The configuration of a longest match, merged; the global one when nothing matches. */
    method Resolve(source: string, global: Config) returns (r: Config)
      requires Valid()
      ensures ((forall d :: d in entries ==> !Matches(source, d.prefix)) && r == global)
              || exists e :: IsLongestMatch(entries, source, e) && r == Merge(e, global)
    {
      var i := 0;
      while i < |entries|
        invariant i <= |entries|
        invariant forall k :: 0 <= k < i ==> !Matches(source, entries[k].prefix)
      {
        var e := entries[i];
        if Matches(source, e.prefix) {
          r := global;
          if e.confirmationThreshold.Some? {
            r := r.(confirmationThreshold := e.confirmationThreshold.value);
          }
          if e.healingEnabled.Some? {
            r := r.(healingEnabled := e.healingEnabled.value);
          }
          if e.healingThreshold.Some? {
            r := r.(healingThreshold := e.healingThreshold.value);
          }
          assert IsLongestMatch(entries, source, e) && r == Merge(e, global);
          return;
        }
        i := i + 1;
      }
      r := global;
    }
  }

  /** With distinct prefixes the longest match is unique, so the order the sort leaves ties in cannot matter. */
  lemma LongestMatchUnique(entries: seq<Override>, source: string, d: Override, e: Override)
    requires forall x, y :: x in entries && y in entries && x.prefix == y.prefix ==> x == y
    requires IsLongestMatch(entries, source, d) && IsLongestMatch(entries, source, e)
    ensures d == e
  {
    assert d.prefix == source[..|d.prefix|] && e.prefix == source[..|e.prefix|];
  }

  // ---------------------------------------------------------------- validation at load time

  /** An override after the node has checked it against the global configuration. */
  function Validated(e: Override, global: Config): Override {
    var merged := global.(confirmationThreshold := GetOr(e.confirmationThreshold, global.confirmationThreshold),
                          healingThreshold := GetOr(e.healingThreshold, global.healingThreshold));
    var (safe, valid) := Sanitize(merged);
    if valid then e
    else e.(confirmationThreshold := if e.confirmationThreshold.Some? then Some(safe.confirmationThreshold) else None,
            healingThreshold := if e.healingThreshold.Some? then Some(safe.healingThreshold) else None)
  }

  /** Validation repairs exactly the overrides that would have produced an unusable configuration. */
  lemma ValidatedMergesSane(e: Override, global: Config)
    requires Sane(global)
    ensures Sane(Merge(Validated(e, global), global))
    ensures Sane(Merge(e, global)) <==> Validated(e, global) == e
    ensures Merge(Validated(e, global), global) ==
            Sanitize(Merge(e, global)).0
  {
  }

  method ValidateAll(given: seq<Override>, global: Config) returns (checked: seq<Override>)
    ensures |checked| == |given| && forall i :: 0 <= i < |given| ==> checked[i] == Validated(given[i], global)
  {
    checked := [];
    for i := 0 to |given|
      invariant |checked| == i && forall k :: 0 <= k < i ==> checked[k] == Validated(given[k], global)
    {
      checked := checked + [Validated(given[i], global)];
    }
  }

  /**
   `resolve_config` on overrides loaded and validated by the node. What reaches the storage is the
   longest match merged with the global configuration, usable thresholds included, and the
   sanitizing step in front of the storage changes nothing.
   */
  method ResolveConfig(loaded: seq<Override>, global: Config, source: string) returns (config: Config)
    requires Sane(global)
    ensures Sane(config)
    ensures ((forall d :: d in loaded ==> !Matches(source, d.prefix)) && config == global)
            || exists e :: IsLongestMatch(loaded, source, e) && config == Sanitize(Merge(e, global)).0
  {
    var checked := ValidateAll(loaded, global);
    var resolver := new EntityThresholdResolver(checked);
    var merged := resolver.Resolve(source, global);
    SameElements(resolver.entries, checked);
    config := Sanitize(merged).0;
    if (forall d :: d in resolver.entries ==> !Matches(source, d.prefix)) && merged == global {
      assert forall i :: 0 <= i < |loaded| ==> checked[i] in resolver.entries && checked[i].prefix == loaded[i].prefix;
    } else {
      var d :| IsLongestMatch(resolver.entries, source, d) && merged == Merge(d, global);
      var i :| 0 <= i < |checked| && checked[i] == d;
      var e := loaded[i];
      ValidatedMergesSane(e, global);
      assert forall k :: 0 <= k < |loaded| ==> checked[k] in resolver.entries && checked[k].prefix == loaded[k].prefix;
      assert IsLongestMatch(loaded, source, e);
    }
  }

  lemma SameElements(a: seq<Override>, b: seq<Override>)
    requires multiset(a) == multiset(b)
    ensures forall e :: e in a <==> e in b
  {
    forall e
      ensures e in a <==> e in b
    {
      assert e in a <==> e in multiset(a);
      assert e in b <==> e in multiset(b);
    }
  }
}
