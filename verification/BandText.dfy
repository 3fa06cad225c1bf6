/** The text form of a set of DDS domains: the printer, the parser and Python's number syntax. */
module BandText {
  import opened Basics

  // ---------------------------------------------------------------- sorted(set(...))

  predicate Ascending(s: seq<int>) {
    forall i, j :: 0 <= i < j < |s| ==> s[i] < s[j]
  }

  function InsertSorted(s: seq<int>, x: int): (t: seq<int>)
    ensures forall y :: y in t <==> y in s || y == x
  {
    if s == [] then [x]
    else if x == s[0] then s
    else if x < s[0] then [x] + s
    else
      assert s == [s[0]] + s[1..];
      [s[0]] + InsertSorted(s[1..], x)
  }

  lemma AscendingCons(x: int, s: seq<int>)
    requires Ascending(s) && forall k :: 0 <= k < |s| ==> x < s[k]
    ensures Ascending([x] + s)
  {
    var t := [x] + s;
    forall i, j | 0 <= i < j < |t| ensures t[i] < t[j] {
      assert t[j] == s[j - 1];
    }
  }

  lemma {:induction false} InsertSortedAscending(s: seq<int>, x: int)
    requires Ascending(s)
    ensures Ascending(InsertSorted(s, x))
  {
    if s == [] || x <= s[0] {
    } else {
      var t := InsertSorted(s[1..], x);
      InsertSortedAscending(s[1..], x);
      forall k | 0 <= k < |t| ensures s[0] < t[k] {
        assert t[k] in t;
      }
      AscendingCons(s[0], t);
    }
  }

  /** The distinct values of a list, in ascending order. */
  function SortedDistinct(v: seq<int>): (s: seq<int>)
    ensures forall y :: y in s <==> y in v
  {
    if v == [] then []
    else
      assert v == v[..|v| - 1] + [v[|v| - 1]];
      InsertSorted(SortedDistinct(v[..|v| - 1]), v[|v| - 1])
  }

  lemma {:induction false} SortedDistinctAscending(v: seq<int>)
    ensures Ascending(SortedDistinct(v))
  {
    if v == [] {
    } else {
      SortedDistinctAscending(v[..|v| - 1]);
      InsertSortedAscending(SortedDistinct(v[..|v| - 1]), v[|v| - 1]);
    }
  }

  // ---------------------------------------------------------------- printing

  /** Consecutive domains, both ends included. */
  datatype Span = Span(low: int, high: int)

  /** One more domain, next to the last span or away from it. */
  function Grown(spans: seq<Span>, d: int): seq<Span> {
    if spans != [] && d == spans[|spans| - 1].high + 1 then spans[..|spans| - 1] + [spans[|spans| - 1].(high := d)]
    else spans + [Span(d, d)]
  }

  /** The domains as spans, each as long as it can be. */
  function SpansOf(asc: seq<int>): seq<Span> {
    if asc == [] then [] else Grown(SpansOf(asc[..|asc| - 1]), asc[|asc| - 1])
  }

  function SpanText(span: Span): string {
    if span.low == span.high then SignedDecimal(span.low)
    else SignedDecimal(span.low) + ['-'] + SignedDecimal(span.high)
  }

  function Joined(parts: seq<string>): string {
    if parts == [] then []
    else if |parts| == 1 then parts[0]
    else Joined(parts[..|parts| - 1]) + [','] + parts[|parts| - 1]
  }

  function Texts(spans: seq<Span>): seq<string> {
    if spans == [] then [] else Texts(spans[..|spans| - 1]) + [SpanText(spans[|spans| - 1])]
  }

  const NONE := "<none>"

  function Printed(domains: seq<int>): string {
    var text := Joined(Texts(SpansOf(SortedDistinct(domains))));
    if text == [] then NONE else text
  }

  method FormatBand(domains: seq<int>) returns (text: string)
    ensures text == Printed(domains)
  {
    var asc := SortedDistinct(domains);
    var parts: seq<Span> := [];
    for i := 0 to |asc|
      invariant parts == SpansOf(asc[..i])
    {
      assert asc[..i + 1][..i] == asc[..i];
      var d := asc[i];
      if parts != [] && d == parts[|parts| - 1].high + 1 {
        parts := parts[..|parts| - 1] + [parts[|parts| - 1].(high := d)];
      } else {
        parts := parts + [Span(d, d)];
      }
    }
    assert asc[..|asc|] == asc;
    text := Joined(Texts(parts));
    if text == [] {
      text := NONE;
    }
  }

  // ---------------------------------------------------------------- Python text primitives

  predicate IsSpace(c: char) {
    c == ' ' || '\t' <= c <= '\r' || '\U{1c}' <= c <= '\U{1f}'
  }

  function StripLeft(s: string): string {
    if s != [] && IsSpace(s[0]) then StripLeft(s[1..]) else s
  }

  function StripRight(s: string): string {
    if s != [] && IsSpace(s[|s| - 1]) then StripRight(s[..|s| - 1]) else s
  }

  function Strip(s: string): string {
    StripRight(StripLeft(s))
  }

  /** Where `c` first occurs in `s`, or its length. */
  function FirstIndex(s: string, c: char): (i: nat)
    ensures i <= |s| && c !in s[..i] && (i < |s| ==> s[i] == c)
  {
    if s == [] || s[0] == c then 0
    else
      assert s == [s[0]] + s[1..];
      1 + FirstIndex(s[1..], c)
  }

  function ExtendLast(parts: seq<string>, x: char): seq<string> {
    if parts == [] then [[x]] else parts[..|parts| - 1] + [parts[|parts| - 1] + [x]]
  }

  /** Python's `s.split(c)`. */
  function Split(s: string, c: char): seq<string> {
    if s == [] then [[]]
    else if s[|s| - 1] == c then Split(s[..|s| - 1], c) + [[]]
    else ExtendLast(Split(s[..|s| - 1], c), s[|s| - 1])
  }

  predicate IsLiteralChar(s: string, i: nat)
    requires i < |s|
  {
    IsDigit(s[i]) || (s[i] == '_' && i > 0 && IsDigit(s[i - 1]))
  }

  /** Digits with single underscores between them, as Python's integer literals allow. */
  predicate IsDigitText(s: string) {
    s != [] && IsDigit(s[|s| - 1]) && forall i :: 0 <= i < |s| ==> IsLiteralChar(s, i)
  }

  function DigitsIn(s: string): (t: string)
    ensures forall i :: 0 <= i < |t| ==> IsDigit(t[i])
  {
    if s == [] then [] else DigitsIn(s[..|s| - 1]) + (if IsDigit(s[|s| - 1]) then [s[|s| - 1]] else [])
  }

  /** Python's `int(text)`; none where it raises ValueError. */
  function PythonInt(text: string): Option<int> {
    var s := Strip(text);
    var signed := s != [] && (s[0] == '-' || s[0] == '+');
    var digits := if signed then s[1..] else s;
    if !IsDigitText(digits) then None
    else
      var n := DecimalValue(DigitsIn(digits));
      Some(if signed && s[0] == '-' then 0 - n else n)
  }

  // ---------------------------------------------------------------- parsing

  predicate Usable(d: int) {
    1 <= d <= 100 || 215 <= d <= 231
  }

  datatype Problem = NotARange(part: string) | NotADomain(part: string) | NamesNone | Outside(domains: seq<int>)

  datatype Parse<T> = Good(value: T) | Bad(problem: Problem)

  /** Python's `range(low, high + 1)`. */
  function Range(low: int, high: int): seq<int>
    decreases high - low
  {
    if low > high then [] else Range(low, high - 1) + [high]
  }

  function PartDomains(raw: string): Parse<seq<int>> {
    var part := Strip(raw);
    if part == [] then Good([])
    else if '-' in part then
      var i := FirstIndex(part, '-');
      var low, high := PythonInt(part[..i]), PythonInt(if i < |part| then part[i + 1..] else []);
      if low.None? || high.None? then Bad(NotARange(part)) else Good(Range(low.value, high.value))
    else
      var d := PythonInt(part);
      if d.None? then Bad(NotADomain(part)) else Good([d.value])
  }

  function AllDomains(parts: seq<string>): Parse<seq<int>> {
    if parts == [] then Good([])
    else
      var before := AllDomains(parts[..|parts| - 1]);
      if before.Bad? then before
      else
        var last := PartDomains(parts[|parts| - 1]);
        if last.Bad? then last else Good(before.value + last.value)
  }

  /** The values of a list that satisfy `keep`, in order. */
  function Filter(v: seq<int>, keep: int -> bool): (r: seq<int>)
    ensures forall y :: y in r <==> y in v && keep(y)
  {
    if v == [] then []
    else
      assert v == v[..|v| - 1] + [v[|v| - 1]];
      Filter(v[..|v| - 1], keep) + (if keep(v[|v| - 1]) then [v[|v| - 1]] else [])
  }

  /** `dict.fromkeys`: each value once, where it first occurs. */
  function FirstOccurrences(v: seq<int>): (r: seq<int>)
    ensures forall y :: y in r <==> y in v
  {
    if v == [] then []
    else
      assert v == v[..|v| - 1] + [v[|v| - 1]];
      var r := FirstOccurrences(v[..|v| - 1]);
      if v[|v| - 1] in r then r else r + [v[|v| - 1]]
  }

  function Checked(domains: seq<int>): Parse<seq<int>> {
    if domains == [] then Bad(NamesNone)
    else
      var outside := SortedDistinct(Filter(domains, d => !Usable(d)));
      if outside != [] then Bad(Outside(outside)) else Good(FirstOccurrences(domains))
  }

  function Parsed(spec: string): Parse<seq<int>> {
    var all := AllDomains(Split(spec, ','));
    if all.Bad? then all else Checked(all.value)
  }

  method ParseBand(spec: string) returns (r: Parse<seq<int>>)
    ensures r == Parsed(spec)
  {
    var parts := Split(spec, ',');
    var domains: seq<int> := [];
    for i := 0 to |parts|
      invariant AllDomains(parts[..i]) == Good(domains)
    {
      assert parts[..i + 1][..i] == parts[..i];
      var here := PartDomains(parts[i]);
      if here.Bad? {
        BadStays(parts, i + 1);
        return here;
      }
      domains := domains + here.value;
    }
    assert parts[..|parts|] == parts;
    r := Checked(domains);
  }

  lemma {:induction false} BadStays(parts: seq<string>, k: nat)
    requires k <= |parts| && AllDomains(parts[..k]).Bad?
    ensures AllDomains(parts) == AllDomains(parts[..k])
  {
    if k < |parts| {
      assert parts[..|parts| - 1][..k] == parts[..k];
      BadStays(parts[..|parts| - 1], k);
    } else {
      assert parts[..k] == parts;
    }
  }

  // ---------------------------------------------------------------- spans and lists

  function Expand(spans: seq<Span>): seq<int> {
    if spans == [] then []
    else Expand(spans[..|spans| - 1]) + Range(spans[|spans| - 1].low, spans[|spans| - 1].high)
  }

  predicate Printable(span: Span) { 0 <= span.low <= span.high }

  predicate AllPrintable(spans: seq<Span>) {
    forall i :: 0 <= i < |spans| ==> Printable(spans[i])
  }

  lemma ExpandSnoc(spans: seq<Span>, span: Span)
    ensures Expand(spans + [span]) == Expand(spans) + Range(span.low, span.high)
  {
    assert (spans + [span])[..|spans|] == spans;
  }

  lemma ExpandGrown(spans: seq<Span>, d: int)
    requires AllPrintable(spans) && d >= 0
    ensures Expand(Grown(spans, d)) == Expand(spans) + [d] && AllPrintable(Grown(spans, d))
  {
    if spans != [] && d == spans[|spans| - 1].high + 1 {
      var init, last := spans[..|spans| - 1], spans[|spans| - 1];
      assert Printable(last);
      ExpandSnoc(init, last.(high := d));
      Reassociate(Expand(init), Range(last.low, last.high), [d]);
    } else {
      ExpandSnoc(spans, Span(d, d));
      assert Range(d, d) == [d];
    }
  }

  lemma {:induction false} ExpandSpans(v: seq<int>)
    requires forall i :: 0 <= i < |v| ==> v[i] >= 0
    ensures Expand(SpansOf(v)) == v && AllPrintable(SpansOf(v))
  {
    if v == [] {
    } else {
      var init, d := v[..|v| - 1], v[|v| - 1];
      ExpandSpans(init);
      ExpandGrown(SpansOf(init), d);
      assert init + [d] == v;
    }
  }

  // ---------------------------------------------------------------- reading back one part

  lemma StripIdentity(s: string)
    requires s != [] && !IsSpace(s[0]) && !IsSpace(s[|s| - 1])
    ensures Strip(s) == s
  {
  }

  lemma {:induction false} DigitsInDigits(s: string)
    requires forall i :: 0 <= i < |s| ==> IsDigit(s[i])
    ensures DigitsIn(s) == s
  {
    if s == [] {
    } else {
      var init, last := s[..|s| - 1], s[|s| - 1];
      DigitsInDigits(init);
      assert init + [last] == s;
    }
  }

  predicate AllDigits(s: string) {
    s != [] && forall i :: 0 <= i < |s| ==> IsDigit(s[i])
  }

  lemma DigitsAreDigitText(s: string)
    requires AllDigits(s)
    ensures IsDigitText(s) && Strip(s) == s && s[0] != '-' && s[0] != '+'
  {
    assert IsDigit(s[0]) && IsDigit(s[|s| - 1]);
    StripIdentity(s);
    forall i | 0 <= i < |s| ensures IsLiteralChar(s, i) {
      assert IsDigit(s[i]);
    }
  }

  lemma IntOfDigits(s: string)
    requires AllDigits(s)
    ensures PythonInt(s) == Some(DecimalValue(s))
  {
    DigitsAreDigitText(s);
    DigitsInDigits(s);
  }

  lemma IntOfDecimal(n: nat)
    ensures AllDigits(Decimal(n)) && PythonInt(Decimal(n)) == Some(n)
  {
    IntOfDigits(Decimal(n));
    DecimalRoundTrip(n);
  }

  lemma FirstIndexUnique(s: string, c: char, i: nat)
    requires i < |s| && s[i] == c && c !in s[..i]
    ensures FirstIndex(s, c) == i
  {
  }

  lemma DomainPart(text: string, d: int)
    requires AllDigits(text) && PythonInt(text) == Some(d)
    ensures PartDomains(text) == Good([d])
  {
    assert IsDigit(text[0]) && IsDigit(text[|text| - 1]);
    StripIdentity(text);
  }

  lemma RangePart(low: string, high: string, l: int, h: int)
    requires AllDigits(low) && AllDigits(high) && PythonInt(low) == Some(l) && PythonInt(high) == Some(h)
    ensures PartDomains(low + ['-'] + high) == Good(Range(l, h))
  {
    var text := low + ['-'] + high;
    assert IsDigit(low[0]) && IsDigit(high[|high| - 1]);
    assert text[0] == low[0] && text[|text| - 1] == high[|high| - 1];
    StripIdentity(text);
    assert text[|low|] == '-' && text[..|low|] == low && text[|low| + 1..] == high;
    FirstIndexUnique(text, '-', |low|);
  }

  lemma SpanTextHasNoComma(span: Span)
    ensures ',' !in SpanText(span) && SpanText(span) != []
  {
    var low, high := SignedDecimal(span.low), SignedDecimal(span.high);
    assert ',' !in low && ',' !in high;
  }

  lemma PartOfSpan(span: Span)
    requires Printable(span)
    ensures PartDomains(SpanText(span)) == Good(Range(span.low, span.high))
  {
    IntOfDecimal(span.low);
    IntOfDecimal(span.high);
    if span.low == span.high {
      DomainPart(Decimal(span.low), span.low);
      assert Range(span.low, span.high) == [span.low];
    } else {
      RangePart(Decimal(span.low), Decimal(span.high), span.low, span.high);
    }
  }

  // ---------------------------------------------------------------- reading back the list

  lemma SplitSnoc(s: string, x: char, c: char)
    ensures Split(s + [x], c) == if x == c then Split(s, c) + [[]] else ExtendLast(Split(s, c), x)
  {
    assert (s + [x])[..|s|] == s;
  }

  lemma ExtendLastPart(parts: seq<string>, part: string, x: char)
    ensures ExtendLast(parts + [part], x) == parts + [part + [x]]
  {
    assert (parts + [part])[..|parts|] == parts;
  }

  lemma SnocAll(a: string, c: char, init: string, x: char)
    ensures a + [c] + (init + [x]) == (a + [c] + init) + [x]
  {
  }

  lemma {:induction false} SplitAppend(a: string, b: string, c: char)
    requires c !in b
    ensures Split(a + [c] + b, c) == Split(a, c) + [b]
  {
    if b == [] {
      SplitSnoc(a, c, c);
      assert a + [c] + b == a + [c];
    } else {
      var init, x := b[..|b| - 1], b[|b| - 1];
      assert init + [x] == b;
      SplitAppend(a, init, c);
      SplitSnoc(a + [c] + init, x, c);
      ExtendLastPart(Split(a, c), init, x);
      SnocAll(a, c, init, x);
    }
  }

  lemma {:induction false} SplitNowhere(b: string, c: char)
    requires c !in b
    ensures Split(b, c) == [b]
  {
    if b == [] {
    } else {
      var init, x := b[..|b| - 1], b[|b| - 1];
      assert init + [x] == b;
      SplitNowhere(init, c);
      ExtendLastPart([], init, x);
    }
  }

  lemma {:induction false} SplitJoined(parts: seq<string>)
    requires parts != [] && forall i :: 0 <= i < |parts| ==> ',' !in parts[i]
    ensures Split(Joined(parts), ',') == parts
  {
    if |parts| == 1 {
      SplitNowhere(parts[0], ',');
    } else {
      var init, last := parts[..|parts| - 1], parts[|parts| - 1];
      SplitJoined(init);
      SplitAppend(Joined(init), last, ',');
      assert parts == init + [last];
    }
  }

  lemma {:induction false} PartsOfSpans(spans: seq<Span>)
    requires AllPrintable(spans)
    ensures |Texts(spans)| == |spans|
    ensures AllDomains(Texts(spans)) == Good(Expand(spans))
    ensures forall i :: 0 <= i < |spans| ==> ',' !in Texts(spans)[i] && Texts(spans)[i] != []
  {
    if spans == [] {
    } else {
      var init, last := spans[..|spans| - 1], spans[|spans| - 1];
      PartsOfSpans(init);
      PartOfSpan(last);
      SpanTextHasNoComma(last);
      assert Texts(spans)[..|init|] == Texts(init);
    }
  }

  lemma {:induction false} OccurrencesOfDistinct(v: seq<int>)
    requires Ascending(v)
    ensures FirstOccurrences(v) == v
  {
    if v == [] {
    } else {
      OccurrencesOfDistinct(v[..|v| - 1]);
      assert v == v[..|v| - 1] + [v[|v| - 1]];
    }
  }

  lemma {:induction false} FilterNone(v: seq<int>, keep: int -> bool)
    requires forall d :: d in v ==> !keep(d)
    ensures Filter(v, keep) == []
  {
    if v == [] {
    } else {
      var init, last := v[..|v| - 1], v[|v| - 1];
      assert last in v && forall d :: d in init ==> d in v;
      FilterNone(init, keep);
      assert !keep(last);
      assert Filter(v, keep) == Filter(init, keep);
    }
  }

  lemma CheckedUsable(v: seq<int>)
    requires v != [] && Ascending(v) && forall d :: d in v ==> Usable(d)
    ensures Checked(v) == Good(v)
  {
    FilterNone(v, d => !Usable(d));
    OccurrencesOfDistinct(v);
  }

  /** Parsing the text of a band gives back its distinct domains in order. */
  lemma BandRoundTrip(domains: seq<int>)
    requires domains != [] && forall d :: d in domains ==> Usable(d)
    ensures Parsed(Printed(domains)) == Good(SortedDistinct(domains))
  {
    var asc := SortedDistinct(domains);
    assert domains[0] in asc;
    SortedDistinctAscending(domains);
    assert forall i :: 0 <= i < |asc| ==> asc[i] in asc;
    ExpandSpans(asc);
    var spans := SpansOf(asc);
    PartsOfSpans(spans);
    SplitJoined(Texts(spans));
    assert Joined(Texts(spans)) != [] by {
      assert Texts(spans)[0] != [];
    }
    CheckedUsable(asc);
  }

  lemma {:induction false} OccurrencesDistinct(v: seq<int>, i: nat, j: nat)
    requires i < j < |FirstOccurrences(v)|
    ensures FirstOccurrences(v)[i] != FirstOccurrences(v)[j]
  {
    var r := FirstOccurrences(v[..|v| - 1]);
    if j < |r| {
      OccurrencesDistinct(v[..|v| - 1], i, j);
    }
  }

  /** An accepted band is non-empty, usable and names every domain once. */
  lemma ParsedBandIsUsable(spec: string)
    requires Parsed(spec).Good?
    ensures var band := Parsed(spec).value;
            && band != []
            && (forall d :: d in band ==> Usable(d))
            && (forall i, j :: 0 <= i < j < |band| ==> band[i] != band[j])
  {
    var all := AllDomains(Split(spec, ',')).value;
    var band := Parsed(spec).value;
    assert all[0] in band;
    forall d | d in band ensures Usable(d) {
      var keep := (x: int) => !Usable(x);
      assert d in SortedDistinct(Filter(all, keep)) <==> d in all && keep(d);
    }
    forall i, j | 0 <= i < j < |band| ensures band[i] != band[j] {
      OccurrencesDistinct(all, i, j);
    }
  }
}
