/** Which DDS domains are safe on a machine, and the text that names a safe part of a band. */
module DomainBand {
  import opened Basics
  import opened BandText

  const RTPS_PORT_BASE := 7400
  const RTPS_DOMAIN_GAIN := 250
  const MAX_UDP_PORT := 65535

  /** The ports a machine hands out as ephemeral. */
  datatype Ports = Ports(low: int, high: int)

  /** The Linux default. */
  const DEFAULT_PORTS := Ports(32768, 60999)

  predicate WellFormed(p: Ports) { 0 < p.low <= p.high <= MAX_UDP_PORT }

  function SliceFirst(d: int): int { RTPS_PORT_BASE + RTPS_DOMAIN_GAIN * d }

  function SliceLast(d: int): int { SliceFirst(d) + RTPS_DOMAIN_GAIN - 1 }

  predicate DomainIsSafe(d: int, p: Ports) {
    SliceLast(d) <= MAX_UDP_PORT && (SliceLast(d) < p.low || SliceFirst(d) > p.high)
  }

  predicate InSlice(port: int, d: int) { SliceFirst(d) <= port <= SliceLast(d) }

  /** A domain is safe exactly if none of its ports is past the port space or handed out. */
  lemma SafeMeansNoPortShared(d: int, p: Ports)
    requires p.low <= p.high
    ensures DomainIsSafe(d, p) <==>
            forall port :: InSlice(port, d) ==> port <= MAX_UDP_PORT && !(p.low <= port <= p.high)
  {
    if forall port :: InSlice(port, d) ==> port <= MAX_UDP_PORT && !(p.low <= port <= p.high) {
      assert InSlice(SliceFirst(d), d) && InSlice(SliceLast(d), d);
      assert InSlice(p.low, d) ==> false;
      assert InSlice(p.high, d) ==> false;
    }
  }

  /** Each port belongs to at most one domain. */
  lemma SlicesDisjoint(d: int, e: int, port: int)
    requires InSlice(port, d) && InSlice(port, e)
    ensures d == e
  {
  }

  /** The band is derived, not chosen: past domain 0 it is exactly what the default range leaves safe. */
  lemma UsableIsSafeByDefault(d: int)
    requires d >= 1
    ensures Usable(d) <==> DomainIsSafe(d, DEFAULT_PORTS)
  {
  }

  // ---------------------------------------------------------------- the port range

  function SpaceForDash(text: string): string {
    if text == [] then []
    else
      var last := text[|text| - 1];
      SpaceForDash(text[..|text| - 1]) + [if last == '-' then ' ' else last]
  }

  /** `text.split()`: the runs of non-blank characters. */
  function Fields(text: string): seq<string>
    decreases |text|
  {
    var s := StripLeft(text);
    StripLeftShrinks(text);
    if s == [] then []
    else
      var i := WordLength(s);
      [s[..i]] + Fields(s[i..])
  }

  function WordLength(s: string): (i: nat)
    ensures i <= |s|
    ensures s != [] && !IsSpace(s[0]) ==> i > 0
  {
    if s == [] || IsSpace(s[0]) then 0 else 1 + WordLength(s[1..])
  }

  lemma {:induction false} StripLeftShrinks(s: string)
    ensures |StripLeft(s)| <= |s|
    ensures StripLeft(s) != [] ==> !IsSpace(StripLeft(s)[0])
  {
    if s == [] || !IsSpace(s[0]) {
    } else {
      StripLeftShrinks(s[1..]);
    }
  }

  function ParsePortRange(text: string): (r: Option<Ports>)
    ensures r.Some? ==> WellFormed(r.value)
  {
    var fields := Fields(SpaceForDash(text));
    if |fields| != 2 then None
    else
      var low, high := PythonInt(fields[0]), PythonInt(fields[1]);
      if low.None? || high.None? || !WellFormed(Ports(low.value, high.value)) then None
      else Some(Ports(low.value, high.value))
  }

  // ---------------------------------------------------------------- which texts are a range

  predicate Blank(s: string) {
    forall i :: 0 <= i < |s| ==> IsSpace(s[i])
  }

  predicate Word(s: string) {
    s != [] && forall i :: 0 <= i < |s| ==> !IsSpace(s[i])
  }

  /** Two words with blanks between them and any blanks around them. */
  predicate IsPair(s: string, a: string, x: string, b: string, y: string, c: string) {
    s == a + (x + (b + (y + c))) && Blank(a) && Word(x) && Blank(b) && b != [] && Word(y) && Blank(c)
  }

  lemma {:induction false} SpaceForDashAt(text: string)
    ensures |SpaceForDash(text)| == |text|
    ensures forall i :: 0 <= i < |text| ==> SpaceForDash(text)[i] == if text[i] == '-' then ' ' else text[i]
  {
    if text == [] {
    } else {
      SpaceForDashAt(text[..|text| - 1]);
    }
  }

  lemma {:induction false} StripBlank(a: string, s: string)
    requires Blank(a) && (s == [] || !IsSpace(s[0]))
    ensures StripLeft(a + s) == s
  {
    if a == [] {
      assert a + s == s;
    } else {
      assert (a + s)[1..] == a[1..] + s;
      StripBlank(a[1..], s);
    }
  }

  lemma {:induction false} WordLengthIs(x: string, s: string)
    requires Word(x) && (s == [] || IsSpace(s[0]))
    ensures WordLength(x + s) == |x|
  {
    assert (x + s)[1..] == x[1..] + s;
    if |x| == 1 {
      assert x[1..] + s == s;
    } else {
      WordLengthIs(x[1..], s);
    }
  }

  lemma FieldsFirst(a: string, x: string, s: string)
    requires Blank(a) && Word(x) && (s == [] || IsSpace(s[0]))
    ensures Fields(a + (x + s)) == [x] + Fields(s)
  {
    StripBlank(a, x + s);
    WordLengthIs(x, s);
    assert (x + s)[..|x|] == x && (x + s)[|x|..] == s;
  }

  lemma FieldsBlank(s: string)
    requires Blank(s)
    ensures Fields(s) == []
  {
    StripBlank(s, []);
    assert s + [] == s;
  }

  lemma {:induction false} WordPrefix(s: string)
    ensures forall i :: 0 <= i < WordLength(s) ==> !IsSpace(s[i])
    ensures WordLength(s) < |s| ==> IsSpace(s[WordLength(s)])
  {
    if s == [] || IsSpace(s[0]) {
    } else {
      WordPrefix(s[1..]);
      assert forall i :: 0 < i < WordLength(s) ==> s[i] == s[1..][i - 1];
    }
  }

  lemma {:induction false} StripLeftCuts(s: string) returns (k: nat)
    ensures k <= |s| && StripLeft(s) == s[k..] && Blank(s[..k])
  {
    if s == [] || !IsSpace(s[0]) {
      k := 0;
    } else {
      var j := StripLeftCuts(s[1..]);
      k := j + 1;
      assert s[1..][j..] == s[k..];
      assert forall i :: 0 < i < k ==> s[i] == s[1..][..j][i - 1];
    }
  }

  lemma FirstField(s: string) returns (a: string, x: string, rest: string)
    requires Fields(s) != []
    ensures s == a + (x + rest) && Blank(a) && Word(x) && (rest == [] || IsSpace(rest[0]))
    ensures Fields(s) == [x] + Fields(rest)
  {
    var k := StripLeftCuts(s);
    StripLeftShrinks(s);
    a := s[..k];
    var t := StripLeft(s);
    WordPrefix(t);
    x, rest := t[..WordLength(t)], t[WordLength(t)..];
    assert t == x + rest;
  }

  lemma NoFields(s: string)
    requires Fields(s) == []
    ensures Blank(s)
  {
    var k := StripLeftCuts(s);
    assert s[..k] == s;
  }

  lemma TwoFields(s: string) returns (a: string, x: string, b: string, y: string, c: string)
    requires |Fields(s)| == 2
    ensures IsPair(s, a, x, b, y, c) && Fields(s) == [x, y]
  {
    var rest;
    a, x, rest := FirstField(s);
    b, y, c := FirstField(rest);
    NoFields(c);
  }

  lemma FieldsOfPair(s: string, a: string, x: string, b: string, y: string, c: string)
    requires IsPair(s, a, x, b, y, c)
    ensures Fields(s) == [x, y]
  {
    FieldsBlank(c);
    FieldsFirst(b, y, c);
    FieldsFirst(a, x, b + (y + c));
  }

  predicate Names(s: string, p: Ports, a: string, x: string, b: string, y: string, c: string) {
    IsPair(s, a, x, b, y, c) && PythonInt(x) == Some(p.low) && PythonInt(y) == Some(p.high)
  }

  ghost predicate IsRange(s: string, p: Ports) {
    exists a, x, b, y, c :: Names(s, p, a, x, b, y, c)
  }

  lemma NamedParses(text: string, p: Ports)
    requires WellFormed(p) && IsRange(SpaceForDash(text), p)
    ensures ParsePortRange(text) == Some(p)
  {
    var a, x, b, y, c :| Names(SpaceForDash(text), p, a, x, b, y, c);
    FieldsOfPair(SpaceForDash(text), a, x, b, y, c);
  }

  lemma ParsedIsRange(text: string, p: Ports)
    requires ParsePortRange(text) == Some(p)
    ensures WellFormed(p) && IsRange(SpaceForDash(text), p)
  {
    var s := SpaceForDash(text);
    var a, x, b, y, c := TwoFields(s);
    assert Names(s, p, a, x, b, y, c);
  }

  /** A text is a range exactly if, dashes read as blanks, it is the two ends of it and blanks. */
  lemma ParsesExactly(text: string, p: Ports)
    ensures ParsePortRange(text) == Some(p) <==> 0 < p.low <= p.high <= 65535 && IsRange(SpaceForDash(text), p)
  {
    if ParsePortRange(text) == Some(p) {
      ParsedIsRange(text, p);
    } else if WellFormed(p) && IsRange(SpaceForDash(text), p) {
      NamedParses(text, p);
    }
  }

  /** Blanks and dashes. */
  predicate Gap(s: string) {
    forall i :: 0 <= i < |s| ==> IsSpace(s[i]) || s[i] == '-'
  }

  lemma SpaceForConcat(a: string, s: string)
    ensures SpaceForDash(a + s) == SpaceForDash(a) + SpaceForDash(s)
  {
    SpaceForDashAt(a);
    SpaceForDashAt(s);
    SpaceForDashAt(a + s);
  }

  lemma SpaceForGap(a: string)
    requires Gap(a)
    ensures Blank(SpaceForDash(a)) && |SpaceForDash(a)| == |a|
  {
    SpaceForDashAt(a);
  }

  lemma SpaceForDigits(x: string)
    requires AllDigits(x)
    ensures SpaceForDash(x) == x && Word(x)
  {
    SpaceForDashAt(x);
  }

  lemma SpacedPair(a: string, x: string, b: string, y: string, c: string)
    requires Gap(a) && AllDigits(x) && Gap(b) && b != [] && AllDigits(y) && Gap(c)
    ensures IsPair(SpaceForDash(a + (x + (b + (y + c)))), SpaceForDash(a), x, SpaceForDash(b), y, SpaceForDash(c))
  {
    SpaceForConcat(a, x + (b + (y + c)));
    SpaceForConcat(x, b + (y + c));
    SpaceForConcat(b, y + c);
    SpaceForConcat(y, c);
    SpaceForGap(a);
    SpaceForGap(b);
    SpaceForGap(c);
    SpaceForDigits(x);
    SpaceForDigits(y);
  }

  /** Every well-formed range is read back from its two numbers, whatever blanks or dashes separate them. */
  lemma PrintedRangeParses(p: Ports, a: string, b: string, c: string)
    requires 0 < p.low <= p.high <= 65535 && Gap(a) && Gap(b) && b != [] && Gap(c)
    ensures ParsePortRange(a + (Decimal(p.low) + (b + (Decimal(p.high) + c)))) == Some(p)
  {
    var x, y := Decimal(p.low), Decimal(p.high);
    IntOfDecimal(p.low);
    IntOfDecimal(p.high);
    SpacedPair(a, x, b, y, c);
    var text := a + (x + (b + (y + c)));
    assert Names(SpaceForDash(text), p, SpaceForDash(a), x, SpaceForDash(b), y, SpaceForDash(c));
    NamedParses(text, p);
  }

  /** What the environment declares and what the kernel's file holds, if readable, as text. */
  datatype Machine = Machine(declared: Option<string>, kernel: Option<string>)

  datatype PortAnswer = Known(ports: Ports) | Malformed | Undetermined

  function Widest(p: Ports, q: Ports): Ports {
    Ports(if p.low <= q.low then p.low else q.low, if p.high >= q.high then p.high else q.high)
  }

  /** The kernel's range, widened by a declaration; never a default. */
  function Combined(declared: Option<Option<Ports>>, kernel: Option<Option<Ports>>): (r: PortAnswer) {
    if declared == Some(None) || kernel == Some(None) then Malformed
    else if declared.Some? && kernel.Some? then Known(Widest(declared.value.value, kernel.value.value))
    else if declared.Some? then Known(declared.value.value)
    else if kernel.Some? then Known(kernel.value.value)
    else Undetermined
  }

  function ReadEphemeralRange(m: Machine): (r: PortAnswer)
    ensures r.Known? ==> WellFormed(r.ports)
  {
    var declared := m.declared.Some? && m.declared.value != "";
    Combined(if declared then Some(ParsePortRange(m.declared.value)) else None,
             if m.kernel.Some? then Some(ParsePortRange(m.kernel.value)) else None)
  }

  /** A text the machine answers with: a non-empty declaration, or the kernel's file. */
  predicate Answers(m: Machine, text: string) {
    (m.declared == Some(text) && text != "") || m.kernel == Some(text)
  }

  predicate Within(p: Option<Ports>, q: Ports) {
    p.Some? && q.low <= p.value.low && p.value.high <= q.high
  }

  ghost predicate Covers(q: Ports, m: Machine) {
    forall text :: Answers(m, text) ==> Within(ParsePortRange(text), q)
  }

  /** The range is undetermined exactly if nothing answers and malformed exactly if some answer is not a range. */
  lemma AnsweredExactly(m: Machine)
    ensures ReadEphemeralRange(m).Undetermined? <==> forall text :: !Answers(m, text)
    ensures ReadEphemeralRange(m).Malformed? <==> exists text :: Answers(m, text) && ParsePortRange(text).None?
  {
    assert m.declared.Some? && m.declared.value != "" ==> Answers(m, m.declared.value);
    assert m.kernel.Some? ==> Answers(m, m.kernel.value);
  }

  /** A known range is the smallest one around every answer. */
  lemma RangeIsSmallest(m: Machine, q: Ports)
    requires ReadEphemeralRange(m).Known?
    ensures Covers(q, m) <==> Within(Some(ReadEphemeralRange(m).ports), q)
  {
    assert m.declared.Some? && m.declared.value != "" ==> Answers(m, m.declared.value);
    assert m.kernel.Some? ==> Answers(m, m.kernel.value);
  }

  // ---------------------------------------------------------------- the check

  datatype Verdict =
    | Accepted(ports: Ports)
    | Unsafe(unsafe: seq<int>, suggestion: Option<string>)
    | RangeMalformed
    | RangeUnknown

  function VerifyBand(domains: seq<int>, m: Machine): Verdict {
    match ReadEphemeralRange(m)
    case Malformed => RangeMalformed
    case Undetermined => RangeUnknown
    case Known(ports) =>
      var unsafe := Filter(domains, d => !DomainIsSafe(d, ports));
      var safe := Filter(domains, d => DomainIsSafe(d, ports));
      if unsafe == [] then Accepted(ports)
      else Unsafe(unsafe, if safe == [] then None else Some(Printed(safe)))
  }

  lemma {:induction false} FilterEmptyIff(v: seq<int>, keep: int -> bool)
    ensures Filter(v, keep) == [] <==> forall d :: d in v ==> !keep(d)
  {
    if forall d :: d in v ==> !keep(d) {
      FilterNone(v, keep);
    } else {
      var d :| d in v && keep(d);
      assert d in Filter(v, keep);
    }
  }

  /** A band is accepted exactly if the range is known and every domain of the band is safe in it. */
  lemma AcceptedIffAllSafe(domains: seq<int>, m: Machine)
    ensures VerifyBand(domains, m).Accepted? <==>
            ReadEphemeralRange(m).Known? && forall d :: d in domains ==> DomainIsSafe(d, ReadEphemeralRange(m).ports)
  {
    if ReadEphemeralRange(m).Known? {
      FilterEmptyIff(domains, d => !DomainIsSafe(d, ReadEphemeralRange(m).ports));
    }
  }

  /**
   A refusal that names a safe subset names one that works: its text parses to exactly the safe
   domains of the refused band, in order, and that band is accepted on the same machine.
   */
  lemma SuggestionIsAccepted(domains: seq<int>, m: Machine)
    requires forall d :: d in domains ==> Usable(d)
    requires VerifyBand(domains, m).Unsafe? && VerifyBand(domains, m).suggestion.Some?
    ensures var adopted := Parsed(VerifyBand(domains, m).suggestion.value);
            && adopted.Good?
            && Ascending(adopted.value)
            && (forall d :: d in adopted.value <==> d in domains && DomainIsSafe(d, ReadEphemeralRange(m).ports))
            && VerifyBand(adopted.value, m).Accepted?
  {
    var ports := ReadEphemeralRange(m).ports;
    var safe := Filter(domains, d => DomainIsSafe(d, ports));
    BandRoundTrip(safe);
    SortedDistinctAscending(safe);
    AcceptedIffAllSafe(SortedDistinct(safe), m);
  }

  /** No suggestion means that no domain of the band is safe here. */
  lemma NoSuggestionMeansNoneSafe(domains: seq<int>, m: Machine)
    requires VerifyBand(domains, m).Unsafe?
    ensures VerifyBand(domains, m).suggestion.None? <==>
            forall d :: d in domains ==> !DomainIsSafe(d, ReadEphemeralRange(m).ports)
  {
    FilterEmptyIff(domains, d => DomainIsSafe(d, ReadEphemeralRange(m).ports));
  }

  // ---------------------------------------------------------------- widening

  lemma WideningKeepsUnsafe(d: int, p: Ports, wider: Ports)
    requires wider.low <= p.low && p.high <= wider.high && DomainIsSafe(d, wider)
    ensures DomainIsSafe(d, p)
  {
  }

  lemma KernelWithin(m: Machine)
    requires m.kernel.Some? && ReadEphemeralRange(m).Known?
    ensures ReadEphemeralRange(m.(declared := None)).Known?
    ensures Within(Some(ReadEphemeralRange(m.(declared := None)).ports), ReadEphemeralRange(m).ports)
  {
  }

  /** A declaration on top of a readable kernel range only ever makes the check stricter. */
  lemma DeclarationOnlyTightens(domains: seq<int>, m: Machine)
    requires m.kernel.Some? && VerifyBand(domains, m).Accepted?
    ensures VerifyBand(domains, m.(declared := None)).Accepted?
  {
    var alone := m.(declared := None);
    AcceptedIffAllSafe(domains, m);
    KernelWithin(m);
    var wide, kernel := ReadEphemeralRange(m).ports, ReadEphemeralRange(alone).ports;
    forall d | d in domains ensures DomainIsSafe(d, kernel) {
      WideningKeepsUnsafe(d, kernel, wide);
    }
    AcceptedIffAllSafe(domains, alone);
  }
}
