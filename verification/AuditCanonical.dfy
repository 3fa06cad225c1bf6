/**
 The canonical text an audit record is hashed over.

 Request text is arbitrary bytes. It is modelled as a sequence of units: a well-formed
 character, or an ill-formed run of bytes that the JSON printer replaces by U+FFFD.
 */
module AuditCanonical {
  import opened Basics

  datatype TextUnit = Scalar(c: char) | Malformed(raw: seq<bv8>)

  type Text = seq<TextUnit>

  const REPLACEMENT: char := '\U{FFFD}'

  datatype Event = Event(
    faultCode: Text,
    transition: Text,
    severity: int,       // an int64 column; every reader casts it to uint8
    status: Text,
    sourceId: Text,
    description: Text,
    occurredAtNs: int)

  /** What the canonical text preserves of an event. */
  datatype CanonicalEvent = CanonicalEvent(
    faultCode: string,
    transition: string,
    severity: int,
    status: string,
    sourceId: string,
    description: string,
    occurredAtNs: int)

  function WellFormed(t: Text): (s: string)
    ensures |s| == |t|
  {
    seq(|t|, i requires 0 <= i < |t| => match t[i] case Scalar(c) => c case Malformed(_) => REPLACEMENT)
  }

  function CanonicalForm(e: Event): CanonicalEvent {
    CanonicalEvent(WellFormed(e.faultCode), WellFormed(e.transition), e.severity % 256, WellFormed(e.status),
                   WellFormed(e.sourceId), WellFormed(e.description), e.occurredAtNs)
  }

  // ---------------------------------------------------------------- string literals

  function HexDigit(n: nat): char
    requires n < 16
  {
    "0123456789abcdef"[n]
  }

  /** One character of a JSON string literal, non-ASCII characters written raw. */
  function Escape(c: char): (s: string)
    ensures |s| > 0 && s[0] != '"'
    ensures s[0] == '{' <==> s == "{"
  {
    if c == '"' then "\\\""
    else if c == '\\' then "\\\\"
    else if c == 8 as char then "\\b"
    else if c == 12 as char then "\\f"
    else if c == '\n' then "\\n"
    else if c == '\r' then "\\r"
    else if c == '\t' then "\\t"
    else if c as int < 0x20 then "\\u00" + [HexDigit(c as int / 16), HexDigit(c as int % 16)]
    else [c]
  }

  /** Exactly the quote, the backslash and the control characters are written differently, as two or six characters. */
  lemma PlainCharacters(c: char)
    ensures Escape(c) == [c] <==> c != '"' && c != '\\' && 32 <= c as int
    ensures Escape(c) != [c] ==> |Escape(c)| in {2, 6} && Escape(c)[0] == '\\'
  {
  }

  function EscapeAll(s: string): string {
    if s == [] then [] else Escape(s[0]) + EscapeAll(s[1..])
  }

  /** `json_encode`: a quoted literal. */
  function JsonEncode(t: Text): string {
    ['"'] + EscapeAll(WellFormed(t)) + ['"']
  }

  function HexValue(c: char): int {
    if '0' <= c <= '9' then c as int - '0' as int else c as int - 'a' as int + 10
  }

  /** Reads back the character that starts a literal's body, and how many characters it took. */
  function Unescape(s: string): (char, int) {
    if |s| == 0 then (' ', 0)
    else if s[0] != '\\' || |s| < 2 then (s[0], 1)
    else if s[1] == 'b' then (8 as char, 2)
    else if s[1] == 'f' then (12 as char, 2)
    else if s[1] == 'n' then ('\n', 2)
    else if s[1] == 'r' then ('\r', 2)
    else if s[1] == 't' then ('\t', 2)
    else if s[1] == 'u' && |s| >= 6 then
      var v := HexValue(s[4]) * 16 + HexValue(s[5]);
      (if 0 <= v < 0x20 then v as char else ' ', 6)
    else (s[1], 2)
  }

  lemma UnescapeEscape(c: char, rest: string)
    ensures Unescape(Escape(c) + rest) == (c, |Escape(c)|)
  {
    var e := Escape(c);
    var s := e + rest;
    assert forall i :: 0 <= i < |e| ==> s[i] == e[i];
    if c as int < 0x20 && |e| == 6 {
      var n := c as int;
      assert e[4] == HexDigit(n / 16) && e[5] == HexDigit(n % 16);
      assert HexValue(HexDigit(n / 16)) == n / 16;
      assert HexValue(HexDigit(n % 16)) == n % 16;
    }
  }

  lemma EscapeHeadInjective(c: char, d: char, p: string, q: string)
    requires Escape(c) + p == Escape(d) + q
    ensures c == d && p == q
  {
    UnescapeEscape(c, p);
    UnescapeEscape(d, q);
    CommonPrefix(Escape(c), p, q);
  }

  /** The text of a literal after its opening quote, and what follows the literal. */
  function BodyThen(a: string, x: string): (s: string)
    ensures |s| > 0 && (s[0] == '"' <==> a == [])
    ensures s == EscapeAll(a) + ['"'] + x
  {
    if a == [] then ['"'] + x else Escape(a[0]) + BodyThen(a[1..], x)
  }

  /** A literal's body and its closing quote determine the text and what follows it. */
  lemma {:induction false} LiteralSelfDelimiting(a: string, b: string, x: string, y: string)
    requires BodyThen(a, x) == BodyThen(b, y)
    ensures a == b && x == y
  {
    if a == [] {
      CommonPrefix(['"'], x, y);
    } else {
      EscapeHeadInjective(a[0], b[0], BodyThen(a[1..], x), BodyThen(b[1..], y));
      LiteralSelfDelimiting(a[1..], b[1..], x, y);
      assert a == [a[0]] + a[1..] && b == [b[0]] + b[1..];
    }
  }

  lemma CommonPrefix(p: string, x: string, y: string)
    requires p + x == p + y
    ensures x == y
  {
    assert x == (p + x)[|p|..] && y == (p + y)[|p|..];
  }

  // ---------------------------------------------------------------- the record text

  const OPENING := "{\"seq\":"

  /** The separator and name that introduce a member. */
  function Key(name: string): (s: string)
    ensures |s| > 1 && s[0] == ',' && s[|s| - 1] == ':'
    ensures '{' !in name ==> '{' !in s
  {
    ",\"" + name + "\":"
  }

  function After(name: string, value: string, rest: string): (s: string)
    ensures |s| > 0 && s[0] == ','
  {
    Key(name) + (value + rest)
  }

  function FromDescription(e: Event): string { After("description", JsonEncode(e.description), "}") }

  function FromSource(e: Event): string { After("source", JsonEncode(e.sourceId), FromDescription(e)) }

  function FromStatus(e: Event): string { After("status", JsonEncode(e.status), FromSource(e)) }

  function FromSeverity(e: Event): string { After("severity", SignedDecimal(e.severity % 256), FromStatus(e)) }

  function FromTransition(e: Event): string { After("transition", JsonEncode(e.transition), FromSeverity(e)) }

  function FromCode(e: Event): string { After("code", JsonEncode(e.faultCode), FromTransition(e)) }

  function FromTime(e: Event): string { After("ts", SignedDecimal(e.occurredAtNs), FromCode(e)) }

  /** Everything after the record's opening, from the sequence number on. */
  function Members(seqNo: int, e: Event): string {
    SignedDecimal(seqNo) + FromTime(e)
  }

  /** `FaultAuditLog::canonicalize`. */
  function Canonicalize(seqNo: int, e: Event): string {
    OPENING + Members(seqNo, e)
  }

  lemma NumberThenMember(i: int, j: int, x: string, y: string)
    requires x != [] && y != [] && x[0] == ',' && y[0] == ','
    requires SignedDecimal(i) + x == SignedDecimal(j) + y
    ensures i == j && x == y
  {
    assert ',' !in SignedDecimal(i) && ',' !in SignedDecimal(j);
    SplitAtDelimiter(SignedDecimal(i), SignedDecimal(j), x, y, ',');
    SignedDecimalInjective(i, j);
  }

  lemma EncodeThen(t: Text, x: string)
    ensures JsonEncode(t) + x == ['"'] + BodyThen(WellFormed(t), x)
  {
    var body := EscapeAll(WellFormed(t));
    assert ['"'] + body + ['"'] + x == ['"'] + (body + ['"'] + x);
  }

  lemma LiteralThenRest(s: Text, t: Text, x: string, y: string)
    requires JsonEncode(s) + x == JsonEncode(t) + y
    ensures WellFormed(s) == WellFormed(t) && x == y
  {
    var l, r := BodyThen(WellFormed(s), x), BodyThen(WellFormed(t), y);
    EncodeThen(s, x);
    EncodeThen(t, y);
    CommonPrefix(['"'], l, r);
    LiteralSelfDelimiting(WellFormed(s), WellFormed(t), x, y);
  }

  lemma LiteralMember(name: string, s: Text, t: Text, x: string, y: string)
    requires After(name, JsonEncode(s), x) == After(name, JsonEncode(t), y)
    ensures WellFormed(s) == WellFormed(t) && x == y
  {
    CommonPrefix(Key(name), JsonEncode(s) + x, JsonEncode(t) + y);
    LiteralThenRest(s, t, x, y);
  }

  lemma NumberMember(name: string, i: int, j: int, x: string, y: string)
    requires x != [] && y != [] && x[0] == ',' && y[0] == ','
    requires After(name, SignedDecimal(i), x) == After(name, SignedDecimal(j), y)
    ensures i == j && x == y
  {
    CommonPrefix(Key(name), SignedDecimal(i) + x, SignedDecimal(j) + y);
    NumberThenMember(i, j, x, y);
  }

  lemma FromSeverityInjective(d: Event, e: Event)
    requires FromSeverity(d) == FromSeverity(e)
    ensures d.severity % 256 == e.severity % 256 && WellFormed(d.status) == WellFormed(e.status)
    ensures WellFormed(d.sourceId) == WellFormed(e.sourceId) && WellFormed(d.description) == WellFormed(e.description)
  {
    NumberMember("severity", d.severity % 256, e.severity % 256, FromStatus(d), FromStatus(e));
    LiteralMember("status", d.status, e.status, FromSource(d), FromSource(e));
    LiteralMember("source", d.sourceId, e.sourceId, FromDescription(d), FromDescription(e));
    LiteralMember("description", d.description, e.description, "}", "}");
  }

  lemma MembersInjective(m: int, d: Event, n: int, e: Event)
    requires Members(m, d) == Members(n, e)
    ensures m == n && CanonicalForm(d) == CanonicalForm(e)
  {
    NumberThenMember(m, n, FromTime(d), FromTime(e));
    NumberMember("ts", d.occurredAtNs, e.occurredAtNs, FromCode(d), FromCode(e));
    LiteralMember("code", d.faultCode, e.faultCode, FromTransition(d), FromTransition(e));
    LiteralMember("transition", d.transition, e.transition, FromSeverity(d), FromSeverity(e));
    FromSeverityInjective(d, e);
  }

  /** The text determines the record's sequence number and canonical content, and is determined by them. */
  lemma CanonicalizeInjective(m: int, d: Event, n: int, e: Event)
    ensures Canonicalize(m, d) == Canonicalize(n, e) <==> m == n && CanonicalForm(d) == CanonicalForm(e)
  {
    if Canonicalize(m, d) == Canonicalize(n, e) {
      CommonPrefix(OPENING, Members(m, d), Members(n, e));
      MembersInjective(m, d, n, e);
    }
  }

  // ------------------------------------------- a record text never restarts inside itself

  /** Position `i` looks like the start of a record text. */
  predicate RestartsAt(s: string, i: int) {
    0 <= i && i + 2 < |s| && s[i] == '{' && s[i + 1] == '"' && s[i + 2] == 's'
  }

  predicate NoRestart(s: string) {
    forall i :: 0 <= i < |s| ==> !RestartsAt(s, i)
  }

  /** Joining keeps the property when the seam cannot complete an opening. */
  lemma NoRestartJoin(a: string, b: string)
    requires NoRestart(a) && NoRestart(b) && a != [] && b != []
    requires (a[|a| - 1] != '{' && a[|a| - 1] != '"') || (b[0] != '"' && b[0] != 's')
    ensures NoRestart(a + b)
  {
    var s := a + b;
    forall i | 0 <= i < |s|
      ensures !RestartsAt(s, i)
    {
      if i + 2 < |a| {
        assert !RestartsAt(a, i);
      } else if |a| <= i {
        assert !RestartsAt(b, i - |a|);
      }
    }
  }

  /** In a literal's body a brace is followed by a quote only when that quote closes the literal. */
  lemma {:induction false} BraceInBody(s: string, i: int)
    requires 0 <= i && i + 1 < |EscapeAll(s)| && EscapeAll(s)[i] == '{'
    ensures EscapeAll(s)[i + 1] != '"'
  {
    var e := Escape(s[0]);
    var t := EscapeAll(s[1..]);
    if i >= |e| {
      BraceInBody(s[1..], i - |e|);
    } else if i == 0 {
      assert t == EscapeAll(s[1..]) && |t| > 0;
      assert s[1..] != [] && t[0] == Escape(s[1..][0])[0];
    }
  }

  lemma LiteralNoRestart(t: Text)
    ensures NoRestart(JsonEncode(t))
  {
    var body := EscapeAll(WellFormed(t));
    var l := JsonEncode(t);
    forall i | 0 <= i < |l|
      ensures !RestartsAt(l, i)
    {
      if RestartsAt(l, i) {
        assert l[i] == body[i - 1] && l[i + 1] == body[i];
        BraceInBody(WellFormed(t), i - 1);
      }
    }
  }

  lemma NumberNoRestart(i: int)
    ensures NoRestart(SignedDecimal(i))
  {
  }

  lemma LiteralMemberNoRestart(name: string, t: Text, rest: string)
    requires '{' !in name
    requires NoRestart(rest) && rest != [] && (rest[0] == ',' || rest[0] == '}')
    ensures NoRestart(After(name, JsonEncode(t), rest))
  {
    LiteralNoRestart(t);
    NoRestartJoin(JsonEncode(t), rest);
    NoRestartJoin(Key(name), JsonEncode(t) + rest);
  }

  lemma NumberMemberNoRestart(name: string, i: int, rest: string)
    requires '{' !in name
    requires NoRestart(rest) && rest != [] && rest[0] == ','
    ensures NoRestart(After(name, SignedDecimal(i), rest))
  {
    NumberNoRestart(i);
    NoRestartJoin(SignedDecimal(i), rest);
    NoRestartJoin(Key(name), SignedDecimal(i) + rest);
  }

  lemma FromSeverityNoRestart(e: Event)
    ensures NoRestart(FromSeverity(e))
  {
    LiteralMemberNoRestart("description", e.description, "}");
    LiteralMemberNoRestart("source", e.sourceId, FromDescription(e));
    LiteralMemberNoRestart("status", e.status, FromSource(e));
    NumberMemberNoRestart("severity", e.severity % 256, FromStatus(e));
  }

  lemma MembersNoRestart(n: int, e: Event)
    ensures NoRestart(Members(n, e))
  {
    FromSeverityNoRestart(e);
    LiteralMemberNoRestart("transition", e.transition, FromSeverity(e));
    LiteralMemberNoRestart("code", e.faultCode, FromTransition(e));
    NumberMemberNoRestart("ts", e.occurredAtNs, FromCode(e));
    NumberNoRestart(n);
    NoRestartJoin(SignedDecimal(n), FromTime(e));
  }

  /** A text that opens like a record cannot be a later part of an opening and restart-free members. */
  lemma OpeningOnlyAtStart(rest: string, k: int)
    requires NoRestart(rest) && RestartsAt(OPENING + rest, k)
    ensures k == 0
  {
    var whole := OPENING + rest;
    assert whole[..7] == OPENING;
    assert forall i :: 1 <= i < 7 ==> OPENING[i] != '{';
    assert k >= 7 ==> RestartsAt(rest, k - 7);
  }

  lemma NoProperSuffix(p: string, m: int, d: Event, n: int, e: Event)
    requires Canonicalize(m, d) == p + Canonicalize(n, e)
    ensures p == []
  {
    var whole := Canonicalize(m, d);
    var tail := Canonicalize(n, e);
    MembersNoRestart(m, d);
    assert tail[0] == '{' && tail[1] == '"' && tail[2] == 's';
    assert whole[|p|] == tail[0] && whole[|p| + 1] == tail[1] && whole[|p| + 2] == tail[2];
    OpeningOnlyAtStart(Members(m, d), |p|);
  }

  lemma LongerPrefix(p: string, x: string, q: string, y: string)
    requires p + x == q + y && |p| <= |q|
    ensures x == q[|p|..] + y && (q[|p|..] == [] ==> p == q)
  {
    var whole := p + x;
    assert x == whole[|p|..] == q[|p|..] + y;
    assert p == whole[..|p|] && q == whole[..|q|];
  }

  /**
   The hashed text is the previous hash followed by the record text, with no separator and
   no length prefix. It still determines both parts, whatever the two previous hashes are.
   */
  lemma HashedTextInjective(p: string, m: int, d: Event, q: string, n: int, e: Event)
    requires p + Canonicalize(m, d) == q + Canonicalize(n, e)
    ensures p == q && m == n && CanonicalForm(d) == CanonicalForm(e)
  {
    var c1, c2 := Canonicalize(m, d), Canonicalize(n, e);
    if |p| <= |q| {
      LongerPrefix(p, c1, q, c2);
      NoProperSuffix(q[|p|..], m, d, n, e);
    } else {
      LongerPrefix(q, c2, p, c1);
      NoProperSuffix(p[|q|..], n, e, m, d);
    }
    CommonPrefix(p, c1, c2);
    CanonicalizeInjective(m, d, n, e);
  }
}
