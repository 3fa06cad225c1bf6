/** The hand-written JSON string array the SQLite backend keeps a fault's reporting sources in. */
module JsonArray {
  import opened Basics

  predicate IsSpace(c: char) {
    c == ' ' || 9 <= c as int <= 13
  }

  // ---------------------------------------------------------------- printing

  predicate NeedsEscape(c: char) {
    c == '"' || c == '\\' || c == 8 as char || c == 12 as char || c == '\n' || c == '\r' || c == '\t'
  }

  function EscapeLetter(c: char): char {
    if c == 8 as char then 'b'
    else if c == 12 as char then 'f'
    else if c == '\n' then 'n'
    else if c == '\r' then 'r'
    else if c == '\t' then 't'
    else c
  }

  function EscapeChar(c: char): string {
    if NeedsEscape(c) then ['\\', EscapeLetter(c)] else [c]
  }

  /** Quote and backslash are escaped as themselves, five control characters by a letter, all others not at all. */
  lemma EscapeTable(c: char)
    ensures c as int == 34 || c as int == 92 ==> EscapeChar(c) == ['\\', c]
    ensures c as int == 8 ==> EscapeChar(c) == "\\b"
    ensures c as int == 12 ==> EscapeChar(c) == "\\f"
    ensures c as int == 10 ==> EscapeChar(c) == "\\n"
    ensures c as int == 13 ==> EscapeChar(c) == "\\r"
    ensures c as int == 9 ==> EscapeChar(c) == "\\t"
    ensures c as int !in {34, 92, 8, 12, 10, 13, 9} ==> EscapeChar(c) == [c]
  {
  }

  function EscapeText(s: string): string {
    if s == [] then [] else EscapeChar(s[0]) + EscapeText(s[1..])
  }

  function Quoted(s: string): string {
    ['"'] + (EscapeText(s) + ['"'])
  }

  function MoreItems(v: seq<string>): string {
    if v == [] then [] else [','] + (Quoted(v[0]) + MoreItems(v[1..]))
  }

  function Items(v: seq<string>): string {
    if v == [] then [] else Quoted(v[0]) + MoreItems(v[1..])
  }

  function Printed(v: seq<string>): string {
    ['['] + Items(v) + [']']
  }

  /** What is still to be printed from index `i` on. */
  function ItemsFrom(v: seq<string>, i: nat): string
    requires i <= |v|
  {
    if i == 0 then Items(v) else MoreItems(v[i..])
  }

  lemma ItemsFromStep(v: seq<string>, i: nat)
    requires i < |v|
    ensures ItemsFrom(v, i) == (if i > 0 then [','] + Quoted(v[i]) else Quoted(v[i])) + ItemsFrom(v, i + 1)
  {
    assert v[i..][0] == v[i] && v[i..][1..] == v[i + 1..];
  }

  method SerializeJsonArray(vec: seq<string>) returns (out: string)
    ensures out == Printed(vec)
  {
    var items: string := [];
    ghost var rest := Items(vec);
    for i := 0 to |vec|
      invariant items + rest == Items(vec)
      invariant rest == ItemsFrom(vec, i)
    {
      ItemsFromStep(vec, i);
      var quoted := QuoteInto(vec[i]);
      var piece := if i > 0 then [','] + quoted else quoted;
      ghost var next := ItemsFrom(vec, i + 1);
      Reassociate(items, piece, next);
      items := items + piece;
      rest := next;
    }
    assert |vec| > 0 ==> vec[|vec|..] == [];
    out := ['['] + items + [']'];
  }

  method QuoteInto(s: string) returns (out: string)
    ensures out == Quoted(s)
  {
    var escaped := EscapeInto(s);
    out := ['"'] + (escaped + ['"']);
  }

  method EscapeInto(s: string) returns (out: string)
    ensures out == EscapeText(s)
  {
    out := [];
    for k := 0 to |s|
      invariant out + EscapeText(s[k..]) == EscapeText(s)
    {
      assert s[k..][0] == s[k] && s[k..][1..] == s[k + 1..];
      Reassociate(out, EscapeChar(s[k]), EscapeText(s[k + 1..]));
      out := out + EscapeChar(s[k]);
    }
    assert s[|s|..] == [];
  }

  // ---------------------------------------------------------------- parsing

  function UnescapeChar(c: char): char {
    if c == 'b' then 8 as char
    else if c == 'f' then 12 as char
    else if c == 'n' then '\n'
    else if c == 'r' then '\r'
    else if c == 't' then '\t'
    else c
  }

  function SkipSpaces(s: string): (t: string)
    ensures |t| <= |s|
  {
    if s != [] && IsSpace(s[0]) then SkipSpaces(s[1..]) else s
  }

  function SkipSeparators(s: string): (t: string)
    ensures |t| <= |s|
  {
    if s != [] && (IsSpace(s[0]) || s[0] == ',') then SkipSeparators(s[1..]) else s
  }

  /** The value of a literal after its opening quote, and the text after its closing quote. */
  function ReadLiteral(s: string): (r: (string, string))
    ensures |r.1| <= |s|
  {
    if s == [] then ([], [])
    else if s[0] == '"' then ([], s[1..])
    else if s[0] == '\\' && |s| > 1 then
      var (v, rest) := ReadLiteral(s[2..]);
      ([UnescapeChar(s[1])] + v, rest)
    else
      var (v, rest) := ReadLiteral(s[1..]);
      ([s[0]] + v, rest)
  }

  function ReadItems(s: string): seq<string>
    decreases |s|
  {
    var t := SkipSpaces(s);
    if t == [] || t[0] != '"' then []
    else
      var (v, rest) := ReadLiteral(t[1..]);
      [v] + ReadItems(SkipSeparators(rest))
  }

  function Parsed(text: string): seq<string> {
    if |text| < 2 || text[0] != '[' || text[|text| - 1] != ']' then []
    else ReadItems(text[1..|text| - 1])
  }

  method ParseJsonArray(text: string) returns (result: seq<string>)
    ensures result == Parsed(text)
  {
    if |text| < 2 || text[0] != '[' || text[|text| - 1] != ']' {
      return [];
    }
    result := ReadAll(text[1..|text| - 1]);
  }

  method ReadAll(content: string) returns (result: seq<string>)
    ensures result == ReadItems(content)
  {
    result := [];
    var pos := 0;
    ghost var rest := ReadItems(content);
    assert content[0..] == content;
    while pos < |content|
      invariant 0 <= pos <= |content|
      invariant result + rest == ReadItems(content)
      invariant rest == ReadItems(content[pos..])
      decreases |content| - pos
    {
      var item;
      item, pos := ReadItem(content, pos);
      if item.None? {
        return;
      }
      ghost var next := ReadItems(content[pos..]);
      Reassociate(result, [item.value], next);
      result := result + [item.value];
      rest := next;
    }
    assert content[pos..] == [];
  }

  /** One item and the separators after it; none when no opening quote follows. */
  method ReadItem(content: string, from: nat) returns (item: Option<string>, pos: nat)
    requires from < |content|
    ensures from <= pos <= |content| && (item.Some? ==> from < pos)
    ensures ReadItems(content[from..]) == if item.None? then [] else [item.value] + ReadItems(content[pos..])
  {
    pos := SkipWhile(content, from, false);
    if pos >= |content| || content[pos] != '"' {
      return None, pos;
    }
    assert SkipSpaces(content[from..])[1..] == content[pos + 1..];
    var value;
    value, pos := ReadValue(content, pos + 1);
    pos := SkipWhile(content, pos, true);
    item := Some(value);
  }

  method SkipWhile(content: string, from: nat, commas: bool) returns (pos: nat)
    requires from <= |content|
    ensures from <= pos <= |content|
    ensures content[pos..] == if commas then SkipSeparators(content[from..]) else SkipSpaces(content[from..])
  {
    pos := from;
    while pos < |content| && (IsSpace(content[pos]) || (commas && content[pos] == ','))
      invariant from <= pos <= |content|
      invariant SkipSeparators(content[pos..]) == SkipSeparators(content[from..]) || !commas
      invariant SkipSpaces(content[pos..]) == SkipSpaces(content[from..]) || commas
    {
      assert content[pos..][1..] == content[pos + 1..];
      pos := pos + 1;
    }
  }

  lemma LiteralStep(content: string, pos: nat)
    requires pos < |content| && content[pos] != '"'
    ensures var n := if content[pos] == '\\' && pos + 1 < |content| then 2 else 1;
            var c := if n == 2 then UnescapeChar(content[pos + 1]) else content[pos];
            && ReadLiteral(content[pos..]).0 == [c] + ReadLiteral(content[pos + n..]).0
            && ReadLiteral(content[pos..]).1 == ReadLiteral(content[pos + n..]).1
  {
    var s := content[pos..];
    assert |s| > 1 ==> s[2..] == content[pos + 2..] && s[1] == content[pos + 1];
    assert s[1..] == content[pos + 1..] && s[0] == content[pos];
  }

  lemma LiteralEnd(content: string, pos: nat)
    requires pos <= |content| && (pos < |content| ==> content[pos] == '"')
    ensures ReadLiteral(content[pos..]) == ([], content[if pos < |content| then pos + 1 else pos..])
  {
    assert pos < |content| ==> content[pos..][1..] == content[pos + 1..] && content[pos..][0] == '"';
  }

  method ReadChar(content: string, from: nat) returns (c: char, pos: nat)
    requires from < |content| && content[from] != '"'
    ensures from < pos <= |content|
    ensures ReadLiteral(content[from..]).0 == [c] + ReadLiteral(content[pos..]).0
    ensures ReadLiteral(content[from..]).1 == ReadLiteral(content[pos..]).1
  {
    LiteralStep(content, from);
    pos := from;
    if content[pos] == '\\' && pos + 1 < |content| {
      pos := pos + 1;
      c := UnescapeChar(content[pos]);
    } else {
      c := content[pos];
    }
    pos := pos + 1;
  }

  method ReadValue(content: string, from: nat) returns (value: string, pos: nat)
    requires from <= |content|
    ensures from <= pos <= |content|
    ensures value == ReadLiteral(content[from..]).0 && content[pos..] == ReadLiteral(content[from..]).1
  {
    value, pos := [], from;
    ghost var whole := ReadLiteral(content[from..]);
    while pos < |content| && content[pos] != '"'
      invariant from <= pos <= |content|
      invariant whole.0 == value + ReadLiteral(content[pos..]).0
      invariant whole.1 == ReadLiteral(content[pos..]).1
    {
      var c;
      c, pos := ReadChar(content, pos);
      value := value + [c];
    }
    LiteralEnd(content, pos);
    if pos < |content| {
      pos := pos + 1;
    }
  }

  // ---------------------------------------------------------------- the round trip

  lemma ReadPlain(c: char, inner: string)
    requires c != '"' && c != '\\'
    ensures ReadLiteral([c] + inner) == ([c] + ReadLiteral(inner).0, ReadLiteral(inner).1)
  {
    assert ([c] + inner)[1..] == inner;
  }

  lemma ReadEscape(d: char, inner: string)
    ensures ReadLiteral(['\\', d] + inner) == ([UnescapeChar(d)] + ReadLiteral(inner).0, ReadLiteral(inner).1)
  {
    assert (['\\', d] + inner)[2..] == inner;
  }

  lemma ReadEscaped(c: char, inner: string)
    ensures ReadLiteral(EscapeChar(c) + inner) == ([c] + ReadLiteral(inner).0, ReadLiteral(inner).1)
  {
    if NeedsEscape(c) {
      ReadEscape(EscapeLetter(c), inner);
    } else {
      ReadPlain(c, inner);
    }
  }

  lemma {:induction false} LiteralRoundTrip(s: string, rest: string)
    ensures ReadLiteral(EscapeText(s) + (['"'] + rest)) == (s, rest)
  {
    var tail := ['"'] + rest;
    if s == [] {
      assert EscapeText(s) + tail == tail && tail[1..] == rest;
    } else {
      var inner := EscapeText(s[1..]) + tail;
      LiteralRoundTrip(s[1..], rest);
      ReadEscaped(s[0], inner);
      assert EscapeText(s) + tail == EscapeChar(s[0]) + inner;
      assert s == [s[0]] + s[1..];
    }
  }

  lemma {:induction false} ItemsRoundTrip(v: seq<string>)
    requires v != []
    ensures ReadItems(Items(v)) == v
    decreases |v|
  {
    var more := MoreItems(v[1..]);
    var body := EscapeText(v[0]) + (['"'] + more);
    assert Items(v) == ['"'] + body;
    assert SkipSpaces(Items(v)) == Items(v) && Items(v)[1..] == body;
    LiteralRoundTrip(v[0], more);
    if |v| > 1 {
      var next := v[1..];
      assert more[1..] == Items(next);
      assert Items(next)[0] == '"';
      assert SkipSeparators(more) == Items(next);
      ItemsRoundTrip(next);
    } else {
      assert SkipSeparators(more) == [];
    }
    assert v == [v[0]] + v[1..];
  }

  /** Parsing what was printed gives the list back, whatever the strings contain. */
  lemma PrintParseRoundTrip(v: seq<string>)
    ensures Parsed(Printed(v)) == v
  {
    var text := Printed(v);
    assert text[1..|text| - 1] == Items(v);
    if v != [] {
      ItemsRoundTrip(v);
    }
  }

  // ---------------------------------------------------------------- blanks in hand-written text

  /** Blank, tab, line feed, vertical tab, form feed and carriage return, by their codes. */
  predicate Blanks(s: string) {
    forall i :: 0 <= i < |s| ==> s[i] as int in {32, 9, 10, 11, 12, 13}
  }

  lemma {:induction false} BlanksSkipped(blanks: string, s: string)
    requires Blanks(blanks)
    ensures SkipSpaces(blanks + s) == SkipSpaces(s) && SkipSeparators(blanks + s) == SkipSeparators(s)
  {
    if blanks == [] {
      assert blanks + s == s;
    } else {
      assert (blanks + s)[1..] == blanks[1..] + s;
      BlanksSkipped(blanks[1..], s);
    }
  }

  lemma LeadingBlanks(blanks: string, s: string)
    requires Blanks(blanks)
    ensures ReadItems(blanks + s) == ReadItems(s)
  {
    BlanksSkipped(blanks, s);
  }

  /** The items of a list, each with blanks in front of it and behind it. */
  function Spaced(v: seq<string>, before: string, behind: string): string {
    if v == [] then []
    else before + (Quoted(v[0]) + (behind + (if |v| == 1 then [] else [','] + Spaced(v[1..], before, behind))))
  }

  /** One item, the blanks behind it and the text after them. */
  lemma ItemRead(x: string, behind: string, rest: string)
    requires Blanks(behind)
    ensures ReadItems(Quoted(x) + (behind + rest)) == [x] + ReadItems(SkipSeparators(rest))
  {
    var tail := behind + rest;
    var literal := EscapeText(x) + (['"'] + tail);
    var text := ['"'] + literal;
    assert Quoted(x) + tail == text;
    assert SkipSpaces(text) == text && text[1..] == literal;
    LiteralRoundTrip(x, tail);
    BlanksSkipped(behind, rest);
  }

  /** Blanks around the items of a list make no difference. */
  lemma {:induction false} SpacedListParses(v: seq<string>, before: string, behind: string)
    requires Blanks(before) && Blanks(behind)
    ensures ReadItems(Spaced(v, before, behind)) == v
    decreases |v|
  {
    if v == [] {
    } else {
      var rest := if |v| == 1 then [] else [','] + Spaced(v[1..], before, behind);
      LeadingBlanks(before, Quoted(v[0]) + (behind + rest));
      ItemRead(v[0], behind, rest);
      if |v| == 1 {
        assert ReadItems(SkipSeparators(rest)) == [];
      } else {
        SpacedListParses(v[1..], before, behind);
        CommaSkipped(v[1..], before, behind);
      }
      assert v == [v[0]] + v[1..];
    }
  }

  lemma CommaSkipped(v: seq<string>, before: string, behind: string)
    requires Blanks(before) && v != []
    ensures ReadItems(SkipSeparators([','] + Spaced(v, before, behind))) == ReadItems(Spaced(v, before, behind))
  {
    var more := Spaced(v, before, behind);
    assert ([','] + more)[1..] == more;
    var rest := Quoted(v[0]) + (behind + (if |v| == 1 then [] else [','] + Spaced(v[1..], before, behind)));
    BlanksSkipped(before, rest);
    LeadingBlanks(before, rest);
    assert rest[0] == '"' && SkipSeparators(rest) == rest;
  }
}
