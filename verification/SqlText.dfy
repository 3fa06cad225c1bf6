/** Text columns: every byte is stored, but a read stops at the first NUL. */
module SqlText {
  import opened Basics
  import opened JsonArray

  const NUL := 0 as char

  predicate NulFree(s: string) { NUL !in s }

  /** `column_text`: the stored text as a C string. */
  function Cut(s: string): (t: string)
    ensures NulFree(t)
  {
    if s == [] || s[0] == NUL then [] else [s[0]] + Cut(s[1..])
  }

  /** A text is read back exactly if it is free of NUL. */
  lemma {:induction false} CutExactly(s: string)
    ensures Cut(s) == s <==> NulFree(s)
  {
    if s == [] || s[0] == NUL {
    } else {
      CutExactly(s[1..]);
      assert s == [s[0]] + s[1..];
    }
  }

  lemma {:induction false} CutAt(a: string, b: string)
    requires NulFree(a)
    ensures Cut(a + ([NUL] + b)) == a
  {
    if a == [] {
      assert a + ([NUL] + b) == [NUL] + b;
    } else {
      assert a == [a[0]] + a[1..];
      assert (a + ([NUL] + b))[1..] == a[1..] + ([NUL] + b);
      CutAt(a[1..], b);
    }
  }

  predicate AllNulFree(v: seq<string>) {
    forall x :: x in v ==> NulFree(x)
  }

  /** A list of texts as it is read back from the JSON text it is stored as. */
  function ReadBack(v: seq<string>): seq<string> {
    Parsed(Cut(Printed(v)))
  }

  // ---------------------------------------------------------------- what is printed

  lemma {:induction false} EscapeNulFree(s: string)
    requires NulFree(s)
    ensures NulFree(EscapeText(s))
  {
    if s == [] {
    } else {
      assert s[0] in s && s == [s[0]] + s[1..];
      EscapeNulFree(s[1..]);
    }
  }

  lemma {:induction false} MoreNulFree(v: seq<string>)
    requires AllNulFree(v)
    ensures NulFree(MoreItems(v))
  {
    if v == [] {
    } else {
      assert v[0] in v;
      EscapeNulFree(v[0]);
      MoreNulFree(v[1..]);
    }
  }

  lemma PrintedNulFree(v: seq<string>)
    requires AllNulFree(v)
    ensures NulFree(Printed(v))
  {
    if v != [] {
      assert v[0] in v;
      EscapeNulFree(v[0]);
      MoreNulFree(v[1..]);
    }
  }

  // ---------------------------------------------------------------- what is read

  lemma {:induction false} LiteralNulFree(s: string)
    requires NulFree(s)
    ensures NulFree(ReadLiteral(s).0) && NulFree(ReadLiteral(s).1)
    decreases |s|
  {
    if s == [] || s[0] == '"' {
    } else if s[0] == '\\' && |s| > 1 {
      assert s[1] in s;
      LiteralNulFree(s[2..]);
    } else {
      assert s[0] in s;
      LiteralNulFree(s[1..]);
    }
  }

  lemma {:induction false} SkippedNulFree(s: string)
    requires NulFree(s)
    ensures NulFree(SkipSpaces(s)) && NulFree(SkipSeparators(s))
  {
    if s == [] {
    } else {
      SkippedNulFree(s[1..]);
    }
  }

  lemma {:induction false} ItemsNulFree(s: string)
    requires NulFree(s)
    ensures AllNulFree(ReadItems(s))
    decreases |s|
  {
    SkippedNulFree(s);
    var t := SkipSpaces(s);
    if t == [] || t[0] != '"' {
    } else {
      var (v, rest) := ReadLiteral(t[1..]);
      LiteralNulFree(t[1..]);
      SkippedNulFree(rest);
      ItemsNulFree(SkipSeparators(rest));
    }
  }

  lemma ReadBackNulFree(v: seq<string>)
    ensures AllNulFree(ReadBack(v))
  {
    var text := Cut(Printed(v));
    if |text| >= 2 {
      ItemsNulFree(text[1..|text| - 1]);
    }
  }

  /** A list is read back exactly if every text of it is free of NUL. */
  lemma ReadBackExactly(v: seq<string>)
    ensures ReadBack(v) == v <==> AllNulFree(v)
  {
    ReadBackNulFree(v);
    if AllNulFree(v) {
      PrintedNulFree(v);
      CutExactly(Printed(v));
      PrintParseRoundTrip(v);
    }
  }

  // ---------------------------------------------------------------- what is lost

  lemma {:induction false} EscapeConcat(a: string, b: string)
    ensures EscapeText(a + b) == EscapeText(a) + EscapeText(b)
  {
    if a == [] {
      assert a + b == b;
    } else {
      assert (a + b)[1..] == a[1..] + b;
      EscapeConcat(a[1..], b);
    }
  }

  lemma EscapeLast(a: string)
    requires a != []
    ensures var e := EscapeText(a);
            e != [] && (e[|e| - 1] == ']' <==> a[|a| - 1] == ']')
  {
    var init, c := a[..|a| - 1], a[|a| - 1];
    assert a == init + [c];
    EscapeConcat(init, [c]);
    assert EscapeText([c]) == EscapeChar(c);
  }

  const CLOSING := ['"', ']']

  lemma PrintedOne(source: string)
    ensures Printed([source]) == ['[', '"'] + (EscapeText(source) + CLOSING)
  {
    assert [source][1..] == [];
    assert Items([source]) == Quoted(source);
  }

  lemma EscapeNul(b: string)
    ensures EscapeText([NUL] + b) == [NUL] + EscapeText(b)
  {
    assert ([NUL] + b)[1..] == b;
  }

  lemma Regroup(open: string, a: string, b: string, close: string)
    ensures open + ((a + ([NUL] + b)) + close) == (open + a) + ([NUL] + (b + close))
  {
  }

  /** The stored form of one source with a NUL in it, up to that NUL. */
  lemma PrintedUpToNul(a: string, b: string)
    requires NulFree(a)
    ensures Cut(Printed([a + ([NUL] + b)])) == ['[', '"'] + EscapeText(a)
  {
    PrintedOne(a + ([NUL] + b));
    EscapeConcat(a, [NUL] + b);
    EscapeNul(b);
    Regroup(['[', '"'], EscapeText(a), EscapeText(b), CLOSING);
    EscapeNulFree(a);
    CutAt(['[', '"'] + EscapeText(a), EscapeText(b) + CLOSING);
  }

  /** A first source with a NUL in it is not read back at all, unless a bracket stands before the NUL. */
  lemma NulLosesSource(a: string, b: string)
    requires NulFree(a) && (a != [] ==> a[|a| - 1] != ']')
    ensures ReadBack([a + ([NUL] + b)]) == []
  {
    PrintedUpToNul(a, b);
    if a != [] {
      EscapeLast(a);
    }
  }
}
