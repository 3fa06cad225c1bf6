/** Which texts Python's `int` accepts in a band, and what they mean. */
module PythonNumbers {
  import opened Basics
  import opened BandText

  /** The blanks Python strips, by their codes. */
  lemma BlankCodes(c: char)
    ensures IsSpace(c) <==> c as int in {32, 9, 10, 11, 12, 13, 28, 29, 30, 31}
  {
  }

  predicate AllBlank(s: string) { forall i :: 0 <= i < |s| ==> IsSpace(s[i]) }

  /** Neither end is a blank. */
  predicate Trimmed(s: string) { s != [] && !IsSpace(s[0]) && !IsSpace(s[|s| - 1]) }

  lemma {:induction false} StripLeftBlanks(a: string, s: string)
    requires AllBlank(a) && s != [] && !IsSpace(s[0])
    ensures StripLeft(a + s) == s
  {
    if a == [] {
      assert a + s == s;
    } else {
      assert (a + s)[1..] == a[1..] + s;
      StripLeftBlanks(a[1..], s);
    }
  }

  lemma {:induction false} StripRightBlanks(s: string, b: string)
    requires AllBlank(b) && s != [] && !IsSpace(s[|s| - 1])
    ensures StripRight(s + b) == s
  {
    if b == [] {
      assert s + b == s;
    } else {
      assert (s + b)[..|s + b| - 1] == s + b[..|b| - 1];
      StripRightBlanks(s, b[..|b| - 1]);
    }
  }

  /** Stripping takes exactly the blanks around a text. */
  lemma StripTakesBlanks(a: string, s: string, b: string)
    requires AllBlank(a) && Trimmed(s) && AllBlank(b)
    ensures Strip(a + (s + b)) == s
  {
    StripLeftBlanks(a, s + b);
    StripRightBlanks(s, b);
  }

  // ---------------------------------------------------------------- digits and underscores

  /** Every part between underscores is a run of digits. */
  predicate DigitGroups(parts: seq<string>) {
    forall i :: 0 <= i < |parts| ==> AllDigits(parts[i])
  }

  function Flat(parts: seq<string>): string {
    if parts == [] then [] else Flat(parts[..|parts| - 1]) + parts[|parts| - 1]
  }

  lemma FlatSnoc(parts: seq<string>, part: string)
    ensures Flat(parts + [part]) == Flat(parts) + part
  {
    assert (parts + [part])[..|parts|] == parts;
  }

  lemma {:induction false} SplitShape(s: string, c: char)
    ensures Split(s, c) != []
    ensures var last := Split(s, c)[|Split(s, c)| - 1];
            && |last| <= |s| && s[|s| - |last|..] == last
            && (last == [] <==> s == [] || s[|s| - 1] == c)
  {
    if s == [] {
    } else {
      SplitShape(s[..|s| - 1], c);
    }
  }

  predicate OnlyDigits(s: string) { forall i :: 0 <= i < |s| ==> IsDigit(s[i]) }

  /** All parts but the last are digit groups, and the last is digits, perhaps none yet. */
  predicate Growing(parts: seq<string>) {
    parts != [] && DigitGroups(parts[..|parts| - 1]) && OnlyDigits(parts[|parts| - 1])
  }

  predicate AllLiteral(s: string) {
    forall i :: 0 <= i < |s| ==> IsLiteralChar(s, i)
  }

  lemma LiteralSnoc(s: string, x: char)
    ensures AllLiteral(s + [x]) <==>
            AllLiteral(s) && (IsDigit(x) || (x == '_' && s != [] && IsDigit(s[|s| - 1])))
  {
    var t := s + [x];
    assert forall i :: 0 <= i < |s| ==> (IsLiteralChar(s, i) <==> IsLiteralChar(t, i));
    assert IsLiteralChar(t, |s|) <==> IsDigit(x) || (x == '_' && s != [] && IsDigit(s[|s| - 1]));
  }

  lemma GrowingSnoc(s: string, x: char)
    requires AllLiteral(s) <==> Growing(Split(s, '_'))
    ensures AllLiteral(s + [x]) <==> Growing(Split(s + [x], '_'))
  {
    var parts := Split(s, '_');
    SplitShape(s, '_');
    LiteralSnoc(s, x);
    SplitSnoc(s, x, '_');
    if x == '_' {
      GrowsByPart(parts);
      LastOfLiteral(s, parts);
    } else {
      GrowsByChar(parts, x);
    }
  }

  lemma {:induction false} LiteralIsGrowing(s: string)
    ensures AllLiteral(s) <==> Growing(Split(s, '_'))
  {
    if s == [] {
    } else {
      LiteralIsGrowing(s[..|s| - 1]);
      GrowingSnoc(s[..|s| - 1], s[|s| - 1]);
      assert s[..|s| - 1] + [s[|s| - 1]] == s;
    }
  }

  lemma GrowsByPart(parts: seq<string>)
    requires parts != []
    ensures Growing(parts + [[]]) <==> Growing(parts) && parts[|parts| - 1] != []
  {
    var more := parts + [[]];
    var n := |parts| - 1;
    assert more[..|parts|] == parts && more[|parts|] == [];
    if DigitGroups(parts) {
      assert AllDigits(parts[n]) && DigitGroups(parts[..n]);
    }
    if Growing(parts) && parts[n] != [] {
      forall i | 0 <= i < |parts| ensures AllDigits(parts[i]) {
        assert i < n ==> parts[..n][i] == parts[i];
      }
    }
  }

  lemma GrowsByChar(parts: seq<string>, x: char)
    requires parts != []
    ensures Growing(ExtendLast(parts, x)) <==> Growing(parts) && IsDigit(x)
  {
    var n := |parts| - 1;
    var more := ExtendLast(parts, x);
    assert more[..n] == parts[..n] && more[n] == parts[n] + [x];
    if Growing(more) {
      assert IsDigit(more[n][|parts[n]|]);
      forall i | 0 <= i < |parts[n]| ensures IsDigit(parts[n][i]) {
        assert IsDigit(more[n][i]);
      }
    }
  }

  /** An underscore may follow a literal text exactly if the text ends in a digit. */
  lemma LastOfLiteral(s: string, parts: seq<string>)
    requires parts == Split(s, '_') && parts != []
    ensures AllLiteral(s) ==> (parts[|parts| - 1] != [] <==> s != [] && IsDigit(s[|s| - 1]))
  {
    SplitShape(s, '_');
    if AllLiteral(s) && s != [] {
      assert IsLiteralChar(s, |s| - 1);
    }
  }

  /** Digits with single underscores between them: every part between underscores is a run of digits. */
  lemma DigitTextIsGroups(s: string)
    ensures IsDigitText(s) <==> DigitGroups(Split(s, '_'))
  {
    var parts := Split(s, '_');
    LiteralIsGrowing(s);
    SplitShape(s, '_');
    LastOfLiteral(s, parts);
    GrowsByPart(parts);
    assert (parts + [[]])[..|parts|] == parts;
  }

  lemma DigitsInSnoc(s: string, x: char)
    ensures DigitsIn(s + [x]) == if IsDigit(x) then DigitsIn(s) + [x] else DigitsIn(s)
  {
    assert (s + [x])[..|s|] == s;
  }

  lemma FlatExtended(parts: seq<string>, x: char)
    requires parts != []
    ensures Flat(ExtendLast(parts, x)) == Flat(parts) + [x]
  {
    var init, last := parts[..|parts| - 1], parts[|parts| - 1];
    FlatSnoc(init, last + [x]);
    Reassociate(Flat(init), last, [x]);
  }

  lemma {:induction false} DigitsAreFlat(s: string)
    requires AllLiteral(s)
    ensures DigitsIn(s) == Flat(Split(s, '_'))
  {
    if s == [] {
      var one: seq<string> := [[]];
      assert one[..0] == [];
    } else {
      var init, x := s[..|s| - 1], s[|s| - 1];
      assert init + [x] == s;
      LiteralSnoc(init, x);
      DigitsAreFlat(init);
      DigitsInSnoc(init, x);
      SplitSnoc(init, x, '_');
      SplitShape(init, '_');
      if x == '_' {
        FlatSnoc(Split(init, '_'), []);
      } else {
        FlatExtended(Split(init, '_'), x);
      }
    }
  }

  // ---------------------------------------------------------------- int(text)

  predicate IsSign(c: char) { c == '+' || c == '-' }

  /** The digits of a text in groups, as a number. */
  function Value(s: string): nat
    requires DigitGroups(Split(s, '_'))
  {
    DigitTextIsGroups(s);
    DigitsAreFlat(s);
    DecimalValue(Flat(Split(s, '_')))
  }

  lemma StrippedInt(text: string, t: string)
    requires Strip(text) == t && Strip(t) == t
    ensures PythonInt(text) == PythonInt(t)
  {
  }

  lemma UnsignedInt(s: string)
    requires Strip(s) == s && s != [] && !IsSign(s[0])
    ensures PythonInt(s) == if DigitGroups(Split(s, '_')) then Some(Value(s)) else None
  {
    DigitTextIsGroups(s);
    if IsDigitText(s) {
      DigitsAreFlat(s);
    }
  }

  lemma SignedInt(c: char, s: string)
    requires Strip([c] + s) == [c] + s && IsSign(c)
    ensures PythonInt([c] + s) ==
            if DigitGroups(Split(s, '_')) then Some(if c == '-' then 0 - Value(s) else Value(s)) else None
  {
    assert ([c] + s)[1..] == s;
    DigitTextIsGroups(s);
    if IsDigitText(s) {
      DigitsAreFlat(s);
    }
  }

  /**
   With blanks around it and an optional sign in front, a text is a number exactly if its parts between
   underscores are runs of digits; its value is that of all the digits, negated after a minus.
   */
  lemma IntExactly(a: string, sign: string, s: string, b: string)
    requires AllBlank(a) && AllBlank(b) && Trimmed(s) && !IsSign(s[0])
    requires sign == [] || (|sign| == 1 && IsSign(sign[0]))
    ensures PythonInt(a + ((sign + s) + b)) ==
            if DigitGroups(Split(s, '_')) then Some(if sign == "-" then 0 - Value(s) else Value(s)) else None
  {
    var text := sign + s;
    assert text[|text| - 1] == s[|s| - 1];
    StripTakesBlanks(a, text, b);
    StripTakesBlanks([], text, []);
    assert [] + (text + []) == text;
    StrippedInt(a + (text + b), text);
    if sign == [] {
      assert text == s;
      UnsignedInt(s);
    } else {
      assert text == [sign[0]] + s;
      SignedInt(sign[0], s);
    }
  }

  /** A part of blanks only names no domain. */
  lemma BlankPartIsEmpty(a: string)
    requires AllBlank(a)
    ensures PartDomains(a) == Good([])
  {
    BlankStripsToNothing(a);
  }

  lemma {:induction false} BlankStripsToNothing(a: string)
    requires AllBlank(a)
    ensures StripLeft(a) == []
  {
    if a == [] {
    } else {
      BlankStripsToNothing(a[1..]);
    }
  }
}
