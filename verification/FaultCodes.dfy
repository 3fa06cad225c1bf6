/** Fault codes: what the fault manager accepts, and what the action bridge generates. */
module FaultCodes {
  import opened Basics

  const MAX_FAULT_CODE_LENGTH := 256

  predicate IsUpper(c: char) { 'A' <= c <= 'Z' }

  predicate IsAlnum(c: char) { IsDigit(c) || IsUpper(c) || 'a' <= c <= 'z' }

  predicate CodeChar(c: char) { IsAlnum(c) || c == '_' || c == '-' || c == '.' }

  /** `validate_fault_code` finds nothing to complain about. */
  predicate ValidFaultCode(s: string) {
    && 0 < |s| <= MAX_FAULT_CODE_LENGTH
    && (forall i :: 0 <= i < |s| ==> CodeChar(s[i]))
    && (forall i :: 0 <= i < |s| - 1 ==> !(s[i] == '.' && s[i + 1] == '.'))
  }

  method ValidateFaultCode(s: string) returns (ok: bool)
    ensures ok <==> ValidFaultCode(s)
  {
    if s == [] || |s| > MAX_FAULT_CODE_LENGTH {
      return false;
    }
    for i := 0 to |s|
      invariant forall k :: 0 <= k < i ==> CodeChar(s[k])
    {
      if !IsAlnum(s[i]) && s[i] != '_' && s[i] != '-' && s[i] != '.' {
        return false;
      }
    }
    for i := 0 to |s| - 1
      invariant forall k :: 0 <= k < i ==> !(s[k] == '.' && s[k + 1] == '.')
    {
      if s[i] == '.' && s[i + 1] == '.' {
        return false;
      }
    }
    return true;
  }

  // ---------------------------------------------------------------- the bridge's codes

  const MAX_CODE_LEN := 64
  const MAX_ACTION_PART := 48
  const MAX_STATUS_SUFFIX := 9
  const DISAMBIGUATOR_LEN := 5

  function ToUpper(c: char): char {
    if 'a' <= c <= 'z' then (c as int - 32) as char else c
  }

  /** The alphabet of generated codes. */
  predicate SnakeChar(c: char) { IsDigit(c) || IsUpper(c) || c == '_' }

  predicate AllSnake(s: string) {
    forall i :: 0 <= i < |s| ==> SnakeChar(s[i])
  }

  /** Never starts or ends with a separator, and never doubles one. */
  predicate Tidy(s: string) {
    && (s != [] ==> s[0] != '_' && s[|s| - 1] != '_')
    && (forall i :: 0 <= i < |s| - 1 ==> !(s[i] == '_' && s[i + 1] == '_'))
  }

  function Stripped(s: string): string {
    if s != [] && s[|s| - 1] == '_' then Stripped(s[..|s| - 1]) else s
  }

  method StripTrailingUnderscore(s: string) returns (t: string)
    ensures t == Stripped(s)
    ensures t <= s && (t != [] ==> t[|t| - 1] != '_')
    ensures forall i :: |t| <= i < |s| ==> s[i] == '_'
  {
    t := s;
    while t != [] && t[|t| - 1] == '_'
      invariant t <= s && Stripped(t) == Stripped(s)
      invariant forall i :: |t| <= i < |s| ==> s[i] == '_'
    {
      t := t[..|t| - 1];
    }
  }

  function HexUpper(n: nat): (c: char)
    requires n < 16
    ensures SnakeChar(c) && c != '_'
  {
    if n < 10 then DigitOf(n) else ('A' as int + (n - 10)) as char
  }

  /** `_%04X` of the low sixteen bits of a hash. */
  function Disambiguator(h: nat): (s: string)
    ensures |s| == DISAMBIGUATOR_LEN && AllSnake(s) && s[0] == '_' && s[|s| - 1] != '_'
  {
    var n := h % 65536;
    ['_', HexUpper(n / 4096), HexUpper(n / 256 % 16), HexUpper(n / 16 % 16), HexUpper(n % 16)]
  }

  /** Letters and digits in upper case, every other run of characters one separator; none at the start. */
  function SnakeRaw(text: string): string {
    if text == [] then []
    else
      var r, c := SnakeRaw(text[..|text| - 1]), text[|text| - 1];
      if IsAlnum(c) then r + [ToUpper(c)]
      else if r != [] && r[|r| - 1] != '_' then r + ['_']
      else r
  }

  /** The letters and digits of a text, in order and in upper case. */
  function Letters(text: string): string {
    if text == [] then []
    else
      var c := text[|text| - 1];
      Letters(text[..|text| - 1]) + (if IsAlnum(c) then [ToUpper(c)] else [])
  }

  /** Normalising loses no letter and no digit, and reorders none. */
  lemma {:induction false} SnakeKeepsLetters(text: string)
    ensures Letters(SnakeRaw(text)) == Letters(text)
  {
    if text == [] {
    } else {
      var init, c := text[..|text| - 1], text[|text| - 1];
      var r := SnakeRaw(init);
      SnakeKeepsLetters(init);
      assert (r + [ToUpper(c)])[..|r|] == r && (r + ['_'])[..|r|] == r;
    }
  }

  lemma {:induction false} StripKeepsLetters(s: string)
    ensures Letters(Stripped(s)) == Letters(s)
  {
    if s == [] || s[|s| - 1] != '_' {
    } else {
      StripKeepsLetters(s[..|s| - 1]);
    }
  }

  lemma SnakeLettersOfName(text: string)
    ensures Letters(Stripped(SnakeRaw(text))) == Letters(text)
  {
    SnakeKeepsLetters(text);
    StripKeepsLetters(SnakeRaw(text));
  }

  method Snake(text: string) returns (result: string)
    ensures result == Stripped(SnakeRaw(text))
    ensures AllSnake(result) && Tidy(result) && |result| <= |text|
    ensures result == [] <==> forall i :: 0 <= i < |text| ==> !IsAlnum(text[i])
  {
    var raw: string := [];
    var lastSep := true;
    for i := 0 to |text|
      invariant raw == SnakeRaw(text[..i])
      invariant AllSnake(raw) && |raw| <= i
      invariant raw != [] ==> raw[0] != '_'
      invariant lastSep <==> (raw == [] || raw[|raw| - 1] == '_')
      invariant forall k :: 0 <= k < |raw| - 1 ==> !(raw[k] == '_' && raw[k + 1] == '_')
      invariant raw == [] <==> forall k :: 0 <= k < i ==> !IsAlnum(text[k])
    {
      assert text[..i + 1][..i] == text[..i];
      if IsAlnum(text[i]) {
        raw := raw + [ToUpper(text[i])];
        lastSep := false;
      } else if !lastSep {
        raw := raw + ['_'];
        lastSep := true;
      }
    }
    assert text[..|text|] == text;
    result := StripTrailingUnderscore(raw);
  }

  function Normalised(text: string): string { Stripped(SnakeRaw(text)) }

  /** What a name too long for `maxLen` keeps in front of its disambiguator. */
  function Stem(full: string, maxLen: nat): string
    requires |full| > maxLen
  {
    Stripped(full[..if maxLen > DISAMBIGUATOR_LEN then maxLen - DISAMBIGUATOR_LEN else 0])
  }

  /** A name cut to a length, keeping room for a stable disambiguator. */
  function UpperSnake(text: string, maxLen: nat, hash: string -> nat): string {
    var full := Normalised(text);
    if |full| <= maxLen then full else Stem(full, maxLen) + Disambiguator(hash(full))
  }

  /** `to_upper_snake`, with the string hash as a parameter. */
  method ToUpperSnake(text: string, maxLen: nat, hash: string -> nat) returns (result: string)
    ensures result == UpperSnake(text, maxLen, hash)
    ensures |result| <= maxLen || (maxLen < DISAMBIGUATOR_LEN && |result| == DISAMBIGUATOR_LEN)
    ensures AllSnake(result) && (result != [] ==> result[|result| - 1] != '_')
    ensures result == [] <==> forall i :: 0 <= i < |text| ==> !IsAlnum(text[i])
  {
    result := Snake(text);
    if |result| > maxLen {
      var keep := if maxLen > DISAMBIGUATOR_LEN then maxLen - DISAMBIGUATOR_LEN else 0;
      var full := result;
      result := StripTrailingUnderscore(full[..keep]);
      result := result + Disambiguator(hash(full));
    }
  }

  /** The configured prefix as the bridge stores it. */
  method CodePrefix(configured: string, hash: string -> nat) returns (prefix: string)
    ensures UsablePrefix(prefix)
    ensures prefix == UpperSnake(configured, MAX_ACTION_PART, hash) || prefix == DEFAULT_PREFIX
  {
    prefix := ToUpperSnake(configured, MAX_ACTION_PART, hash);
    if prefix == [] {
      DefaultPrefixUsable();
      prefix := DEFAULT_PREFIX;
    }
  }

  const DEFAULT_PREFIX := "ACTION"

  lemma DefaultPrefixUsable()
    ensures UsablePrefix(DEFAULT_PREFIX)
  {
  }

  predicate UsablePrefix(prefix: string) {
    AllSnake(prefix) && 0 < |prefix| <= MAX_ACTION_PART && prefix[|prefix| - 1] != '_'
  }

  function StatusSuffix(canceled: bool): (s: string)
    ensures 0 < |s| <= MAX_STATUS_SUFFIX && AllSnake(s) && s[0] == '_'
  {
    if canceled then "_CANCELED" else "_ABORTED"
  }

  /** Room left for the action part. */
  function ActionBudget(prefix: string): (n: int)
    requires UsablePrefix(prefix)
    ensures DISAMBIGUATOR_LEN <= n && |prefix| + 1 + n + MAX_STATUS_SUFFIX < MAX_CODE_LEN
  {
    var suffixBudget := MAX_STATUS_SUFFIX + 1;
    var prefixLen := |prefix| + 1;
    if prefixLen + MAX_ACTION_PART + suffixBudget > MAX_CODE_LEN then
      if MAX_CODE_LEN > prefixLen + suffixBudget then MAX_CODE_LEN - prefixLen - suffixBudget else 0
    else MAX_ACTION_PART
  }

  /** The code of an action, by whether its failure is a cancellation. */
  function CodeOf(prefix: string, action: string, canceled: bool, hash: string -> nat): string
    requires UsablePrefix(prefix)
  {
    Joined(prefix, UpperSnake(action, ActionBudget(prefix), hash), StatusSuffix(canceled))
  }

  /**
   `fault_code_for`. The code fits, so the final clamp never cuts anything, ends in the whole status
   suffix, and is one the fault manager accepts.
   */
  method FaultCodeFor(prefix: string, action: string, canceled: bool, hash: string -> nat)
    returns (code: string, clamped: bool)
    requires UsablePrefix(prefix)
    ensures !clamped && |code| < MAX_CODE_LEN
    ensures code == CodeOf(prefix, action, canceled, hash)
    ensures |StatusSuffix(canceled)| <= |code| && code[|code| - |StatusSuffix(canceled)|..] == StatusSuffix(canceled)
    ensures ValidFaultCode(code)
  {
    var actionPart := ToUpperSnake(action, ActionBudget(prefix), hash);
    var suffix := StatusSuffix(canceled);
    code := prefix;
    if actionPart != [] {
      code := code + ['_'];
      code := code + actionPart;
    }
    code := code + suffix;
    assert code == Joined(prefix, actionPart, suffix);
    JoinedFits(prefix, actionPart, suffix);
    code, clamped := ClampCode(code);
    SnakeIsValid(code);
  }

  function Joined(prefix: string, part: string, suffix: string): string {
    prefix + (if part == [] then [] else ['_'] + part) + suffix
  }

  lemma JoinedFits(prefix: string, part: string, suffix: string)
    requires AllSnake(prefix) && AllSnake(part) && AllSnake(suffix)
    ensures AllSnake(Joined(prefix, part, suffix))
    ensures |Joined(prefix, part, suffix)| <= |prefix| + 1 + |part| + |suffix|
    ensures |suffix| <= |Joined(prefix, part, suffix)|
    ensures Joined(prefix, part, suffix)[|Joined(prefix, part, suffix)| - |suffix|..] == suffix
  {
  }

  /** The length clamp every generated code goes through. */
  method ClampCode(code: string) returns (r: string, clamped: bool)
    ensures clamped <==> |code| > MAX_CODE_LEN
    ensures |r| <= MAX_CODE_LEN && r <= code && (!clamped ==> r == code)
  {
    r, clamped := code, |code| > MAX_CODE_LEN;
    if clamped {
      r := StripTrailingUnderscore(code[..MAX_CODE_LEN]);
    }
  }

  lemma SnakeIsValid(code: string)
    requires AllSnake(code) && 0 < |code| <= MAX_FAULT_CODE_LENGTH
    ensures ValidFaultCode(code)
  {
    forall i | 0 <= i < |code|
      ensures CodeChar(code[i]) && code[i] != '.'
    {
      assert SnakeChar(code[i]);
    }
  }

  // ---------------------------------------------------------------- which actions share a code

  lemma EndingsDistinct(a: string, b: string)
    requires |a| >= 8 && |b| >= 9 && a[|a| - 8..] == StatusSuffix(false) && b[|b| - 9..] == StatusSuffix(true)
    ensures a != b
  {
    assert a[|a| - 8..][7] == 'D' && a[|a| - 8..][1] == 'A' && b[|b| - 9..][2] == 'A';
    assert a[|a| - 7] == 'A' && b[|b| - 7] == 'A';
    assert a[|a| - 8..][2] == 'B' && b[|b| - 9..][3] == 'N';
    assert a[|a| - 6] == 'B' && b[|b| - 6] == 'N';
  }

  lemma EndsInSuffix(prefix: string, part: string, suffix: string)
    ensures var code := Joined(prefix, part, suffix);
            |suffix| <= |code| && code[|code| - |suffix|..] == suffix
  {
  }

  /** The code of an aborted action is never that of a canceled one, of the same action or another. */
  lemma SuffixesDistinct(prefix: string, a: string, b: string, hash: string -> nat)
    requires UsablePrefix(prefix)
    ensures CodeOf(prefix, a, false, hash) != CodeOf(prefix, b, true, hash)
  {
    EndsInSuffix(prefix, UpperSnake(a, ActionBudget(prefix), hash), StatusSuffix(false));
    EndsInSuffix(prefix, UpperSnake(b, ActionBudget(prefix), hash), StatusSuffix(true));
    EndingsDistinct(CodeOf(prefix, a, false, hash), CodeOf(prefix, b, true, hash));
  }

  lemma JoinedPart(prefix: string, part: string, suffix: string)
    ensures var code := Joined(prefix, part, suffix);
            && |code| == |prefix| + |suffix| + (if part == [] then 0 else |part| + 1)
            && (part != [] ==> code[|prefix| + 1..|code| - |suffix|] == part)
  {
  }

  predicate SamePart(prefix: string, a: string, b: string, hash: string -> nat)
    requires UsablePrefix(prefix)
  {
    UpperSnake(a, ActionBudget(prefix), hash) == UpperSnake(b, ActionBudget(prefix), hash)
  }

  /** Two codes are the same exactly if their suffixes and their action parts are. */
  lemma SameCodeIff(prefix: string, a: string, x: bool, b: string, y: bool, hash: string -> nat)
    requires UsablePrefix(prefix)
    ensures CodeOf(prefix, a, x, hash) == CodeOf(prefix, b, y, hash) <==>
            x == y && SamePart(prefix, a, b, hash)
  {
    if x != y {
      SuffixesDistinct(prefix, if x then b else a, if x then a else b, hash);
    } else {
      JoinedPart(prefix, UpperSnake(a, ActionBudget(prefix), hash), StatusSuffix(x));
      JoinedPart(prefix, UpperSnake(b, ActionBudget(prefix), hash), StatusSuffix(x));
    }
  }

  lemma HexDistinct(m: nat, n: nat)
    requires m < 16 && n < 16 && HexUpper(m) == HexUpper(n)
    ensures m == n
  {
  }

  lemma FourDigits(n: nat)
    requires n < 65536
    ensures n / 4096 < 16
    ensures n == 4096 * (n / 4096) + 256 * (n / 256 % 16) + 16 * (n / 16 % 16) + n % 16
  {
    var a, b := n / 16, n / 256;
    assert n == 16 * a + n % 16;
    assert b == a / 16 && a == 16 * b + a % 16;
    assert n / 4096 == b / 16 && b == 16 * (n / 4096) + b % 16;
  }

  lemma DisambiguatorDistinct(g: nat, h: nat)
    ensures Disambiguator(g) == Disambiguator(h) <==> g % 65536 == h % 65536
  {
    if Disambiguator(g) == Disambiguator(h) {
      var m, n, s, t := g % 65536, h % 65536, Disambiguator(g), Disambiguator(h);
      FourDigits(m);
      FourDigits(n);
      assert s[1] == t[1] && s[2] == t[2] && s[3] == t[3] && s[4] == t[4];
      HexDistinct(m / 4096, n / 4096);
      HexDistinct(m / 256 % 16, n / 256 % 16);
      HexDistinct(m / 16 % 16, n / 16 % 16);
      HexDistinct(m % 16, n % 16);
    }
  }

  /** A name that fits is, letter for letter, what a longer one is cut to. */
  predicate LooksCut(short: string, long: string, maxLen: nat, hash: string -> nat) {
    |short| <= maxLen < |long| && short == Stem(long, maxLen) + Disambiguator(hash(long))
  }

  /** Both names are too long, and agree in what is kept of them and in sixteen bits of their hash. */
  predicate SameCut(f: string, g: string, maxLen: nat, hash: string -> nat) {
    |f| > maxLen && |g| > maxLen && Stem(f, maxLen) == Stem(g, maxLen) && hash(f) % 65536 == hash(g) % 65536
  }

  lemma SplitTail(a: string, s: string, b: string, t: string)
    requires |s| == |t|
    ensures a + s == b + t <==> a == b && s == t
  {
    if a + s == b + t {
      assert (a + s)[..|a|] == a && (b + t)[..|b|] == b;
      assert (a + s)[|a|..] == s && (b + t)[|b|..] == t;
    }
  }

  /**
   Two names give one action part exactly if they normalise alike, are cut to the same stem and hash, or
   one of them spells out what the other is cut to.
   */
  lemma SamePartIff(a: string, b: string, maxLen: nat, hash: string -> nat)
    ensures UpperSnake(a, maxLen, hash) == UpperSnake(b, maxLen, hash) <==>
            || Normalised(a) == Normalised(b)
            || SameCut(Normalised(a), Normalised(b), maxLen, hash)
            || LooksCut(Normalised(a), Normalised(b), maxLen, hash)
            || LooksCut(Normalised(b), Normalised(a), maxLen, hash)
  {
    var f, g := Normalised(a), Normalised(b);
    if |f| > maxLen && |g| > maxLen {
      SplitTail(Stem(f, maxLen), Disambiguator(hash(f)), Stem(g, maxLen), Disambiguator(hash(g)));
      DisambiguatorDistinct(hash(f), hash(g));
    }
  }

  /** Two separators, or two forms of one letter. */
  predicate Alike(c: char, d: char) {
    (IsAlnum(c) <==> IsAlnum(d)) && (IsAlnum(c) ==> ToUpper(c) == ToUpper(d))
  }

  /** Neither the case of a letter nor the choice of a separator makes a difference to the normalised name. */
  lemma {:induction false} SpelledAlike(text: string, i: nat, c: char)
    requires i < |text| && Alike(text[i], c)
    ensures SnakeRaw(text[i := c]) == SnakeRaw(text)
  {
    var other := text[i := c];
    if i == |text| - 1 {
      assert other[..|text| - 1] == text[..|text| - 1];
    } else {
      SpelledAlike(text[..|text| - 1], i, c);
      assert other[..|text| - 1] == text[..|text| - 1][i := c];
    }
  }

  // ---------------------------------------------------------------- the alphabet, and where names are cut

  /** Digits, capital and small letters of ASCII, by their codes. */
  lemma AlnumCodes(c: char)
    ensures IsAlnum(c) <==> 48 <= c as int <= 57 || 65 <= c as int <= 90 || 97 <= c as int <= 122
  {
  }

  lemma DotsRefused(a: string, b: string)
    ensures !ValidFaultCode(a + ".." + b)
  {
    var s := a + ".." + b;
    assert s[|a|] == '.' && s[|a| + 1] == '.';
  }

  /** A valid code has 1 to 256 letters, digits, underscores, dashes and dots, and no two dots side by side. */
  lemma ValidFaultCodeExactly(s: string)
    ensures ValidFaultCode(s) <==>
            && 1 <= |s| <= 256
            && (forall c :: c in s ==> IsAlnum(c) || c as int == 95 || c as int == 45 || c as int == 46)
            && !exists a, b :: s == a + ".." + b
  {
    forall a, b ensures !ValidFaultCode(a + ".." + b) {
      DotsRefused(a, b);
    }
    if i :| 0 <= i < |s| - 1 && s[i] == '.' && s[i + 1] == '.' {
      assert s == s[..i] + ".." + s[i + 2..];
    }
    forall i | 0 <= i < |s| ensures s[i] in s {
    }
  }

  predicate AllAlnum(s: string) { forall i :: 0 <= i < |s| ==> IsAlnum(s[i]) }

  predicate NoAlnum(s: string) { forall i :: 0 <= i < |s| ==> !IsAlnum(s[i]) }

  function Uppercase(s: string): string {
    if s == [] then [] else Uppercase(s[..|s| - 1]) + [ToUpper(s[|s| - 1])]
  }

  lemma {:induction false} WordAppended(text: string, word: string)
    requires AllAlnum(word)
    ensures SnakeRaw(text + word) == SnakeRaw(text) + Uppercase(word)
  {
    if word == [] {
      assert text + word == text;
    } else {
      var init, c := word[..|word| - 1], word[|word| - 1];
      assert (text + word)[..|text + word| - 1] == text + init;
      WordAppended(text, init);
    }
  }

  lemma {:induction false} SeparatorsAppended(text: string, seps: string)
    requires NoAlnum(seps) && seps != [] && SnakeRaw(text) != [] && SnakeRaw(text)[|SnakeRaw(text)| - 1] != '_'
    ensures SnakeRaw(text + seps) == SnakeRaw(text) + ['_']
  {
    var init := seps[..|seps| - 1];
    assert (text + seps)[..|text + seps| - 1] == text + init;
    if init == [] {
      assert text + init == text;
    } else {
      SeparatorsAppended(text, init);
    }
  }

  lemma UpperAlnum(s: string)
    requires s != [] && AllAlnum(s)
    ensures Uppercase(s) != [] && Uppercase(s)[|Uppercase(s)| - 1] != '_'
  {
  }

  lemma {:induction false} LeadingSeparators(seps: string)
    requires NoAlnum(seps)
    ensures SnakeRaw(seps) == []
  {
    if seps == [] {
    } else {
      LeadingSeparators(seps[..|seps| - 1]);
    }
  }

  lemma StrippedWord(s: string)
    requires s != [] && s[|s| - 1] != '_'
    ensures Stripped(s) == s && Stripped(s + ['_']) == s
  {
    assert (s + ['_'])[..|s|] == s;
  }

  lemma FirstWord(lead: string, a: string)
    requires NoAlnum(lead) && AllAlnum(a)
    ensures SnakeRaw(lead + a) == Uppercase(a)
  {
    LeadingSeparators(lead);
    WordAppended(lead, a);
  }

  /** A word after others, with separators in between. */
  lemma NextWord(text: string, raw: string, seps: string, b: string)
    requires SnakeRaw(text) == raw && raw != [] && raw[|raw| - 1] != '_'
    requires NoAlnum(seps) && seps != [] && AllAlnum(b)
    ensures SnakeRaw(text + seps + b) == raw + ['_'] + Uppercase(b)
  {
    SeparatorsAppended(text, seps);
    WordAppended(text + seps, b);
  }

  /** Separators at the end of a name make no difference. */
  lemma TrailingSeparators(text: string, raw: string, trail: string)
    requires SnakeRaw(text) == raw && raw != [] && raw[|raw| - 1] != '_' && NoAlnum(trail)
    ensures Normalised(text + trail) == raw
  {
    StrippedWord(raw);
    if trail == [] {
      assert text + trail == text;
    } else {
      SeparatorsAppended(text, trail);
    }
  }

  lemma EndsInWord(raw: string, b: string)
    requires b != [] && AllAlnum(b)
    ensures var r := raw + ['_'] + Uppercase(b); r != [] && r[|r| - 1] != '_'
  {
    UpperAlnum(b);
  }

  /** Words stay apart: any separators between two words become one underscore, those around them go. */
  lemma WordsStayApart(lead: string, a: string, seps: string, b: string, trail: string)
    requires NoAlnum(lead) && NoAlnum(seps) && seps != [] && NoAlnum(trail)
    requires a != [] && AllAlnum(a) && b != [] && AllAlnum(b)
    ensures Normalised(lead + a + seps + b + trail) == Uppercase(a) + ['_'] + Uppercase(b)
  {
    FirstWord(lead, a);
    UpperAlnum(a);
    NextWord(lead + a, Uppercase(a), seps, b);
    EndsInWord(Uppercase(a), b);
    TrailingSeparators(lead + a + seps + b, Uppercase(a) + ['_'] + Uppercase(b), trail);
  }

  /** A name of up to 48 characters that fits the code of 64 with its prefix and suffix is not cut. */
  lemma NameKeptWhole(prefix: string, action: string, canceled: bool, hash: string -> nat)
    requires UsablePrefix(prefix) && Normalised(action) != []
    requires |Normalised(action)| <= 48 && |prefix| + 1 + |Normalised(action)| + 10 <= 64
    ensures CodeOf(prefix, action, canceled, hash) ==
            prefix + ['_'] + Normalised(action) + (if canceled then "_CANCELED" else "_ABORTED")
  {
    var name := Normalised(action);
    assert prefix + (['_'] + name) == prefix + ['_'] + name;
  }
}
