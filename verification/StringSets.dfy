/** `std::set<std::string>` as the strictly ascending sequence it iterates in. */
module StringSets {

  predicate Less(a: string, b: string) {
    b != [] && (a == [] || a[0] < b[0] || (a[0] == b[0] && Less(a[1..], b[1..])))
  }

  lemma {:induction false} LessTransitive(a: string, b: string, c: string)
    requires Less(a, b) && Less(b, c)
    ensures Less(a, c)
  {
    if a == [] || a[0] != b[0] || b[0] != c[0] {
    } else {
      LessTransitive(a[1..], b[1..], c[1..]);
    }
  }

  lemma {:induction false} LessTrichotomy(a: string, b: string)
    ensures a == b || Less(a, b) || Less(b, a)
    ensures !(Less(a, b) && Less(b, a)) && (a == b ==> !Less(a, b))
  {
    if a == [] || b == [] || a[0] != b[0] {
    } else {
      LessTrichotomy(a[1..], b[1..]);
      assert a == [a[0]] + a[1..] && b == [b[0]] + b[1..];
    }
  }

  predicate Ascending(s: seq<string>) {
    forall i, j :: 0 <= i < j < |s| ==> Less(s[i], s[j])
  }

  function Insert(s: seq<string>, x: string): (t: seq<string>)
    ensures forall y :: y in t <==> y in s || y == x
  {
    if s == [] then [x]
    else if x == s[0] then s
    else if Less(x, s[0]) then [x] + s
    else
      var t := [s[0]] + Insert(s[1..], x);
      assert s == [s[0]] + s[1..];
      t
  }

  lemma AscendingCons(x: string, s: seq<string>)
    requires Ascending(s) && forall y :: y in s ==> Less(x, y)
    ensures Ascending([x] + s)
  {
    var t := [x] + s;
    forall i, j | 0 <= i < j < |t|
      ensures Less(t[i], t[j])
    {
      assert t[j] == s[j - 1] && s[j - 1] in s;
    }
  }

  lemma {:induction false} InsertAscending(s: seq<string>, x: string)
    requires Ascending(s)
    ensures Ascending(Insert(s, x))
  {
    if s == [] || x == s[0] {
    } else {
      LessTrichotomy(x, s[0]);
      if Less(x, s[0]) {
        forall y | y in s
          ensures Less(x, y)
        {
          if y != s[0] {
            LessTransitive(x, s[0], y);
          }
        }
        AscendingCons(x, s);
      } else {
        InsertAscending(s[1..], x);
        forall y | y in Insert(s[1..], x)
          ensures Less(s[0], y)
        {
        }
        AscendingCons(s[0], Insert(s[1..], x));
      }
    }
  }

  /** The set built from a list, element by element. */
  function FromList(v: seq<string>): (s: seq<string>)
    ensures forall y :: y in s <==> y in v
  {
    if v == [] then []
    else
      assert v == v[..|v| - 1] + [v[|v| - 1]];
      Insert(FromList(v[..|v| - 1]), v[|v| - 1])
  }

  /** The set built from any list is in ascending order. */
  lemma {:induction false} FromListAscending(v: seq<string>)
    ensures Ascending(FromList(v))
  {
    if v == [] {
    } else {
      FromListAscending(v[..|v| - 1]);
      InsertAscending(FromList(v[..|v| - 1]), v[|v| - 1]);
    }
  }

  lemma {:induction false} InsertLast(s: seq<string>, x: string)
    requires forall y :: y in s ==> Less(y, x)
    ensures Insert(s, x) == s + [x]
  {
    if s == [] {
    } else {
      LessTrichotomy(s[0], x);
      InsertLast(s[1..], x);
      assert s + [x] == [s[0]] + (s[1..] + [x]);
    }
  }

  /** A list that is already in set order is its own set. */
  lemma {:induction false} FromAscendingList(v: seq<string>)
    requires Ascending(v)
    ensures FromList(v) == v
  {
    if v == [] {
    } else {
      var init, last := v[..|v| - 1], v[|v| - 1];
      assert v == init + [last];
      FromAscendingList(init);
      InsertLast(init, last);
    }
  }
}
