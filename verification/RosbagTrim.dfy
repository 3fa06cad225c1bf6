/** Keeping a fault's newest recordings: the sort-and-erase loop against the rank of each row. */
module RosbagTrim {

  datatype Info = Info(code: string, recordingId: string, path: string, size: nat, createdAt: int)

  /** A stored link from a fault to a recording; `order` is its insertion number. */
  datatype Row = Row(info: Info, order: nat)

  /** Age order: a burst stamps one creation time on all its rows, so the insertion number decides ties. */
  predicate Older(a: Row, b: Row) {
    a.info.createdAt < b.info.createdAt || (a.info.createdAt == b.info.createdAt && a.order < b.order)
  }

  predicate DistinctOrders(rows: seq<Row>) {
    forall i, j :: 0 <= i < j < |rows| ==> rows[i].order != rows[j].order
  }

  // ---------------------------------------------------------------- what is kept

  function Mine(rows: seq<Row>, code: string): set<int> {
    set i | 0 <= i < |rows| && rows[i].info.code == code
  }

  /** The rows of the same fault that are newer than row `i`. */
  function Newer(rows: seq<Row>, i: int): set<int>
    requires 0 <= i < |rows|
  {
    set j | 0 <= j < |rows| && rows[j].info.code == rows[i].info.code && Older(rows[i], rows[j])
  }

  /** The rows of a fault outside its newest `n`, as the SQL statement selects them. */
  function Doomed(rows: seq<Row>, code: string, n: nat): set<int> {
    set i | 0 <= i < |rows| && rows[i].info.code == code && |Newer(rows, i)| >= n
  }

  /** The rows without those at the given positions. */
  function Survivors(rows: seq<Row>, dead: set<int>): seq<Row> {
    if rows == [] then []
    else Survivors(rows[..|rows| - 1], dead) + (if |rows| - 1 in dead then [] else [rows[|rows| - 1]])
  }

  function KeepNewest(rows: seq<Row>, code: string, n: nat): seq<Row> {
    Survivors(rows, Doomed(rows, code, n))
  }

  // ---------------------------------------------------------------- sorting by age

  predicate ByAge(rows: seq<Row>, s: seq<int>) {
    && (forall a :: 0 <= a < |s| ==> 0 <= s[a] < |rows|)
    && forall a, b :: 0 <= a < b < |s| ==> Older(rows[s[a]], rows[s[b]])
  }

  function InsertByAge(rows: seq<Row>, s: seq<int>, i: int): (t: seq<int>)
    requires 0 <= i < |rows| && forall a :: 0 <= a < |s| ==> 0 <= s[a] < |rows|
    ensures forall a :: 0 <= a < |t| ==> 0 <= t[a] < |rows|
    ensures forall x :: x in t <==> x in s || x == i
    ensures |t| == |s| + 1
  {
    if s == [] || Older(rows[i], rows[s[0]]) then [i] + s
    else
      assert s == [s[0]] + s[1..];
      [s[0]] + InsertByAge(rows, s[1..], i)
  }

  lemma ByAgeCons(rows: seq<Row>, x: int, s: seq<int>)
    requires 0 <= x < |rows| && ByAge(rows, s) && forall y :: y in s ==> 0 <= y < |rows| && Older(rows[x], rows[y])
    ensures ByAge(rows, [x] + s)
  {
    var t := [x] + s;
    forall a, b | 0 <= a < b < |t| ensures Older(rows[t[a]], rows[t[b]]) {
      assert t[b] == s[b - 1] && s[b - 1] in s;
      if a > 0 {
        assert t[a] == s[a - 1];
      }
    }
  }

  lemma OldestFirst(rows: seq<Row>, s: seq<int>, y: int)
    requires ByAge(rows, s) && s != [] && y in s[1..]
    ensures 0 <= y < |rows| && Older(rows[s[0]], rows[y])
  {
    var k :| 0 <= k < |s[1..]| && s[1..][k] == y;
    assert s[k + 1] == y;
  }

  lemma {:induction false} InsertKeepsByAge(rows: seq<Row>, s: seq<int>, i: int)
    requires 0 <= i < |rows| && ByAge(rows, s) && DistinctOrders(rows) && i !in s
    ensures ByAge(rows, InsertByAge(rows, s, i))
  {
    if s == [] || Older(rows[i], rows[s[0]]) {
      forall y | y in s ensures 0 <= y < |rows| && Older(rows[i], rows[y]) {
        if y != s[0] {
          OldestFirst(rows, s, y);
        }
      }
      ByAgeCons(rows, i, s);
    } else {
      InsertKeepsByAge(rows, s[1..], i);
      assert s[0] in s && rows[s[0]].order != rows[i].order;
      var rest := InsertByAge(rows, s[1..], i);
      forall y | y in rest ensures 0 <= y < |rows| && Older(rows[s[0]], rows[y]) {
        if y != i {
          OldestFirst(rows, s, y);
        }
      }
      ByAgeCons(rows, s[0], rest);
    }
  }

  /** `s` lists the positions of a fault's rows in age order. */
  ghost predicate Orders(s: seq<int>, rows: seq<Row>, code: string) {
    ByAge(rows, s) && forall i :: i in s <==> i in Mine(rows, code)
  }

  method SortPositions(rows: seq<Row>, code: string) returns (s: seq<int>)
    requires DistinctOrders(rows)
    ensures Orders(s, rows, code)
  {
    s := [];
    for i := 0 to |rows|
      invariant ByAge(rows, s)
      invariant forall x :: x in s <==> 0 <= x < i && rows[x].info.code == code
    {
      if rows[i].info.code == code {
        InsertKeepsByAge(rows, s, i);
        s := InsertByAge(rows, s, i);
      }
    }
  }

  lemma {:induction false} AgeOrderBelow(rows: seq<Row>, code: string, k: nat) returns (s: seq<int>)
    requires k <= |rows| && DistinctOrders(rows)
    ensures ByAge(rows, s) && forall x :: x in s <==> 0 <= x < k && rows[x].info.code == code
  {
    s := [];
    if k == 0 {
    } else {
      s := AgeOrderBelow(rows, code, k - 1);
      if rows[k - 1].info.code == code {
        InsertKeepsByAge(rows, s, k - 1);
        s := InsertByAge(rows, s, k - 1);
      }
    }
  }

  /** Distinct insertion numbers put the rows of every fault in one age order. */
  lemma AgeOrder(rows: seq<Row>, code: string) returns (s: seq<int>)
    requires DistinctOrders(rows)
    ensures Orders(s, rows, code)
  {
    s := AgeOrderBelow(rows, code, |rows|);
  }

  // ---------------------------------------------------------------- rank and position

  lemma {:induction false} SizeOfDistinct(s: seq<int>, t: set<int>)
    requires forall a, b :: 0 <= a < b < |s| ==> s[a] != s[b]
    requires forall x :: x in t <==> x in s
    ensures |t| == |s|
  {
    if s == [] {
      assert t == {} by {
        assert forall x :: x in t ==> x in s;
      }
    } else {
      var init, last := s[..|s| - 1], s[|s| - 1];
      assert s == init + [last];
      SizeOfDistinct(init, t - {last});
    }
  }

  lemma OlderIsStrict(rows: seq<Row>, s: seq<int>, a: int, b: int)
    requires ByAge(rows, s) && 0 <= a < |s| && 0 <= b < |s|
    ensures Older(rows[s[a]], rows[s[b]]) <==> a < b
    ensures s[a] == s[b] <==> a == b
  {
    if a < b {
      assert Older(rows[s[a]], rows[s[b]]);
    } else if b < a {
      assert Older(rows[s[b]], rows[s[a]]);
    }
  }

  /** The rank of a row is the number of positions behind it in age order. */
  lemma NewerCount(rows: seq<Row>, code: string, s: seq<int>, a: int)
    requires Orders(s, rows, code) && 0 <= a < |s|
    ensures s[a] in Mine(rows, code) && |Newer(rows, s[a])| == |s| - 1 - a
  {
    var tail := s[a + 1..];
    assert s[a] in s;
    forall x ensures x in Newer(rows, s[a]) <==> x in tail {
      if x in tail {
        var k :| 0 <= k < |tail| && tail[k] == x;
        assert s[a + 1 + k] == x && x in s;
        OlderIsStrict(rows, s, a, a + 1 + k);
      }
      if x in Newer(rows, s[a]) {
        assert x in s;
        var b :| 0 <= b < |s| && s[b] == x;
        OlderIsStrict(rows, s, a, b);
        assert tail[b - a - 1] == x;
      }
    }
    forall b, c | 0 <= b < c < |tail| ensures tail[b] != tail[c] {
      OlderIsStrict(rows, s, a + 1 + b, a + 1 + c);
    }
    SizeOfDistinct(tail, Newer(rows, s[a]));
  }

  /** What is doomed is the old end of the age order. */
  lemma DoomedIsOldEnd(rows: seq<Row>, code: string, n: nat, s: seq<int>, x: int)
    requires Orders(s, rows, code) && |s| > n
    ensures x in Doomed(rows, code, n) <==> x in s[..|s| - n]
  {
    if x in s[..|s| - n] {
      var a :| 0 <= a < |s| - n && s[a] == x;
      NewerCount(rows, code, s, a);
    }
    if x in Doomed(rows, code, n) {
      assert x in Mine(rows, code) && x in s;
      var a :| 0 <= a < |s| && s[a] == x;
      NewerCount(rows, code, s, a);
      assert s[..|s| - n][a] == x;
    }
  }

  lemma NobodyDoomed(rows: seq<Row>, code: string, n: nat, s: seq<int>)
    requires Orders(s, rows, code) && |s| <= n
    ensures Doomed(rows, code, n) == {}
  {
    forall x ensures x !in Doomed(rows, code, n) {
      if x in Mine(rows, code) {
        assert x in s;
        var a :| 0 <= a < |s| && s[a] == x;
        NewerCount(rows, code, s, a);
      }
    }
  }

  // ---------------------------------------------------------------- the loop

  lemma {:induction false} SurvivorsBelow(rows: seq<Row>, dead: set<int>, k: nat)
    requires k <= |rows| && forall d :: d in dead ==> d >= k
    ensures k <= |Survivors(rows, dead)| && Survivors(rows, dead)[..k] == rows[..k]
  {
    if k < |rows| {
      SurvivorsBelow(rows[..|rows| - 1], dead, k);
      assert rows[..|rows| - 1][..k] == rows[..k];
    } else {
      SurvivorsAll(rows, dead);
    }
  }

  lemma {:induction false} SurvivorsAll(rows: seq<Row>, dead: set<int>)
    requires forall d :: d in dead ==> d >= |rows|
    ensures Survivors(rows, dead) == rows
  {
    if rows == [] {
    } else {
      var init, last := rows[..|rows| - 1], rows[|rows| - 1];
      SurvivorsAll(init, dead);
      assert init + [last] == rows;
    }
  }

  lemma CutSnoc(t: seq<Row>, last: Row, i: nat)
    requires i < |t|
    ensures (t + [last])[..i] + (t + [last])[i + 1..] == (t[..i] + t[i + 1..]) + [last]
  {
  }

  /** Erasing one more position below all erased ones. */
  lemma {:induction false} EraseBelow(rows: seq<Row>, dead: set<int>, i: nat)
    requires i < |rows| && forall d :: d in dead ==> d > i
    ensures i < |Survivors(rows, dead)|
    ensures Survivors(rows, dead + {i}) == Survivors(rows, dead)[..i] + Survivors(rows, dead)[i + 1..]
  {
    var init, last := rows[..|rows| - 1], rows[|rows| - 1];
    if i == |rows| - 1 {
      SurvivorsAll(init, dead);
      SurvivorsAll(init, dead + {i});
      assert init + [last] == rows;
    } else {
      EraseBelow(init, dead, i);
      if |rows| - 1 !in dead {
        CutSnoc(Survivors(init, dead), last, i);
      }
    }
  }

  lemma SurvivorAt(rows: seq<Row>, dead: set<int>, i: nat)
    requires i < |rows| && forall d :: d in dead ==> d > i
    ensures i < |Survivors(rows, dead)| && Survivors(rows, dead)[i] == rows[i]
  {
    var s := Survivors(rows, dead);
    SurvivorsBelow(rows, dead, i + 1);
    assert s[i] == s[..i + 1][i] == rows[..i + 1][i];
  }

  /** The in-memory trim: positions sorted by age, the old end erased from the highest position down. */
  method TrimOldest(rows: seq<Row>, code: string, n: nat) returns (updated: seq<Row>, evicted: set<string>)
    requires DistinctOrders(rows)
    ensures updated == KeepNewest(rows, code, n)
    ensures evicted == PathsAt(rows, Doomed(rows, code, n))
  {
    updated, evicted := rows, {};
    var mine := SortPositions(rows, code);
    if |mine| <= n {
      NobodyDoomed(rows, code, n, mine);
      SurvivorsAll(rows, {});
      return;
    }
    var doomed := mine[..|mine| - n];
    ghost var all := Doomed(rows, code, n);
    forall x ensures x in doomed <==> x in all {
      DoomedIsOldEnd(rows, code, n, mine, x);
    }
    updated, evicted := ErasePositions(rows, doomed, all);
  }

  /** Erases the given positions, from the highest down so that the rest stay valid. */
  method ErasePositions(rows: seq<Row>, doomed: seq<int>, ghost all: set<int>)
    returns (updated: seq<Row>, evicted: set<string>)
    requires forall x :: x in doomed <==> x in all
    requires forall x :: x in all ==> 0 <= x < |rows|
    ensures updated == Survivors(rows, all) && evicted == PathsAt(rows, all)
  {
    updated, evicted := rows, {};
    ghost var dead: set<int> := {};
    SurvivorsAll(rows, {});
    var i := |rows|;
    while i > 0
      invariant 0 <= i <= |rows|
      invariant forall d :: d in dead <==> d in all && d >= i
      invariant updated == Survivors(rows, dead)
      invariant evicted == PathsAt(rows, dead)
    {
      i := i - 1;
      if i in doomed {
        EraseBelow(rows, dead, i);
        SurvivorAt(rows, dead, i);
        PathsAtOneMore(rows, dead, i);
        evicted := evicted + {updated[i].info.path};
        updated := updated[..i] + updated[i + 1..];
        dead := dead + {i};
      }
    }
    assert forall x :: x in dead <==> x in all;
    assert dead == all;
  }

  function PathsAt(rows: seq<Row>, dead: set<int>): set<string> {
    set i | i in dead && 0 <= i < |rows| :: rows[i].info.path
  }

  lemma PathsAtOneMore(rows: seq<Row>, dead: set<int>, i: nat)
    requires i < |rows|
    ensures PathsAt(rows, dead + {i}) == PathsAt(rows, dead) + {rows[i].info.path}
  {
  }

  // ---------------------------------------------------------------- what a trim leaves

  function CountOf(rows: seq<Row>, code: string): nat {
    if rows == [] then 0 else CountOf(rows[..|rows| - 1], code) + (if rows[|rows| - 1].info.code == code then 1 else 0)
  }

  lemma {:induction false} CountIsMine(rows: seq<Row>, code: string)
    ensures CountOf(rows, code) == |Mine(rows, code)|
  {
    if rows == [] {
    } else {
      var init, k := rows[..|rows| - 1], |rows| - 1;
      CountIsMine(init, code);
      if rows[k].info.code == code {
        assert Mine(rows, code) == Mine(init, code) + {k};
      } else {
        assert Mine(rows, code) == Mine(init, code);
      }
    }
  }

  lemma {:induction false} SurvivorsSame(rows: seq<Row>, a: set<int>, b: set<int>)
    requires forall i :: 0 <= i < |rows| ==> (i in a <==> i in b)
    ensures Survivors(rows, a) == Survivors(rows, b)
  {
    if rows == [] {
    } else {
      SurvivorsSame(rows[..|rows| - 1], a, b);
    }
  }

  lemma CountSnoc(rows: seq<Row>, r: Row, code: string)
    ensures CountOf(rows + [r], code) == CountOf(rows, code) + (if r.info.code == code then 1 else 0)
  {
    assert (rows + [r])[..|rows|] == rows;
  }

  lemma {:induction false} SurvivorCount(rows: seq<Row>, dead: set<int>, code: string)
    requires dead <= Mine(rows, code)
    ensures CountOf(Survivors(rows, dead), code) == CountOf(rows, code) - |dead|
  {
    if rows == [] {
      assert dead == {};
    } else {
      var init, k := rows[..|rows| - 1], |rows| - 1;
      var fewer := dead - {k};
      SurvivorsSame(init, dead, fewer);
      assert fewer <= Mine(init, code);
      SurvivorCount(init, fewer, code);
      CountSnoc(Survivors(init, dead), rows[k], code);
      if k in dead {
        assert dead == fewer + {k};
        assert Survivors(rows, dead) == Survivors(init, dead);
      } else {
        assert fewer == dead;
      }
    }
  }

  /** A trimmed fault keeps its cap's worth of rows, or all it had. */
  lemma KeepsUpToCap(rows: seq<Row>, code: string, n: nat)
    requires DistinctOrders(rows)
    ensures CountOf(KeepNewest(rows, code, n), code) == (if CountOf(rows, code) <= n then CountOf(rows, code) else n)
  {
    var s := AgeOrder(rows, code);
    CountIsMine(rows, code);
    OrderedDistinct(rows, s);
    SizeOfDistinct(s, Mine(rows, code));
    SurvivorCount(rows, Doomed(rows, code, n), code);
    if |s| <= n {
      NobodyDoomed(rows, code, n, s);
    } else {
      var oldEnd := s[..|s| - n];
      forall x ensures x in Doomed(rows, code, n) <==> x in oldEnd {
        DoomedIsOldEnd(rows, code, n, s, x);
      }
      SizeOfDistinct(oldEnd, Doomed(rows, code, n));
    }
  }

  lemma OrderedDistinct(rows: seq<Row>, s: seq<int>)
    requires ByAge(rows, s)
    ensures forall a, b :: 0 <= a < b < |s| ==> s[a] != s[b]
  {
    forall a, b | 0 <= a < b < |s| ensures s[a] != s[b] {
      OlderIsStrict(rows, s, a, b);
    }
  }

  /** Eviction is strictly by age: every row that goes is older than every row of the fault that stays. */
  lemma EvictsOldest(rows: seq<Row>, code: string, n: nat, gone: int, kept: int)
    requires DistinctOrders(rows) && gone in Doomed(rows, code, n)
    requires kept in Mine(rows, code) && kept !in Doomed(rows, code, n)
    ensures Older(rows[gone], rows[kept])
  {
    assert gone in Mine(rows, code) && gone != kept;
    assert rows[gone].order != rows[kept].order;
    if Older(rows[kept], rows[gone]) {
      NewerShrinks(rows, kept, gone);
    }
  }

  lemma NewerShrinks(rows: seq<Row>, a: int, b: int)
    requires 0 <= a < |rows| && 0 <= b < |rows| && rows[a].info.code == rows[b].info.code && Older(rows[a], rows[b])
    ensures |Newer(rows, b)| < |Newer(rows, a)|
  {
    assert b !in Newer(rows, b) && b in Newer(rows, a);
    forall j | j in Newer(rows, b) ensures j in Newer(rows, a) {
    }
    StrictSubsetIsSmaller(Newer(rows, b), Newer(rows, a), b);
  }

  lemma StrictSubsetIsSmaller(a: set<int>, b: set<int>, x: int)
    requires a <= b && x in b && x !in a
    ensures |a| < |b|
  {
    assert b == (a + {x}) + (b - a - {x});
  }

  lemma {:induction false} SurvivorMember(rows: seq<Row>, dead: set<int>, r: Row)
    ensures r in Survivors(rows, dead) <==> exists i :: 0 <= i < |rows| && i !in dead && rows[i] == r
  {
    if rows == [] {
    } else {
      var init, k := rows[..|rows| - 1], |rows| - 1;
      SurvivorMember(init, dead, r);
      if r in Survivors(init, dead) {
        var i :| 0 <= i < |init| && i !in dead && init[i] == r;
        assert rows[i] == r;
      }
      if i :| 0 <= i < |rows| && i !in dead && rows[i] == r {
        if i < k {
          assert init[i] == r;
        }
      }
    }
  }
}
