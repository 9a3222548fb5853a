/**
 * The default sort of an array of strings: ascending by UTF-16 code units. Because equal strings are
 * indistinguishable, the sorted list depends on the multiset of its elements and on nothing else.
 */
module StringOrder {

  /** Characters in the order of their UTF-16 encoding: surrogate pairs come before U+E000 to U+FFFF. */
  function Rank(c: char): int {
    if 0xE000 <= c as int < 0x1_0000 then c as int + 0x11_0000 else c as int
  }

  /** The code units of a character in UTF-16. */
  function Units(c: char): seq<int> {
    if c as int < 0x1_0000 then [c as int]
    else [0xD800 + (c as int - 0x1_0000) / 0x400, 0xDC00 + (c as int - 0x1_0000) % 0x400]
  }

  predicate UnitsPrecede(a: seq<int>, b: seq<int>) {
    b != [] && (a == [] || a[0] < b[0] || (a[0] == b[0] && UnitsPrecede(a[1..], b[1..])))
  }

  /** The rank orders characters as their UTF-16 code units do. */
  lemma RankIsUnitOrder(c: char, d: char)
    ensures Rank(c) < Rank(d) <==> UnitsPrecede(Units(c), Units(d))
  {
    var m, n := c as int - 0x1_0000, d as int - 0x1_0000;
    if m >= 0 && n >= 0 {
      assert Units(c)[1..] == [0xDC00 + m % 0x400] && Units(d)[1..] == [0xDC00 + n % 0x400];
      assert m == 0x400 * (m / 0x400) + m % 0x400 && n == 0x400 * (n / 0x400) + n % 0x400;
      assert UnitsPrecede(Units(c)[1..], Units(d)[1..]) <==> m % 0x400 < n % 0x400;
    }
  }

  predicate AtMost(a: string, b: string) {
    a == [] || (b != [] && (Rank(a[0]) < Rank(b[0]) || (a[0] == b[0] && AtMost(a[1..], b[1..]))))
  }

  lemma RankIsInjective(c: char, d: char)
    requires Rank(c) == Rank(d)
    ensures c == d
  {
    assert c as int == d as int;
  }

  lemma {:induction false} Total(a: string, b: string)
    ensures AtMost(a, b) || AtMost(b, a)
  {
    if a != [] && b != [] {
      Total(a[1..], b[1..]);
      if Rank(a[0]) == Rank(b[0]) { RankIsInjective(a[0], b[0]); }
    }
  }

  lemma {:induction false} Antisymmetric(a: string, b: string)
    requires AtMost(a, b) && AtMost(b, a)
    ensures a == b
  {
    if a != [] {
      Antisymmetric(a[1..], b[1..]);
      assert a == [a[0]] + a[1..] && b == [b[0]] + b[1..];
    }
  }

  lemma {:induction false} Transitive(a: string, b: string, c: string)
    requires AtMost(a, b) && AtMost(b, c)
    ensures AtMost(a, c)
  {
    if a != [] && a[0] == b[0] && b[0] == c[0] {
      Transitive(a[1..], b[1..], c[1..]);
    }
  }

  function Insert(x: string, sorted: seq<string>): seq<string> {
    if sorted == [] || AtMost(x, sorted[0]) then [x] + sorted else [sorted[0]] + Insert(x, sorted[1..])
  }

  function Sort(xs: seq<string>): seq<string> {
    if xs == [] then [] else Insert(xs[0], Sort(xs[1..]))
  }

  predicate Ascending(xs: seq<string>) {
    forall i, j :: 0 <= i < j < |xs| ==> AtMost(xs[i], xs[j])
  }

  lemma {:induction false} InsertKeeps(x: string, sorted: seq<string>)
    ensures multiset(Insert(x, sorted)) == multiset(sorted) + multiset{x}
    ensures forall y :: y in Insert(x, sorted) ==> y == x || y in sorted
  {
    if sorted != [] && !AtMost(x, sorted[0]) {
      InsertKeeps(x, sorted[1..]);
      assert sorted == [sorted[0]] + sorted[1..];
    }
  }

  lemma {:induction false} InsertSorts(x: string, sorted: seq<string>)
    requires Ascending(sorted)
    ensures Ascending(Insert(x, sorted))
  {
    if sorted != [] {
      if AtMost(x, sorted[0]) {
        forall j | 0 <= j < |sorted| ensures AtMost(x, sorted[j]) {
          if j > 0 { Transitive(x, sorted[0], sorted[j]); }
        }
      } else {
        InsertSorts(x, sorted[1..]);
        InsertKeeps(x, sorted[1..]);
        Total(x, sorted[0]);
        var rest := Insert(x, sorted[1..]);
        forall j | 0 <= j < |rest| ensures AtMost(sorted[0], rest[j]) {
          assert rest[j] in rest;
        }
      }
    }
  }

  lemma {:induction false} SortSorts(xs: seq<string>)
    ensures Ascending(Sort(xs)) && multiset(Sort(xs)) == multiset(xs)
  {
    if xs != [] {
      SortSorts(xs[1..]);
      InsertSorts(xs[0], Sort(xs[1..]));
      InsertKeeps(xs[0], Sort(xs[1..]));
      assert xs == [xs[0]] + xs[1..];
    }
  }

  lemma HeadsAgree(xs: seq<string>, ys: seq<string>)
    requires Ascending(xs) && Ascending(ys) && multiset(xs) == multiset(ys) && xs != [] && ys != []
    ensures xs[0] == ys[0]
  {
    assert xs[0] in multiset(ys) && ys[0] in multiset(xs);
    var i :| 0 <= i < |ys| && ys[i] == xs[0];
    var j :| 0 <= j < |xs| && xs[j] == ys[0];
    if i != 0 && j != 0 { Antisymmetric(xs[0], ys[0]); }
  }

  lemma {:induction false} AscendingIsUnique(xs: seq<string>, ys: seq<string>)
    requires Ascending(xs) && Ascending(ys) && multiset(xs) == multiset(ys)
    ensures xs == ys
  {
    assert |multiset(xs)| == |multiset(ys)|;
    if xs != [] {
      HeadsAgree(xs, ys);
      assert xs == [xs[0]] + xs[1..] && ys == [ys[0]] + ys[1..];
      assert multiset(xs[1..]) == multiset(xs) - multiset{xs[0]};
      assert multiset(ys[1..]) == multiset(ys) - multiset{ys[0]};
      AscendingIsUnique(xs[1..], ys[1..]);
    }
  }

  /** Two lists sort to the same list exactly when one is a rearrangement of the other. */
  lemma SortIsCanonical(xs: seq<string>, ys: seq<string>)
    ensures Sort(xs) == Sort(ys) <==> multiset(xs) == multiset(ys)
  {
    SortSorts(xs);
    SortSorts(ys);
    if multiset(xs) == multiset(ys) {
      AscendingIsUnique(Sort(xs), Sort(ys));
    }
  }
}
