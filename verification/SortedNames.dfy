/** Sorting named entries by name, as `Object.keys(object).sort()` does, and why the result is unique. */
module SortedNames {

  /** The UTF-16 code units of a character: one, or a pair of surrogates. */
  function Units(c: char): (units: seq<int>)
    ensures |units| == if c as int < 0x10000 then 1 else 2
  {
    var n := c as int;
    if n < 0x10000 then [n] else [0xD800 + (n - 0x10000) / 0x400, 0xDC00 + (n - 0x10000) % 0x400]
  }

  function Utf16(s: string): seq<int> {
    if s == "" then [] else Units(s[0]) + Utf16(s[1..])
  }

  /** The order in which JavaScript sorts strings: lexicographic by code unit. */
  predicate LeUnits(a: seq<int>, b: seq<int>) {
    a == [] || (b != [] && (a[0] < b[0] || (a[0] == b[0] && LeUnits(a[1..], b[1..]))))
  }

  /** Where a character stands among others by its code units: pairs come before the last of the single units. */
  function Rank(c: char): int {
    var n := c as int;
    if n < 0xD800 then n else if n < 0x10000 then n + 0x100000 else n - 0x2800
  }

  lemma RankIsInjective(a: char, b: char)
    requires Rank(a) == Rank(b)
    ensures a == b
  {
  }

  /** Lexicographic order on strings, character by character. */
  predicate Le(a: string, b: string) {
    a == "" || (b != "" && (Rank(a[0]) < Rank(b[0]) || (a[0] == b[0] && Le(a[1..], b[1..]))))
  }

  lemma UnitsSplit(c: char, a: seq<int>, d: char, b: seq<int>)
    ensures LeUnits(Units(c) + a, Units(d) + b) <==> Rank(c) < Rank(d) || (c == d && LeUnits(a, b))
  {
    var x, y := Units(c) + a, Units(d) + b;
    if |Units(c)| == 1 && |Units(d)| == 1 {
      assert x[1..] == a && y[1..] == b;
    } else if |Units(c)| == 2 && |Units(d)| == 2 {
      assert x[1..][1..] == a && y[1..][1..] == b;
      assert x[1..][0] == x[1] && y[1..][0] == y[1];
    }
    if Rank(c) == Rank(d) { RankIsInjective(c, d); }
  }

  /** It is the order JavaScript sorts by. */
  lemma {:induction false} LeIsUtf16(a: string, b: string)
    ensures Le(a, b) <==> LeUnits(Utf16(a), Utf16(b))
    decreases |a|
  {
    if a == "" {
    } else if b != "" {
      LeIsUtf16(a[1..], b[1..]);
      UnitsSplit(a[0], Utf16(a[1..]), b[0], Utf16(b[1..]));
    }
  }

  lemma {:induction false} LeTotal(a: string, b: string)
    ensures Le(a, b) || Le(b, a)
    ensures Le(a, a)
    ensures Le(a, b) && Le(b, a) ==> a == b
    decreases |a|
  {
    if a == "" {
    } else {
      LeTotal(a[1..], if b == "" then "" else b[1..]);
      if b != "" && a[1..] == b[1..] && a[0] == b[0] { assert a == [a[0]] + a[1..] == b; }
    }
  }

  lemma {:induction false} LeTransitive(a: string, b: string, c: string)
    requires Le(a, b) && Le(b, c)
    ensures Le(a, c)
    decreases |a|
  {
    if a == "" {
    } else if a[0] == b[0] && b[0] == c[0] {
      LeTransitive(a[1..], b[1..], c[1..]);
    }
  }

  datatype Named<T> = Named(name: string, value: T)

  function Insert<T>(x: Named<T>, xs: seq<Named<T>>): (r: seq<Named<T>>)
    ensures |r| == |xs| + 1
  {
    if xs == [] || Le(x.name, xs[0].name) then [x] + xs else [xs[0]] + Insert(x, xs[1..])
  }

  function Sort<T>(xs: seq<Named<T>>): (r: seq<Named<T>>)
    ensures |r| == |xs|
  {
    if xs == [] then [] else Insert(xs[0], Sort(xs[1..]))
  }

  predicate DistinctNames<T>(xs: seq<Named<T>>) {
    forall i, j :: 0 <= i < j < |xs| ==> xs[i].name != xs[j].name
  }

  predicate InOrder<T>(xs: seq<Named<T>>) {
    forall i, j :: 0 <= i < j < |xs| ==> Le(xs[i].name, xs[j].name)
  }

  lemma {:induction false} InsertMembers<T(!new)>(x: Named<T>, xs: seq<Named<T>>)
    ensures forall y :: y in Insert(x, xs) <==> y == x || y in xs
  {
    if xs == [] || Le(x.name, xs[0].name) {
    } else {
      InsertMembers(x, xs[1..]);
      assert forall y :: y in xs <==> y == xs[0] || y in xs[1..];
    }
  }

  lemma {:induction false} SortMembers<T(!new)>(xs: seq<Named<T>>)
    ensures forall y :: y in Sort(xs) <==> y in xs
  {
    if xs == [] {
    } else {
      SortMembers(xs[1..]);
      InsertMembers(xs[0], Sort(xs[1..]));
      assert forall y :: y in xs <==> y == xs[0] || y in xs[1..];
    }
  }

  lemma {:induction false} InsertInOrder<T(!new)>(x: Named<T>, xs: seq<Named<T>>)
    requires InOrder(xs)
    ensures InOrder(Insert(x, xs))
  {
    if xs == [] {
    } else if Le(x.name, xs[0].name) {
      forall j | 0 <= j < |xs| ensures Le(x.name, xs[j].name) {
        if j > 0 { LeTransitive(x.name, xs[0].name, xs[j].name); }
      }
    } else {
      LeTotal(x.name, xs[0].name);
      InsertInOrder(x, xs[1..]);
      InsertMembers(x, xs[1..]);
      var rest := Insert(x, xs[1..]);
      forall j | 0 <= j < |rest| ensures Le(xs[0].name, rest[j].name) {
        assert rest[j] in rest;
        if rest[j] != x {
          assert rest[j] in xs[1..];
          var k :| 0 <= k < |xs[1..]| && xs[1..][k] == rest[j];
          assert xs[k + 1] == rest[j];
        }
      }
    }
  }

  lemma {:induction false} SortInOrder<T(!new)>(xs: seq<Named<T>>)
    ensures InOrder(Sort(xs))
  {
    if xs == [] {
    } else {
      SortInOrder(xs[1..]);
      InsertInOrder(xs[0], Sort(xs[1..]));
    }
  }

  /** Inserting a name that is not there keeps names distinct. */
  lemma {:induction false} InsertDistinct<T(!new)>(x: Named<T>, xs: seq<Named<T>>)
    requires DistinctNames(xs) && forall i :: 0 <= i < |xs| ==> xs[i].name != x.name
    ensures DistinctNames(Insert(x, xs))
  {
    if xs == [] || Le(x.name, xs[0].name) {
    } else {
      InsertDistinct(x, xs[1..]);
      InsertMembers(x, xs[1..]);
      var rest := Insert(x, xs[1..]);
      forall j | 0 <= j < |rest| ensures xs[0].name != rest[j].name {
        assert rest[j] in rest;
        if rest[j] != x {
          assert rest[j] in xs[1..];
          var k :| 0 <= k < |xs[1..]| && xs[1..][k] == rest[j];
          assert xs[k + 1] == rest[j];
        }
      }
    }
  }

  lemma {:induction false} SortDistinct<T(!new)>(xs: seq<Named<T>>)
    requires DistinctNames(xs)
    ensures DistinctNames(Sort(xs))
  {
    if xs == [] {
    } else {
      SortDistinct(xs[1..]);
      SortMembers(xs[1..]);
      var rest := Sort(xs[1..]);
      forall i | 0 <= i < |rest| ensures rest[i].name != xs[0].name {
        assert rest[i] in rest && rest[i] in xs[1..];
        var k :| 0 <= k < |xs[1..]| && xs[1..][k] == rest[i];
        assert xs[k + 1] == rest[i];
      }
      InsertDistinct(xs[0], rest);
    }
  }

  /** Entries with distinct names have one sorted order only. */
  lemma {:induction false} SortedIsUnique<T(!new)>(xs: seq<Named<T>>, ys: seq<Named<T>>)
    requires InOrder(xs) && InOrder(ys) && DistinctNames(xs) && DistinctNames(ys)
    requires forall x :: x in xs <==> x in ys
    ensures xs == ys
    decreases |xs|
  {
    if ys == [] {
    } else {
      assert ys[0] in ys && ys[0] in xs;
    }
    if xs != [] {
      assert xs[0] in xs && xs[0] in ys;
      var j :| 0 <= j < |ys| && ys[j] == xs[0];
      assert ys[0] in ys && ys[0] in xs;
      var i :| 0 <= i < |xs| && xs[i] == ys[0];
      LeTotal(xs[0].name, ys[0].name);
      assert xs[0] == ys[0];
      forall x ensures x in xs[1..] <==> x in ys[1..] {
        TailMember(xs, x);
        TailMember(ys, x);
      }
      SortedIsUnique(xs[1..], ys[1..]);
      assert xs == [xs[0]] + xs[1..] && ys == [ys[0]] + ys[1..];
    }
  }

  lemma TailMember<T(!new)>(xs: seq<Named<T>>, x: Named<T>)
    requires xs != [] && DistinctNames(xs)
    ensures x in xs[1..] <==> x in xs && x != xs[0]
  {
    if x in xs[1..] {
      var k :| 0 <= k < |xs[1..]| && xs[1..][k] == x;
      assert xs[k + 1] == x;
    }
  }

  /** Sorting something already in order changes nothing. */
  lemma {:induction false} SortOrdered<T(!new)>(xs: seq<Named<T>>)
    requires InOrder(xs)
    ensures Sort(xs) == xs
  {
    if xs == [] {
    } else {
      SortOrdered(xs[1..]);
      if |xs| > 1 { assert xs[1..][0] == xs[1]; }
    }
  }
}
