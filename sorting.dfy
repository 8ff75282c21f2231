/**
 * Python's `sorted(xs, key=...)` and `list.sort(key=...)` for integer keys (a stable sort), and
 * `sorted(...)` of a set of strings. The scripts sort variable tags, company numbers, year spans,
 * year-tagged records, variable groups and missing Types with these.
 */
module Sorting {
  import opened Text

  predicate SortedBy<T>(s: seq<T>, key: T -> int) {
    forall i, j :: 0 <= i < j < |s| ==> key(s[i]) <= key(s[j])
  }

  /** The elements of `s` whose key is `k`, in their order in `s`. */
  function WithKey<T>(s: seq<T>, key: T -> int, k: int): seq<T> {
    if s == [] then []
    else (if key(s[0]) == k then [s[0]] else []) + WithKey(s[1..], key, k)
  }

  lemma WithKeyCons<T>(y: T, t: seq<T>, key: T -> int, k: int)
    ensures WithKey([y] + t, key, k) == (if key(y) == k then [y] else []) + WithKey(t, key, k)
  {
    assert ([y] + t)[0] == y && ([y] + t)[1..] == t;
  }

  lemma {:induction false} WithKeyAppend<T>(a: seq<T>, b: seq<T>, key: T -> int, k: int)
    ensures WithKey(a + b, key, k) == WithKey(a, key, k) + WithKey(b, key, k)
  {
    if a == [] {
      assert a + b == b;
    } else {
      assert a + b == [a[0]] + (a[1..] + b);
      assert a == [a[0]] + a[1..];
      WithKeyCons(a[0], a[1..] + b, key, k);
      WithKeyCons(a[0], a[1..], key, k);
      WithKeyAppend(a[1..], b, key, k);
    }
  }

  lemma {:induction false} WithKeyAbsent<T>(s: seq<T>, key: T -> int, k: int)
    requires forall i :: 0 <= i < |s| ==> key(s[i]) != k
    ensures WithKey(s, key, k) == []
  {
    if s != [] { WithKeyAbsent(s[1..], key, k); }
  }

  /** Puts `x` after every element whose key is not larger than its own. */
  function Insert<T>(x: T, s: seq<T>, key: T -> int): (r: seq<T>)
    ensures |r| == |s| + 1
    ensures multiset(r) == multiset(s) + multiset{x}
  {
    if s == [] then [x]
    else if key(x) < key(s[0]) then [x] + s
    else
      assert s == [s[0]] + s[1..];
      [s[0]] + Insert(x, s[1..], key)
  }

  lemma {:induction false} InsertLowerBound<T>(x: T, s: seq<T>, key: T -> int, b: int)
    requires b <= key(x)
    requires forall i :: 0 <= i < |s| ==> b <= key(s[i])
    ensures forall i :: 0 <= i < |s| + 1 ==> b <= key(Insert(x, s, key)[i])
  {
    if s != [] && key(x) >= key(s[0]) {
      InsertLowerBound(x, s[1..], key, b);
    }
  }

  lemma {:induction false} InsertSorted<T>(x: T, s: seq<T>, key: T -> int)
    requires SortedBy(s, key)
    ensures SortedBy(Insert(x, s, key), key)
  {
    if s != [] && key(x) >= key(s[0]) {
      InsertSorted(x, s[1..], key);
      InsertLowerBound(x, s[1..], key, key(s[0]));
    }
  }

  lemma {:induction false} InsertWithKey<T>(x: T, s: seq<T>, key: T -> int, k: int)
    requires SortedBy(s, key)
    ensures WithKey(Insert(x, s, key), key, k)
         == WithKey(s, key, k) + (if key(x) == k then [x] else [])
  {
    if s == [] {
      WithKeyCons(x, [], key, k);
    } else if key(x) < key(s[0]) {
      InsertWithKeyFront(x, s, key, k);
    } else {
      SortedTail(s, key);
      InsertWithKey(x, s[1..], key, k);
      InsertWithKeyStep(x, s, key, k);
    }
  }

  lemma SortedTail<T>(s: seq<T>, key: T -> int)
    requires s != [] && SortedBy(s, key)
    ensures SortedBy(s[1..], key)
  {
    forall i, j | 0 <= i < j < |s| - 1 ensures key(s[1..][i]) <= key(s[1..][j]) {
      assert s[1..][i] == s[i + 1] && s[1..][j] == s[j + 1];
    }
  }

  /** The case of `InsertWithKey` where `x` goes first. */
  lemma InsertWithKeyFront<T>(x: T, s: seq<T>, key: T -> int, k: int)
    requires SortedBy(s, key) && s != [] && key(x) < key(s[0])
    ensures WithKey(Insert(x, s, key), key, k) == WithKey(s, key, k) + (if key(x) == k then [x] else [])
  {
    WithKeyCons(x, s, key, k);
    if key(x) == k { WithKeyAbsent(s, key, k); }
  }

  /** The step of `InsertWithKey` where `x` goes past the first element. */
  lemma InsertWithKeyStep<T>(x: T, s: seq<T>, key: T -> int, k: int)
    requires s != [] && key(x) >= key(s[0])
    requires WithKey(Insert(x, s[1..], key), key, k) == WithKey(s[1..], key, k) + (if key(x) == k then [x] else [])
    ensures WithKey(Insert(x, s, key), key, k) == WithKey(s, key, k) + (if key(x) == k then [x] else [])
  {
    var t := s[1..];
    assert s == [s[0]] + t;
    assert Insert(x, s, key) == [s[0]] + Insert(x, t, key);
    WithKeyCons(s[0], Insert(x, t, key), key, k);
    WithKeyCons(s[0], t, key, k);
    ConcatAssoc(if key(s[0]) == k then [s[0]] else [], WithKey(t, key, k), if key(x) == k then [x] else []);
  }

  lemma ConcatAssoc<T>(a: seq<T>, b: seq<T>, c: seq<T>)
    ensures a + (b + c) == (a + b) + c
  {
  }

  /** A stable sort: insertion sort that inserts each element after the equal keys before it. */
  function SortByKey<T>(s: seq<T>, key: T -> int): (r: seq<T>)
    ensures |r| == |s| && multiset(r) == multiset(s) && SortedBy(r, key)
  {
    if s == [] then []
    else
      assert s == s[..|s| - 1] + [s[|s| - 1]];
      InsertSorted(s[|s| - 1], SortByKey(s[..|s| - 1], key), key);
      Insert(s[|s| - 1], SortByKey(s[..|s| - 1], key), key)
  }

  /** Stability: for every key, the elements with that key keep their relative order. */
  lemma {:induction false} SortByKeyStable<T>(s: seq<T>, key: T -> int, k: int)
    ensures WithKey(SortByKey(s, key), key, k) == WithKey(s, key, k)
  {
    if s != [] {
      var init, last := s[..|s| - 1], s[|s| - 1];
      var sortedInit := SortByKey(init, key);
      assert s == init + [last];
      assert SortByKey(s, key) == Insert(last, sortedInit, key);
      InsertWithKey(last, sortedInit, key, k);
      SortByKeyStable(init, key, k);
      WithKeyAppend(init, [last], key, k);
      WithKeyCons(last, [], key, k);
      assert [last] + [] == [last];
    }
  }

  /** The head of a stable sort is an element with the smallest key. */
  lemma SortByKeyHead<T>(s: seq<T>, key: T -> int)
    requires s != []
    ensures SortByKey(s, key)[0] in s
    ensures forall x :: x in s ==> key(SortByKey(s, key)[0]) <= key(x)
  {
    var r := SortByKey(s, key);
    assert r[0] in multiset(r);
    forall x | x in s ensures key(r[0]) <= key(x) {
      assert x in multiset(s);
      var j :| 0 <= j < |r| && r[j] == x;
    }
  }

  /** The head of a stable sort is the first element of the input with its key. */
  lemma SortByKeyHeadFirst<T>(s: seq<T>, key: T -> int)
    requires s != []
    ensures exists i :: 0 <= i < |s| && s[i] == SortByKey(s, key)[0] && forall j :: 0 <= j < i ==> key(s[j]) != key(s[i])
  {
    var r := SortByKey(s, key);
    var k := key(r[0]);
    SortByKeyStable(s, key, k);
    assert r == [r[0]] + r[1..];
    WithKeyCons(r[0], r[1..], key, k);
    FirstWithKey(s, key, k);
  }

  /** The first element of `WithKey(s, key, k)` is the first element of `s` whose key is `k`. */
  lemma {:induction false} FirstWithKey<T>(s: seq<T>, key: T -> int, k: int)
    requires WithKey(s, key, k) != []
    ensures exists i :: 0 <= i < |s| && s[i] == WithKey(s, key, k)[0] && key(s[i]) == k
                        && forall j :: 0 <= j < i ==> key(s[j]) != k
  {
    if key(s[0]) != k {
      FirstWithKey(s[1..], key, k);
      var i :| 0 <= i < |s[1..]| && s[1..][i] == WithKey(s[1..], key, k)[0] && key(s[1..][i]) == k
               && forall j :: 0 <= j < i ==> key(s[1..][j]) != k;
      assert s[i + 1] == s[1..][i];
      forall j | 0 <= j < i + 1 ensures key(s[j]) != k {
        if j > 0 { assert s[j] == s[1..][j - 1]; }
      }
    }
  }

  predicate LexSorted(s: seq<string>) {
    forall i, j :: 0 <= i < j < |s| ==> LexLess(s[i], s[j])
  }

  /** Puts `x` before the first element that is not smaller than it. */
  function InsertLex(x: string, s: seq<string>): (r: seq<string>)
    ensures |r| == |s| + 1
    ensures forall y :: y in r <==> y == x || y in s
  {
    if s == [] then [x]
    else if LexLess(x, s[0]) then [x] + s
    else
      assert s == [s[0]] + s[1..];
      [s[0]] + InsertLex(x, s[1..])
  }

  lemma {:induction false} InsertLexLowerBound(x: string, s: seq<string>, b: string)
    requires LexLess(b, x)
    requires forall i :: 0 <= i < |s| ==> LexLess(b, s[i])
    ensures forall i :: 0 <= i < |s| + 1 ==> LexLess(b, InsertLex(x, s)[i])
  {
    if s != [] && !LexLess(x, s[0]) {
      InsertLexLowerBound(x, s[1..], b);
    }
  }

  lemma {:induction false} InsertLexSorted(x: string, s: seq<string>)
    requires LexSorted(s) && x !in s
    ensures LexSorted(InsertLex(x, s))
  {
    if s != [] {
      if LexLess(x, s[0]) {
        forall j | 0 < j < |s| ensures LexLess(x, s[j]) { LexTransitive(x, s[0], s[j]); }
      } else {
        assert x != s[0];
        LexTotal(x, s[0]);
        InsertLexSorted(x, s[1..]);
        InsertLexLowerBound(x, s[1..], s[0]);
      }
    }
  }

  /** The smallest string of a finite set. */
  ghost function LexMinOf(s: set<string>): (m: string)
    requires s != {}
    ensures m in s && forall x :: x in s ==> x == m || LexLess(m, x)
  {
    var x :| x in s;
    assert forall y :: y in s ==> y == x || y in s - {x};
    if s - {x} == {} then x
    else
      var m := LexMinOf(s - {x});
      if LexLess(x, m) then
        LexBelowAll(x, m, s - {x});
        x
      else
        LexTotal(x, m);
        m
  }

  /** A string below the smallest element of a set is below all of it. */
  lemma LexBelowAll(x: string, m: string, s: set<string>)
    requires LexLess(x, m) && forall y :: y in s ==> y == m || LexLess(m, y)
    ensures forall y :: y in s ==> LexLess(x, y)
  {
    forall y | y in s && y != m ensures LexLess(x, y) {
      LexTransitive(x, m, y);
    }
  }

  /** `sorted(s)` of a finite set of strings. */
  ghost function LexAscending(s: set<string>): (r: seq<string>)
    ensures LexSorted(r) && forall x :: x in r <==> x in s
    decreases s
  {
    if s == {} then []
    else
      var m := LexMinOf(s);
      var t := LexAscending(s - {m});
      assert forall j :: 0 <= j < |t| ==> t[j] in t;
      [m] + t
  }

  /** Two sorted sequences of strings with the same elements are the same sequence. */
  lemma {:induction false} LexSortedUnique(a: seq<string>, b: seq<string>)
    requires LexSorted(a) && LexSorted(b)
    requires forall x :: x in a <==> x in b
    ensures a == b
  {
    SameElementsEmpty(a, b);
    if a != [] {
      LexSmallestFirst(a, b[0]);
      LexSmallestFirst(b, a[0]);
      if a[0] != b[0] {
        LexAsymmetric(a[0], b[0]);
      }
      LexTailWithin(a, b);
      LexTailWithin(b, a);
      LexSortedUnique(a[1..], b[1..]);
      assert a == [a[0]] + a[1..] && b == [b[0]] + b[1..];
    }
  }

  /** The first element of a sorted sequence is at most any element of it. */
  lemma LexSmallestFirst(a: seq<string>, x: string)
    requires LexSorted(a) && x in a
    ensures x == a[0] || LexLess(a[0], x)
  {
    var j :| 0 <= j < |a| && a[j] == x;
  }

  lemma LexTailWithin(a: seq<string>, b: seq<string>)
    requires LexSorted(a) && LexSorted(b) && a != [] && b != [] && a[0] == b[0]
    requires forall x :: x in a ==> x in b
    ensures forall x :: x in a[1..] ==> x in b[1..]
  {
    forall x | x in a[1..] ensures x in b[1..] {
      var i :| 0 <= i < |a[1..]| && a[1..][i] == x;
      assert x == a[i + 1] && x in a;
      LexIrreflexive(x);
      var m :| 0 <= m < |b| && b[m] == x;
      assert m != 0 && b[1..][m - 1] == x;
    }
  }

  /** `sorted(xs)` of a set of strings. */
  method SortedStrings(xs: set<string>) returns (r: seq<string>)
    ensures r == LexAscending(xs)
  {
    r := [];
    var rest := xs;
    while rest != {}
      invariant rest <= xs
      invariant LexSorted(r)
      invariant forall y :: y in r <==> y in xs && y !in rest
      decreases |rest|
    {
      var x :| x in rest;
      InsertLexSorted(x, r);
      r := InsertLex(x, r);
      rest := rest - {x};
    }
    LexSortedUnique(r, LexAscending(xs));
  }

  predicate Increasing(s: seq<int>) {
    forall i, j :: 0 <= i < j < |s| ==> s[i] < s[j]
  }

  ghost function MinOf(s: set<nat>): (m: nat)
    requires s != {}
    ensures m in s && forall x :: x in s ==> m <= x
  {
    var x :| x in s;
    assert forall y :: y in s ==> y == x || y in s - {x};
    if s - {x} == {} then x
    else
      var m := MinOf(s - {x});
      if x <= m then x else m
  }

  /** The elements of a finite set of naturals in increasing order. */
  ghost function Ascending(s: set<nat>): (r: seq<nat>)
    ensures Increasing(r) && forall x :: x in r <==> x in s
    decreases s
  {
    if s == {} then []
    else
      var m := MinOf(s);
      [m] + Ascending(s - {m})
  }

  /** Two increasing sequences with the same elements are the same sequence. */
  lemma {:induction false} IncreasingUnique(a: seq<int>, b: seq<int>)
    requires Increasing(a) && Increasing(b)
    requires forall x :: x in a <==> x in b
    ensures a == b
  {
    SameElementsEmpty(a, b);
    if a != [] {
      SmallestFirst(a, b);
      SmallestFirst(b, a);
      TailWithin(a, b);
      TailWithin(b, a);
      IncreasingUnique(a[1..], b[1..]);
      assert a == [a[0]] + a[1..] && b == [b[0]] + b[1..];
    }
  }

  lemma SameElementsEmpty<T>(a: seq<T>, b: seq<T>)
    requires forall x :: x in a <==> x in b
    ensures a == [] <==> b == []
  {
    if a != [] {
      var x := a[0];
      assert x in a;
    }
    if b != [] {
      var x := b[0];
      assert x in b;
    }
  }

  /** The first element of an increasing sequence is at most any element of it. */
  lemma SmallestFirst(a: seq<int>, b: seq<int>)
    requires Increasing(a) && a != [] && b != [] && b[0] in a
    ensures a[0] <= b[0]
  {
    var j :| 0 <= j < |a| && a[j] == b[0];
  }

  lemma TailWithin(a: seq<int>, b: seq<int>)
    requires Increasing(a) && Increasing(b) && a != [] && b != [] && a[0] == b[0]
    requires forall x :: x in a ==> x in b
    ensures forall x :: x in a[1..] ==> x in b[1..]
  {
    forall x | x in a[1..] ensures x in b[1..] {
      var i :| 0 <= i < |a[1..]| && a[1..][i] == x;
      assert x == a[i + 1] && x in a;
      var m :| 0 <= m < |b| && b[m] == x;
      assert m != 0 && b[1..][m - 1] == x;
    }
  }

  function InsertNat(x: nat, s: seq<nat>): (r: seq<nat>)
    requires Increasing(s) && x !in s
    ensures Increasing(r) && forall y :: y in r <==> y == x || y in s
  {
    if s == [] then [x]
    else if x < s[0] then [x] + s
    else
      var t := InsertNat(x, s[1..]);
      assert forall i :: 0 <= i < |t| ==> t[i] in t;
      [s[0]] + t
  }

  /** `sorted(xs)` of a set of naturals. */
  method SortedNats(xs: set<nat>) returns (r: seq<nat>)
    ensures r == Ascending(xs)
  {
    r := [];
    var rest := xs;
    while rest != {}
      invariant rest <= xs
      invariant Increasing(r)
      invariant forall y :: y in r <==> y in xs && y !in rest
      decreases |rest|
    {
      var x :| x in rest;
      r := InsertNat(x, r);
      rest := rest - {x};
    }
    IncreasingUnique(r, Ascending(xs));
  }
}
