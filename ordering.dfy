/** Python's ordering of strings (code point by code point) and the
    library sort `sorted(...)` / `list.sort(key=..., reverse=...)` over it. */
module Ordering {

  /** `a < b` on Python strings. */
  predicate LexLess(a: string, b: string)
  {
    if a == [] then b != []
    else if b == [] then false
    else if a[0] != b[0] then a[0] < b[0]
    else LexLess(a[1..], b[1..])
  }

  lemma {:induction false} LexIrreflexive(a: string)
    ensures !LexLess(a, a)
  {
    if a != [] { LexIrreflexive(a[1..]); }
  }

  lemma {:induction false} LexTransitive(a: string, b: string, c: string)
    requires LexLess(a, b) && LexLess(b, c)
    ensures LexLess(a, c)
  {
    if a != [] && b != [] && c != [] && a[0] == b[0] && b[0] == c[0] {
      LexTransitive(a[1..], b[1..], c[1..]);
    }
  }

  /** Any two different strings are ordered one way or the other. */
  lemma {:induction false} LexTotal(a: string, b: string)
    ensures a == b || LexLess(a, b) || LexLess(b, a)
  {
    if a != [] && b != [] && a[0] == b[0] {
      LexTotal(a[1..], b[1..]);
      if a[1..] == b[1..] {
        assert a == [a[0]] + a[1..] && b == [b[0]] + b[1..];
      }
    }
  }

  lemma {:induction false} LexAsymmetric(a: string, b: string)
    requires LexLess(a, b)
    ensures !LexLess(b, a)
  {
    if a != [] && b != [] && a[0] == b[0] {
      LexAsymmetric(a[1..], b[1..]);
    }
  }

  /** `x` must come strictly before `y` in the sort (ascending, or
      descending when `descending`, by `key`). */
  predicate Precedes<T>(x: T, y: T, key: T -> string, descending: bool) {
    if descending then LexLess(key(y), key(x)) else LexLess(key(x), key(y))
  }

  /** Every pair is in order: no element must come strictly before an
      earlier one. */
  predicate SortedBy<T>(s: seq<T>, key: T -> string, descending: bool) {
    forall i, j :: 0 <= i < j < |s| ==> !Precedes(s[j], s[i], key, descending)
  }

  lemma PrecedesAsymmetric<T>(x: T, y: T, key: T -> string, descending: bool)
    requires Precedes(x, y, key, descending)
    ensures !Precedes(y, x, key, descending)
  {
    if descending { LexAsymmetric(key(y), key(x)); } else { LexAsymmetric(key(x), key(y)); }
  }

  lemma NotPrecedesTransitive<T>(x: T, y: T, z: T, key: T -> string, descending: bool)
    requires !Precedes(y, x, key, descending) && !Precedes(z, y, key, descending)
    ensures !Precedes(z, x, key, descending)
  {
    LexTotal(key(x), key(y));
    LexTotal(key(y), key(z));
    if Precedes(z, x, key, descending) {
      if descending {
        if key(x) != key(y) && key(y) != key(z) { LexTransitive(key(z), key(y), key(x)); }
        LexIrreflexive(key(x));
        if LexLess(key(x), key(z)) && key(y) != key(z) { LexTransitive(key(x), key(z), key(y)); LexAsymmetric(key(x), key(y)); }
        if LexLess(key(x), key(z)) && key(x) != key(y) { LexTransitive(key(y), key(x), key(z)); LexAsymmetric(key(y), key(z)); }
      } else {
        if key(x) != key(y) && key(y) != key(z) { LexTransitive(key(x), key(y), key(z)); }
        LexIrreflexive(key(x));
        if LexLess(key(z), key(x)) && key(y) != key(z) { LexTransitive(key(y), key(z), key(x)); LexAsymmetric(key(y), key(x)); }
        if LexLess(key(z), key(x)) && key(x) != key(y) { LexTransitive(key(z), key(x), key(y)); LexAsymmetric(key(z), key(y)); }
      }
    }
  }

  function Insert<T>(x: T, s: seq<T>, key: T -> string, descending: bool): (r: seq<T>)
    requires SortedBy(s, key, descending)
    ensures multiset(r) == multiset(s) + multiset{x}
    ensures SortedBy(r, key, descending)
  {
    if s == [] then [x]
    else if Precedes(s[0], x, key, descending) then
      var rest := Insert(x, s[1..], key, descending);
      HeadBeforeRest(x, s, rest, key, descending);
      ConsSorted(s[0], rest, key, descending);
      assert s == [s[0]] + s[1..];
      [s[0]] + rest
    else
      forall j | 0 < j < |s| ensures !Precedes(s[j], x, key, descending) {
        NotPrecedesTransitive(x, s[0], s[j], key, descending);
      }
      ConsSorted(x, s, key, descending);
      [x] + s
  }

  /** Putting in front an element that nothing must precede keeps a
      sequence sorted. */
  lemma ConsSorted<T>(h: T, t: seq<T>, key: T -> string, descending: bool)
    requires SortedBy(t, key, descending)
    requires forall j :: 0 <= j < |t| ==> !Precedes(t[j], h, key, descending)
    ensures SortedBy([h] + t, key, descending)
  {
    var r := [h] + t;
    forall i, j | 0 <= i < j < |r| ensures !Precedes(r[j], r[i], key, descending) {
      assert r[j] == t[j - 1];
      if i > 0 {
        assert r[i] == t[i - 1];
      }
    }
  }

  lemma HeadBeforeRest<T>(x: T, s: seq<T>, rest: seq<T>, key: T -> string, descending: bool)
    requires SortedBy(s, key, descending) && s != [] && Precedes(s[0], x, key, descending)
    requires multiset(rest) == multiset(s[1..]) + multiset{x}
    ensures forall j :: 0 <= j < |rest| ==> !Precedes(rest[j], s[0], key, descending)
  {
    PrecedesAsymmetric(s[0], x, key, descending);
    forall j | 0 <= j < |rest| ensures !Precedes(rest[j], s[0], key, descending) {
      assert rest[j] in multiset(rest);
      if rest[j] != x {
        assert rest[j] in multiset(s[1..]);
        var k :| 0 <= k < |s[1..]| && s[1..][k] == rest[j];
        assert s[k + 1] == rest[j];
      }
    }
  }

  /** The library sort: an ordered permutation of its input. */
  function SortBy<T>(s: seq<T>, key: T -> string, descending: bool): (r: seq<T>)
    ensures multiset(r) == multiset(s)
    ensures SortedBy(r, key, descending)
  {
    if s == [] then []
    else
      var r := Insert(s[0], SortBy(s[1..], key, descending), key, descending);
      assert s == [s[0]] + s[1..];
      r
  }

  function Identity(s: string): string { s }

  /** `sorted(xs)` for a list of strings. */
  function Sorted(xs: seq<string>): (r: seq<string>)
    ensures multiset(r) == multiset(xs)
    ensures forall i, j :: 0 <= i < j < |r| ==> !LexLess(r[j], r[i])
  {
    SortBy(xs, Identity, false)
  }

  /** Sorting keeps exactly the members of the list. */
  lemma SortedMembers(xs: seq<string>, x: string)
    ensures x in Sorted(xs) <==> x in xs
  {
    assert x in Sorted(xs) <==> x in multiset(Sorted(xs));
    assert x in xs <==> x in multiset(xs);
  }

  /** Sorting distinct strings gives a strictly increasing sequence. */
  lemma SortedDistinctIsStrict(xs: seq<string>)
    requires forall i, j :: 0 <= i < j < |xs| ==> xs[i] != xs[j]
    ensures forall i, j :: 0 <= i < j < |Sorted(xs)| ==> LexLess(Sorted(xs)[i], Sorted(xs)[j])
  {
    var r := Sorted(xs);
    forall i, j | 0 <= i < j < |r| ensures LexLess(r[i], r[j]) {
      DistinctPermutation(xs, r, i, j);
      LexTotal(r[i], r[j]);
    }
  }

  lemma DistinctPermutation(xs: seq<string>, r: seq<string>, i: nat, j: nat)
    requires forall a, b :: 0 <= a < b < |xs| ==> xs[a] != xs[b]
    requires multiset(r) == multiset(xs)
    requires i < j < |r|
    ensures r[i] != r[j]
  {
    if r[i] == r[j] {
      assert multiset(r)[r[i]] >= 2 by {
        assert r == r[..i] + [r[i]] + r[i + 1..j] + [r[j]] + r[j + 1..];
      }
      DistinctCount(xs, r[i]);
      assert false;
    }
  }

  lemma {:induction false} DistinctCount(xs: seq<string>, x: string)
    requires forall a, b :: 0 <= a < b < |xs| ==> xs[a] != xs[b]
    ensures multiset(xs)[x] <= 1
  {
    if xs != [] {
      DistinctCount(xs[1..], x);
      assert xs == [xs[0]] + xs[1..];
      if xs[0] == x {
        assert x !in xs[1..];
      }
    }
  }

  predicate StrictlyIncreasing(xs: seq<string>) {
    forall i, j :: 0 <= i < j < |xs| ==> LexLess(xs[i], xs[j])
  }

  lemma FirstIsMember(ys: seq<string>)
    requires ys != []
    ensures ys[0] in ys
  {
  }

  /** A set of strings has only one strictly increasing arrangement, so
      sorting it does not depend on the order it was listed in. */
  lemma {:induction false} StrictlyIncreasingUnique(xs: seq<string>, ys: seq<string>)
    requires StrictlyIncreasing(xs) && StrictlyIncreasing(ys)
    requires forall x :: x in xs <==> x in ys
    ensures xs == ys
  {
    if xs == [] {
      if ys != [] {
        FirstIsMember(ys);
        assert false;
      }
    } else {
      assert xs[0] in ys;
      if xs[0] != ys[0] {
        assert ys[0] in xs;
        var k :| 0 <= k < |xs| && xs[k] == ys[0];
        var m :| 0 <= m < |ys| && ys[m] == xs[0];
        LexAsymmetric(xs[0], ys[0]);
        assert false;
      }
      forall x ensures x in xs[1..] <==> x in ys[1..] {
        if x in xs[1..] {
          var k :| 1 <= k < |xs| && xs[k] == x;
          assert LexLess(xs[0], xs[k]);
          LexIrreflexive(x);
          assert x in ys;
          var m :| 0 <= m < |ys| && ys[m] == x;
          assert m != 0;
          assert ys[1..][m - 1] == x;
        }
        if x in ys[1..] {
          var k :| 1 <= k < |ys| && ys[k] == x;
          assert LexLess(ys[0], ys[k]);
          LexIrreflexive(x);
          assert x in xs;
          var m :| 0 <= m < |xs| && xs[m] == x;
          assert m != 0;
          assert xs[1..][m - 1] == x;
        }
      }
      StrictlyIncreasingUnique(xs[1..], ys[1..]);
    }
  }
}
