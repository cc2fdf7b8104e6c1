/** The order of JavaScript strings and Array.prototype.sort by such a key. */
module Sorting {
  import opened Text

  /** a <= b, unit by unit. */
  predicate Le(a: Str, b: Str) {
    a == [] || (b != [] && (a[0] < b[0] || (a[0] == b[0] && Le(a[1..], b[1..]))))
  }

  lemma {:induction false} LeTotal(a: Str, b: Str)
    ensures Le(a, b) || Le(b, a)
  {
    if a != [] && b != [] && a[0] == b[0] {
      LeTotal(a[1..], b[1..]);
    }
  }

  lemma {:induction false} LeTransitive(a: Str, b: Str, c: Str)
    requires Le(a, b) && Le(b, c)
    ensures Le(a, c)
  {
    if a != [] && a[0] == b[0] == c[0] {
      LeTransitive(a[1..], b[1..], c[1..]);
    }
  }

  lemma {:induction false} LeAntisymmetric(a: Str, b: Str)
    requires Le(a, b) && Le(b, a)
    ensures a == b
  {
    if a != [] && b != [] {
      LeAntisymmetric(a[1..], b[1..]);
      assert a == [a[0]] + a[1..] && b == [b[0]] + b[1..];
    }
  }

  /** The first difference decides, and a prefix comes first. */
  lemma {:induction false} LeExactly(a: Str, b: Str)
    ensures Le(a, b) <==> a <= b || exists k :: 0 <= k < |a| && k < |b| && a[..k] == b[..k] && a[k] < b[k]
    decreases |a|
  {
    if a == [] {
    } else if b == [] {
    } else if a[0] == b[0] {
      var x, y := a[1..], b[1..];
      LeExactly(x, y);
      assert a == [a[0]] + x && b == [b[0]] + y;
      forall k | 0 <= k < |x| && k < |y| ensures x[..k] == y[..k] <==> a[..k + 1] == b[..k + 1] {
        assert a[..k + 1] == [a[0]] + x[..k] && b[..k + 1] == [b[0]] + y[..k];
        assert a[..k + 1][1..] == x[..k] && b[..k + 1][1..] == y[..k];
      }
      if k :| 0 <= k < |x| && k < |y| && x[..k] == y[..k] && x[k] < y[k] {
        assert a[k + 1] < b[k + 1];
      }
      if k :| 0 <= k < |a| && k < |b| && a[..k] == b[..k] && a[k] < b[k] {
        assert x[k - 1] < y[k - 1];
        assert a[..(k - 1) + 1] == a[..k];
      }
    } else if a[0] < b[0] {
      assert a[..0] == b[..0];
    } else {
      forall k | 1 <= k < |a| && k < |b| ensures a[..k] != b[..k] {
        assert a[..k][0] == a[0] && b[..k][0] == b[0];
      }
    }
  }

  /** Neighbours are in order. */
  predicate SortedBy<T>(s: seq<T>, key: T -> Str) {
    |s| >= 2 ==> Le(key(s[0]), key(s[1])) && SortedBy(s[1..], key)
  }

  /** So any two elements are. */
  lemma {:induction false} SortedPairwise<T>(s: seq<T>, key: T -> Str, i: nat, j: nat)
    requires SortedBy(s, key) && i < j < |s|
    ensures Le(key(s[i]), key(s[j]))
    decreases |s|
  {
    if i > 0 {
      SortedPairwise(s[1..], key, i - 1, j - 1);
    } else if j > 1 {
      SortedPairwise(s[1..], key, 0, j - 1);
      LeTransitive(key(s[0]), key(s[1]), key(s[j]));
    }
  }

  function Insert<T>(x: T, s: seq<T>, key: T -> Str): (r: seq<T>)
    ensures multiset(r) == multiset{x} + multiset(s)
    ensures |r| == |s| + 1
  {
    if s == [] then [x]
    else if Le(key(x), key(s[0])) then [x] + s
    else
      assert s == [s[0]] + s[1..];
      [s[0]] + Insert(x, s[1..], key)
  }

  function Sort<T>(s: seq<T>, key: T -> Str): (r: seq<T>)
    ensures multiset(r) == multiset(s)
    ensures |r| == |s|
  {
    if s == [] then []
    else
      assert s == [s[0]] + s[1..];
      Insert(s[0], Sort(s[1..], key), key)
  }

  lemma {:induction false} InsertSorted<T>(x: T, s: seq<T>, key: T -> Str)
    requires SortedBy(s, key)
    ensures SortedBy(Insert(x, s, key), key)
    decreases |s|
  {
    var r := Insert(x, s, key);
    if s == [] {
    } else if Le(key(x), key(s[0])) {
      assert r[1..] == s;
    } else {
      LeTotal(key(x), key(s[0]));
      InsertSorted(x, s[1..], key);
      assert r[1..] == Insert(x, s[1..], key);
    }
  }

  lemma {:induction false} SortSorted<T>(s: seq<T>, key: T -> Str)
    ensures SortedBy(Sort(s, key), key)
    decreases |s|
  {
    if s == [] {
    } else {
      SortSorted(s[1..], key);
      InsertSorted(s[0], Sort(s[1..], key), key);
    }
  }
}
