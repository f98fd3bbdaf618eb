/** Lexicographic order on names and sorting by name. Characters compare by code point. */
module Lexicographic {

  /** `a` sorts no later than `b`: `a` is a prefix of `b`, or the first character where they
      differ is smaller in `a`. */
  predicate NameLe(a: string, b: string)
    decreases |a|
  {
    |a| == 0 || (|b| > 0 && (a[0] < b[0] || (a[0] == b[0] && NameLe(a[1..], b[1..]))))
  }

  lemma {:induction false} NameLeTotal(a: string, b: string)
    ensures NameLe(a, b) || NameLe(b, a)
    decreases |a|
  {
    if |a| > 0 && |b| > 0 && a[0] == b[0] {
      NameLeTotal(a[1..], b[1..]);
    }
  }

  lemma {:induction false} NameLeTransitive(a: string, b: string, c: string)
    requires NameLe(a, b) && NameLe(b, c)
    ensures NameLe(a, c)
    decreases |a|
  {
    if |a| > 0 && a[0] == b[0] && b[0] == c[0] {
      NameLeTransitive(a[1..], b[1..], c[1..]);
    }
  }

  lemma {:induction false} NameLeAntisymmetric(a: string, b: string)
    requires NameLe(a, b) && NameLe(b, a)
    ensures a == b
    decreases |a|
  {
    if |a| > 0 {
      NameLeAntisymmetric(a[1..], b[1..]);
      assert a == [a[0]] + a[1..] && b == [b[0]] + b[1..];
    }
  }

  /** Every element's key sorts no later than the key of any element after it. */
  ghost predicate SortedBy<T>(xs: seq<T>, key: T -> string) {
    forall i, j :: 0 <= i < j < |xs| ==> NameLe(key(xs[i]), key(xs[j]))
  }

  /** Places `x` into the sorted `xs` before the first element whose key it does not exceed. */
  function InsertBy<T(!new)>(x: T, xs: seq<T>, key: T -> string): (r: seq<T>)
    requires SortedBy(xs, key)
    ensures SortedBy(r, key)
    ensures multiset(r) == multiset(xs) + multiset{x}
    ensures |r| == |xs| + 1
  {
    if |xs| == 0 then [x]
    else if NameLe(key(x), key(xs[0])) then
      InsertFrontSorted(x, xs, key);
      [x] + xs
    else
      NameLeTotal(key(x), key(xs[0]));
      var rest := InsertBy(x, xs[1..], key);
      assert xs == [xs[0]] + xs[1..];
      InsertBehindSorted(x, xs, rest, key);
      [xs[0]] + rest
  }

  lemma InsertFrontSorted<T>(x: T, xs: seq<T>, key: T -> string)
    requires SortedBy(xs, key) && |xs| > 0 && NameLe(key(x), key(xs[0]))
    ensures SortedBy([x] + xs, key)
  {
    var ys := [x] + xs;
    forall i, j | 0 <= i < j < |ys| ensures NameLe(key(ys[i]), key(ys[j])) {
      if i == 0 && j > 1 {
        NameLeTransitive(key(x), key(xs[0]), key(xs[j - 1]));
      }
    }
  }

  lemma InsertBehindSorted<T>(x: T, xs: seq<T>, rest: seq<T>, key: T -> string)
    requires SortedBy(xs, key) && |xs| > 0 && NameLe(key(xs[0]), key(x))
    requires SortedBy(rest, key)
    requires multiset(rest) == multiset(xs[1..]) + multiset{x}
    ensures SortedBy([xs[0]] + rest, key)
  {
    var ys := [xs[0]] + rest;
    forall i, j | 0 <= i < j < |ys| ensures NameLe(key(ys[i]), key(ys[j])) {
      if i == 0 {
        var y := rest[j - 1];
        assert y in multiset(rest);
        if y != x {
          assert y in multiset(xs[1..]);
          var k :| 0 <= k < |xs[1..]| && xs[1..][k] == y;
          assert xs[k + 1] == y;
        }
      }
    }
  }

  /** Insertion sort by key: a permutation of `xs` in ascending key order. */
  function SortBy<T(!new)>(xs: seq<T>, key: T -> string): (r: seq<T>)
    ensures SortedBy(r, key)
    ensures multiset(r) == multiset(xs)
    ensures |r| == |xs|
  {
    if |xs| == 0 then []
    else
      assert xs == [xs[0]] + xs[1..];
      InsertBy(xs[0], SortBy(xs[1..], key), key)
  }

  /** Two sequences sorted by a key in which no two different elements share a key, holding
      the same elements equally often, are equal: the sorted order is the only one. */
  lemma {:induction false} SortedPermutationUnique<T>(xs: seq<T>, ys: seq<T>, key: T -> string)
    requires SortedBy(xs, key) && SortedBy(ys, key)
    requires multiset(xs) == multiset(ys)
    requires forall a, b :: a in xs && b in xs && key(a) == key(b) ==> a == b
    ensures xs == ys
    decreases |xs|
  {
    assert |xs| == |multiset(xs)| == |multiset(ys)| == |ys|;
    if |xs| > 0 {
      SortedHeadsEqual(xs, ys, key);
      var x := xs[0];
      TailPermutation(xs, ys);
      SortedTail(xs, key);
      SortedTail(ys, key);
      forall a, b | a in xs[1..] && b in xs[1..] && key(a) == key(b) ensures a == b {
        assert a in xs && b in xs;
      }
      SortedPermutationUnique(xs[1..], ys[1..], key);
      assert xs == [x] + xs[1..] && ys == [x] + ys[1..];
    }
  }

  lemma SortedTail<T>(xs: seq<T>, key: T -> string)
    requires SortedBy(xs, key) && |xs| > 0
    ensures SortedBy(xs[1..], key)
  {
    forall i, j | 0 <= i < j < |xs[1..]| ensures NameLe(key(xs[1..][i]), key(xs[1..][j])) {
      assert xs[1..][i] == xs[i + 1] && xs[1..][j] == xs[j + 1];
    }
  }

  lemma TailPermutation<T>(xs: seq<T>, ys: seq<T>)
    requires |xs| > 0 && |ys| > 0 && xs[0] == ys[0] && multiset(xs) == multiset(ys)
    ensures multiset(xs[1..]) == multiset(ys[1..])
  {
    assert xs == [xs[0]] + xs[1..] && ys == [ys[0]] + ys[1..];
    assert multiset(xs[1..]) == multiset(xs) - multiset{xs[0]};
    assert multiset(ys[1..]) == multiset(ys) - multiset{ys[0]};
  }

  /** The first elements of two such sequences coincide: each sorts no later than the other. */
  lemma SortedHeadsEqual<T>(xs: seq<T>, ys: seq<T>, key: T -> string)
    requires SortedBy(xs, key) && SortedBy(ys, key)
    requires multiset(xs) == multiset(ys) && |xs| > 0 && |ys| > 0
    requires forall a, b :: a in xs && b in xs && key(a) == key(b) ==> a == b
    ensures xs[0] == ys[0]
  {
    var x, y := xs[0], ys[0];
    assert x in multiset(ys) && y in multiset(xs);
    var j :| 0 <= j < |ys| && ys[j] == x;
    var i :| 0 <= i < |xs| && xs[i] == y;
    if j > 0 && i > 0 {
      assert NameLe(key(y), key(x)) && NameLe(key(x), key(y));
      NameLeAntisymmetric(key(x), key(y));
      assert x in xs && y in xs;
    }
  }
}
