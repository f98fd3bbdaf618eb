/** Order-preserving filtering and per-key uniqueness over sequences of records. */
module Sequences {

  /** `ys` is obtained from `xs` by deleting elements and keeping the rest in their order. */
  predicate IsSubsequence<T(==)>(ys: seq<T>, xs: seq<T>)
    decreases |xs|
  {
    |ys| == 0 ||
    (|xs| > 0 &&
      ((ys[0] == xs[0] && IsSubsequence(ys[1..], xs[1..])) || IsSubsequence(ys, xs[1..])))
  }

  /** The elements of `xs` satisfying `keep`, in their original order. */
  function Filter<T(==,!new)>(xs: seq<T>, keep: T -> bool): (r: seq<T>)
    ensures |r| <= |xs|
    ensures forall x :: x in r <==> x in xs && keep(x)
    ensures forall x :: multiset(r)[x] == if keep(x) then multiset(xs)[x] else 0
    ensures IsSubsequence(r, xs)
  {
    if |xs| == 0 then []
    else
      var rest := Filter(xs[1..], keep);
      assert xs == [xs[0]] + xs[1..];
      if keep(xs[0]) then [xs[0]] + rest else rest
  }

  /** No two positions of `xs` carry the same key. */
  ghost predicate UniqueBy<T, K>(xs: seq<T>, key: T -> K) {
    forall i, j :: 0 <= i < |xs| && 0 <= j < |xs| && i != j ==> key(xs[i]) != key(xs[j])
  }

  /** A subsequence never holds an element more often than the sequence it came from. */
  lemma {:induction false} SubsequenceMultiset<T>(ys: seq<T>, xs: seq<T>)
    requires IsSubsequence(ys, xs)
    ensures multiset(ys) <= multiset(xs)
    decreases |xs|
  {
    if |ys| > 0 {
      assert xs == [xs[0]] + xs[1..];
      if ys[0] == xs[0] && IsSubsequence(ys[1..], xs[1..]) {
        SubsequenceMultiset(ys[1..], xs[1..]);
        assert ys == [ys[0]] + ys[1..];
      } else {
        SubsequenceMultiset(ys, xs[1..]);
      }
    }
  }

  /** Filtering a sequence whose elements all pass gives it back unchanged. */
  lemma {:induction false} FilterAllKept<T(!new)>(xs: seq<T>, keep: T -> bool)
    requires forall x :: x in xs ==> keep(x)
    ensures Filter(xs, keep) == xs
    decreases |xs|
  {
    if |xs| > 0 {
      assert xs[0] in xs;
      assert forall x :: x in xs[1..] ==> x in xs;
      FilterAllKept(xs[1..], keep);
      assert xs == [xs[0]] + xs[1..];
    }
  }

  /** Filtering twice with the same test is filtering once. */
  lemma FilterIdempotent<T(!new)>(xs: seq<T>, keep: T -> bool)
    ensures Filter(Filter(xs, keep), keep) == Filter(xs, keep)
  {
    FilterAllKept(Filter(xs, keep), keep);
  }

  /** `Filter` is the only subsequence made of kept elements that holds every kept element
      as often as the input does: the three properties pin its result down. */
  lemma {:induction false} FilterCharacterized<T(!new)>(ys: seq<T>, xs: seq<T>, keep: T -> bool)
    requires IsSubsequence(ys, xs)
    requires forall y :: y in ys ==> keep(y)
    requires forall x :: keep(x) ==> multiset(ys)[x] == multiset(xs)[x]
    ensures ys == Filter(xs, keep)
    decreases |xs|
  {
    if |xs| > 0 {
      var head, tail := xs[0], xs[1..];
      assert xs == [head] + tail;
      if keep(head) {
        assert multiset(ys)[head] > 0;
        assert |ys| > 0;
        if ys[0] == head && IsSubsequence(ys[1..], tail) {
          assert ys == [head] + ys[1..];
          forall y | y in ys[1..] ensures keep(y) {
            assert y in ys;
          }
          FilterCharacterized(ys[1..], tail, keep);
        } else {
          SubsequenceMultiset(ys, tail);
          assert false;
        }
      } else {
        assert IsSubsequence(ys, tail) by {
          if |ys| > 0 {
            assert keep(ys[0]);
          }
        }
        FilterCharacterized(ys, tail, keep);
      }
    }
  }

  /** Dropping the head of a sequence keeps its keys unique. */
  lemma TailKeepsUnique<T, K>(xs: seq<T>, key: T -> K)
    requires |xs| > 0 && UniqueBy(xs, key)
    ensures UniqueBy(xs[1..], key)
  {
    var tail := xs[1..];
    forall i, j | 0 <= i < |tail| && 0 <= j < |tail| && i != j
      ensures key(tail[i]) != key(tail[j])
    {
      assert tail[i] == xs[i + 1] && tail[j] == xs[j + 1];
    }
  }

  /** A subsequence of a sequence with unique keys has unique keys. */
  lemma {:induction false} SubsequenceKeepsUnique<T, K>(ys: seq<T>, xs: seq<T>, key: T -> K)
    requires IsSubsequence(ys, xs) && UniqueBy(xs, key)
    ensures UniqueBy(ys, key)
    decreases |xs|
  {
    if |ys| > 0 {
      var tail := xs[1..];
      TailKeepsUnique(xs, key);
      if ys[0] == xs[0] && IsSubsequence(ys[1..], tail) {
        SubsequenceKeepsUnique(ys[1..], tail, key);
        SubsequenceMultiset(ys[1..], tail);
        forall j | 0 < j < |ys|
          ensures key(ys[0]) != key(ys[j])
        {
          assert ys[j] == ys[1..][j - 1];
          assert ys[j] in multiset(tail);
          var m :| 0 <= m < |tail| && tail[m] == ys[j];
          assert xs[m + 1] == ys[j];
        }
        forall i, j | 0 <= i < |ys| && 0 <= j < |ys| && i != j
          ensures key(ys[i]) != key(ys[j])
        {
          if i > 0 && j > 0 {
            assert ys[i] == ys[1..][i - 1] && ys[j] == ys[1..][j - 1];
          }
        }
      } else {
        SubsequenceKeepsUnique(ys, tail, key);
      }
    }
  }

  /** With unique keys no element occurs twice. */
  lemma {:induction false} UniqueByOccursOnce<T, K>(xs: seq<T>, key: T -> K, x: T)
    requires UniqueBy(xs, key)
    ensures multiset(xs)[x] <= 1
    decreases |xs|
  {
    if |xs| > 0 {
      TailKeepsUnique(xs, key);
      UniqueByOccursOnce(xs[1..], key, x);
      assert xs == [xs[0]] + xs[1..];
      if xs[0] == x {
        forall m | 0 <= m < |xs[1..]| ensures xs[1..][m] != x {
          assert xs[1..][m] == xs[m + 1];
        }
      }
    }
  }

  /** In a sequence where nothing occurs twice, different positions hold different elements. */
  lemma OccursOnceDistinctPositions<T>(xs: seq<T>, i: int, j: int)
    requires forall x :: multiset(xs)[x] <= 1
    requires 0 <= i < j < |xs|
    ensures xs[i] != xs[j]
  {
    var front, back := xs[..j], xs[j..];
    assert xs == front + back;
    assert multiset(xs) == multiset(front) + multiset(back);
    assert front[i] == xs[i] && back[0] == xs[j];
    assert multiset(front)[xs[i]] >= 1 && multiset(back)[xs[j]] >= 1;
    assert multiset(xs)[xs[i]] <= 1;
    assert multiset(xs)[xs[i]] == multiset(front)[xs[i]] + multiset(back)[xs[i]];
  }

  /** Appending an element whose key is new keeps keys unique. */
  lemma AppendKeepsUnique<T, K>(xs: seq<T>, x: T, key: T -> K)
    requires UniqueBy(xs, key)
    requires forall i :: 0 <= i < |xs| ==> key(xs[i]) != key(x)
    ensures UniqueBy(xs + [x], key)
  {
    var ys := xs + [x];
    forall i, j | 0 <= i < |ys| && 0 <= j < |ys| && i != j
      ensures key(ys[i]) != key(ys[j])
    {
      if i < |xs| && j < |xs| {
        assert ys[i] == xs[i] && ys[j] == xs[j];
      }
    }
  }
}
