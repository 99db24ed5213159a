/**
  What `qsort` gives its callers: a sorted permutation. The C library's own
  algorithm is not part of this model; insertion stands in for it, and nothing
  but the contract of `SortBy` is used.
 */
module Sorting {

  ghost predicate IsSorted<T>(s: seq<T>, key: T -> real) {
    forall i, j :: 0 <= i < j < |s| ==> key(s[i]) <= key(s[j])
  }

  function Insert<T>(x: T, s: seq<T>, key: T -> real): (r: seq<T>)
    ensures multiset(r) == multiset([x]) + multiset(s)
  {
    if s == [] || key(x) <= key(s[0]) then [x] + s
    else
      assert s == [s[0]] + s[1..];
      [s[0]] + Insert(x, s[1..], key)
  }

  lemma {:induction false} InsertSorted<T>(x: T, s: seq<T>, key: T -> real)
    requires IsSorted(s, key)
    ensures IsSorted(Insert(x, s, key), key)
  {
    if s == [] || key(x) <= key(s[0]) {
    } else {
      var rest := Insert(x, s[1..], key);
      InsertSorted(x, s[1..], key);
      forall i | 0 <= i < |rest| ensures key(s[0]) <= key(rest[i]) {
        assert rest[i] in multiset(rest);
        assert rest[i] == x || rest[i] in s[1..];
      }
    }
  }

  function SortBy<T>(s: seq<T>, key: T -> real): (r: seq<T>)
    ensures IsSorted(r, key)
    ensures multiset(r) == multiset(s) && |r| == |s|
  {
    if s == [] then []
    else
      var rest := SortBy(s[1..], key);
      var r := Insert(s[0], rest, key);
      assert s == [s[0]] + s[1..];
      InsertSorted(s[0], rest, key);
      assert |r| == |multiset(r)| == |multiset(s)| == |s|;
      r
  }

  function Sum<T>(s: seq<T>, f: T -> int): int {
    if s == [] then 0 else f(s[0]) + Sum(s[1..], f)
  }

  lemma {:induction false} SumAppend<T>(a: seq<T>, b: seq<T>, f: T -> int)
    ensures Sum(a + b, f) == Sum(a, f) + Sum(b, f)
  {
    if a == [] {
      assert a + b == b;
    } else {
      assert (a + b)[1..] == a[1..] + b;
      SumAppend(a[1..], b, f);
    }
  }

  function TakeOut<T>(s: seq<T>, k: nat): seq<T>
    requires k < |s|
  {
    s[..k] + s[k + 1..]
  }

  lemma TakeOutMultiset<T>(s: seq<T>, k: nat)
    requires k < |s|
    ensures multiset(TakeOut(s, k)) == multiset(s) - multiset{s[k]}
  {
    assert s == s[..k] + ([s[k]] + s[k + 1..]);
  }

  lemma {:induction false} TakeOutSum<T>(s: seq<T>, k: nat, f: T -> int)
    requires k < |s|
    ensures Sum(s, f) == f(s[k]) + Sum(TakeOut(s, k), f)
  {
    if k == 0 {
      assert TakeOut(s, 0) == s[1..];
    } else {
      assert TakeOut(s, k)[1..] == TakeOut(s[1..], k - 1);
      TakeOutSum(s[1..], k - 1, f);
    }
  }

  lemma FirstElsewhere<T>(a: seq<T>, b: seq<T>) returns (k: nat)
    requires multiset(a) == multiset(b) && a != []
    ensures k < |b| && b[k] == a[0] && multiset(a[1..]) == multiset(TakeOut(b, k))
  {
    assert a[0] in multiset(b);
    k :| 0 <= k < |b| && b[k] == a[0];
    TakeOutMultiset(a, 0);
    TakeOutMultiset(b, k);
    assert TakeOut(a, 0) == a[1..];
  }

  /** A sum does not depend on the order of its terms. */
  lemma {:induction false} SumPermutation<T>(a: seq<T>, b: seq<T>, f: T -> int)
    requires multiset(a) == multiset(b)
    ensures Sum(a, f) == Sum(b, f)
    decreases |a|
  {
    if a == [] {
      assert |multiset(b)| == 0;
    } else {
      var k := FirstElsewhere(a, b);
      SumPermutation(a[1..], TakeOut(b, k), f);
      TakeOutSum(b, k, f);
    }
  }
}
