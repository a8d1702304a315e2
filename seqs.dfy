/** Sequence operations that the search history is built from: the array
    `filter` that drops every element with a given key, the `slice(0, n)`
    that caps a list, and the "no two elements share a key" invariant. */
module Seqs {

  /** The elements of `s` whose key differs from `k`, in their original order:
      `s.filter(x => key(x) !== k)`. */
  function Exclude<T, K(==)>(s: seq<T>, key: T -> K, k: K): (r: seq<T>)
    ensures |r| <= |s|
    ensures forall x :: x in r ==> x in s && key(x) != k
    ensures forall x :: x in s && key(x) != k ==> x in r
  {
    if s == [] then []
    else
      assert s == [s[0]] + s[1..];
      if key(s[0]) == k then Exclude(s[1..], key, k)
      else [s[0]] + Exclude(s[1..], key, k)
  }

  /** `s.slice(0, n)`: the first `n` elements, or all of `s` when it is shorter. */
  function Take<T>(s: seq<T>, n: nat): (r: seq<T>)
    ensures |r| == if |s| <= n then |s| else n
    ensures r == s[..|r|]
  {
    if |s| <= n then s else s[..n]
  }

  /** No two positions of `s` carry the same key. */
  ghost predicate DistinctKeys<T, K>(s: seq<T>, key: T -> K) {
    forall i, j :: 0 <= i < j < |s| ==> key(s[i]) != key(s[j])
  }

  /** Filtering distributes over concatenation: it keeps the relative order
      of the survivors, taken one part at a time. */
  lemma {:induction false} ExcludeAppend<T, K>(a: seq<T>, b: seq<T>, key: T -> K, k: K)
    ensures Exclude(a + b, key, k) == Exclude(a, key, k) + Exclude(b, key, k)
  {
    if a == [] {
      assert a + b == b;
    } else {
      assert (a + b)[0] == a[0];
      assert (a + b)[1..] == a[1..] + b;
      ExcludeAppend(a[1..], b, key, k);
    }
  }

  /** Filtering changes nothing exactly when no element carries the key,
      and it shortens the sequence exactly when some element does. */
  lemma {:induction false} ExcludeNoMatch<T, K>(s: seq<T>, key: T -> K, k: K)
    ensures Exclude(s, key, k) == s <==> forall x :: x in s ==> key(x) != k
    ensures |Exclude(s, key, k)| == |s| <==> forall x :: x in s ==> key(x) != k
  {
    if s != [] {
      assert s == [s[0]] + s[1..];
      ExcludeNoMatch(s[1..], key, k);
    }
  }

  /** A sequence whose keys are distinct stays so when an element whose key
      is new is put in front of it. */
  lemma ConsDistinct<T, K>(x: T, s: seq<T>, key: T -> K)
    requires DistinctKeys(s, key)
    requires forall y :: y in s ==> key(y) != key(x)
    ensures DistinctKeys([x] + s, key)
  {
    var r := [x] + s;
    forall i, j | 0 <= i < j < |r|
      ensures key(r[i]) != key(r[j])
    {
      assert r[j] == s[j - 1];
      if i > 0 {
        assert r[i] == s[i - 1];
      }
    }
  }

  /** Filtering by one key keeps every other key distinct. */
  lemma {:induction false} ExcludeKeepsDistinct<T, K, J>(s: seq<T>, key: T -> K, k: K, f: T -> J)
    requires DistinctKeys(s, f)
    ensures DistinctKeys(Exclude(s, key, k), f)
  {
    if s != [] {
      var tail := s[1..];
      assert DistinctKeys(tail, f) by {
        forall i, j | 0 <= i < j < |tail|
          ensures f(tail[i]) != f(tail[j])
        {
          assert tail[i] == s[i + 1] && tail[j] == s[j + 1];
        }
      }
      ExcludeKeepsDistinct(tail, key, k, f);
      if key(s[0]) != k {
        var rest := Exclude(tail, key, k);
        forall y | y in rest
          ensures f(y) != f(s[0])
        {
          var m :| 0 <= m < |tail| && tail[m] == y;
          assert s[m + 1] == y;
        }
        ConsDistinct(s[0], rest, f);
      }
    }
  }

  /** A prefix of a sequence with distinct keys has distinct keys. */
  lemma TakeKeepsDistinct<T, K>(s: seq<T>, n: nat, key: T -> K)
    requires DistinctKeys(s, key)
    ensures DistinctKeys(Take(s, n), key)
  {
    var r := Take(s, n);
    forall i, j | 0 <= i < j < |r|
      ensures key(r[i]) != key(r[j])
    {
      assert r[i] == s[i] && r[j] == s[j];
    }
  }

  /** Capping a list that has an element in front keeps that element and
      caps the rest one shorter. */
  lemma TakeCons<T>(x: T, s: seq<T>, n: nat)
    ensures Take([x] + s, n + 1) == [x] + Take(s, n)
  {
    if |s| > n {
      assert ([x] + s)[..n + 1] == [x] + s[..n];
    }
  }
}
