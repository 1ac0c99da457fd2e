/**
 * Stable sorting of index lists.  A stable sort by `key` of a list of indices given in
 * increasing order yields the list ordered by (key[x], x); that order is what `LexLe` states.
 */
module Ordering {

  /** `x` comes no later than `y`: smaller key first, equal keys in input (index) order. */
  predicate LexLe(key: seq<int>, x: nat, y: nat)
    requires x < |key| && y < |key|
  {
    key[x] < key[y] || (key[x] == key[y] && x <= y)
  }

  /** Every element indexes `key`, and the elements are in `LexLe` order. */
  ghost predicate SortedBy(key: seq<int>, s: seq<nat>) {
    && (forall k :: 0 <= k < |s| ==> s[k] < |key|)
    && (forall p, q :: 0 <= p < q < |s| ==> LexLe(key, s[p], s[q]))
  }

  ghost predicate Distinct(s: seq<nat>) {
    forall p, q :: 0 <= p < q < |s| ==> s[p] != s[q]
  }

  /** The indices 0, 1, …, n-1 in increasing order. */
  function Iota(n: nat): (s: seq<nat>)
    ensures |s| == n
    ensures forall k :: 0 <= k < n ==> s[k] == k
  {
    seq(n, k requires 0 <= k => k as nat)
  }

  /** Strictly increasing: in index order, each index once. */
  predicate Increasing(s: seq<nat>) {
    forall p, q :: 0 <= p < q < |s| ==> s[p] < s[q]
  }

  /** Elements of equal key appear in `sorted` in the order they have in `input`. */
  predicate KeepsTies(key: seq<int>, input: seq<nat>, sorted: seq<nat>) {
    forall p, q, i, j ::
      (0 <= p < q < |sorted| && 0 <= i < |input| && 0 <= j < |input| &&
       sorted[p] == input[i] && sorted[q] == input[j] && sorted[p] < |key| && sorted[q] < |key| &&
       key[sorted[p]] == key[sorted[q]]) ==> i < j
  }

  /** Sorting an increasing index list by (key, index) is stable. */
  lemma SortedIncreasingIsStable(key: seq<int>, input: seq<nat>, sorted: seq<nat>)
    requires Increasing(input)
    requires SortedBy(key, sorted) && multiset(sorted) == multiset(input)
    ensures KeepsTies(key, input, sorted)
  {
    forall p, q, i, j |
      0 <= p < q < |sorted| && 0 <= i < |input| && 0 <= j < |input| &&
      sorted[p] == input[i] && sorted[q] == input[j] && sorted[p] < |key| && sorted[q] < |key| &&
      key[sorted[p]] == key[sorted[q]]
      ensures i < j
    {
      if sorted[p] == sorted[q] {
        TwiceCounted(sorted, p, q);
        OnceCounted(input, i);
        assert false;
      }
      assert LexLe(key, sorted[p], sorted[q]);
      assert input[i] < input[j];
    }
  }

  /** An element of an increasing list is counted once. */
  lemma OnceCounted(s: seq<nat>, i: nat)
    requires Increasing(s) && i < |s|
    ensures multiset(s)[s[i]] == 1
  {
    assert s == s[..i] + [s[i]] + s[i + 1..];
    assert s[i] !in s[..i];
    assert s[i] !in s[i + 1..];
  }

  /** A permutation of 0..n-1: the same multiset of elements as Iota(n). */
  ghost predicate IsPermutationOfIndices(s: seq<nat>, n: nat) {
    multiset(s) == multiset(Iota(n))
  }

  /**
   * In-place insertion sort by adjacent swaps.  Each pass moves the next element left past
   * every element that must come after it; elements that tie under the key are never
   * swapped past each other unless the index order demands it, which is the stable order.
   */
  method SortByKey(a: array<nat>, key: seq<int>)
    requires forall k :: 0 <= k < a.Length ==> a[k] < |key|
    modifies a
    ensures SortedBy(key, a[..])
    ensures multiset(a[..]) == old(multiset(a[..]))
  {
    for i := 0 to a.Length
      invariant forall k :: 0 <= k < a.Length ==> a[k] < |key|
      invariant forall p, q :: 0 <= p < q < i ==> LexLe(key, a[p], a[q])
      invariant multiset(a[..]) == old(multiset(a[..]))
    {
      InsertLeft(a, key, i);
    }
  }

  /** One pass of the insertion sort: moves a[i] left into place within the sorted prefix a[..i]. */
  method InsertLeft(a: array<nat>, key: seq<int>, i: nat)
    requires i < a.Length
    requires forall k :: 0 <= k < a.Length ==> a[k] < |key|
    requires forall p, q :: 0 <= p < q < i ==> LexLe(key, a[p], a[q])
    modifies a
    ensures forall k :: 0 <= k < a.Length ==> a[k] < |key|
    ensures forall p, q :: 0 <= p < q <= i ==> LexLe(key, a[p], a[q])
    ensures multiset(a[..]) == old(multiset(a[..]))
  {
    var j := i;
    while 0 < j && !LexLe(key, a[j - 1], a[j])
      invariant 0 <= j <= i
      invariant forall k :: 0 <= k < a.Length ==> a[k] < |key|
      invariant forall p, q :: 0 <= p < q <= i && q != j ==> LexLe(key, a[p], a[q])
      invariant multiset(a[..]) == old(multiset(a[..]))
    {
      a[j - 1], a[j] := a[j], a[j - 1];
      j := j - 1;
    }
  }

  /** The tail of a sorted list is sorted. */
  lemma SortedTail(key: seq<int>, s: seq<nat>)
    requires SortedBy(key, s) && s != []
    ensures SortedBy(key, s[1..])
  {
    forall p, q | 0 <= p < q < |s| - 1 ensures LexLe(key, s[1..][p], s[1..][q]) {
      assert s[1..][p] == s[p + 1] && s[1..][q] == s[q + 1];
    }
  }

  /** Two sorted lists with the same elements start with the same element. */
  lemma SortedSameHead(key: seq<int>, s: seq<nat>, t: seq<nat>)
    requires SortedBy(key, s) && SortedBy(key, t)
    requires multiset(s) == multiset(t) && s != [] && t != []
    ensures s[0] == t[0]
  {
    assert s[0] in multiset(t);
    var m :| 0 <= m < |t| && t[m] == s[0];
    assert t[0] in multiset(s);
    var k :| 0 <= k < |s| && s[k] == t[0];
    assert k == 0 || LexLe(key, s[0], s[k]);
    assert m == 0 || LexLe(key, t[0], t[m]);
  }

  /** Two lists with the same elements, both sorted by the same key, are equal. */
  lemma {:induction false} SortedUnique(key: seq<int>, s: seq<nat>, t: seq<nat>)
    requires SortedBy(key, s) && SortedBy(key, t)
    requires multiset(s) == multiset(t)
    ensures s == t
    decreases |s|
  {
    assert |t| == |multiset(t)| == |multiset(s)| == |s|;
    if s != [] {
      SortedSameHead(key, s, t);
      assert s == [s[0]] + s[1..];
      assert t == [t[0]] + t[1..];
      assert multiset(s) == multiset{s[0]} + multiset(s[1..]);
      assert multiset(t) == multiset{t[0]} + multiset(t[1..]);
      assert multiset(s[1..]) == multiset(s) - multiset{s[0]};
      assert multiset(t[1..]) == multiset(t) - multiset{t[0]};
      SortedTail(key, s);
      SortedTail(key, t);
      SortedUnique(key, s[1..], t[1..]);
    }
  }

  /** Iota(n) is Iota(n - 1) with n - 1 added. */
  lemma IotaSnoc(n: nat)
    requires n > 0
    ensures multiset(Iota(n)) == multiset(Iota(n - 1)) + multiset{Iota(n)[n - 1]}
  {
    assert Iota(n) == Iota(n - 1) + [Iota(n)[n - 1]];
  }

  /** Iota(n) holds each index below n exactly once. */
  lemma {:induction false} IotaMultiplicity(n: nat, x: nat)
    ensures multiset(Iota(n))[x] == if x < n then 1 else 0
  {
    if n == 0 {
      assert Iota(0) == [];
    } else {
      IotaMultiplicity(n - 1, x);
      IotaSnoc(n);
    }
  }

  /** An element that occurs at two positions is counted twice. */
  lemma TwiceCounted(s: seq<nat>, p: nat, q: nat)
    requires p < q < |s| && s[p] == s[q]
    ensures multiset(s)[s[p]] >= 2
  {
    assert s == s[..q] + [s[q]] + s[q + 1..];
    assert s[..q][p] == s[p];
    assert s[p] in multiset(s[..q]);
  }

  /** A permutation of 0..n-1 has length n, elements below n, no repeats, and every index. */
  lemma PermutationOfIndicesFacts(s: seq<nat>, n: nat)
    requires IsPermutationOfIndices(s, n)
    ensures |s| == n
    ensures forall k :: 0 <= k < |s| ==> s[k] < n
    ensures Distinct(s)
    ensures forall x :: 0 <= x < n ==> x in s
  {
    assert |s| == |multiset(s)| == |multiset(Iota(n))| == n;
    forall k | 0 <= k < |s| ensures s[k] < n {
      assert s[k] in multiset(s);
      IotaMultiplicity(n, s[k]);
    }
    forall p, q | 0 <= p < q < |s| ensures s[p] != s[q] {
      if s[p] == s[q] {
        TwiceCounted(s, p, q);
        IotaMultiplicity(n, s[p]);
        assert false;
      }
    }
    forall x | 0 <= x < n ensures x in s {
      IotaMultiplicity(n, x);
      assert x in multiset(s);
    }
  }
}
