/** A reference notion of "the sorted arrangement" of a list of samples and
    of counting samples by value, against which the in-place exchange sort
    of the median computation is judged. */
module Sorting {
  import opened ImageConstants

  /** Non-decreasing order. */
  ghost predicate Sorted(s: seq<byte>) {
    forall p, q :: 0 <= p < q < |s| ==> s[p] <= s[q]
  }

  /** Places `x` in front of the first element not smaller than it. */
  function Insert(x: byte, s: seq<byte>): (r: seq<byte>)
    requires Sorted(s)
    ensures Sorted(r)
    ensures multiset(r) == multiset(s) + multiset{x}
    ensures |r| == |s| + 1
  {
    if |s| == 0 || x <= s[0] then [x] + s
    else
      var r' := Insert(x, s[1..]);
      LowerBound(s[0], r', s[1..], x);
      assert s == [s[0]] + s[1..];
      [s[0]] + r'
  }

  /** A bound below every sample of `s` and below `x` is below every sample
      of any arrangement of `s` plus `x`. */
  lemma LowerBound(v: byte, r: seq<byte>, s: seq<byte>, x: byte)
    requires multiset(r) == multiset(s) + multiset{x}
    requires v <= x && forall k :: 0 <= k < |s| ==> v <= s[k]
    ensures forall k :: 0 <= k < |r| ==> v <= r[k]
  {
    forall k | 0 <= k < |r|
      ensures v <= r[k]
    {
      assert r[k] in multiset(r);
      if r[k] != x {
        assert r[k] in multiset(s);
        assert r[k] in s;
      }
    }
  }

  /** Insertion sort: the sorted permutation of `s`. */
  function Sort(s: seq<byte>): (r: seq<byte>)
    ensures Sorted(r)
    ensures multiset(r) == multiset(s)
    ensures |r| == |s|
  {
    if |s| == 0 then []
    else
      assert s == [s[0]] + s[1..];
      Insert(s[0], Sort(s[1..]))
  }

  /** The first sample of a sorted sequence is its least. */
  lemma SortedHeadIsLeast(s: seq<byte>, x: byte)
    requires Sorted(s) && x in multiset(s)
    ensures |s| > 0 && s[0] <= x
  {
    var k :| 0 <= k < |s| && s[k] == x;
  }

  /** Removing the first sample keeps a sequence sorted and removes one
      occurrence of that sample. */
  lemma SortedTail(s: seq<byte>)
    requires Sorted(s) && |s| > 0
    ensures Sorted(s[1..])
    ensures multiset(s[1..]) == multiset(s) - multiset{s[0]}
  {
    assert s == [s[0]] + s[1..];
  }

  /** Two sorted arrangements of the same samples have the same length,
      start with the same sample and continue with sorted arrangements of
      the same remaining samples. */
  lemma SortedPermutationStep(a: seq<byte>, b: seq<byte>)
    requires Sorted(a) && Sorted(b)
    requires multiset(a) == multiset(b)
    ensures |a| == |b|
    ensures |a| > 0 ==>
      a[0] == b[0] && Sorted(a[1..]) && Sorted(b[1..]) && multiset(a[1..]) == multiset(b[1..])
  {
    assert |a| == |multiset(a)| == |multiset(b)| == |b|;
    if |a| > 0 {
      SortedHeadIsLeast(b, a[0]);
      SortedHeadIsLeast(a, b[0]);
      SortedTail(a);
      SortedTail(b);
    }
  }

  /** Two sorted sequences holding the same samples are equal: the sorted
      arrangement does not depend on how it was obtained. */
  lemma {:induction false} SortedPermutationUnique(a: seq<byte>, b: seq<byte>)
    requires Sorted(a) && Sorted(b)
    requires multiset(a) == multiset(b)
    ensures a == b
    decreases |a|
  {
    SortedPermutationStep(a, b);
    if |a| > 0 {
      SortedPermutationUnique(a[1..], b[1..]);
      assert a == [a[0]] + a[1..];
      assert b == [b[0]] + b[1..];
    }
  }

  /** Whatever arrangement is sorted and a permutation of `s` is `Sort(s)`. */
  lemma SortIsTheSortedPermutation(s: seq<byte>, t: seq<byte>)
    requires Sorted(t) && multiset(t) == multiset(s)
    ensures t == Sort(s)
  {
    SortedPermutationUnique(t, Sort(s));
  }

  // ---------------------------------------------------------------------
  // Counting samples by value
  // ---------------------------------------------------------------------

  /** Number of samples of `s` whose value lies in `[lo, hi)`. */
  function CountBetween(s: seq<byte>, lo: int, hi: int): (n: nat)
    ensures n <= |s|
  {
    if |s| == 0 then 0
    else (if lo <= s[0] < hi then 1 else 0) + CountBetween(s[1..], lo, hi)
  }

  /** Number of samples strictly smaller than `v`. */
  function CountBelow(s: seq<byte>, v: int): nat {
    CountBetween(s, 0, v)
  }

  /** Number of samples strictly larger than `v`. */
  function CountAbove(s: seq<byte>, v: int): nat {
    CountBetween(s, v + 1, 256)
  }

  lemma {:induction false} CountConcat(a: seq<byte>, b: seq<byte>, lo: int, hi: int)
    ensures CountBetween(a + b, lo, hi) == CountBetween(a, lo, hi) + CountBetween(b, lo, hi)
    decreases |a|
  {
    if |a| == 0 {
      assert a + b == b;
    } else {
      assert (a + b)[1..] == a[1..] + b;
      CountConcat(a[1..], b, lo, hi);
    }
  }

  /** Splitting the value range splits the count. */
  lemma {:induction false} CountSplit(s: seq<byte>, lo: int, mid: int, hi: int)
    requires lo <= mid <= hi
    ensures CountBetween(s, lo, hi) == CountBetween(s, lo, mid) + CountBetween(s, mid, hi)
    decreases |s|
  {
    if |s| > 0 {
      CountSplit(s[1..], lo, mid, hi);
    }
  }

  /** In a sorted sequence only the samples before index `mid` can be
      strictly smaller than the one at `mid`. */
  lemma SortedFewBelow(t: seq<byte>, mid: nat)
    requires Sorted(t) && mid < |t|
    ensures CountBelow(t, t[mid]) <= mid
  {
    var m: int := t[mid];
    var lo, hi := t[..mid], t[mid..];
    assert t == lo + hi;
    CountConcat(lo, hi, 0, m);
    forall k | 0 <= k < |hi|
      ensures !(0 <= hi[k] < m)
    {
      assert hi[k] == t[mid + k];
    }
    CountNone(hi, 0, m);
  }

  /** In a sorted sequence only the samples after index `mid` can be
      strictly larger than the one at `mid`. */
  lemma SortedFewAbove(t: seq<byte>, mid: nat)
    requires Sorted(t) && mid < |t|
    ensures CountAbove(t, t[mid]) <= |t| - mid - 1
  {
    var m: int := t[mid];
    var lo, hi := t[..mid + 1], t[mid + 1..];
    assert t == lo + hi;
    CountConcat(lo, hi, m + 1, 256);
    forall k | 0 <= k < |lo|
      ensures !(m + 1 <= lo[k] < 256)
    {
      assert lo[k] == t[k];
    }
    CountNone(lo, m + 1, 256);
  }

  /** Raising the upper end of `[0, a)` cannot lower the count. */
  lemma CountBelowMonotone(s: seq<byte>, a: int, b: int)
    requires 0 <= a
    ensures CountBetween(s, 0, a) > CountBetween(s, 0, b) ==> a > b
  {
    if a <= b {
      CountSplit(s, 0, a, b);
    }
  }

  /** Lowering the lower end of `[a, 256)` cannot lower the count. */
  lemma CountAboveMonotone(s: seq<byte>, a: int, b: int)
    requires b <= 256
    ensures CountBetween(s, a, 256) > CountBetween(s, b, 256) ==> a < b
  {
    if b <= a {
      if a <= 256 {
        CountSplit(s, b, a, 256);
      } else {
        CountNone(s, a, 256);
      }
    }
  }

  /** Every sample is a byte, so the full range counts everything. */
  lemma {:induction false} CountAll(s: seq<byte>)
    ensures CountBetween(s, 0, 256) == |s|
    decreases |s|
  {
    if |s| > 0 {
      CountAll(s[1..]);
    }
  }

  /** A sequence none of whose samples lies in the range counts zero. */
  lemma {:induction false} CountNone(s: seq<byte>, lo: int, hi: int)
    requires forall k :: 0 <= k < |s| ==> !(lo <= s[k] < hi)
    ensures CountBetween(s, lo, hi) == 0
    decreases |s|
  {
    if |s| > 0 {
      CountNone(s[1..], lo, hi);
    }
  }

  lemma {:induction false} CountInsert(x: byte, s: seq<byte>, lo: int, hi: int)
    requires Sorted(s)
    ensures CountBetween(Insert(x, s), lo, hi) == CountBetween([x] + s, lo, hi)
    decreases |s|
  {
    if |s| > 0 && x > s[0] {
      CountInsert(x, s[1..], lo, hi);
      assert ([x] + s)[1..] == s;
      assert ([x] + s[1..])[1..] == s[1..];
    }
  }

  /** Sorting does not change how many samples fall in any value range. */
  lemma {:induction false} CountSort(s: seq<byte>, lo: int, hi: int)
    ensures CountBetween(Sort(s), lo, hi) == CountBetween(s, lo, hi)
    decreases |s|
  {
    if |s| > 0 {
      CountSort(s[1..], lo, hi);
      CountInsert(s[0], Sort(s[1..]), lo, hi);
      assert ([s[0]] + Sort(s[1..]))[1..] == Sort(s[1..]);
    }
  }
}
