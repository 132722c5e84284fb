/**
 * Ascending order on sequences of numbers: a reference sort, the fact that a
 * sorted permutation is unique, the in-place sort `median` runs on its copy,
 * and the order statistics (least, greatest, how many at most / at least a
 * value) that the properties of the statistics are stated with.
 */
module Sorting {

  /** Ascending order, as `.sort((a, b) => a - b)` leaves an array of numbers. */
  predicate SortedAsc(s: seq<real>) {
    forall i, j :: 0 <= i < j < |s| ==> s[i] <= s[j]
  }

  /** Inserts `x` into an ascending sequence. */
  function Insert(x: real, s: seq<real>): (r: seq<real>)
    requires SortedAsc(s)
    ensures SortedAsc(r)
    ensures multiset(r) == multiset(s) + multiset{x}
  {
    if s == [] then [x]
    else if x <= s[0] then [x] + s
    else
      var rest := Insert(x, s[1..]);
      assert s == [s[0]] + s[1..];
      assert forall k :: 0 <= k < |rest| ==> rest[k] in multiset(s[1..]) + multiset{x};
      [s[0]] + rest
  }

  /** The reference sort: the ascending permutation of `s`. */
  function Sort(s: seq<real>): (r: seq<real>)
    ensures SortedAsc(r)
    ensures multiset(r) == multiset(s)
  {
    if s == [] then []
    else
      assert s == [s[0]] + s[1..];
      Insert(s[0], Sort(s[1..]))
  }

  /** The head of an ascending sequence is at most each of its elements. */
  lemma HeadIsLeast(a: seq<real>, x: real)
    requires SortedAsc(a)
    requires x in multiset(a)
    ensures a[0] <= x
  {
    var j :| 0 <= j < |a| && a[j] == x;
  }

  /** Dropping the head of a sequence removes one copy of it from its multiset. */
  lemma MultisetTail(a: seq<real>)
    requires a != []
    ensures multiset(a[1..]) == multiset(a) - multiset{a[0]}
  {
    assert a == [a[0]] + a[1..];
  }

  /** The tail of an ascending sequence is ascending. */
  lemma SortedTail(a: seq<real>)
    requires a != [] && SortedAsc(a)
    ensures SortedAsc(a[1..])
  {
  }

  /** Sequences with the same multiset have the same length. */
  lemma SameLength(a: seq<real>, b: seq<real>)
    requires multiset(a) == multiset(b)
    ensures |a| == |b|
  {
    assert |a| == |multiset(a)| == |multiset(b)| == |b|;
  }

  /** Two non-empty ascending sequences with the same multiset have the same
      head, and their tails have the same multiset. */
  lemma SortedHeads(a: seq<real>, b: seq<real>)
    requires a != [] && b != []
    requires SortedAsc(a) && SortedAsc(b)
    requires multiset(a) == multiset(b)
    ensures a[0] == b[0]
    ensures multiset(a[1..]) == multiset(b[1..])
  {
    assert b[0] in multiset(b);
    assert a[0] in multiset(a);
    HeadIsLeast(a, b[0]);
    HeadIsLeast(b, a[0]);
    MultisetTail(a);
    MultisetTail(b);
  }

  /** Sequences with equal heads and equal tails are equal. */
  lemma ConsEqual(a: seq<real>, b: seq<real>)
    requires a != [] && b != []
    requires a[0] == b[0] && a[1..] == b[1..]
    ensures a == b
  {
    assert a == [a[0]] + a[1..];
    assert b == [b[0]] + b[1..];
  }

  /** Two ascending sequences holding the same numbers are equal: whatever
      algorithm sorts a copy, the copy ends up as `Sort` of the input. */
  lemma {:induction false} SortedUnique(a: seq<real>, b: seq<real>)
    requires SortedAsc(a) && SortedAsc(b)
    requires multiset(a) == multiset(b)
    ensures a == b
  {
    SameLength(a, b);
    if a != [] {
      SortedHeads(a, b);
      SortedTail(a);
      SortedTail(b);
      SortedUnique(a[1..], b[1..]);
      ConsEqual(a, b);
    }
  }

  /** Sorting an already ascending sequence changes nothing. */
  lemma SortOfSorted(s: seq<real>)
    requires SortedAsc(s)
    ensures Sort(s) == s
  {
    SortedUnique(Sort(s), s);
  }

  /** Sequences holding the same numbers sort to the same sequence. */
  lemma SortPermutation(s: seq<real>, t: seq<real>)
    requires multiset(s) == multiset(t)
    ensures Sort(s) == Sort(t)
  {
    SortedUnique(Sort(s), Sort(t));
  }

  /** Sorts `a` in place, ascending, by insertion: every element is swapped
      leftwards past the larger elements before it. */
  method SortInPlace(a: array<real>)
    modifies a
    ensures SortedAsc(a[..])
    ensures multiset(a[..]) == multiset(old(a[..]))
  {
    var i := 0;
    while i < a.Length
      invariant 0 <= i <= a.Length
      invariant forall p, q :: 0 <= p < q < i ==> a[p] <= a[q]
      invariant multiset(a[..]) == multiset(old(a[..]))
    {
      var j := i;
      while 0 < j && a[j] < a[j - 1]
        invariant 0 <= j <= i
        invariant forall p, q :: 0 <= p < q <= i && p != j && q != j ==> a[p] <= a[q]
        invariant forall q :: j < q <= i ==> a[j] < a[q]
        invariant multiset(a[..]) == multiset(old(a[..]))
      {
        a[j - 1], a[j] := a[j], a[j - 1];
        j := j - 1;
      }
      i := i + 1;
    }
  }

  /** The least element of a non-empty sequence. */
  function Min(s: seq<real>): (m: real)
    requires |s| > 0
    ensures m in s
    ensures forall i :: 0 <= i < |s| ==> m <= s[i]
  {
    if |s| == 1 then s[0]
    else
      var rest := Min(s[1..]);
      if s[0] <= rest then s[0] else rest
  }

  /** The greatest element of a non-empty sequence. */
  function Max(s: seq<real>): (m: real)
    requires |s| > 0
    ensures m in s
    ensures forall i :: 0 <= i < |s| ==> s[i] <= m
  {
    if |s| == 1 then s[0]
    else
      var rest := Max(s[1..]);
      if rest <= s[0] then s[0] else rest
  }

  /** The last element of an ascending sequence is at least each of its elements. */
  lemma LastIsGreatest(a: seq<real>, x: real)
    requires SortedAsc(a)
    requires x in multiset(a)
    ensures a[|a| - 1] >= x
  {
    var j :| 0 <= j < |a| && a[j] == x;
  }

  /** Sorting keeps the length. */
  lemma SortLength(s: seq<real>)
    ensures |Sort(s)| == |s|
  {
    var u := Sort(s);
    assert |u| == |multiset(u)| == |multiset(s)| == |s|;
  }

  /** The first element of the sorted sequence is the least of the input and
      the last is the greatest. */
  lemma {:induction false} SortEnds(s: seq<real>)
    requires |s| > 0
    ensures |Sort(s)| == |s|
    ensures Sort(s)[0] == Min(s)
    ensures Sort(s)[|s| - 1] == Max(s)
  {
    var u := Sort(s);
    SortLength(s);
    var lo, hi := Min(s), Max(s);
    assert u[0] in multiset(s) && u[|u| - 1] in multiset(s);
    assert lo <= u[0] && u[|u| - 1] <= hi;
    assert lo in multiset(u) && hi in multiset(u);
    HeadIsLeast(u, lo);
    LastIsGreatest(u, hi);
  }

  /** How many elements of `s` are at most `x`. */
  function CountAtMost(s: seq<real>, x: real): (c: nat)
    ensures c <= |s|
  {
    if s == [] then 0 else (if s[0] <= x then 1 else 0) + CountAtMost(s[1..], x)
  }

  /** How many elements of `s` are at least `x`. */
  function CountAtLeast(s: seq<real>, x: real): (c: nat)
    ensures c <= |s|
  {
    if s == [] then 0 else (if x <= s[0] then 1 else 0) + CountAtLeast(s[1..], x)
  }

  lemma {:induction false} CountAppend(a: seq<real>, b: seq<real>, x: real)
    ensures CountAtMost(a + b, x) == CountAtMost(a, x) + CountAtMost(b, x)
    ensures CountAtLeast(a + b, x) == CountAtLeast(a, x) + CountAtLeast(b, x)
  {
    if a != [] {
      assert (a + b)[1..] == a[1..] + b;
      CountAppend(a[1..], b, x);
    } else {
      assert a + b == b;
    }
  }

  /** Removing the element at index `j` removes one copy of it from the multiset. */
  lemma MultisetRemoveAt(t: seq<real>, j: int)
    requires 0 <= j < |t|
    ensures t == t[..j] + [t[j]] + t[j + 1..]
    ensures multiset(t[..j] + t[j + 1..]) == multiset(t) - multiset{t[j]}
  {
    assert t == t[..j] + [t[j]] + t[j + 1..];
  }

  /** The counts depend only on which numbers the sequence holds, not on their order. */
  lemma {:induction false} CountPermutation(s: seq<real>, t: seq<real>, x: real)
    requires multiset(s) == multiset(t)
    ensures CountAtMost(s, x) == CountAtMost(t, x)
    ensures CountAtLeast(s, x) == CountAtLeast(t, x)
  {
    if s == [] {
      assert |t| == |multiset(t)| == 0;
    } else {
      assert s[0] in multiset(t);
      var j :| 0 <= j < |t| && t[j] == s[0];
      MultisetRemoveAt(t, j);
      MultisetTail(s);
      var rest := t[..j] + t[j + 1..];
      CountPermutation(s[1..], rest, x);
      CountAppend(t[..j] + [t[j]], t[j + 1..], x);
      CountAppend(t[..j], [t[j]], x);
      CountAppend(t[..j], t[j + 1..], x);
    }
  }

  /** In a sequence whose first `k` elements are at most `x`, at least `k`
      elements are at most `x`. */
  lemma {:induction false} CountAtMostPrefix(s: seq<real>, k: nat, x: real)
    requires k <= |s|
    requires forall i :: 0 <= i < k ==> s[i] <= x
    ensures CountAtMost(s, x) >= k
  {
    if k > 0 {
      CountAtMostPrefix(s[1..], k - 1, x);
    }
  }

  /** In a sequence whose elements from index `k` on are at least `x`, at
      least `|s| - k` elements are at least `x`. */
  lemma {:induction false} CountAtLeastSuffix(s: seq<real>, k: nat, x: real)
    requires k <= |s|
    requires forall i :: k <= i < |s| ==> x <= s[i]
    ensures CountAtLeast(s, x) >= |s| - k
  {
    if s != [] {
      CountAtLeastSuffix(s[1..], if k == 0 then 0 else k - 1, x);
    }
  }
}
