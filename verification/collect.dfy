/**
 The result aggregator shared by both programs: workers `push_back` the primes
 they find into one mutex-guarded vector, in whatever order the threads happen
 to run, and `findPrimes` sorts that vector once all workers have joined.

 Because the push order is unspecified, the vector is characterised only by
 its multiset of elements; `Sort` stands for `std::sort`, and the theorem
 `SortCollected` says that every vector holding the primes of a range (each
 once, in any order) sorts to the same strictly ascending list.
 */
module Collect {
  import opened Primality

  /** Non-decreasing order, as `std::sort` produces. */
  predicate Sorted(s: seq<nat>) {
    forall i, j :: 0 <= i < j < |s| ==> s[i] <= s[j]
  }

  /** Strictly ascending order: sorted and free of duplicates. */
  predicate StrictlyAscending(s: seq<nat>) {
    forall i, j :: 0 <= i < j < |s| ==> s[i] < s[j]
  }

  /**
   The numbers of `[lo, hi]` that satisfy `keep`, in ascending order: a
   sequential scan that tests every number of the range once.
   */
  function Select(lo: nat, hi: nat, keep: nat -> bool): (r: seq<nat>)
    decreases hi + 1 - lo
  {
    if lo > hi then []
    else
      var rest := Select(lo + 1, hi, keep);
      if keep(lo) then [lo] + rest else rest
  }

  /** The selection lies within the range and is strictly ascending. */
  lemma {:induction false} SelectAscending(lo: nat, hi: nat, keep: nat -> bool)
    ensures forall k :: 0 <= k < |Select(lo, hi, keep)| ==> lo <= Select(lo, hi, keep)[k] <= hi
    ensures StrictlyAscending(Select(lo, hi, keep))
    decreases hi + 1 - lo
  {
    if lo <= hi {
      var rest := Select(lo + 1, hi, keep);
      SelectAscending(lo + 1, hi, keep);
      if keep(lo) {
        AscendingCons(lo, rest);
        var r := [lo] + rest;
        assert Select(lo, hi, keep) == r;
        forall k | 0 <= k < |r|
          ensures lo <= r[k] <= hi
        {
          if k > 0 {
            assert r[k] == rest[k - 1];
          }
        }
      }
    }
  }

  /** A value below every element of a strictly ascending sequence can be put in front of it. */
  lemma AscendingCons(a: nat, t: seq<nat>)
    requires StrictlyAscending(t) && forall k :: 0 <= k < |t| ==> a < t[k]
    ensures StrictlyAscending([a] + t)
  {
    var r := [a] + t;
    forall i, j | 0 <= i < j < |r|
      ensures r[i] < r[j]
    {
      assert r[j] == t[j - 1];
      if i > 0 {
        assert r[i] == t[i - 1];
      }
    }
  }

  /** A value is selected exactly when it lies in the range and satisfies `keep`. */
  lemma {:induction false} SelectMembers(lo: nat, hi: nat, keep: nat -> bool, x: nat)
    ensures x in Select(lo, hi, keep) <==> lo <= x <= hi && keep(x)
    decreases hi + 1 - lo
  {
    if lo <= hi {
      SelectMembers(lo + 1, hi, keep, x);
    }
  }

  /** Every value of the range that satisfies `keep` is selected exactly once, and nothing else is. */
  lemma {:induction false} SelectCount(lo: nat, hi: nat, keep: nat -> bool, x: nat)
    ensures multiset(Select(lo, hi, keep))[x] == if lo <= x <= hi && keep(x) then 1 else 0
    decreases hi + 1 - lo
  {
    if lo > hi {
      assert Select(lo, hi, keep) == [];
    } else {
      var rest: seq<nat> := Select(lo + 1, hi, keep);
      SelectCount(lo + 1, hi, keep, x);
      assert multiset(rest)[x] == (if lo + 1 <= x <= hi && keep(x) then 1 else 0);
      if keep(lo) {
        assert Select(lo, hi, keep) == [lo] + rest;
        assert multiset([lo] + rest) == multiset{lo} + multiset(rest);
        assert multiset{lo as nat}[x] == (if x == lo then 1 else 0);
      } else {
        assert Select(lo, hi, keep) == rest;
      }
    }
  }

  /** Scanning `[lo, hi]` is scanning `[lo, mid]` and then `[mid + 1, hi]`. */
  lemma {:induction false} SelectSplit(lo: nat, mid: nat, hi: nat, keep: nat -> bool)
    requires lo <= mid + 1 <= hi + 1
    ensures Select(lo, hi, keep) == Select(lo, mid, keep) + Select(mid + 1, hi, keep)
    decreases mid + 1 - lo
  {
    if lo <= mid {
      SelectSplit(lo + 1, mid, hi, keep);
      if keep(lo) {
        assert [lo] + (Select(lo + 1, mid, keep) + Select(mid + 1, hi, keep))
          == ([lo] + Select(lo + 1, mid, keep)) + Select(mid + 1, hi, keep);
      }
    }
  }

  /** The reference answer: the primes of `[lo, hi]` in ascending order. */
  function PrimesIn(lo: nat, hi: nat): (r: seq<nat>)
    ensures forall k :: 0 <= k < |r| ==> lo <= r[k] <= hi
    ensures StrictlyAscending(r)
  {
    SelectAscending(lo, hi, Prime);
    Select(lo, hi, Prime)
  }

  /** A value is in the reference answer exactly when it is a prime of `[lo, hi]`. */
  lemma PrimesInMembers(lo: nat, hi: nat, x: nat)
    ensures x in PrimesIn(lo, hi) <==> lo <= x <= hi && Prime(x)
  {
    SelectMembers(lo, hi, Prime, x);
  }

  /** Every prime of the range appears exactly once in the reference answer, and nothing else does. */
  lemma PrimesInCount(lo: nat, hi: nat, x: nat)
    ensures multiset(PrimesIn(lo, hi))[x] == if lo <= x <= hi && Prime(x) then 1 else 0
  {
    SelectCount(lo, hi, Prime, x);
  }

  /** Scanning `[lo, hi]` is scanning `[lo, mid]` and then `[mid + 1, hi]`. */
  lemma PrimesInSplit(lo: nat, mid: nat, hi: nat)
    requires lo <= mid + 1 <= hi + 1
    ensures PrimesIn(lo, hi) == PrimesIn(lo, mid) + PrimesIn(mid + 1, hi)
  {
    SelectSplit(lo, mid, hi, Prime);
  }

  /** The tail of a sorted sequence is sorted. */
  lemma SortedTail(s: seq<nat>)
    requires Sorted(s) && |s| > 0
    ensures Sorted(s[1..])
  {
    forall i, j | 0 <= i < j < |s| - 1
      ensures s[1..][i] <= s[1..][j]
    {
      assert s[1..][i] == s[i + 1] && s[1..][j] == s[j + 1];
    }
  }

  /** A value no larger than the head of a sorted sequence can be put in front of it. */
  lemma SortedCons(a: nat, t: seq<nat>)
    requires Sorted(t) && (|t| > 0 ==> a <= t[0])
    ensures Sorted([a] + t)
  {
    var r := [a] + t;
    forall i, j | 0 <= i < j < |r|
      ensures r[i] <= r[j]
    {
      assert r[j] == t[j - 1];
      if i > 0 {
        assert r[i] == t[i - 1];
      }
    }
  }

  /** Inserts `x` into a sorted sequence, keeping it sorted. */
  function Insert(x: nat, s: seq<nat>): (r: seq<nat>)
    requires Sorted(s)
    ensures Sorted(r)
    ensures multiset(r) == multiset(s) + multiset{x}
    ensures |r| == |s| + 1 && (r[0] == x || (|s| > 0 && r[0] == s[0]))
  {
    if s == [] || x <= s[0] then
      SortedCons(x, s);
      [x] + s
    else
      SortedTail(s);
      var tail := Insert(x, s[1..]);
      assert multiset(s) == multiset{s[0]} + multiset(s[1..]) by {
        assert s == [s[0]] + s[1..];
      }
      assert multiset([s[0]] + tail) == multiset{s[0]} + multiset(tail);
      SortedCons(s[0], tail);
      [s[0]] + tail
  }

  /** `std::sort` of the collected vector: a sorted permutation of it. */
  function Sort(v: seq<nat>): (r: seq<nat>)
    ensures Sorted(r)
    ensures multiset(r) == multiset(v)
  {
    if v == [] then []
    else
      assert v == [v[0]] + v[1..];
      Insert(v[0], Sort(v[1..]))
  }

  /** The head of a sorted sequence is its least element. */
  lemma SortedHeadLeast(a: seq<nat>, x: nat)
    requires Sorted(a) && x in a
    ensures a[0] <= x
  {
    var i :| 0 <= i < |a| && a[i] == x;
    assert i == 0 || a[0] <= a[i];
  }

  /** Removing the head of a sequence removes one copy of it from the multiset. */
  lemma MultisetTail(a: seq<nat>)
    requires |a| > 0
    ensures multiset(a[1..]) == multiset(a) - multiset{a[0]}
  {
    assert a == [a[0]] + a[1..];
    assert multiset(a) == multiset{a[0]} + multiset(a[1..]);
  }

  /** Two sorted sequences with the same non-empty multiset start with the same element. */
  lemma SortedSameHead(a: seq<nat>, b: seq<nat>)
    requires Sorted(a) && Sorted(b) && |a| > 0 && |b| > 0
    requires multiset(a) == multiset(b)
    ensures a[0] == b[0]
  {
    assert a[0] in multiset(b) && b[0] in multiset(a);
    SortedHeadLeast(b, a[0]);
    SortedHeadLeast(a, b[0]);
  }

  /** A sorted sequence is determined by its multiset of elements. */
  lemma {:induction false} SortedUnique(a: seq<nat>, b: seq<nat>)
    requires Sorted(a) && Sorted(b)
    requires multiset(a) == multiset(b)
    ensures a == b
  {
    assert |b| == |a| by {
      assert |multiset(a)| == |a| && |multiset(b)| == |b|;
    }
    if a != [] {
      SortedSameHead(a, b);
      SortedTail(a);
      SortedTail(b);
      MultisetTail(a);
      MultisetTail(b);
      SortedUnique(a[1..], b[1..]);
      assert a == [a[0]] + a[1..] && b == [b[0]] + b[1..];
    }
  }

  /**
   However the workers' pushes were interleaved, sorting a vector that holds
   each prime of `[lo, hi]` exactly once yields the strictly ascending list of
   those primes.
   */
  lemma SortCollected(v: seq<nat>, lo: nat, hi: nat)
    requires multiset(v) == multiset(PrimesIn(lo, hi))
    ensures Sort(v) == PrimesIn(lo, hi)
    ensures StrictlyAscending(Sort(v))
  {
    SortedUnique(Sort(v), PrimesIn(lo, hi));
  }
}
