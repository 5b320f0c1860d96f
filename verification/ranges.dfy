/**
 The static strategy of `printAfterRanges/primeSearch.cpp`: before any thread
 starts, `findPrimes` cuts `[2, max_range]` into at most `num_threads`
 contiguous inclusive subranges, and each worker scans its own subrange.

 The arithmetic is the C++ program's, not an idealised one: each thread's
 nominal share is `max_range / num_threads` (plus one for the first
 `max_range % num_threads` threads), which adds up to `max_range` rather than
 to the `max_range - 1` candidates. The nominal end of the last share is
 therefore `max_range + 1`. When the quotient is at least 2 every thread gets
 a subrange and the clamp `end > max_range` trims the last one to `max_range`;
 with a quotient of 0 or 1 fewer than `num_threads` subranges are launched
 (`PartitionReachesLastThread`).
 Integers are unbounded, so the 64-bit wrap-around the C++ program suffers
 at `max_range = 2^64 - 1` is not modelled here.
 */
module Ranges {
  import opened Primality
  import opened Collect

  /** The inclusive subrange `[first, last]` handed to one worker thread. */
  datatype Span = Span(first: nat, last: nat)

  /** Number of candidates in a span (zero or less for an empty one). */
  function Size(s: Span): int {
    s.last - s.first + 1
  }

  function Min(a: nat, b: nat): nat {
    if a <= b then a else b
  }

  /**
   `spans` cut `[lo, hi]` into non-empty pieces, in increasing order, each
   starting right after the previous one ends; only the empty list tiles an
   empty range.
   */
  predicate Tiles(spans: seq<Span>, lo: nat, hi: nat)
    decreases |spans|
  {
    if spans == [] then lo > hi
    else
      && spans[0].first == lo
      && spans[0].first <= spans[0].last <= hi
      && Tiles(spans[1..], spans[0].last + 1, hi)
  }

  /** `x` lies in one of the spans. */
  predicate Covered(spans: seq<Span>, x: nat) {
    exists k :: 0 <= k < |spans| && spans[k].first <= x <= spans[k].last
  }

  /**
   Iterations `i, i + 1, ...` of the partition loop, entered with `start`:
   compute the nominal end, add one for the first `remainder` threads, clamp
   to `max_range`, raise `start` to 2 if needed, launch a worker on
   `[start, end]` if that is non-empty, and stop once `end + 1` passes
   `max_range`.
   */
  function PartitionFrom(maxRange: nat, threads: nat, perThread: nat, remainder: nat, i: nat, start: nat): seq<Span>
    requires start >= 1
    decreases threads - i
  {
    if i >= threads then []
    else
      var nominal: nat := start + perThread - 1 + (if i < remainder then 1 else 0);
      var end := if nominal > maxRange then maxRange else nominal;
      var first := if start < 2 then 2 else start;
      var launched := if first <= end then [Span(first, end)] else [];
      if end + 1 > maxRange then launched
      else launched + PartitionFrom(maxRange, threads, perThread, remainder, i + 1, end + 1)
  }

  /** The subranges `findPrimes` launches workers on, in launch order. */
  function Partition(maxRange: nat, threads: nat): seq<Span>
    requires threads >= 1
  {
    PartitionFrom(maxRange, threads, maxRange / threads, maxRange % threads, 0, 2)
  }

  /**
   Where thread `i`'s nominal share begins when every earlier thread got its
   full nominal share: `per` each, plus one for the first `rem` threads.
   */
  function ShareStart(per: nat, rem: nat, i: nat): (s: nat)
    ensures s >= 2
  {
    if i == 0 then 2 else ShareStart(per, rem, i - 1) + per + (if i - 1 < rem then 1 else 0)
  }

  /** Closed form of `ShareStart`. */
  lemma {:induction false} ShareStartClosed(per: nat, rem: nat, i: nat)
    ensures ShareStart(per, rem, i) == 2 + i * per + Min(i, rem)
  {
    if i > 0 {
      ShareStartClosed(per, rem, i - 1);
      assert i * per == (i - 1) * per + per;
    }
  }

  /** With a quotient of 0, thread `i`'s share begins at `2 + min(i, rem)`. */
  lemma {:induction false} ShareStartNoQuotient(rem: nat, i: nat)
    ensures ShareStart(0, rem, i) == 2 + Min(i, rem)
  {
    if i > 0 {
      ShareStartNoQuotient(rem, i - 1);
    }
  }

  /**
   The nominal shares add up to `max_range`, not to the `max_range - 1`
   candidates: the share after the last thread would begin at `max_range + 2`.
   With more threads than `max_range` the quotient is 0 and the remainder is
   `max_range` itself.
   */
  lemma ShareFacts(maxRange: nat, threads: nat)
    requires threads >= 1
    ensures ShareStart(maxRange / threads, maxRange % threads, threads) == maxRange + 2
    ensures maxRange / threads == 0 ==> maxRange % threads == maxRange
  {
    var per, rem := maxRange / threads, maxRange % threads;
    assert maxRange == threads * per + rem;
    ShareStartClosed(per, rem, threads);
  }

  /**
   The last thread's nominal share starts `max_range / num_threads` before
   `max_range + 2`, so it ends at `max_range + 1`. It starts inside the range
   exactly when the quotient is at least 2.
   */
  lemma LastShareClamped(maxRange: nat, threads: nat)
    requires threads >= 1
    ensures ShareStart(maxRange / threads, maxRange % threads, threads - 1) + maxRange / threads == maxRange + 2
    ensures ShareStart(maxRange / threads, maxRange % threads, threads - 1) <= maxRange <==> maxRange / threads >= 2
  {
    ShareFacts(maxRange, threads);
    assert maxRange % threads <= threads - 1;
  }

  /** `ShareStart` grows with the thread index: later threads' shares begin no earlier. */
  lemma {:induction false} ShareStartMonotone(per: nat, rem: nat, i: nat, j: nat)
    requires i <= j
    ensures ShareStart(per, rem, i) <= ShareStart(per, rem, j)
    decreases j - i
  {
    if i < j {
      ShareStartMonotone(per, rem, i, j - 1);
    }
  }

  /**
   From iteration `i` on, with a quotient of at least 2, every thread gets a
   subrange: the loop runs through the last thread, whose share is clamped to
   end at `max_range`.
   */
  lemma {:induction false} PartitionFromFull(maxRange: nat, threads: nat, per: nat, rem: nat, i: nat, start: nat)
    requires per >= 2 && rem < threads && i < threads
    requires ShareStart(per, rem, threads - 1) + per == maxRange + 2
    requires start == ShareStart(per, rem, i)
    ensures |PartitionFrom(maxRange, threads, per, rem, i, start)| == threads - i
    ensures PartitionFrom(maxRange, threads, per, rem, i, start)[threads - 1 - i]
      == Span(ShareStart(per, rem, threads - 1), maxRange)
    decreases threads - i
  {
    var r := PartitionFrom(maxRange, threads, per, rem, i, start);
    var nominal := start + per - 1 + (if i < rem then 1 else 0);
    if i == threads - 1 {
      assert nominal == maxRange + 1;
      assert r == [Span(start, maxRange)] by {
        PartitionStep(maxRange, threads, per, rem, i, start);
      }
    } else {
      var next := ShareStart(per, rem, i + 1);
      assert nominal == next - 1;
      assert next <= maxRange by {
        ShareStartMonotone(per, rem, i + 1, threads - 1);
      }
      assert start <= nominal;
      var rest := PartitionFrom(maxRange, threads, per, rem, i + 1, next);
      assert r == [Span(start, nominal)] + rest by {
        PartitionStep(maxRange, threads, per, rem, i, start);
      }
      assert |rest| == threads - (i + 1) && rest[threads - 1 - (i + 1)] == Span(ShareStart(per, rem, threads - 1), maxRange) by {
        PartitionFromFull(maxRange, threads, per, rem, i + 1, next);
      }
      assert r[threads - 1 - i] == rest[threads - 1 - (i + 1)];
    }
  }

  /**
   From iteration `i` on, when the last thread's share starts past `max_range`,
   the loop launches fewer subranges than there are threads left: it breaks,
   or launches nothing, before the last thread's turn.
   */
  lemma {:induction false} PartitionFromShort(maxRange: nat, threads: nat, per: nat, rem: nat, i: nat, start: nat)
    requires i < threads && rem < threads
    requires ShareStart(per, rem, threads - 1) > maxRange
    requires start == ShareStart(per, rem, i)
    ensures |PartitionFrom(maxRange, threads, per, rem, i, start)| <= threads - 1 - i
    decreases threads - i
  {
    var r := PartitionFrom(maxRange, threads, per, rem, i, start);
    var nominal := start + per - 1 + (if i < rem then 1 else 0);
    var end := if nominal > maxRange then maxRange else nominal;
    assert nominal + 1 == ShareStart(per, rem, i + 1);
    if i == threads - 1 {
      assert r == [] by {
        PartitionStep(maxRange, threads, per, rem, i, start);
      }
    } else if end + 1 > maxRange {
      assert |r| <= 1 by {
        PartitionStep(maxRange, threads, per, rem, i, start);
      }
    } else {
      var rest := PartitionFrom(maxRange, threads, per, rem, i + 1, end + 1);
      assert |r| <= 1 + |rest| by {
        PartitionStep(maxRange, threads, per, rem, i, start);
      }
      PartitionFromShort(maxRange, threads, per, rem, i + 1, end + 1);
    }
  }

  /**
   The loop gives every thread a subrange exactly when `max_range / num_threads`
   is at least 2. Then the last thread's nominal share `[max_range + 2 - per,
   max_range + 1]` is clamped to end at `max_range`. With a quotient of 0 or 1
   fewer than `num_threads` subranges are launched.
   */
  lemma PartitionReachesLastThread(maxRange: nat, threads: nat)
    requires threads >= 1
    ensures |Partition(maxRange, threads)| == threads <==> maxRange / threads >= 2
    ensures maxRange / threads >= 2 ==>
      Partition(maxRange, threads)[threads - 1] == Span(maxRange + 2 - maxRange / threads, maxRange)
  {
    var per, rem := maxRange / threads, maxRange % threads;
    LastShareClamped(maxRange, threads);
    if per >= 2 {
      PartitionFromFull(maxRange, threads, per, rem, 0, 2);
    } else {
      PartitionFromShort(maxRange, threads, per, rem, 0, 2);
    }
  }

  /** One iteration of the partition loop, unfolded. */
  lemma PartitionStep(maxRange: nat, threads: nat, perThread: nat, remainder: nat, i: nat, start: nat)
    requires start >= 1 && i < threads
    ensures var nominal := start + perThread - 1 + (if i < remainder then 1 else 0);
      var end := if nominal > maxRange then maxRange else nominal;
      var first := if start < 2 then 2 else start;
      var launched := if first <= end then [Span(first, end)] else [];
      PartitionFrom(maxRange, threads, perThread, remainder, i, start)
        == if end + 1 > maxRange then launched
           else launched + PartitionFrom(maxRange, threads, perThread, remainder, i + 1, end + 1)
  {
  }

  /**
   From iteration `i` on, the loop launches spans that tile `[start, max_range]`,
   provided `start` is where the nominal shares of threads `0 .. i - 1` end.
   */
  lemma {:induction false} PartitionFromTiles(maxRange: nat, threads: nat, per: nat, rem: nat, i: nat, start: nat)
    requires i < threads
    requires ShareStart(per, rem, threads) == maxRange + 2
    requires per == 0 ==> rem == maxRange
    requires start == ShareStart(per, rem, i)
    ensures Tiles(PartitionFrom(maxRange, threads, per, rem, i, start), start, maxRange)
    decreases threads - i
  {
    var r := PartitionFrom(maxRange, threads, per, rem, i, start);
    var nominal := start + per - 1 + (if i < rem then 1 else 0);
    var end := if nominal > maxRange then maxRange else nominal;
    assert ShareStart(per, rem, i + 1) == nominal + 1;
    if start > maxRange {
      assert r == [] by {
        PartitionStep(maxRange, threads, per, rem, i, start);
      }
    } else {
      assert start <= end by {
        if per == 0 {
          ShareStartNoQuotient(rem, i);
        }
      }
      if end + 1 > maxRange {
        assert r == [Span(start, end)] by {
          PartitionStep(maxRange, threads, per, rem, i, start);
        }
        TilesCons(Span(start, end), [], maxRange);
      } else {
        var next: nat := end + 1;
        var rest := PartitionFrom(maxRange, threads, per, rem, i + 1, next);
        assert r == [Span(start, end)] + rest by {
          PartitionStep(maxRange, threads, per, rem, i, start);
        }
        assert Tiles(rest, next, maxRange) by {
          assert i + 1 < threads;
          PartitionFromTiles(maxRange, threads, per, rem, i + 1, next);
        }
        TilesCons(Span(start, end), rest, maxRange);
      }
    }
  }

  /** A non-empty span followed by a tiling of what comes after it tiles from its start. */
  lemma TilesCons(s: Span, rest: seq<Span>, hi: nat)
    requires s.first <= s.last <= hi && Tiles(rest, s.last + 1, hi)
    ensures Tiles([s] + rest, s.first, hi)
  {
    assert ([s] + rest)[1..] == rest;
  }

  /** The launched subranges tile `[2, max_range]` exactly: no gap, no overlap, in increasing order. */
  lemma PartitionTiles(maxRange: nat, threads: nat)
    requires threads >= 1
    ensures Tiles(Partition(maxRange, threads), 2, maxRange)
  {
    ShareFacts(maxRange, threads);
    PartitionFromTiles(maxRange, threads, maxRange / threads, maxRange % threads, 0, 2);
  }

  /** Each iteration launches at most one worker. */
  lemma {:induction false} PartitionFromCount(maxRange: nat, threads: nat, perThread: nat, remainder: nat, i: nat, start: nat)
    requires start >= 1 && i <= threads
    ensures |PartitionFrom(maxRange, threads, perThread, remainder, i, start)| <= threads - i
    decreases threads - i
  {
    if i < threads {
      var nominal: nat := start + perThread - 1 + (if i < remainder then 1 else 0);
      var end := if nominal > maxRange then maxRange else nominal;
      if end + 1 <= maxRange {
        PartitionFromCount(maxRange, threads, perThread, remainder, i + 1, end + 1);
      }
    }
  }

  /** No more than `num_threads` workers are launched. */
  lemma PartitionCount(maxRange: nat, threads: nat)
    requires threads >= 1
    ensures |Partition(maxRange, threads)| <= threads
  {
    PartitionFromCount(maxRange, threads, maxRange / threads, maxRange % threads, 0, 2);
  }

  /** Every span is non-empty and holds at most `bound` numbers. */
  predicate SizesWithin(spans: seq<Span>, bound: int) {
    forall k :: 0 <= k < |spans| ==> 1 <= Size(spans[k]) <= bound
  }

  /** Concatenation keeps every span within the bound. */
  lemma SizesWithinConcat(a: seq<Span>, b: seq<Span>, bound: int)
    requires SizesWithin(a, bound) && SizesWithin(b, bound)
    ensures SizesWithin(a + b, bound)
  {
    forall k | 0 <= k < |a + b|
      ensures 1 <= Size((a + b)[k]) <= bound
    {
      if k >= |a| {
        assert (a + b)[k] == b[k - |a|];
      } else {
        assert (a + b)[k] == a[k];
      }
    }
  }

  /** Every launched span is non-empty and no longer than its nominal share. */
  lemma {:induction false} PartitionFromSizes(maxRange: nat, threads: nat, perThread: nat, remainder: nat, i: nat, start: nat)
    requires start >= 1
    ensures SizesWithin(PartitionFrom(maxRange, threads, perThread, remainder, i, start),
                        perThread + (if remainder == 0 then 0 else 1))
    decreases threads - i
  {
    var r := PartitionFrom(maxRange, threads, perThread, remainder, i, start);
    var bound := perThread + (if remainder == 0 then 0 else 1);
    if i < threads {
      var nominal: nat := start + perThread - 1 + (if i < remainder then 1 else 0);
      var end := if nominal > maxRange then maxRange else nominal;
      var first := if start < 2 then 2 else start;
      var launched := if first <= end then [Span(first, end)] else [];
      assert SizesWithin(launched, bound);
      if end + 1 > maxRange {
        assert r == launched by {
          PartitionStep(maxRange, threads, perThread, remainder, i, start);
        }
      } else {
        var next: nat := end + 1;
        var rest := PartitionFrom(maxRange, threads, perThread, remainder, i + 1, next);
        assert r == launched + rest by {
          PartitionStep(maxRange, threads, perThread, remainder, i, start);
        }
        assert SizesWithin(rest, bound) by {
          PartitionFromSizes(maxRange, threads, perThread, remainder, i + 1, next);
        }
        SizesWithinConcat(launched, rest, bound);
      }
    }
  }

  /**
   Every launched subrange holds at most `max_range / num_threads + 1`
   candidates, and at most `max_range / num_threads` when the division is exact.
   */
  lemma PartitionSizes(maxRange: nat, threads: nat)
    requires threads >= 1
    ensures var r := Partition(maxRange, threads);
      forall k :: 0 <= k < |r| ==> 1 <= Size(r[k]) <= maxRange / threads + 1
    ensures var r := Partition(maxRange, threads);
      maxRange % threads == 0 ==> forall k :: 0 <= k < |r| ==> Size(r[k]) <= maxRange / threads
  {
    PartitionFromSizes(maxRange, threads, maxRange / threads, maxRange % threads, 0, 2);
  }

  /** Tiling a range with single-element spans takes one span per element. */
  lemma {:induction false} SingletonTilesCount(spans: seq<Span>, lo: nat, hi: nat)
    requires Tiles(spans, lo, hi) && lo <= hi + 1
    requires SizesWithin(spans, 1)
    ensures |spans| == hi + 1 - lo
    decreases |spans|
  {
    if spans != [] {
      SingletonTilesCount(spans[1..], spans[0].last + 1, hi);
    }
  }

  /**
   With at least as many threads as `max_range`, every launched subrange is a
   single number, so exactly `max_range - 1` workers are launched: fewer than
   requested, which `findPrimes` does not treat as an error.
   */
  lemma PartitionManyThreads(maxRange: nat, threads: nat)
    requires 2 <= maxRange <= threads
    ensures |Partition(maxRange, threads)| == maxRange - 1
    ensures SizesWithin(Partition(maxRange, threads), 1)
  {
    var r := Partition(maxRange, threads);
    var per, rem := maxRange / threads, maxRange % threads;
    assert per + (if rem == 0 then 0 else 1) == 1 by {
      ManyThreadsQuotient(maxRange, threads);
    }
    PartitionTiles(maxRange, threads);
    PartitionFromSizes(maxRange, threads, per, rem, 0, 2);
    SingletonTilesCount(r, 2, maxRange);
  }

  /** With `2 <= max_range <= num_threads` each nominal share is a single number. */
  lemma ManyThreadsQuotient(maxRange: nat, threads: nat)
    requires 2 <= maxRange <= threads
    ensures maxRange == threads ==> maxRange / threads == 1 && maxRange % threads == 0
    ensures maxRange < threads ==> maxRange / threads == 0 && maxRange % threads == maxRange
  {
  }

  /**
   A tiling, read as a set: every span lies inside the range, spans are in
   increasing order with each one starting right after its predecessor, and
   every number of the range lies in some span.
   */
  lemma TilesCover(spans: seq<Span>, lo: nat, hi: nat)
    requires Tiles(spans, lo, hi)
    ensures forall k :: 0 <= k < |spans| ==> lo <= spans[k].first <= spans[k].last <= hi
    ensures forall k :: 1 <= k < |spans| ==> spans[k].first == spans[k - 1].last + 1
    ensures forall j, k :: 0 <= j < k < |spans| ==> spans[j].last < spans[k].first
    ensures forall x: nat :: lo <= x <= hi <==> Covered(spans, x)
  {
    TilesShape(spans, lo, hi);
    TilesCovered(spans, lo, hi);
  }

  /** The spans of a tiling lie inside the range, in increasing order, each right after its predecessor. */
  lemma {:induction false} TilesShape(spans: seq<Span>, lo: nat, hi: nat)
    requires Tiles(spans, lo, hi)
    ensures forall k :: 0 <= k < |spans| ==> lo <= spans[k].first <= spans[k].last <= hi
    ensures forall k :: 1 <= k < |spans| ==> spans[k].first == spans[k - 1].last + 1
    ensures forall j, k :: 0 <= j < k < |spans| ==> spans[j].last < spans[k].first
    decreases |spans|
  {
    if spans != [] {
      var rest := spans[1..];
      TilesShape(rest, spans[0].last + 1, hi);
      assert forall k :: 1 <= k < |spans| ==> spans[k] == rest[k - 1];
    }
  }

  /** Every number of the range lies in a span of a tiling, and nothing else does. */
  lemma {:induction false} TilesCovered(spans: seq<Span>, lo: nat, hi: nat)
    requires Tiles(spans, lo, hi)
    ensures forall x: nat :: lo <= x <= hi <==> Covered(spans, x)
    decreases |spans|
  {
    if spans != [] {
      var rest := spans[1..];
      TilesCovered(rest, spans[0].last + 1, hi);
      forall x: nat | lo <= x <= hi
        ensures Covered(spans, x)
      {
        if x > spans[0].last {
          assert Covered(rest, x);
          var k :| 0 <= k < |rest| && rest[k].first <= x <= rest[k].last;
          assert spans[k + 1] == rest[k];
        } else {
          assert spans[0].first <= x <= spans[0].last;
        }
      }
      forall x: nat | Covered(spans, x)
        ensures lo <= x <= hi
      {
        var k :| 0 <= k < |spans| && spans[k].first <= x <= spans[k].last;
        if k > 0 {
          assert rest[k - 1] == spans[k];
          assert Covered(rest, x);
        }
      }
    }
  }

  /** What the workers of a partition find, concatenated in launch order. */
  function Gathered(spans: seq<Span>): seq<nat> {
    if spans == [] then [] else PrimesIn(spans[0].first, spans[0].last) + Gathered(spans[1..])
  }

  /** The workers of a tiling together find exactly the primes of the tiled range. */
  lemma {:induction false} TilesGathered(spans: seq<Span>, lo: nat, hi: nat)
    requires Tiles(spans, lo, hi)
    ensures Gathered(spans) == PrimesIn(lo, hi)
    decreases |spans|
  {
    if spans != [] {
      var head := PrimesIn(spans[0].first, spans[0].last);
      assert Gathered(spans) == head + Gathered(spans[1..]);
      TilesGathered(spans[1..], spans[0].last + 1, hi);
      PrimesInSplit(lo, spans[0].last, hi);
    }
  }

  /** The worker thread: scans `[start, end]` upwards and appends every prime it meets. */
  method ScanRange(start: nat, end: nat) returns (found: seq<nat>)
    ensures found == PrimesIn(start, end)
  {
    found := [];
    var number := start;
    while number <= end
      invariant start <= number
      invariant found + PrimesIn(number, end) == PrimesIn(start, end)
      decreases end + 1 - number
    {
      ScanStep(found, number, end);
      if IsPrime(number) {
        found := found + [number];
      }
      number := number + 1;
    }
  }

  /** One step of the worker's scan: `number` is kept exactly when it is prime. */
  lemma ScanStep(found: seq<nat>, number: nat, end: nat)
    requires number <= end
    ensures (if Prime(number) then found + [number] else found) + PrimesIn(number + 1, end)
      == found + PrimesIn(number, end)
  {
    if Prime(number) {
      assert PrimesIn(number, end) == [number] + PrimesIn(number + 1, end);
      assert (found + [number]) + PrimesIn(number + 1, end) == found + ([number] + PrimesIn(number + 1, end));
    }
  }

  /** Gathering from span `k` on is span `k`'s primes followed by the rest. */
  lemma GatheredStep(spans: seq<Span>, k: nat, collected: seq<nat>)
    requires k < |spans|
    ensures (collected + PrimesIn(spans[k].first, spans[k].last)) + Gathered(spans[k + 1..])
      == collected + Gathered(spans[k..])
  {
    assert spans[k..][1..] == spans[k + 1..];
    assert Gathered(spans[k..]) == PrimesIn(spans[k].first, spans[k].last) + Gathered(spans[k + 1..]);
  }

  /**
   One iteration of the partition loop, statement by statement: compute the
   end of thread `i`'s share, launch a worker on `[start, end]` when it is
   non-empty, and move `start` past it. It is one step of `PartitionFrom`.
   */
  method PlanIteration(maxRange: nat, threads: nat, perThread: nat, remainder: nat, i: nat, first: nat)
    returns (launched: seq<Span>, next: nat)
    requires first >= 2 && i < threads
    ensures next > maxRange ==> launched == PartitionFrom(maxRange, threads, perThread, remainder, i, first)
    ensures next <= maxRange ==>
      (&& next >= 2
       && launched + PartitionFrom(maxRange, threads, perThread, remainder, i + 1, next)
          == PartitionFrom(maxRange, threads, perThread, remainder, i, first))
  {
    PartitionStep(maxRange, threads, perThread, remainder, i, first);
    var start: int := first;
    var end: nat := start + perThread - 1;
    if i < remainder {
      end := end + 1;
    }
    if end > maxRange {
      end := maxRange;
    }
    if start < 2 {
      start := 2;
    }
    launched := [];
    if start <= end {
      launched := [Span(start, end)];
    }
    next := end + 1;
  }

  /** The partition loop of `findPrimes`: launches the spans of `Partition`, in order. */
  method PlanRanges(maxRange: nat, threads: nat) returns (spans: seq<Span>)
    requires threads >= 1
    ensures spans == Partition(maxRange, threads)
    ensures Tiles(spans, 2, maxRange)
    ensures |spans| <= threads
  {
    var perThread := maxRange / threads;
    var remainder := maxRange % threads;
    var start: nat := 2;
    spans := [];
    var i := 0;
    while i < threads
      invariant 0 <= i <= threads
      invariant start >= 2
      invariant spans + PartitionFrom(maxRange, threads, perThread, remainder, i, start) == Partition(maxRange, threads)
    {
      var launched, next := PlanIteration(maxRange, threads, perThread, remainder, i, start);
      if next > maxRange {
        spans := spans + launched;
        break;
      }
      assert (spans + launched) + PartitionFrom(maxRange, threads, perThread, remainder, i + 1, next)
        == spans + PartitionFrom(maxRange, threads, perThread, remainder, i, start);
      spans := spans + launched;
      start := next;
      i := i + 1;
    }
    assert spans == Partition(maxRange, threads);
    PartitionTiles(maxRange, threads);
    PartitionCount(maxRange, threads);
  }

  /**
   `findPrimes` under the static strategy, with the workers run one after
   another: the result is the strictly ascending list of primes in
   `[2, max_range]`.
   */
  method FindPrimes(maxRange: nat, threads: nat) returns (primes: seq<nat>)
    requires threads >= 1
    ensures primes == PrimesIn(2, maxRange)
    ensures StrictlyAscending(primes)
  {
    var spans := PlanRanges(maxRange, threads);
    var collected: seq<nat> := [];
    var k := 0;
    while k < |spans|
      invariant 0 <= k <= |spans|
      invariant collected + Gathered(spans[k..]) == Gathered(spans)
    {
      GatheredStep(spans, k, collected);
      var found := ScanRange(spans[k].first, spans[k].last);
      collected := collected + found;
      k := k + 1;
    }
    TilesGathered(spans, 2, maxRange);
    primes := Sort(collected);
    SortCollected(collected, 2, maxRange);
  }

  /**
   The concurrent run: whatever order the workers' pushes reach the shared
   vector in, sorting it gives the strictly ascending primes of `[2, max_range]`.
   */
  lemma RangesResult(maxRange: nat, threads: nat, vector: seq<nat>)
    requires threads >= 1
    requires multiset(vector) == multiset(Gathered(Partition(maxRange, threads)))
    ensures Sort(vector) == PrimesIn(2, maxRange)
    ensures StrictlyAscending(Sort(vector))
  {
    PartitionTiles(maxRange, threads);
    TilesGathered(Partition(maxRange, threads), 2, maxRange);
    SortCollected(vector, 2, maxRange);
  }
}
