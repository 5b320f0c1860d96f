/**
 The two programs' `unsigned long long` arithmetic taken literally: every sum
 and difference is reduced modulo 2^64. The rest of the model computes with
 unbounded integers; this module shows that the two agree for every
 `max_range` below 2^64 - 1, and that at `max_range = 2^64 - 1` the
 as-written arithmetic wraps and both programs go wrong.
 */
module Unsigned {
  import opened Primality
  import opened Collect
  import opened Ranges
  import opened Linear

  /** 2^64, the modulus of `unsigned long long`. */
  const U64: nat := 0x1_0000_0000_0000_0000

  /**
   Reduction modulo 2^64, as every `unsigned long long` operation performs it,
   for the operands that occur here: a sum of two 64-bit values, or a 64-bit
   value minus one.
   */
  function Wrap64(x: int): (r: nat)
    requires -1 <= x < 2 * U64
    ensures r < U64
  {
    if x < 0 then x + U64 else if x >= U64 then x - U64 else x
  }

  /** `Wrap64` is reduction modulo 2^64. */
  lemma Wrap64IsMod(x: int)
    requires -1 <= x < 2 * U64
    ensures Wrap64(x) == x % U64
    ensures Wrap64(x) == x || Wrap64(x) == x + U64 || Wrap64(x) == x - U64
  {
  }

  // ---------------------------------------------------------------------------
  // The partition loop of the static-range program, in 64-bit arithmetic.
  // ---------------------------------------------------------------------------

  /** `end = start + numbers_per_thread - 1`, then `end += 1` for the first `remainder` threads, each step wrapping. */
  function EndU64(perThread: nat, remainder: nat, i: nat, start: nat): (r: nat)
    requires perThread < U64 && start < U64
    ensures r < U64
  {
    var end0 := Wrap64(Wrap64(start + perThread) - 1);
    if i < remainder then Wrap64(end0 + 1) else end0
  }

  /** `PartitionFrom` with `end = start + numbers_per_thread - 1`, `end += 1` and `start = end + 1` wrapping. */
  function PartitionFromU64(maxRange: nat, threads: nat, perThread: nat, remainder: nat, i: nat, start: nat): seq<Span>
    requires maxRange < U64 && perThread < U64 && start < U64
    decreases threads - i
  {
    if i >= threads then []
    else
      var end1 := EndU64(perThread, remainder, i, start);
      var end := if end1 > maxRange then maxRange else end1;
      var first := if start < 2 then 2 else start;
      var launched := if first <= end then [Span(first, end)] else [];
      var next := Wrap64(end + 1);
      if next > maxRange then launched
      else launched + PartitionFromU64(maxRange, threads, perThread, remainder, i + 1, next)
  }

  /** The subranges the as-written `findPrimes` launches workers on. */
  function PartitionU64(maxRange: nat, threads: nat): seq<Span>
    requires threads >= 1 && maxRange < U64
  {
    PartitionFromU64(maxRange, threads, maxRange / threads, maxRange % threads, 0, 2)
  }

  /**
   At `max_range = 2^64 - 1` with one thread, the nominal end `2 + (2^64 - 1) - 1`
   wraps to 0, so no worker is launched and the program reports no prime at
   all, although the unbounded partition scans the whole range and 2 is prime.
   */
  lemma PartitionWrapsAtTop()
    ensures PartitionU64(U64 - 1, 1) == []
    ensures Gathered(PartitionU64(U64 - 1, 1)) == []
    ensures Partition(U64 - 1, 1) == [Span(2, U64 - 1)]
    ensures 2 in PrimesIn(2, U64 - 1)
  {
    EarlyExitsSound(2);
    PrimesInMembers(2, U64 - 1, 2);
  }

  /** Thread `i`'s nominal end, `start + numbers_per_thread - 1`, plus one for the first `remainder` threads. */
  function NominalEnd(per: nat, rem: nat, i: nat, start: nat): nat
    requires start >= 1
  {
    start + per - 1 + (if i < rem then 1 else 0)
  }

  /** A worker on `[first, end]`, or none when that range is empty. */
  function Launch(first: nat, end: nat): seq<Span> {
    if first <= end then [Span(first, end)] else []
  }

  /** The wrapping end computation gives the nominal end while that stays below 2^64. */
  lemma EndU64NoWrap(per: nat, rem: nat, i: nat, start: nat)
    requires 2 <= start < U64 && per < U64 && start + per <= U64
    requires NominalEnd(per, rem, i, start) < U64
    ensures EndU64(per, rem, i, start) == NominalEnd(per, rem, i, start)
  {
    assert Wrap64(Wrap64(start + per) - 1) == start + per - 1 by {
      if start + per < U64 {
        assert Wrap64(start + per) == start + per;
      } else {
        assert Wrap64(start + per) == 0;
      }
    }
  }

  /** A wrapping iteration after which the loop goes on. */
  lemma ContinueU64(maxRange: nat, threads: nat, per: nat, rem: nat, i: nat, start: nat)
    requires i < threads && 2 <= start < U64 && per < U64 && start + per <= U64 && maxRange < U64
    requires NominalEnd(per, rem, i, start) + 1 <= maxRange
    ensures PartitionFromU64(maxRange, threads, per, rem, i, start)
      == Launch(start, NominalEnd(per, rem, i, start))
         + PartitionFromU64(maxRange, threads, per, rem, i + 1, NominalEnd(per, rem, i, start) + 1)
  {
    EndU64NoWrap(per, rem, i, start);
  }

  /** A wrapping iteration after which the loop stops. */
  lemma LastU64(maxRange: nat, threads: nat, per: nat, rem: nat, i: nat, start: nat)
    requires i < threads && 2 <= start < U64 && per < U64 && start + per <= U64 && maxRange < U64 - 1
    requires maxRange < NominalEnd(per, rem, i, start) + 1 <= U64
    ensures PartitionFromU64(maxRange, threads, per, rem, i, start)
      == Launch(start, Min(NominalEnd(per, rem, i, start), maxRange))
  {
    EndU64NoWrap(per, rem, i, start);
  }

  /** An unbounded iteration after which the loop goes on. */
  lemma Continue(maxRange: nat, threads: nat, per: nat, rem: nat, i: nat, start: nat)
    requires i < threads && 2 <= start
    requires NominalEnd(per, rem, i, start) + 1 <= maxRange
    ensures PartitionFrom(maxRange, threads, per, rem, i, start)
      == Launch(start, NominalEnd(per, rem, i, start))
         + PartitionFrom(maxRange, threads, per, rem, i + 1, NominalEnd(per, rem, i, start) + 1)
  {
  }

  /** An unbounded iteration after which the loop stops. */
  lemma Last(maxRange: nat, threads: nat, per: nat, rem: nat, i: nat, start: nat)
    requires i < threads && 2 <= start
    requires maxRange < NominalEnd(per, rem, i, start) + 1
    ensures PartitionFrom(maxRange, threads, per, rem, i, start)
      == Launch(start, Min(NominalEnd(per, rem, i, start), maxRange))
  {
  }

  /** While no intermediate value reaches 2^64, the wrapping loop is the unbounded one. */
  lemma {:induction false} PartitionFromU64Agrees(maxRange: nat, threads: nat, per: nat, rem: nat, i: nat, start: nat)
    requires maxRange < U64 - 1 && per <= maxRange
    requires ShareStart(per, rem, threads) == maxRange + 2
    requires i <= threads && start == ShareStart(per, rem, i) && start < U64
    ensures PartitionFromU64(maxRange, threads, per, rem, i, start) == PartitionFrom(maxRange, threads, per, rem, i, start)
    decreases threads - i
  {
    if i < threads {
      var next := NominalEnd(per, rem, i, start) + 1;
      assert next == ShareStart(per, rem, i + 1);
      ShareStartMonotone(per, rem, i + 1, threads);
      if next <= maxRange {
        PartitionFromU64Agrees(maxRange, threads, per, rem, i + 1, next);
        ContinueU64(maxRange, threads, per, rem, i, start);
        Continue(maxRange, threads, per, rem, i, start);
      } else {
        LastU64(maxRange, threads, per, rem, i, start);
        Last(maxRange, threads, per, rem, i, start);
      }
    }
  }

  /** For every `max_range` below 2^64 - 1 the as-written partition is the unbounded one. */
  lemma PartitionU64Agrees(maxRange: nat, threads: nat)
    requires threads >= 1 && maxRange < U64 - 1
    ensures PartitionU64(maxRange, threads) == Partition(maxRange, threads)
    ensures Tiles(PartitionU64(maxRange, threads), 2, maxRange)
  {
    ShareFacts(maxRange, threads);
    PartitionFromU64Agrees(maxRange, threads, maxRange / threads, maxRange % threads, 0, 2);
    PartitionTiles(maxRange, threads);
  }

  /**
   The last thread's iteration at `max_range = 2^64 - 1`: its nominal end is
   `2^64`, which wraps to 0, so its share is not launched and `start = end + 1`
   becomes 1, which lets the loop run on to its thread count.
   */
  lemma TopShareWraps(threads: nat, per: nat, rem: nat, start: nat)
    requires threads >= 1 && rem <= threads - 1 && 2 <= per < U64 && start + per == U64 + 1
    ensures PartitionFromU64(U64 - 1, threads, per, rem, threads - 1, start) == []
  {
    assert EndU64(per, rem, threads - 1, start) == 0 by {
      assert Wrap64(start + per) == 1;
    }
    assert Wrap64(0 + 1) == 1;
  }

  /** The last thread's iteration: the wrapping loop launches nothing, the unbounded one the clamped share. */
  lemma DropsLastBase(threads: nat, per: nat, rem: nat, start: nat)
    requires threads >= 1 && per == (U64 - 1) / threads && rem == (U64 - 1) % threads && per >= 2
    requires start == ShareStart(per, rem, threads - 1)
    ensures start < U64
    ensures PartitionFromU64(U64 - 1, threads, per, rem, threads - 1, start) + [Span(start, U64 - 1)]
      == PartitionFrom(U64 - 1, threads, per, rem, threads - 1, start)
  {
    assert start + per == U64 + 1 && rem <= threads - 1 by {
      LastShareClamped(U64 - 1, threads);
    }
    TopShareWraps(threads, per, rem, start);
    Last(U64 - 1, threads, per, rem, threads - 1, start);
  }

  /**
   An earlier iteration: both loops launch the same subrange and go on from the
   same next start, so dropping the last share later drops it here too.
   */
  lemma DropsLastStep(threads: nat, per: nat, rem: nat, i: nat, start: nat, last: nat)
    requires i < threads && 2 <= start && per < U64
    requires NominalEnd(per, rem, i, start) + 1 <= U64 - 1
    requires PartitionFromU64(U64 - 1, threads, per, rem, i + 1, NominalEnd(per, rem, i, start) + 1) + [Span(last, U64 - 1)]
      == PartitionFrom(U64 - 1, threads, per, rem, i + 1, NominalEnd(per, rem, i, start) + 1)
    ensures start < U64
    ensures PartitionFromU64(U64 - 1, threads, per, rem, i, start) + [Span(last, U64 - 1)]
      == PartitionFrom(U64 - 1, threads, per, rem, i, start)
  {
    var top := U64 - 1;
    var next := NominalEnd(per, rem, i, start) + 1;
    var head := Launch(start, NominalEnd(per, rem, i, start));
    var restU64 := PartitionFromU64(top, threads, per, rem, i + 1, next);
    var rest := PartitionFrom(top, threads, per, rem, i + 1, next);
    calc {
      PartitionFromU64(top, threads, per, rem, i, start) + [Span(last, top)];
    == { ContinueU64(top, threads, per, rem, i, start); }
      (head + restU64) + [Span(last, top)];
    == // associativity
      head + (restU64 + [Span(last, top)]);
    == head + rest;
    == { Continue(top, threads, per, rem, i, start); }
      PartitionFrom(top, threads, per, rem, i, start);
    }
  }

  /**
   From iteration `i` on, at `max_range = 2^64 - 1`, the wrapping loop launches
   the unbounded loop's subranges except the last thread's share.
   */
  lemma {:induction false} PartitionFromU64DropsLast(threads: nat, per: nat, rem: nat, i: nat, start: nat)
    requires threads >= 1 && per == (U64 - 1) / threads && rem == (U64 - 1) % threads && per >= 2
    requires i < threads && start == ShareStart(per, rem, i) && start < U64
    ensures PartitionFromU64(U64 - 1, threads, per, rem, i, start) + [Span(ShareStart(per, rem, threads - 1), U64 - 1)]
      == PartitionFrom(U64 - 1, threads, per, rem, i, start)
    decreases threads - i
  {
    if i == threads - 1 {
      DropsLastBase(threads, per, rem, start);
    } else {
      var last := ShareStart(per, rem, threads - 1);
      var next := NominalEnd(per, rem, i, start) + 1;
      assert next == ShareStart(per, rem, i + 1);
      assert next <= U64 - 1 by {
        LastShareClamped(U64 - 1, threads);
        ShareStartMonotone(per, rem, i + 1, threads - 1);
      }
      assert PartitionFromU64(U64 - 1, threads, per, rem, i + 1, next) + [Span(last, U64 - 1)]
        == PartitionFrom(U64 - 1, threads, per, rem, i + 1, next) by {
        PartitionFromU64DropsLast(threads, per, rem, i + 1, next);
      }
      DropsLastStep(threads, per, rem, i, start, last);
    }
  }

  /**
   At `max_range = 2^64 - 1`, for every `int` thread count, the as-written loop
   launches every subrange of the unbounded partition except the last one,
   `[2^64 + 1 - max_range / num_threads, max_range]`, which is non-empty: its
   numbers are never checked for primality.
   */
  lemma PartitionDropsLastShare(threads: nat)
    requires 1 <= threads < 0x8000_0000
    ensures U64 + 1 - (U64 - 1) / threads <= U64 - 1
    ensures PartitionU64(U64 - 1, threads) + [Span(U64 + 1 - (U64 - 1) / threads, U64 - 1)]
      == Partition(U64 - 1, threads)
  {
    var top := U64 - 1;
    var per, rem := top / threads, top % threads;
    assert per >= 2 by {
      assert top == threads * per + rem;
    }
    LastShareClamped(top, threads);
    PartitionFromU64DropsLast(threads, per, rem, 0, 2);
  }

  // ---------------------------------------------------------------------------
  // The shared counter of the shared-counter program, in 64-bit arithmetic.
  // ---------------------------------------------------------------------------

  /** `Step` with `fetch_add(1)` wrapping from 2^64 - 1 to 0. */
  function StepU64(s: State, maxRange: nat, w: nat): (t: State)
    requires s.counter < U64
    ensures t.counter < U64
  {
    if w >= |s.retired| || s.retired[w] then s
    else
      var number := s.counter;
      State(Wrap64(s.counter + 1),
            if number > maxRange then s.retired[w := true] else s.retired,
            s.claims + [Claim(w, number)],
            if number <= maxRange && IsPrime(number) then s.found + multiset{number} else s.found)
  }

  /** The passes of `schedule` with the wrapping counter. */
  function RunU64(s: State, maxRange: nat, schedule: seq<nat>): State
    requires s.counter < U64
    decreases |schedule|
  {
    if schedule == [] then s else RunU64(StepU64(s, maxRange, schedule[0]), maxRange, schedule[1..])
  }

  /**
   While `max_range + num_threads + 2 < 2^64`, the counter never reaches 2^64
   (it stops at `max_range + 1 + num_threads`, or `2 + num_threads` when
   `max_range < 2`), so every run with the wrapping counter is the unbounded run.
   */
  lemma {:induction false} RunU64Agrees(s: State, maxRange: nat, threads: nat, schedule: seq<nat>)
    requires Inv(s, maxRange, threads) && maxRange + threads + 2 < U64 && s.counter < U64
    ensures RunU64(s, maxRange, schedule) == Run(s, maxRange, schedule)
    decreases |schedule|
  {
    if schedule != [] {
      var w := schedule[0];
      if w < |s.retired| && !s.retired[w] {
        CountRetiredSet(s.retired, w);
        CountRetiredBound(s.retired[w := true]);
        assert s.counter + 1 < U64;
      }
      assert StepU64(s, maxRange, schedule[0]) == Step(s, maxRange, schedule[0]);
      StepInv(s, maxRange, threads, schedule[0]);
      RunU64Agrees(Step(s, maxRange, schedule[0]), maxRange, threads, schedule[1..]);
    }
  }

  /** From spawning on, the wrapping counter and the unbounded one give the same run. */
  lemma SpawnRunU64Agrees(maxRange: nat, threads: nat, schedule: seq<nat>)
    requires maxRange + threads + 2 < U64
    ensures RunU64(Spawn(threads), maxRange, schedule) == Run(Spawn(threads), maxRange, schedule)
  {
    SpawnInv(maxRange, threads);
    RunU64Agrees(Spawn(threads), maxRange, threads, schedule);
  }

  /**
   At `max_range = 2^64 - 1` every value the counter can hold is inside the
   range, so no worker ever leaves its loop, whatever the schedule: the joins
   never return.
   */
  lemma {:induction false} CounterNeverExceedsTop(s: State, schedule: seq<nat>)
    requires s.counter < U64
    ensures RunU64(s, U64 - 1, schedule).retired == s.retired
    ensures RunU64(s, U64 - 1, schedule).counter < U64
    decreases |schedule|
  {
    if schedule != [] {
      CounterNeverExceedsTop(StepU64(s, U64 - 1, schedule[0]), schedule[1..]);
    }
  }

  /** With the wrapping counter and `max_range = 2^64 - 1`, no run ever completes. */
  lemma CounterWrapsAtTop(threads: nat, schedule: seq<nat>)
    requires threads >= 1
    ensures !AllRetired(RunU64(Spawn(threads), U64 - 1, schedule))
  {
    assert !Spawn(threads).retired[0];
    CounterNeverExceedsTop(Spawn(threads), schedule);
  }

  /**
   Below the top the counter still wraps once `max_range + num_threads >= 2^64`:
   the over-range values run out before every worker has received one. With
   `max_range = 2^64 - 2` and two workers, once the values up to `max_range`
   have been claimed (counter `2^64 - 1`), worker 0 takes `2^64 - 1` and stops,
   the counter wraps, and worker 1 takes 0, 1, 2, ... and pushes 2 a second
   time while still running.
   */
  lemma CounterWrapsPastTop(s: State)
    requires Inv(s, U64 - 2, 2) && s.counter == U64 - 1
    ensures var t := RunU64(s, U64 - 2, [0, 1, 1, 1]);
      && t.claims == s.claims + [Claim(0, U64 - 1), Claim(1, 0), Claim(1, 1), Claim(1, 2)]
      && t.counter == 3
      && t.retired == [true, false]
      && t.found[2] == 2
  {
    var top := U64 - 2;
    assert !s.retired[0] && !s.retired[1] by {
      assert CountRetired(s.retired) == 0;
      assert CountRetired(s.retired[1..]) == (if s.retired[1] then 1 else 0) + CountRetired(s.retired[1..][1..]);
    }
    assert s.found[2] == 1 by {
      EarlyExitsSound(2);
    }
    assert !IsPrime(0) && !IsPrime(1) && IsPrime(2) by {
      EarlyExitsSound(0);
      EarlyExitsSound(1);
      EarlyExitsSound(2);
    }
    var s1 := StepU64(s, top, 0);
    assert s1 == State(0, [true, false], s.claims + [Claim(0, U64 - 1)], s.found) by {
      assert s.retired == [false, false];
    }
    var s2 := StepU64(s1, top, 1);
    assert s2 == State(1, [true, false], s1.claims + [Claim(1, 0)], s.found);
    var s3 := StepU64(s2, top, 1);
    assert s3 == State(2, [true, false], s2.claims + [Claim(1, 1)], s.found);
    var s4 := StepU64(s3, top, 1);
    assert s4 == State(3, [true, false], s3.claims + [Claim(1, 2)], s.found + multiset{2});
    assert RunU64(s, top, [0, 1, 1, 1]) == s4 by {
      assert [0, 1, 1, 1][1..] == [1, 1, 1];
      assert [1, 1, 1][1..] == [1, 1];
      assert [1, 1][1..] == [1];
      assert [1][1..] == [];
    }
    assert s4.claims == s.claims + [Claim(0, U64 - 1), Claim(1, 0), Claim(1, 1), Claim(1, 2)];
  }
}
