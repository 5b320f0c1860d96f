/**
 The two search programs side by side: the static-range program and the
 shared-counter program answer every `max_range` with the same list, whatever
 the thread counts and however the threads were interleaved.
 */
module Search {
  import opened Primality
  import opened Collect
  import opened Ranges
  import opened Linear

  /**
   Any final vector of the static-range program and any final vector of a
   completed shared-counter run sort to the same list.
   */
  lemma StrategiesAgree(maxRange: nat, rangeThreads: nat, rangeVector: seq<nat>,
                        counterThreads: nat, schedule: seq<nat>, counterVector: seq<nat>)
    requires rangeThreads >= 1 && counterThreads >= 1
    requires multiset(rangeVector) == multiset(Gathered(Partition(maxRange, rangeThreads)))
    requires AllRetired(Run(Spawn(counterThreads), maxRange, schedule))
    requires multiset(counterVector) == Run(Spawn(counterThreads), maxRange, schedule).found
    ensures Sort(rangeVector) == Sort(counterVector)
  {
    RangesResult(maxRange, rangeThreads, rangeVector);
    LinearResult(maxRange, counterThreads, schedule, counterVector);
  }

  /** With one thread the static-range program scans `[2, max_range]` as a single range. */
  lemma SingleThreadIsSequential(maxRange: nat)
    requires maxRange >= 2
    ensures Partition(maxRange, 1) == [Span(2, maxRange)]
    ensures Gathered(Partition(maxRange, 1)) == PrimesIn(2, maxRange)
  {
    assert Partition(maxRange, 1) == [Span(2, maxRange)];
    PartitionTiles(maxRange, 1);
    TilesGathered(Partition(maxRange, 1), 2, maxRange);
  }

  /** The smallest ranges: `[2]`, `[2, 3]` and `[2, 3]`. */
  lemma SmallRanges()
    ensures PrimesIn(2, 2) == [2]
    ensures PrimesIn(2, 3) == [2, 3]
    ensures PrimesIn(2, 4) == [2, 3]
  {
    assert PrimesIn(4, 4) == [] by { EarlyExitsSound(4); }
    assert PrimesIn(3, 4) == [3] by { EarlyExitsSound(3); }
    assert PrimesIn(2, 4) == [2, 3] by { EarlyExitsSound(2); }
    assert PrimesIn(3, 3) == [3] by { EarlyExitsSound(3); }
    assert PrimesIn(2, 3) == [2, 3] by { EarlyExitsSound(2); }
    assert PrimesIn(2, 2) == [2] by { EarlyExitsSound(2); }
  }

  /** The primes up to 10, two of them decided by the wheel loop of the oracle. */
  lemma PrimesUpToTen()
    ensures PrimesIn(2, 10) == [2, 3, 5, 7]
  {
    assert PrimesIn(10, 10) == [] by { EarlyExitsSound(10); }
    assert PrimesIn(9, 10) == [] by { EarlyExitsSound(9); }
    assert PrimesIn(8, 10) == [] by { EarlyExitsSound(8); }
    assert PrimesIn(7, 10) == [7] by { assert IsPrime(7); }
    assert PrimesIn(6, 10) == [7] by { EarlyExitsSound(6); }
    assert PrimesIn(5, 10) == [5, 7] by { assert IsPrime(5); }
    assert PrimesIn(4, 10) == [5, 7] by { EarlyExitsSound(4); }
    assert PrimesIn(3, 10) == [3, 5, 7] by { EarlyExitsSound(3); }
    assert PrimesIn(2, 10) == [2, 3, 5, 7] by { EarlyExitsSound(2); }
  }

  /**
   The oracle on numbers that reach its wheel loop: 25 and 35 leave it through
   the first disjunct `n % i == 0` with `i = 5`, 49 through the second,
   `n % (i + 2) == 0` with `i + 2 = 7`, and 29 passes the round `i = 5` and is
   accepted once `11 * 11 > 29`.
   */
  lemma OracleExamples()
    ensures !IsPrime(25) && !IsPrime(35) && !IsPrime(49)
    ensures IsPrime(29)
    ensures !Prime(25) && !Prime(35) && !Prime(49) && Prime(29)
  {
    assert !IsPrime(25) by {
      assert 25 % 5 == 0;
    }
    assert !IsPrime(35) by {
      assert 35 % 5 == 0;
    }
    assert !IsPrime(49) by {
      assert 49 % 5 != 0 && 49 % 7 == 0;
    }
    assert IsPrime(29) by {
      assert 29 % 5 != 0 && 29 % 7 != 0;
      assert 11 * 11 > 29;
    }
  }
}
