/**
 The dynamic strategy of `printAfterLinear/primeSearch.cpp`: a shared atomic
 counter starts at 2, and every worker repeatedly takes `fetch_add(1)`,
 leaves its loop as soon as the value it got exceeds `max_range`, and
 otherwise tests the value and pushes it into the shared vector if it is prime.

 Threads are replaced by an explicit schedule: a sequence of worker ids, each
 entry standing for one pass of that worker's loop. Because every sequence is
 allowed, the lemmas below hold for every interleaving. A pass is one atomic
 step (claim, test, push): the value a worker claims is private to it, and
 pushes land in a multiset, so splitting the pass into finer steps would not
 change which states can be reached at the end.
 */
module Linear {
  import opened Primality
  import opened Collect

  /** One `fetch_add` on the shared counter: the worker that made it and the value it returned. */
  datatype Claim = Claim(worker: nat, value: nat)

  /**
   The shared state of one `findPrimes` run: the atomic counter, which
   workers have left their loop, every claim in the order the counter granted
   it, and the primes pushed into the vector so far.
   */
  datatype State = State(counter: nat, retired: seq<bool>, claims: seq<Claim>, found: multiset<nat>)

  /**
   The state once `findPrimes` has cleared the vector and spawned
   `num_threads` workers, with the counter at its initial value 2.
   */
  function Spawn(threads: nat): State {
    State(2, seq(threads, _ => false), [], multiset{})
  }

  /**
   One pass of worker `w`'s loop: take the counter's value and advance it by
   one; past `max_range` the worker leaves its loop, otherwise it pushes the
   value if the oracle says it is prime. A worker that has left, or that was
   never spawned, takes no step.
   */
  function Step(s: State, maxRange: nat, w: nat): State {
    if w >= |s.retired| || s.retired[w] then s
    else
      var number := s.counter;
      State(s.counter + 1,
            if number > maxRange then s.retired[w := true] else s.retired,
            s.claims + [Claim(w, number)],
            if number <= maxRange && IsPrime(number) then s.found + multiset{number} else s.found)
  }

  /** The passes of `schedule`, in order. */
  function Run(s: State, maxRange: nat, schedule: seq<nat>): State
    decreases |schedule|
  {
    if schedule == [] then s else Run(Step(s, maxRange, schedule[0]), maxRange, schedule[1..])
  }

  /** Every spawned worker has left its loop, so every `join` has returned. */
  predicate AllRetired(s: State) {
    forall w :: 0 <= w < |s.retired| ==> s.retired[w]
  }

  /** Number of workers that have left their loop. */
  function CountRetired(r: seq<bool>): nat {
    if r == [] then 0 else (if r[0] then 1 else 0) + CountRetired(r[1..])
  }

  /** Number of values claimed inside `[2, max_range]` among claims returning `2, 3, ..., n + 1`. */
  function InRangeClaims(n: nat, maxRange: nat): nat {
    if maxRange < 2 then 0 else if n <= maxRange - 1 then n else maxRange - 1
  }

  /** How many claims returned `v`. */
  function ClaimCount(claims: seq<Claim>, v: nat): nat {
    if claims == [] then 0
    else ClaimCount(claims[..|claims| - 1], v) + (if claims[|claims| - 1].value == v then 1 else 0)
  }

  /** Retiring one more worker adds one to the count. */
  lemma {:induction false} CountRetiredSet(r: seq<bool>, w: nat)
    requires w < |r| && !r[w]
    ensures CountRetired(r[w := true]) == CountRetired(r) + 1
  {
    if w > 0 {
      assert r[w := true][1..] == r[1..][w - 1 := true];
      CountRetiredSet(r[1..], w - 1);
    }
  }

  /** When everyone has retired, the count is the number of workers. */
  lemma {:induction false} CountRetiredAll(r: seq<bool>)
    requires forall w :: 0 <= w < |r| ==> r[w]
    ensures CountRetired(r) == |r|
  {
    if r != [] {
      CountRetiredAll(r[1..]);
    }
  }

  /** Nobody has retired at spawn time. */
  lemma {:induction false} CountRetiredNone(r: seq<bool>)
    requires forall w :: 0 <= w < |r| ==> !r[w]
    ensures CountRetired(r) == 0
  {
    if r != [] {
      CountRetiredNone(r[1..]);
    }
  }

  /** Worker `w` made a claim that returned a value past `max_range`. */
  ghost predicate ClaimedPastRange(claims: seq<Claim>, maxRange: nat, w: nat) {
    exists k :: 0 <= k < |claims| && claims[k].worker == w && claims[k].value > maxRange
  }

  /** The counter is 2 plus the number of claims, and the k-th claim returned `k + 2`. */
  ghost predicate CounterInv(s: State, threads: nat) {
    && |s.retired| == threads
    && s.counter == 2 + |s.claims|
    && (forall k :: 0 <= k < |s.claims| ==> s.claims[k].value == k + 2 && s.claims[k].worker < threads)
  }

  /**
   A worker that claimed a value past `max_range` has retired and claims
   nothing afterwards, and every retired worker made such a claim.
   */
  ghost predicate RetireInv(s: State, maxRange: nat) {
    && (forall k :: 0 <= k < |s.claims| && s.claims[k].value > maxRange ==>
          s.claims[k].worker < |s.retired| && s.retired[s.claims[k].worker])
    && (forall j, k :: 0 <= j < k < |s.claims| && s.claims[j].worker == s.claims[k].worker ==>
          s.claims[j].value <= maxRange)
    && (forall w :: 0 <= w < |s.retired| && s.retired[w] ==> ClaimedPastRange(s.claims, maxRange, w))
  }

  /** The claims split into those inside the range and one per retired worker. */
  ghost predicate CountInv(s: State, maxRange: nat) {
    |s.claims| == InRangeClaims(|s.claims|, maxRange) + CountRetired(s.retired)
  }

  /** The vector holds each prime claimed so far inside the range, once, and nothing else. */
  ghost predicate FoundInv(s: State, maxRange: nat) {
    forall x :: s.found[x] == if 2 <= x <= maxRange && x < s.counter && Prime(x) then 1 else 0
  }

  /** What stays true of a run after any number of passes. */
  ghost predicate Inv(s: State, maxRange: nat, threads: nat) {
    CounterInv(s, threads) && RetireInv(s, maxRange) && CountInv(s, maxRange) && FoundInv(s, maxRange)
  }

  /** The invariant holds right after spawning. */
  lemma SpawnInv(maxRange: nat, threads: nat)
    ensures Inv(Spawn(threads), maxRange, threads)
  {
    CountRetiredNone(Spawn(threads).retired);
  }

  /** A pass that claims a value appends it, at index `|claims|`, to the claims. */
  lemma StepClaims(s: State, maxRange: nat, w: nat)
    requires w < |s.retired| && !s.retired[w]
    ensures var t := Step(s, maxRange, w);
      && |t.claims| == |s.claims| + 1
      && (forall k :: 0 <= k < |s.claims| ==> t.claims[k] == s.claims[k])
      && t.claims[|s.claims|] == Claim(w, s.counter)
  {
  }

  /**
   The retirement bookkeeping survives a claim by a live worker `w`: `t` is
   the state after the claim, given by its claims and retired flags only.
   */
  lemma ClaimRetireInv(s: State, t: State, maxRange: nat, threads: nat, w: nat)
    requires CounterInv(s, threads) && RetireInv(s, maxRange)
    requires w < |s.retired| && !s.retired[w]
    requires t.claims == s.claims + [Claim(w, s.counter)]
    requires t.retired == if s.counter > maxRange then s.retired[w := true] else s.retired
    ensures RetireInv(t, maxRange)
  {
    var n := |s.claims|;
    forall k | 0 <= k < |t.claims| && t.claims[k].value > maxRange
      ensures t.claims[k].worker < |t.retired| && t.retired[t.claims[k].worker]
    {
      if k < n {
        assert t.claims[k] == s.claims[k];
      }
    }
    forall j, k | 0 <= j < k < |t.claims| && t.claims[j].worker == t.claims[k].worker
      ensures t.claims[j].value <= maxRange
    {
      assert t.claims[j] == s.claims[j];
      if k < n {
        assert t.claims[k] == s.claims[k];
      }
    }
    forall w' | 0 <= w' < |t.retired| && t.retired[w']
      ensures ClaimedPastRange(t.claims, maxRange, w')
    {
      if w' == w && s.counter > maxRange {
        assert t.claims[n].worker == w' && t.claims[n].value > maxRange;
      } else {
        assert ClaimedPastRange(s.claims, maxRange, w');
        var k :| 0 <= k < n && s.claims[k].worker == w' && s.claims[k].value > maxRange;
        assert t.claims[k].worker == w' && t.claims[k].value > maxRange;
      }
    }
  }

  lemma StepRetireInv(s: State, maxRange: nat, threads: nat, w: nat)
    requires CounterInv(s, threads) && RetireInv(s, maxRange)
    requires w < |s.retired| && !s.retired[w]
    ensures RetireInv(Step(s, maxRange, w), maxRange)
  {
    ClaimRetireInv(s, Step(s, maxRange, w), maxRange, threads, w);
  }

  lemma StepCountInv(s: State, maxRange: nat, threads: nat, w: nat)
    requires CounterInv(s, threads) && CountInv(s, maxRange)
    requires w < |s.retired| && !s.retired[w]
    ensures CountInv(Step(s, maxRange, w), maxRange)
  {
    if s.counter > maxRange {
      CountRetiredSet(s.retired, w);
    }
  }

  lemma StepFoundInv(s: State, maxRange: nat, threads: nat, w: nat)
    requires CounterInv(s, threads) && FoundInv(s, maxRange)
    requires w < |s.retired| && !s.retired[w]
    ensures FoundInv(Step(s, maxRange, w), maxRange)
  {
  }

  /** One pass of any worker preserves the invariant. */
  lemma StepInv(s: State, maxRange: nat, threads: nat, w: nat)
    requires Inv(s, maxRange, threads)
    ensures Inv(Step(s, maxRange, w), maxRange, threads)
  {
    if w < |s.retired| && !s.retired[w] {
      StepClaims(s, maxRange, w);
      StepRetireInv(s, maxRange, threads, w);
      StepCountInv(s, maxRange, threads, w);
      StepFoundInv(s, maxRange, threads, w);
    }
  }

  /** Any schedule preserves the invariant. */
  lemma {:induction false} RunInv(s: State, maxRange: nat, threads: nat, schedule: seq<nat>)
    requires Inv(s, maxRange, threads)
    ensures Inv(Run(s, maxRange, schedule), maxRange, threads)
    decreases |schedule|
  {
    if schedule != [] {
      StepInv(s, maxRange, threads, schedule[0]);
      RunInv(Step(s, maxRange, schedule[0]), maxRange, threads, schedule[1..]);
    }
  }

  /** Claims returning consecutive values from 2 return each value of `[2, 2 + |claims|)` exactly once. */
  lemma {:induction false} ConsecutiveClaimCount(claims: seq<Claim>, v: nat)
    requires forall k :: 0 <= k < |claims| ==> claims[k].value == k + 2
    ensures ClaimCount(claims, v) == if 2 <= v < 2 + |claims| then 1 else 0
    decreases |claims|
  {
    if claims != [] {
      var prefix := claims[..|claims| - 1];
      assert forall k :: 0 <= k < |prefix| ==> prefix[k] == claims[k];
      ConsecutiveClaimCount(prefix, v);
    }
  }

  /**
   Under every schedule, the claims return 2, 3, 4, ... in the order the
   counter grants them (the k-th claim, counting from 1, returns `k + 1`), the
   counter has advanced once per claim, and no value is ever returned twice.
   */
  lemma ClaimsInOrder(maxRange: nat, threads: nat, schedule: seq<nat>)
    ensures var s := Run(Spawn(threads), maxRange, schedule);
      && s.counter == 2 + |s.claims|
      && (forall k :: 0 <= k < |s.claims| ==> s.claims[k].value == k + 2)
      && (forall v: nat :: ClaimCount(s.claims, v) == if 2 <= v < s.counter then 1 else 0)
  {
    var s := Run(Spawn(threads), maxRange, schedule);
    SpawnInv(maxRange, threads);
    RunInv(Spawn(threads), maxRange, threads, schedule);
    forall v: nat
      ensures ClaimCount(s.claims, v) == if 2 <= v < s.counter then 1 else 0
    {
      ConsecutiveClaimCount(s.claims, v);
    }
  }

  /**
   Once a claim returns a value past `max_range`, so does every later claim;
   the worker that received it has left its loop and makes no later claim.
   */
  lemma OverRangeIsFinal(maxRange: nat, threads: nat, schedule: seq<nat>)
    ensures var s := Run(Spawn(threads), maxRange, schedule);
      forall j, k :: 0 <= j < k < |s.claims| && s.claims[j].value > maxRange ==>
        s.claims[k].value > maxRange && s.claims[k].worker != s.claims[j].worker
    ensures var s := Run(Spawn(threads), maxRange, schedule);
      forall k :: 0 <= k < |s.claims| && s.claims[k].value > maxRange ==>
        s.claims[k].worker < |s.retired| && s.retired[s.claims[k].worker]
  {
    SpawnInv(maxRange, threads);
    RunInv(Spawn(threads), maxRange, threads, schedule);
  }

  /**
   When every worker has retired, each made exactly one claim past
   `max_range`, so the counter has ended at `max_range + 1 + num_threads`
   (for `max_range >= 1`; the counter cannot go below its initial 2).
   */
  lemma FinalCounter(maxRange: nat, threads: nat, schedule: seq<nat>)
    requires threads >= 1
    requires AllRetired(Run(Spawn(threads), maxRange, schedule))
    ensures var s := Run(Spawn(threads), maxRange, schedule);
      s.counter == (if maxRange == 0 then 1 else maxRange) + 1 + threads
    ensures var s := Run(Spawn(threads), maxRange, schedule);
      forall w :: 0 <= w < threads ==> ClaimedPastRange(s.claims, maxRange, w)
    ensures var s := Run(Spawn(threads), maxRange, schedule);
      forall j, k ::
        (0 <= j < |s.claims| && 0 <= k < |s.claims| && s.claims[j].worker == s.claims[k].worker
         && s.claims[j].value > maxRange && s.claims[k].value > maxRange) ==> j == k
  {
    var s := Run(Spawn(threads), maxRange, schedule);
    SpawnInv(maxRange, threads);
    RunInv(Spawn(threads), maxRange, threads, schedule);
    CountRetiredAll(s.retired);
  }

  /**
   When every worker has retired (and at least one was spawned), every value
   of `[2, max_range]` was returned by exactly one claim, to exactly one worker.
   */
  lemma EveryValueClaimedOnce(maxRange: nat, threads: nat, schedule: seq<nat>)
    requires threads >= 1
    requires AllRetired(Run(Spawn(threads), maxRange, schedule))
    ensures var s := Run(Spawn(threads), maxRange, schedule);
      forall v: nat :: 2 <= v <= maxRange ==> ClaimCount(s.claims, v) == 1
  {
    ClaimsInOrder(maxRange, threads, schedule);
    FinalCounter(maxRange, threads, schedule);
  }

  /**
   `findPrimes` under the dynamic strategy: once every worker has retired,
   the vector holds each prime of `[2, max_range]` exactly once, and sorting
   it, whatever order the pushes arrived in, gives the strictly ascending
   primes of `[2, max_range]`, independently of `num_threads` and of the
   schedule.
   */
  lemma LinearResult(maxRange: nat, threads: nat, schedule: seq<nat>, vector: seq<nat>)
    requires threads >= 1
    requires AllRetired(Run(Spawn(threads), maxRange, schedule))
    requires multiset(vector) == Run(Spawn(threads), maxRange, schedule).found
    ensures Run(Spawn(threads), maxRange, schedule).found == multiset(PrimesIn(2, maxRange))
    ensures Sort(vector) == PrimesIn(2, maxRange)
    ensures StrictlyAscending(Sort(vector))
  {
    var s := Run(Spawn(threads), maxRange, schedule);
    SpawnInv(maxRange, threads);
    RunInv(Spawn(threads), maxRange, threads, schedule);
    FinalCounter(maxRange, threads, schedule);
    forall x: nat
      ensures s.found[x] == multiset(PrimesIn(2, maxRange))[x]
    {
      PrimesInCount(2, maxRange, x);
    }
    assert s.found == multiset(PrimesIn(2, maxRange));
    SortCollected(vector, 2, maxRange);
  }

  /**
   Under every schedule at most `max_range - 1 + num_threads` claims are ever
   made: each worker makes at most one claim past the range, so no worker
   loops forever once the range is exhausted.
   */
  lemma ClaimsBounded(maxRange: nat, threads: nat, schedule: seq<nat>)
    ensures var s := Run(Spawn(threads), maxRange, schedule);
      |s.claims| <= InRangeClaims(|s.claims|, maxRange) + threads
    ensures |Run(Spawn(threads), maxRange, schedule).claims| <= (if maxRange >= 2 then maxRange - 1 else 0) + threads
  {
    var s := Run(Spawn(threads), maxRange, schedule);
    SpawnInv(maxRange, threads);
    RunInv(Spawn(threads), maxRange, threads, schedule);
    CountRetiredBound(s.retired);
  }

  /** At most every worker has retired. */
  lemma {:induction false} CountRetiredBound(r: seq<bool>)
    ensures CountRetired(r) <= |r|
  {
    if r != [] {
      CountRetiredBound(r[1..]);
    }
  }

  /** Running `a` and then `b` is running `a + b`. */
  lemma {:induction false} RunAppend(s: State, maxRange: nat, a: seq<nat>, b: seq<nat>)
    ensures Run(s, maxRange, a + b) == Run(Run(s, maxRange, a), maxRange, b)
    decreases |a|
  {
    if a == [] {
      assert a + b == b;
    } else {
      assert (a + b)[1..] == a[1..] + b;
      RunAppend(Step(s, maxRange, a[0]), maxRange, a[1..], b);
    }
  }

  /** `k` passes of worker 0 while the counter stays inside the range: nobody retires. */
  lemma {:induction false} RunSoloInRange(s: State, maxRange: nat, k: nat)
    requires |s.retired| > 0 && !s.retired[0]
    requires k == 0 || s.counter + k <= maxRange + 1
    ensures Run(s, maxRange, seq(k, _ => 0)).retired == s.retired
    ensures Run(s, maxRange, seq(k, _ => 0)).counter == s.counter + k
    decreases k
  {
    if k > 0 {
      assert seq(k, _ => 0)[1..] == seq(k - 1, _ => 0);
      RunSoloInRange(Step(s, maxRange, 0), maxRange, k - 1);
    }
  }

  /** Once the range is exhausted, one pass each of workers `j .. n - 1` retires them all. */
  lemma {:induction false} RunEachOnce(s: State, maxRange: nat, j: nat)
    requires s.counter > maxRange && j <= |s.retired|
    ensures var t := Run(s, maxRange, seq(|s.retired| - j, i => j + i));
      && |t.retired| == |s.retired|
      && (forall w :: 0 <= w < j ==> t.retired[w] == s.retired[w])
      && (forall w :: j <= w < |t.retired| ==> t.retired[w])
    decreases |s.retired| - j
  {
    if j < |s.retired| {
      var schedule := seq(|s.retired| - j, i => j + i);
      assert schedule[0] == j;
      assert schedule[1..] == seq(|s.retired| - (j + 1), i => j + 1 + i);
      RunEachOnce(Step(s, maxRange, j), maxRange, j + 1);
    }
  }

  /**
   A schedule that lets every worker finish: worker 0 claims every value of
   the range, then each worker makes one claim past it.
   */
  function Completing(maxRange: nat, threads: nat): seq<nat> {
    seq(InRangeClaims(maxRange, maxRange), _ => 0) + seq(threads, i => i)
  }

  /** Some schedule does retire every worker, so the results above are about runs that exist. */
  lemma CompletingRetiresAll(maxRange: nat, threads: nat)
    requires threads >= 1
    ensures AllRetired(Run(Spawn(threads), maxRange, Completing(maxRange, threads)))
  {
    var k := InRangeClaims(maxRange, maxRange);
    var s0 := Spawn(threads);
    RunAppend(s0, maxRange, seq(k, _ => 0), seq(threads, i => i));
    RunSoloInRange(s0, maxRange, k);
    var s1 := Run(s0, maxRange, seq(k, _ => 0));
    assert seq(threads, i => i) == seq(|s1.retired| - 0, i => 0 + i);
    RunEachOnce(s1, maxRange, 0);
  }
}
