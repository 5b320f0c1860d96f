# primeSearch in Dafny

`primeSearch` holds two multi-threaded C++ programs. Each finds every prime in
`[2, max_range]` with a pool of `num_threads` workers. The two differ only in
how the candidates are handed out:

- **static ranges** (`printAfterRanges`): `findPrimes` splits `[2, max_range]`
  into at most `num_threads` contiguous subranges. Each worker tests every
  number of its subrange.
- **shared counter** (`printAfterLinear`): every worker repeatedly takes the
  next candidate from one atomic counter with `fetch_add(1)`. A worker stops
  at the first value past `max_range`.

In both programs a worker pushes each prime it finds into one mutex-guarded
vector. Once every worker has been joined, `findPrimes` sorts the vector. Both
programs use the same primality oracle `isPrime`: 6k±1 trial division.

The model has six modules:

- `Primality` (`primality.dfy`): the oracle `IsPrime`, proved to decide the
  mathematical `Prime` predicate. The file holds its wheel loop `WheelLoop`, the
  loop's invariant step `WheelStep`, and the soundness of its early exits. The
  two programs' copies of `isPrime` are identical, so it is defined once.
- `Collect` (`collect.dfy`): the reference answer `PrimesIn(lo, hi)`, and
  `Sort` standing for `std::sort`. `PrimesIn` is an instance of `Select`, an
  ascending scan of a range with any test, whose lemmas do not depend on the test. The theorem `SortCollected` says the
  following. Take any vector holding each prime of a range exactly once, in
  any push order. It sorts to the strictly ascending list of those primes.
- `Ranges` (`ranges.dfy`): the static-range program.
  - `Partition` is the subrange loop of `findPrimes` as a pure function.
    `PlanRanges` is the same loop as a method with invariants.
  - `ScanRange` is `worker(start, end)`. `FindPrimes` is the whole search with
    the workers run one after the other.
  - Lemmas prove that the subranges tile `[2, max_range]`, that there are at
    most `num_threads` of them, and bounds on their sizes.
- `Linear` (`linear.dfy`): the shared-counter program as a state machine. The
  state holds the counter, each worker's "has left its loop" flag, the
  sequence of claims made, and the found multiset.
  - A *schedule* (any sequence of worker ids) drives it. One `Step` is one pass
    of a worker's loop, so the lemmas hold for every interleaving.
  - An invariant preserved by every step gives four results: the claims in
    order, each value claimed once, the final counter, and the final vector.
- `Search` (`search.dfy`): the two programs agree, and concrete small ranges.
- `Unsigned` (`unsigned.dfy`): the programs' `unsigned long long` arithmetic
  taken literally, modulo 2^64. See "Findings".

Integers are unbounded everywhere except in `Unsigned`. The nondeterminism of
thread scheduling is a parameter: the schedule in `Linear`, and the
unconstrained vector (known only by its multiset) in `Ranges.RangesResult`.

## Model

| member | source | states |
|---|---|---|
| Primality.EarlyExitsSound | printAfterRanges/primeSearch.cpp:19-24 | nothing below 2 is prime, 2 and 3 are prime, and a number above 3 that 2 or 3 divides is not prime |
| Primality.WheelStep | printAfterRanges/primeSearch.cpp:26-30 | loop invariant step: if nothing in `[2, i)` divides `n`, and neither `i` nor `i + 2` does, then nothing in `[2, i + 6)` does, because the other candidates are multiples of 2 or 3 |
| Primality.WheelLoop | printAfterRanges/primeSearch.cpp:26-32 | from any candidate `i ≡ 5 (mod 6)` with no divisor below it, the loop answers exactly whether `n` is prime; the guard `i * i > i` never fails |
| Primality.IsPrime | printAfterRanges/primeSearch.cpp:18-33 | `isPrime(n)` is true exactly when `n` is prime; the copy at printAfterLinear/primeSearch.cpp:20-35 is identical |
| Collect.PrimesIn | printAfterRanges/primeSearch.cpp:35-43 | the reference scan of `[lo, hi]` stays inside the range and is strictly ascending |
| Collect.PrimesInMembers | printAfterRanges/primeSearch.cpp:35-43 | a value is in the reference scan exactly when it is a prime of `[lo, hi]` |
| Collect.PrimesInCount | printAfterRanges/primeSearch.cpp:35-43 | each prime of the range occurs once in the reference scan, and no other value occurs |
| Collect.PrimesInSplit | printAfterRanges/primeSearch.cpp:35-43 | scanning `[lo, hi]` gives the scan of `[lo, mid]` followed by the scan of `[mid + 1, hi]` |
| Collect.Sort | printAfterRanges/primeSearch.cpp:97 | `std::sort` gives a sorted permutation of the vector |
| Collect.SortedUnique | printAfterRanges/primeSearch.cpp:97 | two sorted sequences with the same elements are equal, so the sorted result does not depend on push order |
| Collect.SortCollected | printAfterLinear/primeSearch.cpp:77 | a vector holding each prime of the range once, in any order, sorts to the strictly ascending list of those primes |
| Ranges.ScanRange | printAfterRanges/primeSearch.cpp:35-43 | `worker(start, end)` pushes exactly the primes of `[start, end]`, in ascending order |
| Ranges.PlanRanges | printAfterRanges/primeSearch.cpp:55-85 | the subrange loop, run imperatively, launches the subranges that tile `[2, max_range]`, at most `num_threads` of them |
| Ranges.PartitionTiles | printAfterRanges/primeSearch.cpp:55-85 | the launched subranges are non-empty, in launch order, each starting one past the previous end, from 2 up to exactly `max_range` |
| Ranges.LastShareClamped | printAfterRanges/primeSearch.cpp:62-66 | the shares' arithmetic: the last thread's nominal share begins `max_range / num_threads` before `max_range + 2`, so it ends at `max_range + 1`, and it begins inside `[2, max_range]` exactly when `max_range / num_threads >= 2` |
| Ranges.PartitionReachesLastThread | printAfterRanges/primeSearch.cpp:61-84 | the loop launches a subrange for every thread exactly when `max_range / num_threads >= 2`; then the last one is the last thread's share clamped at line 68, `[max_range + 2 - max_range / num_threads, max_range]`; with a quotient of 0 or 1 fewer than `num_threads` subranges are launched |
| Ranges.TilesCover | printAfterRanges/primeSearch.cpp:61-85 | tiling subranges lie in `[2, max_range]`, are adjacent and pairwise disjoint, and a value lies in one of them exactly when it is in `[2, max_range]` |
| Ranges.PartitionCount | printAfterRanges/primeSearch.cpp:61-85 | at most `num_threads` workers are launched |
| Ranges.PartitionManyThreads | printAfterRanges/primeSearch.cpp:61-85 | when `num_threads >= max_range`, exactly `max_range - 1` workers are launched, each on a single number |
| Ranges.PartitionSizes | printAfterRanges/primeSearch.cpp:55-70 | every subrange has between 1 and `max_range / num_threads + 1` elements, and at most `max_range / num_threads` when the division is exact |
| Ranges.TilesGathered | printAfterRanges/primeSearch.cpp:35-43 | the primes found on tiling subranges, concatenated in order, are the primes of the whole range |
| Ranges.RangesResult | printAfterRanges/primeSearch.cpp:49-97 | whatever order the workers pushed in, the sorted vector is the strictly ascending list of primes in `[2, max_range]` |
| Ranges.FindPrimes | printAfterRanges/primeSearch.cpp:48-104 | `findPrimes` returns the strictly ascending primes of `[2, max_range]` for every thread count |
| Linear.StepInv | printAfterLinear/primeSearch.cpp:37-53 | one loop pass of any worker keeps these facts true: the counter is 2 plus the number of claims; a worker that got a value past `max_range` has stopped; the vector holds each in-range prime claimed so far, once |
| Linear.RunInv | printAfterLinear/primeSearch.cpp:37-53 | every schedule of passes preserves the invariant |
| Linear.ClaimsInOrder | printAfterLinear/primeSearch.cpp:16-40 | the counter starts at 2 and advances by one per claim: the k-th claim (from 0) returns `k + 2`, and every value below the counter was returned exactly once |
| Linear.OverRangeIsFinal | printAfterLinear/primeSearch.cpp:40-44 | once a claim returns a value past `max_range`, every later claim does too, and the worker that received it makes no further claim |
| Linear.EveryValueClaimedOnce | printAfterLinear/primeSearch.cpp:39-44 | after all workers stop, every value of `[2, max_range]` was returned by exactly one claim |
| Linear.FinalCounter | printAfterLinear/primeSearch.cpp:39-71 | after all `num_threads` workers stop, each has made exactly one claim past `max_range`, and the counter is `max_range + 1 + num_threads` (`2 + num_threads` when `max_range` is 0) |
| Linear.ClaimsBounded | printAfterLinear/primeSearch.cpp:39-44 | under any schedule, at most `max_range - 1 + num_threads` claims are made in total (`num_threads` when `max_range < 2`) |
| Linear.CompletingRetiresAll | printAfterLinear/primeSearch.cpp:65-71 | some schedule lets every spawned worker stop, so the joins can all return |
| Linear.LinearResult | printAfterLinear/primeSearch.cpp:46-77 | whatever the schedule and push order, the found multiset is the primes of `[2, max_range]` and the sorted vector is their strictly ascending list |
| Search.StrategiesAgree | printAfterLinear/primeSearch.cpp:58-84 | the static-range and shared-counter programs return the same list for the same `max_range`, for any thread counts and interleavings |
| Search.SingleThreadIsSequential | printAfterRanges/primeSearch.cpp:55-85 | with one thread, the static-range program scans `[2, max_range]` as one subrange |
| Search.SmallRanges | printAfterRanges/primeSearch.cpp:18-33 | the results for `max_range` 2, 3 and 4 are `[2]`, `[2, 3]` and `[2, 3]` |
| Search.PrimesUpToTen | printAfterRanges/primeSearch.cpp:18-33 | the primes up to 10 are `[2, 3, 5, 7]` |
| Search.OracleExamples | printAfterRanges/primeSearch.cpp:26-32 | `isPrime` rejects 25 and 35 through the test `n % i == 0` of the 6k ± 1 loop and 49 through `n % (i + 2) == 0`, and accepts 29 after the loop runs out, agreeing with the definition of a prime |
| Unsigned.PartitionU64Agrees | printAfterRanges/primeSearch.cpp:55-85 | for every `max_range` below 2^64 - 1, the subrange loop in 64-bit arithmetic launches exactly the unbounded model's subranges |
| Unsigned.PartitionWrapsAtTop | printAfterRanges/primeSearch.cpp:62 | at `max_range = 2^64 - 1` with one thread, the 64-bit end wraps to 0 and no worker is launched |
| Unsigned.PartitionDropsLastShare | printAfterRanges/primeSearch.cpp:62-84 | at `max_range = 2^64 - 1`, for every `int` thread count, the 64-bit loop launches the unbounded model's subranges except the last, `[2^64 + 1 - max_range / num_threads, max_range]`, which it never launches |
| Unsigned.SpawnRunU64Agrees | printAfterLinear/primeSearch.cpp:16-44 | while `max_range + num_threads + 2 < 2^64`, every run of the 64-bit counter is the unbounded run |
| Unsigned.CounterWrapsAtTop | printAfterLinear/primeSearch.cpp:40-44 | at `max_range = 2^64 - 1` no claim ever exceeds `max_range`, so under every schedule some worker never stops |
| Unsigned.CounterWrapsPastTop | printAfterLinear/primeSearch.cpp:40-48 | at `max_range = 2^64 - 2` with two workers, from any reachable state whose counter is 2^64 - 1: worker 0 claims 2^64 - 1 and stops, then worker 1 receives the wrapped values 0, 1 and 2, pushes 2 a second time and is still running |

Two facts about the arithmetic are easy to misread:

- The shared counter ends at `max_range + 1 + num_threads`, not `max_range + 1`.
  Every worker makes one last claim past the range before it stops
  (`Linear.FinalCounter`).
- The static partition divides `max_range` itself, not the candidate count
  `max_range - 1`. It launches shares of `max_range / num_threads` numbers, one
  more for the first `max_range % num_threads` threads, starting at 2. The
  nominal shares therefore end at `max_range + 1`. When `max_range / num_threads`
  is at least 2, every thread gets a subrange and the clamp at line 68 trims the
  last thread's share to `max_range`. With a quotient of 0 or 1 fewer than
  `num_threads` subranges are launched. For `max_range >= 2` the last of them
  already ends at `max_range` (`Ranges.PartitionTiles`) and the break at line 82
  ends the loop; for example `max_range = 5`, `num_threads = 3` launches `[2, 3]`
  and `[4, 5]` (`Ranges.PartitionReachesLastThread`). For `max_range < 2`
  nothing is launched at all. With this arithmetic the last
  threads may get a shorter share, or none.

## Left out

- `main` in both files: reading `config.txt`, parsing with `istringstream` and `strtoull`, and the exit codes are I/O. The checks `max_range >= 2` and `num_threads >= 1` appear only as `threads >= 1` preconditions. `max_range < 2` is allowed and gives an empty result.
- `printPrimes` and the "Found … primes" / "Searched up to" lines: console output only.
- `std::chrono` timing: reading a clock, nothing to prove.
- `std::thread`, `std::mutex` and `std::atomic` as primitives, and memory ordering. A pass of a shared-counter worker is one atomic step: the `fetch_add`, the primality test and the locked `push_back`. Splitting it into the `fetch_add` and a later push changes none of the final-state lemmas (`Linear.FinalCounter`, `Linear.EveryValueClaimedOnce`, `Linear.LinearResult`), because the push does not affect the counter. The step invariant would change: between the two its found clause would need a term for the pushes still pending, so `Linear.StepInv` and `Linear.RunInv` are stated for the atomic pass.
- Linear.Spawn: starts from a fresh `PrimeFinder` with the counter at 2. `main` uses each finder once. A second `findPrimes` on the same object would start from the previous final counter, because `findPrimes` does not reset it.
- Ranges.FindPrimes: runs the workers one after the other. Concurrent pushes are covered by `Ranges.RangesResult`, which allows any push order.
- The `start < 2` clamp at printAfterRanges/primeSearch.cpp:72-74 is modelled but never taken in unbounded arithmetic, because `start` only grows from 2.
- `isPrime`'s `i * i` overflow: the guard `i * i > i` is kept as written and proved always true over unbounded integers. Wrap-around of `i * i` itself only arises for `n` near 2^64 and is not modelled.
- The worker loop `number <= end` at printAfterRanges/primeSearch.cpp:36 can wrap only if a subrange ends at 2^64 - 1. `ScanRange` computes over unbounded integers.

## Findings

| source | as written | input that shows it | evidently intended | confidence | as-written member | corrected member |
|---|---|---|---|---|---|---|
| printAfterRanges/primeSearch.cpp:62 | `end = start + numbers_per_thread - 1` in `unsigned long long` wraps to 0 for the last share when `max_range = 2^64 - 1`, for every thread count, so that share is never launched | `max_range = 18446744073709551615`: with `num_threads = 1` no worker starts and the result is empty, although 2 is prime; with `num_threads = 2` the share `[2^63 + 2, 2^64 - 1]` is never scanned | the last thread scans up to `max_range` | high, not executed | Unsigned.PartitionDropsLastShare | Ranges.PartitionTiles |
| printAfterLinear/primeSearch.cpp:40-42 | `current_number.fetch_add(1)` wraps from 2^64 - 1 to 0, so with `max_range = 2^64 - 1` no claim ever returns a value past `max_range` | `max_range = 18446744073709551615`, any `num_threads`: no worker ever leaves its loop, so the joins never return | every worker stops after the range is exhausted | high, not executed | Unsigned.CounterWrapsAtTop | Linear.CompletingRetiresAll |
| printAfterLinear/primeSearch.cpp:40-48 | when `max_range + num_threads >= 2^64` there are fewer than `num_threads` values past `max_range`, so after they are used up `fetch_add` wraps and hands the next worker values from 0 again | `max_range = 18446744073709551614`, `num_threads = 2`: worker 0 takes 2^64 - 1 and stops, worker 1 then takes 0, 1 and 2, pushes 2 a second time, and keeps running | every worker gets one value past `max_range` and stops, and each prime is pushed once | high, not executed | Unsigned.CounterWrapsPastTop | Linear.FinalCounter |

The partition is exact for every `max_range` below 2^64 - 1: `Unsigned.PartitionU64Agrees` proves that the 64-bit loop launches the subranges of the unbounded model the rest of the project uses. The counter is exact while `max_range + num_threads + 2 < 2^64` (`Unsigned.SpawnRunU64Agrees`) and goes wrong once `max_range + num_threads >= 2^64`. The two sums in between, `2^64 - 2` and `2^64 - 1`, are covered by no lemma here.
