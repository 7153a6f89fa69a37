# cpu-test memory-stress tester: a Dafny model of its bookkeeping

The tester allocates one large slot array. Each slot holds an `AtomicU32` counter and a `u32` self-index `me`. Worker threads run bursts until a deadline. A burst adds one to a global `AtomicUsize` iteration counter, then increments 2^20 (`ITERATION_COUNT`) randomly chosen slots. After each increment the worker asserts that the slot's `me` equals the index it used. When all workers of a round have joined, the coordinator sums every counter and asserts that the sum equals iterations × 2^20.

Every change is one atomic fetch-and-add, and validation runs only after the join. So a round behaves like some sequential order of these increments. The model works on that sequential order:

- `slots.dfy`, module `Slots`: the value-level parts.
  - The `u32` and `usize` newtypes (64-bit target) and the `Slot` datatype.
  - `SlotCount` computes `(block_size << 30) / size_of::<Slot>()`, including the wrap of the shift.
  - `AsIndexType` is the truncating cast `idx as u32`.
  - `WrappingIncrement` and `WrappingAdd` are `fetch_add(1)` on a `u32`, which wraps.
  - `Total` is the validation fold.
  - `Bumped(slots, draws)` gives the slots after one increment per drawn index.
  - `Apply(slots, draws)` performs those increments one at a time, in order. `ApplyBumped` proves it equals `Bumped`.
  - `Fits(slots, draws)` says that no counter wraps during those increments.
- `stress.dfy`, module `Stress`: class `Tester` holds the shared state. `mem` is a `const` array of slots, so it is never reallocated. `iterations` is the global counter.
  - The constructor is the allocation and push loop.
  - `Step` is one inner iteration: fetch-and-add on one slot, then the identity comparison.
  - `Burst` is one pass of `run_rand`'s while loop.
  - `Worker` is `run_rand`.
  - `Round` is one round: the scoped threads and the join, followed by `Validate`.
  - `Valid()` is the class invariant:
    - every `me` equals its position cast to `u32`;
    - Σ counters = iterations × `ITERATION_COUNT`;
    - that product fits in a `usize`.

How the source's behaviours are expressed:

- **Identity check.** The source's `assert_eq!(mem[idx].me, idx as IndexType)` becomes a Dafny `assert ok` after `Step`. It is proved, so the check never fails on a valid state. `Step` returns the comparison itself, so a corrupted `me` would be reported.
- **Mid-burst invariant.** Partway through a burst, k steps in, the sum is (iterations − 1) × N + k. This is a loop invariant of `Burst`, because the iteration counter is bumped before the inner loop.
- **Casts.** `me` is written as `idx as u32`. The worker compares against the same truncated value, so the identity check still holds for arrays with more than 2^32 slots. The model keeps that truncation.

## Model
| member | source | states |
|---|---|---|
| Slots.BlockBytes | src/main.rs:51 | `block_size << 30` on a 64-bit usize equals (block_size mod 2^34) × 2^30: the bits shifted out are lost (lemma `ShiftWraps`). |
| Slots.AsIndexType | src/main.rs:31 | The cast `idx as u32` used for `me` and in the identity check, modelled as idx mod 2^32. Below 2^32 it is the index itself, and it is 0 exactly on multiples of 2^32. |
| Slots.WrappingIncrement | src/main.rs:30 | The definition of one `fetch_add(1)` on an AtomicU32: u32::MAX wraps to 0. It carries no contract of its own; its partner is `WrappingAddModular`, which gives n of them in closed form as (c + n) mod 2^32. |
| Slots.WrappingAdd | src/main.rs:28-30 | The definition of n successive `fetch_add(1)` on one counter. Its partners are `WrappingAddModular`, `WrappingAddExact` and `WrappingAddTwice`. |
| Slots.Total | src/main.rs:73-76 | The validation fold: the sum of every counter, each widened to usize. It is at most len × u32::MAX. Its partners are `TotalZero`, `TotalIncrement` and `TotalBumped`. |
| Slots.SlotCount | src/main.rs:51 | The slot count is (block_size mod 2^34) × 2^27, because `<< 30` on a 64-bit usize drops high bits. Below 2^34 GiB it is exactly block_size × 2^27. It is zero exactly when block_size is a multiple of 2^34, 0 included. slots × 8 bytes never exceeds block_size GiB and fits in a usize. |
| Stress.Tester.constructor | src/main.rs:51-60 | The array is freshly allocated. It has exactly SlotCount(block_size) slots. Slot i has counter 0 and `me == i as u32`. The iteration counter starts at 0, and the class invariant holds. |
| Slots.TotalZero | src/main.rs:54 | A freshly pushed array, with every counter 0, sums to 0. |
| Stress.Tester.Step | src/main.rs:29-31 | Wrapping-increments mem[idx]'s counter only. No other slot changes and no `me` changes. `ok` holds exactly when mem[idx].me equals `idx as u32`. |
| Stress.Tester.Burst | src/main.rs:26-33 | One loop pass adds exactly 1 to the iteration counter. The slots become Bumped(old slots, draws), so exactly ITERATION_COUNT increments happen, one per index drawn in [0, len). The identity assertion is proved at every step. Σ counters = iterations × N again. The loop invariant gives (iterations − 1) × N + k after k steps. |
| Stress.Tester.Worker | src/main.rs:24-34 | `run_rand` with one burst per pass before the deadline. The counter grows by the number of bursts. The slots become Bumped(old, all draws in order). The invariant holds after every burst. |
| Stress.Tester.Round | src/main.rs:61-79 | All workers run to completion before validation. The iteration counter grows by the total number of bursts and is never reset. The slots reflect every draw. Validation returns Passed with the counter value. |
| Stress.Tester.Validate | src/main.rs:73-79 | Passed holds exactly when Σ counters == iterations × ITERATION_COUNT. A mismatch reports both numbers. In a valid state the result is always Passed(iterations). |
| Slots.TotalBumped | src/main.rs:28-30 | When no counter wraps and every draw is in range, the draws raise the counter sum by exactly the number of draws. |
| Slots.TotalIncrement | src/main.rs:30 | A fetch-and-add on one counter that does not wrap adds exactly 1 to the total. |
| Slots.BumpedSnoc | src/main.rs:29-30 | One more draw of slot x is one wrapping increment of slot x, and nothing else changes. When the longer run fits, the shorter one fits and slot x does not wrap. |
| Slots.BurstStep | src/main.rs:29-31 | The inner step, on values. Incrementing slot d[k] takes Bumped(slots, d[..k]) to Bumped(slots, d[..k+1]). It keeps every `me`. When d fits, it adds 1 to the total. |
| Slots.BumpedIdentity | src/main.rs:30-31 | Increments never write a `me`, so the identity of every slot survives any draws. |
| Slots.BumpedAppend | src/main.rs:26-32 | Running draws a and then b gives the same slots as running a + b, wrap-around included. |
| Slots.FitsAppend | src/main.rs:16 | If a + b causes no u32 wrap, neither does a alone, nor b after a. |
| Slots.Apply | src/main.rs:28-30 | The step semantics: the draws' fetch-and-adds performed one at a time, in order. The slot array keeps its length. |
| Slots.ApplyBumped | src/main.rs:28-30 | Performing in-range draws one by one yields exactly `Bumped`, the per-slot closed form. The proof takes one step at a time through `BumpedSnoc`. |
| Slots.InterleavingIrrelevant | src/main.rs:65-71 | Any reordering of in-range draws gives the same slots when the steps are performed one by one (`Apply`). This covers another interleaving of the threads' fetch-and-adds. The reordered draws are still in range, and the reordering does not change whether a counter wraps. |
| Slots.WrappingAddModular | src/main.rs:16 | n successive `fetch_add(1)` on an AtomicU32 holding c leave (c + n) mod 2^32. |
| Slots.WrappingAddExact | src/main.rs:16 | Without wrap-around, n increments add exactly n. |
| Slots.WrappingAddTwice | src/main.rs:30 | n increments followed by m increments equal n + m increments. |
| Slots.WorkerStep | src/main.rs:26-33 | Burst b of a worker, after its first b bursts, starts from a state where it cannot wrap a counter. It leaves the slots of the first b + 1 bursts. |
| Slots.RoundStep | src/main.rs:65-71 | Worker w of a round, after the first w workers, starts from a state where it cannot wrap a counter. It leaves the slots of the first w + 1 workers. Its burst count adds up. |

## Left out
- Threads, `thread::scope` and the Relaxed/Acquire orderings (src/main.rs:65-71, 14, 75, 77). Each fetch-and-add is one sequential step, and the workers of a round run one after another. `BumpedSnoc` and `BurstStep` show that each single fetch-and-add takes Bumped(d) to Bumped(d + [x]). `ApplyBumped` and `InterleavingIrrelevant` then show that performing the increments one by one in any order gives the same slots. Concurrent execution itself, with increments of different threads interleaved, is not modelled.
- Wall-clock deadline (`Instant`, `Duration`, src/main.rs:26, 62-64). The number of bursts each worker completes is an input: one list of draws per burst.
- Random index generation (`rand::thread_rng`, `gen_range`, src/main.rs:25, 29). The drawn indices are an input and are required to lie in [0, len). An empty array (`block_size` ≡ 0 mod 2^34) admits no draws, because the source's `gen_range(0..0)` would panic.
- Environment parsing (`parse_env`), `env_logger`, the `info!` lines and the `Box<dyn Error>` plumbing (src/main.rs:36-49, 59, 78). These are I/O with no algorithmic content.
- The infinite outer `loop` (src/main.rs:61). One `Round` is modelled. It requires and ensures `Valid()`, so any number of rounds can be chained.
- Stress.Tester.Burst: requires that no slot counter wraps (`Fits`) and that (iterations + 1) × 2^20 fits in a usize. One slot receiving 2^32 increments would wrap its `AtomicU32`. The source's end-of-round assert would then fail although no update was lost. The same bound is carried by Worker and Round.
- Stress.Tester.Validate: under the invariant, the sum and the product fit in a usize. Outside it, release-build wrap-around or debug-build overflow panics of `.sum()` and `*` are not modelled.
- Stress.Tester.constructor: the panics of `Vec::with_capacity` are not modelled. It panics with "capacity overflow" when the byte size exceeds isize::MAX, which happens whenever block_size mod 2^34 >= 2^33. It aborts when the allocation fails. The constructor returns an array for those sizes too.
- Stress.Tester.constructor: the exact length SlotCount(block_size) relies on the current standard library. Its `with_capacity` allocates exactly the requested capacity for a non-zero-sized type. The documentation promises only "at least" that capacity. A larger `capacity()` would make the push loop push more slots.
