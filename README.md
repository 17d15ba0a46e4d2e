# Thread-safe circular buffer: the claim-then-publish protocol in Dafny

The repository implements a fixed-capacity ring buffer through which several producer
threads and several consumer threads pass values without a mutex. It has two designs:

- `ThreadSafeBuffer2` (src/ThreadSafeBuffer2.hpp) is the current design. It has an array of
  `N` slots and four monotonic counters. `next_write` and `next_read` are the next index a
  writer or a reader may claim. `still_writing` and `still_reading` are the publish
  boundaries: every index below `still_writing` has been written, and every index below
  `still_reading` has been read. Index `i` uses slot `i % N`.
- `ThreadSafeBuffer` (src/ThreadSafeBuffer.hpp) is the earlier design. Its counters stay in
  `[0, N)` and advance through `circular_increment`. An `m_empty` flag tells an empty
  buffer apart from a full one on the write side.

Each operation claims an index, uses the slot and then publishes. A claim is a
compare-and-swap on `next_*` or, on the earlier design's empty fast path, a
compare-and-swap on `m_empty` followed by a store to `next_write`. It is allowed only when
a guard holds. Publishing waits until the
publish counter reaches the claimed index and then advances it.

The model is a sequential transition system of coarse, indivisible steps. Each step can
merge several of the source's atomic operations:

- A claim is one step: its counter loads together with its compare-and-swap. In the
  earlier design, the empty fast path (load `next_write`, compare-and-swap `m_empty`,
  store `next_write`) is also one step.
- A publish is one step. In the earlier design, `release_read_index`'s store of
  `still_reading`, its load of `next_write` and its store of `m_empty` make one step.
- In `ThreadSafeBuffer2`, the store into a slot and the visit of a slot are steps too.

Each spin loop becomes the precondition of its step. Every step preserves an object
invariant `Valid()`. So the safety properties below hold for every interleaving of these
steps. They are not proved for interleavings that split a step into its atomic operations.

Files:

- `slots.dfy` (module `Slots`): the slot of a claim number, and when two claim numbers
  share a slot.
- `bits.dfy` (module `Bits`): bitwise AND on non-negative integers, the power-of-two test
  `n & (n - 1) == 0`, and masking as a remainder.
- `monotonic_buffer.dfy` (module `MonotonicBuffer`): class `ThreadSafeBuffer2` with the
  step methods `AcquireWrite`, `Store`, `ReleaseWrite`, `AcquireRead`, `Visit` and
  `ReleaseRead`, and the composites `WriteNext` and `ReadNext`. A ghost history
  `Published` records the value published under each index. `Queue()` is the part that
  readers have not yet claimed.
- `bounded_buffer.dfy` (module `BoundedBuffer`): `CircularIncrement`, and class
  `ThreadSafeBuffer` with the four acquire/release steps and the composites. Ghost
  monotonic counts stand behind the bounded counters. `Valid()` ties each bounded counter
  to its count modulo `N`.

The reader's visitor (`read_func`) is modelled as returning the slot's value to the caller.
`Visit` and `ReadNext` return exactly the value that the visitor would be passed.

## Model

| member | source | states |
|---|---|---|
| `Slots.Slot` | src/ThreadSafeBuffer2.hpp:28 | the slot of claim number `i` in `N` slots is `i % N`, always below `N` |
| `Slots.DistinctSlots` | src/ThreadSafeBuffer2.hpp:52-55 | two claim numbers fewer than `N` apart use different slots, so claims in the window `[still_reading, still_reading + N)` never share a slot |
| `Slots.NextSlot` | src/ThreadSafeBuffer.hpp:116-122 | stepping a slot number and wrapping it gives the slot of the next claim number: `(g % N + 1) % N == (g + 1) % N` |
| `Slots.SameSlotInWindow` | src/ThreadSafeBuffer.hpp:58-61 | within a window of at most `N` claims, two claim numbers share a slot exactly when they are equal or exactly `N` apart. This is the ambiguity that bounded counters cannot resolve |
| `Bits.BitAnd` | src/ThreadSafeBuffer.hpp:117 | bitwise AND of non-negative integers is at most either operand |
| `Bits.PowerOfTwoTest` | src/ThreadSafeBuffer.hpp:117 | for `N > 0`, `N & (N - 1) == 0` holds exactly when `N` is a power of two |
| `Bits.MaskIsRemainder` | src/ThreadSafeBuffer.hpp:118 | for a power of two `N`, `x & (N - 1) == x % N` |
| `BoundedBuffer.CppRemainder` | src/ThreadSafeBuffer.hpp:118 | C++ `%` on `int` equals the Euclidean remainder for non-negative dividends, and lies in `(-N, 0]` for negative ones |
| `BoundedBuffer.CircularIncrement` | src/ThreadSafeBuffer.hpp:116-122 | `circular_increment` maps `[0, N)` into `[0, N)` |
| `BoundedBuffer.CircularIncrementWraps` | src/ThreadSafeBuffer.hpp:116-122 | on `[0, N)`, both branches give `(i + 1) % N`, which is `i + 1` below `N - 1` and 0 at `N - 1` |
| `BoundedBuffer.PowerOfTwoIncrementIsMask` | src/ThreadSafeBuffer.hpp:117-118 | for a power of two `N`, the increment equals the bit mask `(i + 1) & (N - 1)` |
| `BoundedBuffer.WriteGuardMeansRoom` | src/ThreadSafeBuffer.hpp:52-61 | `WriteClaimable`, the write test of :53-61 as written (the `m_empty` fast path, or `write_index != still_reading`), passes exactly when fewer than `N` slots are claimed and unfreed, given that `m_empty` holds exactly when every claimed slot is freed. The fast path always passes, and a non-empty buffer is refused once `next_write` has come round to `still_reading` |
| `BoundedBuffer.ReadGuardMeansPublished` | src/ThreadSafeBuffer.hpp:86-88 | `ReadClaimable`, the read test `read_index != still_writing` of :86-88 as written, passes exactly when between 1 and `N - 1` published values are unclaimed. No flag separates an empty buffer from a full one, so the test fails for 0 values and also for `N` values (a full buffer) |
| `BoundedBuffer.ThreadSafeBuffer.Valid` | src/ThreadSafeBuffer.hpp:45-49 | the four counters stay in `[0, N)` |
| `BoundedBuffer.ThreadSafeBuffer.constructor` | src/ThreadSafeBuffer.hpp:44-49 | all counters start at 0 with `m_empty` set and the queue empty. The invariant holds |
| `BoundedBuffer.ThreadSafeBuffer.AcquireWrite` | src/ThreadSafeBuffer.hpp:51-70 | claims the old `next_write`, advances it by `circular_increment` and clears `m_empty`. It is allowed on the empty fast path or when `next_write != still_reading`. Fewer than `N` slots were then claimed and unfreed |
| `BoundedBuffer.ThreadSafeBuffer.ReleaseWrite` | src/ThreadSafeBuffer.hpp:72-82 | proceeds only when `still_writing == index`. It sets `still_writing` to `circular_increment(index)` and publishes the value in slot `index` |
| `BoundedBuffer.ThreadSafeBuffer.AcquireRead` | src/ThreadSafeBuffer.hpp:84-98 | allowed only when `next_read != still_writing`. It claims the old `next_read` and advances it, and the claim is published |
| `BoundedBuffer.ThreadSafeBuffer.ReleaseRead` | src/ThreadSafeBuffer.hpp:100-114 | proceeds only when `still_reading == index`. It sets `still_reading` to `circular_increment(index)`. `m_empty` is then true exactly when the new `still_reading` equals `next_write` |
| `BoundedBuffer.ThreadSafeBuffer.WriteNext` | src/ThreadSafeBuffer.hpp:24-31 | stores the value in slot `next_write`, and no other slot changes. The value joins the back of the queue |
| `BoundedBuffer.ThreadSafeBuffer.ReadNext` | src/ThreadSafeBuffer.hpp:33-41 | hands the reader the front of the queue and removes it |
| `BoundedBuffer.AlternatingWriteRead` | src/test/ThreadSafeBufferTest.cpp:19-31 | with at least two slots, alternately writing `0..count-1` and reading one value back delivers exactly `0..count-1` in order |
| `BoundedBuffer.FullBufferBlocksReader` | src/ThreadSafeBuffer.hpp:86-88 | after filling all `N` slots, all `N` values are published and waiting, but the read test refuses every claim |
| `MonotonicBuffer.WriteClaimable` | src/ThreadSafeBuffer2.hpp:52-53 | under the counter ordering, `next_write != still_reading + N` holds exactly when `next_write - still_reading < N` |
| `MonotonicBuffer.ReadClaimable` | src/ThreadSafeBuffer2.hpp:90-91 | under the counter ordering, `next_read != still_writing` holds exactly when `next_read < still_writing` |
| `MonotonicBuffer.ThreadSafeBuffer2.constructor` | src/ThreadSafeBuffer2.hpp:41-45 | all four counters start at 0 with nothing published. The invariant holds |
| `MonotonicBuffer.ThreadSafeBuffer2.AcquireWrite` | src/ThreadSafeBuffer2.hpp:47-67 | returns the old `next_write` and advances it by exactly one. Both counter orderings are preserved. The claimed slot differs from the slot of every published-but-unread index |
| `MonotonicBuffer.ThreadSafeBuffer2.Store` | src/ThreadSafeBuffer2.hpp:28 | writes the value into slot `index % N`, and every other slot is unchanged |
| `MonotonicBuffer.ThreadSafeBuffer2.ReleaseWrite` | src/ThreadSafeBuffer2.hpp:69-84 | proceeds only when `still_writing == index`. It then increments `still_writing` by one, so writes are published in claim order, and it publishes the value in the claimed slot |
| `MonotonicBuffer.ThreadSafeBuffer2.AcquireRead` | src/ThreadSafeBuffer2.hpp:86-105 | returns the old `next_read` and advances it by exactly one. The claimed index is below `still_writing`, so it is published |
| `MonotonicBuffer.ThreadSafeBuffer2.Visit` | src/ThreadSafeBuffer2.hpp:36 | the reader gets slot `index % N`, which holds exactly the value published under `index` |
| `MonotonicBuffer.ThreadSafeBuffer2.ReleaseRead` | src/ThreadSafeBuffer2.hpp:107-121 | proceeds only when `still_reading == index`. It then increments `still_reading` by one and keeps the ordering |
| `MonotonicBuffer.ThreadSafeBuffer2.WriteNext` | src/ThreadSafeBuffer2.hpp:25-30 | appends the value to the published history and to the queue. It changes only slot `next_write % N` |
| `MonotonicBuffer.ThreadSafeBuffer2.ReadNext` | src/ThreadSafeBuffer2.hpp:32-38 | delivers the front of the queue and removes it (FIFO) |
| `MonotonicBuffer.AlternatingWriteRead` | src/test/ThreadSafeBuffer2Test.cpp:22-34 | alternately writing `0..count-1` and reading one value back delivers exactly `0..count-1` in order, over any number of passes through the slots |
| `MonotonicBuffer.FillThenDrain` | src/ThreadSafeBuffer2.hpp:90-93 | a buffer filled to all `N` slots is readable, and draining it returns the values in the order written |

## Left out

- Atomics, memory ordering and real thread interleaving are not modelled. A thread is a
  sequence of step calls, and each step is indivisible.
- Interleavings inside a step are not modelled. Each step merges several atomic
  operations: the loads and the compare-and-swap of every claim, the earlier design's
  empty fast path (a load, a compare-and-swap on `m_empty` and a store), and
  `release_read_index`'s store, load and store. The source is not safe under all such
  interleavings:
  - In the earlier design, a writer can load `next_write`, pause while another writer
    claims, publishes and is read, and then win the `m_empty` compare-and-swap. It then
    returns the stale index a second time.
  - In `ThreadSafeBuffer2`, the two loads in the claim test `!=` are unsequenced. A
    `still_reading` loaded before `next_write` can let a claim run `N + 1` ahead and
    overwrite an unread slot.
- Spin-wait and backoff loops (the `trial` counter and the 1 ns sleep) are not modelled.
  They become guard preconditions. Liveness and timing are not modelled, except that
  `BoundedBuffer.FullBufferBlocksReader` shows a guard that can never pass.
- `MonotonicBuffer.ThreadSafeBuffer2.WriteNext` and `MonotonicBuffer.ThreadSafeBuffer2.ReadNext`
  require that no other claim on their own side is in flight. A single thread running the
  composite would otherwise spin forever in the publish step. For `ThreadSafeBuffer2`,
  concurrent composites are modelled by interleaving its step methods.
- `BoundedBuffer.ThreadSafeBuffer.WriteNext` and `BoundedBuffer.ThreadSafeBuffer.ReadNext`
  have the same requirement, for the same reason. The earlier design has no separate
  store or visit step, because the array is written and read only inside these
  composites. So concurrent `write_next`/`read_next` calls of that design are modelled
  only at the level of their acquire/release steps, not their slot accesses.
- The counters of `ThreadSafeBuffer2` are `nat` in the model, so 32-bit `unsigned int`
  wrap-around is not modelled.
- The `unsigned` to `int` conversion of the index that `acquire_write_index` and
  `acquire_read_index` return is not modelled. `write_next` and `read_next` index with
  that `int`. From claim 2^31 on it is negative, and so is `index % N` (for `N` = 6,
  `-2^31 % 6 == -2`), so the slot access falls outside the array. The model is therefore
  exact only up to 2^31 claims.
- Overflow of `i + 1` in `circular_increment` at `INT_MAX` is not modelled. It is
  unreachable because the counters stay in `[0, N)`.
- The `std::move` of the value is modelled as plain assignment. The element type needs a
  default value (`T(0)`), just as `std::array<T, N> m_buffer{}` default-constructs its
  slots.
- An exception thrown by the visitor or by the move assignment is not modelled. It would
  skip the release, and the code has no guard against it.
- `DEBUG_LOG` and `output_state` are not modelled. They only produce trace text.
- `MonotonicBuffer.ThreadSafeBuffer2.Visit` returns the slot's value instead of calling a
  visitor. A visitor that re-enters the buffer is outside the source's contract.
- The multi-threaded gtest cases are not models in their own right. They use `std::jthread`
  and `std::mutex`. Only the single-threaded alternating tests are modelled.

## Findings

| source | as written | input that shows it | evidently intended | confidence | as-written member | corrected member |
|---|---|---|---|---|---|---|
| src/ThreadSafeBuffer.hpp:86-88 | the read claim waits while `read_index == still_writing`. This also holds when all `N` slots hold published, unread values, because the bounded counters have come round to the same value | capacity 2, single thread: `write_next(a)`, `write_next(b)`, `read_next(f)`. Both writes succeed, then the reader spins forever. With capacity 1, even one `write_next` followed by `read_next` blocks | a full buffer's oldest value can be read. The later design does this by keeping the counters monotonic | not executed | `BoundedBuffer.FullBufferBlocksReader` | `MonotonicBuffer.FillThenDrain` |
