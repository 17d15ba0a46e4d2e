/**
 * The earlier buffer design (ThreadSafeBuffer): the same claim-then-publish
 * protocol, but the four counters stay in `[0, capacity)` — they advance
 * with `CircularIncrement` and index the array directly — and an `empty`
 * flag tells an empty buffer from a full one on the write side.
 *
 * The class also keeps ghost monotonic counters (how many claims and
 * publications each side has made); every real counter is its ghost
 * counter modulo `capacity`. They are what the bounded counters stand for,
 * and they show what the bounded tests can and cannot tell apart.
 *
 * The four acquire/release methods are the steps of this design. The array
 * is written and read only inside the composites `WriteNext` and
 * `ReadNext`; there is no separate store or visit step.
 */
module BoundedBuffer {
  import Slots
  import Bits

  /** C++ `%` on `int`: the quotient truncates toward zero, so the remainder has the dividend's sign. */
  function CppRemainder(a: int, n: nat): (r: int)
    requires 0 < n
    ensures a >= 0 ==> r == a % n
    ensures a < 0 ==> r <= 0 && r + n > 0
  {
    if a >= 0 then a % n else -((-a) % n)
  }

  /**
   * `circular_increment`: the next counter value. When `n & (n - 1) == 0`
   * (`n` a power of two) it is `(i + 1) % n`; otherwise it steps up and
   * wraps from `n - 1` to 0. On `[0, n)` both branches give `(i + 1) % n`.
   */
  function CircularIncrement(n: nat, i: int): (r: int)
    requires 0 < n
    ensures 0 <= i < n ==> 0 <= r < n
  {
    if Bits.BitAnd(n, n - 1) == 0 then CppRemainder(i + 1, n)
    else if i + 1 < n then i + 1 else 0
  }

  /**
   * On `[0, n)` both branches of `CircularIncrement` agree: the result is
   * `(i + 1) % n`, which steps up by one and wraps from `n - 1` to 0.
   */
  lemma CircularIncrementWraps(n: nat, i: int)
    requires 0 <= i < n
    ensures CircularIncrement(n, i) == (i + 1) % n
    ensures CircularIncrement(n, i) == if i + 1 < n then i + 1 else 0
  {
    if i + 1 < n {
      Slots.DivModUnique(0, i + 1, n);
    } else {
      Slots.DivModUnique(1, 0, n);
    }
  }

  /**
   * When `n` is a power of two, the increment is the bit mask
   * `(i + 1) & (n - 1)` a compiler substitutes for `% n`.
   */
  lemma PowerOfTwoIncrementIsMask(n: nat, i: nat)
    requires Bits.IsPowerOfTwo(n) && i < n
    ensures CircularIncrement(n, i) == Bits.BitAnd(i + 1, n - 1)
  {
    Bits.PowerOfTwoTest(n);
    Bits.MaskIsRemainder(i + 1, n);
    CircularIncrementWraps(n, i);
  }

  /**
   * Exit test of the write claim: the `empty` fast path always passes; a
   * non-empty buffer passes only while `next_write != still_reading`, and
   * is refused once the writers have come round to the readers. What the
   * test means in claim counts is `WriteGuardMeansRoom`.
   */
  function WriteClaimable(empty: bool, nextWrite: int, stillReading: int): (ok: bool)
  {
    empty || nextWrite != stillReading
  }

  /**
   * Exit test of the read claim: refused exactly when `next_read` has
   * reached `still_writing`; no flag tells an empty buffer from a full one.
   * What the test means in claim counts is `ReadGuardMeansPublished`.
   */
  function ReadClaimable(nextRead: int, stillWriting: int): (ok: bool)
  {
    nextRead != stillWriting
  }

  /**
   * With `claimed` write claims and `freed` slots freed by readers (at most
   * a pass apart), and `empty` exactly when the two are equal, the bounded
   * write test admits a claim exactly when a slot is free.
   */
  lemma WriteGuardMeansRoom(claimed: nat, freed: nat, n: nat)
    requires 0 < n && freed <= claimed <= freed + n
    ensures WriteClaimable(claimed == freed, claimed % n, freed % n) <==> claimed - freed < n
  {
    Slots.SameSlotInWindow(freed, claimed, n);
  }

  /**
   * With `claimed` read claims and `published` writes (at most a pass
   * apart), the bounded read test admits a claim exactly when between one
   * and `n - 1` values are waiting: it refuses a buffer whose `n` slots
   * all hold published, unclaimed values.
   */
  lemma ReadGuardMeansPublished(claimed: nat, published: nat, n: nat)
    requires 0 < n && claimed <= published <= claimed + n
    ensures ReadClaimable(claimed % n, published % n) <==> claimed < published < claimed + n
  {
    Slots.SameSlotInWindow(claimed, published, n);
  }

  class ThreadSafeBuffer<T(0)> {
    const capacity: nat
    const buffer: array<T>
    var nextWrite: int
    var stillWriting: int
    var nextRead: int
    var stillReading: int
    var empty: bool
    /** Monotonic counts behind `nextWrite`, `stillWriting`, `nextRead` and `stillReading`. */
    ghost var WritesClaimed: nat
    ghost var WritesPublished: nat
    ghost var ReadsClaimed: nat
    ghost var ReadsFreed: nat
    /** `Published[i]` is the value published by the `i`-th write. */
    ghost var Published: seq<T>

    /**
     * Each bounded counter is its monotonic count modulo `capacity` (so it
     * lies in `[0, capacity)`), the counts are ordered and at most a pass
     * apart, `empty` holds exactly when every claimed slot has been freed,
     * and every published slot not yet freed holds its published value.
     */
    ghost predicate Valid()
      reads this, buffer
      ensures Valid() ==> 0 <= nextWrite < capacity && 0 <= stillWriting < capacity
      ensures Valid() ==> 0 <= nextRead < capacity && 0 <= stillReading < capacity
    {
      0 < capacity && buffer.Length == capacity &&
      ReadsFreed <= ReadsClaimed <= WritesPublished <= WritesClaimed <= ReadsFreed + capacity &&
      nextWrite == WritesClaimed % capacity && stillWriting == WritesPublished % capacity &&
      nextRead == ReadsClaimed % capacity && stillReading == ReadsFreed % capacity &&
      (empty <==> WritesClaimed == ReadsFreed) &&
      |Published| == WritesPublished &&
      forall i :: ReadsFreed <= i < WritesPublished ==> buffer[Slots.Slot(i, capacity)] == Published[i]
    }

    /** The values readers have still to claim, oldest first. */
    ghost function Queue(): (q: seq<T>)
      reads this
      requires ReadsClaimed <= WritesPublished == |Published|
      ensures |q| == WritesPublished - ReadsClaimed
    {
      Published[ReadsClaimed..WritesPublished]
    }

    /** A new buffer: counters zero, `empty` set. */
    constructor (capacity: nat)
      requires 0 < capacity
      ensures Valid() && fresh(buffer) && this.capacity == capacity
      ensures nextWrite == stillWriting == nextRead == stillReading == 0 && empty
      ensures WritesClaimed == WritesPublished == ReadsClaimed == ReadsFreed == 0
      ensures Published == [] && Queue() == []
    {
      this.capacity := capacity;
      buffer := new T[capacity];
      nextWrite, stillWriting, nextRead, stillReading := 0, 0, 0, 0;
      empty := true;
      WritesClaimed, WritesPublished, ReadsClaimed, ReadsFreed := 0, 0, 0, 0;
      Published := [];
    }

    /**
     * Claim a write index. If `empty` is set the current `nextWrite` is
     * taken without looking at `stillReading` and the flag is cleared;
     * otherwise the claim waits while `nextWrite == stillReading` (full).
     * Either way `nextWrite` moves on by `CircularIncrement`, and the
     * claimed slot is free.
     */
    method AcquireWrite() returns (index: int)
      requires Valid() && WriteClaimable(empty, nextWrite, stillReading)
      modifies this`nextWrite, this`empty, this`WritesClaimed
      ensures Valid()
      ensures index == old(nextWrite) && 0 <= index < capacity
      ensures nextWrite == CircularIncrement(capacity, index)
      ensures !empty
      ensures WritesClaimed == old(WritesClaimed) + 1 && old(WritesClaimed) < ReadsFreed + capacity
    {
      WriteGuardMeansRoom(WritesClaimed, ReadsFreed, capacity);
      Slots.NextSlot(WritesClaimed, capacity);
      CircularIncrementWraps(capacity, WritesClaimed % capacity);
      index := nextWrite;
      if empty {
        empty := false;
      }
      nextWrite := CircularIncrement(capacity, index);
      WritesClaimed := WritesClaimed + 1;
    }

    /**
     * Publish a write: proceeds only when `stillWriting` equals the claimed
     * index, then sets it to `CircularIncrement(index)`. The value
     * published is what slot `index` holds.
     */
    method ReleaseWrite(index: int)
      requires Valid() && stillWriting == index && WritesPublished < WritesClaimed
      modifies this`stillWriting, this`WritesPublished, this`Published
      ensures Valid()
      ensures stillWriting == CircularIncrement(capacity, index)
      ensures WritesPublished == old(WritesPublished) + 1
      ensures Published == old(Published) + [buffer[index]]
    {
      Slots.NextSlot(WritesPublished, capacity);
      CircularIncrementWraps(capacity, WritesPublished % capacity);
      Published := Published + [buffer[index]];
      stillWriting := CircularIncrement(capacity, index);
      WritesPublished := WritesPublished + 1;
    }

    /**
     * Claim a read index: waits while `nextRead == stillWriting`, then
     * advances `nextRead` by `CircularIncrement`. The claim is published.
     */
    method AcquireRead() returns (index: int)
      requires Valid() && ReadClaimable(nextRead, stillWriting)
      modifies this`nextRead, this`ReadsClaimed
      ensures Valid()
      ensures index == old(nextRead) && 0 <= index < capacity
      ensures nextRead == CircularIncrement(capacity, index)
      ensures ReadsClaimed == old(ReadsClaimed) + 1 && old(ReadsClaimed) < WritesPublished
    {
      ReadGuardMeansPublished(ReadsClaimed, WritesPublished, capacity);
      Slots.NextSlot(ReadsClaimed, capacity);
      CircularIncrementWraps(capacity, ReadsClaimed % capacity);
      index := nextRead;
      nextRead := CircularIncrement(capacity, index);
      ReadsClaimed := ReadsClaimed + 1;
    }

    /**
     * Publish a read: proceeds only when `stillReading` equals the claimed
     * index, sets it to `CircularIncrement(index)`, and sets `empty` when
     * the new `stillReading` has caught up with `nextWrite`.
     */
    method ReleaseRead(index: int)
      requires Valid() && stillReading == index && ReadsFreed < ReadsClaimed
      modifies this`stillReading, this`empty, this`ReadsFreed
      ensures Valid()
      ensures stillReading == CircularIncrement(capacity, index)
      ensures ReadsFreed == old(ReadsFreed) + 1
      ensures empty <==> stillReading == nextWrite
    {
      Slots.NextSlot(ReadsFreed, capacity);
      CircularIncrementWraps(capacity, ReadsFreed % capacity);
      Slots.SameSlotInWindow(ReadsFreed + 1, WritesClaimed, capacity);
      var next := CircularIncrement(capacity, index);
      stillReading := next;
      if next == nextWrite {
        empty := true;
      }
      ReadsFreed := ReadsFreed + 1;
    }

    /**
     * `write_next` run by one thread while no other writer holds a claim:
     * the value is stored in slot `nextWrite` and joins the back of the queue.
     */
    method WriteNext(value: T)
      requires Valid() && WriteClaimable(empty, nextWrite, stillReading)
      requires WritesPublished == WritesClaimed
      modifies this`nextWrite, this`empty, this`WritesClaimed, this`stillWriting, this`WritesPublished,
               this`Published, buffer
      ensures Valid()
      ensures !empty && nextWrite == stillWriting == CircularIncrement(capacity, old(nextWrite))
      ensures WritesClaimed == WritesPublished == old(WritesClaimed) + 1
      ensures Published == old(Published) + [value]
      ensures Queue() == old(Queue()) + [value]
      ensures buffer[..] == old(buffer[..])[old(nextWrite) := value]
    {
      var index := AcquireWrite();
      forall i | ReadsFreed <= i < WritesPublished
        ensures Slots.Slot(i, capacity) != index
      {
        Slots.DistinctSlots(i, WritesPublished, capacity);
      }
      buffer[index] := value;
      ReleaseWrite(index);
    }

    /**
     * `read_next` run by one thread while no other reader holds a claim:
     * the reader is handed slot `nextRead`, the front of the queue, which
     * is removed.
     */
    method ReadNext() returns (value: T)
      requires Valid() && ReadClaimable(nextRead, stillWriting)
      requires ReadsFreed == ReadsClaimed
      modifies this`nextRead, this`ReadsClaimed, this`stillReading, this`empty, this`ReadsFreed
      ensures Valid()
      ensures nextRead == stillReading == CircularIncrement(capacity, old(nextRead))
      ensures ReadsClaimed == ReadsFreed == old(ReadsClaimed) + 1
      ensures old(Queue()) != [] && value == old(Queue())[0]
      ensures Queue() == old(Queue())[1..]
    {
      var index := AcquireRead();
      value := buffer[index];
      ReleaseRead(index);
    }
  }

  /**
   * One thread alternately writes `0, 1, ..., count - 1` and reads one
   * value back: with at least two slots the values come out in the order
   * written, however many passes over the slots that takes.
   */
  method AlternatingWriteRead(capacity: nat, count: nat) returns (delivered: seq<int>)
    requires 1 < capacity
    ensures delivered == seq(count, i => i)
  {
    var b := new ThreadSafeBuffer<int>(capacity);
    delivered := [];
    var i := 0;
    while i < count
      invariant 0 <= i <= count
      invariant b.Valid() && b.capacity == capacity && b.empty
      invariant b.WritesClaimed == b.WritesPublished == b.ReadsClaimed == b.ReadsFreed == i
      invariant delivered == seq(i, k => k)
    {
      b.WriteNext(i);
      Slots.DistinctSlots(i, i + 1, capacity);
      var value := b.ReadNext();
      delivered := delivered + [value];
      i := i + 1;
    }
  }

  /**
   * One thread fills a buffer of `|values|` slots completely. All the
   * values are then published and waiting, yet the read test refuses a
   * claim: a reader would wait forever.
   */
  method FullBufferBlocksReader<T(0)>(values: seq<T>) returns (readable: bool, ghost waiting: seq<T>)
    requires values != []
    ensures waiting == values
    ensures !readable
  {
    var b := new ThreadSafeBuffer<T>(|values|);
    var i := 0;
    while i < |values|
      invariant 0 <= i <= |values|
      invariant b.Valid() && b.capacity == |values|
      invariant b.WritesClaimed == b.WritesPublished == i && b.ReadsClaimed == b.ReadsFreed == 0
      invariant b.Queue() == values[..i]
    {
      Slots.DivModUnique(0, i, |values|);
      b.WriteNext(values[i]);
      i := i + 1;
    }
    Slots.DivModUnique(1, 0, |values|);
    readable := ReadClaimable(b.nextRead, b.stillWriting);
    waiting := b.Queue();
  }
}
