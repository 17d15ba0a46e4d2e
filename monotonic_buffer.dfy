/**
 * The current buffer design (ThreadSafeBuffer2): a fixed array of
 * `capacity` slots and four monotonic claim counters. Writers and readers
 * each claim an index (advance `nextWrite` / `nextRead`), use slot
 * `index % capacity`, then publish in claim order (advance `stillWriting`
 * / `stillReading`). Each step is indivisible: a claim (its two counter
 * loads and its compare-and-swap), a slot access, or a publish (its load
 * and its fetch-and-add). Each spin loop becomes the precondition of its
 * step, so any sequence of step calls whose preconditions hold is one
 * interleaving of producer and consumer threads at that granularity.
 */
module MonotonicBuffer {
  import Slots

  /**
   * Exit test of the write-claim spin loop: `next_write != still_reading + N`.
   * While the readers lag at most a pass behind, it means a free slot exists.
   */
  function WriteClaimable(nextWrite: nat, stillReading: nat, capacity: nat): (ok: bool)
    ensures stillReading <= nextWrite <= stillReading + capacity ==>
              (ok <==> nextWrite - stillReading < capacity)
  {
    nextWrite != stillReading + capacity
  }

  /**
   * Exit test of the read-claim spin loop: `next_read != still_writing`.
   * While readers never overtake the writers' publish counter, it means a
   * published, unclaimed value exists.
   */
  function ReadClaimable(nextRead: nat, stillWriting: nat): (ok: bool)
    ensures nextRead <= stillWriting ==> (ok <==> nextRead < stillWriting)
  {
    nextRead != stillWriting
  }

  class ThreadSafeBuffer2<T(0)> {
    const capacity: nat
    const buffer: array<T>
    /** Next index a writer may claim. */
    var nextWrite: nat
    /** Every index below this one has been written and published. */
    var stillWriting: nat
    /** Next index a reader may claim. */
    var nextRead: nat
    /** Every index below this one has been read; its slot is free again. */
    var stillReading: nat
    /** `Published[i]` is the value published under write index `i`. */
    ghost var Published: seq<T>

    /**
     * The protocol invariant: the four counters are ordered, the writers
     * are at most one pass ahead of the readers, and every published slot
     * not yet freed still holds the value published there.
     */
    ghost predicate Valid()
      reads this, buffer
    {
      0 < capacity && buffer.Length == capacity &&
      stillReading <= nextRead <= stillWriting <= nextWrite <= stillReading + capacity &&
      |Published| == stillWriting &&
      forall i :: stillReading <= i < stillWriting ==> buffer[Slots.Slot(i, capacity)] == Published[i]
    }

    /** The values readers have still to claim, oldest first. */
    ghost function Queue(): (q: seq<T>)
      reads this
      requires stillReading <= nextRead <= stillWriting == |Published|
      ensures |q| == stillWriting - nextRead
    {
      Published[nextRead..stillWriting]
    }

    /** A new buffer: all four counters zero, every slot default-initialised. */
    constructor (capacity: nat)
      requires 0 < capacity
      ensures Valid() && fresh(buffer)
      ensures this.capacity == capacity
      ensures nextWrite == stillWriting == nextRead == stillReading == 0
      ensures Published == [] && Queue() == []
    {
      this.capacity := capacity;
      buffer := new T[capacity];
      nextWrite, stillWriting, nextRead, stillReading := 0, 0, 0, 0;
      Published := [];
    }

    /**
     * Claim a write index: the compare-and-swap that advances `nextWrite`
     * by one once the exit test holds. The claimed slot holds no value that
     * is published and not yet read.
     */
    method AcquireWrite() returns (index: nat)
      requires Valid() && WriteClaimable(nextWrite, stillReading, capacity)
      modifies this`nextWrite
      ensures Valid()
      ensures index == old(nextWrite) && nextWrite == index + 1
      ensures stillWriting <= index < stillReading + capacity
      ensures forall i :: stillReading <= i < stillWriting ==>
                Slots.Slot(i, capacity) != Slots.Slot(index, capacity)
    {
      index := nextWrite;
      nextWrite := nextWrite + 1;
      forall i | stillReading <= i < stillWriting
        ensures Slots.Slot(i, capacity) != Slots.Slot(index, capacity)
      {
        Slots.DistinctSlots(i, index, capacity);
      }
    }

    /** Move the value into the claimed slot; every other slot is unchanged. */
    method Store(index: nat, value: T)
      requires Valid() && stillWriting <= index < nextWrite
      modifies buffer
      ensures Valid()
      ensures buffer[..] == old(buffer[..])[Slots.Slot(index, capacity) := value]
    {
      forall i | stillReading <= i < stillWriting
        ensures Slots.Slot(i, capacity) != Slots.Slot(index, capacity)
      {
        Slots.DistinctSlots(i, index, capacity);
      }
      buffer[Slots.Slot(index, capacity)] := value;
    }

    /**
     * Publish a write: proceeds only when `stillWriting` has reached the
     * claimed index, then advances it by one, so writes are published in
     * claim order. The value published is what the claimed slot holds.
     */
    method ReleaseWrite(index: nat)
      requires Valid() && stillWriting == index < nextWrite
      modifies this`stillWriting, this`Published
      ensures Valid()
      ensures stillWriting == index + 1
      ensures Published == old(Published) + [buffer[Slots.Slot(index, capacity)]]
    {
      Published := Published + [buffer[Slots.Slot(index, capacity)]];
      stillWriting := stillWriting + 1;
    }

    /**
     * Claim a read index: the compare-and-swap that advances `nextRead` by
     * one once the exit test holds. The claimed index is already published.
     */
    method AcquireRead() returns (index: nat)
      requires Valid() && ReadClaimable(nextRead, stillWriting)
      modifies this`nextRead
      ensures Valid()
      ensures index == old(nextRead) && nextRead == index + 1
      ensures index < stillWriting
    {
      index := nextRead;
      nextRead := nextRead + 1;
    }

    /**
     * Hand the claimed slot to the reader: the value is exactly the one
     * published under the same index.
     */
    method Visit(index: nat) returns (value: T)
      requires Valid() && stillReading <= index < nextRead
      ensures value == buffer[Slots.Slot(index, capacity)]
      ensures value == Published[index]
    {
      value := buffer[Slots.Slot(index, capacity)];
    }

    /**
     * Publish a read: proceeds only when `stillReading` has reached the
     * claimed index, then advances it by one, freeing slots in claim order.
     */
    method ReleaseRead(index: nat)
      requires Valid() && stillReading == index < nextRead
      modifies this`stillReading
      ensures Valid()
      ensures stillReading == index + 1
    {
      stillReading := stillReading + 1;
    }

    /**
     * `write_next` run by one thread while no other writer holds a claim
     * (otherwise the publish step would wait for that writer): the value
     * joins the back of the queue and lands in slot `nextWrite % capacity`.
     */
    method WriteNext(value: T)
      requires Valid() && WriteClaimable(nextWrite, stillReading, capacity)
      requires stillWriting == nextWrite
      modifies this`nextWrite, this`stillWriting, this`Published, buffer
      ensures Valid()
      ensures nextWrite == stillWriting == old(nextWrite) + 1
      ensures Published == old(Published) + [value]
      ensures Queue() == old(Queue()) + [value]
      ensures buffer[..] == old(buffer[..])[Slots.Slot(old(nextWrite), capacity) := value]
    {
      var index := AcquireWrite();
      Store(index, value);
      ReleaseWrite(index);
    }

    /**
     * `read_next` run by one thread while no other reader holds a claim:
     * the reader is handed the front of the queue, which is removed.
     */
    method ReadNext() returns (value: T)
      requires Valid() && ReadClaimable(nextRead, stillWriting)
      requires stillReading == nextRead
      modifies this`nextRead, this`stillReading
      ensures Valid()
      ensures nextRead == stillReading == old(nextRead) + 1
      ensures old(Queue()) != [] && value == old(Queue())[0]
      ensures Queue() == old(Queue())[1..]
    {
      var index := AcquireRead();
      value := Visit(index);
      ReleaseRead(index);
    }
  }

  /**
   * One thread alternately writes `0, 1, ..., count - 1` and reads one
   * value back, for as many passes over the slots as `count` needs: the
   * values come out in the order written.
   */
  method AlternatingWriteRead(capacity: nat, count: nat) returns (delivered: seq<int>)
    requires 0 < capacity
    ensures delivered == seq(count, i => i)
  {
    var b := new ThreadSafeBuffer2<int>(capacity);
    delivered := [];
    var i := 0;
    while i < count
      invariant 0 <= i <= count
      invariant b.Valid() && b.capacity == capacity
      invariant b.stillReading == b.nextRead == b.stillWriting == b.nextWrite
      invariant delivered == seq(i, k => k)
    {
      b.WriteNext(i);
      var value := b.ReadNext();
      delivered := delivered + [value];
      i := i + 1;
    }
  }

  /**
   * One thread fills a buffer of `|values|` slots completely, then reads
   * every value back: a full buffer is readable, and FIFO order holds.
   */
  method FillThenDrain<T(0)>(values: seq<T>) returns (delivered: seq<T>)
    requires values != []
    ensures delivered == values
  {
    var b := new ThreadSafeBuffer2<T>(|values|);
    var i := 0;
    while i < |values|
      invariant 0 <= i <= |values|
      invariant b.Valid() && b.capacity == |values|
      invariant b.stillReading == b.nextRead == 0 && b.stillWriting == b.nextWrite == i
      invariant b.Queue() == values[..i]
    {
      b.WriteNext(values[i]);
      i := i + 1;
    }
    delivered := [];
    while |delivered| < |values|
      invariant b.Valid() && b.capacity == |values|
      invariant b.stillReading == b.nextRead == |delivered| && b.stillWriting == b.nextWrite == |values|
      invariant values == delivered + b.Queue()
    {
      var value := b.ReadNext();
      delivered := delivered + [value];
    }
  }
}
