/**
  The slot index manager that AudioBufferQueue keeps in its `abstractFifo`
  member (JUCE's AbstractFifo, whose code is not part of this model).

  It is modelled abstractly, as read and write cursors over `slots` slots with
  a usable `capacity` that is a parameter (the library decides whether all
  slots or one fewer may be in flight). Only requests for ONE slot are made by
  the queue, and the model grants, for each such request, either nothing or
  one slot in the first region, never a second wrapped region.
*/
module Fifo {

  /** The cursor state: `readPos` is the slot of the oldest filled block,
      `writePos` the slot the next write goes to, `numReady` the number of
      filled blocks. */
  datatype FifoState = FifoState(slots: nat, capacity: nat, readPos: nat, writePos: nat, numReady: nat)

  /** The four out-parameters of prepareToWrite / prepareToRead:
      a first region (start1, size1) and a wrapped second region (start2, size2). */
  datatype Grant = Grant(start1: nat, size1: nat, start2: nat, size2: nat)

  /** A positive factor keeps order: n * q is at least 2n when q is at
      least 2, and at most 0 when q is at most 0. */
  lemma MulMonotone(n: nat, q: int)
    requires 0 < n
    ensures q >= 2 ==> n * q >= 2 * n
    ensures q <= 0 ==> n * q <= 0
  {
    if q >= 2 {
      calc {
        n * q;
      ==
        2 * n + n * (q - 2);
      >=
        2 * n;
      }
    } else if q <= 0 {
      assert n * q == -(n * -q);
    }
  }

  /** Between n and 2n, reducing modulo n is subtracting n once. */
  lemma ModOnce(x: nat, n: nat)
    requires n <= x < 2 * n
    ensures x % n == x - n
  {
    var q, r := x / n, x % n;
    assert x == n * q + r && 0 <= r < n;
    MulMonotone(n, q);
    assert q == 1;
  }

  /** Cyclic successor arithmetic on slot indices: `x` reduced once by `n`. */
  function Wrap(x: nat, n: nat): (r: nat)
    requires x < 2 * n
    ensures r < n
    ensures r == x % n
  {
    if x < n then x else (ModOnce(x, n); x - n)
  }

  ghost predicate Valid(f: FifoState)
  {
    0 < f.slots &&
    f.capacity <= f.slots &&
    f.readPos < f.slots &&
    f.numReady <= f.capacity &&
    f.writePos == Wrap(f.readPos + f.numReady, f.slots)
  }

  /** The number of slots that may still be claimed for writing. */
  function FreeSpace(f: FifoState): (n: nat)
    requires Valid(f)
    ensures n + f.numReady == f.capacity
  {
    f.capacity - f.numReady
  }

  /** The slot that holds the k-th oldest filled block (k == numReady: the
      slot the next write claims). */
  function SlotOf(f: FifoState, k: nat): (i: nat)
    requires Valid(f) && k < f.slots
    ensures i < f.slots
  {
    Wrap(f.readPos + k, f.slots)
  }

  /** A fresh index manager over `slots` slots: nothing is filled. */
  function Create(slots: nat, capacity: nat): (f: FifoState)
    requires 0 < slots && capacity <= slots
    ensures Valid(f)
    ensures f.slots == slots && f.capacity == capacity
    ensures f.numReady == 0 && FreeSpace(f) == capacity
  {
    FifoState(slots, capacity, 0, 0, 0)
  }

  /** prepareToWrite(1, ...): a request for one writable slot. */
  function PrepareToWrite(f: FifoState): (g: Grant)
    requires Valid(f)
    ensures g.size1 <= 1 && g.size2 == 0
    ensures g.size1 == 1 <==> FreeSpace(f) > 0
    ensures g.size1 == 1 ==> g.start1 == SlotOf(f, f.numReady)
  {
    Grant(f.writePos, if FreeSpace(f) > 0 then 1 else 0, 0, 0)
  }

  /** finishedWrite(n): publish `n` written slots as filled. */
  function FinishedWrite(f: FifoState, n: nat): (f': FifoState)
    requires Valid(f) && n <= FreeSpace(f)
    ensures Valid(f')
    ensures f'.slots == f.slots && f'.capacity == f.capacity
    ensures f'.readPos == f.readPos && f'.numReady == f.numReady + n
  {
    FifoState(f.slots, f.capacity, f.readPos, Wrap(f.writePos + n, f.slots), f.numReady + n)
  }

  /** prepareToRead(1, ...): a request for one filled slot. */
  function PrepareToRead(f: FifoState): (g: Grant)
    requires Valid(f)
    ensures g.size1 <= 1 && g.size2 == 0
    ensures g.size1 == 1 <==> f.numReady > 0
    ensures g.start1 == SlotOf(f, 0)
  {
    Grant(f.readPos, if f.numReady > 0 then 1 else 0, 0, 0)
  }

  /** finishedRead(n): hand `n` read slots back as free. */
  function FinishedRead(f: FifoState, n: nat): (f': FifoState)
    requires Valid(f) && n <= f.numReady
    ensures Valid(f')
    ensures f'.slots == f.slots && f'.capacity == f.capacity
    ensures f'.writePos == f.writePos && f'.numReady + n == f.numReady
  {
    FifoState(f.slots, f.capacity, Wrap(f.readPos + n, f.slots), f.writePos, f.numReady - n)
  }

  /** A write request followed by publishing what was granted moves the
      write cursor by exactly 0 or 1 slot (cyclically) and never the read
      cursor; it moves it exactly when there was free space. */
  lemma WriteCursorStep(f: FifoState)
    requires Valid(f)
    ensures var f' := FinishedWrite(f, PrepareToWrite(f).size1);
            f'.readPos == f.readPos &&
            f'.writePos == (f.writePos + (if FreeSpace(f) > 0 then 1 else 0)) % f.slots &&
            f'.numReady == f.numReady + (if FreeSpace(f) > 0 then 1 else 0)
  {
  }

  /** The read counterpart: the read cursor moves by exactly 0 or 1 slot,
      exactly when a filled slot was there, and the write cursor stays. */
  lemma ReadCursorStep(f: FifoState)
    requires Valid(f)
    ensures var f' := FinishedRead(f, PrepareToRead(f).size1);
            f'.writePos == f.writePos &&
            f'.readPos == (f.readPos + (if f.numReady > 0 then 1 else 0)) % f.slots &&
            f'.numReady + (if f.numReady > 0 then 1 else 0) == f.numReady
  {
  }

  /** After a write is published, the blocks that were pending keep their
      slots and the written slot becomes the newest one. */
  lemma SlotsAfterWrite(f: FifoState, n: nat, k: nat)
    requires Valid(f) && n <= FreeSpace(f) && k < f.numReady + n
    ensures SlotOf(FinishedWrite(f, n), k) == SlotOf(f, k)
  {
  }

  /** After one slot is read, the k-th pending block is what was the
      (k+1)-th before. */
  lemma SlotsAfterRead(f: FifoState, k: nat)
    requires Valid(f) && 0 < f.numReady && k + 1 < f.slots
    ensures SlotOf(FinishedRead(f, 1), k) == SlotOf(f, k + 1)
  {
  }

  /** Pending blocks occupy pairwise distinct slots, and the slot a write
      claims holds none of them. */
  lemma SlotsDistinct(f: FifoState, k1: nat, k2: nat)
    requires Valid(f) && k1 < f.slots && k2 < f.slots && k1 != k2
    ensures SlotOf(f, k1) != SlotOf(f, k2)
  {
  }
}
