/**
  AudioBufferQueue as a value: a fixed pool of NumBuffers sample blocks of
  BufferSize samples each, and the slot index manager that says which slots
  hold filled blocks. Push and Pop here are the meaning of the class methods
  in module BufferQueue; the lemmas state what the queue promises its
  producer and consumer.
*/
module QueueSpec {
  import opened Wrappers
  import Fifo

  /** Samples per block: `bufferSize`, 1 << 9. */
  const BufferSize: nat := 512
  /** Number of blocks in the pool. */
  const NumBuffers: nat := 5

  /** `buffers` holds every slot, filled or not; `fifo` the cursors. */
  datatype QueueState = QueueState(fifo: Fifo.FifoState, slots: seq<seq<real>>)

  ghost predicate Valid(q: QueueState)
  {
    Fifo.Valid(q.fifo) && q.fifo.slots == NumBuffers &&
    |q.slots| == NumBuffers &&
    forall i | 0 <= i < |q.slots| :: |q.slots[i]| == BufferSize
  }

  predicate IsFull(q: QueueState)
    requires Valid(q)
  {
    Fifo.FreeSpace(q.fifo) == 0
  }

  predicate IsEmpty(q: QueueState)
    requires Valid(q)
  {
    q.fifo.numReady == 0
  }

  function Min(a: nat, b: nat): (m: nat)
    ensures m <= a && m <= b && (m == a || m == b)
  {
    if a < b then a else b
  }

  /** The filled blocks, oldest first: what a consumer will pop, in order. */
  ghost function Pending(q: QueueState): (blocks: seq<seq<real>>)
    requires Valid(q)
    ensures |blocks| == q.fifo.numReady
    ensures forall k | 0 <= k < |blocks| :: |blocks[k]| == BufferSize
  {
    seq(q.fifo.numReady, k requires 0 <= k < q.fifo.numReady => q.slots[Fifo.SlotOf(q.fifo, k)])
  }

  /** A queue over a pool whose blocks hold `initial`, with nothing filled. */
  function Create(capacity: nat, initial: seq<seq<real>>): (q: QueueState)
    requires capacity <= NumBuffers
    requires |initial| == NumBuffers && forall i | 0 <= i < NumBuffers :: |initial[i]| == BufferSize
    ensures Valid(q) && IsEmpty(q) && Pending(q) == []
    ensures q.fifo.capacity == capacity
  {
    QueueState(Fifo.Create(NumBuffers, capacity), initial)
  }

  /** A slot after `data` has been copied into its front: the copied
      samples first, then what the slot held beyond them. */
  function Overwrite(block: seq<real>, data: seq<real>): (r: seq<real>)
    requires |data| <= |block|
    ensures |r| == |block|
    ensures forall j | 0 <= j < |data| :: r[j] == data[j]
    ensures forall j | |data| <= j < |block| :: r[j] == block[j]
  {
    data + block[|data|..]
  }

  /** push(dataToPush, numSamples): claim at most one slot, copy
      min(BufferSize, |data|) samples into the front of it, publish it.
      A full queue drops the push: nothing is copied and the cursors stay.
      Otherwise the slot after the newest pending block is overwritten at
      the front, and every other slot is left as it was. */
  function Push(q: QueueState, data: seq<real>): (r: QueueState)
    requires Valid(q) && |data| <= BufferSize
    ensures Valid(r) && r.fifo.capacity == q.fifo.capacity
    ensures IsFull(q) ==> r == q
    ensures !IsFull(q) ==>
              var w := Fifo.SlotOf(q.fifo, q.fifo.numReady);
              r.fifo.numReady == q.fifo.numReady + 1 && r.fifo.readPos == q.fifo.readPos &&
              r.slots == q.slots[w := Overwrite(q.slots[w], data)]
  {
    var g := Fifo.PrepareToWrite(q.fifo);
    var n := Min(BufferSize, |data|);
    assert data[..n] == data;
    var slots := if g.size1 > 0 then q.slots[g.start1 := Overwrite(q.slots[g.start1], data[..n])] else q.slots;
    QueueState(Fifo.FinishedWrite(q.fifo, g.size1), slots)
  }

  datatype PopResult = PopResult(queue: QueueState, block: Option<seq<real>>)

  /** pop(outputBuffer): claim at most one filled slot, hand out its whole
      block, release the slot. An empty queue yields nothing. */
  function Pop(q: QueueState): (r: PopResult)
    requires Valid(q)
    ensures Valid(r.queue) && r.queue.fifo.capacity == q.fifo.capacity
    ensures r.queue.slots == q.slots
    ensures IsEmpty(q) <==> r.block == None
    ensures IsEmpty(q) ==> r.queue == q
    ensures r.block.Some? ==> |r.block.value| == BufferSize
  {
    var g := Fifo.PrepareToRead(q.fifo);
    var block := if g.size1 > 0 then Some(q.slots[g.start1]) else None;
    PopResult(QueueState(Fifo.FinishedRead(q.fifo, g.size1), q.slots), block)
  }

  /** A push into a queue that is not full appends exactly one block to the
      pending blocks: the pushed samples followed by what the claimed slot
      held beyond them; a full block is appended as it is. */
  lemma PushAppends(q: QueueState, data: seq<real>)
    requires Valid(q) && |data| <= BufferSize && !IsFull(q)
    ensures var w := Fifo.SlotOf(q.fifo, q.fifo.numReady);
            Pending(Push(q, data)) == Pending(q) + [Overwrite(q.slots[w], data)]
    ensures |data| == BufferSize ==> Pending(Push(q, data)) == Pending(q) + [data]
  {
    var r := Push(q, data);
    var w := Fifo.SlotOf(q.fifo, q.fifo.numReady);
    var expected := Pending(q) + [Overwrite(q.slots[w], data)];
    assert |Pending(r)| == |expected|;
    forall k | 0 <= k < |expected|
      ensures Pending(r)[k] == expected[k]
    {
      Fifo.SlotsAfterWrite(q.fifo, 1, k);
      if k < q.fifo.numReady {
        Fifo.SlotsDistinct(q.fifo, k, q.fifo.numReady);
      }
    }
    assert Pending(r) == expected;
    if |data| == BufferSize {
      assert Overwrite(q.slots[w], data) == data;
    }
  }

  /** Pop hands out the oldest pending block and leaves the rest, in order;
      on an empty queue it hands out nothing and changes nothing. */
  lemma PopTakesOldest(q: QueueState)
    requires Valid(q)
    ensures var r := Pop(q);
            if IsEmpty(q) then r.block == None && r.queue == q
            else r.block == Some(Pending(q)[0]) && Pending(r.queue) == Pending(q)[1..]
  {
    if !IsEmpty(q) {
      var r := Pop(q);
      assert |Pending(r.queue)| == |Pending(q)[1..]|;
      forall k | 0 <= k < |Pending(r.queue)|
        ensures Pending(r.queue)[k] == Pending(q)[1..][k]
      {
        Fifo.SlotsAfterRead(q.fifo, k);
      }
    }
  }

  /** Round trip: a full block pushed into an empty queue with any usable
      capacity comes back unchanged from the next pop. */
  lemma PushPopRoundTrip(q: QueueState, data: seq<real>)
    requires Valid(q) && IsEmpty(q) && q.fifo.capacity > 0 && |data| == BufferSize
    ensures Pop(Push(q, data)).block == Some(data)
    ensures IsEmpty(Pop(Push(q, data)).queue)
  {
    PushAppends(q, data);
    PopTakesOldest(Push(q, data));
  }

  /** Every block fits in one slot. */
  ghost predicate AllFit(blocks: seq<seq<real>>)
  {
    forall k | 0 <= k < |blocks| :: |blocks[k]| <= BufferSize
  }

  /** Every block fills a whole slot. */
  ghost predicate AllFull(blocks: seq<seq<real>>)
  {
    forall k | 0 <= k < |blocks| :: |blocks[k]| == BufferSize
  }

  /** Pushing the given blocks one after another, with no pop in between. */
  function PushAll(q: QueueState, blocks: seq<seq<real>>): (r: QueueState)
    requires Valid(q) && AllFit(blocks)
    ensures Valid(r) && r.fifo.capacity == q.fifo.capacity
    decreases |blocks|
  {
    if blocks == [] then q else PushAll(Push(q, blocks[0]), blocks[1..])
  }

  /** One push of a full block: it is appended if there is room and dropped
      otherwise, and it uses up one unit of free space if there is any. */
  lemma PushOneFull(q: QueueState, b: seq<real>)
    requires Valid(q) && |b| == BufferSize
    ensures var k := Min(1, Fifo.FreeSpace(q.fifo));
            Pending(Push(q, b)) == Pending(q) + [b][..k] &&
            Fifo.FreeSpace(Push(q, b).fifo) == Fifo.FreeSpace(q.fifo) - k
  {
    if !IsFull(q) {
      PushAppends(q, b);
    }
  }

  /** Taking the first min(1, f) of one element and then the first
      min(|rest|, f - that) of the rest takes the first min(|xs|, f). */
  lemma PrefixSteps<T>(front: seq<T>, xs: seq<T>, f: nat)
    requires xs != []
    ensures var k := Min(1, f);
            front + [xs[0]][..k] + xs[1..][..Min(|xs[1..]|, f - k)] == front + xs[..Min(|xs|, f)]
  {
    if f > 0 {
      assert [xs[0]] + xs[1..][..Min(|xs| - 1, f - 1)] == xs[..Min(|xs|, f)];
    }
  }

  /** Drop-on-full over a run of pushes: of full blocks pushed without any
      pop, exactly the first FreeSpace ones are kept, in order, and every
      later one is dropped. With capacity + 1 pushes into an empty queue the
      last push is the one dropped. */
  lemma {:induction false} PushAllKeepsFirst(q: QueueState, blocks: seq<seq<real>>)
    requires Valid(q) && AllFull(blocks)
    ensures Pending(PushAll(q, blocks)) == Pending(q) + blocks[..Min(|blocks|, Fifo.FreeSpace(q.fifo))]
    decreases |blocks|
  {
    if blocks != [] {
      var b, rest := blocks[0], blocks[1..];
      var q' := Push(q, b);
      var f := Fifo.FreeSpace(q.fifo);
      var k := Min(1, f);
      PushOneFull(q, b);
      PushAllKeepsFirst(q', rest);
      PrefixSteps(Pending(q), blocks, f);
    }
  }
}
