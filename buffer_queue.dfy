/**
  AudioBufferQueue<SampleType>: the pool of NumBuffers x BufferSize samples
  is one two-dimensional array that push copies into and pop copies out of,
  in place; the index manager is a field the methods reassign. Each method
  is proved to do exactly what QueueSpec.Push / QueueSpec.Pop say.
*/
module BufferQueue {
  import opened Wrappers
  import Fifo
  import opened QueueSpec

  class AudioBufferQueue {
    /** `buffers`: slot i, sample j is buffers[i, j]. */
    const buffers: array2<real>
    /** `abstractFifo`. */
    var fifo: Fifo.FifoState

    ghost predicate Valid()
      reads this
    {
      buffers.Length0 == NumBuffers && buffers.Length1 == BufferSize &&
      Fifo.Valid(fifo) && fifo.slots == NumBuffers
    }

    /** The samples of slot i. */
    ghost function Row(i: nat): (s: seq<real>)
      reads buffers
      requires i < buffers.Length0
      ensures |s| == buffers.Length1
      ensures forall j | 0 <= j < buffers.Length1 :: s[j] == buffers[i, j]
    {
      seq(buffers.Length1, j requires 0 <= j < buffers.Length1 reads buffers => buffers[i, j])
    }

    /** The queue as a value. */
    ghost function State(): (q: QueueState)
      reads this, buffers
      requires Valid()
      ensures QueueSpec.Valid(q)
    {
      QueueState(fifo, seq(NumBuffers, i requires 0 <= i < NumBuffers reads buffers => Row(i)))
    }

    /** The JUCE FIFO is built over NumBuffers slots; how many of them may be
        filled at once is the library's business, so it is a parameter. */
    constructor (capacity: nat)
      requires capacity <= NumBuffers
      ensures Valid() && fresh(buffers)
      ensures IsEmpty(State()) && Pending(State()) == []
      ensures fifo.capacity == capacity
    {
      buffers := new real[NumBuffers, BufferSize];
      fifo := Fifo.Create(NumBuffers, capacity);
    }

    /** push: claim at most one slot; if one was granted, copy
        min(BufferSize, numSamples) samples of `data` into its front; then
        publish what was granted. A full queue drops the samples. */
    method Push(data: array<real>, numSamples: nat)
      requires Valid()
      requires numSamples <= BufferSize  // jassert(numSamples <= bufferSize)
      requires numSamples <= data.Length
      modifies this, buffers
      ensures Valid()
      ensures State() == QueueSpec.Push(old(State()), data[..numSamples])
    {
      ghost var q := State();
      var g := Fifo.PrepareToWrite(fifo);
      assert g.size1 <= 1 && g.size2 == 0;
      if g.size1 > 0 {
        CopyIntoSlot(g.start1, data, Min(BufferSize, numSamples));
      }
      fifo := Fifo.FinishedWrite(fifo, g.size1);
      ghost var expected := QueueSpec.Push(q, data[..numSamples]);
      assert State().slots == expected.slots by {
        forall i | 0 <= i < NumBuffers
          ensures Row(i) == expected.slots[i]
        {
        }
      }
    }

    /** FloatVectorOperations::copy into slot `slot`: the first n samples of
        `data` go to the front of that slot; nothing else changes. */
    method CopyIntoSlot(slot: nat, data: array<real>, n: nat)
      requires Valid() && slot < NumBuffers
      requires n <= BufferSize && n <= data.Length
      modifies buffers
      ensures Row(slot) == Overwrite(old(Row(slot)), data[..n])
      ensures forall i | 0 <= i < NumBuffers && i != slot :: Row(i) == old(Row(i))
    {
      var j := 0;
      while j < n
        invariant 0 <= j <= n
        invariant forall k | 0 <= k < BufferSize ::
          buffers[slot, k] == if k < j then data[k] else old(buffers[slot, k])
        invariant forall i, k | 0 <= i < NumBuffers && i != slot && 0 <= k < BufferSize ::
          buffers[i, k] == old(buffers[i, k])
      {
        buffers[slot, j] := data[j];
        j := j + 1;
      }
      assert Row(slot) == Overwrite(old(Row(slot)), data[..n]);
    }

    /** pop: claim at most one filled slot; if one was granted, copy its
        whole block into the front of `output`; then release what was
        granted. On an empty queue `output` is left as it was. */
    method Pop(output: array<real>)
      requires Valid()
      requires BufferSize <= output.Length
      modifies this, output
      ensures Valid()
      ensures var r := QueueSpec.Pop(old(State()));
              State() == r.queue &&
              (r.block.None? ==> output[..] == old(output[..])) &&
              (r.block.Some? ==> output[..BufferSize] == r.block.value &&
                                 output[BufferSize..] == old(output[BufferSize..]))
    {
      ghost var q := State();
      var g := Fifo.PrepareToRead(fifo);
      assert g.size1 <= 1 && g.size2 == 0;
      if g.size1 > 0 {
        var j := 0;
        while j < BufferSize
          invariant 0 <= j <= BufferSize
          invariant fifo == old(fifo)
          invariant forall k | 0 <= k < output.Length ::
            output[k] == if k < j then buffers[g.start1, k] else old(output[k])
        {
          output[j] := buffers[g.start1, j];
          j := j + 1;
        }
        assert output[..BufferSize] == Row(g.start1);
      }
      fifo := Fifo.FinishedRead(fifo, g.size1);
      assert State().slots == q.slots;
    }
  }
}
