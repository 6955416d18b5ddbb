/**
  ScopeDataCollector<SampleType>: the fields `currentState`, `numCollected`,
  `prevSample` and the scratch array `buffer` are updated in place by the two
  loops of `process`, which hands a completed block to the queue it holds a
  reference to. `Process` is proved to compute CollectorSpec.Process.
*/
module ScopeCollector {
  import opened Wrappers
  import opened QueueSpec
  import opened CollectorSpec
  import BufferQueue

  class ScopeDataCollector {
    /** `audioBufferQueue`: not owned, shared with the consumer. */
    const queue: BufferQueue.AudioBufferQueue
    /** The scratch block, one queue block in size. */
    const buffer: array<real>
    var currentState: Phase
    var numCollected: nat
    var prevSample: real

    ghost predicate Valid()
      reads this, queue
    {
      buffer.Length == BufferSize &&
      numCollected <= BufferSize &&
      (currentState == Collecting ==> numCollected < BufferSize) &&
      queue.Valid()
    }

    /** The collector as a value. */
    ghost function Abstract(): (c: Collector)
      reads this, buffer
      requires numCollected <= buffer.Length
      ensures |c.collected| == numCollected
    {
      Collector(currentState, prevSample, buffer[..numCollected])
    }

    /** The collector starts waiting for a trigger with the sentinel as the
        previous sample. (`numCollected` and the scratch block start
        undetermined in C++; they are only read after a trigger has reset
        the count to 0, so zero is as good as any value here.) */
    constructor (queueToUse: BufferQueue.AudioBufferQueue)
      requires queueToUse.Valid()
      ensures Valid() && queue == queueToUse && fresh(buffer)
      ensures Abstract() == Initial()
    {
      queue := queueToUse;
      buffer := new real[BufferSize];
      numCollected := 0;
      prevSample := Sentinel;
      currentState := WaitingForTrigger;
    }

    /** process(data, numSamples): first, if waiting, scan for a rising edge
        (the triggering sample is consumed); then, if collecting, append
        samples to the scratch block and push it to the queue as soon as it
        is full, discarding the rest of the input. */
    method Process(data: array<real>, numSamples: nat)
      requires Valid()
      requires numSamples <= data.Length
      requires data != buffer
      modifies this, buffer, queue, queue.buffers
      ensures Valid()
      ensures var out := CollectorSpec.Process(old(Abstract()), data[..numSamples]);
              Abstract() == out.next &&
              queue.State() == (if out.pushed.Some? then QueueSpec.Push(old(queue.State()), out.pushed.value)
                                else old(queue.State()))
    {
      var index := 0;
      if currentState == WaitingForTrigger {
        index := WaitForTrigger(data, numSamples);
      }
      if currentState == Collecting {
        Collect(data, numSamples, index);
      }
    }

    /** The first block of `process`: the trigger scan. It returns how many
        samples it consumed; it stops right after a triggering sample, with
        the collector switched to Collecting and the count reset, or at the
        end of the input, still waiting. */
    method WaitForTrigger(data: array<real>, numSamples: nat) returns (index: nat)
      requires Valid() && currentState == WaitingForTrigger
      requires numSamples <= data.Length
      modifies this
      ensures Valid() && index <= numSamples
      ensures currentState == WaitingForTrigger ==> index == numSamples
      ensures CollectorSpec.Process(old(Abstract()), data[..numSamples]) ==
              CollectorSpec.Process(Abstract(), data[index..numSamples])
    {
      ghost var input := data[..numSamples];
      ghost var result := CollectorSpec.Process(Abstract(), input);
      index := 0;
      while index < numSamples
        invariant index <= numSamples
        invariant Valid() && currentState == WaitingForTrigger
        invariant numCollected == old(numCollected)
        invariant CollectorSpec.Process(Abstract(), input[index..]) == result
      {
        var currentSample := data[index];
        ProcessStep(Abstract(), input[index..]);
        assert input[index..][1..] == input[index + 1..];
        index := index + 1;
        if currentSample >= TriggerLevel && prevSample < TriggerLevel {
          numCollected := 0;
          currentState := Collecting;
          break;
        }
        prevSample := currentSample;
      }
      assert input[index..] == data[index..numSamples];
    }

    /** The second block of `process`: fill the scratch block from
        data[index..numSamples], and push it as soon as it is full. */
    method Collect(data: array<real>, numSamples: nat, start: nat)
      requires Valid() && currentState == Collecting
      requires start <= numSamples <= data.Length
      requires data != buffer
      modifies this, buffer, queue, queue.buffers
      ensures Valid()
      ensures var out := CollectorSpec.Process(old(Abstract()), data[start..numSamples]);
              Abstract() == out.next &&
              queue.State() == (if out.pushed.Some? then QueueSpec.Push(old(queue.State()), out.pushed.value)
                                else old(queue.State()))
    {
      ghost var input := data[start..numSamples];
      ghost var result := CollectorSpec.Process(Abstract(), input);
      var index := start;
      while index < numSamples
        invariant start <= index <= numSamples
        invariant Valid() && currentState == Collecting
        invariant CollectorSpec.Process(Abstract(), input[index - start..]) == result
        invariant unchanged(queue) && unchanged(queue.buffers)
      {
        ProcessStep(Abstract(), input[index - start..]);
        assert input[index - start..][1..] == input[index + 1 - start..];
        ghost var before := Abstract();
        buffer[numCollected] := data[index];
        numCollected := numCollected + 1;
        assert buffer[..numCollected] == before.collected + [input[index - start]];
        index := index + 1;
        if numCollected == buffer.Length {
          queue.Push(buffer, buffer.Length);
          currentState := WaitingForTrigger;
          prevSample := Sentinel;
          break;
        }
      }
    }
  }
}
