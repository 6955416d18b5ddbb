# Scope feed of the SANA 8-bit synthesizer, in Dafny

This project models the visualisation feed of the synthesizer's scope panel
(`Source/GUI/ScopeComponent.hpp`) and proves what it promises:

- **`AudioBufferQueue`** is a fixed pool of `numBuffers = 5` blocks of
  `bufferSize = 1 << 9 = 512` samples. A slot index manager (JUCE's
  `AbstractFifo`) hands out slots. `push` claims at most one free slot,
  copies `min(bufferSize, numSamples)` samples into its front and publishes
  it. On a full queue the push is dropped. `pop` claims at most one filled
  slot, copies the whole 512-sample block out and releases the slot. On an
  empty queue nothing happens.
- **`ScopeDataCollector::process`** is a resumable two-state machine
  (`WaitingForTrigger` / `Collecting`). It scans the input for a rising edge
  across `triggerLevel = 0.001`. It then fills a 512-sample scratch block,
  possibly over several calls, and pushes it to the queue when it is full.
  After the push it sets `prevSample` to the sentinel `100`, so the next
  sample cannot trigger.

Samples are `real`: the code only copies and compares them.

Module layout:

- `Fifo` (`fifo.dfy`): the index manager as a value. It has read and write
  cursors, a count of filled slots and a usable `capacity` parameter.
- `QueueSpec` (`queue_spec.dfy`): the queue as a value, with `Push`, `Pop`
  and `Pending` (the filled blocks, oldest first). Its lemmas give FIFO
  order, drop-on-full and the round trip.
- `BufferQueue` (`buffer_queue.dfy`): class `AudioBufferQueue`. The pool is
  one `array2<real>` that `Push` and `Pop` copy into and out of in place.
  Each method is proved to compute `QueueSpec.Push` / `QueueSpec.Pop`.
- `CollectorSpec` (`collector_spec.dfy`): the collector as a value. `Feed`
  is the reaction to one sample. `Process` is one call: feed samples until
  the input ends or a block is completed. Its lemmas cover triggering,
  collecting, resuming and discarding.
- `ScopeCollector` (`scope_collector.dfy`): class `ScopeDataCollector`. It
  holds the fields `currentState`, `numCollected`, `prevSample` and the
  scratch array `buffer`. `Process` runs the source's two `while` loops, one
  in `WaitForTrigger` and one in `Collect`. It is proved to compute
  `CollectorSpec.Process` and to push exactly the block that function hands
  out.

A captured block does not include the triggering sample: the waiting loop
consumes it, and the block holds the 512 samples after it
(`FirstEdgeStartsCollecting`, `TriggeredBlock`). Any samples left in a chunk
after a block is pushed are discarded (`DiscardAfterPush`).

## Model

| member | source | states |
|---|---|---|
| Fifo.Create | Source/GUI/ScopeComponent.hpp:114 | the index manager starts over the given number of slots (5 for the queue) with nothing filled and all `capacity` slots free |
| Fifo.PrepareToWrite | Source/GUI/ScopeComponent.hpp:63-66 | a request grants at most one slot and never a second wrapped region; it grants one exactly when there is free space, and that slot follows the newest filled block |
| Fifo.FinishedWrite | Source/GUI/ScopeComponent.hpp:77 | publishing n written slots keeps the cursors consistent, adds n filled slots and leaves the read cursor alone |
| Fifo.PrepareToRead | Source/GUI/ScopeComponent.hpp:91-94 | a request grants at most one filled slot and never a second region; it grants one exactly when a block is filled, and that slot is the oldest |
| Fifo.FinishedRead | Source/GUI/ScopeComponent.hpp:105 | releasing n read slots keeps the cursors consistent, removes n filled slots and leaves the write cursor alone |
| Fifo.WriteCursorStep | Source/GUI/ScopeComponent.hpp:63-77 | a push moves the write cursor by exactly 0 or 1 (mod 5), and by 1 exactly when there was free space; the read cursor does not move |
| Fifo.ReadCursorStep | Source/GUI/ScopeComponent.hpp:91-105 | a pop moves the read cursor by exactly 0 or 1 (mod 5), and by 1 exactly when a block was filled; the write cursor does not move |
| QueueSpec.Create | Source/GUI/ScopeComponent.hpp:108-114 | a new queue has no pending blocks |
| QueueSpec.Overwrite | Source/GUI/ScopeComponent.hpp:71-72 | after the copy, the first `numSamples` entries of the slot are the pushed samples and the later entries are what the slot held before |
| QueueSpec.Push | Source/GUI/ScopeComponent.hpp:50-78 | on a full queue nothing changes (drop-on-full); otherwise one more block is filled, only the claimed slot changes, and only its front |
| QueueSpec.Pop | Source/GUI/ScopeComponent.hpp:80-106 | pop yields a block exactly when the queue is not empty; that block has all 512 samples, and no slot content changes; on an empty queue nothing changes |
| QueueSpec.PushAppends | Source/GUI/ScopeComponent.hpp:63-77 | a push into a non-full queue appends exactly one pending block (pushed samples, then the slot's old tail); a full 512-sample push appends the samples unchanged |
| QueueSpec.PopTakesOldest | Source/GUI/ScopeComponent.hpp:91-105 | pop hands out the oldest pending block and leaves the others in order (FIFO); on an empty queue it hands out nothing and changes nothing |
| QueueSpec.PushPopRoundTrip | Source/GUI/ScopeComponent.hpp:50-106 | a full block pushed into an empty queue comes back from the next pop with the same samples, and the queue is empty again |
| QueueSpec.PushAll | Source/GUI/ScopeComponent.hpp:50-78 | any run of pushes keeps the queue well formed and keeps its capacity |
| QueueSpec.PushAllKeepsFirst | Source/GUI/ScopeComponent.hpp:63-77 | full blocks pushed with no pop in between: the first FreeSpace of them are kept, in order, and the rest are dropped; from empty, push number capacity + 1 is the one dropped |
| BufferQueue.AudioBufferQueue.constructor | Source/GUI/ScopeComponent.hpp:108-114 | the pool is a fresh 5 x 512 array and no block is pending |
| BufferQueue.AudioBufferQueue.Push | Source/GUI/ScopeComponent.hpp:50-78 | requires `numSamples <= bufferSize`; the new array and cursors are exactly `QueueSpec.Push` of the old ones |
| BufferQueue.AudioBufferQueue.CopyIntoSlot | Source/GUI/ScopeComponent.hpp:71-72 | the in-place copy writes the first n entries of the claimed slot and changes no other entry of the array |
| BufferQueue.AudioBufferQueue.Pop | Source/GUI/ScopeComponent.hpp:80-106 | the new cursors are those of `QueueSpec.Pop`; if a block was handed out, the first 512 entries of `outputBuffer` are that block and the rest are untouched; on an empty queue `outputBuffer` is untouched |
| CollectorSpec.Initial | Source/GUI/ScopeComponent.hpp:183-186 | a new collector waits for a trigger, and `prevSample` is the sentinel 100 |
| CollectorSpec.Feed | Source/GUI/ScopeComponent.hpp:128-161 | one sample never over-fills the block, and while collecting the block is never left full |
| CollectorSpec.Process | Source/GUI/ScopeComponent.hpp:124-163 | one call hands out at most one block, always a full 512-sample one; after it the state is WaitingForTrigger with `prevSample == 100` and the block in `buffer` |
| CollectorSpec.NoEdgeStaysWaiting | Source/GUI/ScopeComponent.hpp:129-146 | while waiting, input with no rising edge is consumed entirely: no push, still waiting, the partial block untouched, and `prevSample` is the last sample |
| CollectorSpec.QuietStreamNeverPushes | Source/GUI/ScopeComponent.hpp:128-146 | a stream that stays below `triggerLevel` (all zeros, say) never leaves WaitingForTrigger and never pushes |
| CollectorSpec.FirstEdgeStartsCollecting | Source/GUI/ScopeComponent.hpp:129-143 | the first rising edge switches to Collecting with the count at 0; the triggering sample is consumed and not stored, and collection starts with the next sample |
| CollectorSpec.CollectingFills | Source/GUI/ScopeComponent.hpp:150-161 | while collecting, a short input is appended and the machine stays collecting, ready to resume; otherwise the block is completed by exactly the missing samples and pushed |
| CollectorSpec.TriggeredBlock | Source/GUI/ScopeComponent.hpp:124-163 | a rising edge at position t followed by at least 512 samples pushes exactly input[t+1 .. t+513] |
| CollectorSpec.SplitCallsCompose | Source/GUI/ScopeComponent.hpp:124-163 | state is resumable: two calls over chunks a and b give the same result as one call over a + b, as long as the call over a pushes nothing |
| CollectorSpec.DiscardAfterPush | Source/GUI/ScopeComponent.hpp:150-161 | once a call has pushed a block, the rest of its input is discarded unexamined |
| CollectorSpec.NoTriggerAfterPush | Source/GUI/ScopeComponent.hpp:157-158 | after a push, and in a new collector, the next sample cannot be a rising edge |
| ScopeCollector.ScopeDataCollector.constructor | Source/GUI/ScopeComponent.hpp:121-122 | the collector is in the initial state and uses the given queue |
| ScopeCollector.ScopeDataCollector.Process | Source/GUI/ScopeComponent.hpp:124-163 | the new collector state is `CollectorSpec.Process` of the old state and the input; the queue is `QueueSpec.Push` of the handed-out block, or unchanged if none |
| ScopeCollector.ScopeDataCollector.WaitForTrigger | Source/GUI/ScopeComponent.hpp:128-147 | the trigger scan consumes samples while keeping the remaining work equal to `CollectorSpec.Process`; if it ends still waiting, it has consumed the whole input |
| ScopeCollector.ScopeDataCollector.Collect | Source/GUI/ScopeComponent.hpp:150-162 | each write `buffer[numCollected++]` is in bounds; the result is `CollectorSpec.Process` from the collecting state, and the queue gets the full block exactly when one is completed |

## Left out

- `Source/DSP/SynthParameters.cpp`: parameter registration with the host and XML save/load. It is glue over JUCE classes that are not shown.
- `ScopeComponent` (`paint`, `paintHeader`, `plot`, `setFramePerSecond`, `timerCallback`, `resized`): GUI drawing, timer scheduling and floating-point coordinate mapping. `timerCallback` calls `pop` (modelled), then `repaint()` (GUI, left out).
- The echo/delay-line engine: its source is not part of this model.
- The internals of JUCE `AbstractFifo`: its code is not part of this model. `Fifo` keeps the usable capacity as a parameter (at most 5). It grants only single-slot requests, which is all the queue makes. Its one-slot, no-second-region guarantee is what the source's `jassert`s on lines 65-66 and 93-94 check.
- The single-producer/single-consumer threading and atomics: calls are modelled as one sequential interleaving.
- `jassert(numSamples <= bufferSize)` is a precondition of `Push`, not run-time behaviour.
- IEEE floating point: samples are exact reals, `0.001` is the exact real rather than the nearest `float`, and NaN comparisons are not modelled.
- `numCollected` and the scratch `buffer` start uninitialised in C++. The model starts them at 0, which no observable behaviour can depend on: `Collecting` is only entered through the trigger, which resets the count to 0.
- The two loops of `process` are one method in C++. Here they are the helper methods `WaitForTrigger` and `Collect`, called in the same order on the same shared `index`. C++'s `index++ < numSamples` also increments on the failing test; that extra increment is never read, so the model leaves it out.
