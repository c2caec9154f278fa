# Verified models of the data structures and protocols in go-example

The repository is a collection of Go programs. This project models the parts of it that
carry real invariants and proves, for all inputs and all runs, what those parts promise.

| file | what it models |
|---|---|
| `Varint.dfy` | `binary.PutUvarint` / `binary.Uvarint` and the size arithmetic of `getNeededSize` |
| `QueueModel.dfy` | the blocks of the byte queue and the arithmetic of head, tail, rightMargin, full and growth |
| `QueueRuns.dfy` | whole runs of the byte queue: conservation, stable indices, when it is first-in first-out |
| `ByteQueue.dfy` | the byte queue as a class over its byte array, each method proved against `QueueModel` |
| `QueueExecution.dfy` | operations executed on that class, tied to the runs |
| `PodDepend.dfy` | the pod dependency checker: cycle detection and startup order |
| `RingBuffer.dfy` | the growable ring buffer, its visitors, and its amortised cost |
| `Lru.dfy`, `Group.dfy` | the LRU cache and the read-through group with its byte views |
| `WriteBehind.dfy` | the write-behind worker, its clients and its shutdown |
| `Timers.dfy` | the timer list of the event loop and the travels of a timer handle |
| `Singleflight.dfy` | duplicate-call suppression over all interleavings |
| `ConsistentHash.dfy` | the hash ring |
| `Template.dfy` | the template parser and interpreter |
| `ProcessOrders.dfy` | the order batching stream |
| `UdpSession.dfy` | the rendezvous of a UDP session's read loop with its readers |
| `Tunnel.dfy` | route ownership, response waiters and longest-prefix routing |
| `Wrappers.dfy` | options, results, bytes, reversal |

`dafny verify dfyconfig.toml` checks the whole project with Dafny 4.11.

## How the models are built

Objects that update their fields are classes with the same fields; the methods modify them
in place and are proved against functions on values, about which the properties are then
proved. Code shared between goroutines (write-behind, timers, singleflight, UDP session,
tunnel) is a state machine whose events are the atomic actions of the program, with theorems
about every state that any sequence of events can reach. Iteration over a Go map picks an
arbitrary remaining key, so the results hold for every iteration order.

Conditions and conventions, and what they correspond to in the source:

* `Layout.Encodable`: a pushed entry needs fewer than 2^35 bytes, and so does the gap that a
  growth has to fill. Beyond that `PutUvarint` runs off the five-byte header buffer and
  panics. `Varint.HeaderIsExact` shows that 2^35 is exactly where the size arithmetic ends.
* Slices are modelled as Go hands them out: an array and two bounds, sharing the bytes.
  `Get` takes any index. At an index where no block starts it reads whatever stands there, as the
  source does; a slice out of bounds, where Go panics, is the outcome `SlicePanic`.
* `NewBytesQueue` and `lru.New` are called with non-negative sizes. A negative LRU limit
  would make the eviction loop spin on an empty list.
* The hash ring has a hash function: `New` assigns its default only to a local variable.
* A `Value` has one fixed, non-negative length for as long as it is cached.
* An LRU key's length is the length of the string that models it, as `len` is on bytes.
* No two handlers of the tunnel choose one id (`RegisteredIsFound`): the source draws UUIDs.
* `Singleflight`: `fn` returns. `WriteBehind`: the theorems about complete data assume that
  bulk writes succeed; `FailedFlush` and `FailedTick` say when one that fails does no harm.

Where the code does not do what its comments say, the model follows the code:

* The byte queue is called a queue "of fifo". It is first-in first-out exactly as long as it
  does not grow while it is wrapped around (`FifoExactly`, with a run that breaks the order
  in `FifoFails`).
* The LRU cache exceeds its byte limit after an update of a known key, which never evicts
  (`LimitAfterAdd`, `LimitExceeded`).
* The order stream has a batch size of 3, but only the first batch holds 3 orders; every
  later one holds 4, because the marker restarts at 0 (`BatchSize`).
* Stop is to leave nothing unwritten, but an update that write-behind accepts after its drain
  has found the queue empty is never written, although the client was told it would be
  (`LateUpdateIsLost`). Everything accepted before that moment is, and `StopExactly` says
  when the later updates do not matter.
* A failed bulk write is only logged, and its batch dropped (`FailedFlushIsLost`).

## Model

| member | source | states |
|---|---|---|
| Varint.Encode | go/container/bytesqyeye/bytes_queue.go:148-151 | a non-zero number's encoding is never longer than the number, so a filler of any size has room for its own header |
| Varint.DecodeEncode | go/container/bytesqyeye/bytes_queue.go:294-297 | decoding undoes encoding, whatever follows the encoding, for every number that takes at most nine bytes |
| Varint.UvarintReads | go/container/bytesqyeye/bytes_queue.go:294-297 | how far any bytes are read: where the count is positive, zero and negative |
| Varint.EncodeLength | go/container/bytesqyeye/bytes_queue.go:45-60 | how many bytes an encoding takes, by size class, both ways |
| Varint.HeaderIsExact | go/container/bytesqyeye/bytes_queue.go:42-62 | the header size that is reserved equals the length of the encoded total if and only if the total is below 2^35 |
| Varint.PutUvarint | go/container/bytesqyeye/bytes_queue.go:168-171 | the loop leaves exactly the encoding at the start of the header buffer |
| QueueModel.TilesDistinct | go/container/bytesqyeye/bytes_queue.go:184-187 | blocks of one segment lie one behind the other and start at different indices |
| QueueModel.Layout.PushContents | go/container/bytesqyeye/bytes_queue.go:92-112 | a push appends the entry; the old blocks keep their order unless a wrapped queue grows, when they become lower, filler, upper; it is refused exactly when growth is needed and the limit reached, and then nothing changes |
| QueueModel.Layout.PushValid | go/container/bytesqyeye/bytes_queue.go:92-112 | a push keeps the segment invariant in every layout |
| QueueModel.Layout.GrowsExactlyWithoutSpace | go/container/bytesqyeye/bytes_queue.go:95-105 | in terms of the blocks, in every layout: the array grows exactly when neither the space behind the last block of an unwrapped queue nor the space before the first takes the entry |
| QueueModel.Layout.PushIndex | go/container/bytesqyeye/bytes_queue.go:92-112 | where an entry goes, in terms of the blocks: behind the last block of an unwrapped queue if there is room, else before the first block, else behind all blocks of a larger array, or nowhere when the limit forbids that |
| QueueModel.Layout.FillerIsGap | go/container/bytesqyeye/bytes_queue.go:146-156 | the filler is one zero-filled block over exactly the bytes between the segments, or none |
| QueueModel.Layout.PushLeavesNoSmallGap | go/container/bytesqyeye/bytes_queue.go:189-212 | a push leaves no gap before the head or one of at least 17 bytes |
| QueueModel.Layout.MakeRoomValid | go/container/bytesqyeye/bytes_queue.go:95-105 | before the entry is written the tail is where the entry belongs, with the bytes it needs, in a consistent queue |
| QueueModel.Layout.GrowHasRoom | go/container/bytesqyeye/bytes_queue.go:117-164 | the grown array takes the pending entry behind its tail |
| QueueModel.Layout.GrowthPolicy | go/container/bytesqyeye/bytes_queue.go:114-132 | capacity doubles, after an entry larger than the queue has been added to it, never exceeds the maximum, and covers old capacity plus the entry |
| QueueModel.Layout.StraightValid | go/container/bytesqyeye/bytes_queue.go:146-157 | lower segment, filler and upper segment cover the array from the left margin to the right margin |
| QueueModel.Layout.PopValid | go/container/bytesqyeye/bytes_queue.go:219-244 | a pop removes the first block, no other, and keeps the invariant |
| QueueModel.Layout.IndicesDistinct | go/container/bytesqyeye/bytes_queue.go:107-111 | no two blocks held share an index |
| QueueRuns.RunConserves | go/container/bytesqyeye/bytes_queue.go:92-244 | over every run blocks at the start, pushes and fillers are, with multiplicity, the blocks removed and those still held |
| QueueRuns.IndexStaysValid | go/container/bytesqyeye/bytes_queue.go:107-187 | after any later operations the index of a push names that entry's block and no other, until it is popped or the queue reset |
| QueueRuns.FifoExactly | go/container/bytesqyeye/bytes_queue.go:26-27 | over a run without Reset the queue is first-in first-out if and only if no push grows a wrapped queue |
| QueueRuns.FifoFails | go/container/bytesqyeye/bytes_queue.go:146-157 | a concrete run of a nine-byte queue in which a younger entry overtakes an older one |
| QueueRuns.CapacityStaysWithinMaximum | go/container/bytesqyeye/bytes_queue.go:129-132 | over every run the capacity only grows and stays within the maximum |
| QueueRuns.WrappedIsInBlocks | go/container/bytesqyeye/bytes_queue.go:92-244 | over every run from a new queue the queue is wrapped exactly when there are blocks in its lower segment |
| ByteQueue.BoundsOfStored | go/container/bytesqyeye/bytes_queue.go:288-298 | at the index of a stored block the bytes give the bounds of exactly its payload, and its size |
| ByteQueue.HoldsAppend | go/container/bytesqyeye/bytes_queue.go:168-187 | writing a block at the tail stores it and alters no byte of any other block |
| ByteQueue.HoldsEnlarged | go/container/bytesqyeye/bytes_queue.go:134-144 | copying up to the right margin keeps every block |
| ByteQueue.HoldsStraight | go/container/bytesqyeye/bytes_queue.go:146-157 | changing the order of the segments moves no byte |
| ByteQueue.BytesQueue.constructor | go/container/bytesqyeye/bytes_queue.go:67-78 | a new queue is empty and consistent |
| ByteQueue.BytesQueue.Reset | go/container/bytesqyeye/bytes_queue.go:81-88 | all blocks are gone, the array is kept |
| ByteQueue.BytesQueue.Push | go/container/bytesqyeye/bytes_queue.go:92-112 | indices and bytes after a push are those of the value model, and its result is the place where the entry belongs in terms of the blocks; the bytes of all blocks stay stored; outside the new block no byte of the array changes unless it grows, and then the old array is left as it was |
| ByteQueue.BytesQueue.AllocateAdditionalMemory | go/container/bytesqyeye/bytes_queue.go:117-166 | the new array holds the blocks of the grown queue |
| ByteQueue.BytesQueue.PushBlock | go/container/bytesqyeye/bytes_queue.go:168-183 | header and payload are written in full, no other byte changes and every other block is kept |
| ByteQueue.BytesQueue.Copy | go/container/bytesqyeye/bytes_queue.go:185-187 | exactly the bytes that fit are copied and the tail moves by that many |
| ByteQueue.BytesQueue.Pop | go/container/bytesqyeye/bytes_queue.go:219-244 | returns the payload of the first block, as a slice of the array, and removes the block, or reports an empty queue |
| ByteQueue.BytesQueue.Peek | go/container/bytesqyeye/bytes_queue.go:247-250 | the payload of the first block as a slice of the array, or the empty-queue error |
| ByteQueue.BytesQueue.Get | go/container/bytesqyeye/bytes_queue.go:253-256 | at the index of a held block its payload as a slice of the array; each of the three errors exactly under its condition |
| ByteQueue.BytesQueue.CheckGet | go/container/bytesqyeye/bytes_queue.go:259-285 | which error an index draws |
| ByteQueue.BytesQueue.ReadAt | go/container/bytesqyeye/bytes_queue.go:288-298 | slice and size of a held block, the checks in order, and what any other index yields |
| QueueExecution.Execute | go/container/bytesqyeye/bytes_queue.go:92-244 | any operations executed on the array follow the run of the value model, the pops hand out its payloads in order, and a block that survives keeps its bytes even in an array the queue has outgrown |
| QueueExecution.PushExecuteGet | go/container/bytesqyeye/bytes_queue.go:107-112 | push, any further operations, Get at the returned index: the entry comes back unless it was popped or the queue reset |
| QueueExecution.GetExecuteReread | go/container/bytesqyeye/bytes_queue.go:253-298 | the slice that Get returned shares the array and still shows its entry after any further operations that do not pop it or reset the queue |
| DependencyGraph.WalkDescends | doc/pod-depend.md:83-110 | a walk from a listed node only meets nodes listed earlier |
| DependencyGraph.OrderedIsAcyclic | doc/pod-depend.md:83-110 | a list of all nodes with dependencies first rules out every cycle |
| DependencyGraph.WalkClosesCycle | doc/pod-depend.md:36-39 | a dependency on a node of the stack closes a cycle through that node |
| PodDepend.GraphOfClosed | doc/pod-depend.md:22-28 | every dependency of a node is a node, so the non-existent-pod branch is dead |
| PodDepend.GraphHoldsLastPods | doc/pod-depend.md:22-24 | a name leads to the dependencies of the last pod that has it |
| PodDepend.GraphHoldsNames | doc/pod-depend.md:22-24 | the keys of the graph are the names of the pods |
| PodDepend.EdgesAreDependencies | doc/pod-depend.md:22-28 | the edges of the graph are the direct dependencies that the deciding pods declare |
| PodDepend.CyclesAreCircularChains | doc/pod-depend.md:36-39 | the cycles of the graph are the chains of declared dependencies that come back to their first pod |
| PodDepend.BuildGraph | doc/pod-depend.md:19-28 | the loop builds the graph in which the last pod of a name decides, and all names and dependencies are nodes |
| PodDepend.CycleCheck.Dfs | doc/pod-depend.md:34-65 | a visit finishes the node and restores the stack, or names a node on a cycle; it terminates on the unvisited nodes |
| PodDepend.CycleCheck.Enter | doc/pod-depend.md:45-47 | marking and pushing keep the three-colour invariant |
| PodDepend.CycleCheck.Leave | doc/pod-depend.md:60-64 | finishing and popping keep the three-colour invariant |
| PodDepend.DetectCircularDependency | doc/pod-depend.md:17-81 | in terms of the pods: no error if and only if no chain of dependencies comes back to its start, for every iteration order; an error names a pod on such a chain; without error the printed list has every pod once, behind its dependencies |
| PodDepend.Sorter.Dfs | doc/pod-depend.md:88-101 | a visit extends the list, without duplicates, and on an acyclic graph lists the node behind its dependencies |
| PodDepend.GetTopologicalOrder | doc/pod-depend.md:84-110 | every node is listed exactly once; the list is a startup order if and only if the graph has no cycle |
| RingBuffer.VisitTrace | go/range/buffer.go:91-115 | a visit calls fn on one element after another with the state the last call left, up to the first refusal; each visited element is left as its call says, the others as they were |
| RingBuffer.VisitConcat | go/range/buffer.go:102-114 | visiting two stretches is visiting one and, unless refused, the other |
| RingBuffer.PushStaysSolvent | go/range/buffer.go:40-46 | pushes since the last allocation pay for the next copy |
| RingBuffer.AmortisedConstant | go/range/buffer.go:8-9 | over every run from a new buffer of any size growth copies at most 11 elements per push |
| RingBuffer.GrowthPolicy | go/range/buffer.go:191-198 | small arrays double, large ones grow by a tenth, rounded up |
| RingBuffer.SizeFollowsPeak | go/range/buffer.go:186-215 | over every run the array is never larger than at first or twice the most elements it has had to hold |
| RingBuffer.WindowPush | go/range/buffer.go:44-45 | writing at the tail appends to the window and keeps vacant slots zero |
| RingBuffer.WindowPop | go/range/buffer.go:55-58 | clearing the head slot removes the oldest element and keeps vacant slots zero |
| RingBuffer.RingBuffer.constructor | go/range/buffer.go:18-27 | an empty buffer of at least eight zero slots |
| RingBuffer.RingBuffer.Len | go/range/buffer.go:30-36 | the number of elements in both layouts |
| RingBuffer.RingBuffer.IsFull | go/range/buffer.go:177-179 | full exactly when one slot is left |
| RingBuffer.RingBuffer.Push | go/range/buffer.go:40-46 | appends to the sequence, growing when full, at the accounted cost |
| RingBuffer.RingBuffer.Grow | go/range/buffer.go:186-215 | same elements in order at the start of an array of the new size, the rest zero |
| RingBuffer.RingBuffer.Pop | go/range/buffer.go:50-60 | takes the first element, or reports an empty buffer with the zero value |
| RingBuffer.RingBuffer.Peek | go/range/buffer.go:64-69 | a pointer to the slot of the first element, or nil exactly when there is none |
| RingBuffer.RingBuffer.WriteThrough | go/range/buffer.go:64-69 | writing through that pointer replaces the first element and nothing else |
| RingBuffer.RingBuffer.Discard | go/range/buffer.go:73-86 | drops the oldest n or all; a negative n is returned and drops nothing |
| RingBuffer.RingBuffer.Clear | go/range/buffer.go:147-164 | empties the buffer and zeroes every slot |
| RingBuffer.RingBuffer.ForEach | go/range/buffer.go:91-115 | visits the sequence forwards up to the first refusal, with the elements left as the visitor changed them |
| RingBuffer.RingBuffer.ForEachReverse | go/range/buffer.go:120-144 | the same backwards |
| LruModel.EvictIsLongestFit | gocache/lrucache/lru/lru.go:50-53 | the survivors of an eviction are the longest most-recent prefix that fits |
| LruModel.AddExactly | gocache/lrucache/lru/lru.go:37-54 | a known key comes to the front with its new value, the others in order, and nothing is evicted; a new key leaves the longest beginning of itself and the rest that the limit allows |
| LruModel.TouchExactly | gocache/lrucache/lru/lru.go:75-83 | a Get moves the item to the front, the others keep their order; a miss changes nothing |
| LruModel.WeightWithout | gocache/lrucache/lru/lru.go:40-48 | the bytes charged for an item are the length of its key and of its value |
| LruModel.LimitAfterAdd | gocache/lrucache/lru/lru.go:37-54 | the byte limit holds after an Add if and only if the key is new or the updated entries fit |
| LruModel.LimitExceeded | gocache/lrucache/lru/lru.go:38-44 | a concrete update that leaves twice the allowed bytes |
| LruModel.RunIsByRecency | gocache/lrucache/lru/lru.go:37-83 | after every run the list is ordered by last use, so eviction takes the least recently used |
| LruModel.RunHoldsLastValues | gocache/lrucache/lru/lru.go:37-83 | after every run a cached value is the one last put under its key, and without a limit no key is ever dropped |
| Lru.LinkedKeys | gocache/lrucache/lru/lru.go:7-14 | list and map hold the same keys, each once |
| Lru.Cache.Add | gocache/lrucache/lru/lru.go:37-54 | map, list and byte counter agree after an Add; what it leaves of the items, with and without a limit, is exact, and so are the OnEvicted calls (once per victim, oldest first); the eviction loop ends |
| Lru.Cache.RemoveOldest | gocache/lrucache/lru/lru.go:57-72 | unlinks and reports the last entry only |
| Lru.Cache.Get | gocache/lrucache/lru/lru.go:75-83 | the value of a known key, which moves to the front; nothing else changes |
| Lru.Cache.MoveToFront | gocache/lrucache/lru/lru.go:39 | the entry comes first and the others keep their order |
| Group.CloneBytes | gocache/lrucache/byteview.go:19-23 | a fresh array with the same bytes |
| Group.Cache.Add | gocache/lrucache/cache.go:15-22 | the cache is created on first use and then holds what the LRU specification says |
| Group.Cache.Get | gocache/lrucache/cache.go:24-34 | a miss without a cache, the LRU's answer otherwise |
| Group.Group.Get | gocache/lrucache/geecache.go:54-67 | after any history of gets and evictions the answer is the getter's bytes or error, or the empty-key error; a hit comes to the front, a successful miss is added, an error changes nothing |
| Group.ReadStaysWithin | gocache/lrucache/geecache.go:54-81 | since a Get never updates a cached key, the cache of a group stays within its limit |
| Group.Group.GetLocally | gocache/lrucache/geecache.go:69-77 | a successful load is cached as a fresh copy; a failed one changes nothing |
| Group.Group.PopulateCache | gocache/lrucache/geecache.go:79-81 | caching a view of the getter's bytes keeps every cached view an answer of the getter |
| Group.Session | gocache/lrucache/byteview.go:14-23 | whatever callers ask for and overwrite in the slices they hold, the getter's, those of ByteSlice or their own, in any order: every answer is the getter's, and every view handed out still shows those bytes at the end |
| WriteBehind.NewConfig | go_cache_strategy/strategy/writebehind/wirtebehind.go:47-53 | queue and batch sizes are as configured when positive and the defaults otherwise |
| WriteBehind.ReplayIsHarmless | go_cache_strategy/strategy/writebehind/wirtebehind.go:104-126 | writing a batch twice, with more behind it, gives what writing it once gives |
| WriteBehind.ApplyGivesLastUpdate | go_cache_strategy/strategy/writebehind/wirtebehind.go:145-169 | a bulk write leaves every user at the last of its updates, and users without one as they were |
| WriteBehind.StepKeepsInv | go_cache_strategy/strategy/writebehind/wirtebehind.go:79-151 | every action of client, worker or Stop keeps: the queue holds what was accepted last, and database with batch show all that was accepted before |
| WriteBehind.NothingIsLost | go_cache_strategy/strategy/writebehind/wirtebehind.go:79-151 | in every reachable state the database overlaid with batch and queue shows for each user the last accepted update, or what the database held at first |
| WriteBehind.AcceptedExactly | go_cache_strategy/strategy/writebehind/wirtebehind.go:79-91 | over every run an update is accepted if and only if fewer accepted ones than the queue holds have not been received, and the queue holds exactly those, in order |
| WriteBehind.LateExactly | go_cache_strategy/strategy/writebehind/wirtebehind.go:173-182 | when an update counts as accepted after cancellation, by the events of the run |
| WriteBehind.WriteIsComplete | go_cache_strategy/strategy/writebehind/wirtebehind.go:136-151 | after a successful bulk write the database alone holds everything the worker has received |
| WriteBehind.StopExactly | go_cache_strategy/strategy/writebehind/wirtebehind.go:122-128 | when Stop returns, the database holds exactly the updates accepted before the drain found the queue empty, the later ones are still queued, and the database is complete if and only if every one of those is overtaken by another or in the database already |
| WriteBehind.EveryStopDrains | go_cache_strategy/strategy/writebehind/wirtebehind.go:104-128 | every run to the worker's return passes through that moment |
| WriteBehind.StopFlushesAll | go_cache_strategy/strategy/writebehind/wirtebehind.go:173-182 | so every complete run to the return of Stop has such a moment, with all that was accepted before it written; and nothing is left out when nothing was accepted after cancellation |
| WriteBehind.LateUpdateIsLost | go_cache_strategy/strategy/writebehind/wirtebehind.go:122-128 | a run in which an update accepted late is never written |
| WriteBehind.FailedFlush | go_cache_strategy/strategy/writebehind/wirtebehind.go:145-169 | a failed bulk write loses nothing if and only if it is the first one of the shutdown or its batch adds nothing to database and queue |
| WriteBehind.FailedTick | go_cache_strategy/strategy/writebehind/wirtebehind.go:144-151 | a failed periodic write loses nothing if and only if its batch adds nothing to database and queue |
| WriteBehind.FailedFlushIsLost | go_cache_strategy/strategy/writebehind/wirtebehind.go:163-169 | a run in which a failed bulk write loses its batch |
| WriteBehind.RunIsBounded | go_cache_strategy/strategy/writebehind/wirtebehind.go:136-141 | queue and batch never exceed their sizes, and a batch is flushed for being full exactly when it has the batch size |
| WriteBehind.StopReturns | go_cache_strategy/strategy/writebehind/wirtebehind.go:101-128 | from every cancelled state the worker can go on to its return by itself, within a bound in the queue length |
| WriteBehind.ShutdownIsBounded | go_cache_strategy/strategy/writebehind/wirtebehind.go:101-128 | once it shuts down no run of its own steps is longer than that |
| WriteBehind.DrainedIsComplete | go_cache_strategy/strategy/writebehind/wirtebehind.go:104-128 | when the remaining bulk writes succeed, drain and final flush write batch and queue as if each update had been written once in order |
| WriteBehind.DrainedInBatches | go_cache_strategy/strategy/writebehind/wirtebehind.go:112-126 | whatever fails, the drain writes batch and queue in consecutive batches of the batch size, and a failed write loses its own batch and no other |
| WriteBehind.Worker.Shutdown | go_cache_strategy/strategy/writebehind/wirtebehind.go:104-128 | with bulk writes that succeed or fail, the drain loop empties the queue and leaves the specified database; it is complete when all writes but the first succeed, and the first may fail |
| Timers.Loop.FireDueTimers | uvgo/loop.go:258-274 | the in-place filter splits the active handles, in order, into those due at now or before and those later |
| Timers.Loop.RescheduleTimer | uvgo/loop.go:156-168 | a handle is appended unless it is in the list |
| Timers.Loop.NextTimerDeadline | uvgo/loop.go:179-201 | the earliest deadline of an active timer, not before now, or none |
| Timers.Loop.TimerStart | uvgo/timer.go:27-39 | a new active handle at the end of the list |
| TimerProtocol.FilterSplits | uvgo/loop.go:263-272 | every active handle lands on exactly one side of the filter, as its deadline says, every stopped one on neither |
| TimerProtocol.StepKeepsHandle | uvgo/eventloop.go:280-293 | every action keeps the handle invariant |
| TimerProtocol.OnePlace | uvgo/loop.go:156-170 | a handle is in at most one of list, due slice, channel and callback; the search on rescheduling never finds it |
| TimerProtocol.OneShotRunsOnce | uvgo/eventloop.go:280-293 | the callback of a one-shot timer starts at most once |
| TimerProtocol.NeverEarly | uvgo/loop.go:258-283 | a callback starts only for an active handle whose time has come |
| TimerProtocol.StopIsFinal | uvgo/timer.go:42-53 | after Stop the callback of that handle never starts again |
| TimerProtocol.RepeatsAreSpaced | uvgo/eventloop.go:280-293 | after a callback of a repeating timer has ended, the next starts no earlier than one interval later |
| TimerProtocol.RepeatsGoOn | uvgo/eventloop.go:287-290 | after its callback a repeating timer has its deadline one interval later and, while active, is in exactly one place |
| TimerProtocol.StartIsFiled | uvgo/timer.go:27-39 | a new timer has its first deadline and, while active, is in exactly one place until its callback starts |
| TimerProtocol.ActiveIsInOnePlace | uvgo/loop.go:258-283 | an active handle is in exactly one place unless the stopping scheduler gave up while it was due |
| TimerProtocol.FiresWhenDue | uvgo/loop.go:263-272 | a handle is taken out of the list when its time has come, kept when it has not, dropped when it was stopped |
| TimerProtocol.DispatchRunsExactly | uvgo/eventloop.go:280-286 | the callback of a handle taken from the channel is started if and only if Stop was never called on it |
| TimerProtocol.DispatchIsFifo | uvgo/loop.go:276-282 | handles are dispatched in the order in which the filter takes them out of the list |
| TimerProtocol.ActiveTimerCanFire | uvgo/loop.go:258-283 | from every reachable state the callback of an active, unabandoned timer can still be started without further calls |
| Singleflight.StepKeepsInv | gocache/lrucache/singleflight/singleflight.go:18-41 | every action of any goroutine keeps the invariant |
| Singleflight.OneFnPerKey | gocache/lrucache/singleflight/singleflight.go:24-35 | at most one fn runs per key at a time |
| Singleflight.InMapExactlyInFlight | gocache/lrucache/singleflight/singleflight.go:18-39 | a call of Do joins instead of running fn exactly while some goroutine leads a flight for the key |
| Singleflight.DoAnswersItsKey | gocache/lrucache/singleflight/singleflight.go:18-40 | until its next call a goroutine is on a flight for the key it asked for: the one under way, or a new one that it leads and whose fn returns, after the call, what it returns |
| Singleflight.DeletesOwnCall | gocache/lrucache/singleflight/singleflight.go:37-39 | the deletion removes exactly the leader's own call |
| Singleflight.AllGetTheLeadersResult | gocache/lrucache/singleflight/singleflight.go:24-40 | whoever returns from a call, leader or follower, has the value that fn returned, earlier in the run, to the leader of that call |
| Singleflight.OutcomesComeFromFn | gocache/lrucache/singleflight/singleflight.go:35 | a stored result is what fn returned to the leader |
| Singleflight.FnReturnsOnce | gocache/lrucache/singleflight/singleflight.go:35 | along a run fn returns only once to the leader of a call, so its result is the one stored |
| Singleflight.FollowersFindTheResult | gocache/lrucache/singleflight/singleflight.go:24-28 | a follower goes on exactly when its wait group is released, and finds the result stored |
| Singleflight.ResultIsFinal | gocache/lrucache/singleflight/singleflight.go:35 | a stored result never changes |
| Singleflight.WaitersHaveALeader | gocache/lrucache/singleflight/singleflight.go:24-36 | a waiting follower's call is released or its leader is about to release it |
| Singleflight.LeadersNeverBlock | gocache/lrucache/singleflight/singleflight.go:30-40 | a leader can always take its next step, and a goroutine outside Do can always call it |
| ConsistentHash.SortSorts | gocache/lrucache/consistenthash/consistenthash.go:40 | sorting yields a sorted permutation |
| ConsistentHash.Search | gocache/lrucache/consistenthash/consistenthash.go:48-50 | the binary search finds the first point at or after the hash |
| ConsistentHash.AnswerIsUnique | gocache/lrucache/consistenthash/consistenthash.go:43-52 | a ring gives one answer for a hash |
| ConsistentHash.AddMovesKeysToNewcomersOnly | gocache/lrucache/consistenthash/consistenthash.go:32-52 | after an Add every lookup yields its old owner or an added name, even under collisions |
| ConsistentHash.AddAllOwners | gocache/lrucache/consistenthash/consistenthash.go:33-39 | the points after an Add and the owner of each: the last added name that hashes to it, or its old owner |
| ConsistentHash.Map.Add | gocache/lrucache/consistenthash/consistenthash.go:32-41 | points stay sorted and owned, one per replica is added, later names take over colliding points |
| ConsistentHash.Map.Get | gocache/lrucache/consistenthash/consistenthash.go:43-52 | the owner of the least point at or after the hash, else of the least point; nobody on an empty ring |
| Template.Index | design_pattern/BehavioralPattern/Interpreter/Interpreter.go:59-69 | the first occurrence of doubled braces, or -1 when there is none |
| Template.EndIsBehindOpen | design_pattern/BehavioralPattern/Interpreter/Interpreter.go:69-73 | the closing braces found lie behind the opening ones, so the key's slice is in range |
| Template.TrimSpaceTrims | design_pattern/BehavioralPattern/Interpreter/Interpreter.go:73 | a key is the span without the white space at its ends and nothing else is missing |
| Template.SpansGiveBackTemplate | design_pattern/BehavioralPattern/Interpreter/Interpreter.go:55-80 | texts and raw spans concatenate to the template if and only if all braces are closed, and to a prefix otherwise |
| Template.NodesAreSpans | design_pattern/BehavioralPattern/Interpreter/Interpreter.go:66-76 | the tree alternates texts free of opening braces and trimmed keys of the spans |
| Template.TreeMeansSubstitution | design_pattern/BehavioralPattern/Interpreter/Interpreter.go:43-87 | interpreting the tree is left-to-right substitution, character by character, missing keys giving nothing |
| Template.ParseTemplate | design_pattern/BehavioralPattern/Interpreter/Interpreter.go:55-80 | the loop ends on every template with all slices in range and builds the tree |
| Template.RoundIsCut | design_pattern/BehavioralPattern/Interpreter/Interpreter.go:59-77 | the index arithmetic of one round yields the text, key and rest of the cut |
| Template.Interpreter | design_pattern/BehavioralPattern/Interpreter/Interpreter.go:81-87 | the loop concatenates what the nodes mean |
| ProcessOrders.LookupAllAt | gRPC/stream/server.go:121-134 | an id yields the order the map holds, or the zero order |
| ProcessOrders.ForExactly | gRPC/stream/server.go:121-134 | the orders combined for a destination are those that have it, as often as they come |
| ProcessOrders.ShipmentsAreLabelled | gRPC/stream/server.go:129-134 | every shipment is processed, non-empty and for the one destination its id names |
| ProcessOrders.Separate | gRPC/stream/server.go:121-134 | the orders for a destination and for all others make up the batch, in order |
| ProcessOrders.ShipmentsConserve | gRPC/stream/server.go:136-142 | the shipments of a batch carry each of its orders exactly once |
| ProcessOrders.PendingBounded | gRPC/stream/server.go:136-147 | at most orderBatchSize orders are pending between messages |
| ProcessOrders.MarkerStep | gRPC/stream/server.go:136-147 | the marker says exactly when nothing is left pending |
| ProcessOrders.BatchSize | gRPC/stream/server.go:136-147 | a batch holds orderBatchSize orders if and only if it is the first; later ones hold one more |
| ProcessOrders.ProgressShips | gRPC/stream/server.go:136-144 | shipping the batch that is due keeps the account of batches and pending orders |
| ProcessOrders.SendAll | gRPC/stream/server.go:109-113 | one shipment per destination, in any map order, each with its orders in order of arrival |
| ProcessOrders.Process | gRPC/stream/server.go:98-149 | at the end of the stream the orders shipped are, as a multiset, the orders looked up; batches are consecutive, shipments labelled with their destination; a broken stream loses only the pending ones |
| UdpSession.StepKeepsOrder | net/proxy/udp_conn.go:239-278 | every event keeps: the k-th buffer taken holds the front of the k-th datagram, and the datagrams behind those are the queue |
| UdpSession.StepKeepsServedOnce | net/proxy/udp_conn.go:239-278 | every event keeps: no Read is served twice, and only Reads whose buffer was taken have anything |
| UdpSession.StepKeepsInv | net/proxy/udp_conn.go:239-278 | every arrival, read, reply, tick and close keeps the session invariant |
| UdpSession.DeliveredInOrder | net/proxy/udp_conn.go:239-278 | in every reachable state the Reads whose buffers were taken, in order and each once, hold the datagrams that arrived first, in order, each as far as its buffer has room; the other arrivals are queued in order; no other Read has anything; the loop never takes a buffer without a datagram |
| UdpSession.NothingIsCutOrLost | net/proxy/udp_conn.go:239-278 | with buffers large enough, what the Reads hold, in the order served, followed by the queue is what has arrived |
| UdpSession.EachReadGetsItsSize | net/proxy/udp_conn.go:207-218 | a Read returns the size of what was copied into its own buffer, the smaller of that buffer and the one datagram it was served |
| UdpSession.OneReadAwaits | net/proxy/udp_conn.go:261-265 | while a size is sent exactly the Read whose buffer was filled is waiting for it |
| UdpSession.LoopServes | net/proxy/udp_conn.go:207-278 | the loop ends only by an expired tick; until then it takes in datagrams, and takes a waiting buffer exactly when a datagram is queued; a Read ends with io.EOF only in a closed session |
| Tunnel.ExtractPrefix | net/grpc/cmd/server/server.go:233-249 | the unique longest registered prefix of the path, whatever the map order, or "" |
| Tunnel.RoutesAreOwned | net/grpc/cmd/server/server.go:53-93 | a prefix is routed to a stream exactly when that stream serves it, in every reachable state |
| Tunnel.OneStreamPerPrefix | net/grpc/cmd/server/server.go:62-78 | two streams never serve one prefix |
| Tunnel.OpenExactly | net/grpc/cmd/server/server.go:56-68 | a stream is accepted if and only if it names a prefix that no stream is serving, and affects no other |
| Tunnel.DisconnectExactly | net/grpc/cmd/server/server.go:71-77 | a stream that ends frees its own prefix and no other |
| Tunnel.RegisteredIsFound | net/grpc/cmd/server/server.go:147-152 | a registered handler is found under its id until it unregisters |
| Tunnel.UnregisteredIsGone | net/grpc/cmd/server/server.go:154-160 | after that nobody is found under the id |
| Tunnel.LookedUpIsHeld | net/grpc/cmd/server/server.go:162-175 | a response goes to the handler registered for its id when it was looked up, or is dropped when there is none |
| Tunnel.SentIsTaken | net/grpc/cmd/server/server.go:168-174 | the send neither blocks nor replaces: a handler takes the first response sent to it |
| Tunnel.TakenHasArrived | net/grpc/cmd/server/server.go:162-175 | what a handler takes is a response that has arrived, unaltered |
| Tunnel.RunStaysAddressed | net/grpc/cmd/server/server.go:148-175 | the waiter pool, looked-up channels and buffered responses always match ids |
| Tunnel.HandlerGetsOwnResponse | net/grpc/cmd/server/server.go:118-140 | a handler only takes a response that carries its own id |

## Left out

- What a slice shows after its block has been popped: Pop's slice shares the array, whose freed bytes later pushes may overwrite.
- Pointers into a ring buffer that are kept over a later operation, and visitors that call the buffer itself; writes through a pointer from Peek or in a visitor are modelled.
- 64-bit wrap-around of capacities, counters and indices: all integers are unbounded.
- The verbose flag and time measurements of the byte queue.
- Locks of the cache and the group, the registry of groups, and hit logging: the group is modelled as used by one goroutine at a time.
- The write-behind cache with its time to live, and the agreement of cache and database when two updates of one user interleave.
- Bulk writes that fail halfway: a bulk write succeeds as a whole or not at all.
- The timer scheduler's waking and sleeping: that an active timer can still be fired is proved, that a fair scheduler does so eventually is not claimed.
- Stop racing between the check of a dispatched handle and the start of its callback: the two are one step.
- A panic in fn, and the memory model behind the wait group.
- The choice of hash function and the spreading of virtual nodes: all replicas of a name hash alike.
- Unicode decoding: strings are sequences of characters; formatted values of a template context are given as strings.
- Errors of stream.Send in the order stream; a failing Recv is modelled.
- The table of UDP sessions, Accept and Shutdown; what a session still holds when it times out is dropped, as in the source.
- Register of the tunnel server, which changes nothing, transport errors, and the HTTP time-out's clock.
- The design-pattern programs, command mains, generated code, configuration, TLS, SQL and file-system code of the repository.
