# Verified models of the Pinos core

Pinos is a multimedia server: a daemon, clients that talk to it over a socket, and media buffers in
shared memory. This project models the five places of the code base in which state is kept across
calls, and proves what those places promise over whole runs. Methods on classes update the same fields as
the C code, branch for branch. Each is tied by its contract to a state machine, as one of its transitions,
or to a specification function, and the theorems are about the machines and the functions.

**Burst cache** (`BurstLimits`, `BurstModel`, `BurstRuns`, `BurstKeeping`, `BurstDelivery`, `BurstMeasures`,
`BurstCache`). One queue, newest buffer at index 0, shared by readers whose positions shift with every arrival.
`BurstModel` is the state machine: `Next` has one event for each public call, the buffer returned included, and
`Run` is any sequence of them from an empty cache. Buffers are numbered by arrival. `BurstRuns` and
`BurstKeeping` say what holds over runs; `BurstDelivery` says what a reader is given, event by event, with the log
and the positions alone; `BurstMeasures` says what the searches find with sizes and timestamps alone.
`BurstCache` is the code; its public operations are `Next` steps.

**Connection** (`Framing`, `Connection`, `Wire`). Messages behind 8-byte headers, written into a growing
buffer, sent as bytes in any chunks, and found again. `ConnectionBuffer` is the code; `Wire` is one
direction of a connection over time, with the effects of `Write`, `Flush`, `Refill` and `ReadPacket` as its
events, and says that messages come out as they went in, in any interleaving of these.

**Type ids** (`TypeMapper`, `Pods`, `PodRemap`, `TypeProtocol`, `TypeEnds`). Each side interns names;
a sender announces names before it uses their numbers; the receiver rewrites the numbers of a
received POD in place. `TypeProtocol` is one direction of a connection as a state machine over a FIFO
channel; `Pods` gives PODs as trees together with their words, and `PodRemap` rewrites the words. Ids that
the rewriting passes over are read off the words, and every id is shown to be one or the other.

**Object ids** (`IdMaps`, `ObjectIds`, `ObjectEnds`). The id map with its free list in the slots, and
the protocol in which a client picks ids and the server gives them back, over two FIFO channels.
`ObjectEnds.Session` connects a client and a server, and each of its methods is one step of the protocol.

**Buffers** (`LinkLayout`, `StreamModel`, `Stream`). How a link lays buffers out in one block of shared
memory, and how a stream keeps track of which of its buffers are free.

## Where the code and its promises differ

For each of these the exact condition is proved, and a run from an initial state reaches a failing input.

- The burst cache documents that at least one keyframe is always cached (`gstburstcache.c:48`). That
  fails under a soft limit: `NewestKeyframeKept`, `KeyframeLostUnderSoftLimit`.
- Lag limits given in buffers are narrowed to 32 bits, so ordered limits may stop being ordered, and
  recovery does not keep a reader from being removed: `CountLimits`, `HugeLimitEvicts`.
- The minimum in buffers only stops trimming while it is missed; after that it is ignored, as the comment
  at `gstburstcache.c:523` suspects: `CountMinimumKept`, `CountMinimumMissed`.
- A flush of the connection that the system cuts short sends its first bytes twice instead of the rest:
  `PartialFlush`, `PartialFlushLoses`.
- The lookup of the freed id that ends the free list gives its slot back, which is nothing only if the
  upper half of the pointer was zero: `IdMap.Lookup`, `LookupRemoved`.
- Ids in arrays, in pointers and nested in property values are not translated, and then name something
  else to the receiver: `RemapKeepsMeaning`, `MessageMeaning`, `ArrayMisread`.
- A request answered only by an error (creating a node, binding a global that cannot be bound) leaves the
  server's map a slot short, and the next new id is refused: `UnstoredRequest`, `FreshIdRefused`.
- Finding a buffer by index divides by the size of a `size_t` in its bounds test: `FindAgrees`,
  `StrayElement`.
- Nothing but sending puts a buffer of a stream back into use, so an input stream recycles each of its
  buffers once: `RecycleExactly`, `InputRecycledOnce`.

And these follow from a condition alone:

- Removing all buffers of the burst cache leaves reader positions alone: safe exactly when no reader holds one
  (`FlushSafe`); any other is beyond the queue until it is recovered or removed (`LostForGood`).
- A burst that neither bound limits does not send all there is, as the comment at `gstburstcache.c:759-763`
  says, but leaves out the oldest buffer (`BurstExact`, `ShortBurst`).
- Idle time is an unsigned difference of wall-clock times, so a clock that is set back removes readers whose
  timeout is less than what is left to 2^64 (`IdleRemoval`).
- A frame keeps 24 bits of its size: it reads back exactly below 2^24 bytes (`FrameReadsBack`).
- A receiver's type id 0 reads as absent, so a message that uses the receiver's first type is refused
  (`MessageMeaning`).
- A resource created without an id keeps the invalid id, so that destroying it clears no slot
  (`Server.DestroyResource`).
- The parameters that enable metadata are told by comparing the type of their POD with the id of the
  metadata type (`link.c:261`; elsewhere the object's own type is compared, `link.c:211`), and accepted only
  if exactly one of type and size is found (`link.c:264-267`): one that states both is passed over
  (`CompleteIsSkipped`), and one that states a single one leaves the other undefined.
- The scratch array for metadata has room for one entry less than it may get (`ScratchFits`).

## Model

| member | source | states |
|---|---|---|
| BurstLimits.NextKey | pinos/gst/gstburstcache.c:430-454 | forward search: the first keyframe (neither delta nor header) at or after an index, -1 exactly if none is there |
| BurstLimits.PrevKey | pinos/gst/gstburstcache.c:430-454 | backward search: the last keyframe at or before an index, -1 only if none is there |
| BurstLimits.LimitSearch | pinos/gst/gstburstcache.c:525-625 | for every queue: 0 <= min <= max < length; max is characterised (iff) as the first prefix reaching a byte or time maximum, else the last index; min as the first prefix meeting both minima, else max; a byte minimum once met stays met |
| BurstMeasures.LimitsMeasured | pinos/gst/gstburstcache.c:525-625 | with every buffer stamped: the maximum index is the first whose prefix holds the bytes or spans the time of a maximum, the minimum index the first that holds and spans the minima; both the last if there are too few buffers; the answer is true exactly if the minima are met at a maximum before the last buffer |
| BurstMeasures.BaseIsFirst | pinos/gst/gstburstcache.c:586-591 | times are counted from the first buffer that has a timestamp |
| BurstLimits.FirstBeyond | pinos/gst/gstburstcache.c:460-511 | a lag limit in time or bytes as a count: one past the first buffer beyond it, nothing before it is beyond |
| BurstMeasures.LagLimitMeasured | pinos/gst/gstburstcache.c:460-511 | a lag limit as a count, in bytes and in time difference to the newest buffer: those before the last one counted are within it, that one is beyond |
| BurstLimits.BuffersMaxMonotone | pinos/gst/gstburstcache.c:460-511 | in every unit a larger lag limit never allows fewer buffers, counts fitting 32 bits |
| BurstModel.StartPosition | pinos/gst/gstburstcache.c:686-879 | a start position is -1 or an index of the queue, and a keyframe start that has one is on a keyframe |
| BurstRuns.RecoveryNeverRaises | pinos/gst/gstburstcache.c:1087-1137 | recovery at the soft limit never moves a reader to an older buffer nor below -1, and the latest and keyframe policies put it strictly within the soft limit |
| BurstRuns.StepKeepsInv | pinos/gst/gstburstcache.c:1149-1428 | queueing, reading, adding, draining, removing, reconfiguring and safe flushing each keep every position in range and every reader's books balanced |
| BurstRuns.RangeSafety | pinos/gst/gstburstcache.c:1229-1339 | in every state of every run each linked reader's position is -1 or a queue index, a new reader's is -1, and queueing any buffer meets the program's own assertions |
| BurstRuns.CursorRefinement | pinos/gst/gstburstcache.c:1149-1219 | over every run a reader receives buffers with strictly increasing arrival numbers, with their contents as queued; each gap is their distance plus exactly what recovery added to the drop count between them, up to the next buffer it will get |
| BurstRuns.CursorStep | pinos/gst/gstburstcache.c:1149-1175 | queueing moves a reader's absolute cursor by exactly the increase of its drop count, never backwards, and only at or beyond the soft limit |
| BurstDelivery.Returned | pinos/gst/gstburstcache.c:1372-1428 | over every run: a reader at position p that has something left is returned the p-th newest buffer of the log, which is what its history records, and moves by one; it is told to wait exactly without a position, and that it is done exactly with one and nothing left, changing nothing; the first buffer of a keyframe start is neither delta nor header |
| BurstDelivery.ResultsInOrder | pinos/gst/gstburstcache.c:1149-1219 | over every run the buffers returned to a linked reader are those of the log from its cursor on, each ahead of the last by one and by exactly what was dropped between; without recovery a contiguous stretch |
| BurstDelivery.RecoveryEffect | pinos/gst/gstburstcache.c:1087-1175 | what queueing does to a positioned reader, policy by policy: latest goes past the newest, soft limit on the limit, keyframe on the oldest keyframe within it, none stays; the drop count grows by the buffers passed over, and a discontinuity is marked exactly on a jump |
| BurstDelivery.NewReaderStarts | pinos/gst/gstburstcache.c:696-726 | a waiting reader takes the buffer just queued, for a keyframe start exactly if that is a keyframe; else it waits unchanged |
| BurstDelivery.AddedWaits | pinos/gst/gstburstcache.c:890-923 | readers for the latest buffer or the next keyframe are linked as they are |
| BurstRuns.KeyframeStart | pinos/gst/gstburstcache.c:686-879 | the first buffer delivered to a next-, latest- or burst-keyframe reader is neither delta nor header, however many arrive between positioning and first read, unless recovery intervened |
| BurstRuns.DrainExact | pinos/gst/gstburstcache.c:982-992 | after a drain request every delivery's number is fixed by what is left to drain and what recovery dropped; a later arrival is delivered if and only if recovery dropped more than remained |
| BurstRuns.ExactDrain | pinos/gst/gstburstcache.c:1372-1428 | without recovery a draining reader gets exactly its outstanding buffers, in order, none queued later; position + 1 - draincount counts the arrivals since; a buffer is returned exactly while some remain |
| BurstDelivery.DrainDelivers | pinos/gst/gstburstcache.c:982-992 | from the first request to drain on, what was returned and what is left are the outstanding buffers at the request; without recovery what was returned is the log from the cursor at the request on, none later; with none left, all that the log held then |
| BurstDelivery.SecondDrainIgnored | pinos/gst/gstburstcache.c:983-992 | a further request to drain changes nothing |
| BurstRuns.NoLostWakeup | pinos/gst/gstburstcache.c:1186-1191 | in every reachable state a reader with data has had its callback since it was last told to wait |
| BurstRuns.FlushSafe | pinos/gst/gstburstcache.c:1347-1356 | emptying the queue keeps every reader readable if and only if no reader holds a position |
| BurstRuns.FlushLoses | pinos/gst/gstburstcache.c:1347-1356 | emptying the queue leaves a reader beyond it if and only if the reader holds a position |
| BurstRuns.LostForGood | pinos/gst/gstburstcache.c:1149-1219 | a reader beyond the queue stays beyond it and cannot be served over any further transitions, for as long as it is linked and not recovered |
| BurstKeeping.LagEviction | pinos/gst/gstburstcache.c:1177-1179 | with ordered limits, exactly which readers the hard limit removes, policy by policy |
| BurstKeeping.NoEvictionUnderRecovery | pinos/gst/gstburstcache.c:1149-1219 | with ordered limits and the latest or keyframe policy, a queueing step of any run keeps a reader if and only if it has not timed out |
| BurstDelivery.KeptUnderRecovery | pinos/gst/gstburstcache.c:1177-1184 | the same in times: a reader is kept exactly while now less its last activity is within its timeout, if it has one |
| BurstDelivery.IdleRemoval | pinos/gst/gstburstcache.c:1181-1184 | without a hard limit a reader is removed exactly if it has a timeout and the unsigned time since its last activity exceeds it, a clock set back included |
| BurstKeeping.CountLimits | pinos/gst/gstburstcache.c:460-511 | for limits in buffers, given in order, and the latest or keyframe policy: no reader of any queue is ever too slow if and only if, narrowed to 32 bits, there is no hard limit or both limits are positive and in order |
| BurstKeeping.HugeLimitEvicts | pinos/gst/gstburstcache.c:1250-1260 | a run from an empty cache in which, under a hard limit of 2^32 + 1 buffers over a soft one of 2, a reader is removed for lag two buffers after it was linked |
| BurstKeeping.KeyframeRecovery | pinos/gst/gstburstcache.c:1112-1129 | keyframe recovery lands on the oldest keyframe within the soft limit, and on nothing exactly if there is none |
| BurstKeeping.PlainKeyframeStart | pinos/gst/gstburstcache.c:703-753 | a latest-keyframe reader starts on the newest keyframe, a next-keyframe reader on the oldest one since it was last looked at; exactly without one they stay new and wait for the next |
| BurstKeeping.BurstStart | pinos/gst/gstburstcache.c:754-864 | a burst start lies below the first maximum, meets the minima if they can be met below it, uses the first keyframe between the bounds when there is one, and waits only if no keyframe is at or before the minimum |
| BurstMeasures.BurstExact | pinos/gst/gstburstcache.c:754-864 | where each burst starts: the newest keyframe between the bounds; else the oldest up to the minimum; else the minimum, or one short of the maximum |
| BurstMeasures.BurstWaits | pinos/gst/gstburstcache.c:817-826 | only a keyframe burst waits, exactly if there is no keyframe up to the minimum or below the maximum, and then for the next keyframe |
| BurstMeasures.BurstBytes | pinos/gst/gstburstcache.c:388-390 | a burst in bytes sends less than the maximum, unless of one buffer, and the least that meets the minimum if some prefix short of the queue meets it below the maximum |
| BurstMeasures.BurstTime | pinos/gst/gstburstcache.c:388-390 | the same for a burst in time |
| BurstMeasures.ShortBurst | pinos/gst/gstburstcache.c:772-778 | with too few bytes for both bounds, all but the oldest buffer is sent |
| BurstKeeping.Retention | pinos/gst/gstburstcache.c:1274-1334 | after queueing, the queue is a non-empty prefix of the untrimmed one and meets the byte and time minima if and only if that did; nothing is trimmed while the count minimum is missed |
| BurstMeasures.StepRetains | pinos/gst/gstburstcache.c:1274-1334 | after queueing, the queue holds the bytes of the byte minimum, and spans the time of the time minimum, if and only if the untrimmed one did, each for itself; one shorter than the count minimum is kept |
| BurstKeeping.NothingExtraKept | pinos/gst/gstburstcache.c:1286-1334 | the last buffer kept is a reader's position, one past the minima, the newest keyframe, or the end of the untrimmed queue |
| BurstKeeping.NewestKeyframeKept | pinos/gst/gstburstcache.c:1293-1319 | after queueing a keyframe is cached if and only if the untrimmed queue has one and there is no soft limit, or the newest keyframe is within it, or a minimum or a reader reaches that far |
| BurstKeeping.NewestKeyframeAlwaysKept | pinos/gst/gstburstcache.c:45-49 | over every run without a soft limit and without flushing, the newest keyframe ever queued is in the queue |
| BurstKeeping.KeyframeLostUnderSoftLimit | pinos/gst/gstburstcache.c:1299-1302 | a run from an empty cache, of three buffers under a soft limit of one, after which no keyframe is cached though one was queued |
| BurstKeeping.CountMinimumKept | pinos/gst/gstburstcache.c:546-551 | after queueing, with a minimum in buffers that the untrimmed queue meets, the trimmed one meets it if and only if a reader, the other minima, or the newest keyframe within the search limit reach that far |
| BurstKeeping.CountMinimumMissed | pinos/gst/gstburstcache.c:523-523 | a run from an empty cache in which of three keyframes, under a minimum of three, two are kept |
| BurstCache.BurstReader.constructor | pinos/gst/gstburstcache.c:339-377 | a new reader has no position, drains nothing, and starts on the latest buffer |
| BurstCache.BurstReader.SetBurst | pinos/gst/gstburstcache.c:394-412 | refused, changing nothing, exactly for two set bounds of one unit in the wrong order; else stores all five settings |
| BurstCache.BurstCache.constructor | pinos/gst/gstburstcache.c:163-175 | an initial state of the machine with unset limits and minima |
| BurstCache.BurstCache.SetLimits | pinos/gst/gstburstcache.c:273-283 | the configuration step of the machine, for the lag limits and the policy |
| BurstCache.BurstCache.SetMinAmount | pinos/gst/gstburstcache.c:227-236 | the configuration step of the machine, for the minima |
| BurstCache.BurstCache.FindKeyframe | pinos/gst/gstburstcache.c:430-454 | the loop in either direction finds what the specified search finds |
| BurstCache.BurstCache.GetBuffersMax | pinos/gst/gstburstcache.c:460-511 | the accumulating loops compute the specified count, with 64-bit time differences and 32-bit counts |
| BurstCache.BurstCache.FindLimits | pinos/gst/gstburstcache.c:525-625 | the single pass, which unsets reached minima and stops one round after a maximum, finds both specified indices and reports success exactly if a maximum before the last buffer stopped it with the minima met |
| BurstCache.BurstCache.TakeIn | pinos/gst/gstburstcache.c:582-612 | one more buffer in the totals: the minima reached by now are unset, and a maximum is reported exactly if this buffer reaches one |
| BurstCache.AssignValue | pinos/gst/gstburstcache.c:632-655 | a value sets only the variable of its unit, narrowed to its width |
| BurstCache.BurstCache.CountBurstUnit | pinos/gst/gstburstcache.c:665-679 | a reader's bounds give the indices of the limit search for its units |
| BurstCache.BurstCache.BurstPosition | pinos/gst/gstburstcache.c:754-780 | a burst start is at the specified position |
| BurstCache.BurstCache.BurstKeyframePosition | pinos/gst/gstburstcache.c:781-827 | a burst-keyframe start is at the specified position |
| BurstCache.BurstCache.BurstWithKeyframePosition | pinos/gst/gstburstcache.c:828-865 | a burst-with-keyframe start is at the specified position |
| BurstCache.BurstCache.HandleNewReader | pinos/gst/gstburstcache.c:686-879 | a new reader ends in the machine's positioned state: started and called back, or waiting, possibly for the next keyframe |
| BurstCache.BurstCache.AddReader | pinos/gst/gstburstcache.c:890-923 | adds a reader as one machine step exactly if it is new and its bounds are in order, else changes nothing |
| BurstCache.BurstCache.Link | pinos/gst/gstburstcache.c:904-908 | positions and links a new reader as one machine step |
| BurstCache.BurstCache.Unlink | pinos/gst/gstburstcache.c:926-956 | a removed reader loses its position and its link, all others keep theirs |
| BurstCache.BurstCache.RemoveReader | pinos/gst/gstburstcache.c:969-1008 | removes or starts draining as one machine step; refused exactly for an unlinked reader |
| BurstCache.BurstCache.StartDrain | pinos/gst/gstburstcache.c:982-992 | the drain step of the machine: what is outstanding is counted, once |
| BurstCache.BurstCache.GetBuffer | pinos/gst/gstburstcache.c:1372-1428 | returns what the machine returns and takes its step; never out of bounds in a valid cache |
| BurstCache.BurstCache.RemoveBuffers | pinos/gst/gstburstcache.c:1347-1356 | empties the queue; the cache stays valid if and only if no reader holds a position |
| BurstCache.BurstCache.RecoverReader | pinos/gst/gstburstcache.c:1087-1137 | each policy yields the specified position, the backward keyframe scan included |
| BurstCache.BurstCache.MoveReader | pinos/gst/gstburstcache.c:1154-1175 | shift, then recovery at the soft limit with drop count and discontinuity |
| BurstCache.BurstCache.QueueHook | pinos/gst/gstburstcache.c:1149-1219 | keeps or removes one reader exactly as the machine's outcome says, and raises the usage to its position |
| BurstCache.BurstCache.RunHooks | pinos/gst/gstburstcache.c:1265-1272 | every reader gets its outcome, those without one are unlinked, and the usage is the highest position left |
| BurstCache.BurstCache.ExtendUsage | pinos/gst/gstburstcache.c:1274-1319 | the usage covers the readers, the minima and the newest keyframe within the search limit, as specified |
| BurstCache.BurstCache.ExtendToKeyframe | pinos/gst/gstburstcache.c:1293-1319 | the usage reaches the newest keyframe if the search limit does |
| BurstCache.BurstCache.Trim | pinos/gst/gstburstcache.c:1326-1335 | removing from the tail leaves exactly the prefix up to the usage |
| BurstCache.BurstCache.DropUnneeded | pinos/gst/gstburstcache.c:1274-1337 | the queue becomes the machine's trimmed queue, nothing else changes, and the usage is recorded |
| BurstCache.BurstCache.QueueBuffer | pinos/gst/gstburstcache.c:1229-1339 | one queueing step of the machine, for any number of readers, keeping the cache valid |
| Framing.FrameReadsBack | pinos/client/connection.c:298-317 | whatever follows it, a frame reads back as its destination, opcode and payload if and only if the payload is below 2^24 bytes |
| Framing.WireFormat | pinos/client/connection.c:293-312 | a frame byte by byte: destination, low three bytes of the size, opcode, payload |
| Framing.RoundTrip | pinos/client/connection.c:218-284 | the bytes of any list of such messages are well framed and decode to exactly that list, in order |
| Framing.EncodeAppends | pinos/client/connection.c:298-312 | writing a message after others encodes the longer list |
| Framing.MessageInPrefix | pinos/client/connection.c:256-273 | bytes that arrive later do not change a complete message, and an incomplete one has bytes to come |
| Connection.ConnectionBuffer.EnsureSize | pinos/client/connection.c:90-99 | growing makes the room asked for, to the next multiple of 4096, and keeps the contents; with room enough nothing changes |
| Connection.ConnectionBuffer.BeginWrite | pinos/client/connection.c:286-296 | room for header and payload behind unchanged contents |
| Connection.ConnectionBuffer.EndWrite | pinos/client/connection.c:298-317 | the contents grow by exactly the header and the payload already in place |
| Connection.ConnectionBuffer.Write | pinos/client/protocol-native.c:72-102 | writing a message as the marshal functions do appends its frame |
| Connection.ConnectionBuffer.Flush | pinos/client/connection.c:319-382 | the bytes accepted go to the socket in order; the count is reduced but the rest is not moved |
| Connection.PartialFlush | pinos/client/connection.c:371-374 | a partial flush keeps the stream intact if and only if the bytes left in front equal those unsent |
| Connection.Socket.Receive | pinos/client/connection.c:118-129 | a blocking read delivers some prefix of what is pending, at least one byte if there is any, at most the room |
| Connection.ConnectionBuffer.Refill | pinos/client/connection.c:101-149 | with free room, what arrives goes behind the unread bytes; none are lost |
| Connection.ConnectionBuffer.ReadPacket | pinos/client/connection.c:243-283 | a message is returned exactly if a whole one is buffered, and it is the first; otherwise more room is made and a refill is due |
| Connection.ConnectionBuffer.GetNext | pinos/client/connection.c:218-284 | over any chunking returns the first message of the stream and leaves the rest, or nothing exactly at a message boundary with no refill due or none to come; terminates, always refilling with free room |
| Connection.ConnectionBuffer.ReceiveAll | pinos/modules/module-protocol-native.c:142-165 | the messages handled until nothing is left are the whole stream, decoded |
| Wire.Delivered | pinos/client/connection.c:101-382 | over every interleaving of writes, complete flushes, arrivals of any size and reads: what was received is a prefix of what was written, all of it exactly when nothing is on the way; and until then a message is at hand or bytes are still to come |
| Wire.PartialFlushLoses | pinos/client/connection.c:359-374 | a run with one flush cut short in a header, after which all bytes have arrived and hold no message |
| IdMaps.IdMap.InsertNew | pinos/client/map.h:75-95 | returns the id freed last, or the next one; never a live id; stores the value there and keeps the free chain |
| IdMaps.IdMap.InsertAt | pinos/client/map.h:97-114 | stores at any id up to the size and refuses those beyond, changing nothing; the free list survives if and only if the id is not in it or the value holds the same link |
| IdMaps.IdMap.Remove | pinos/client/map.h:116-122 | the id heads the free chain; the lower half of its slot becomes the link, all else is kept |
| IdMaps.IdMap.Lookup | pinos/client/map.h:124-134 | a live id gives its aligned value; out of range gives nothing; so does a freed id, except the end of the free list, which gives its slot with a zero lower half |
| IdMaps.LookupRemoved | pinos/client/map.h:116-134 | inserting, removing and looking up a pointer in an empty map gives its upper half back, nothing exactly if that is zero |
| IdMaps.ChainMarks | pinos/client/map.h:50-54 | every freed slot is marked odd except the one ending the chain, whose link is 0 |
| IdMaps.SizeIsPeak | pinos/client/map.h:75-95 | over any sequence of insertions and removals the freed ids are distinct and in range, and the map's size is the peak number of live ids |
| IdMaps.NoDoubleAllocation | pinos/client/map.h:75-122 | between two insertions returning the same id there is its removal |
| TypeMapper.InterningRoundTrip | pinos/client/mapper.c:36-72 | over any lookups: each name names its id, ids are equal exactly for equal names, dense, and never change meaning as the table grows |
| TypeMapper.TypeMap.StrEqual | pinos/client/mapper.c:47-47 | comparing a string with one in the arena decides equality, terminator included |
| TypeMapper.TypeMap.GetId | pinos/client/mapper.c:36-57 | the scan returns the interned id of a name, adding it only if absent; no name gives 0 |
| TypeMapper.TypeMap.Append | pinos/client/mapper.c:50-54 | the padded string is appended at an even offset and gets the next id; earlier entries keep their strings |
| TypeMapper.TypeMap.GetType | pinos/client/mapper.c:59-72 | the name of an id, nothing for the invalid id or an id never given |
| Pods.BodyLength | spa/include/spa/pod-utils.h:56-67 | for every POD, header and padded body are the least multiple of 8 bytes not below 8 and the size, as the iteration macros step |
| Pods.WordsForPads | spa/include/spa/pod-utils.h:59-59 | for every size the number of words stepped over is the one even number that holds it and less than 8 bytes more |
| Pods.RemapKeepsShape | pinos/client/type.c:66-123 | rewriting keeps shape, sizes and layout, and changes exactly the translated ids, each through the table |
| Pods.RemapMapsWords | pinos/client/type.c:66-123 | every word of the body is left alone or replaced by its entry in the table |
| Pods.IdsSplit | pinos/client/type.c:66-123 | for every POD the ids held in its words, arrays, pointers and nested values included, are exactly those it translates together with those it passes over, each counted once |
| Pods.OneReading | spa/include/spa/pod-utils.h:56-67 | type, size and words determine the POD, so what is translated and what is passed over are facts about memory |
| Pods.NestedIdSkipped | pinos/client/type.c:85-93 | an id in a structure that is the value of a property is passed over |
| Pods.RemapKeepsMeaning | pinos/client/type.c:66-123 | with all translated ids known, each names for the receiver the string it named for the sender; the whole POD keeps its meaning if and only if the ids passed over happen to mean the same on both sides |
| PodRemap.RemapId | pinos/client/type.c:71-75 | one id is replaced exactly if the table has a non-zero entry for it, and nothing else in memory changes |
| PodRemap.RemapValues | pinos/client/type.c:85-93 | the value and every alternative of a property are rewritten, stopping at the first unknown; success exactly if all are known |
| PodRemap.RemapProp | pinos/client/type.c:77-95 | a property in memory becomes the rewritten property, key first, exactly if all its ids are known |
| PodRemap.RemapObjectProps | spa/include/spa/pod-utils.h:64-67 | the properties behind an object's id and type are rewritten in place |
| PodRemap.RemapObject | pinos/client/type.c:96-109 | an object in memory becomes the rewritten object, type first, exactly if all its ids are known |
| PodRemap.RemapList | pinos/client/type.c:110-118 | visits PODs one behind the other from the start to the end, each step the header and size in bytes rounded up to 8, and rewrites each; true exactly if all their ids are known |
| PodRemap.RemapFirst | spa/include/spa/pod-utils.h:56-59 | rewrites one POD and finds the next at its size in bytes with header, rounded up to 8 |
| PodRemap.RemapData | pinos/client/type.c:66-123 | returns true if and only if every id it meets is known, and then the words in memory are those of the rewritten POD; memory outside it is untouched |
| TypeProtocol.StepKeepsInv | pinos/client/protocol-native.c:50-70 | every step of sender, channel and receiver keeps the channel's announcements in line with the receiver's table |
| TypeProtocol.AnnouncementTranslates | pinos/client/context.c:165-180 | learning an announcement that continues the table adds, entry by entry, the receiver's own id of each name |
| TypeProtocol.TableCoversMessage | pinos/client/protocol-native.c:50-70 | over every run, when a message is about to be read, each id in it has a table entry, and that is the receiver's id for the sender's name |
| TypeProtocol.MessageMeaning | pinos/client/protocol-native.c:629-647 | over every run a message at the head of the channel is readable if and only if no translated id in it names the receiver's first type; then its translated ids mean what they meant to the sender, and the whole message does if and only if the ids passed over happen to |
| TypeProtocol.ArrayMisread | pinos/client/type.c:119-120 | a run, for any two names, in which an id in an array arrives as readable and names one to the sender and the other to the receiver |
| TypeEnds.Sender.UpdateMap | pinos/client/protocol-native.c:50-70 | announces exactly the missing suffix of names, if any, and then none is missing |
| TypeEnds.Sender.Marshal | pinos/client/protocol-native.c:85-101 | the announcement goes before the message |
| TypeEnds.Receiver.UpdateTypes | pinos/server/core.c:302-317 | learns the announced names in order and stores its own ids under the sender's numbers |
| TypeEnds.Receiver.Receive | pinos/server/protocol-native.c:811-813 | a message is translated in place, or rejected exactly if it uses an id without an entry |
| ObjectIds.StepKeepsInv | pinos/server/resource.c:70-88 | allocation, creation, failed bind, destruction and removal each keep every client-held id in exactly one of: request, removal, stored resource |
| ObjectIds.NoLiveOverwrite | pinos/server/resource.c:52-55 | over all interleavings the id of a request about to be served is accepted by the server's map and no resource is stored there |
| ObjectIds.RemovalIsLive | pinos/client/context.c:150-163 | a removal about to arrive names an id live at the client, empty at the server, and neither requested nor returned again |
| ObjectIds.QuiescentAgreement | pinos/server/core.c:65-77 | with both channels empty the two maps have one size and the ids in use at the client are those with a resource |
| ObjectIds.UnstoredRequest | pinos/server/core.c:149-164 | answering a request with an error only keeps the next new id acceptable if and only if the request's id was not itself a new one |
| ObjectIds.FreshIdRefused | pinos/server/core.c:149-164 | a run in which the first request is answered by an error, after which the next new id is beyond the server's map |
| ObjectEnds.Client.NewProxy | pinos/client/proxy.c:28-65 | without an id, a proxy takes the one the protocol model allocates; with one, it is stored there, refused exactly beyond the next slot |
| ObjectEnds.Client.RemoveId | pinos/client/context.c:150-163 | an id is released exactly if it is in use; any other changes nothing |
| ObjectEnds.Server.NewResource | pinos/server/resource.c:29-68 | stores the resource at the id given, refused exactly beyond the next slot; without an id at a new slot, but the id it keeps is the invalid one |
| ObjectEnds.Server.DestroyResource | pinos/server/resource.c:70-88 | the slot is cleared and the id returned to the client; for a resource that kept the invalid id no slot is cleared |
| ObjectEnds.Server.Bind | pinos/server/core.c:44-78 | a known global stores that resource at the new id; an unknown one stores nothing there and returns the id |
| ObjectEnds.Session.Create | pinos/client/proxy.c:46-47 | creating a proxy and asking for its object is an allocation step of the protocol, and that proxy is stored at the id asked with |
| ObjectEnds.Session.Serve | pinos/server/core.c:44-78 | serving a bind request is the step for a known or a missing global; the id is always accepted, and that resource, or nothing, is stored at it |
| ObjectEnds.Session.Destroy | pinos/server/resource.c:70-88 | destroying a resource is the destruction step |
| ObjectEnds.Session.Remove | pinos/client/context.c:150-163 | handling a removal always destroys a proxy, and is the removal step |
| LinkLayout.Query | spa/include/spa/pod-utils.h:203-224 | the values found are stored, the others left undefined, and the number found is returned |
| LinkLayout.CollectMetas | pinos/server/link.c:250-277 | the shared entry, then one for each parameter whose POD type is the metadata id and whose query finds exactly one property, with the total size |
| LinkLayout.CollectedLast | pinos/server/link.c:258-275 | what each parameter adds: the stated one of type and size, if exactly one is stated and it is of the metadata type, else nothing |
| LinkLayout.CompleteIsSkipped | pinos/server/link.c:261-268 | if every metadata parameter states both type and size, only the shared metadata is collected |
| LinkLayout.ScratchFits | pinos/server/link.c:248-276 | the scratch array holds the collected metadata if and only if some parameter enables none |
| LinkLayout.BufferSizes | pinos/server/link.c:279-284 | the bytes of shared memory and of skeleton that each buffer takes |
| LinkLayout.PlaceMetas | pinos/server/link.c:308-329 | the metadata of a buffer tile their region in order, with types and sizes as collected |
| LinkLayout.PlaceDatas | pinos/server/link.c:330-356 | the chunks, then the data areas with a size, tile theirs; an empty area has no memory |
| LinkLayout.AllocBuffers | pinos/server/link.c:225-359 | for any counts and sizes, every buffer's pieces tile data_size*i to data_size*(i+1) of the shared block and its skeleton its own part of the skeleton block, with ids and totals |
| LinkLayout.TilesOrdered | pinos/server/link.c:297-357 | pieces that tile are in bounds and pairwise disjoint |
| LinkLayout.TilesCover | pinos/server/link.c:297-357 | pieces that tile leave no byte out |
| LinkLayout.LayoutTiles | pinos/server/link.c:290-357 | every byte of the shared block belongs to exactly one piece of exactly one buffer |
| LinkLayout.SkeletonsApart | pinos/server/link.c:286-332 | no two parts of skeletons overlap, of one buffer or of two |
| LinkLayout.SkeletonsInBlock | pinos/server/link.c:286-302 | every part lies behind the table of buffers and within the block |
| StreamModel.PoolInvariant | pinos/client/stream.c:1122-1228 | in every state of every run the free list holds exactly the buffers not in use, once each, in the order they became free, with distinct ids |
| StreamModel.LongestFreeFirst | pinos/client/stream.c:1122-1134 | over every run an empty buffer is offered exactly if one is free, and it is the one free for longest |
| StreamModel.FindAgrees | pinos/client/stream.c:455-471 | finding by index agrees with a linear search if and only if the id is not in the range the bounds test wrongly admits; held ids never are |
| StreamModel.SendFillsPort | pinos/client/stream.c:1203-1228 | over every run: sending is handled exactly with no output pending; then a free buffer becomes the output, by its id, and is in use; anything else changes nothing |
| StreamModel.RecycleAnswers | pinos/client/stream.c:1145-1165 | over every run: true exactly for a buffer in use, which is then free; otherwise nothing changes |
| StreamModel.OutputChanges | pinos/client/stream.c:509-525 | the port changes only by being taken, and by sending a free buffer while it is empty |
| StreamModel.PendingWasSent | pinos/client/stream.c:1203-1228 | over every run a pending output was sent while free, not taken since, and its buffer is in use unless recycled or replaced since |
| StreamModel.BuffersReplaced | pinos/client/stream.c:777-890 | over every run new buffers are exactly those with known memory, in order, all free and listed in order on an output stream, all in use on an input stream |
| StreamModel.StrayElement | pinos/client/array.h:38-46 | a run with one buffer, after which id 1 leads to an element that does not exist |
| StreamModel.RecycleNeedsSend | pinos/client/stream.c:1145-1165 | between two successful recyclings of one buffer this buffer is sent with no output pending, or the buffers are replaced |
| StreamModel.SendAllowsRecycle | pinos/client/stream.c:1203-1228 | after a successful send a buffer can be recycled until it is, or the buffers are replaced |
| StreamModel.RecycleExactly | pinos/client/stream.c:1145-1228 | both ways, over every run: a buffer that was free can be recycled if and only if it was sent, with no output pending, since and not recycled after that |
| StreamModel.InputRecycledOnce | pinos/client/stream.c:819-821 | a run of an input stream whose first recycling of a buffer succeeds and whose second is refused |
| Stream.Stream.Find | pinos/client/stream.c:455-471 | the shortcut and the loop compute the specified search for every id, the wrongly admitted ones included |
| Stream.Stream.ClearBuffers | pinos/client/stream.c:120-137 | no buffers, nothing free, numbering in order |
| Stream.Stream.UseBuffers | pinos/client/stream.c:777-890 | replaces all buffers as one step: skipped ones leave no entry, outputs start free in order, inputs in use |
| Stream.Stream.GetEmptyBuffer | pinos/client/stream.c:1122-1134 | the id at the head of the free list, if any |
| Stream.Stream.RecycleBuffer | pinos/client/stream.c:1145-1165 | a used buffer becomes the last free one; refused, changing nothing, for an unknown or free one |
| Stream.Stream.SendBuffer | pinos/client/stream.c:1203-1228 | refused exactly while an output is pending, whatever the id; a free buffer leaves the list and its id becomes the output |
| Stream.Stream.NeedInput | pinos/client/stream.c:509-525 | the buffer handed back is freed like a recycled one, and the port is empty |
| Stream.Stream.Unlink | pinos/client/stream.c:1217-1217 | removing a list entry keeps the order of the others |

## Left out

- Sockets, epoll, shared memory mapping, file-descriptor passing, threads and locks: system calls. A socket is the queue of bytes still to be delivered.
- Connection.ConnectionBuffer.GetNext: stated for a stream of whole messages and a blocking socket; a read that returns an error or nothing in the middle of a message is not modelled.
- Connection.ConnectionBuffer.Write: payloads are given as bytes; the POD builder and its growth callback `write_pod` are not modelled.
- Framing.FrameReadsBack: the header words are laid out little-endian; both ends share one machine, so any fixed order would do.
- BurstCache.BurstCache.GetBuffer: stated for linked readers; a removed reader has no position, so the first branch of the code answers it.
- BurstCache.BurstCache.AddReader: a burst reader needs a non-empty queue, where the code has an assertion; burst settings are not changed once a reader is linked.
- BurstCache.BurstCache.RunHooks: callbacks do not call back into the cache.
- BurstCache.BurstCache.FindLimits: byte totals and positions are unbounded integers, where the code has 32-bit counters that are assumed not to overflow.
- Reader statistics (timestamps, bytes sent, average queue size), removing all readers and removal on error, which repeat the removal of one.
- ObjectEnds.Client.RemoveId: the id is not the freed one whose slot still looks like a proxy, which the program would follow to memory already released; `ObjectIds.RemovalIsLive` proves that no removal names one.
- Ids of 2^31 and above, whose shift in the id map loses the top bit, and failing allocations. Type ids stay below 2^31 (`Room`), object maps below the invalid id.
- Access control modules and asynchronous or denied creation of client nodes.
- PodRemap.RemapData: stated for well-formed PODs as the builder writes them; sizes that disagree with the contents are not modelled.
- Pods.IdsSplit: values lie at word offsets; ids in values whose size is not a whole number of words are not counted.
- LinkLayout.PlaceDatas: the constant fields of an entry (type, flags, descriptor, chunk offset) and the chunk size, which repeats the data size, are not recorded.
- LinkLayout.AllocBuffers: sizes are unbounded and multiplications do not wrap; the 32-bit fields `offset` and `mapoffset` are not narrowed; ring buffer metadata is not initialised.
- Stream.Stream.Unlink: the linked list is a sequence of places, so the pointers inside the elements, and their move when more than 64 buffers make the array grow, are not modelled.
- Stream.Stream.RecycleBuffer: not called with an id for which the index shortcut leaves the array, where the program reads memory that is no buffer; `StreamModel.FindAgrees` says which those are.
- Stream.Stream.SendBuffer: likewise, while no output is pending.
- Stream.Stream.NeedInput: one output port, as the sending function uses; the id handed back is one that was sent.
- D-Bus, modules, GStreamer elements, transports, node negotiation and ports: wrappers over libraries, or built on files that are not part of this model.
