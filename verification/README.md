# Verification of seaice

A Dafny model of the parts of seaice where most can go wrong, and proofs about it: the growable byte buffer and its
codec, the wire protocol and the framing over a socket stream, the timed LRU caches, the semaphore with the worker group
and the asynchronous writer, the event registration of the IO manager, the timers, the scheduling loop, and how IPv6
addresses are printed. `dafny verify dfyconfig.toml` checks all of it.

Objects that seaice updates in place are classes here, with the fields of the source: `ByteArray` over a heap list of
nodes, the messages of the protocol, `SocketStream`, `TimedLruCache` over heap items that three containers share,
`HashTimedLruCache`, `FiberSemaphore`, `FdContext` and `IOManager`, `Timer` and `TimerManager`. Each method is proved
against a function on values, and the theorems about whole runs are lemmas about those functions. What several threads
do at once (worker groups, the asynchronous writer, sweeps of the timer set, the scheduling loop) is a state machine whose
steps are the sections between the points where something else can happen; the theorems hold of every sequence of steps.

| file | what it models |
|---|---|
| `Prelude.dfy`, `Bits.dfy`, `OrderedSet.dfy` | sequences, bit operations on natural numbers, `std::set` by its order |
| `Codec.dfy`, `Values.dfy` | fixed-width integers, varints, zigzag and strings as bytes, and what survives the way back |
| `NodeList.dfy`, `ByteArray.dfy`, `ByteArrayRuns.dfy` | the list of nodes, the buffer with its cursor, and whole runs over it |
| `Protocol.dfy`, `ProtocolRuns.dfy` | Request, Response and Notify, and sequences of them |
| `Stream.dfy`, `Rock.dfy` | scatter and gather transfers of any length, the framing, and a conversation over two sockets |
| `LruSpec.dfy`, `TimedLruCache.dfy`, `HashTimedLruCache.dfy` | the cache as a list of entries, the three containers, and the shards |
| `Semaphore.dfy`, `Worker.dfy`, `AsyncSocketStream.dfy` | permits, worker groups with `waitAll`, and the write queue |
| `EventSpec.dfy`, `IOManager.dfy`, `IOManagerRuns.dfy` | one descriptor and the kernel's entry for it, the table of contexts, and whole runs over it |
| `TimerSpec.dfy`, `TimerRuns.dfy`, `Timer.dfy` | timers as steps, their order and pace, and the objects |
| `Scheduler.dfy` | one worker of the scheduler and its fibers |
| `Ipv6.dfy` | printing and reading an IPv6 address |

## Model

| member | source | states |
|---|---|---|
| Codec.FixedOnWire | seaice/endian.h:38-60 | the bytes of a fixed-width integer depend on the endian setting only, never on the byte order of the host |
| Codec.FixedFromWire | seaice/bytearray.cpp:215-259 | and so does what is read from them |
| Codec.MemoryByte | seaice/bytearray.cpp:65-113 | byte i of an integer of n bytes is v / 256^i modulo 256 from the low end in the one order, from the high end in the other |
| Codec.LittleEndianInverse | seaice/bytearray.cpp:65-113 | every value below 256^n is what its n bytes stand for |
| Codec.FromLittleEndianInverse | seaice/bytearray.cpp:215-259 | every n bytes are the bytes of what they stand for |
| Codec.SignedBijection | seaice/bytearray.cpp:65-113 | signed and unsigned integers of n bytes are in one-to-one correspondence by their bits |
| Codec.DecodeZigzag32 | seaice/bytearray.cpp:137-143 | the shift and the exclusive or with a negated bit invert zigzag: 0, 1, 2, 3 are 0, -1, 1, -2 |
| Codec.DecodeZigzag64 | seaice/bytearray.cpp:145-147 | the same in 64 bits |
| Codec.EncodeZigzag32IsZigzag | seaice/bytearray.cpp:115-127 | the wrapping arithmetic is zigzag for every int32, the least one included |
| Codec.EncodeZigzag64IsZigzag | seaice/bytearray.cpp:129-135 | the same for every int64 |
| Codec.Zigzag32Bijection | seaice/bytearray.cpp:115-143 | encoding and decoding invert each other, both ways |
| Codec.Zigzag64Bijection | seaice/bytearray.cpp:129-147 | the same in 64 bits |
| Codec.PutVarint | seaice/bytearray.cpp:153-162 | the loop leaves exactly the groups of seven bits of the value, and never leaves its buffer |
| Codec.VarintByte | seaice/bytearray.cpp:153-162 | byte i of a varint is group i of seven bits, with the high bit exactly where another one follows |
| Codec.OrIsPlus | seaice/bytearray.cpp:265-275 | each group of the reader lies behind the bits that the groups before it can reach, so `or` adds it, also when the last group is cut at the width |
| Codec.GroupsOfVarint | seaice/bytearray.cpp:281-291 | a reader stops exactly behind a varint that was written, whatever follows |
| Codec.GroupsBound | seaice/bytearray.cpp:265-275 | whatever the bytes are, the reader stays inside its width |
| Values.VarintRoundTrip | seaice/bytearray.cpp:153-162 | below 2^32 a varint takes at most five bytes and both readers return it |
| Values.VarintSelfDelimiting | seaice/bytearray.cpp:153-162 | no varint is a prefix of another one |
| Values.SurvivesExactly | seaice/bytearray.cpp:164-177 | a value survives the writers exactly when it fits: 64-bit varints are cut to 32 bits, lengths to their prefix |
| Values.RoundTrip | seaice/bytearray.cpp:191-213 | every value of the parameter types comes back as what survives of it, and the reader takes the bytes of that |
| Values.RoundTripExactly | seaice/bytearray.cpp:164-177 | a value comes back, and exactly its bytes are taken, if and only if it fits |
| Values.ListRoundTrip | seaice/bytearray.cpp:65-337 | every list of values that fit comes back from its bytes, and nothing behind them is touched |
| NodeLists.Put | seaice/bytearray.cpp:359-378 | the loop over the nodes puts the bytes at the cursor, in order, across any number of nodes, and changes no other byte |
| NodeLists.Get | seaice/bytearray.cpp:390-404 | the loop returns the bytes at the cursor, and its cursor is the node behind them |
| NodeLists.Windows | seaice/bytearray.cpp:619-634 | the windows cover the bytes at the cursor, in order, none empty, none outside its node |
| NodeLists.AppendNodes | seaice/bytearray.cpp:655-663 | new nodes are linked behind the last one, and the bytes that there were stay |
| NodeLists.List.BytesAt | seaice/bytearray.h:15-22 | a byte of the flat view is the byte of its node |
| ByteArrays.ByteArray.constructor | seaice/bytearray.cpp:42-50 | a new array is empty, with one node |
| ByteArrays.ByteArray.WriteLands | seaice/bytearray.cpp:352-379 | a write goes to the position if and only if the list is full or the cursor is the node of the position |
| ByteArrays.ByteArray.AddCapacity | seaice/bytearray.cpp:638-667 | the capacity is the least that gives the room, every byte is kept, and the cursor of a full list is on the first new node |
| ByteArrays.CapacityMeets | seaice/bytearray.cpp:645-646 | that capacity is the end of the room exactly when it takes whole nodes behind the old ones, or none |
| ByteArrays.ByteArray.Write | seaice/bytearray.cpp:352-379 | at any cursor: where the bytes go, the least sufficient capacity, and exactly when the size stays within it and at the position |
| ByteArrays.ByteArray.Read | seaice/bytearray.cpp:381-405 | the bytes at the cursor, or an error and no change when that is more than there is |
| ByteArrays.ByteArray.ReadAt | seaice/bytearray.cpp:407-439 | the bytes at a given position, or an error |
| ByteArrays.ByteArray.ToString | seaice/bytearray.cpp:521-529 | everything from the position to the size |
| ByteArrays.ByteArray.SetPos | seaice/bytearray.cpp:441-458 | the cursor is the node of the position, null exactly at the end of the list; beyond the capacity an error and no change |
| ByteArrays.ByteArray.Clear | seaice/bytearray.cpp:339-350 | an empty array with its first node again |
| ByteArrays.ByteArray.GetReadBuffers | seaice/bytearray.cpp:544-569 | windows over the next bytes, no more than can be read |
| ByteArrays.ByteArray.GetWriteBuffers | seaice/bytearray.cpp:607-635 | windows over the bytes that a write would fill, with the least capacity that has room for them |
| ByteArrays.ByteArray.Append | seaice/bytearray.cpp:352-379 | after writes only, a write appends, and less than a node stays unused |
| ByteArrays.ByteArray.Next | seaice/bytearray.cpp:381-405 | after setPos, a read takes from the front of what can be read |
| ByteArrays.ByteArray.WriteFuint | seaice/bytearray.cpp:65-113 | appends the bytes of the value in the order of the setting |
| ByteArrays.ByteArray.WriteFint | seaice/bytearray.cpp:65-113 | the same on the two's complement bits |
| ByteArrays.ByteArray.WriteUint32 | seaice/bytearray.cpp:153-162 | appends the varint |
| ByteArrays.ByteArray.WriteInt32 | seaice/bytearray.cpp:149-151 | appends the varint of the zigzag |
| ByteArrays.ByteArray.WriteUint64 | seaice/bytearray.cpp:168-177 | appends the varint of what its 32-bit parameter keeps |
| ByteArrays.ByteArray.WriteInt64 | seaice/bytearray.cpp:164-166 | appends what two 32-bit parameters keep of the zigzag |
| ByteArrays.ByteArray.WriteString | seaice/bytearray.cpp:191-213 | appends the length, cut to its prefix, and the whole string |
| ByteArrays.ByteArray.ReadFuint | seaice/bytearray.cpp:215-259 | takes n bytes and returns what they stand for, or fails |
| ByteArrays.ByteArray.ReadFint | seaice/bytearray.cpp:215-259 | the same, signed |
| ByteArrays.ByteArray.ReadUint32 | seaice/bytearray.cpp:265-275 | the loop takes groups up to the last one or the fifth, in 32 bits, or fails where the bytes end |
| ByteArrays.ByteArray.ReadUint64 | seaice/bytearray.cpp:281-291 | the same with ten groups in 64 bits |
| ByteArrays.ByteArray.ReadInt32 | seaice/bytearray.cpp:261-263 | the zigzag of that |
| ByteArrays.ByteArray.ReadInt64 | seaice/bytearray.cpp:277-279 | the zigzag of that |
| ByteArrays.ByteArray.ReadString | seaice/bytearray.cpp:307-337 | takes a length and so many bytes, or fails behind what it has taken |
| ByteArrayRuns.CutAt | seaice/bytearray.cpp:381-405 | what the i-th of several reads returns |
| ByteArrayRuns.WriteThenRead | seaice/bytearray.cpp:339-458 | for every node size, everything written before a clear, every writes and every reads: what is read is what was written behind the clear, cut at the read sizes |
| ByteArrayRuns.TypedRoundTrip | seaice/bytearray.cpp:65-337 | every list of values that fit comes back, under every byte order of setting and host, and no byte is left over |
| ByteArrayRuns.SpareNodeIsSkipped | seaice/bytearray.cpp:366-377 | a run in which a node that is filled exactly while a spare one follows is written over |
| ByteArrayRuns.SizeFits | seaice/bytearray.cpp:352-379 | inside and at the end of the list, when exactly the size stays within the capacity |
| ByteArrayRuns.OverwritingGrows | seaice/bytearray.cpp:364 | any number of writes over the start of any array: the size grows by all of them and leaves the capacity exactly when they no longer fit behind it |
| Protocol.OnTheWire | seaice/protocol.cpp:27-77 | a message goes over the wire as the number of its type and its fields as varints in the order of the source, a string behind its length |
| Protocol.MessageRoundTrip | seaice/protocol.cpp:27-82 | the fields of a message come back from its bytes, whatever follows |
| Protocol.ReceivedExactly | seaice/protocol.cpp:49-64 | unchanged if and only if the result string is shorter than 2^32 |
| Protocol.Request.SerializeToByteArray | seaice/protocol.cpp:27-32 | appends the type and the fields |
| Protocol.Request.ParseFromByteArray | seaice/protocol.cpp:34-38 | takes the fields, or fails where they end |
| Protocol.Response.SerializeToByteArray | seaice/protocol.cpp:49-56 | appends the type and the fields |
| Protocol.Response.ParseFromByteArray | seaice/protocol.cpp:58-64 | takes the fields, or fails where they end |
| Protocol.Notify.SerializeToByteArray | seaice/protocol.cpp:73-77 | appends the type and the field |
| Protocol.Notify.ParseFromByteArray | seaice/protocol.cpp:79-82 | takes the field, or fails where it ends |
| ProtocolRuns.MessagesRoundTrip | seaice/protocol.cpp:11-82 | every sequence of messages comes back from its bytes, and nothing behind it is touched |
| ProtocolRuns.Exchange | seaice/protocol.cpp:11-82 | the same through the objects and a buffer of any node size: serialized, rewound, parsed, and the position is at the end |
| Streams.Socket.Recv | seaice/socket.cpp:258-274 | recvmsg puts a front part of what the peer sent into the windows, and changes no other byte |
| Streams.Socket.Send | seaice/socket.cpp:220-236 | sendmsg sends a front part of what the windows show |
| Streams.SocketStream.Read | seaice/socketstream.cpp:23-34 | one transfer at any cursor: the bytes go where a write would go, every other byte stays, there is room for the whole length and no more, and when the cursor is null |
| Streams.SocketStream.ReadFixSize | seaice/stream.cpp:19-29 | at any position: it asks again until all has come or a transfer moves nothing, however short the transfers are, and returns the length or what that one returned; the next bytes of the stream are at the position, in order, every other byte is as it was; when all came, the cursor is null if and only if the nodes that there were, with the least number of new ones, end where the bytes do |
| Streams.SocketStream.ReadIntoNew | seaice/stream.cpp:19-29 | into a new array, for every node size: a length that came leaves no cursor if and only if it is a number of whole nodes |
| Streams.SocketStream.FullNode | seaice/stream.cpp:19-29 | 4096 bytes that came into a new array of 4096 leave none |
| Streams.SocketStream.Appended | seaice/stream.cpp:19-29 | into an array that ends at its position this appends |
| Streams.SocketStream.Write | seaice/socketstream.cpp:43-54 | one transfer sends a front part of what can be read, and takes exactly that |
| Streams.SocketStream.WriteFixSize | seaice/stream.cpp:45-55 | it asks again until all is sent or a transfer moves nothing, and returns the length or what that one returned; what is sent is a front part of what could be read, in order, none twice; the length is an int |
| Streams.SocketStream.ReadFixBuffer | seaice/stream.cpp:5-17 | it asks again in the same way, into memory; what came is at its start, and the bytes behind stay |
| Streams.SocketStream.WriteFixBuffer | seaice/stream.cpp:31-43 | it asks again in the same way, from memory |
| Rock.PacketRoundTrip | seaice/rock/rock_protocol.cpp:14-22 | a message with its body comes back from its bytes |
| Rock.HeaderRoundTrip | seaice/rock/rock_protocol.cpp:178-207 | a header says its flag and length, and is valid if and only if the length is below the maximum |
| Rock.FrameOnWire | seaice/rock/rock_protocol.cpp:281-312 | a frame is the magic number, the version, the gzip flag, set exactly from the minimal length on, the four bytes of the length with the high one first, and the message, zipped exactly with the flag |
| Rock.PayloadRoundTrip | seaice/rock/rock_protocol.cpp:281-312 | a payload is decoded again if and only if gzip has not made it shorter than the limit from which on it is unzipped |
| Rock.FrameRoundTrip | seaice/rock/rock_protocol.cpp:209-279 | a frame arrives, and exactly its bytes are taken, if and only if in addition it is below the maximum and 2^31 |
| Rock.ShrunkIsLost | seaice/rock/rock_protocol.cpp:235-248 | for every codec, nothing comes of a frame that gzip made shorter than the limit |
| Rock.CompressibleIsLost | seaice/rock/rock_protocol.cpp:235-248 | there is such a frame |
| Rock.RockMessageDecoder.SerializeTo | seaice/rock/rock_protocol.cpp:281-312 | what goes out is a front part of the frame; the result is a failure if and only if one of the transfers moved nothing or the length is not a positive int, and otherwise the frame has gone out whole |
| Rock.RockMessageDecoder.ParseFrom | seaice/rock/rock_protocol.cpp:209-279 | a message that is returned is the one of the frame at the front of the stream, and its bytes are taken; when the stream starts with a whole frame, its message is returned and exactly its bytes are taken if and only if no transfer moved nothing |
| Rock.ParseFrameStable | seaice/rock/rock_protocol.cpp:209-279 | what is read from the front of a stream does not change when more arrives |
| Rock.Converse | seaice/rock/rock_protocol.cpp:209-312 | whatever two sockets do with the transfers and however much arrives, what is received is a prefix of what was sent; the sender gives up exactly at a transfer that moves nothing, and so does the receiver; all is received when no transfer of the sender was of that kind, all arrived, and nothing is left |
| LruSpec.NeverStale | seaice/ds/timed_lru_cache.h:79-136 | after every run a key is there at most once, and what get finds is what was set last |
| LruSpec.RunFaithful | seaice/ds/timed_lru_cache.h:79-123 | and the entries are in the order of their last use |
| LruSpec.RunSize | seaice/ds/timed_lru_cache.h:235-252 | with a limit, no run leaves more entries than limit and elasticity allow |
| LruSpec.NothingLost | seaice/ds/timed_lru_cache.h:235-252 | without a limit and timeouts, only del and clear remove what was set |
| LruSpec.SetIsFound | seaice/ds/timed_lru_cache.h:79-95 | after every run, with every limit, what was set last of all is found |
| LruSpec.SetDropsExactly | seaice/ds/timed_lru_cache.h:235-249 | a new key drops nothing without a limit, below the allowed size, or when all fit, and otherwise exactly what is behind the entries used last that the limit has room for |
| LruSpec.SetAgainKeeps | seaice/ds/timed_lru_cache.h:79-95 | a key that is there already drops nothing, whatever the limit is |
| LruSpec.NearIsFound | seaice/ds/timed_lru_cache.h:235-249 | a key that was set and not removed is found with its last value as long as fewer other keys than the limit were used since its last use |
| TimedLru.TimedLruCache.Set | seaice/ds/timed_lru_cache.h:79-95 | the entry comes to the front with its new expiry, and what prune drops is told to the callback, the least recently used first |
| TimedLru.TimedLruCache.Get | seaice/ds/timed_lru_cache.h:97-123 | finds what is there and brings it to the front |
| TimedLru.TimedLruCache.Del | seaice/ds/timed_lru_cache.h:125-136 | the key leaves all three containers |
| TimedLru.TimedLruCache.CheckTimeout | seaice/ds/timed_lru_cache.h:214-232 | exactly the expired entries leave and are counted, and the callbacks are made with exactly these, in the order of expiry |
| TimedLru.TimedLruCache.Clear | seaice/ds/timed_lru_cache.h:153-159 | nothing is left |
| TimedLru.Replay | seaice/ds/timed_lru_cache.h:62-252 | any list of operations on a new cache, with its three containers sharing heap items, leaves what the list of entries says |
| HashTimedLru.SameShard | seaice/ds/timed_lru_cache.h:301-307 | two keys are in one shard if and only if their hashes differ by a multiple of the number of shards |
| HashTimedLru.ShardsAreCaches | seaice/ds/timed_lru_cache.h:293-315 | each shard is a cache of its own that sees what reaches it |
| HashTimedLru.KeysOfRun | seaice/ds/timed_lru_cache.h:301-315 | after every run a key is in its own shard or nowhere |
| HashTimedLru.SizeOfRun | seaice/ds/timed_lru_cache.h:317-323 | after every run size counts each key once |
| HashTimedLru.BoundOfRun | seaice/ds/timed_lru_cache.h:348-350 | after every run with a limit, the total is at most getMaxAllowedSize |
| HashTimedLru.ShardsNeverStale | seaice/ds/timed_lru_cache.h:301-307 | and no shard returns a stale value |
| HashTimedLru.JustSetIsFound | seaice/ds/timed_lru_cache.h:293-307 | what was set last of all is found in its shard, with every limit |
| HashTimedLru.HashTimedLruCache.constructor | seaice/ds/timed_lru_cache.h:272-285 | limits rounded up to a multiple of the number of shards, and empty shards |
| HashTimedLru.HashTimedLruCache.Get | seaice/ds/timed_lru_cache.h:301-307 | finds a key exactly when the union of the shards has it |
| HashTimedLru.HashTimedLruCache.Del | seaice/ds/timed_lru_cache.h:309-311 | true exactly when the union had it |
| HashTimedLru.HashTimedLruCache.Size | seaice/ds/timed_lru_cache.h:317-323 | the number of keys |
| HashTimedLru.HashTimedLruCache.All | seaice/ds/timed_lru_cache.h:334-338 | clear and checkTimeout reach every shard |
| HashTimedLru.Replay | seaice/ds/timed_lru_cache.h:272-401 | any list of operations on a new sharded cache leaves in the shards what the theorems about runs speak of, and size counts its keys |
| Semaphores.FiberSemaphore.Wait | seaice/mutex.cpp:39-50 | takes a free permit, or joins the queue |
| Semaphores.FiberSemaphore.Notify | seaice/mutex.cpp:52-61 | the permit goes to the first in the queue, or becomes free |
| Semaphores.FiberSemaphore.TryWait | seaice/mutex.cpp:27-37 | takes a free permit or leaves all as it is |
| Semaphores.RunKeeps | seaice/mutex.cpp:27-61 | in every run no permit is lost or made up, a free one means an empty queue, and waits are served in order |
| Semaphores.NoOvertaking | seaice/mutex.cpp:27-37 | tryWait gets a permit only when every wait has been served |
| Workers.PermitConservation | seaice/worker.cpp:29-47 | in every run free permits, tasks and callers share all permits, and at most batchSize tasks are in flight |
| Workers.Drained | seaice/worker.cpp:35-42 | when a caller that set m_finish is through, no task is in flight and everything submitted before is done |
| Workers.OneDrains | seaice/worker.cpp:35-42 | of two callers that found m_finish false, one waits for ever |
| Workers.NoLostWakeUp | seaice/worker.cpp:29-47 | with a parked submitter, some task is in flight, and its notify still to come, if and only if the callers of waitAll do not hold all permits; when only one drains, these are its own |
| Workers.WaitsExactly | seaice/worker.cpp:35-42 | waitAll waits for what was submitted before the call, in every run, if and only if it finds m_finish false and the batch size is not 0 |
| Workers.SecondCallerDoesNotWait | seaice/worker.cpp:35-42 | for every batch size but 0 a caller that finds m_finish set returns while a task runs |
| Workers.EmptyGroupExactly | seaice/worker.cpp:35-42 | with batch size 0 waitAll returns with everything done exactly when nothing was submitted |
| Workers.EachOnce | seaice/worker.cpp:29-47 | in every run each step of a task is made once at most, and where the task is tells which have been made |
| Workers.RunsOnce | seaice/worker.cpp:44-47 | a callback is called at most once, and exactly once when its task is done |
| Workers.Finishes | seaice/worker.cpp:29-47 | in every reachable state a task with a permit can be carried on until it is done |
| Workers.AllFinish | seaice/worker.cpp:29-47 | as long as nobody drains the group, all that was submitted can be carried on until it is done, the parked ones included |
| Workers.DrainsAndReturns | seaice/worker.cpp:35-42 | from every reachable state a caller that drains the group alone can be carried on until it returns |
| Workers.SomeoneWaits | seaice/worker.cpp:35-42 | for every batch size but 0, a run in which a task was submitted before a caller, and is done when the caller has returned |
| AsyncWriter.ExactlyOnce | seaice/async_socket_stream.cpp:42-73 | in every run what was sent, is at hand and is in the list is what enqueue was called with, in order, nothing twice |
| AsyncWriter.NoLostWakeUp | seaice/async_socket_stream.cpp:67-73 | a writer that is parked with a filled list will be notified |
| AsyncWriter.Settled | seaice/async_socket_stream.cpp:42-73 | with all enqueuers through and the writer parked, everything was sent |
| AsyncWriter.CanSendAll | seaice/async_socket_stream.cpp:42-73 | from every reachable state of a writer that has not ended, the run can go on until all that was enqueued has been sent |
| EventSpec.CancelOk | seaice/iomanager.cpp:177-223 | a cancel asserts nothing false exactly when each of its bits has a waiter, set or not, or none is set |
| EventSpec.CancelExactly | seaice/iomanager.cpp:213-221 | it wakes exactly the waiters of the bits that it clears if and only if all of its bits are set |
| EventSpec.StaleIsWokenAgain | seaice/iomanager.cpp:213-221 | a run in which a cancel wakes a waiter that was woken before |
| EventSpec.ReadyExactly | seaice/iomanager.cpp:333-355 | epoll_wait wakes the reader if and only if it waits and the descriptor is readable, failed or hung up, the writer if and only if it waits and it is writable, failed or hung up, and exactly these bits leave the mask |
| EventSpec.RunSettled | seaice/iomanager.cpp:87-357 | in every run the mask mirrors the kernel's entry, and registrations are wake-ups, silent drops, overwritten ones and live ones |
| EventSpec.SettledOnce | seaice/iomanager.cpp:87-357 | so no assertion fails, and nobody is woken more often than registered |
| IOManagers.IOManager.constructor | seaice/iomanager.cpp:40-75 | 96 empty contexts |
| IOManagers.IOManager.ResizeFdContext | seaice/iomanager.cpp:272-287 | contexts are added up to the descriptor, and the old ones stay |
| IOManagers.IOManager.AddEvent | seaice/iomanager.cpp:87-131 | how many contexts there are then, what the one of the descriptor is, that the other new ones are empty, and that no old one notices |
| IOManagers.IOManager.PassesExactly | seaice/iomanager.cpp:142 | the guard of the next three lets through the descriptors with a context, and the one behind the last |
| IOManagers.BehindTheLast | seaice/iomanager.cpp:133-270 | on a new manager all three read a context that is not there for descriptor 96 |
| IOManagers.IOManager.DelEvent | seaice/iomanager.cpp:133-175 | for every descriptor: when it reads a missing context, and otherwise what becomes of this descriptor and of no other, without a wake-up |
| IOManagers.IOManager.CancelEvent | seaice/iomanager.cpp:177-223 | for every descriptor and mask: when it reads a missing context, when its assertion fails, and otherwise what becomes of the descriptor and who is scheduled |
| IOManagers.IOManager.CancelAllEvent | seaice/iomanager.cpp:225-270 | the same for all bits, whose assertion never fails |
| IOManagers.IOManager.Dispatch | seaice/iomanager.cpp:325-356 | for one result of epoll_wait: the reader and the writer are scheduled, and their bits leave the events, exactly when they wait for what is ready; and when its epoll_ctl fails |
| IOManagerRuns.Replay | seaice/iomanager.cpp:40-357 | any list of calls over any descriptors on a new manager: it gets through if and only if none is for the descriptor behind the last context; then every context is what its own operations make of it, and what was scheduled is what they have woken |
| IOManagerRuns.LogsAreRuns | seaice/iomanager.cpp:87-357 | each descriptor sees a run of the operations that are for it, and of no others |
| IOManagerRuns.AllAccounted | seaice/iomanager.cpp:87-357 | over all descriptors, registrations are wake-ups, silent drops, overwritten ones and live ones |
| TimerSpec.SweepExactly | seaice/timer.cpp:133-142 | what is in front of lower_bound: expired before now, or at now with a lower address |
| TimerSpec.DeliveredAtMost | seaice/timer.cpp:83-157 | in every run a one-shot timer is delivered at most once per call of addTimer that puts it into the set, and no such call is lost unless it is cancelled |
| TimerSpec.ReaddedFires | seaice/timer.cpp:83-92 | for every n, a run in which a one-shot timer is added n times and delivered n times |
| TimerSpec.CancelledIsOver | seaice/timer.cpp:35-39 | what is cancelled is never delivered again |
| TimerRuns.StepOrdered | seaice/timer.cpp:41-45 | a step takes the ordered set out of its order if and only if it renews a cyclic timer that is in the set while another one is due between its old and its new expiry |
| TimerRuns.OrderedExactly | seaice/timer.cpp:83-157 | in every run the set is in order all the time if and only if no step of it does that |
| TimerRuns.OnePlaceExactly | seaice/timer.cpp:83-157 | in every run each cyclic timer is in at most one place, the set or a sweeper's hands, if and only if none is added that a sweeper has |
| TimerRuns.CarefulNeverUnorders | seaice/timer.cpp:83-157 | no step does that while no cyclic timer is added that a sweeper has |
| TimerRuns.PeriodicAtMost | seaice/timer.cpp:124-157 | in those runs the set stays ordered and a period of p delivers no more often than p fits into the life of the timer |
| TimerRuns.CyclicStays | seaice/timer.cpp:144-156 | in those runs a cyclic timer that was added is in exactly one place until it is cancelled |
| TimerRuns.SweepDivides | seaice/timer.cpp:133-142 | in those runs a sweep takes, in the order of expiry, all that expired before it and nothing that expires later |
| TimerRuns.CarelessUnorders | seaice/timer.cpp:41-45 | a cyclic timer that is added while a sweeper has taken it is moved inside the set, out of its order, if and only if another one is due before its next expiry |
| TimerRuns.CarelessUnordersLate | seaice/timer.cpp:41-45 | the same for one that is added between its delivery and its renewal |
| TimerRuns.CarelessHurries | seaice/timer.cpp:83-92 | and is delivered twice at one time when it is swept again |
| TimerRuns.OrderIsNotForAll | seaice/timer.cpp:41-45 | a run that leaves the set out of order |
| TimerRuns.PaceIsNotForAll | seaice/timer.cpp:83-92 | a run in which a cyclic timer is ahead of its period |
| Timers.TimerManager.AddTimer | seaice/timer.cpp:83-92 | the step Add, on the set of objects; tells that the set was empty |
| Timers.TimerManager.DelTimer | seaice/timer.cpp:101-105 | the step Delete: cancelled, and out of the set |
| Timers.TimerManager.GetRecentTimeout | seaice/timer.cpp:107-118 | how long nothing expires, unless the first timer is overdue by more than an int can say; the wait ends with the first expiry if and only if an int can say it |
| Timers.TimerManager.ListTimeoutCallback | seaice/timer.cpp:124-157 | a sweep and what is done with each timer, as steps: who is delivered, in the order of expiry, who goes back with which expiry, and the counts of the model |
| Timers.TimerManager.OncePerAdd | seaice/timer.cpp:83-157 | whatever the calls were, a one-shot timer was delivered at most once per addTimer |
| Timers.TimerManager.KeepsPace | seaice/timer.cpp:124-157 | the set of objects is in order, and no periodic timer was delivered more often than its period fits into its life |
| Timers.TimerManager.CyclicStays | seaice/timer.cpp:144-156 | a cyclic timer that was put into the set is in it between any two calls until it is cancelled |
| Schedulers.ScanQueue | seaice/scheduler.cpp:81-97 | the first task that is for this thread and whose fiber does not run, and whether the assertion of the loop held on the way |
| Schedulers.AssertsExactly | seaice/scheduler.cpp:81-158 | in a state that runs keep, the assertions of a step hold exactly when it neither dispatches a fiber that ended by an exception nor scans an empty task first |
| Schedulers.OneFiberRuns | seaice/fiber.cpp:64-88 | in every run exactly one fiber is EXEC |
| Schedulers.TakenInOrder | seaice/scheduler.cpp:81-97 | in every run tasks are taken once, in order, a pinned one by its thread, and none is overtaken |
| Schedulers.NothingLost | seaice/scheduler.cpp:81-97 | in every run the tasks that were taken and the ones in the queue are what schedule was called with, none twice |
| Schedulers.TakenIsRun | seaice/scheduler.cpp:99-146 | in every run each task that was taken is run once, in that order: a callback in its fiber, a fiber unless it had ended; and nothing else is entered but the idle fiber |
| Schedulers.CallbacksAreRun | seaice/scheduler.cpp:120-131 | a callback fiber is entered as often as a callback was taken, less the one that is not yet dispatched |
| Schedulers.CanTakeAll | seaice/scheduler.cpp:81-158 | from every reachable state of a worker that has not ended, without failed fibers and empty tasks, the run can go on until all that was queued for its thread is taken |
| Schedulers.IdlesExactly | seaice/scheduler.cpp:148-160 | the idle fiber is entered if and only if the last scan left the queue empty; else the worker scans again |
| Schedulers.NoAssertFails | seaice/scheduler.cpp:81-158 | as long as no fiber ends by an exception and no empty task is scheduled, no assertion of scheduler and fibers fails |
| Schedulers.EmptyIsMet | seaice/scheduler.cpp:87 | a run in which an empty task fails the scan |
| Schedulers.ExceptionThenDispatch | seaice/scheduler.cpp:104 | a run in which the dispatch of a fiber fails |
| Ipv6.Insert | seaice/address.cpp:468-490 | the loop prints the groups with the first run of zeros, whole, as two colons |
| Ipv6.ReadsBack | seaice/address.cpp:468-490 | what is printed for any address reads back as that address |
| Ipv6.PrintsApart | seaice/address.cpp:468-490 | two addresses are never printed alike |
| Ipv6.DoubleColonExactly | seaice/address.cpp:468-490 | two colons stand together if and only if a group is zero, for the first whole run of zeros, and every other group is printed |
| Ipv6.JoinedAt | seaice/address.cpp:468-490 | the other groups stand in their order, with one colon between any two |

## Findings

Properties that the code does not have, with an input and the exact condition under which it does.

- seaice/rock/rock_protocol.cpp:235-248: the sender sets the gzip flag for a message of at least min_length bytes, the
  receiver unzips a payload of at least min_length bytes. A message that gzip makes shorter than min_length is lost:
  4096 zero bytes with a min_length of 4096. A frame arrives if and only if its payload is below the receiver's
  maximum and 2^31, and was not zipped to less than min_length (`Rock.FrameRoundTrip`, `Rock.ShrunkIsLost`,
  `Rock.CompressibleIsLost`).
- seaice/worker.cpp:35-42: a second `waitAll` finds `m_finish` set and returns at once: batch size 1, one running
  task. It waits, in every run, if and only if it finds `m_finish` false and the batch size is not 0
  (`Workers.WaitsExactly`, `Workers.SecondCallerDoesNotWait`). Of two callers that both find it false one waits for
  ever (`Workers.OneDrains`).
- seaice/worker.cpp:29-42: a group of batch size 0 parks every submitter for ever, and its `waitAll` returns at once.
  It returns with everything done exactly when nothing was submitted (`Workers.EmptyGroup`,
  `Workers.EmptyGroupExactly`).
- seaice/iomanager.cpp:213-221: a cancel triggers every bit of its argument, not only the set ones. READ is added and
  becomes ready, WRITE is added, and a cancel of both wakes the reader again. A cancel wakes exactly the waiters of
  the bits that it clears if and only if all of them are set; otherwise it wakes a stale one, or asserts
  (`EventSpec.CancelExactly`, `EventSpec.CancelOk`, `EventSpec.StaleIsWokenAgain`).
- seaice/iomanager.cpp:142, 185 and 232: `mFdCtxs.size() < fd` lets a descriptor equal to the number of contexts
  through, for which there is none: `delEvent` with descriptor 96 on a new manager. The three operations find a
  context if and only if the descriptor is not that one, and a list of calls gets through if and only if none is for
  it (`IOManagers.IOManager.PassesExactly`, `IOManagers.BehindTheLast`, `IOManagerRuns.Replay`).
- seaice/scheduler.cpp:87 and 104: the scan fails on an empty task, which `schedule` accepts and a timer without a
  callback hands to it (seaice/iomanager.cpp:314); and a fiber that ended by an exception and is in the queue once
  more fails when it is dispatched: a fiber that is scheduled twice and throws. In the states that runs reach, the
  assertions of a step hold if and only if it does neither, and they all hold in runs that schedule no empty task and
  in which no fiber throws (`Schedulers.AssertsExactly`, `Schedulers.NoAssertFails`, `Schedulers.EmptyIsMet`,
  `Schedulers.ExceptionThenDispatch`).
- seaice/bytearray.cpp:366-377: a write that fills a node exactly leaves the cursor on it, so while a spare node
  follows, the next write goes over it: node size 1, room for two bytes, 7 and 8 written, 8 read first. A write goes
  to the position if and only if the list is full or the cursor is the node of the position
  (`ByteArrays.ByteArray.WriteLands`, `ByteArrayRuns.SpareNodeIsSkipped`).
- seaice/bytearray.cpp:364 and 371: a write over old bytes adds to `m_size` all the same: four bytes written to a node
  of four and one written over the first leave a size of 5 and a capacity of 4. The size stays within the capacity if
  and only if the old size and the written bytes fit into the new capacity, and at the position if and only if it was
  there (`ByteArrays.ByteArray.Write`, `ByteArrayRuns.SizeFits`, `ByteArrayRuns.OverwritingGrows`).
- seaice/bytearray.cpp:164-177: `writeInt64` and `writeUint64` have 32-bit parameters: `writeUint64(2^32)` is read
  back as 0. Exactly the values of 32 bits come back (`Values.RoundTripExactly`).
- seaice/bytearray.cpp:191-213: a string that is longer than its length prefix can say is read back cut, with the rest
  of it left in the buffer: 65536 bytes behind a 16-bit length are read as none. Exactly the strings shorter than the
  limit of the prefix come back (`Values.RoundTripExactly`).
- seaice/stream.cpp:19-29: a `readFixSize` that fills the last node leaves a null cursor, from which nothing can be
  written or received: 4096 bytes into a new array of 4096. When all of a length came, the cursor is null if and only
  if position and length together reach the capacity and go beyond it by whole nodes or nothing
  (`Streams.SocketStream.ReadFixSize`, `ByteArrays.CapacityMeets`, `Streams.SocketStream.ReadIntoNew`,
  `Streams.SocketStream.FullNode`).
- seaice/stream.cpp:31-55: the length of `writeFixSize` goes through an int: 2^31 bytes are taken for a negative
  number, nothing is sent, and the result is negative. The loop sends as much as the int says
  (`Streams.SocketStream.WriteFixSize`, `Streams.SocketStream.WriteFixBuffer`).
- seaice/timer.cpp:83-92: a one-shot timer that is added again after it was delivered is delivered again; the bound is
  once per add, and it is reached for every number of adds (`TimerSpec.DeliveredAtMost`, `TimerSpec.ReaddedFires`).
- seaice/timer.cpp:41-45: `refresh` writes the new expiry of a cyclic timer, and when the timer was added while a
  sweeper had it, it is in the set at that moment: periods of 10 and 15, swept at 11, the first one added again. The
  order that `std::set` relies on is kept by a step if and only if it renews no timer in the set past another one, and
  in every run all the time if and only if no step does (`TimerRuns.StepOrdered`, `TimerRuns.OrderedExactly`,
  `TimerRuns.CarelessUnorders`, `TimerRuns.CarelessUnordersLate`, `TimerRuns.OrderIsNotForAll`).
- seaice/timer.cpp:83-92: such a timer is in the set and with a sweeper at once, and can be delivered twice in its
  first period. In every run each cyclic timer is in one place only if and only if no such add is made, and then each
  keeps its pace (`TimerRuns.OnePlaceExactly`, `TimerRuns.PeriodicAtMost`, `TimerRuns.CarelessHurries`,
  `TimerRuns.PaceIsNotForAll`).
- seaice/timer.cpp:107-118: the time to the first expiry goes through an int, so a timer that is 2^31 milliseconds
  away gives a wait of 0. The wait ends with the first expiry if and only if that is at most 2^31 - 1 milliseconds
  away (`Timers.TimerManager.GetRecentTimeout`).

## Left out

- Locks: each locked section is one step or one method, and data races on fields that are read without a lock are not
  modelled.
- Memory exhaustion: allocation always succeeds, and a string read never asks for more memory than there is.
- Unused by the results: `writeFloat`, `writeDouble` and their readers, `writeToFile`, `readFromFile`, `setSize`,
  `toHexString`, and `getReadBuffers` at a position.
- zlib: gzip and gunzip are parameters. They are assumed to invert each other, and gzipped data to start with the byte
  that section 2.3.1 of RFC 1952 says. The chunked loops of `zlib_stream.cpp` are not part of this model.
- Payloads of 2^31 bytes and more arrive as a failed transfer; those of 2^32 bytes and more are not modelled.
- Rock connections: the sender stops at the first failed transfer, whereas `runWrite` logs it and goes on; requests
  that wait for a response by their number, and timeouts of those, are not modelled.
- Peers: a socket moves any number of bytes of each transfer or fails, but neither loses nor reorders what it has
  moved; `isConnected` does not change during a call.
- Keys of the caches are integers, which stand for any totally ordered type whose order agrees with its equality.
- HashTimedLru.HashTimedLruCache.All: not what `checkTimeout` returns, a sum whose variable starts uninitialised.
- `setMaxSize` of the shards rounds down before it rounds up, and `expired` calls a member that does not exist. The
  statistics of `CacheStatus` are left out.
- Rock.CompressibleIsLost: the codec of its frame is made for it, since what zlib makes of a message is a parameter;
  `Rock.ShrunkIsLost` holds for every codec.
- Time: clocks do not go back, and expiry times do not wrap around in 64 bits; in the caches the sum of two times
  does.
- Timers.TimerManager.NewTimer: an address is not used again for a later timer. Several workers sweeping at once are
  steps of `TimerSpec`; the loop of the class is one of them at a time.
- Timers: `cancel` sets its two flags in one step, and a refresh and the add behind it are one step.
- IOManagers.IOManager.constructor: the kernel watches no descriptor but those with a context. The constructor also
  registers one end of its tick pipe (seaice/iomanager.cpp:61-66), whose entry is not modelled, and neither is the
  wake-up through it; the scheduler that `addEvent` stores with a waiter is `getThis()`, which is assumed not to be
  null.
- IOManagers.IOManager.CancelEvent: nothing is said of the manager when the assertion fails.
- IOManagers.IOManager.AddEvent: the bits of a mask are a set; a mask with other bits than READ and WRITE is passed on
  to the kernel as it is.
- Scheduler: one worker. Fibers that move between threads, `stop`, and the caller's thread as a worker are not
  modelled, nor that a callback's fiber which is queued twice can be resumed before its second wake-up.
- `WorkerManager` and the configuration of groups are not modelled.
- Ipv6.Insert: the hexadecimal digits of a group and the port are not modelled, only where groups and colons go;
  `Expand` is section 2.2 of RFC 4291 without embedded IPv4 addresses.
