# Verified models of the vendored Android system libraries

The repository carries several small pieces of system code whose correctness is
decided by arithmetic, by an interleaving, or by an invariant over a whole run.
Each is modelled here in its own Dafny module, with the operations in the shape
the C and C++ code has and the properties they are relied on for as theorems.

| file | what it models |
|---|---|
| `LinearTransform.dfy` | the 96-by-32-bit multiply-divide, the signed affine timeline map built on it, and Euclid's reduction of its ratio |
| `LooperProtocol.dfy` | the message queue, the cached deadline, the wake pipe and the lock as interleaved steps of one looper thread and any number of senders and removers |
| `Looper.dfy` | each of those steps as a method of a class that updates the looper's fields, and the descriptors, responses and callbacks of a poll |
| `LogMerge.dfy` | the kernel log reader on values: per-log queues, oldest-first merge, tail trimming, poll results, errors, runs of calls |
| `LogReader.dfy` | the same reader as a class updated in place by the loops of the source |
| `CircularList.dfy` | the intrusive doubly linked ring of the C headers, on the heap |
| `PropertySeqlock.dfy` | the shared property area as a seqlock of byte-sized steps, and the publication and lookup of properties by name |
| `Hashmap.dfy` | the chained hash map with resizing, against a mathematical map |
| `StrParms.dfy` | the `key=value;key=value` parser and printer on top of that map |
| `BinaryEvent.dfy` | the recursive printer of binary log events into a bounded buffer, against an event tree |
| `Utf.dfy` | UTF-8 and UTF-16 as their standards define them, which the converters are compared with |
| `ModifiedUtf8.dfy` | Java's modified UTF-8 in both directions and its length pre-passes |
| `Unicode.dfy` | UTF-16 to UTF-8 and back, with the length functions |
| `RecordStream.dfy` | length-prefixed records over reads of any size |
| `LogLine.dfy` | the layout of a log entry into prefixed and suffixed lines |
| `Wrappers.dfy` | the optional value the other modules share |
| `Bits.dfy` | machine words, two's complement conversions and bitwise operators on integers |

Where the source changes fields or buffers step by step there is a class or a
method with loops, proved equal to a function or a step of a state machine; the
theorems are about that function or about all runs of the machine.  System
calls are parameters: what `read`, `poll`, `epoll_ctl` and the allocator answer
is an argument, for every value of which the theorems hold.

## Where the code and its promises differ

* `linear_transform_s64_to_s64` refuses some results that fit: `INT64_MIN`
  itself when the scaled distance needs 64 bits, and everything of that size
  when `basis2` is `INT64_MIN`.  `TransformExact` gives the exact condition,
  `RepresentableButRefused` two concrete inputs.
* `utf16_to_utf8_length` is smaller than what `utf16_to_utf8` writes, by four
  bytes for each low surrogate that directly follows an even number of high
  ones, because its test has already advanced past the first unit of a pair.
  `LengthFallsShort` gives the exact difference on every source,
  `EvenRunIsMissed` the smallest example.
* A looper message more than `INT_MAX - 1` milliseconds ahead sets no timer: a
  poll that may wait for ever then does, with the message queued and nothing on
  its way to the pipe (`FarMessageSleepsForever`); `TimeoutCoversDeadline` gives the
  exact condition.
* The header's rule for writing a value copies `value_len` bytes, while readers
  copy one more.  The writer in `property_service.c` copies that one too, and
  the model follows it: a read gets the value and its terminator.
* `str_parms_add_str` judges `hashmapPut` by `errno`.  A new pair that is stored
  in a map that then fails to grow is reported as `-ENOMEM`, and its key and
  value are freed while the map still holds them.  `AddStr` gives the exact
  condition, `FailedExpansion` a state in which it happens.
* The seqlock's counter has 24 bits and moves by two, so a read is protected
  against fewer than 2^23 writes; `TornReadAfterWrap` is a run with exactly 2^23
  that returns bytes never committed.
* The comment on `record_stream_get_next` speaks of a 16-bit length; the code
  reads 32 bits, and so does the model.  The branch commented as never happening
  is reached exactly when a record longer than the maximum fills the buffer
  (`RunHandsOutAll`), and never otherwise (`AssertionIsNotReached`).
* `strlen8to16` counts two units for every four-byte leader;
  `CountIsDecodePlusShortfall` says exactly when that is too many, and the two
  code points between the decoder's limit and U+10FFFF are among those cases
  (`BeyondLimitOverCounts`).
* `android_log_printBinaryEvent` reports success for a string met with no room
  at all, printing nothing; `PrintRenders` includes that case.
* In the process format a tag of more than 122 characters costs each line its
  newline (`ProcessLinesEnd`).

## Model

| member | source | states |
|---|---|---|
| `LinearTransforms.ScaleExact` | extlib/libutils/LinearTransform.cpp:29-110 | for every value, numerator, denominator and rounding: true exactly when floor or ceiling of val*N/D fits in 64 bits, and then that quotient, else all ones |
| `LinearTransforms.ProductExact` | extlib/libutils/LinearTransform.cpp:55-62 | the two 32-bit partial products form the 96-bit product; no 64-bit sum on the way wraps |
| `LinearTransforms.ScaleDivides` | extlib/libutils/LinearTransform.cpp:71-100 | the limb-by-limb division gives the quotient and remainder of the whole product |
| `LinearTransforms.TransformExact` | extlib/libutils/LinearTransform.cpp:112-185 | a returned value is floor((val-basis1)*num/den)+basis2 over unbounded integers, and one is returned exactly when that fits in 64 bits and is not one of the two refused corners |
| `LinearTransforms.RepresentableButRefused` | extlib/libutils/LinearTransform.cpp:150-158 | two inputs with representable images for which the transform fails |
| `LinearTransforms.DirectionsExact` | extlib/libutils/LinearTransform.cpp:187-211 | forward and reverse, each: nothing for a zero denominator or numerator, otherwise the ideal value exactly when it fits and is not refused |
| `LinearTransforms.ForwardTotal` | extlib/libutils/LinearTransform.cpp:187-198 | away from those corners the forward transform always succeeds with the ideal value |
| `LinearTransforms.ForwardMonotone` | extlib/libutils/LinearTransform.cpp:187-198 | a positive ratio preserves the order of times |
| `LinearTransforms.ForwardReverseError` | extlib/libutils/LinearTransform.cpp:187-211 | forward then reverse loses between 0 and ceil((D-1)/N), so nothing or one when N >= D |
| `LinearTransforms.Reduce` | extlib/libutils/LinearTransform.cpp:213-248 | Euclid's loop ends with the same fraction in lowest terms |
| `LinearTransforms.ReduceSigned` | extlib/libutils/LinearTransform.cpp:253-263 | the signed overload does so for every int32_t numerator, INT32_MIN included, and keeps its sign |
| `LinearTransforms.EuclidStep` | extlib/libutils/LinearTransform.cpp:235-247 | one step of the loop keeps exactly the common divisors |
| `LinearTransforms.ReducePreservesTransforms` | extlib/libutils/LinearTransform.cpp:187-263 | forward and reverse give the same outcome with the reduced ratio, on every input |
| `LooperProtocol.NoLostWakeup` | extlib/libutils/Looper.cpp:251-376 | in every run, outside the locked section with a message queued: the cached deadline covers the head, or the pipe is not empty, or a sender has yet to write to it |
| `LooperProtocol.ConservationAndOrder` | extlib/libutils/Looper.cpp:344-376 | in every run each sent message is in exactly one of queued, handled and removed; the queue is by uptime and then send order; nothing is handled early or out of order |
| `LooperProtocol.HandsOutTheMinimum` | extlib/libutils/Looper.cpp:345-367 | what is dispatched is due and precedes everything left in the queue |
| `LooperProtocol.DueHeadIsHandedOut` | extlib/libutils/Looper.cpp:345-373 | in every run a turn of the dispatch loop hands out a due head; otherwise it leaves the queue alone, notes the head's deadline or that there is none, and releases the lock |
| `LooperProtocol.DueMessagesAreHandled` | extlib/libutils/Looper.cpp:251-376 | progress: from every reachable state outside the locked section, one poll hands out all messages that are due, in order, and notes the deadline of the next |
| `LooperProtocol.SentIsQueued` | extlib/libutils/Looper.cpp:592-623 | in every run a send puts just its message into the queue, and owes a wake exactly if that is the new head and no handler runs |
| `LooperProtocol.RemovedAreGone` | extlib/libutils/Looper.cpp:627-664 | in every run a removal takes out exactly the messages of that handler, or of that handler and code |
| `LooperProtocol.WakeStaysUntilRead` | extlib/libutils/Looper.cpp:438-468 | a wake makes a poll able to return, and only the looper's reads of the pipe undo that |
| `LooperProtocol.WokenPollEmptiesPipe` | extlib/libutils/Looper.cpp:456-468 | a woken poll empties the pipe in reads of sixteen bytes and goes on to dispatch |
| `LooperProtocol.StepKeepsInv` | extlib/libutils/Looper.cpp:251-376 | every step of the looper, a sender or a remover keeps the invariant behind the three statements above |
| `LooperProtocol.RunKeepsInv` | extlib/libutils/Looper.cpp:251-376 | so does every run |
| `LooperProtocol.InsertSorted` | extlib/libutils/Looper.cpp:600-613 | insertion keeps the queue sorted, adds just the message, and replaces the head only at index 0 |
| `LooperProtocol.KeptFacts` | extlib/libutils/Looper.cpp:636-663 | removal takes out exactly the selected messages |
| `LooperProtocol.KeptSorted` | extlib/libutils/Looper.cpp:636-663 | and leaves the rest in order with no earlier head |
| `LooperProtocol.DelayBounds` | extlib/libutils/Timers.cpp:63-77 | the delay in milliseconds is never early and less than one millisecond late, or -1 beyond INT_MAX - 1 milliseconds |
| `LooperProtocol.TimeoutCoversDeadline` | extlib/libutils/Looper.cpp:257-264 | the poll timeout covers the cached deadline exactly when that is set and near enough, and never exceeds the caller's |
| `LooperProtocol.TimeoutIsNotEarly` | extlib/libutils/Looper.cpp:257-264 | a timeout other than the caller's lasts until the cached deadline; 0 stays 0, and without a deadline the caller's timeout is used |
| `LooperProtocol.TimeoutIsEnough` | extlib/libutils/Looper.cpp:257-264 | with any caller's timeout, a cached deadline no later than the head and a head that is near enough, the timeout covers the head |
| `LooperProtocol.SleepsNoLongerThanHead` | extlib/libutils/Looper.cpp:251-376 | in every run, for a poll in progress with no wakeup under way: the timer is set for the head or earlier if that is within INT_MAX - 1 milliseconds; it never exceeds a caller's timeout; without one there is no timer exactly if the cached deadline is unset or beyond that limit |
| `LooperProtocol.FarMessageSleepsForever` | extlib/looper/Looper.cpp:43-57 | a run in which a message too far ahead leaves the looper asleep without a timer |
| `Loopers.Looper.SendMessageAtTime` | extlib/libutils/Looper.cpp:592-623 | the insertion loop is one Send step, and tells the caller to wake exactly when the step adds a pending wake |
| `Loopers.Looper.RemoveMessages` | extlib/libutils/Looper.cpp:627-664 | the backwards loop of both overloads is one removal step |
| `Loopers.Looper.AdjustTimeout` | extlib/libutils/Looper.cpp:257-275 | the timeout computed before epoll_wait is the protocol's, and the responses are cleared |
| `Loopers.Looper.PollReturned` | extlib/libutils/Looper.cpp:281-283 | the return of epoll_wait is one PollReturns step |
| `Loopers.Looper.Lock` | extlib/libutils/Looper.cpp:285-344 | taking the lock is one TakeLock step, on to the pipe or to the dispatch loop |
| `Loopers.Looper.ReadWakePipe` | extlib/libutils/Looper.cpp:456-468 | one read of the pipe is one draining step; when the loop ends the pipe is empty |
| `Loopers.Looper.NextMessage` | extlib/libutils/Looper.cpp:344-376 | one turn of the dispatch loop is one Dispatch step |
| `Loopers.Looper.WakeAfterSend` | extlib/libutils/Looper.cpp:438-454 | a wake is one write to the pipe, lost only when that is full |
| `Loopers.Looper.AddFd` | extlib/libutils/Looper.cpp:489-547 | both results and the exact new registration, or nothing changed; a callback and a reportable identifier exclude each other |
| `Loopers.Looper.RemoveFd` | extlib/libutils/Looper.cpp:551-573 | all three results and the exact new registration |
| `Loopers.Looper.CollectResponses` | extlib/libutils/Looper.cpp:310-339 | the responses are those of the registered descriptors, in order |
| `Loopers.Looper.InvokeCallbacks` | extlib/libutils/Looper.cpp:379-403 | each callback response is called once, in order, and the registrations afterwards are those the changes made by callbacks and other threads, and the removals after a result of 0, leave in that order |
| `Loopers.UnregisteredStaysGone` | extlib/libutils/Looper.cpp:393-396 | a descriptor whose callback returned 0 and could be removed is gone, even if that callback registered it anew, until somebody registers it again later |
| `Loopers.QuietCallbacks` | extlib/libutils/Looper.cpp:379-403 | if nobody else changes registrations, a descriptor is gone exactly when its callback returned 0 and it could be removed, and the others are as they were |
| `Loopers.Looper.NextReported` | extlib/libutils/Looper.cpp:203-230 | the next response with an identifier, or none exactly when none is left |
| `Loopers.ReportedOrCalled` | extlib/libutils/Looper.cpp:203-230 | every response is either reported to the caller or called back, never both |
| `Loopers.EpollEventsRoundTrip` | extlib/libutils/Looper.cpp:510-512 | what is asked of a descriptor is what epoll is asked for, and comes back under the same names |
| `Loopers.EventsReported` | extlib/libutils/Looper.cpp:324-332 | each of the four conditions is reported exactly if epoll reported it |
| `Loopers.ResponseInPlace` | extlib/libutils/Looper.cpp:310-339 | an event gives its response, in its place, exactly if its descriptor is registered |
| `Loopers.CallInPlace` | extlib/libutils/Looper.cpp:379-403 | a response calls its callback, in its place, exactly if it has one |
| `LogMerge.TailKeepsNewest` | extlib/liblog/log_read_kern.c:401-726 | after any calls over any arrivals, poll results and errors: nothing lost or duplicated, the line count right, the delivered entries are the messages the calls returned, and those returned before the tail limit was lifted are the newest min(tail, total) of the entries queued by then, in time order |
| `LogMerge.ReadReturns` | extlib/liblog/log_read_kern.c:502-726 | a call delivers just the message it returns, if it returns one |
| `LogMerge.CallsReturn` | extlib/liblog/log_read_kern.c:502-726 | a run of calls delivers just the messages it returns, in order |
| `LogMerge.CallsTakeWanted` | extlib/liblog/log_read_kern.c:502-726 | over any run of calls, what is accepted is, of every pass over the logs, each packet of a wanted pid that is whole, once and in the order of reading, and nothing else |
| `LogMerge.ReturnedHavePid` | extlib/liblog/log_read_kern.c:627-630 | with a pid given, every message the calls return is of that process |
| `LogMerge.PassTakesWanted` | extlib/liblog/log_read_kern.c:605-684 | the same of one pass, and its error is the last one met |
| `LogMerge.PassFillsQueues` | extlib/liblog/log_read_kern.c:671-683 | each log's wanted packets go to the end of its own queue |
| `LogMerge.SingleLogDeliversAtOnce` | extlib/liblog/log_read_kern.c:662-669 | without a tail limit a single log's wanted packet is delivered at once, past the queue |
| `LogMerge.AcceptedIffWhole` | extlib/liblog/log_read_kern.c:632-660 | the checks in the code's integer widths accept exactly the packets whose header and length match the byte count and fit, and stamp them with version 3 and their log |
| `LogMerge.NextCallEnds` | extlib/liblog/log_read_kern.c:502-726 | after any run of calls, the next returns an error only when every accepted message has been delivered, then always the first error there was; and it waits without end only with nothing queued |
| `LogMerge.PollStepDrains` | extlib/liblog/log_read_kern.c:560-690 | a timeout or failure of poll delivers what is queued; when a call goes on waiting nothing is queued that should have been delivered |
| `LogMerge.PushbackFeedsTheShort` | extlib/liblog/log_read_kern.c:581-603 | input is held back only, and then always, from logs with two or more entries while more than half the threshold is queued and a shorter log has input, never from all logs |
| `LogMerge.NewestIsUnique` | extlib/liblog/log_read_kern.c:412-491 | the timestamps delivered do not depend on how ties were cut |
| `LogMerge.FirstLoggerIsOldest` | extlib/liblog/log_read_kern.c:412-447 | the merge picks an entry older than or as old as every queued one |
| `LogMerge.FirstOfTheOldest` | extlib/liblog/log_read_kern.c:421-431 | of equally old entries of a log the one queued first is picked |
| `LogMerge.FirstOfTheLogs` | extlib/liblog/log_read_kern.c:440-446 | of logs with equally old entries the first is picked |
| `LogMerge.FlushKeepsInv` | extlib/liblog/log_read_kern.c:401-499 | one flush keeps the invariant; when flushing it delivers if anything is queued, and lifts the limit exactly when nothing is |
| `LogMerge.FlushDelivers` | extlib/liblog/log_read_kern.c:401-499 | a delivered message is no newer than any left, none is delivered early under a tail limit, no more is kept than the limit and the thresholds allow, and trimming leaves tail entries |
| `LogMerge.TrimKeepsInv` | extlib/liblog/log_read_kern.c:453-491 | trimming the oldest of more than tail entries leaves, for every trimmed entry, tail others that are not older |
| `LogMerge.DeliverKeepsInv` | extlib/liblog/log_read_kern.c:460-491 | delivering while flushing keeps the delivered entries sorted and older than the queued |
| `LogMerge.AcceptPromotes` | extlib/liblog/log_read_kern.c:632-660 | an accepted packet has a promoted header and its own length; promoting again changes nothing |
| `LogMerge.ReadKeepsInv` | extlib/liblog/log_read_kern.c:502-726 | one call keeps the invariant for every schedule of poll results |
| `LogMerge.CallsKeepInv` | extlib/liblog/log_read_kern.c:502-726 | so does every run of calls |
| `LogReader.LoggerList.PickOldest` | extlib/liblog/log_read_kern.c:412-447 | the nested loops find the log and entry of the specification, and whether a queue is low |
| `LogReader.LoggerList.FlushList` | extlib/liblog/log_read_kern.c:401-499 | the loop in place is the flush of the specification |
| `LogReader.LoggerList.PushBackReady` | extlib/liblog/log_read_kern.c:581-603 | input of queues that are not low is masked exactly when a low one has input and the queues are half full |
| `LogReader.LoggerList.ReadOne` | extlib/liblog/log_read_kern.c:605-684 | one read, its checks, its enqueueing or direct delivery and its error |
| `LogReader.LoggerList.ReadReady` | extlib/liblog/log_read_kern.c:605-684 | the pass over the ready logs |
| `LogReader.LoggerList.FinishRead` | extlib/liblog/log_read_kern.c:694-725 | a message takes precedence over an error, which is kept for the next call |
| `LogReader.LoggerList.PollOnce` | extlib/liblog/log_read_kern.c:560-690 | one iteration on what poll returned, with its flush, is one step of the specification |
| `LogReader.LoggerList.ReadList` | extlib/liblog/log_read_kern.c:502-726 | the whole call is the read of the specification |
| `CircularList.AddTail` | inc/cutils/list.h:42-48 | the ring gains the item at its end |
| `CircularList.AddHead` | inc/cutils/list.h:50-56 | the ring gains the item after its head |
| `CircularList.Remove` | inc/cutils/list.h:58-62 | the ring loses just the item, whose own links stay |
| `CircularList.ForEach` | inc/cutils/list.h:25-26 | the walk meets every item once, in order, and ends |
| `CircularList.LowQueueMeansFewerThanTwo` | extlib/liblog/log_read_kern.c:394-398 | head and tail agree exactly when the ring has fewer than two items |
| `CircularList.RingIsDetermined` | inc/cutils/list.h:25-62 | the links alone fix the order of a ring |
| `PropertySeqlock.ReadReturnsCommittedValue` | extlib/libcutils/system_properties.c:126-145 | in every run, a read that returns while fewer than 2^23 writes complete got the length, the bytes and the terminator of one committed value, current at both loads of the serial |
| `PropertySeqlock.TornReadAfterWrap` | src/init/property_service.c:184-190 | a run with exactly 2^23 writes whose read mixes two values, and so returns bytes equal to no committed value when the two differ in both bytes |
| `PropertySeqlock.ReadGetsLastValue` | extlib/libcutils/system_properties.c:126-145 | progress: from every reachable state with an idle writer, a new read can run and returns the last committed value and its terminator |
| `PropertySeqlock.WriteThenRead` | src/init/property_service.c:184-190 | from every such state, what is written is what the next read returns |
| `PropertySeqlock.WriterFinishes` | src/init/property_service.c:184-190 | a write under way can always be completed and commits its value |
| `PropertySeqlock.ReaderFinishes` | extlib/libcutils/system_properties.c:136-144 | a read under way ends: with the copied bytes if the serial has not moved, otherwise it starts over |
| `PropertySeqlock.SameSerial` | src/init/property_service.c:184-190 | two commits publish one serial exactly when lengths agree and 2^23 divides the writes between |
| `PropertySeqlock.StepKeepsInv` | src/init/property_service.c:184-190 | every load, store and byte copy keeps the invariant of writer and readers |
| `PropertySeqlock.RunKeepsInv` | inc/init/_system_properties.h:52-68 | so does every run |
| `PropertySeqlock.PublishedSerial` | src/init/property_service.c:184-190 | a write ends by publishing the length and the counter moved on by two, modulo 2^24 |
| `PropertySeqlock.PublishAddsJustOne` | src/init/property_service.c:348-362 | a new property keeps the area well formed, is listed under its name at its own place, and moves no other property |
| `PropertySeqlock.Find` | extlib/libcutils/system_properties.c:105-124 | over a well-formed area, the first listed property of exactly that name, and none exactly when there is none |
| `Hashmaps.IndexIsModulo` | extlib/libcutils/hashmap.c:97-99 | masking by bucketCount - 1 is the remainder, also of a negative hash |
| `Hashmaps.EqualKeysIsEquals` | extlib/libcutils/hashmap.c:178-187 | the shortcuts by pointer and hash decide the callback's equality |
| `Hashmaps.RehashKeepsEntries` | extlib/libcutils/hashmap.c:101-130 | rehashing keeps every entry, the count, the placement and the map |
| `Hashmaps.NoEqualKeys` | extlib/libcutils/hashmap.c:189-219 | two different places never hold equal keys |
| `Hashmaps.LookUp` | extlib/libcutils/hashmap.c:221-234 | the walk of one chain decides whether the map has an equal key, and gives its value |
| `Hashmaps.FlatEnumerates` | extlib/libcutils/hashmap.c:306-320 | the buckets in order list each pair of the map once |
| `Hashmaps.DoublingMakesRoom` | extlib/libcutils/hashmap.c:102-105 | doubling the buckets makes room for the entry that exceeded the limit |
| `Hashmaps.LoadIsThreeQuarters` | extlib/libcutils/hashmap.c:102-103 | within the limit means at most three entries for every four buckets |
| `Hashmaps.Hashmap.constructor` | extlib/libcutils/hashmap.c:43-75 | an empty map over the least power of two above a third of the 64-bit product of four and the capacity; no shift leaves 64 bits |
| `Hashmaps.Hashmap.MoveEntries` | extlib/libcutils/hashmap.c:112-123 | the nested loops move every entry to the front of its new chain |
| `Hashmaps.Hashmap.ExpandIfNecessary` | extlib/libcutils/hashmap.c:101-130 | keeps the map; the buckets double exactly when the limit is exceeded and the allocation succeeds, and errno is set exactly when it is exceeded and fails |
| `Hashmaps.Hashmap.FindEntry` | extlib/libcutils/hashmap.c:221-232 | the walk stops at the entry with an equal key, or at the end exactly when there is none |
| `Hashmaps.Hashmap.Put` | extlib/libcutils/hashmap.c:189-219 | the previous value and the updated map, or a new pair, or nothing; errno is ENOMEM exactly when a new entry, or the expansion after it, cannot be allocated; the load limit holds if that succeeds |
| `Hashmaps.Hashmap.Get` | extlib/libcutils/hashmap.c:221-234 | the value of an equal key, none exactly when there is none |
| `Hashmaps.Hashmap.ContainsKey` | extlib/libcutils/hashmap.c:236-249 | true exactly when an equal key is stored |
| `Hashmaps.Hashmap.Memoize` | extlib/libcutils/hashmap.c:251-282 | a stored value is returned and nothing changes; otherwise the initial value is stored, or nothing without memory; errno as for put |
| `Hashmaps.Hashmap.Remove` | extlib/libcutils/hashmap.c:284-304 | the equal key alone is removed, and only its chain changes |
| `Hashmaps.Hashmap.ForEach` | extlib/libcutils/hashmap.c:306-320 | up to the entry at which the callback stops the walk, pairs of the map are visited in bucket order, each once; all of them if it never stops |
| `Hashmaps.UntilIsPrefix` | extlib/libcutils/hashmap.c:306-320 | a walk goes on at all entries but its last, and is cut short only by the callback |
| `Hashmaps.Hashmap.RemoveEach` | extlib/libcutils/hashmap.c:306-320 | with a callback that removes its entry every entry is still visited once, and the map ends up empty |
| `StrParms.ParsePrint` | extlib/libcutils/str_parms.c:129-191 | parsing what was printed from pairs in any order, with repeats, gives the map of the pairs |
| `StrParms.TokensSplit` | extlib/libcutils/str_parms.c:147-177 | a ';' separates the tokens before it from those after it |
| `StrParms.TokenShapes` | extlib/libcutils/str_parms.c:147-178 | what each shape of token adds to what was parsed before it: a pair, a bare key with an empty value, nothing for an empty key, nothing for no token |
| `StrParms.EnumerationIsMap` | extlib/libcutils/str_parms.c:339-348 | an enumeration of a map's pairs in any order rebuilds the map |
| `StrParms.ParsedIsPrintable` | extlib/libcutils/str_parms.c:147-178 | whatever was parsed can be printed and parsed back |
| `StrParms.StrParms.FillFrom` | extlib/libcutils/str_parms.c:129-191 | the tokenising loop fills the map with the parse of the string, whose meaning TokenShapes gives token by token |
| `StrParms.StrParms.AddStr` | extlib/libcutils/str_parms.c:193-236 | 0 exactly if both copies are made and the key is replaced or newly stored without a failed expansion; what the map then holds in every case; and the one case in which the strings it holds have been freed |
| `StrParms.StrParms.FailedExpansion` | extlib/libcutils/str_parms.c:215-235 | parameters filled to the limit, and a further pair that is stored, freed and reported as -ENOMEM |
| `StrParms.StrParms.GetStr` | extlib/libcutils/str_parms.c:269-279 | the value cut to the room with its terminator and full length, or -ENOENT exactly when the key is absent and nothing written |
| `StrParms.StrParms.CombineStrings` | extlib/libcutils/str_parms.c:316-337 | the callback over a walk builds the printed string |
| `StrParms.StrParms.ToStr` | extlib/libcutils/str_parms.c:339-348 | whatever the bucket order, the printed string parses back to the same parameters |
| `StrParms.StrParms.DelAll` | extlib/libcutils/str_parms.c:79-127 | removal without a key empties the map |
| `StrParms.StrParms.Del` | extlib/libcutils/str_parms.c:79-116 | the walk stops at the key, which alone is taken out |
| `BinaryEvents.PrintRenders` | extlib/liblog/logprint.c:390-538 | on data that parse to an event, success exactly when the rendering fits and then just that rendering, otherwise a stop on a prefix, which of a string fills the room and of a number is empty; on data that do not parse, never success |
| `BinaryEvents.PrintItemsRenders` | extlib/liblog/logprint.c:486-521 | the same for the items of a list with their commas and closing bracket |
| `BinaryEvents.EnoughRoom` | extlib/liblog/logprint.c:390-538 | with more than three bytes of room for each byte of data the result is 0 or -1, and -1 exactly if the data do not parse |
| `BinaryEvents.Notation` | extlib/liblog/logprint.c:486-521 | brackets, commas and minus signs stand where they should |
| `BinaryEvents.SmallerRoomIsPrefix` | extlib/liblog/logprint.c:390-538 | a smaller buffer gets a prefix of what a larger one gets, on any data |
| `BinaryEvents.Get4LEIsSum` | extlib/liblog/logprint.c:361-364 | the ORed shifts are the little-endian value |
| `BinaryEvents.Get8LEIsSum` | extlib/liblog/logprint.c:369-376 | and for eight bytes |
| `BinaryEvents.ParseEncode` | extlib/liblog/logprint.c:401-526 | the parser inverts the byte layout of the log, for every event tree |
| `BinaryEvents.Tags` | extlib/liblog/logprint.c:408-523 | the first byte tells the four kinds of event apart |
| `BinaryEvents.DigitsDenote` | extlib/liblog/logprint.c:408-446 | the decimal text denotes the number, without leading zeros |
| `BinaryEvents.PrintBinaryEvent` | extlib/liblog/logprint.c:390-538 | the recursive printer writes only within its room and advances both cursors by what the specification says |
| `BinaryEvents.PrintList` | extlib/liblog/logprint.c:499-520 | so does the loop over the items of a list |
| `BinaryEvents.ProcessBinaryLogBuffer` | extlib/liblog/logprint.c:548-643 | for every payload and any buffer the code does not overrun: tag, message, '!' mark, terminator and leftover count |
| `BinaryEvents.ProcessedMessage` | extlib/liblog/logprint.c:600-642 | the message is the whole rendering if that fits, else a prefix of it marked with '!' |
| `BinaryEvents.GeneratedTagText` | extlib/liblog/logprint.c:584-594 | a generated tag is the tag number as a signed word in brackets |
| `ModifiedUtf8.DecodeEncode` | extlib/libcutils/strdup16to8.c:107-137 | decoding inverts encoding on every unit sequence, zeros and unpaired surrogates included, and strlen8to16 is then exact |
| `ModifiedUtf8.EncodeUnitIsUtf8` | extlib/libcutils/strdup16to8.c:107-137 | zero is encoded as c0 80 and every other unit as its UTF-8 by section 3 of RFC 3629 |
| `ModifiedUtf8.EncodeHasNoZero` | extlib/libcutils/strdup16to8.c:107-137 | no byte before the terminator is zero |
| `ModifiedUtf8.Strnlen16to8` | extlib/libcutils/strdup16to8.c:29-92 | the length of the encoding, held down to SIZE_MAX - 1 when it does not fit |
| `ModifiedUtf8.Strncpy16to8` | extlib/libcutils/strdup16to8.c:107-137 | the encoding, its terminator, and nothing beyond |
| `ModifiedUtf8.CountIsDecodePlusShortfall` | extlib/libcutils/strdup8to16.c:68-99 | on any bytes the count is what the decoder writes plus one for each four-byte leader that gives one unit |
| `ModifiedUtf8.Strlen8to16` | extlib/libcutils/strdup8to16.c:68-99 | never fewer than the units written, and equal exactly without such leaders |
| `ModifiedUtf8.GetUtf32FromUtf8` | extlib/libcutils/strdup8to16.c:112-143 | the loop gives the code point and the bytes of the specification |
| `ModifiedUtf8.Strcpy8to16` | extlib/libcutils/strdup8to16.c:151-177 | strlen8to16 units of room are enough for any bytes, and hold the decoding |
| `ModifiedUtf8.WellFormedIsExact` | extlib/libcutils/strdup8to16.c:68-177 | on well-formed UTF-8 up to U+10FFFD the decoder gives its UTF-16 as RFC 2781 defines it, and the count is exact |
| `ModifiedUtf8.UnitsAreUtf16` | extlib/libcutils/strdup8to16.c:161-171 | a code point above U+FFFF gives a high surrogate and then a low one that stand for it |
| `ModifiedUtf8.MalformedIsReplaced` | extlib/libcutils/strdup8to16.c:112-143 | a stray extension byte is replaced, and a sequence cut short is, up to the byte that does not belong to it |
| `ModifiedUtf8.SeqLengthTable` | extlib/libcutils/strdup8to16.c:30 | the packed word gives the length by the leading bits, 4 for everything from f0 up |
| `ModifiedUtf8.BeyondLimitOverCounts` | extlib/libcutils/strdup8to16.c:161-171 | U+10FFFE is replaced and counted one too many |
| `Unicode.RoundTripIffWellFormed` | extlib/libutils/Unicode.cpp:333-570 | UTF-16 to UTF-8 to UTF-16 is the identity on exactly the well-formed sources, whose length is counted exactly |
| `Unicode.DecodeEncode` | extlib/libutils/Unicode.cpp:333-358 | on any source the round trip drops just the unpaired surrogates, and what was written is well-formed by section 4 of RFC 3629 |
| `Unicode.EncodeDecode` | extlib/libutils/Unicode.cpp:546-570 | all well-formed UTF-8 survives the trip through UTF-16, which is well formed |
| `Unicode.LengthFallsShort` | extlib/libutils/Unicode.cpp:407-426 | the exact difference between the length function and the bytes written |
| `Unicode.EvenRunIsMissed` | extlib/libutils/Unicode.cpp:407-426 | a source of three units counted as 0 bytes and written as 4 |
| `Unicode.Utf16ToUtf8Length` | extlib/libutils/Unicode.cpp:407-426 | -1 for an empty source, otherwise the bytes written less four per missed pair |
| `Unicode.Utf16ToUtf8` | extlib/libutils/Unicode.cpp:333-358 | the encoding, its terminator, and nothing beyond; nothing at all for an empty source |
| `Unicode.CodepointToUtf8` | extlib/libutils/Unicode.cpp:105-115 | the backward fall-through writes the bytes of the code point in order, and nothing beyond |
| `Unicode.Utf8ToUtf16Length` | extlib/libutils/Unicode.cpp:520-544 | exactly the units written, or -1 precisely when the last character is cut short |
| `Unicode.Utf8ToUtf16NoNullTerminator` | extlib/libutils/Unicode.cpp:546-570 | the decoding and nothing beyond |
| `Unicode.Utf8ToUtf16` | extlib/libutils/Unicode.cpp:572-575 | the decoding and its terminator |
| `Unicode.NothingReadBeyond` | extlib/libutils/Unicode.cpp:520-570 | once the length function has accepted the bytes, none after them is looked at |
| `Unicode.CodeComesBack` | extlib/libutils/Unicode.cpp:490-518 | the bytes of a code point are one valid character that decodes to it |
| `Unicode.CharComesBack` | extlib/libutils/Unicode.cpp:490-518 | every valid character decodes to a code point with just those bytes |
| `Unicode.CodeBytesAreUtf8` | extlib/libutils/Unicode.cpp:79-115 | the bytes written for a code point are those section 3 of RFC 3629 gives |
| `Unicode.UnitsAreUtf16` | extlib/libutils/Unicode.cpp:546-570 | the units written for a code point are those section 2.1 of RFC 2781 gives |
| `Unicode.PairCodeIsUtf16` | extlib/libutils/Unicode.cpp:344-351 | a surrogate pair is read as the code point section 2.2 of RFC 2781 gives |
| `Unicode.JoinedBits` | extlib/libutils/Unicode.cpp:442-518 | any bytes, well-formed or not, are read as the sums of their low bits |
| `RecordStreams.RunHandsOutAPrefix` | extlib/libcutils/record_stream.c:127-186 | whatever sizes the reads come in, the records returned are the first of the stream's and no byte is lost or duplicated |
| `RecordStreams.RunHandsOutAll` | extlib/libcutils/record_stream.c:127-186 | a long enough run without read errors returns every record and then stops, in the asserted branch exactly if what follows fills the buffer |
| `RecordStreams.FramedArrive` | extlib/libcutils/record_stream.c:114-186 | records a sender framed, each at most the maximum, all arrive, in order |
| `RecordStreams.AssertionIsNotReached` | extlib/libcutils/record_stream.c:142-151 | no run reaches the assertion while no announced length exceeds the maximum |
| `RecordStreams.RecordsOfFramed` | extlib/libcutils/record_stream.c:73-93 | framing and then splitting gives the records back |
| `RecordStreams.StepReports` | extlib/libcutils/record_stream.c:127-186 | what each outcome means: failure exactly if read failed, end exactly if it had nothing left, and neither changes anything |
| `RecordStreams.FrameLenIsBigEndian` | extlib/libcutils/record_stream.c:84-85 | the length is big-endian |
| `RecordStreams.RecordStream.GetEndOfRecord` | extlib/libcutils/record_stream.c:73-93 | the end of the first record, -1 exactly when it is not all there |
| `RecordStreams.RecordStream.GetNextRecord` | extlib/libcutils/record_stream.c:95-112 | the first buffered record is consumed, or nothing |
| `RecordStreams.RecordStream.GetNext` | extlib/libcutils/record_stream.c:127-186 | one call is one step of the model; read is always asked for at least one byte |
| `RecordStreams.RecordStream.Compact` | extlib/libcutils/record_stream.c:153-164 | what is left moves to the beginning unchanged |
| `LogLines.FormatLogLine` | extlib/liblog/logprint.c:749-836 | the text laid out, its length and terminator, always within the computed size; which buffer is returned |
| `LogLines.LinesAreTheMessage` | extlib/liblog/logprint.c:767-781 | the lines are the message cut at its newlines, as many as the counting loop says |
| `LogLines.SizeIsEnough` | extlib/liblog/logprint.c:783-785 | the computed size is the text, its terminator, and one for every newline replaced |
| `LogLines.LineInPlace` | extlib/liblog/logprint.c:810-828 | every line stands between its own prefix and suffix, after the lines before it |
| `LogLines.LayoutParts` | extlib/liblog/logprint.c:802-808 | the long format is header, message and footer |
| `LogLines.CountLines` | extlib/liblog/logprint.c:770-781 | the counting loop finds as many lines as the emitting loop writes |
| `LogLines.EmitLines` | extlib/liblog/logprint.c:810-828 | the emitting loop writes each line in its prefix and suffix, in order |
| `LogLines.RawIsTheMessage` | extlib/liblog/logprint.c:712-717 | the raw format gives the message back with its last line terminated |
| `LogLines.ProcessLinesEnd` | extlib/liblog/logprint.c:700-758 | when the suffix of the process format keeps its newline |

## Left out

- Weak memory ordering and the atomic assembly: every interleaving is sequentially consistent, one load, store or byte copy a step.
- Sockets, epoll, pipes, poll, read and the clock themselves: their answers are parameters or steps, and a pipe is a byte count of bounded capacity.
- Handlers and descriptor callbacks that poll again, and map callbacks that re-enter the map other than to remove the entry they are given.
- Allocation failure, except where the code's contract names it: entries and buckets of the hash map, the strings of `str_parms_add_str`, the formatted log line. After an addition that freed strings the map still holds, no operation on the parameters is modelled. The `valid_entry` path of the log reader, which is such a failure, is not modelled.
- Hashmaps.Hashmap.Put: a chain is the sequence of its entries held in the bucket array, so the pointers linking them, and their aliasing with memory outside the map, are not modelled; nor is a `size` or bucket count that overflows `size_t`.
- LogReader.LoggerList.FlushList: the queues are sequences in a field; `CircularList` has the pointers of the ring. Payload bytes are carried along unchanged rather than moved inside a buffer.
- Opening, closing and freeing of logs, the access-mode check that answers EPERM, and the tables of log names.
- Waiting on the futex of a dirty serial is a step that loads it again; the copy of the name to a reader that asks for it is left out.
- PropertySeqlock.Find: assumes the well-formed area that publication keeps; the steps by which one entry is published are not interleaved with it, and the access checks and persistence of properties are left out.
- Unicode: the UTF-32 string functions, the comparisons, `utf8_length` and `utf8_to_utf16_n`; ModifiedUtf8: `strcpylen8to16` and the allocating wrappers. Counts are unbounded except in `strnlen16to8`, whose guard is about overflow.
- LogLines.FormatLogLine: starts from the rendered prefix and suffix of any length; times, priorities and padding inside them come from the C library. A message with a NUL in it is not covered.
- BinaryEvents: `snprintf` of an integer is plain decimal, cut to the room; the tag map is reduced to whether it names the tag.
- BinaryEvents.ProcessBinaryLogBuffer: requires a message buffer with room for the generated tag and its terminator and a byte beyond, or two if the event then needs a mark. The code checks none of this; with less, its remaining length wraps around or the mark pushes the terminator past the end, and what happens then is not modelled.
- The int and float variants of `str_parms`, and characters beyond seven bits in its hash, which sign-extend on some platforms. This hash and the secondary hash of the map only place entries; how well they spread them is not described.
- SharedBuffer, String8, String16, LinearAllocator, FileMap, event tags, bit operations, multi-user identifiers: memory management or single expressions that would only add easy members.
