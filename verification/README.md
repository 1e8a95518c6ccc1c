# Verified models of the CF server framework

The repository is a C++ framework for event-driven servers: a task scheduler, a
reference table, HTTP streams, a cached file source and the small data structures
and codecs below them. This project models the parts whose correctness cannot be
read off one function and proves, for every input, history or interleaving, what
they promise. `dafny verify dfyconfig.toml` checks everything.

| file | models |
|---|---|
| `Scheduler.dfy` | `Task::Signal`, `GetEvents`, `TaskThread::Entry`, `WaitForTask` as atomic steps of signallers and workers |
| `RecursiveMutex.dfy` | the recursive mutex over a plain one, with the hand-off of a condition wait |
| `RefTable.dfy` | `Register`, `Resolve`, `Release`, `UnRegister`, `Swap` as steps under the table mutex |
| `HashTable.dfy` | the chained hash table, its index arithmetic and its iterator |
| `FileCache.dfy`, `FileSource.dfy` | the block cache: order of last use, the copying loop, and the object with its slots and queue |
| `Framing.dfy`, `RequestStream.dfy` | header framing, retreat of surplus bytes, body reads |
| `ResponseStream.dfy` | the growing output buffer, `WriteV` and `Flush` over a socket that takes part or nothing |
| `Base64.dfy`, `StreamDecoder.dfy`, `DecodingStream.dfy` | the base64 codec, its incremental use over a fragmented stream, and the buffers of that |
| `DecodedRequest.dfy` | `ReadRequest` in base64 mode: decoding, framing and retreat in one call |
| `Md5.dfy` | MD5 around its block function |
| `Url.dfy` | `DecodeURL` and `EncodeURL` |
| `Heap.dfy` | the timer heap |
| `Queue.dfy`, `BlockPool.dfy` | the linked queue with a sentinel, its iterator, and the queue of the block cache over it |

Concurrent components are step relations: a state, a set of actions with the
conditions under which each can happen, and runs as sequences of steps. Objects
that change in place are classes with a `Valid()` predicate. What lies outside
(the disk, the socket, the clock, the cutting of a byte stream) is a parameter
that may answer in every way the system calls can.

## Where the code falls short of its promise

- The release step of a worker compares with a shared `static` that a failed
  exchange overwrites. Exclusion survives this; the promise that no event is lost
  holds exactly for runs in which every successful exchange compared with `kAlive`
  alone (`NothingLostExactly`), and `SharedStaticLosesAnEvent` is a run that loses
  one. A fresh copy at each exchange would be enough (`FreshCopyLosesNothing`).
- `CreateThreads(0, n)` makes the blocking picker name threads beyond the pool, and
  `CreateThreads(n, 0)` makes it divide by zero (`PickedThreadExists`);
  `CFMain.cpp` passes neither.
- `GetEvents` says that `kAlive` is not reported, but every call returns it
  (`AliveIsReported`).
- A condition wait entered at nesting depth two or more leaves the mutex free with a
  count above zero (`CleanExactlyWhenShallow`, `DeepWaitLeavesCount`).
- `Release` wakes one waiter of a ref. With two threads waiting to unregister the
  same ref, one whose limit is met can sleep on (`TwoWaitersCanOversleep`); no waiter
  ever does in exactly the runs of `NoLostWakeUpExactly`.
- `Heap::Remove` at an interior slot only sifts down; heap order survives exactly
  when the leaf moved there is not smaller than its parent (`Heap.Remove`,
  `RemovalBreaksOrder`).
- A fill that failed leaves its block cached with size 0. A later read can then
  return other bytes with the right count (`FailedFillHistory`), or copy a negative
  length (`LackingOverruns`). `LoopExact` says exactly which reads are right.
- The pool is reset after `AllocateBufferMap` stored the unit size in it. Blocks are
  always made of units of 32K; the unit size given only takes part in how many, if no
  number of units is given (`UnitSizeOnlyCounts`). The block is of the size asked for
  exactly when units of 32K were (`BlockAsAskedExactly`).
- Where a header ends can depend on how its bytes arrive (`PasswordLineMoves`,
  `LoneLfMoves`); `HeaderEndStableExactly` says exactly when it does not.
- An interleaved packet longer than the buffer less one makes the stream read zero
  bytes, which it takes for a closed connection. Over every arrival of a live peer's
  bytes, that is exactly when it drops the peer (`AwaitAnswersExactly`, `LiveRequest`,
  and `PacketDropsPeerExactly` for bytes that come without pause).
- `SnarfRetreat` copies from behind the message on. After a body read has taken some of
  the retreated bytes, those are not the bytes left (`SnarfTakesHeldExactly`).
- `Read` in base64 mode hands on the bytes of the socket undecoded behind the decoded
  ones (`DecodedStream.Read`).
- A base64 stream with a good group behind a bad one decodes differently for
  different cuts (`CorruptStreamDependsOnCuts`), and only such a stream does
  (`FragmentationExactly`).
- `EncodeURL` writes one byte behind its destination when a two-digit escape ends at the
  last byte it was given, because the formatted print adds a terminator
  (`EncodeURL`, `BlankOverruns`).
- `DecodeURL` trims a final dot segment from the end of the whole text, so a query
  behind it is cut (`QueryKeptExactly`). `EncodeURL` does not round-trip CR, LF and TAB,
  and a NUL ends decoding (`RoundTripExactly`).
- `DecodeURL` deletes `..` without its parent, unlike section 5.2.4 of RFC 3986
  (`ParentStays`). The two agree exactly on the paths in which nothing but dot segments
  comes before a `..` (`CleanIsRemovedExactly`, `DecodesAsStandardExactly`).
- The queue iterator goes from the oldest element to the newest; the disabled test in
  `CFCore/Queue.cpp` expects the opposite (`Queues.Walk`).

## Model

| member | source | states |
|---|---|---|
| `Scheduler.InvKept` | CFThread/Task.cpp:91-445 | every step of every thread keeps: no task in two places, everything held has kAlive, everything with kAlive is held if there are threads, expected values carry kAlive, a forced thread is the one that holds the task; with either form of the release step |
| `Scheduler.InvAlways` | CFThread/Task.cpp:77-445 | that invariant in every state of every run |
| `Scheduler.OnePlaceOnly` | CFThread/Task.cpp:91-112 | a task is in at most one hand, queue cell, heap cell or worker; Run is never re-entered, no deleted task is touched by a worker, a task being enqueued or put in a heap is in none already |
| `Scheduler.PostedStays` | CFThread/Task.cpp:336-342 | if all successful releases compared with kAlive alone, a posted bit stays set on a live task until GetEvents returns it or the task is deleted |
| `Scheduler.BitHasSource` | CFThread/Task.cpp:231-236 | a set bit was posted by some step and neither returned nor discarded since |
| `Scheduler.StaleReleaseLoses` | CFThread/Task.cpp:341-342 | every successful release that compared with more than kAlive loses an event |
| `Scheduler.NothingLostExactly` | CFThread/Task.cpp:336-342 | with threads in the pool, no event is lost in a run if and only if every successful release compared with exactly kAlive |
| `Scheduler.FreshCopyLosesNothing` | CFThread/Task.cpp:336-342 | with a fresh expected value no run loses an event |
| `Scheduler.SharedStaticLosesAnEvent` | CFThread/Task.cpp:341-342 | a run of the code as it is that loses an event, on one thread |
| `Scheduler.EmptyPoolStrands` | CFThread/Task.cpp:93-93 | without threads nothing is lost if and only if nothing is ever posted |
| `Scheduler.ForcedThreadHonoured` | CFThread/Task.cpp:217-218 | after ForceSameThread the next Run of the task is on that thread |
| `Scheduler.AimHonoured` | CFThread/Task.cpp:94-95 | the same for a default thread that a Signal takes over because none was asked for |
| `Scheduler.AimHasSource` | CFThread/Task.cpp:267-267 | in every run, a thread asked for comes from an earlier ForceSameThread or default, and no Run of the task has started since |
| `Scheduler.FreeGoesAnywhere` | CFThread/Task.cpp:94-132 | so a task that asked for none since its last Run began, and has no default, can be put in the queue of every thread |
| `Scheduler.DefaultIsLast` | CFThread/include/CF/Thread/Task.h:122-124 | the default thread of a task is the last one set since it was made |
| `Scheduler.TimerNeverEarly` | CFThread/Task.cpp:348-362 | after a Run that returned a timeout the next Run starts no earlier than that, or than the minimum wait |
| `Scheduler.TimerNotLate` | CFThread/Task.cpp:348-412 | once that time has passed, the timer is due and its waiting thread can take out this one or an earlier one |
| `Scheduler.TimersInOrder` | CFThread/Task.cpp:400-412 | timers leave a thread's heap in order of their deadlines |
| `Scheduler.DueCanFire` | CFThread/Task.cpp:400-412 | a waiting thread with a timer that is due can take one out, none later than that |
| `Scheduler.StoppedStays` | CFThread/Task.cpp:414-445 | a stopped thread takes no task any more |
| `Scheduler.AliveIsReported` | CFThread/Task.cpp:231-236 | in every run, what GetEvents returns has kAlive in it, and just that bit stays set |
| `Scheduler.PickedThreadExists` | CFThread/Task.cpp:115-132 | for all tickets, the short picker names a thread of the pool if and only if there is one, and the blocking picker names one of the blocking threads if and only if threads of both kinds were asked for; without blocking threads it takes a remainder by zero |
| `RecursiveMutex.InvKept` | CFCore/Mutex.cpp:90-147 | every step of lock, try-lock, unlock and a wait entered at depth one keeps the ownership invariant |
| `RecursiveMutex.InvAlways` | CFCore/Cond.cpp:73-107 | that invariant in all runs whose waits are shallow |
| `RecursiveMutex.OwnershipSound` | CFCore/Mutex.cpp:90-147 | in such runs the unlocked owner test is right for every thread at every moment, at most one thread is inside, the count is the owner's depth, a free mutex has owner 0 and count 0, and the asserts on both hold |
| `RecursiveMutex.NestingSound` | CFCore/Mutex.cpp:90-147 | told from the calls alone, in such runs: a thread at rest has the mutex, by owner test and plain mutex, if and only if its locks and successful try-locks outnumber its unlocks, and the count is by how much; so Unlock undoes one lock and the last one frees the mutex |
| `RecursiveMutex.CallCounts` | CFCore/Mutex.cpp:90-147 | from the start of a call to its return that number changes by what the call says: one more for a lock or a successful try-lock, one less for an unlock that finds it locked, and an unlock of the last one leaves the mutex to others |
| `RecursiveMutex.TryLockFailsExactly` | CFCore/Mutex.cpp:122-147 | a try-lock returns false if and only if another thread has the mutex at that moment |
| `RecursiveMutex.BlocksExactly` | CFCore/Mutex.cpp:90-147 | a call can go on at every point, except a lock or the end of a wait while another thread has the mutex; the count never goes below zero |
| `RecursiveMutex.CallsEnd` | CFCore/Mutex.cpp:90-147 | every step of a call brings it nearer to its end |
| `RecursiveMutex.WaitGivesUp` | CFCore/Cond.cpp:82-107 | once a wait has returned, the mutex was given up in between |
| `RecursiveMutex.CleanExactlyWhenShallow` | CFCore/Cond.cpp:82-105 | a free mutex is clean throughout a run if and only if every wait was entered at depth one |
| `RecursiveMutex.DeepWaitLeavesCount` | CFCore/Cond.cpp:82-83 | a run of two locks and a wait that leaves the mutex free with count 1 |
| `RefTable.CountIsOutstanding` | CFCore/Ref.cpp:140-164 | in every interleaving the count of a ref is its resolves minus its releases |
| `RefTable.KeysOwnAlways` | CFCore/Ref.cpp:55-107 | a key leads only to a ref with that key, in every run |
| `RefTable.LeavesOnlyWhenFree` | CFCore/Ref.cpp:109-138 | a ref leaves the table only by a swap for its key or by an unregister with at most n holders outstanding at that moment |
| `RefTable.LeavesExactly` | CFCore/Ref.cpp:109-181 | in every run, a ref in the table is out of it after a step if and only if that was a swap for its key by another ref or an unregister whose limit, as its call gave it, covers the holders at that step |
| `RefTable.EntersExactly` | CFCore/Ref.cpp:55-107 | a ref comes in if and only if it is swapped in, or registered under a key that no ref in the table has; Register refuses the empty key |
| `RefTable.TableIsItsRefs` | CFCore/Ref.cpp:55-107 | a key leads to a ref if and only if that ref is in the table and carries it, so no step changes any other key |
| `RefTable.UnRegisterTakesOut` | CFCore/Ref.cpp:109-127 | when UnRegister returns, however often it slept, the ref is out of the table and had at most as many holders as the call allowed |
| `RefTable.WaitsExactly` | CFCore/Ref.cpp:114-115 | a thread sleeps in UnRegister after it looked at the count if and only if the holders exceed its limit |
| `RefTable.CountFits` | CFCore/Ref.cpp:147-149 | no count wraps around while resolves are bounded |
| `RefTable.ResolvedStays` | CFCore/Ref.cpp:109-181 | as long as no swap for its key and no unregister whose limit covers its holders happens, a ref stays in the table |
| `RefTable.StepWakesExactly` | CFCore/Ref.cpp:114-163 | only a Release can leave a waiter asleep whose limit is met, and it does exactly if some other waiter on the ref is not woken and has a limit that the new count meets |
| `RefTable.WokenExactly` | CFCore/Ref.cpp:115-163 | a sleeping thread is woken if and only if a Release of its ref picked it since it last looked at the count |
| `RefTable.NoLostWakeUpExactly` | CFCore/Ref.cpp:114-163 | in every run: every waiter whose limit is met has been woken at all times if and only if every Release meets that condition |
| `RefTable.NoLostWakeUp` | CFCore/Ref.cpp:114-163 | so no wake-up is lost while refs have one waiter each |
| `RefTable.TwoWaitersCanOversleep` | CFCore/Ref.cpp:163-163 | a run with two waiters where one sleeps though its limit is met |
| `HashTables.MaskIsModulo` | CFCore/include/CF/HashTable.h:62-64 | if the power-of-two test passes, masking is the remainder, for every hash |
| `HashTables.IndexIsModulo` | CFCore/include/CF/HashTable.h:126-131 | the index is hash modulo size for every size above 0 |
| `HashTables.MaskForExactly` | CFCore/include/CF/HashTable.h:62-64 | the constructor sets the mask to size less one for every power of two, and to 0 for every other size |
| `HashTables.HashOfEight` | CFCore/Ref.cpp:34-54 | which of eight bytes, or of one, the string hash takes, and 0 for none |
| `HashTables.HashTable.constructor` | CFCore/include/CF/HashTable.h:54-66 | an empty valid table |
| `HashTables.HashTable.Add` | CFCore/include/CF/HashTable.h:72-79 | the entry joins the set, is linked in as head of its chain, and the count grows by one |
| `HashTables.HashTable.Remove` | CFCore/include/CF/HashTable.h:81-100 | exactly the entry leaves the set and its chain, its link is cleared; an absent one changes nothing |
| `HashTables.HashTable.Locate` | CFCore/include/CF/HashTable.h:84-89 | the walk over the links ends at the entry, with the one before it, or at null if the chain lacks it |
| `HashTables.HashTable.UnlinkAt` | CFCore/include/CF/HashTable.h:93-98 | the pointer updates leave heads and links that spell out the chain without the entry |
| `HashTables.LinkedRemove` | CFCore/include/CF/HashTable.h:93-98 | the relinked heads and links are those of the chains with one place cut out |
| `HashTables.HashTable.Map` | CFCore/include/CF/HashTable.h:102-112 | the entry of the key or null; with unique keys the value of the dictionary |
| `HashTables.LookupFinds` | CFCore/include/CF/HashTable.h:102-112 | a chain search finds an entry with the key if and only if there is one |
| `HashTables.DictionaryAdd` | CFCore/include/CF/HashTable.h:72-79 | adding an entry with a new key updates the dictionary at that key |
| `HashTables.DictionaryRemove` | CFCore/include/CF/HashTable.h:81-100 | removing an entry removes its key |
| `HashTables.DictionarySize` | CFCore/include/CF/HashTable.h:114-114 | the number of entries is the size of the dictionary |
| `HashTables.HashTableIter.constructor` | CFCore/include/CF/HashTable.h:137-148 | the iterator has the whole walk of the table before it |
| `HashTables.HashTableIter.Next` | CFCore/include/CF/HashTable.h:150-159 | exactly the current entry leaves the rest of the walk |
| `HashTables.WalkListsAll` | CFCore/include/CF/HashTable.h:142-159 | the walk contains an entry if and only if the table does |
| `HashTables.WalkDistinct` | CFCore/include/CF/HashTable.h:142-159 | no entry is walked twice |
| `HashTables.WalkSurvivesRemoval` | CFSocket/EventContext.cpp:296-302 | taking an entry already passed out of its chain leaves the rest of the walk as it was |
| `HashTables.RemoveVisited` | CFSocket/EventContext.cpp:300-301 | removing a visited entry does not change what the iterator will visit |
| `HashTables.VisitAll` | CFSocket/EventContext.cpp:296-302 | a loop that advances and then may remove the entry visits each entry once, and exactly the removed ones are gone |
| `FileCache.RecencyIsByLastUse` | CFCore/FileSource.cpp:127-137 | the reference order lists each used block once, by time of last use |
| `FileCache.TouchRecent` | CFCore/FileSource.cpp:241-275 | for every history of uses and limits, the queue after a use is the most recently used blocks in order and within the limit |
| `FileCache.DroppedIsOldest` | CFCore/FileSource.cpp:139-167 | every block dropped was last used before every block kept |
| `FileCache.OffsetIsProduct` | CFCore/include/CF/FileSource.h:167-169 | a block starts at its index times the block size |
| `FileCache.IndexIsBetween` | CFCore/include/CF/FileSource.h:160-162 | the index of a position names the block it lies in |
| `FileCache.StepGood` | CFCore/FileSource.cpp:424-471 | a round over a full block copies on from where the read stands and keeps its place |
| `FileCache.LoopExact` | CFCore/FileSource.cpp:424-471 | over a file whose bytes are their own positions, the loop delivers the positions asked for if and only if no fill on its way fails and no cached block that lacks its data is needed or entered at an offset |
| `FileCache.LoopShows` | CFCore/FileSource.cpp:424-471 | over any file the loop delivers what that file holds at the positions it delivers |
| `FileCache.CacheReadExact` | CFCore/FileSource.cpp:380-497 | both for a whole ReadFromCache, which is then the file slice of length min(len, file length - pos) |
| `FileCache.CleanRead` | CFCore/FileSource.cpp:380-497 | a read without a failing fill of a cache without failed blocks meets the condition and leaves the cache so |
| `FileCache.FailedReadShifts` | CFCore/FileSource.cpp:444-469 | with the first block cached as failed, a read of two blocks gives the next two, for every file, block size and limit |
| `FileCache.LackingOverruns` | CFCore/FileSource.cpp:455-461 | a read that starts inside a cached block without data computes a negative copy length |
| `FileSources.FileSource.GetBufferElement` | CFCore/FileSource.cpp:139-167 | a new buffer at the tail below the limit, else the head of the queue |
| `FileSources.FileSource.MarkUsed` | CFCore/FileSource.cpp:127-137 | the buffer moves to the tail, from wherever it is |
| `FileSources.FileSource.DeleteOldBuffs` | CFCore/FileSource.cpp:241-250 | oldest blocks go until the limit is met; slots and queue stay in bijection and contents stay right |
| `FileSources.FileSource.GetBuffer` | CFCore/FileSource.cpp:252-294 | used slots and queued buffers are in bijection through the index, at most the limit in number, in order of last use; the buffer is to be filled exactly if the block was not cached |
| `FileSources.FileSource.FillBuffer` | CFCore/FileSource.cpp:351-364 | the buffer then holds its block, or nothing after a failed read, and no other changes |
| `FileSources.CopyRound` | CFCore/FileSource.cpp:444-469 | one round of the copying code is one step of the reference loop |
| `FileSources.FileSource.CopyBlocks` | CFCore/FileSource.cpp:424-471 | outcome and cache after the loop over slots, buffers and queue are those of the reference loop, with failing fills and failed blocks |
| `FileSources.FileSource.ReadFromCache` | CFCore/FileSource.cpp:380-497 | outcome and cache are those of the reference read; the positions delivered are the ones asked for if and only if the condition holds before the call, and then the bytes are the plain positioned read |
| `FileSources.FileSource.Read` | CFCore/FileSource.cpp:370-378 | the same where the cache applies, a direct read and an untouched cache where it does not, including positions past the end |
| `FileSources.FileSource.IncMaxBuffers` | CFCore/include/CF/FileSource.h:96-96 | the limit grows by the increment, all else stays valid |
| `FileSources.FileSource.DecMaxBuffers` | CFCore/include/CF/FileSource.h:97-100 | the limit shrinks by the increment but never to 0 |
| `FileSources.FileSource.AllocateFileCache` | CFCore/FileSource.cpp:188-239 | keeps the map if units and limit are as asked, else an empty cache whose block size is 32K times the chosen units |
| `FileSources.ChosenUnits` | CFCore/FileSource.cpp:205-222 | at least one unit, the number asked for, or at most the given maximum |
| `FileSources.BlockAsAskedExactly` | CFCore/FileSource.cpp:197-222 | the block size is the unit size asked for times the units if and only if units of 32K were asked for |
| `FileSources.UnitSizeOnlyCounts` | CFCore/FileSource.cpp:205-222 | a given number of units is kept for every unit size; from a bit rate of 131072 bytes, asking for 64K units gives half as large a block as asking for 32K units |
| `FileSources.UnitsFillRate` | CFCore/FileSource.cpp:199-222 | without a number of units: the maximum if there is no bit rate, else the most units, up to the maximum, that the bit rate fills, but at least one |
| `FileSources.Serve` | CFCore/FileSource.cpp:370-497 | over every history of reads, limit changes, switches and allocations without a failed fill, every read gives what the plain read would |
| `FileSources.FailedFillHistory` | CFCore/FileSource.cpp:358-360 | on a fresh cache a first read that fails and a second one without faults: the second gives the second and third block for the first two |
| `BlockPools.FileBlockPool.MarkUsed` | CFCore/FileSource.cpp:127-137 | over the linked queue: the queue order becomes what the sequence operation of the cache gives |
| `BlockPools.FileBlockPool.GetBufferElement` | CFCore/FileSource.cpp:139-167 | over the linked queue: a new element at the tail below the limit, else the head is taken off |
| `Framing.ConsumeUntilEol` | CFCore/StringParser.cpp:284-297 | stops at the first CR or LF from the cursor on |
| `Framing.FindHeaderEnd` | CFHttp/HTTPRequestStream.cpp:214-248 | the loop over lines finds what the recursive search defines |
| `Framing.FramingExact` | CFHttp/HTTPRequestStream.cpp:214-248 | in CRLF data whose first line has a blank the header is complete if and only if CRLFCRLF is buffered, and ends at the first one |
| `Framing.SingleEolExact` | CFHttp/HTTPRequestStream.cpp:220-231 | if all lines end with LF alone, or all with CR alone, and the first has a blank, the header ends at the first two line ends in a row, and is complete if and only if there are two |
| `Framing.HeaderEndStableExactly` | CFHttp/HTTPRequestStream.cpp:214-248 | for every buffered header: no later bytes move its end if and only if it ended at an empty line, not by the rule for a first line without a blank, and its last byte is not a CR at the end of the buffer |
| `Framing.CrlfIsSettled` | CFHttp/HTTPRequestStream.cpp:214-248 | headers of CRLF streams whose first line has a blank meet that condition |
| `Framing.JudgeExact` | CFHttp/HTTPRequestStream.cpp:159-258 | what is buffered of a plain stream is a message exactly when it holds CRLFCRLF, and the message is the shortest such prefix of the stream |
| `Framing.PacketExact` | CFHttp/HTTPRequestStream.cpp:160-175 | of bytes that start with an interleaved packet as section 10.12 of RFC 2326 writes it, for every channel and payload, the packet is the message if and only if all of it is buffered |
| `Framing.PasswordLineMoves` | CFHttp/HTTPRequestStream.cpp:232-247 | a first line without a blank ends at different places for different arrivals |
| `Framing.LoneLfMoves` | CFHttp/HTTPRequestStream.cpp:220-231 | so does a header with a lone LF |
| `RequestStreams.Socket.Read` | CFSocket/Socket.cpp:351-388 | hands on the next bytes of the stream in order, at most as many as asked; a read that gets no bytes, for want of room too, disconnects |
| `RequestStreams.RequestStream.StartNext` | CFHttp/HTTPRequestStream.cpp:72-110 | the move to the start of the buffer keeps the held bytes |
| `RequestStreams.RequestStream.Fill` | CFHttp/HTTPRequestStream.cpp:124-155 | new bytes go behind those held; nothing is lost between stream, buffer and callers |
| `RequestStreams.RequestStream.Decide` | CFHttp/HTTPRequestStream.cpp:159-264 | gives out the message the examination finds, puts the rest back, or gives out a full buffer without one |
| `RequestStreams.RequestSound` | CFHttp/HTTPRequestStream.cpp:63-266 | in the reference call bytes move from the wire to the buffer in order; arrival exactly if the examination finds a message in them, a full buffer without one as too big, and otherwise an error exactly if the peer has gone |
| `RequestStreams.RequestStream.ReadRequest` | CFHttp/HTTPRequestStream.cpp:63-266 | ends for every arrival of bytes; result, bytes buffered and bytes left on the wire are those of the reference call; the message is the prefix found, the rest stays held, received is handed out followed by held |
| `RequestStreams.AwaitAnswersExactly` | CFHttp/HTTPRequestStream.cpp:122-175 | over every arrival of a live peer's bytes, with pauses: the call fails if and only if they start with an interleaved packet longer than the buffer less one and more bytes follow the full buffer without a pause; a packet that fits arrives if and only if it is there before the first pause |
| `RequestStreams.LiveRequest` | CFHttp/HTTPRequestStream.cpp:63-266 | the same for ReadRequest on the buffer, with or without a message at hand, which leaves the peer connected in all other cases |
| `RequestStreams.PacketDropsPeerExactly` | CFHttp/HTTPRequestStream.cpp:124-137 | so an interleaved packet that comes without pause makes the call fail, with the peer alive and bytes unread, exactly if its announced length exceeds the buffer less one; else it arrives |
| `RequestStreams.PacketRequest` | CFHttp/HTTPRequestStream.cpp:160-175 | that for ReadRequest on the buffer |
| `RequestStreams.PacketArrivesExactly` | CFHttp/HTTPRequestStream.cpp:122-175 | a packet that fits the buffer, followed by anything, ends the call if and only if all of it comes before the first pause |
| `RequestStreams.DeliverPacket` | CFHttp/HTTPRequestStream.cpp:63-266 | ReadRequest then gives out exactly that packet, the payload from its fifth byte on, and what follows stays in order |
| `RequestStreams.SnarfTakesHeldExactly` | CFHttp/HTTPRequestStream.cpp:51-61 | the bytes taken over from another stream are those it holds, for all contents, if and only if no body read took some of them before |
| `RequestStreams.RequestStream.SnarfInto` | CFHttp/HTTPRequestStream.cpp:58-60 | the copy starts right behind the message |
| `RequestStreams.RequestStream.Read` | CFHttp/HTTPRequestStream.cpp:268-317 | retreated bytes first, then the socket; the order of the stream is kept once a message has arrived or if nothing is buffered |
| `RequestStreams.PlainRequest` | CFHttp/HTTPRequestStream.cpp:214-258 | over a plain stream cut in any way, arrival exactly when CRLFCRLF is buffered, with the shortest prefix ending there |
| `RequestStreams.Serve` | CFHttp/HTTPRequestStream.cpp:63-317 | over any run of requests and body reads, what was handed out, what is held and what is still to come are the stream, in order |
| `ResponseStreams.ResponseStream.BufferIsFull` | CFCore/ResizeableStringFormatter.cpp:36-54 | a buffer of twice the size, or 64, with the same bytes |
| `ResponseStreams.ResponseStream.Put` | CFCore/StringFormatter.cpp:46-84 | ends, and appends all of the data to what is held, across any number of growths; the exit for a buffer that did not grow is dead |
| `ResponseStreams.SendConserves` | CFHttp/HTTPResponseStream.cpp:67-81 | a write that takes any number of bytes keeps wire and unsent bytes equal to what was accepted |
| `ResponseStreams.SkipSent` | CFHttp/HTTPResponseStream.cpp:123-129 | stays inside the vectors and finds where the unsent bytes start |
| `ResponseStreams.ResponseStream.BufferRest` | CFHttp/HTTPResponseStream.cpp:123-137 | all but the bytes sent are buffered in order |
| `ResponseStreams.ResponseStream.WriteV` | CFHttp/HTTPResponseStream.cpp:36-139 | for every send type and socket answer: the wire grows by what the socket took, the reported number of bytes is accepted behind all before, all or nothing where asked, nothing buffered where asked, and no change on an error |
| `ResponseStreams.ResponseStream.Flush` | CFHttp/HTTPResponseStream.cpp:141-176 | sends a prefix of the unsent bytes; no error exactly when the buffer is empty |
| `ResponseStreams.Serve` | CFHttp/HTTPResponseStream.cpp:36-176 | over any run of calls and answers, the wire followed by the unsent bytes is the concatenation of everything accepted |
| `Base64.CutIsWord24` | CFBasic/base64.c:180-187 | the four digits of three bytes are those of their 24-bit number in base 64 (section 4 of RFC 4648) |
| `Base64.AlphabetExactly` | CFBasic/base64.c:89-169 | both tables are Table 1 of RFC 4648 |
| `Base64.EncodedLength` | CFBasic/base64.c:171-173 | the encoding with its terminator has exactly the announced length |
| `Base64.RoundTrip` | CFBasic/base64.c:124-203 | decoding an encoding gives the bytes back, whatever follows the terminator |
| `Base64.Base64encode` | CFBasic/base64.c:175-203 | writes the encoding and a terminator, the announced number of bytes and no more |
| `Base64.Base64decode` | CFBasic/base64.c:124-166 | writes the decoded bytes and a terminator, at most the announced number, and returns their count |
| `Base64.Base64decode_len` | CFBasic/base64.c:110-122 | the bound for the digits before the first other character |
| `Base64.DecodeRoom` | CFBasic/base64.c:110-122 | decoded bytes and terminator always fit the bound |
| `StreamDecoder.OneCall` | CFBasic/base64.c:124-166 | one call on whole groups decodes the good groups up to a padded one, and its count tells how many |
| `StreamDecoder.ConsumedBytes` | CFHttp/HTTPRequestStream.cpp:355-360 | the code's count of consumed bytes is four for each group |
| `StreamDecoder.DecodeWhole` | CFHttp/HTTPRequestStream.cpp:333-365 | the loop ends on every input, decodes exactly the leading good groups, succeeds if and only if all are good, and takes the terminator away again on success only |
| `StreamDecoder.DecodeIncomingData` | CFHttp/HTTPRequestStream.cpp:319-371 | output extended by the bytes of the leading good groups, success if and only if every whole group is good, the unfinished group left in place, after an error with the terminator in front |
| `StreamDecoder.FragmentationExactly` | CFHttp/HTTPRequestStream.cpp:141-155 | for every stream: all ways to cut it give the same output if and only if no good group follows a bad one, and the output is then that of the leading good groups |
| `StreamDecoder.FragmentationIrrelevant` | CFHttp/HTTPRequestStream.cpp:141-155 | for a stream of good groups also the bytes carried on are the same, those of the unfinished group |
| `StreamDecoder.EncodedGroups` | CFHttp/HTTPRequestStream.cpp:141-155 | an encoded message in front of a stream decodes to the message and then the rest |
| `StreamDecoder.StreamRoundTrip` | CFHttp/HTTPRequestStream.cpp:141-155 | messages encoded one after the other and cut anywhere decode to their concatenation |
| `DecodingStreams.DecodingStream.Receive` | CFHttp/HTTPRequestStream.cpp:124-155 | storing a fragment behind the carried bytes and decoding moves output and carry as the abstract decoder does, and the decoded buffer never overtakes the encoded one |
| `DecodingStreams.DecodingStream.NextMessage` | CFHttp/HTTPRequestStream.cpp:72-110 | moving put-back and carried bytes to the front changes neither output nor carry |
| `DecodingStreams.Drive` | CFHttp/HTTPRequestStream.cpp:63-157 | over every list of fragments the buffers do what the abstract decoder does |
| `DecodingStreams.DecodeMessages` | CFHttp/HTTPRequestStream.cpp:63-157 | encoded messages cut anywhere come out of the buffers as they were |
| `DecodedRequests.SettleOwes` | CFHttp/HTTPRequestStream.cpp:63-266 | in base64 mode, however a stream of good groups is cut, the decoded bytes and what the coded ones decode to stay the same through the call |
| `DecodedRequests.CodedRequestSound` | CFHttp/HTTPRequestStream.cpp:63-266 | the same for the reference call, which reports arrival exactly if the examination finds a message in the decoded bytes, too big if the encoded buffer is full, and an error exactly if the peer has gone |
| `DecodedRequests.DecodedStream.ReadFirst` | CFHttp/HTTPRequestStream.cpp:122-156 | the read behind the encoded bytes and the decoding are one step of the reference call |
| `DecodedRequests.DecodedStream.Decide` | CFHttp/HTTPRequestStream.cpp:159-264 | gives out the message found in the decoded bytes, or all of them when the encoded buffer is full, stale first byte included |
| `DecodedRequests.DecodedStream.ReadRequest` | CFHttp/HTTPRequestStream.cpp:63-266 | in base64 mode, for every stream, also a corrupt one, and every arrival: result, decoded bytes, carried bytes, fill and bytes left on the wire are those of the reference call, and the message is handed out |
| `DecodedRequests.DecodedStream.Read` | CFHttp/HTTPRequestStream.cpp:268-317 | the bytes put back are decoded, those behind them are the socket's as they are |
| `DecodedRequests.PlainCoded` | CFHttp/HTTPRequestStream.cpp:63-266 | over a stream of good groups the message is the first of the bytes owed; if they make up a plain stream, a request arrives exactly when, decoded, a CRLFCRLF is buffered, with the shortest prefix ending there |
| `DecodedRequests.ServeCoded` | CFHttp/HTTPRequestStream.cpp:63-317 | over any run of requests and reads of bytes put back, with messages encoded one by one and cut anywhere, what was handed out, what is held and what is to come decode to the messages, in order |
| `StreamDecoder.CorruptStreamDependsOnCuts` | CFHttp/HTTPRequestStream.cpp:346-351 | a corrupt stream whose output depends on the cuts |
| `Md5.WordRoundTrip` | CFBasic/md5.c:296-316 | decoding an encoded word gives it back |
| `Md5.ChainRoundTrip` | CFBasic/md5.c:192-193 | the digest has the four words of the state in their order, each low byte first |
| `Md5.StartBytes` | CFBasic/md5.c:132-135 | the initial state is that of section 3.3 of RFC 1321 |
| `Md5.CountBytes` | CFBasic/md5.c:186-186 | the two encoded count words are the 64-bit count, low byte first |
| `Md5.CountAdds` | CFBasic/md5.c:149-153 | the two-word count with its carry is eight times the length modulo 2^64 |
| `Md5.FillRight` | CFBasic/md5.c:147-147 | the fill of the buffer is the length modulo 64, also after the count wrapped |
| `Md5.Context.constructor` | CFBasic/md5.c:128-136 | a context of the empty message |
| `Md5.Context.Update` | CFBasic/md5.c:143-175 | the context then stands for the message followed by the input |
| `Md5.Context.Final` | CFBasic/md5.c:181-202 | the digest is the block function folded over the padded message of sections 3.1, 3.2 and 3.4 of RFC 1321, and chain, count and buffer are cleared |
| `Md5.DigestParts` | CFBasic/md5.c:143-202 | every way of splitting a message into updates gives that digest |
| `Url.PathStep` | CFCore/StringTranslator.cpp:100-128 | one more character of the reference cleaning is an append or one backtrack over a dot segment, as the text and its last segment tell |
| `Url.PutPath` | CFCore/StringTranslator.cpp:100-125 | the path branch with its backtracking write and dot counter keeps the destination equal to the reference |
| `Url.DecodeURL` | CFCore/StringTranslator.cpp:44-140 | result, error and bytes written as the specification says, for every input and room |
| `Url.EnoughRoom` | CFCore/StringTranslator.cpp:44-140 | a destination as long as the source is always enough |
| `Url.DecodedIsReference` | CFCore/StringTranslator.cpp:44-140 | without a raw question mark and with room: succeeds exactly when percent-decoding does, and equals decode, split, delete inner dot segments, blank a trailing one, join |
| `Url.HexValueExactly` | CFCore/StringTranslator.cpp:68-80 | the digits of an escape are 0 to 9, A to F and a to f, with those values, and no other bytes |
| `Url.CaseIsIrrelevant` | CFCore/StringTranslator.cpp:68-80 | the result is the same whatever the case of the digits of escapes |
| `Url.QueryKeptExactly` | CFCore/StringTranslator.cpp:134-139 | with a query the result is cleaned path and query if and only if there is no query or the path does not end in a dot segment |
| `Url.QueryCutHere` | CFCore/StringTranslator.cpp:134-139 | "/.?" is such a path and loses its query |
| `Url.EncodeURL` | CFCore/StringTranslator.cpp:142-214 | the encoding if and only if it fits, else the space error; the byte behind the destination is written exactly when an escape of two digits ends at its last byte, also on the way to a space error |
| `Url.EscapedExactly` | CFCore/StringTranslator.cpp:155-205 | the bytes escaped are those above 127 and the characters listed |
| `Url.BlankOverruns` | CFCore/StringTranslator.cpp:194-199 | a blank into three bytes fits and writes a fourth |
| `Url.CleanIsRemovedExactly` | CFCore/StringTranslator.cpp:100-139 | on rooted paths the removal of dot segments equals that of section 5.2.4 of RFC 3986 if and only if nothing but dot segments comes before a ".." |
| `Url.DecodesAsStandardExactly` | CFCore/StringTranslator.cpp:44-140 | so DecodeURL gives the path of section 5.2.4 for exactly those sources, when they decode and have no raw question mark |
| `Url.ParentStays` | CFCore/StringTranslator.cpp:100-139 | "/a/.." is not one of them |
| `Url.RoundTripExactly` | CFCore/StringTranslator.cpp:44-214 | decoding undoes encoding if and only if the path starts with a slash, has no dot segment and no NUL, CR, LF or TAB |
| `Url.AnyCaseRoundTrip` | CFCore/StringTranslator.cpp:44-214 | the same for encodings written with digits of either case |
| `Url.CrIsLost` | CFCore/StringTranslator.cpp:197-199 | a slash and a CR do not come back |
| `Heaps.RootSmallest` | CFCore/include/CF/Heap.h:62-65 | in heap order the root is a smallest element |
| `Heaps.Heap.ShiftUp` | CFCore/Heap.cpp:41-60 | restores heap order if only the given slot is out of order; same elements |
| `Heaps.Heap.ShiftDown` | CFCore/Heap.cpp:62-92 | the result is in heap order if and only if the slot was not smaller than its parent; same elements |
| `Heaps.Heap.Insert` | CFCore/Heap.cpp:94-124 | exactly the element is added and tagged, across growth; heap order kept |
| `Heaps.Heap.Extract` | CFCore/Heap.cpp:126-151 | exactly the slot's element leaves, or null if there is no such slot; heap order survives if and only if it was the root, the last leaf, or the leaf moved is not smaller than the parent |
| `Heaps.Heap.ExtractMin` | CFCore/include/CF/Heap.h:74-74 | a smallest member leaves, or null from an empty heap; valid again |
| `Heaps.Heap.Remove` | CFCore/Heap.cpp:153-173 | exactly the element leaves and all others stay; heap order under the same exact condition |
| `Heaps.RemovalBreaksOrder` | CFCore/Heap.cpp:141-148 | seven values of which removing one leaves a child below its parent |
| `Heaps.Heap.Update` | CFCore/Heap.cpp:175-196 | the value changes unless a flag forbids its direction; heap order and all other values stay |
| `Heaps.FlagBits` | CFCore/include/CF/Heap.h:79-83 | the two direction flags are told apart in any combination |
| `Heaps.Drain` | CFCore/include/CF/Heap.h:74-74 | extracting until empty gives every member once, in order of value |
| `Queues.Queue.constructor` | CFCore/Queue.cpp:36-40 | an empty ring |
| `Queues.Queue.EnQueue` | CFCore/Queue.cpp:42-54 | the element joins at the tail; one already here stays where it is |
| `Queues.Queue.DeQueue` | CFCore/Queue.cpp:56-67 | the oldest element leaves, or null |
| `Queues.Queue.Remove` | CFCore/Queue.cpp:69-79 | exactly the element is cut out of the order; one not queued here changes nothing |
| `Queues.RingRemove` | CFCore/Queue.cpp:73-76 | the two pointer updates close the ring around the element, wherever it stands |
| `Queues.Queue.GetHead` | CFCore/include/CF/Queue.h:94-97 | the oldest element or null |
| `Queues.Queue.GetTail` | CFCore/include/CF/Queue.h:99-102 | the newest element or null |
| `Queues.Next` | CFCore/Queue.cpp:223-228 | the next newer element, none after the tail |
| `Queues.Walk` | CFCore/Queue.cpp:223-228 | a walk sees every element once, oldest first |

## Left out

- FileSources.FileSource.Read: short reads of the disk, and a file that changes or is replaced under its map, are not modelled. When the condition fails the bytes can still be the right ones by coincidence, which is why the exact statement is about positions.
- FileSources.FileSource.GetBuffer: the queue is a sequence here; `BlockPool.dfy` runs its operations on the linked one. The casts of block indices to 32 bits and 32-bit wrap-around of limits and sizes are not modelled.
- RequestStreams.RequestStream.ReadRequest: the call that goes on with bytes taken over from another stream is not modelled, nor is a change of mode between two calls; the base64 mode is `DecodedRequests.DecodedStream.ReadRequest`.
- ResponseStreams.ResponseStream.Put: 32-bit wrap-around of the buffer size is not modelled, nor is formatted printing.
- RefTable.CountIsOutstanding: every resolve is bounded below the wrap of the 32-bit counter, where the assert in `Resolve` would fail; the lower limit that `Release` asserts is not modelled. The table is a map here; the chained table it is kept in is modelled in `HashTable.dfy`, whose operations are stated on such a map.
- Md5.Context.Final: the 64 rounds of the block function are a parameter.
- Scheduler.InvKept: event masks are sets of bits; stopping and removing the pool's threads and the global write lock are not modelled.
- The read-write mutex, the spin lock and the epoll layer: the code does not give the exclusion a proof would state.
- HTTP sessions, the client streams, dispatching, configuration and user-agent parsing: input and output, or easy lookups.
- Sockets, clocks, threads, dates and directories: services of the operating system.
