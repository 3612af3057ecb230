# A verified model of the memory pool, ring buffer and logger cores

This project models four parts of a small C utility collection:

- **the segregated free-list allocator** (`DynamicMemoryPool/memPool.c`, with the sizing macros of `memPool.h`);
- **the synchronous ring buffer** (`MessageQueue/queue.c`);
- **the decision and formatting logic of the client logger** (`Log/log.c`);
- **the batch buffer, log rotation, path derivation and argument guards of the log server** (`Log/avic_log.c`).

Each pool, queue or logger operation is taken as one atomic step, with the pthread locks left out.

The allocator has three layers:

- `MemPoolSizing` states the macros and the size-class arithmetic.
- `MemPoolSpec` is the allocator as a state machine over a `Pool` value:
  - a sequence of free lists, head first;
  - the `max_index` hint;
  - the retention budget.
- `MemPoolLaws` proves what that state machine promises:
  - the pool invariant;
  - budget conservation;
  - "returned class ≥ requested class";
  - LIFO reuse;
  - the edge cases of the code as written.

`MemPool.Allocator` is the pool object. Its list heads are an `array` updated in place, and the hint and budget are fields. Each method is proved to take exactly one step of the state machine.

`MessageQueue.Queue` is the ring buffer. It is a class over an array with a ghost contents sequence, and push and pop are proved FIFO.

`Logger` models the client logger:

- `Logger.Decide` is the filter and routing decision of `Log`.
- `Logger.Logger` holds the static filter and socket. `LogInit` and `Log` are proved against `Decide`.
- `Logger.LogBuf` is the hex-dump loop, proved against `LogBufSpec`.

`AvicLog` models the log server:

- the folder-path derivation, with its backward scan loop;
- the rotation loop over an abstract map from file suffix to contents;
- the 100-slot batch as a class over an array;
- the flush, together with a proof that no logged text is reordered across rotations;
- the argument guards.

`CText` gives the C string operations the logger needs:

- snprintf truncation;
- `strstr`;
- `%d` and `%02x`.

## Model

| member | source | states |
|---|---|---|
| MemPoolSizing.Pow2 | DynamicMemoryPool/memPool.c:402 | `1 << k` is at least 1 |
| MemPoolSizing.AlignIsLeastMultiple | DynamicMemoryPool/memPool.h:32 | ALIGN(size, b) is a multiple of b, lies in [size, size+b), and is the least multiple of b that is at least size |
| MemPoolSizing.AlignMonotone | DynamicMemoryPool/memPool.h:32 | ALIGN is monotone in the size |
| MemPoolSizing.HeaderSizesAreAligned | DynamicMemoryPool/memPool.h:33-35 | MEMNODE_T_SIZE and SIZEOF_ALLOCATOR_T are multiples of 8 and cover their structs |
| MemPoolSizing.SizeClassMonotone | DynamicMemoryPool/memPool.c:104-109 | a larger request never gets a smaller size class |
| MemPoolSizing.SizeClassFits | DynamicMemoryPool/memPool.c:104-109 | the class of a non-negative request is non-negative, and (class+1) boundary units hold header plus payload within the carved bytes |
| MemPoolSizing.DefaultClassBounds | DynamicMemoryPool/memPool.h:26-29 | with the defaults the smallest class is 1 (class of size 0 is 1), and a request is within m_uint32_max iff header plus payload fit 2049 units of 4096 bytes |
| MemPoolSpec.ScanUp | DynamicMemoryPool/memPool.c:119-127 | the bucket scan stops at the first non-empty bucket between the class and the hint, passing only empty ones, or at the hint |
| MemPoolSpec.LowerHint | DynamicMemoryPool/memPool.c:130-138 | the lowered hint lies in [-1, top), names a non-empty bucket when at least 1, and only empty buckets lie between it and the old top |
| MemPoolSpec.FirstFit | DynamicMemoryPool/memPool.c:158-166 | the free[0] walk returns the first block whose class is at least the request, skipping only smaller ones, or the list's end |
| MemPoolSpec.ReleaseStep | DynamicMemoryPool/memPool.c:242-276 | one release pass keeps the number of lists, the ceiling and the hint range |
| MemPoolSpec.ReleaseChain | DynamicMemoryPool/memPool.c:238-278 | the release loop over a chain keeps the pool's shape |
| MemPoolSpec.ReleaseSpec | DynamicMemoryPool/memPool.c:209-294 | AllocatorFree keeps the pool's shape |
| MemPoolLaws.RetainedWithinBudget | DynamicMemoryPool/memPool.c:35-42 | with a finite budget, both the retained classes and the remaining budget lie in [0, max_free_index] |
| MemPoolLaws.TakeHeadValid | DynamicMemoryPool/memPool.c:129-153 | taking the head of a bucket keeps the pool valid, hands out exactly that block, removes it from the pool and gives its class back to the budget |
| MemPoolLaws.TakeFromOverflowValid | DynamicMemoryPool/memPool.c:155-180 | unlinking a block from free[0] keeps the pool valid and the hint, hands out that block and gives its class back to the budget |
| MemPoolLaws.AllocValid | DynamicMemoryPool/memPool.c:96-201 | AllocatorAlloc keeps the pool invariant (shape, bucket membership, hint bound, budget conservation, no duplicates) |
| MemPoolLaws.AllocGrant | DynamicMemoryPool/memPool.c:96-201 | NULL-for-too-large iff class > m_uint32_max; too large, out of memory and carving leave the pool untouched; a carved block has exactly the class; a recycled block has at least the class, leaves the pool and restores its class to the budget |
| MemPoolLaws.ReleaseStepValid | DynamicMemoryPool/memPool.c:242-276 | one release pass keeps the pool valid; the block is evicted iff the budget cannot pay for it, and otherwise it joins the pool |
| MemPoolLaws.ReleaseChainValid | DynamicMemoryPool/memPool.c:238-278 | the release loop keeps the pool valid and every block of the chain ends up either in the pool or on the side list |
| MemPoolLaws.ReleaseValid | DynamicMemoryPool/memPool.c:209-294 | AllocatorFree keeps the pool valid; pool plus side list equals old pool plus chain; only chain blocks are evicted; nothing the pool held leaves it |
| MemPoolLaws.ReleaseOne | DynamicMemoryPool/memPool.c:242-281 | a single release evicts iff the block's class exceeds the remaining budget; otherwise it pushes the block onto the head of its bucket (free[0] for classes ≥ m_max_index), charges the budget floored at 0, and raises the hint only for an empty bucket above it |
| MemPoolLaws.UnlimitedRetainsAll | DynamicMemoryPool/memPool.c:242-262 | with an unlimited budget nothing is evicted, the remaining budget stays 0, and every released block is retained |
| MemPoolLaws.ReleaseThenAllocReuses | DynamicMemoryPool/memPool.c:246-256 | releasing a retained block and then requesting its class hands back that same block and restores the lists and the budget |
| MemPoolLaws.CreatedValid | DynamicMemoryPool/memPool.c:380-416 | a new pool is valid and empty with hint 0; a capacity sets ceiling and remaining budget to ALIGN(Size,B)>>boundary, and a capacity of 0 leaves it unlimited |
| MemPoolLaws.MaxFreeSetKeepsBudget | DynamicMemoryPool/memPool.c:28-45 | resetting a finite ceiling keeps the lists and the conservation law: remaining plus retained equals the new ceiling |
| MemPoolLaws.DestroyLeaksTopBucket | DynamicMemoryPool/memPool.c:62 | with a positive hint, the head of the top bucket is held but never released by AllocatorDestroy |
| MemPoolLaws.DestroyCanCrash | DynamicMemoryPool/memPool.c:63-65 | a valid pool exists whose visited bucket is empty, so AllocatorDestroy dereferences a NULL head |
| MemPoolLaws.SmallConfigClass | DynamicMemoryPool/memPool.c:104-109 | a 10-byte request under a 128-byte boundary and a 128-byte minimum block is class 0 |
| MemPoolLaws.HintCanReachMinusOne | DynamicMemoryPool/memPool.c:130-138 | emptying bucket 0 while the hint is 0 leaves the hint at -1 and the pool valid |
| MemPoolLaws.OverflowIsFirstFitNotBestFit | DynamicMemoryPool/memPool.c:155-166 | free[0] is searched first-fit in list order: a class-9 request gets a class-12 block ahead of a class-9 one |
| MemPool.Allocator.Create | DynamicMemoryPool/memPool.c:397-413 | the new object is valid and stands for the created pool state |
| MemPool.Allocator.MaxFreeSet | DynamicMemoryPool/memPool.c:28-45 | AllocatorMaxFreeSet moves the remaining budget by the change of ceiling and clamps it |
| MemPool.Allocator.Alloc | DynamicMemoryPool/memPool.c:96-201 | the object takes exactly the AllocSpec step and stays valid |
| MemPool.Allocator.ScanBuckets | DynamicMemoryPool/memPool.c:115-127 | the scan loop returns the ScanUp bucket |
| MemPool.Allocator.TakeBucketHead | DynamicMemoryPool/memPool.c:129-153 | the list update and hint-lowering loop perform exactly TakeHead |
| MemPool.Allocator.FirstFitOverflow | DynamicMemoryPool/memPool.c:158-166 | the free[0] walk returns the FirstFit position |
| MemPool.Allocator.TakeOverflow | DynamicMemoryPool/memPool.c:167-180 | the unlink performs exactly TakeFromOverflow |
| MemPool.Allocator.Release | DynamicMemoryPool/memPool.c:209-294 | the chain loop and write-back perform exactly ReleaseSpec and keep the object valid |
| MemPool.Allocator.ReleaseLoop | DynamicMemoryPool/memPool.c:238-294 | the loop over the chain and the write-back of the hint and budget leave the object in the state ReleaseSpec gives, and return its side list |
| MemPool.Allocator.Destroy | DynamicMemoryPool/memPool.c:53-87 | when it does not crash, AllocatorDestroy releases exactly the buckets below the hint, in list order |
| MemPool.Allocator.DestroyAll | DynamicMemoryPool/memPool.c:53-87 | the corrected destroy releases every block the pool holds |
| MemPool.MemPoolCreate | DynamicMemoryPool/memPool.c:380-416 | NULL iff one of the two mallocs fails; otherwise a fresh valid pool in the created state |
| MemPool.MemPoolCreateDefault | DynamicMemoryPool/memPool.c:423-456 | the same with the default configuration and an unlimited budget |
| MessageQueue.Capacity | MessageQueue/queue.c:29-35 | the capacity chosen for a requested size, `size > 0 ? size : 1024`; that a new queue has it and is empty is stated by MessageQueue.Queue.Create |
| MessageQueue.RingContents | MessageQueue/queue.c:95-99 | the abstraction of the ring as its items, oldest first; FIFO behaviour is proved about it in MessageQueue.PushContents and MessageQueue.PopContents |
| MessageQueue.PushContents | MessageQueue/queue.c:79-83 | storing at tail and advancing it appends the item at the back and keeps tail == (header+size) % capcity |
| MessageQueue.PopContents | MessageQueue/queue.c:96-99 | advancing header drops exactly the front item and keeps the ring shape |
| MessageQueue.FreshRingIsPushOrder | MessageQueue/queue.c:79-102 | items pushed into an empty ring come out in push order |
| MessageQueue.Queue.Create | MessageQueue/queue.c:28-37 | capacity as chosen, header = tail = size = 0, empty contents, or a NULL buffer when its malloc fails |
| MessageQueue.Queue.IsFull | MessageQueue/queue.c:48-51 | full iff the queue holds capcity items |
| MessageQueue.Queue.IsEmpty | MessageQueue/queue.c:60-63 | empty iff the queue holds no item |
| MessageQueue.Queue.PushTail | MessageQueue/queue.c:73-85 | returns 0; a non-full queue gains the item at the back; a full queue drops it and is unchanged |
| MessageQueue.Queue.PopHead | MessageQueue/queue.c:93-103 | a non-empty queue yields and loses its oldest item; an empty one yields NULL and is unchanged |
| MessageQueue.QueueCreate | MessageQueue/queue.c:25-39 | NULL iff the record's malloc fails; otherwise an empty queue of the chosen capacity |
| MessageQueue.QueuePushTail | MessageQueue/queue.c:73-85 | -1 iff the queue is NULL; otherwise 0 with the push above |
| MessageQueue.QueueFree | MessageQueue/queue.c:112-122 | -1 iff the queue or its buffer is NULL, otherwise 0 with the buffer released |
| CText.Truncate | Log/log.c:189 | snprintf keeps the longest prefix that fits, and all of a string that fits |
| CText.DigitChar | Log/log.c:238 | the digit printed for d reads back as d |
| CText.Digits | Log/log.c:230 | a number prints as at least one digit |
| CText.DigitsInBase | Log/log.c:230 | every digit printed for a number is a digit below the base |
| CText.DigitsRoundTrip | Log/log.c:230 | reading back the printed digits of a number gives the number |
| CText.DigitsLength | Log/log.c:230 | a number in [base^(k-1), base^k) has exactly k digits |
| CText.Hex02Byte | Log/log.c:238 | `%02x` prints a byte as exactly two digits that read back as the byte |
| Logger.StoredLevel | Log/log.c:28-30 | the C conversion of the int level to the size_t field declared at Log/log.h:138: the value in [0, 2^64) congruent to the level modulo 2^64; its consequence is Logger.NegativeLevelSilences |
| Logger.ClampedLevel | Log/log.c:32-34 | the intended clamp, negative levels become 0; its consequence is Logger.ClampedLevelAdmitsAll |
| Logger.FilterName | Log/log.c:40-46 | a keyword or tag is stored as its first 15 characters |
| Logger.FormatLine | Log/log.c:184-189 | the line is prefix plus message when it fits, is always shorter than 65535, and starts with `[`, the level letter and `]` |
| Logger.Logger.constructor | Log/log.c:17 | the zeroed filter (level 0, no keyword, no tag) and no socket |
| Logger.Logger.LogInit | Log/log.c:28-48 | stores the level as size_t; a keyword, truncated, when given, and the tag only when there is no keyword |
| Logger.Logger.LogInitClamped | Log/log.c:28-48 | the same with the negative-level clamp in effect |
| Logger.Logger.Log | Log/log.c:155-213 | outcome and new socket are Decide of the old filter and socket; the filter is unchanged |
| Logger.EmittedIffAdmitted | Log/log.c:157-196 | a line is emitted iff level, flag, tag, socket, known level and keyword filters all pass; it then is the formatted line, fits the buffer, carries the level letter and contains the keyword |
| Logger.RoutingByFlag | Log/log.c:199-210 | console output iff flag is 1 or 3, in the level's colour; datagram iff flag is 2 or 3, the line plus its NUL |
| Logger.RaisingLevelAdmitsLess | Log/log.c:157 | raising the configured level never lets more through |
| Logger.SocketKept | Log/log.c:169-176 | a positive socket is kept; otherwise the new one, or -1 after a failure |
| Logger.NegativeLevelSilences | Log/log.c:30-34 | as written, any negative level given to LogInit drops every request |
| Logger.ClampedLevelAdmitsAll | Log/log.c:32-34 | with the clamp, a negative level lets a request through exactly when the other filters pass |
| Logger.LogFormatString | Log/log.c:132-142 | -1 iff buffer or format is NULL, else 0; the buffer holds the text cut to size-1, is untouched for size 0, and is uncut for a negative size |
| Logger.Group | Log/log.c:238 | one `%02x ` group, of the char read as a 32-bit unsigned int, ends in a space and has at least 3 characters |
| Logger.GroupOfByte | Log/log.c:238 | a value in [0, 256) prints as its two-digit `%02x` and a space, 3 characters |
| Logger.Overlay | Log/log.c:236-240 | writing groups from position pos keeps what lies before pos |
| Logger.DumpHeader | Log/log.c:230 | the "head:len:" header fits the buffer |
| Logger.LogBuf | Log/log.c:227-244 | the guard and the sprintf loop produce exactly LogBufSpec |
| Logger.WriteGroups | Log/log.c:236-240 | the sprintf loop, writing each group at tmp_len and advancing by 3, leaves exactly Overlay of the header and the first len bytes |
| Logger.HexDump | Log/log.c:236-240 | an unsigned dump has 3 characters per byte |
| Logger.OverlayNonNegative | Log/log.c:236-240 | for non-negative bytes the loop's output is the header followed by the unsigned dump |
| Logger.UnsignedDumpRoundTrip | Log/log.c:230-240 | the intended dump fits 65535 bytes with its NUL, is header plus 3 characters per byte, and each byte reads back from its two digits, followed by a space |
| Logger.GroupLength | Log/log.c:238 | a negative char prints 9 characters, any other 3 |
| Logger.NegativeLastByteOverruns | Log/log.c:231-240 | as written, a negative last byte makes the text 6 characters longer than the guard assumed |
| Logger.GuardAdmitsOverrun | Log/log.c:231-240 | some input passes the length guard and still produces a text that, with its NUL, does not fit out_buf |
| Logger.HexOfMinusOneTwentyEight | Log/log.c:238 | byte 0x80 passed as a signed char prints "ffffff80 " |
| Logger.DumpHeaderOfTwo | Log/log.c:230 | the header for head "h" and length 2 is "h:2:" |
| Logger.DumpOfHighByte | Log/log.c:227-240 | as written, bytes {0x80, 0x01} dump as "h:2:fff01 " |
| Logger.UnsignedDumpOfHighByte | Log/log.c:227-240 | as intended, the same bytes dump as "h:2:80 01 " |
| AvicLog.LastSlash | Log/avic_log.c:87-93 | the position of the last '/' among the first n characters, or none |
| AvicLog.GetLogFolderPath | Log/avic_log.c:80-101 | the backward scan and cut compute exactly FolderPath |
| AvicLog.FolderPathIsExeDirectory | Log/avic_log.c:83-99 | fails iff readlink fails or returns 65534 or more, or the result exceeds maxlen; otherwise the executable's path up to its last '/' followed by "log/", or the path unchanged when it contains no '/' |
| AvicLog.InitLogFile | Log/avic_log.c:140-158 | 0 iff the folder path succeeds and the folder exists or is created; the path is then the folder plus "log" |
| AvicLog.LogFileBesideExecutable | Log/avic_log.c:140-158 | the log file of "/opt/app/server" is "/opt/app/log/log" |
| AvicLog.GetSysTimeString | Log/avic_log.c:113-130 | -1 iff the buffer is NULL, the size is not positive or the zone is outside [-11, 11]; otherwise the clock moves by whole hours |
| AvicLog.LogSafeSprintf | Log/avic_log.c:284-305 | 0 and buffer untouched for NULL or non-positive size; 0 and empty on a format error; otherwise the untruncated length, with the buffer holding the text cut to max_len-1 |
| AvicLog.UntruncatedLengthOverruns | Log/avic_log.c:300-304 | a text of 65535 characters or more is reported with a length that is no index into the buffer |
| AvicLog.LogSafeSprintfClamped | Log/avic_log.c:300-304 | the intended variant leaves the same buffer contents |
| AvicLog.ClampedLengthFits | Log/avic_log.c:300-304 | the intended result is the length of the buffer's string and a valid index into it |
| AvicLog.LogFileRename | Log/avic_log.c:198-236 | the descending rename loop performs exactly the rotation when the size exceeds 2 MiB, and nothing otherwise |
| AvicLog.RotatedHistoryUpTo | Log/avic_log.c:207-227 | after rotation, files 1..k hold what files 0..k-1 held |
| AvicLog.RotationDropsOnlyOldest | Log/avic_log.c:207-227 | rotation empties the base file, shifts each suffix by one, and loses only log5: the old history is log5 followed by the new history |
| AvicLog.WriteOneKeepsOrder | Log/avic_log.c:371-378 | writing one line and rotating keeps the history order, losing at most a prefix, and leaves the base file within 2 MiB |
| AvicLog.FlushKeepsOrder | Log/avic_log.c:369-381 | flushing a batch appends its lines after the history, losing at most the oldest part, and leaves the base file within 2 MiB |
| AvicLog.EmptyBatch | Log/avic_log.c:61-71 | the zeroed batch has the batch shape |
| AvicLog.Pending | Log/avic_log.c:369-371 | a flagged batch has 100 pending messages, otherwise index many |
| AvicLog.LogBufferSpec | Log/avic_log.c:168-188 | LogBuffer keeps the batch shape |
| AvicLog.LogBufferRefuses | Log/avic_log.c:171-174 | -1 with nothing changed iff the message is NULL, over 4096 bytes, or the batch awaits writing; otherwise 0 |
| AvicLog.LogBufferAppends | Log/avic_log.c:182-185 | below 100 messages, an accepted message is appended to the pending ones |
| AvicLog.HundredFirstMessageLost | Log/avic_log.c:177-181 | at index 100 the call returns 0 and sets the flag but stores nothing |
| AvicLog.Feed | Log/avic_log.c:367 | a run of messages fed to LogBuffer keeps the batch shape |
| AvicLog.FeedCollects | Log/avic_log.c:175-185 | up to 100 messages are all pending, in order, with the flag clear |
| AvicLog.HundredFirstLostInRun | Log/avic_log.c:177-181 | of 101 messages in a row the batch holds only the first 100 when flagged |
| AvicLog.LogBufferFixedSpec | Log/avic_log.c:177-185 | the corrected LogBuffer keeps the batch shape |
| AvicLog.FixedNeverLoses | Log/avic_log.c:171-185 | with the fix, refusal is as before, every accepted message is appended, and the flag is set exactly when 100 are pending |
| AvicLog.Texts | Log/avic_log.c:371 | the `mes` texts of the pending messages, in order; that they are written in order is AvicLog.MessageBuffer.Flush and AvicLog.FlushKeepsOrder |
| AvicLog.MessageBuffer.constructor | Log/avic_log.c:71 | a new buffer is the zeroed batch |
| AvicLog.MessageBuffer.LogBuffer | Log/avic_log.c:168-188 | the slot array and fields take exactly the LogBufferSpec step |
| AvicLog.MessageBuffer.LogBufferFixed | Log/avic_log.c:168-188 | the same for the corrected step |
| AvicLog.WriteMessage | Log/avic_log.c:371-378 | one fprintf of a line and the rename check give exactly WriteOne |
| AvicLog.MessageBuffer.Flush | Log/avic_log.c:369-381 | writes the 100 pending texts in order, rotating after each, and leaves an empty batch |

## Findings

| source | as written | input that shows it | evidently intended | confidence | as-written member | corrected member |
|---|---|---|---|---|---|---|
| Log/log.c:30-34 | the level is stored in a `size_t` field (Log/log.h:138), so `level < 0` never holds and a negative level becomes a huge one | `LogInit(-1, NULL, NULL)`, then any `Log` call | negative levels clamp to 0 and admit everything | not executed | Logger.NegativeLevelSilences | Logger.ClampedLevelAdmitsAll |
| Log/log.c:238 | `buf[i]` is a `char` passed to `%02x`, so a byte ≥ 0x80 prints as 8 hex digits; the length guard assumes 3 per byte | bytes {0x80, 0x01} with head "h" dump as "h:2:fff01 "; a head of 65525 characters with the one byte 0x80 passes the guard and writes past `out_buf` (Logger.GuardAdmitsOverrun) | each byte printed as two hex digits of its unsigned value | not executed | Logger.DumpOfHighByte | Logger.UnsignedDumpRoundTrip |
| Log/avic_log.c:300-304 | the untruncated length is returned, and the caller writes `log_write_buf[ret]` (Log/avic_log.c:365) | a datagram of 65506 characters or more: with the 29-character "[time]:" prefix, ret ≥ 65535 | return the length actually held in the buffer | not executed | AvicLog.UntruncatedLengthOverruns | AvicLog.ClampedLengthFits |
| Log/avic_log.c:177-181 | the call that finds all 100 slots used only sets the flag and returns 0 without storing its message | 101 messages in a row: the 101st is never written | the message that fills the last slot sets the flag, so no accepted message is lost | not executed | AvicLog.HundredFirstLostInRun | AvicLog.FixedNeverLoses |
| DynamicMemoryPool/memPool.c:62-65 | AllocatorDestroy walks buckets below `max_index` only, and reads `Next->next` before its NULL test | a pool whose only block has class 2: bucket 0 is empty (crash), and bucket 2 is never freed | free every block of every bucket | not executed | MemPoolLaws.DestroyCanCrash | MemPool.Allocator.DestroyAll |

## Left out

- The pthread mutexes are not modelled: the pool lock, the per-block lock, AllocatorNodeLock and AllocatorNodeUnlock. Each operation is one atomic step, so the unlocked read of `max_index` before the lock (DynamicMemoryPool/memPool.c:115) is not modelled.
- malloc and free of memory are not modelled. A block is a record `Block(addr, index)`, and the block malloc would return is a parameter (`None` for a failed malloc). Header recovery by pointer offset is left out.
- A release chain is a sequence of blocks. MemPool.Allocator.Release requires a non-empty chain of blocks that the pool does not hold, because releasing NULL is undefined behaviour and double-free detection exists only under `PRINTF`.
- DisplayPool and AllocatorSelect are left out: they only print.
- The global wrappers are left out (DynamicMemoryPool/memPool.c:469-536 and the macros of memPool.h:210-240), because they only forward to the allocator.
- Integer overflow of `int` is not modelled:
  - in size-class arithmetic on huge requests;
  - in `len * 3` in LogBuf;
  - in `1 << boundary` for large boundary exponents.
- Negative request sizes are not modelled: Alloc requires a size ≥ 0.
- MemPool.MemPoolCreate requires `MaxIndex ≥ 1`, because a pool with no list heads cannot hold a block.
- The free lists are sequences rather than linked `next` pointers.
- The asynchronous queue functions and ThreadPool are left out, because they exist for condition-variable blocking.
- QueueCreate's byte-sized `malloc(size)` is left out: the buffer is modelled as `capcity` slots.
- A queued NULL data pointer cannot be told apart from an empty pop in the source. The model returns `Option` instead.
- Sockets are left out: creation, bind, sendto and perror. Socket creation is a parameter of Logger.Decide (the descriptor socket() would return).
- printf, getpid, gettid and vsnprintf are left out. The formatted message text and the process and thread ids are inputs.
- The clock read and calendar formatting of GetSysTimeString are left out. Only the guard and the hour shift are modelled.
- File operations are modelled as a map from suffix to contents, where a missing file reads as empty. fopen failure and the `ftell` cast are not modelled. The base file is written line by line.
- The server's main receive loop is left out, including its reset of `max_len` on every iteration. Only the flush of a flagged batch is modelled.
- The demo programs and the UDP broadcast tools are left out.
- AvicLog.LogBufferSpec: a negative `buf_size` (passed to malloc) is not modelled; the message text and the given size are stored as they are.
- AvicLog.GetLogFolderPath: the fixed 65535-byte buffers are not modelled. Paths near that length, which Linux does not produce, would overrun them through `strcat`.
- Logger.LogBuf assumes a platform where `char` is signed. On an unsigned-char platform the source prints like Logger.LogBufUnsigned.
- Strings stand for their byte sequences, one `char` per byte; character encodings are not modelled. The byte limits (15-byte filter names, the 4096-byte message limit, the 65535-byte buffers, the 2 MiB file size) count these chars.
- Logger.Decide: a socket descriptor of 0 is treated as "no socket", as the source does, so a new socket is made on the next call.
