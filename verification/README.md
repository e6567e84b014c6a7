# Verified model of the BeeGFS client's data paths

The BeeGFS client keeps file data, file sizes, remote file handles, inode validity and access rights on
one machine in step with metadata and storage servers that answer late, in part or not at all. This
project models the parts of the client that decide this, and states what they guarantee: for every
input, every sequence of operations, or every interleaving of the threads involved.

Integers are unbounded. The servers are a file together with a script of answers: complete, short (with
bytes of other stripe targets stored but not counted) or an error (again with bytes stored). Locks are
the granularity of steps: what the client does under one lock is one method call or one step, and what
others do while a lock is dropped is part of the script.

## Components

| files | what they model |
|---|---|
| `FileBytes`, `Remote` | file contents, positioned and partial writes, the servers by contract |
| `FileCache`, `CacheRuns` | the buffered file cache: one read or write buffer per inode, and whole sequences of calls on it |
| `SparseRead` | striping, and reads that fill holes with zeros |
| `PageRange`, `WriteBack`, `WriteOrder`, `WriteBackRuns`, `Barrier` | the page cache: dirty ranges, batches, their completion in any order, and waiting for them |
| `Flusher`, `FlushVisit` | the asynchronous flusher against users of the same inodes, and what one visit does to a buffer |
| `InvalSession`, `ThreadRegistry` | remote cache invalidation: sessions that make inodes valid, and the threads that keep them |
| `SizeGuard` | the rule against shrinking a file with an outdated answer |
| `Options`, `Counting`, `HandleTable`, `RetryQueue`, `AckQueue` | remote handles, and the queues of work to be retried |
| `AclXdr`, `AclPolicy`, `AclEval` | NFSv4 ACLs: decoding, preparing, evaluating |
| `EntryId` | entry ids as text |

## Where the code falls short of what it promises

Each of these is stated as a lemma or contract, next to what holds instead.

- A remote write that stores nothing answers zero, and a flush passes that on as error code 0, which is
  success, while the buffer stays attached (`FlushCacheUnlocked`). The next write loses it or lets it
  undo newer bytes (`FlushAndWrite`, `WriteAfterZeroFlush`, `ZeroAnswerUndoesWrite`), the next read misses
  its bytes (`ReadAfterZeroFlush`, `ZeroAnswerMisreads`), and the flusher drops its last reference to it (`StepKeepsFindable`,
  `ZeroAnswerStrandsBuffer`). A call keeps the cache valid and its buffers owned exactly when it does not
  go on to take a new buffer after such a flush (`WriteCached`, `ReadCached`).
- Slow start reads ahead 64 KiB regardless of buffer and chunk size (`ReadAheadFitsExactly`); nothing
  enforces that minimum for the buffer size.
- A repeated flush of an append buffer duplicates whatever the earlier attempt stored (`AppendRetryExact`).
- The flusher's comments give a buffer up only after an unrecoverable error on a file that is no longer
  open. The code gives it up after every error but a communication error and "in use", open or not, and
  after a communication error on a closed file (`VisitInode`, `GivenUpWhileOpen`); what is then lost is exactly what
  neither of two attempts stored (`TwoAttemptsExact`).
- Bumping a session counter tests `sessionValid` and increments in two steps; two threads doing so at
  once can revive an ended session (`LateBumpRevivesSession`). A bump is harmless exactly when the flag is
  still set at that moment (`LateBumpKeepsInv`), and if all are, no session comes back
  (`EndedSessionsStayEnded`).
- Size hints made without an inode, as lookups make them, do not protect the size (`LookupHintsDoNotProtect`).
- The background retry of a close drops it on any result but a communication error, an interruption
  included (`RetryClose`, `Run`).
- A page whose flush was answered short keeps its dirty range, and a write apart from it then marks bytes
  dirty that nobody wrote (`Page.Write`).
- The comment on ACL evaluation gives denials precedence; the code lets the first matching entry decide
  (`Eval`; `OrderDecides` is an example). Skipping unresolved names is fail-safe for whitelists (`WhitelistIsFailSafe`),
  not for denials of named users in general (`NamedDenyIsNotFailSafe`), and `FailSafeExactly` says for
  which ACLs.

## Model

| member | source | states |
|---|---|---|
| `CacheRuns.Run` | client_module/source/filesystem/FhgfsOpsHelper.c:333-849 | Every sequence of cached reads, positioned writes, appends and flushes through any number of open files, with complete remote calls, gives exactly the answers of a plain file without a cache; the logical file follows the plain one, a final flush leaves it on the servers, and no buffer is gained or lost |
| `CacheRuns.Step` | client_module/source/filesystem/FhgfsOpsHelper.c:333-667 | One cached call returns what the plain file returns, changes the logical file as the plain call would, and a flush makes server and logical file equal |
| `CacheRuns.RunUnderFaults` | client_module/source/filesystem/FhgfsOpsHelper.c:333-878 | With any short counts (reads of zero bytes included), remote errors and user memory faults, up to the first operation that does harm because of a zero answer to a write (a read or a write that builds on such a flush, a flush that then discards, an append buffer of which bytes arrived uncounted): every state keeps the buffer bounded and all buffers owned; each call tells exactly the count or error that follows from what is attached and from the answers it meets; whatever a write counts can be read back, and one reported in full was done; a read that reports bytes returns bytes of the logical file, a flush that reports success leaves the logical file as it is; and while no append is pending, a failed write changes at most its own range, a failed read nothing, a failed flush nothing unless told to discard. Without appends that is the whole run; without zero answers to writes the run is never cut |
| `CacheRuns.FaultyStep` | client_module/source/filesystem/FhgfsOpsHelper.c:333-667 | The same for a single call that is not such an operation; a flush that reports success and was not answered with zero left the logical file on the servers |
| `CacheRuns.ReadErrorsExactly` | client_module/source/filesystem/FhgfsOpsHelper.c:474-849 | In any step of such a run, with the user's memory in order, a read reports an error if and only if the servers do, to the flush before it or to one of its own requests; no error is taken for the end of the file |
| `CacheRuns.ShortReadsExactly` | client_module/source/filesystem/FhgfsOpsHelper.c:474-849 | A read without errors returns everything the file has in its range unless a server answered short |
| `CacheRuns.WriteErrorsAreTold` | client_module/source/filesystem/FhgfsOpsHelper.c:406-423 | A write that must first flush a buffer and cannot reports the servers' error code, never a count |
| `CacheRuns.CountedIsReadBack` | client_module/source/filesystem/FhgfsOpsHelper.c:333-465 | Whatever number of bytes a write counts, a read of that many at its place gives them back |
| `CacheRuns.StaysPositioned` | client_module/source/filesystem/FhgfsOpsHelper.c:333-667 | A run without appends never has an append pending, so every step of it is held to the strict form |
| `CacheRuns.ReadAfterZeroFlush` | client_module/source/filesystem/FhgfsOpsHelper.c:553-569 | A read that builds on a flush answered with zero bytes reports success and is right if and only if every position it covers is in the servers' file and holds the buffered byte, if there is one |
| `CacheRuns.WriteAfterZeroFlush` | client_module/source/filesystem/FhgfsOpsHelper.c:406-423 | A write that builds on a flush answered with zero bytes and reports success. Into a new buffer: the file is right if and only if the write makes up for the buffered bytes that the servers lack. To the servers below the old buffer: if and only if it agrees with the buffered bytes wherever it meets them. With no buffer free there is no logical file |
| `CacheRuns.ZeroAnswerMisreads` | client_module/source/filesystem/FhgfsOpsHelper.c:1334-1374 | A concrete case: one byte is buffered, and a read that reports success finds the file empty |
| `CacheRuns.ZeroAnswerUndoesWrite` | client_module/source/filesystem/FhgfsOpsHelper.c:406-423 | A concrete case: a newer write goes to the servers below an older buffered one, and the next flush undoes it |
| `CacheRuns.RetryFlush` | client_module/source/filesystem/FhgfsOpsHelper.c:1334-1374 | Flushing a positioned buffer any number of times, whatever the answers, leaves users the same file; the servers hold what the attempts left, and the whole file once the buffer is gone |
| `FileCache.InodeCache.WriteCached` | client_module/source/filesystem/FhgfsOpsHelper.c:333-465 | Buffers are conserved and the cache stays valid if and only if it is not the case that the buffer in the way is flushed with a zero answer and a new one is wanted. If no such flush is in the way, a write reported in full is in the logical file if and only if it does not fill an append buffer whose flush is answered with zero although bytes arrive; what it counts can be read back; with no append pending a failed one changes only its own range. If the flush in the way fails, its error is the result. The exact result of continuing a buffer, of filling it and of starting one, and the exact hit counter. After a flush answered with zero: the new write goes on top of what the servers had; or to the servers below the buffered bytes; or the write buffer is null. A write with room to spare makes no remote call |
| `FileCache.InodeCache.FlushAndWrite` | client_module/source/filesystem/FhgfsOpsHelper.c:406-423 | The flush before a write that does not fit. If it fails, its error code is the result; otherwise the result is that of the write, and what it counts can be read back. The cache stays valid with all its buffers if and only if the flush is not answered with zero or no new buffer is wanted. After a zero answer: the old buffer is lost and the logical file is the write on top of what the servers had; or, with no buffer free, the write buffer is null; or the write goes to the servers below the older buffered bytes |
| `FileCache.InodeCache.FlushMissed` | client_module/source/filesystem/FhgfsOpsHelper.c:406-419 | A miss is counted and whatever is attached flushed: the code, what the servers hold, and that only a failed flush or one answered with zero leaves the buffer |
| `FileCache.InodeCache.ExtendWriteBuffer` | client_module/source/filesystem/FhgfsOpsHelper.c:425-454 | Continuing the write buffer equals writing to the logical file; exactly a full buffer is flushed, and the result is then the flush's error or the whole count; success is untrue exactly if the buffer appends, the flush is answered with zero, and bytes arrive |
| `FileCache.InodeCache.FlushFull` | client_module/source/filesystem/FhgfsOpsHelper.c:441-454 | The flush of a full buffer: its code, and that users see the same file unless an append buffer of which bytes arrived stays |
| `FileCache.InodeCache.WriteFresh` | client_module/source/filesystem/FhgfsOpsHelper.c:368-398 | A write with no write buffer attached: the hit counter as the guess about a buffer says, a read buffer is dropped, and the logical file gets the write |
| `FileCache.InodeCache.MayCacheWriteExactly` | client_module/source/filesystem/FhgfsOpsHelper.c:692-715 | A write is buffered only if the file may be cached, it appends or hits are positive, and it and one more byte fit into one buffer and, unless it appends, into one chunk; and if all that holds it may be |
| `FileCache.InodeCache.WriteRoomExactly` | client_module/source/filesystem/FhgfsOpsHelper.c:699-709 | A new write buffer gets all the room there is in buffer and chunk |
| `FileCache.RoomExactly` | client_module/source/filesystem/FhgfsOpsHelper.c:705-708 | Bytes have room if and only if they fit into a buffer and all lie in the chunk of the first |
| `FileCache.WrittenHolds` | client_module/source/filesystem/FhgfsOpsHelper.c:333-465 | What a completed write put into the file is read back from there |
| `FileCache.FlushCodeExactly` | client_module/source/filesystem/FhgfsOpsHelper.c:1334-1374 | A flush passes error codes on, reports a part stored as no space (14) and nothing stored as success |
| `FileCache.FileInfo.IncCacheHits` | client_module/source/filesystem/FsFileInfo.c:67-71 | The hit counter goes up by one and stops at 5 |
| `FileCache.FileInfo.DecCacheHits` | client_module/source/filesystem/FsFileInfo.c:78-82 | The hit counter goes down by one and stops at -5 |
| `FileCache.InodeCache.CopyBehind` | client_module/source/filesystem/FhgfsOpsHelper.c:425-454 | Copying new bytes behind the buffered ones is the write of both in one |
| `FileCache.InodeCache.WriteCacheFlushed` | client_module/source/filesystem/FhgfsOpsHelper.c:680-753 | Writing without a buffer: starts a buffer with all the room there is when caching is worth while and one is free, otherwise writes through with the servers' answer as result; in both cases the logical file gets the write and what is counted can be read back, and a user fault gives the buffer back. Also what happens to a buffer that is still attached |
| `FileCache.InodeCache.StartWriteBuffer` | client_module/source/filesystem/FhgfsOpsHelper.c:719-752 | A new write buffer holds exactly the data, stays within its stripe chunk and makes the logical file the written one |
| `FileCache.InodeCache.WriteThrough` | client_module/source/filesystem/FhgfsOpsHelper.c:185-200 | An uncached write returns the servers' answer; reported as complete it is on the servers, what is counted can be read back, and otherwise only bytes of its range changed |
| `FileCache.InodeCache.ReadCached` | client_module/source/filesystem/FhgfsOpsHelper.c:474-667 | A read returns a prefix of the logical file's bytes at its offset, all of them with complete remote calls, whatever buffer is attached and whatever the servers answer to reads; the exact count or error for each kind of buffer, so that a failed flush or remote read is reported as that error; the exact hit counter; a hit inside the read buffer makes no remote call and keeps the buffer. Only after a flush answered with zero bytes it returns the servers' bytes without the buffered ones; then the buffer is lost, or null, exactly if the read is cached |
| `FileCache.InodeCache.FlushAndRead` | client_module/source/filesystem/FhgfsOpsHelper.c:553-592 | The flush before a read: its error is the result if it fails; otherwise the read's own, with both outcomes of a zero answer |
| `FileCache.InodeCache.ReadFresh` | client_module/source/filesystem/FhgfsOpsHelper.c:505-551 | A read with no buffer attached: direct on the fast path, otherwise counted as the guess about a buffer says and possibly read ahead; the servers' error or count is told |
| `FileCache.InodeCache.ReadFromInside` | client_module/source/filesystem/FhgfsOpsHelper.c:617-660 | A read that starts in the read buffer: inside it nothing changes; behind it the rest is read anew, and its error, if any, is the result |
| `FileCache.InodeCache.ReadAcrossStart` | client_module/source/filesystem/FhgfsOpsHelper.c:601-660 | A read that starts before the read buffer is put together from remote bytes before it, buffered bytes and bytes behind it, with no byte missing or doubled; an error or short answer for the front is the result and drops the buffer |
| `FileCache.InodeCache.ReadFromBuffer` | client_module/source/filesystem/FhgfsOpsHelper.c:617-660 | The same once the front is there, with the exact count |
| `FileCache.InodeCache.OverlapsExactly` | client_module/source/filesystem/FhgfsOpsHelper.c:573-577 | The overlap test holds, for a read of at least one byte, if and only if read and buffer have a byte in common |
| `FileCache.InodeCache.ReadFront` | client_module/source/filesystem/FhgfsOpsHelper.c:601-615 | The part before the buffer comes from the servers and is complete, or the buffer is dropped |
| `FileCache.InodeCache.CopyFromBuffer` | client_module/source/filesystem/FhgfsOpsHelper.c:617-632 | The buffered part joined to the part before it is what the file holds there |
| `FileCache.InodeCache.ReadRest` | client_module/source/filesystem/FhgfsOpsHelper.c:635-656 | The part behind the buffer is read anew after dropping it, and the whole is a read of the file; an error of that part is the result, otherwise both counts together |
| `FileCache.InodeCache.ReadCacheFlushed` | client_module/source/filesystem/FhgfsOpsHelper.c:764-849 | Reading without a buffer gives the file's bytes and attaches at most a read buffer that mirrors the servers; the servers' error or count is told |
| `FileCache.InodeCache.StartReadBuffer` | client_module/source/filesystem/FhgfsOpsHelper.c:796-848 | Read-ahead into a fresh buffer: the user gets the start of what was read, or the servers' error; the buffer stays attached exactly if something was read and copied, holding exactly that |
| `FileCache.InodeCache.ServeAhead` | client_module/source/filesystem/FhgfsOpsHelper.c:821-848 | What the user gets of the bytes read ahead, and that an error or nothing read gives the buffer back |
| `FileCache.InodeCache.MayCacheReadExactly` | client_module/source/filesystem/FhgfsOpsHelper.c:779-791 | A read fills a buffer only if caching is allowed, hits are positive, there are not several readers, and it and one more byte fit into one buffer and one chunk; and if all that holds it may |
| `FileCache.AheadCount` | client_module/source/filesystem/FhgfsOpsHelper.c:821-830 | What the longer request brings of the shorter one is what the shorter one would have been told |
| `FileCache.InodeCache.FlushCacheUnlocked` | client_module/source/filesystem/FhgfsOpsHelper.c:1334-1374 | A write buffer survives a flush exactly when the servers did not take all of it and discarding is off; the reported code and the servers' file; success means that the servers hold the logical file unless the answer was zero; a positioned buffer that survives leaves the logical file unchanged |
| `FileCache.InodeCache.DiscardCache` | client_module/source/filesystem/FhgfsOpsHelper.c:856-878 | Discarding returns the buffer to the pool; free plus attached buffers stay the same set |
| `FileCache.InodeCache.constructor` | client_module/source/filesystem/FhgfsOpsHelper.c:333-465 | An inode starts without a buffer, its logical file being the server's; the cache is sound if and only if chunks and buffers hold at least the 64 KiB of the slow start |
| `FileCache.ReadAheadFitsExactly` | client_module/source/filesystem/FhgfsOpsHelper.c:811-818 | Read-ahead stays inside buffer and chunk for every cacheable read if and only if both hold at least the 64 KiB of the slow start |
| `FileCache.ReadAheadExactly` | client_module/source/filesystem/FhgfsOpsHelper.c:780-818 | Read-ahead asks for more than the read wants, inside one buffer and one chunk, and, slow start apart, for all of the buffer or up to the end of the chunk |
| `FileCache.ChunkEnd` | client_module/source/common/storage/striping/StripePattern.h:124-151 | The last position of the chunk: at or behind the given one, in the same chunk, and the next position is in the next chunk |
| `FileCache.BufferStore.InstantBuf` | client_module/source/toolkit/NoAllocBufferStore.c:216-236 | A free buffer if there is one, taken out of the pool and nowhere else changed |
| `FileCache.BufferStore.AddBuf` | client_module/source/toolkit/NoAllocBufferStore.c:241-259 | The pool gains exactly the returned buffer |
| `FileCache.WrittenChain` | client_module/source/filesystem/FhgfsOpsHelper.c:425-454 | A write continued right behind it is one longer write, for offsets and for appends |
| `FileBytes.MissedWriteExact` | client_module/source/filesystem/FhgfsOpsHelper.c:553-569 | A read that misses a buffered write is right if and only if it stays inside the old file and the bytes were there before |
| `FileBytes.LostWriteExact` | client_module/source/filesystem/FhgfsOpsHelper.c:406-423 | A lost write does not matter after a later one if and only if the file still gets as long and its bytes are overwritten or were there before |
| `FileBytes.ExchangeExact` | client_module/source/filesystem/FhgfsOpsHelper.c:406-423 | Two writes can be exchanged if and only if they agree wherever they meet |
| `Remote.RetriesAreIdempotent` | client_module/source/filesystem/FhgfsOpsHelper.c:1200-1243 | Any number of attempts to send the same bytes to the same place leave a file in which one complete write ends as in the first; used for the cache's flush in CacheRuns.RetryFlush |
| `Remote.AppendRetryExact` | client_module/source/filesystem/FhgfsOpsHelper.c:114-159 | Repeating a flush of an append buffer is harmless if and only if the earlier attempt stored nothing |
| `Remote.StoredIsPartial` | client_module/source/net/filesystem/FhgfsOpsRemoting.c:1466-1586 | Whatever stripe targets stored of a write, only bytes of its range change, and a complete answer means a complete write |
| `Remote.StoredThenRest` | client_module/source/net/filesystem/FhgfsOpsRemoting.c:1388-1450 | When the counted prefix has arrived, writing only the rest completes the write even if other bytes arrived uncounted |
| `Remote.CountedHolds` | client_module/source/net/filesystem/FhgfsOpsRemoting.c:1466-1586 | Bytes that are counted have arrived |
| `Remote.AnythingMayArrive` | client_module/source/net/filesystem/FhgfsOpsRemoting.c:1466-1586 | The servers of the model may store any set of bytes of a failed write and count any beginning of it |
| `Remote.Server.Write` | client_module/source/net/filesystem/FhgfsOpsRemoting.c:1388-1450 | A remote write by contract: the count or error reported and the file it leaves, at the end of the file for appends |
| `Remote.Server.Read` | client_module/source/net/filesystem/FhgfsOpsRemoting.c:1722-1865 | A remote read by contract: a count or error, and that many bytes of the file |
| `SparseRead.ReadCommon` | client_module/source/filesystem/FhgfsOpsFile.c:936-1005 | A user's read returns bytes of the file with holes as zeros, and all of the range if and only if the buffered read had all or the known size goes beyond what it returned; its exact count, and an error exactly if the buffered read or one of the chunk reads made has one |
| `SparseRead.ReadUser` | client_module/source/filesystem/FhgfsOpsFile.c:936-1005 | The same with the buffered read itself: short answers, as over holes, never make a read wrong, and if the known size is not behind they never make it short; an error of a flush in its way, or of its own remote read, is reported |
| `SparseRead.ReadSparse` | client_module/source/filesystem/FhgfsOpsFile.c:1016-1051 | The slow path returns exactly min(size, i_size - offset) bytes of the file, holes as zeros, or the first error of the chunk reads it makes |
| `SparseRead.ReadOrClear` | client_module/source/filesystem/FhgfsOpsHelper.c:926-957 | The chunk loop ends and yields the whole range, each byte from its chunk file or zero, unless one of the reads fails, one for each chunk touched: then the first error |
| `SparseRead.ReadChunk` | client_module/source/net/filesystem/FhgfsOpsRemoting.c:1722-1865 | A short answer for one chunk, filled with zeros, is the file's content there |
| `SparseRead.LocalOffsetMeaning` | client_module/source/net/filesystem/FhgfsOpsRemoting.c:2528-2561 | The computed chunk file offset is the number of whole chunks the target holds before, times the chunk size, plus the place in the chunk |
| `SparseRead.StripingIsInjective` | client_module/source/net/filesystem/FhgfsOpsRemoting.c:2528-2561 | No two file positions share a target and an offset |
| `SparseRead.Raid0IsChunked` | client_module/source/common/storage/striping/Raid0Pattern.c:24-29 | Each chunk lies in one piece in one target's chunk file |
| `SparseRead.UpToChunkEnd` | client_module/source/common/storage/striping/StripePattern.h:124-151 | All positions up to the chunk end are in the chunk |
| `PageRange.SettersKeepOtherField` | client_module/source/filesystem/FhgfsOpsFileNative.c:109-119 | Each setter stores its value, cut to its field, and keeps the other field of the packed word |
| `PageRange.MergeExactIffTouching` | client_module/source/filesystem/FhgfsOpsFileNative.c:138-145 | Merging marks exactly the union of both ranges if and only if they overlap or touch |
| `PageRange.CanMergeExact` | client_module/source/filesystem/FhgfsOpsFileNative.c:121-136 | The merge test accepts exactly the gap-free ranges that do not stick out on both sides |
| `PageRange.MergeIsHull` | client_module/source/filesystem/FhgfsOpsFileNative.c:138-145 | Merging gives the smaller first and the larger last byte |
| `PageRange.Page.WriteBegin` | client_module/source/filesystem/FhgfsOpsFileNative.c:1427-1448 | Exactly a range that cannot be merged is flushed first; an error of that flush stops the write, and the page becomes clean exactly if the flush clears it |
| `PageRange.Page.WriteEnd` | client_module/source/filesystem/FhgfsOpsFileNative.c:1450-1480 | After a copy the range is exact unless it was standing and lies apart from the new bytes |
| `PageRange.Page.Write` | client_module/source/filesystem/FhgfsOpsFileNative.c:1427-1480 | The bytes written since the page was last clean become exactly those before, or none if a needed flush cleared the page, plus the new ones; the dirty range is exactly these, except exactly when a flush answered short left a range standing apart from the new one; a write fails only if a needed flush finds no handle, and then changes nothing |
| `PageRange.WriteRun` | client_module/source/filesystem/FhgfsOpsFileNative.c:1427-1480 | Any sequence of full-copy writes to a clean page whose flushes complete, are given up or cannot start marks exactly the bytes written since the last flush, as defined from the sequence of writes alone |
| `PageRange.JoinsIsCanMerge` | client_module/source/filesystem/FhgfsOpsFileNative.c:121-136 | On an exact range the merge test says whether the new bytes touch the set of old ones without enclosing it |
| `WriteBack.SentLandsInPlace` | client_module/source/filesystem/FhgfsOpsFileNative.c:745-773 | Sending the concatenated pieces of a batch at one offset puts every byte where its page says |
| `WriteBack.Prepare` | client_module/source/filesystem/FhgfsOpsFileNative.c:745-773 | Offset, payload and lengths gathered for a batch are those of its pieces in order |
| `WriteBack.Complete` | client_module/source/filesystem/FhgfsOpsFileNative.c:806-838 | Pages whose bytes are all counted become clean, the others stay dirty, or are given up after an error |
| `WriteBack.CompletionPreserves` | client_module/source/filesystem/FhgfsOpsFileNative.c:806-838 | After any count without an error the servers' file under the pages that stay dirty equals the file under the whole batch |
| `WriteBack.WritepagesWork` | client_module/source/filesystem/FhgfsOpsFileNative.c:775-841 | One batch sent and completed: no dirty byte is lost without an error, and with one nothing outside the batch changes |
| `WriteBack.KeptIsTail` | client_module/source/filesystem/FhgfsOpsFileNative.c:806-838 | The pages that stay dirty are a tail of the batch, and everything before it is stored |
| `WriteBack.FlushPage` | client_module/source/filesystem/FhgfsOpsFileNative.c:1033-1046 | Flushing one page: it becomes clean, is given up or stays dirty as the servers' answer says, and unless that is an error no dirty byte is lost |
| `WriteBackRuns.WritePages` | client_module/source/filesystem/FhgfsOpsFileNative.c:922-1005 | Every dirty page goes into exactly one batch, in order; batches respect the block size, are contiguous and share no byte, and no batch could have taken the page that begins the next |
| `WriteBackRuns.AddPage` | client_module/source/filesystem/FhgfsOpsFileNative.c:922-944 | Taking one more page keeps batches well formed and loses no page |
| `WriteBackRuns.WriteBackPreservesFile` | client_module/source/filesystem/FhgfsOpsFileNative.c:775-841 | Over any sequence of completions in any order with any short counts the users' file stays the same, and once nothing is in flight the servers hold it |
| `WriteBackRuns.BatchesArePages` | client_module/source/filesystem/FhgfsOpsFileNative.c:745-773 | Sending the batches is writing the dirty ranges of the pages they were made of, each in place |
| `WriteBackRuns.PagesReachServers` | client_module/source/filesystem/FhgfsOpsFileNative.c:946-1005 | From the pages handed to write-back: after any completions without errors the servers' file under what is in flight is the file with all dirty ranges written, and once nothing is in flight the servers hold exactly that |
| `WriteBackRuns.NextRound` | client_module/source/filesystem/FhgfsOpsFileNative.c:946-1005 | Pages that stayed dirty, collected anew into any batches, still make up the file with all pages written |
| `WriteBackRuns.RoundsReachServers` | client_module/source/filesystem/FhgfsOpsFileNative.c:946-1005 | The same over any number of rounds, each made of the pages the one before left dirty; once none is dirty the servers hold the file with all pages written |
| `WriteBackRuns.CompleteOne` | client_module/source/filesystem/FhgfsOpsFileNative.c:775-841 | One completion changes neither the users' file nor the form of what is in flight |
| `WriteOrder.AnyOrder` | client_module/source/filesystem/FhgfsOpsFileNative.c:860-868 | Writes that share no byte give the same file in every order |
| `Barrier.WakesOnceAtTheEnd` | client_module/source/common/toolkit/SynchronizedCounter.h:35-50 | However completions interleave with the start of the wait, the waiter is woken exactly once, by the last event |
| `Barrier.CountMeaning` | client_module/source/common/toolkit/SynchronizedCounter.h:35-50 | The counter is completions minus submissions once waiting started |
| `Flusher.RunIsSafe` | client_module/source/components/Flusher.c:65-131 | In every state of every interleaving references held are one per store entry plus one for the flusher's hand, users who attach a buffer over one left by a zero answer included; without zero answers every attached buffer is in the store, in the hand or just being registered |
| `Flusher.StepKeepsInv` | client_module/source/components/Flusher.c:65-131 | Each step of flusher or user keeps reference counts and lock ownership exact |
| `Flusher.StepKeepsFindable` | client_module/source/components/Flusher.c:65-131 | A step keeps every buffer findable if and only if it is not a flush that reports success over a buffer left attached outside the store |
| `Flusher.QuietVisitClears` | client_module/source/components/Flusher.c:65-131 | Without interference the steps of a successful visit can be done and leave the inode out of store and hand, without buffer and references |
| `Flusher.RetriedLater` | client_module/source/components/Flusher.c:89-119 | After a communication error on an open file, or when in use, the visit ends with the inode in the store as before |
| `Flusher.GivenUpForGood` | client_module/source/components/Flusher.c:89-108 | After any other error, or on a closed file, the visit can only discard the buffer, and leaves nothing of the inode behind |
| `Flusher.BusyIsPutBack` | client_module/source/components/Flusher.c:79-119 | An inode whose lock is taken is put back, and the visit has changed nothing |
| `Flusher.UserClears` | client_module/source/filesystem/FhgfsOpsHelper.c:856-878 | A user can always take a free lock, give the buffer back and take the inode out of the store, and no reference stays |
| `Flusher.UserAttaches` | client_module/source/filesystem/FhgfsOpsHelper.c:719-752 | A user can always attach a buffer to an inode that has none, and then it is registered once |
| `Flusher.ZeroAnswerStrandsBuffer` | client_module/source/filesystem/FhgfsOpsHelper.c:1334-1374 | A reachable state in which a zero answer left a buffer that no thread will flush |
| `FlushVisit.VisitInode` | client_module/source/components/Flusher.c:74-119 | One visit of the flusher: the inode is dropped, given up or added again exactly as the first flush and the open state say; with positioned writes users see the same file if and only if the buffer is not given up or both attempts together leave nothing out |
| `FlushVisit.VisitWriteBuffer` | client_module/source/components/Flusher.c:79-119 | The same for a write buffer of either kind: after success without a zero answer the servers hold the users' file; a communication error (3) keeps the buffer of an open file as it is and gives up that of a closed one; in use (9) keeps it; a buffer given up is gone and the servers hold what the two attempts left |
| `FlushVisit.TwoAttemptsExact` | client_module/source/components/Flusher.c:89-108 | Two attempts store a whole write if and only if one reached the end or the file was that long, and each byte arrived in one of them or was there before |
| `FlushVisit.GivenUpWhileOpen` | client_module/source/components/Flusher.c:89-96 | A concrete case against the comment: an open file, no space twice, and the buffered byte is discarded |
| `InvalSession.EndedSessionsStayEnded` | client_module/source/components/InvalReader.c:139-157 | Over every sequence of steps in which no bump of a counter comes too late, across restarts and failovers: an inode stamped with a session that has ended is never judged valid again |
| `InvalSession.LostSessionInvalidates` | client_module/source/filesystem/FhgfsInode.c:781-797 | Over the same sequences: an inode valid under the session of the server that answers for it is never again valid with that stamp once that session ended, whichever server it belongs to by then |
| `InvalSession.ValidExactly` | client_module/source/filesystem/FhgfsInode.c:14-32 | An inode is judged valid if and only if it is marked valid and stamped with the live session of the server that answers for it: its owner, the primary of the group that owns it, or server 0 for an unknown group |
| `InvalSession.StampExactly` | client_module/source/filesystem/FhgfsInode.c:763-773 | Stamping makes an inode valid if and only if the server that answers for it has a live session |
| `InvalSession.EndInvalidates` | client_module/source/components/InvalReader.c:139-157 | Whichever step ends the session of the server that answers for it, an inode is not valid after it |
| `InvalSession.InvalidUntilStamped` | client_module/source/components/InvalReader.c:445-476 | An inode invalidated by a server's update, or a new one, is not valid before it is stamped valid |
| `InvalSession.NewSessionValidatesNothing` | client_module/source/components/InvalReader.c:435-443 | Over the same sequences no inode becomes valid because a session starts |
| `InvalSession.NewOwnerExactly` | client_module/source/filesystem/FhgfsInode.c:14-32 | An inode that changes its owner is valid if and only if it carries the live session of the server that answers for the new one |
| `InvalSession.StoppedAsksNothing` | client_module/source/components/InvalReader.c:404-407 | A stopped reader sends no further request |
| `InvalSession.BumpsAreDecided` | client_module/source/components/InvalReader.c:139-157 | Every late bump was decided by a thread that found the session valid, and each such thread bumps once |
| `InvalSession.StepKeepsInv` | client_module/source/components/InvalReader.c:375-496 | A step keeps live session numbers odd, unique among readers and never reused if and only if it is not a bump whose session is no longer valid |
| `InvalSession.LateBumpKeepsInv` | client_module/source/components/InvalReader.c:139-157 | The second half of ending a session keeps the invariant if and only if the session found valid still is |
| `InvalSession.ValidMeansLive` | client_module/source/filesystem/FhgfsInode.c:781-797 | An inode judged valid carries the number of a session that has not ended |
| `InvalSession.ValidityIsKept` | client_module/source/filesystem/FhgfsInode.c:763-797 | A valid stamp stays valid across a step if and only if the inode is not invalidated or replaced and the session number it is compared with is unchanged; which session that is says ValidExactly |
| `InvalSession.ExitKeepsInv` | client_module/source/components/InvalReader.c:485-495 | Removing a reader's entry keeps the invariant and puts its live session, if any, among the ended ones |
| `InvalSession.RequestDoneKeepsInv` | client_module/source/components/InvalReader.c:435-443 | The number drawn after a resync makes the session valid, is odd, and neither an ended session nor any reader has it |
| `InvalSession.StopReaderKeepsInv` | client_module/source/components/InvalReader.c:707-721 | A stopped reader has an even counter, and its session is among the ended ones |
| `InvalSession.RequestFailedKeepsInv` | client_module/source/components/InvalReader.c:139-157 | A failed request that invalidates ends exactly the live session; with none it leaves the counter alone |
| `InvalSession.LateBumpRevivesSession` | client_module/source/components/InvalReader.c:707-721 | A reachable state in which two unserialised bumps of one counter make an inode of an ended session valid again |
| `ThreadRegistry.Registry.JoinAll` | client_module/source/components/InvalReader.c:334-354 | Whatever others do while the mutex is free, between draining and testing the count too: when joining returns during shutdown both lists are empty and every entry ever registered was freed exactly once, it goes on waiting only while a thread is active, and it returns exactly when the events lead to that |
| `ThreadRegistry.ExitsEndTheWait` | client_module/source/components/InvalReader.c:334-354 | If a thread ends in each window and there are as many windows as threads, the waiting ends |
| `ThreadRegistry.Registry.JoinStopped` | client_module/source/components/InvalReader.c:311-332 | Ends with no stopped thread left, whatever others do meanwhile |
| `ThreadRegistry.Registry.JoinFirst` | client_module/source/components/InvalReader.c:311-332 | The entry taken off is freed once, after its join; what others do in between has its full effect |
| `ThreadRegistry.Registry.StartMetaThread` | client_module/source/components/InvalReader.c:586-705 | Adds an entry exactly when none is active for the server, nothing shuts down or falls back and the thread starts; the counter equals the list length |
| `ThreadRegistry.Registry.ThreadEnd` | client_module/source/components/InvalReader.c:485-495 | An ending thread's entry moves to the stopped list, counters and uniqueness kept |
| `ThreadRegistry.Registry.Interfere` | client_module/source/components/InvalReader.c:543-705 | What each action of another thread does to the lists, keeping the registry consistent; during shutdown no entry is added |
| `ThreadRegistry.Registry.Unlocked` | client_module/source/components/InvalReader.c:339-350 | Any number of actions of others while the mutex is free have their effects in order and keep the registry consistent; during shutdown they add no entry |
| `SizeGuard.StaleAnswersNeverShrink` | client_module/source/filesystem/FhgfsOpsInode.h:414-481 | In every sequence of steps an answer never lowers the size while a page that extended the file is dirty or being sent, nor later if it was given then and its hints came from the inode |
| `SizeGuard.AloneNeverShrinks` | client_module/source/filesystem/FhgfsOpsInode.h:414-481 | With one client, no lost page and hints from the inode, the size never shrinks at all |
| `SizeGuard.AppliedLowersIff` | client_module/source/filesystem/FhgfsOpsInode.h:414-481 | Exactly when taking over a stat answer lowers the size; the size then becomes the answer, as it does for every answer that is not lower, otherwise it stays; nothing else changes |
| `SizeGuard.QuietStatExactly` | client_module/source/filesystem/FhgfsOpsInode.h:414-481 | With no page dirty or being sent and the flag cleared, the answer to a stat is taken over if and only if it is not lower, this client never raised the size, or the clock has moved on since it did |
| `SizeGuard.BusyStatExactly` | client_module/source/filesystem/FhgfsInode.h:736-758 | With a page dirty or being sent, a stat with hints from the inode raises the size, or sets it if this client never raised it, and otherwise leaves it |
| `SizeGuard.UnhintedStatExactly` | client_module/source/filesystem/FhgfsOpsInode.h:414-481 | Without hints a lower answer is refused if and only if this client raised the size and the flag is set or a write-back round is open |
| `SizeGuard.UnsetExactly` | client_module/source/filesystem/FhgfsInode.h:690-710 | The flag is cleared if and only if no write-back round is open and no page is dirty or being sent |
| `SizeGuard.WriteEndExactly` | client_module/source/filesystem/FhgfsOpsFileNative.c:1450-1480 | A write raises the size to its end if that lies behind, and only then sets flag, time and protection |
| `SizeGuard.UnwrittenExactly` | client_module/source/filesystem/FhgfsOpsFileNative.c:806-838 | A page waits to be stored from a write to it until it is stored or given up |
| `SizeGuard.FollowsServersUntilWritten` | client_module/source/filesystem/FhgfsOpsInode.h:414-481 | Over every sequence of steps, until this client writes, every answer is taken over |
| `SizeGuard.CounterCountsRounds` | client_module/source/filesystem/FhgfsOpsFileNative.c:946-1005 | Over every sequence of steps the counter is the number of open write-back rounds |
| `SizeGuard.NoShrinkDuringWriteBack` | client_module/source/filesystem/FhgfsOpsInode.h:414-481 | Over every sequence of steps no answer lowers the size of a file written here while a write-back round is open |
| `SizeGuard.NoShrinkWhileExtending` | client_module/source/filesystem/FhgfsOpsInode.h:414-481 | No answer lowers the size while a page that extended the file is on its way |
| `SizeGuard.StepKeepsInv` | client_module/source/filesystem/FhgfsInode.h:690-758 | Write end, write-back, unset and stat steps keep the flag set while extending pages exist and hints covering them |
| `SizeGuard.LookupHintsDoNotProtect` | client_module/source/filesystem/FhgfsInode.h:736-758 | A reachable state in which hints made without the inode let an old answer cut the file |
| `HandleTable.Run` | client_module/source/filesystem/FhgfsInode.c:168-416 | Over any sequence of references, releases, stale marks and retried closes the table goes through exactly the states that the events give, and in each of them every remote handle is in exactly one of: a slot, answered, queued, or dropped by an interrupted retry; every slot keeps holding handles of its own kind; no event replaces the pattern while a handle is open; some handle is dropped if and only if an interrupted retry happens |
| `HandleTable.Step` | client_module/source/filesystem/FhgfsInode.c:168-416 | One event keeps the table sound, does what it says and no more, keeps a pattern in use, and drops a handle if and only if it is an interrupted retry |
| `HandleTable.LostExactly` | client_module/source/components/InternodeSyncer.c:873-914 | Over such a sequence of states the dropped handles stay the same if and only if no interrupted retry happens |
| `HandleTable.Table.ReferenceHandle` | client_module/source/filesystem/FhgfsInode.c:168-344 | The exact result code and slot: success raises exactly one slot's count, the own one or the shared read-write one; failure raises none; a pattern in use is not replaced |
| `HandleTable.ReferencePermits` | client_module/source/filesystem/FhgfsInode.c:168-344 | A reference that succeeds gets a handle opened for its own access or for reading and writing: one for writing never shares a handle opened for reading, nor the other way round |
| `HandleTable.FittingIsKept` | client_module/source/filesystem/FhgfsInode.c:491-510 | Every event leaves in each slot a handle opened for the slot's own kind of access |
| `HandleTable.TraceFits` | client_module/source/filesystem/FhgfsInode.c:491-510 | From a new table on that holds in every state |
| `HandleTable.Table.OpenHandle` | client_module/source/net/filesystem/FhgfsOpsRemoting.c:932-970 | When an open succeeds, what becomes of the pattern, and that a handle with a bad pattern is closed again |
| `HandleTable.Table.ReleaseHandle` | client_module/source/filesystem/FhgfsInode.c:352-416 | Drops one reference; the last one closes the handle with an answer or queues it |
| `HandleTable.Table.CloseWithAsyncRetry` | client_module/source/filesystem/FhgfsOpsHelper.h:119-135 | A handle no longer in a slot ends up answered or queued, never both |
| `HandleTable.Table.GetIsFileOpen` | client_module/source/filesystem/FhgfsInode.h:347-371 | Reports exactly whether a handle is open, and marks the pattern only if none is |
| `HandleTable.Table.RetryClose` | client_module/source/components/InternodeSyncer.c:873-914 | Only a communication error keeps a close queued; an interrupted one is dropped without an answer |
| `AclEval.Eval` | client_module/source/filesystem/BeeGFSNFS4Acl.c:629-705 | -EACCES if and only if some requested bit's first applicable ACE denies it, 0 if and only if the request is nonempty and each bit's first applicable ACE allows it, otherwise undecided |
| `AclEval.SingleEntryExactly` | client_module/source/filesystem/BeeGFSNFS4Acl.c:196-247 | A list of one entry, asked for bits of its mask, gives the entry's say to exactly those it is meant for: everyone, the owner, members of the file's group, one user, members of one group; type 0 grants, type 1 denies, other types and inherit-only entries (flag 0x8) say nothing |
| `AclEval.SameStandingDecides` | client_module/source/filesystem/BeeGFSNFS4Acl.c:196-247 | Whether a group is the primary or a supplementary one makes no difference to any decision |
| `AclEval.FlagBits` | client_module/source/filesystem/BeeGFSNFS4Acl.c:646-653 | The flag tests are those of 0x8 and 0x40 |
| `AclEval.DecidedEarly` | client_module/source/filesystem/BeeGFSNFS4Acl.c:670-697 | A decision reached on the first ACEs is the decision on the whole ACL |
| `AclEval.TrackAllow` | client_module/source/filesystem/BeeGFSNFS4Acl.c:686-697 | Clearing the allowed bits leaves exactly the requested bits on which the ACEs so far are silent |
| `AclEval.TrackDeny` | client_module/source/filesystem/BeeGFSNFS4Acl.c:679-685 | A denying ACE with an outstanding bit denies that bit by the first-match rule |
| `AclEval.Undecided` | client_module/source/filesystem/BeeGFSNFS4Acl.c:700-705 | Bits left at the end mean that the first-match rule decides neither way |
| `AclPolicy.WhitelistIsFailSafe` | client_module/source/filesystem/BeeGFSNFS4Acl.c:654-666 | With denials only of OWNER@, GROUP@ and EVERYONE@, a client that resolves fewer names never grants a request that a better informed one does not |
| `AclPolicy.FailSafeExactly` | client_module/source/filesystem/BeeGFSNFS4Acl.c:654-666 | An ACL never lets a client that resolves fewer names grant more if and only if for no bit the denial of a named principal stands before a permission, neither of the two behind an entry for EVERYONE@ or for its own principal on that bit |
| `AclPolicy.NamedDenyIsNotFailSafe` | client_module/source/filesystem/BeeGFSNFS4Acl.c:654-666 | A denial of a named user that only one client resolves is enforced there and skipped by the other, whenever the rest of the ACL grants |
| `AclPolicy.CatchAllDecides` | client_module/source/filesystem/BeeGFSNFS4Acl.c:654-666 | A final denial of EVERYONE@ denies whatever the entries before it do not allow entirely, so nothing is left to mode bits |
| `AclPolicy.DecisionIsMonotone` | client_module/source/filesystem/BeeGFSNFS4Acl.c:612-627 | A grant carries to every nonempty part of the request, a denial to every larger request |
| `AclPolicy.SwapSameType` | client_module/source/filesystem/BeeGFSNFS4Acl.c:612-627 | Neighbouring entries of the same type can be exchanged without changing any decision |
| `AclPolicy.PrepareAcl` | client_module/source/filesystem/BeeGFSNFS4Acl.c:158-194 | Prepares every entry in order |
| `AclPolicy.PreparedEntryExactly` | client_module/source/filesystem/BeeGFSNFS4Acl.c:85-156 | From names to decisions: a list of one entry grants or denies to exactly those its name means, OWNER@, GROUP@ and EVERYONE@ as such, any other name as the resolver for it says, as a group exactly with flag 0x40; an unresolved name means nobody |
| `AclPolicy.ResolversAreSeparate` | client_module/source/filesystem/BeeGFSNFS4Acl.c:85-156 | Names that begin with S-1 prepare the same whatever the plain resolver knows, and all others whatever the resolver of security identifiers knows |
| `AclPolicy.SpecialNames` | client_module/source/filesystem/BeeGFSNFS4Acl.c:85-156 | The special names and the prefix in letters |
| `AclPolicy.KnowingLessDegrades` | client_module/source/filesystem/BeeGFSNFS4Acl.c:85-156 | Resolving fewer names turns principals into unresolved ones and never into others; special names need no resolver |
| `AclXdr.Decode` | client_module/source/filesystem/BeeGFSNFS4AclXdr.c:30-120 | The decoding loop gives the parse of the buffer with the error of the first violated limit, reading only inside the buffer |
| `AclXdr.DecodeAces` | client_module/source/filesystem/BeeGFSNFS4AclXdr.c:61-94 | Offset-based reading of n entries equals parsing them one after the other |
| `AclXdr.DecodeAce` | client_module/source/filesystem/BeeGFSNFS4AclXdr.c:67-93 | One round of the loop: the entry at the offset, or its error, and the offset behind its padding |
| `AclXdr.AcceptedExactly` | client_module/source/filesystem/BeeGFSNFS4AclXdr.c:30-97 | A buffer is accepted, with a given ACL, if and only if it has 4 to 32768 bytes, announces that many entries, at most 4096, and carries those legal entries |
| `AclXdr.RefusedEntryExactly` | client_module/source/filesystem/BeeGFSNFS4AclXdr.c:67-93 | An entry is an overflow if and only if its name is longer than 256 bytes, and otherwise invalid if and only if its fixed part or its name, padded to a multiple of four, is cut off or its type is above 3 |
| `AclXdr.RefusedAtOnce` | client_module/source/filesystem/BeeGFSNFS4AclXdr.c:38-48 | Which buffers are refused before any entry is read, and with which code |
| `AclXdr.LegalExactly` | client_module/source/filesystem/BeeGFSNFS4AclXdr.c:67-93 | The limits of an entry in numbers |
| `AclXdr.RoundTrip` | client_module/source/filesystem/BeeGFSNFS4AclXdr.c:30-97 | Every legal ACL that fits is decoded back from its encoding followed by any bytes |
| `AclXdr.Canonical` | client_module/source/filesystem/BeeGFSNFS4AclXdr.c:30-97 | A buffer starts with the canonical encoding if and only if it carries the ACL with zero padding |
| `AclXdr.AcceptedReencodes` | client_module/source/filesystem/BeeGFSNFS4AclXdr.c:30-97 | Re-encoding what was read from any accepted buffer gives its first bytes back, with all padding set to zero |
| `AclXdr.Reencode` | client_module/source/filesystem/BeeGFSNFS4AclXdr.c:61-94 | The same for the entries alone |
| `AclXdr.ReencodeAce` | client_module/source/filesystem/BeeGFSNFS4AclXdr.c:67-93 | Re-encoding an accepted entry gives its bytes back with zero padding |
| `AclXdr.CarriesOne` | client_module/source/filesystem/BeeGFSNFS4AclXdr.c:61-94 | A buffer carries at most one ACL of a given length |
| `AclXdr.WordRoundTrip` | client_module/source/filesystem/BeeGFSNFS4AclXdr.c:44-72 | A big-endian word is read back |
| `AclXdr.WordIsBytes` | client_module/source/filesystem/BeeGFSNFS4AclXdr.c:44-72 | Encoding a word that was read gives its four bytes |
| `AclXdr.WordValue` | client_module/source/filesystem/BeeGFSNFS4AclXdr.c:44-72 | The most significant byte of a word comes first |
| `EntryId.RoundTrip` | client_module/source/filesystem/FhgfsOpsExport.c:569-618 | Printing and parsing gives every triple back; exactly the all-zero one prints as root |
| `EntryId.PrintIsInjective` | client_module/source/filesystem/FhgfsOpsExport.c:607-618 | Different triples print differently |
| `EntryId.PrintFits` | client_module/source/components/InvalReader.c:447-463 | The text with its terminator fits 27 bytes, and the largest triple needs all of them |
| `EntryId.ReprintsExactly` | client_module/source/filesystem/FhgfsOpsExport.c:569-618 | A parsed string prints back unchanged if and only if it is the root name or three upper-case numbers without leading zeros, of at most eight digits and not all zero |
| `EntryId.ParseJoined` | client_module/source/filesystem/FhgfsOpsExport.c:586-597 | Three hexadecimal numbers joined by dashes parse to their values in 32 bits |
| `EntryId.AcceptedExactly` | client_module/source/filesystem/FhgfsOpsExport.c:575-597 | A string is accepted if and only if it is the root's name or begins with three hexadecimal numbers joined by dashes |
| `EntryId.ParseExact` | client_module/source/filesystem/FhgfsOpsExport.c:586-597 | The three numbers are read modulo 2^32, in either case, whatever follows the last one |
| `EntryId.DigitsInOrder` | client_module/source/filesystem/FhgfsOpsExport.c:586-597 | The digits and their values, in either case |
| `RetryQueue.DelayedQueue.RetryAll` | client_module/source/components/InternodeSyncer.c:873-914 | After a pass the queue is the visited entries with a communication error, in order, followed by all arrivals not visited; entries appended during calls are visited too unless the thread terminates |
| `RetryQueue.DelayedQueue.Visit` | client_module/source/components/InternodeSyncer.c:882-913 | One call: entries appended meanwhile come last, the current entry stays exactly after a communication error |
| `RetryQueue.PassConserves` | client_module/source/components/InternodeSyncer.c:873-1006 | Every entry that was queued or appended is still queued or was answered, exactly as often as it arrived |
| `RetryQueue.UnreachableKeepsAll` | client_module/source/components/InternodeSyncer.c:873-1006 | With communication errors throughout, a pass only adds what was appended |
| `RetryQueue.AnsweredPassDrains` | client_module/source/components/InternodeSyncer.c:873-1006 | A pass that is answered throughout and not cut short empties the queue |
| `AckQueue.Manager.ProcessQueue` | client_module/source/components/AckManager.c:107-230 | A pass gives the queue that the calls one after the other give |
| `AckQueue.Manager.ProcessFirst` | client_module/source/components/AckManager.c:122-226 | The visited entry always leaves the queue; after failed retries all entries of its node queued by then leave too |
| `AckQueue.Manager.SendWithRetries` | client_module/source/components/AckManager.c:160-206 | At most one retry; failure exactly if both attempts fail; entries appended during attempts come last |
| `AckQueue.Manager.RemoveByNode` | client_module/source/components/AckManager.c:249-266 | Removes exactly the entries of the node from a position on and keeps the order of the rest |
| `AckQueue.NodeIsFifo` | client_module/source/components/AckManager.c:107-230 | A node whose retries never fail loses exactly as many entries as were sent to it, the earliest ones |
| `AckQueue.FailsOnExactly` | client_module/source/components/AckManager.c:160-218 | A node fails in a pass if and only if some call is for an entry of it and both attempts of that call fail |
| `AckQueue.NodeKeepsLatest` | client_module/source/components/AckManager.c:107-230 | In any pass a node is left with its latest arrivals, none missing in between |
| `AckQueue.DeadNodeForgotten` | client_module/source/components/AckManager.c:209-218 | After its retries failed a node has no entries but later arrivals |
| `AckQueue.PassKeepsOrder` | client_module/source/components/AckManager.c:107-230 | The queue left is a subsequence of the arrivals |
| `AckQueue.NodeAfterCall` | client_module/source/components/AckManager.c:122-226 | What one call does to the entries of each node |

## Left out

- FileCache.InodeCache.constructor: a cache over chunks or buffers below 64 KiB is not valid, and no operation is promised on it, because slow start then reads past the buffer; `ReadAheadFitsExactly` is the exact condition.
- CacheRuns.RunUnderFaults: does not bound what a failed call leaves in the file while a buffered append is pending, because a repeated append duplicates bytes; `AppendRetryExact` says when.
- FlushVisit.VisitInode: has no user act between the two flushes of a visit, and no exact condition for append buffers; `Flusher` has the interleavings.
- PageRange.Page.Write: takes full copies of at least one byte and 4 KiB pages; zero-length and short copies in `write_end` are not part of this model.
- InvalSession.EndedSessionsStayEnded: takes drawing a session number and marking the session valid as one step, and likewise incrementing the counter and clearing `sessionValid`.
- SizeGuard.StaleAnswersNeverShrink: takes write end and the clearing of the flag each as one step; the clock does not wrap around.
- The 32-bit wrap-around of session counters, and powers of two as bit masks: chunk arithmetic uses remainders.
- Multi-client coherence of file contents, and metadata changing between fetch and stamp: the client does not promise it.
- The bypass for memory-mapped files under `tuneCoherentBuffers`, page locking, RCU, folio variants and kernel-version differences.
- The remoting layer itself (`FhgfsOpsRemoting.c`, sockets, RDMA, node stores, mappers): present as contracts of the servers only.
- Opens that carry `lookupInfo`, and the truncate and version calls of a shared open beyond their result.
- Allocation failures (`ENOMEM`) in decoding and preparing ACLs, and a missing ACL, which behaves like an empty one.
- The mapping from `MAY_*` to ACE bits, the ACL cache and the fallback to mode bits after an undecided evaluation.
- How names are resolved (`BeeGFSNFS4AclResolvers.c`): any mapping from names to ids stands for a resolver.
- White space and `0x` prefixes that `sscanf` accepts in entry ids, and the upgrade of old NFS handles.
- The delayed queues of entry and range unlocks: the same loop as for closes, so `RetryQueue` stands for all three.
- The order in which the flusher walks the reference store: any order.
- The error counters that make an invalidation reader fall back, `FhgfsOpsPages.c`, block counts, the event listener, configuration, logging and start-up.
