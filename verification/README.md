# Storage layer: log, double-write buffer, page checksum, frames, bitmap and values

A Dafny model of the storage layer in `src/dimserver/storage` and the parts of `src/dimserver/common` it
rests on, with proofs about it. `dafny verify dfyconfig.toml` checks everything.

The model follows the code, also where the code departs from what its comments say. Where a law does not
hold of the code, the project states the exact condition under which it does, and a concrete case where it
does not.

## What is modelled

**Write-ahead log.** `Io` has the loops over short reads and writes, against a kernel that may answer every
call with any short transfer, an interruption or an error. `LogEntry` and `LogFile` are the record, reader and
writer classes; `LogFormat` is the byte format and the go_to and iterate loops as functions of the file's
bytes, with the theorems about logs cut at any byte and about reading from the middle. `LogBuffer` is the
buffer class, one call at a time; `WalProtocol` interleaves N appending threads and a flusher step by step,
with the unlocked fullness check as a step of its own, and `WalBatch` shows what whole batches of the flusher
come to and that it is never stuck. `LogNames`, `LogSegments` and `LogFileManager` are file
names, the directory of segments and the class that manages it.

**Double-write buffer.** `DoubleWrite` turns each operation into the sequence of disk writes it issues and
proves what every prefix of it leaves behind; `DoubleWriteRuns` does so for whole runs cut by a crash;
`DoubleWriteBuffer` is the class that issues exactly these writes.

**Page checksum.** `PageChecksum` relates the table-driven loop of `page.h` to the bit-at-a-time division of
section 8 of RFC 1952 and proves that short bursts change the checksum. `KnownChecksums` ties it to the table
of `crc.cpp` and to the check value of CRC-32. `ShiftRegister` holds the induction
over bit streams, for any linear register.

**Frame manager.** `Recency` and `LruCache` are the cache as a list with a recency order and as a class.
`FramePool` and `FramePurge` describe cache, pool and pin counts as one value and what each call does to it;
`FrameManager` has the pool and manager classes that compute it, `FrameSteps` the steps of their loops.

**Bitmap and values.** `Bitmap` is packed bits against a sequence of booleans. `CharString`, `Value` and
`ValueCodec` are the column values, their order and their byte format; `ValueOrder` says which way the order
runs.

## Assumptions

- Log: a failed write ends all writing (the crash point); LSNs stay below 2^63 - 1; `max_bytes` is positive. In
  the protocol of N threads payloads are shorter than 2^31 bytes. A log callback is any function of the entries
  delivered so far.
- Rotation: `next_file` followed by the directory scan of `init`; `next_file` alone is treated separately.
- Double-write: writes take effect in program order; only the write in flight at the crash can tear; the
  header write does not tear; a torn slot fails its checksum and a whole one passes (exactly when the latter is
  true of a page stamped by `calc_checksum` is `PageChecksum.StampedPageAcceptedExactly`). `write_page` is one write
  of the page at its home position and `write_page_internal` one write of the slot at the offset `load_pages`
  uses. Versions of a page are added in order. The runs start with an empty buffer file and end with the first
  crash and its load.
- Frames: the pool does not grow. In the theorems about whole runs `purge_frames` frees a frame under the key it
  is cached under, callers do not `alloc` a key that is cached, and they keep to the ASSERT of `free_internal`;
  what happens otherwise is stated for the single calls. A `Frame*` is the frame's place in the pool's memory.
  The purger's answers are arbitrary.
- LRU list: an iterator is the address of its node.
- Values: `float` is its IEEE 754 bit pattern; memory behind the buffer is not part of the model, and a
  read that would run into it is an error result of its own.

## Where the code departs from its evident intent

- `go_to` skips `HEAD_SIZE` bytes after a header although its comment says the payload
  (`log_file.cpp:91-92`). `LogFormat.LiteralSeekExact` says exactly when the code still lands on the right
  entry and `LogFormat.LiteralReplayExactly` when it still delivers the right entries;
  `LogFormat.LiteralSeekMisses` and `LogFormat.LiteralReplayFails` show a log on which it does neither, and
  `LogFormat.ReplayFrom` proves the version with the payload skipped.
- `next_file` does not record the file it opens (`log_file.cpp:311-325`): `LogSegments.WithoutRescanOneSegment`.
- `list_files` leaves out the segment that contains the start LSN unless it is a segment start
  (`log_file.cpp:294`): `LogSegments.ReplayListedExact`. So LSN 1, in the segment named 0, is not listed.
- `LogEntry::init` casts the payload size to `int32_t` before it checks it (`log_entry.cpp:42`):
  `LogEntry.AcceptedIsSizedExactly`.
- `add_page` overwrites the slot of a cached page in place (`double_write_buffer.cpp:139-142`): when that
  write tears, the page falls back on its last flushed version, and a page never flushed is lost:
  `DoubleWriteRuns.CrashAnywhereExactly`, `DoubleWriteRuns.TornOverwriteLoses`.
- `load_pages` checks pages with `crc32` of `crc.cpp`, whose word loop is not CRC-32 and takes only 256 values,
  while pages are stamped by `calc_checksum`: `PageChecksum.StampedPageAcceptedExactly` says which pages it still
  accepts, `PageChecksum.LoaderChecksumDiffers` that it never accepts zeroed data, and
  `PageChecksum.LoaderSeesFoldsOnly` what it cannot tell apart.
- `set_page_num` does not reach the frame id that `purge_frames` frees by (`frame.cpp:113-115`,
  `buffer_pool.cpp:123`): `FramePurge.StoredIdWorksExactly` for one frame, `FramePurge.PurgeStoredExactly` for a
  whole purge.
- A NUL in a CHAR value, or a length of 2^32 and more, does not survive serialization
  (`value.h:41`, `value.cpp:72`): `ValueCodec.RoundTripExactly`.
- `>` and `>=` are negations (`value.cpp:33-39`), so both are true of a NaN: `ValueOrder.DerivedOperators`.
- With a NaN, `<` and `==` no longer fit together and `<` is no weak order: `Value.EquivalenceIsEqualExactly`,
  `Value.WeakOrderExactly`.

## Model

| member | source | states |
|---|---|---|
| Io.ReadN | src/dimserver/common/io/io.cpp:50-65 | whatever short reads and interruptions occur, 0 means exactly the next `size` bytes were read, -1 that the file ended first, an errno that the kernel failed |
| Io.WriteN | src/dimserver/common/io/io.cpp:21-35 | 0 means the whole buffer was appended; after an errno only a proper prefix of it was |
| Io.TornInParts | src/dimserver/storage/clog/log_file.cpp:199-211 | a record written as header and then data is torn when either write is |
| LogEntry.AcceptedIsSizedExactly | src/dimserver/storage/clog/log_entry.cpp:41-52 | an accepted payload is recorded with its true size exactly when it is within the limit; at 2 GiB it is accepted with size -2^31 |
| LogEntry.LogEntry.Init | src/dimserver/storage/clog/log_entry.cpp:41-52 | rejects an oversized payload and leaves the entry alone, otherwise fills header and data |
| LogEntry.LogEntry.Take | src/dimserver/storage/clog/log_entry.cpp:21-35 | a move hands the value over and leaves the source in its default state |
| LogEntry.LogEntry.SetLsn | src/dimserver/storage/clog/log_entry.h:109 | only the LSN of the header changes |
| LogFormat.HeaderRoundTrip | src/dimserver/storage/clog/log_entry.h:15-20 | reading the 16 header bytes gives the header that was written |
| LogFormat.WholeEntries | src/dimserver/storage/clog/log_file.cpp:187-215 | the number of records that lie whole within a prefix: the last such boundary is before the cut and the next one after it |
| LogFormat.CrashRecovery | src/dimserver/storage/clog/log_file.cpp:103-149 | for a log cut at any byte, iterate hands over exactly the longest prefix of whole entries in order, succeeds if the cut is at a boundary or inside a header and fails with IOERR_READ right before or inside a payload, unless the callback stops it earlier |
| LogFormat.ReplayFrom | src/dimserver/storage/clog/log_file.cpp:57-149 | with the payload skipped, iterate from s delivers exactly the entries with LSN >= s, in order, each once |
| LogFormat.LiteralSeekExact | src/dimserver/storage/clog/log_file.cpp:59-98 | go_to as written stops at the first entry with LSN >= s if and only if that entry starts on its 32-byte stride and every strided offset before it reads as a smaller header |
| LogFormat.StridedSearch | src/dimserver/storage/clog/log_file.cpp:59-98 | the same for any file contents, offset and target |
| LogFormat.OffStrideMisses | src/dimserver/storage/clog/log_file.cpp:91-92 | an entry that starts off the stride is always missed |
| LogFormat.StridedReplay | src/dimserver/storage/clog/log_file.cpp:57-149 | whenever the entry to start from lies on the stride, the code as written replays exactly the entries with LSN >= s |
| LogFormat.LiteralReplayExactly | src/dimserver/storage/clog/log_file.cpp:57-149 | the code as written delivers exactly the entries with LSN >= s if and only if go_to stops where the rest of the file reads as just these entries (LSNs start at 1) |
| LogFormat.LiteralReplayFrom | src/dimserver/storage/clog/log_file.cpp:57-149 | when the skipped payloads are 16 bytes long the code as written replays exactly the entries with LSN >= s |
| LogFormat.LiteralSeekMisses | src/dimserver/storage/clog/log_file.cpp:91-92 | a log of three 4-byte payloads in which go_to as written misses the second entry |
| LogFormat.LiteralReplayFails | src/dimserver/storage/clog/log_file.cpp:91-92 | on that log iterate from LSN 2 does not deliver the entries 2 and 3 |
| LogFormat.DeliverExtends | src/dimserver/storage/clog/log_file.cpp:115-146 | entries already delivered are never taken back or reordered |
| LogFormat.DeliverBack | src/dimserver/storage/clog/log_file.cpp:115-146 | what a successful iterate delivered is what the bytes from its start on encode |
| LogFormat.RecordBytes | src/dimserver/storage/clog/log_entry.h:15-20 | the bytes of one record: LSN, payload size, module id, payload, lowest byte first |
| LogFormat.HeaderAlone | src/dimserver/storage/clog/log_file.cpp:81-98 | for a header of any payload size without its payload: go_to takes sizes from 0 to 4194288 and fails with IOERR_READ on all others; iterate throws on a negative one and misses the payload of a positive one |
| LogFormat.OversizedRecord | src/dimserver/storage/clog/log_file.cpp:126-138 | a whole record over the limit is handed over as a default entry |
| Bytes.LittleEndianAt | src/dimserver/storage/clog/log_file.cpp:199-205 | byte i of a stored integer is the one with weight 256^i |
| LogFile.LogFileReader.Open | src/dimserver/storage/clog/log_file.cpp:21-31 | the reader takes the descriptor, FILE_NOT_FOUND if there is none |
| LogFile.LogFileReader.Close | src/dimserver/storage/clog/log_file.cpp:33-41 | no descriptor afterwards, FILE_NOT_FOUND if there was none |
| LogFile.LogFileReader.GoTo | src/dimserver/storage/clog/log_file.cpp:43-101 | the loop over short reads ends at the offset and code that the search function on the file's bytes gives |
| LogFile.LogFileReader.Iterate | src/dimserver/storage/clog/log_file.cpp:103-149 | delivers exactly what the specification delivers as long as the kernel does not fail, and otherwise a prefix of it with IOERR_READ |
| LogFile.LogFileReader.MakeFromDisk | src/dimserver/storage/clog/log_file.cpp:136-138 | the entry handed to the callback, also when `init` refuses it |
| LogFile.LogFileWriter.Open | src/dimserver/storage/clog/log_file.cpp:158-173 | an open writer refuses, a failed open leaves none, otherwise file and end LSN are set |
| LogFile.LogFileWriter.Close | src/dimserver/storage/clog/log_file.cpp:175-185 | always succeeds and leaves the writer closed |
| LogFile.LogFileWriter.Write | src/dimserver/storage/clog/log_file.cpp:187-215 | appends the whole record with as many payload bytes as its header says, or nothing when closed or full, or after a kernel failure a proper prefix; the last LSN moves only on success |
| LogBuffer.TotalBytesCovers | src/dimserver/storage/clog/log_buffer.cpp:94 | the byte counter covers every queued entry, so subtracting one never underflows |
| LogBuffer.PushKeepsAccounts | src/dimserver/storage/clog/log_buffer.cpp:25-33 | an append keeps LSNs gapless and the byte count equal to the sum of the queued sizes |
| LogBuffer.PopKeepsAccounts | src/dimserver/storage/clog/log_buffer.cpp:92-97 | a flushed entry advances flushed_lsn by one and keeps the accounts |
| LogBuffer.DrainKeepsAccounts | src/dimserver/storage/clog/log_buffer.cpp:82-98 | so does a batch of any size, which leaves exactly the newer entries |
| LogBuffer.LogBuffer.constructor | src/dimserver/storage/clog/log_buffer.cpp:10-18 | an empty buffer is in order |
| LogBuffer.LogBuffer.Init | src/dimserver/storage/clog/log_buffer.cpp:10-18 | sets both LSNs, and the limit only if it is positive |
| LogBuffer.LogBuffer.AppendEntry | src/dimserver/storage/clog/log_buffer.cpp:25-39 | the entry gets the next LSN, is queued last and counted, and the caller's entry is emptied; a correctly sized entry keeps the accounts |
| LogBuffer.LogBuffer.Append | src/dimserver/storage/clog/log_buffer.cpp:51-66 | a payload that `init` refuses takes no LSN and changes nothing; otherwise the entry is queued under the LSN returned, and a payload within the limit keeps the accounts |
| LogBuffer.LogBuffer.FlushFront | src/dimserver/storage/clog/log_buffer.cpp:85-97 | the oldest entry is dropped exactly when its whole record was written |
| LogBuffer.LogBuffer.FlushBatch | src/dimserver/storage/clog/log_buffer.cpp:69-114 | a batch writes a prefix of the queue and drops exactly that prefix; whatever stops it, the rest is still queued and nothing is lost, doubled or reordered |
| LogBuffer.LogBuffer.Flush | src/dimserver/storage/clog/log_buffer.cpp:116-118 | succeeds exactly when the queue ends up empty, with all of it in the file |
| LogBuffer.DrainStep | src/dimserver/storage/clog/log_buffer.cpp:84-98 | n entries flushed one by one are the n oldest |
| WalProtocol.StepKeepsInv | src/dimserver/storage/clog/log_buffer.cpp:20-114 | every step of every thread and of the flusher keeps the invariant on locks, LSNs, disk contents and byte counts |
| WalProtocol.RunKeepsInv | src/dimserver/storage/clog/log_buffer.cpp:20-114 | so does every interleaving |
| WalProtocol.AccountingInEveryState | src/dimserver/storage/clog/log_buffer.cpp:25-33 | in every reachable state the i-th queued LSN is flushed_lsn + 1 + i and current_lsn is flushed_lsn plus the queue length; with the lock free or a flush at work the byte count is the queue's, so the flusher's subtraction never underflows |
| WalProtocol.BoundedBytes | src/dimserver/storage/clog/log_buffer.cpp:46-66 | with N threads that may all pass the unlocked check, current_bytes never exceeds max_bytes - 1 + N * 4 MiB |
| WalProtocol.BoundIsAttainedExactly | src/dimserver/storage/clog/log_buffer.cpp:46-66 | for every N some interleaving reaches that bound if and only if max_bytes is 1 or greater than the 16 bytes of a header |
| WalProtocol.CountsWholeEntries | src/dimserver/storage/clog/log_buffer.cpp:62-63 | in every reachable state the byte counter is zero or at least one header |
| WalProtocol.DurablePrefix | src/dimserver/storage/clog/log_buffer.cpp:69-114 | in every state of every interleaving, mid-batch included, the queue is exactly the accepted entries after flushed_lsn and the file the encoding of those up to it, plus the one just written, or a torn record after a failed write |
| WalProtocol.RecoveryAfterAnyRun | src/dimserver/storage/clog/log_file.cpp:103-149 | a crash at any step, also inside a write, and reading back: exactly the accepted entries that were whole on disk, in order, with IOERR_READ exactly when the header of a torn record is whole |
| WalProtocol.AppendIsTwoSteps | src/dimserver/storage/clog/log_buffer.cpp:58-63 | queueing and counting together are the buffer's append and change nothing else but the thread |
| WalProtocol.FlushFrontIsTwoSteps | src/dimserver/storage/clog/log_buffer.cpp:84-98 | the write and the drop together are one turn of flush_batch: one entry out, one less to go, nothing else |
| WalProtocol.ThreadSteps | src/dimserver/storage/clog/log_buffer.cpp:46-66 | a thread passes the unlocked check exactly while the counter is below the limit; past it, it queues exactly the payloads that `init` accepts and gives up on the others |
| WalBatch.WholeBatch | src/dimserver/storage/clog/log_buffer.cpp:69-114 | from the free mutex, lock, min(batch, queue length) times write and drop, unlock: a possible run that ends in the same world with exactly that many of the oldest entries drained and appended |
| WalBatch.FullBatch | src/dimserver/storage/clog/log_buffer.cpp:84-91 | a batch that meets an entry beyond the end of the file at place k has drained exactly k |
| WalBatch.TornBatch | src/dimserver/storage/clog/log_buffer.cpp:84-91 | a batch whose write of entry k fails has drained exactly k, and a proper prefix of entry k follows them |
| WalBatch.OneStepOfBatch | src/dimserver/storage/clog/log_buffer.cpp:69-114 | in every reachable state in which the flusher has the mutex exactly one step of its batch is possible, and no thread can queue or count; without the mutex none is |
| WalBatch.HeldBatchEnds | src/dimserver/storage/clog/log_buffer.cpp:84-114 | from every such state the batch frees the mutex after the entries still to go, or at the first one beyond the end of the file |
| LogNames.AffixesApart | src/dimserver/storage/clog/log_file.cpp:236-244 | a name passing both affix tests has room for both, so the two trims never underflow |
| LogNames.StolRoundTrip | src/dimserver/storage/clog/log_file.cpp:247 | std::stol reads back what std::to_string wrote, for every 64-bit value |
| LogNames.NameRoundTrip | src/dimserver/storage/clog/log_file.cpp:234-252 | the name next_file builds for an LSN gives that LSN back |
| LogNames.NamesDistinct | src/dimserver/storage/clog/log_file.cpp:319-323 | different LSNs have different names |
| LogNames.LsnOfExactly | src/dimserver/storage/clog/log_file.cpp:234-252 | a name gives the LSN v if and only if it is "clog_", white space, at most one sign, digits, anything that does not go on with a digit, and ".log", and the digits with the sign are v |
| LogNames.FileNameIs | src/dimserver/storage/clog/log_file.cpp:319-323 | the built name is the LSN in decimal without leading zeros between "clog_" and ".log" |
| LogNames.NameExamples | src/dimserver/storage/clog/log_file.cpp:234-252 | clog_7.bak is refused; clog_007.log is 7 and clog_5.old.log is 5 |
| LogSegments.SegmentsOfStream | src/dimserver/storage/clog/log_file.cpp:187-215 | a gapless stream stored with a rotation on each FILE_FULL never fails, and segment s holds exactly the entries with LSNs in [s, s + max), in order |
| LogSegments.StoreAllSegments | src/dimserver/storage/clog/log_file.cpp:311-325 | the same from any well-segmented directory |
| LogSegments.SegmentedMeans | src/dimserver/storage/clog/log_file.cpp:311-325 | spelled out: the segments are named 0, n, 2n, ... and the one named k holds exactly the entries with LSNs in [k, k + n), by ascending LSN |
| LogSegments.ListedFileIsReadWhole | src/dimserver/storage/clog/log_file.cpp:103-149 | the reader as written delivers every entry of a listed file |
| LogSegments.CollectedIsTail | src/dimserver/storage/clog/log_file.cpp:291-299 | the listed files in order hold a tail of the log without gap or repetition |
| LogSegments.ReplayListedExact | src/dimserver/storage/clog/log_file.cpp:291-299 | reading list_files(s) replays exactly the entries with LSN >= s if and only if s <= 0, s is a segment start, or s is past the last LSN |
| LogSegments.WithoutRescanOneSegment | src/dimserver/storage/clog/log_file.cpp:311-325 | with next_file alone a stream is stored if and only if it fits into the first segment |
| LogFileManager.LogFileManager.Init | src/dimserver/storage/clog/log_file.cpp:254-289 | FILE_CREATE_ERR without a directory; otherwise registers exactly the regular files with a readable log file name, each LSN with the last path that names it |
| LogFileManager.RegisteredExactly | src/dimserver/storage/clog/log_file.cpp:267-285 | registered under k are exactly the regular files whose names spell k |
| LogFileManager.LogFileManager.ListFiles | src/dimserver/storage/clog/log_file.cpp:291-299 | lists exactly the segments with first LSN >= start, in ascending order |
| LogFileManager.LogFileManager.LastFile | src/dimserver/storage/clog/log_file.cpp:301-309 | opens the greatest registered segment with its end LSN, unless there is none or the writer is open |
| LogFileManager.LogFileManager.NextFile | src/dimserver/storage/clog/log_file.cpp:311-325 | opens the segment after the greatest registered one, under the name built from its LSN; m_log_files stays |
| DoubleWrite.AddCrash | src/dimserver/storage/buffer/double_write_buffer.cpp:134-180 | a crash at any write of add_page leaves every other page as it was and this one old or new, except that a torn overwrite in place leaves it with its home copy |
| DoubleWrite.FlushCrash | src/dimserver/storage/buffer/double_write_buffer.cpp:114-132 | a crash at any write of flush_page leaves every page as it was |
| DoubleWrite.AddKeeps | src/dimserver/storage/buffer/double_write_buffer.cpp:134-180 | add_page keeps the invariant between cache, slots, page count and home pages, and writes no home page |
| DoubleWrite.FlushKeeps | src/dimserver/storage/buffer/double_write_buffer.cpp:118-126 | flushed pages are at home, all others untouched |
| DoubleWrite.FlushEmpties | src/dimserver/storage/buffer/double_write_buffer.cpp:114-132 | after flush_page the buffer is empty, no page has changed its contents, and the slots still visible only repeat home copies |
| DoubleWrite.CountFollows | src/dimserver/storage/buffer/double_write_buffer.cpp:145-168 | the page count grows to the number of cached pages, never shrinks here, and is written behind the slot exactly when it has changed |
| DoubleWrite.InvRecovers | src/dimserver/storage/buffer/double_write_buffer.cpp:58-112 | between operations load_pages succeeds and recovers every page's current contents |
| DoubleWrite.FailedAddRecovers | src/dimserver/storage/buffer/double_write_buffer.cpp:151-168 | when a write of add_page fails, the disk is recovered as after a crash at that write |
| DoubleWrite.FailedFlushRecovers | src/dimserver/storage/buffer/double_write_buffer.cpp:118-122 | when a home write of flush_page fails, every page is recovered as it was |
| DoubleWriteRuns.RunInv | src/dimserver/storage/buffer/double_write_buffer.cpp:114-180 | every run from an empty buffer file keeps the invariant |
| DoubleWriteRuns.StateIsHistory | src/dimserver/storage/buffer/double_write_buffer.cpp:114-180 | current contents, home copies and cached keys are those of the page's history, which mentions neither buffer nor disk |
| DoubleWriteRuns.CrashAnywhere | src/dimserver/storage/buffer/double_write_buffer.cpp:58-180 | after any run and a crash at any write of the next operation every page has its last added version or already the new one, except a page whose slot overwrite tore, which has its version of the last flush |
| DoubleWriteRuns.CrashAnywhereExactly | src/dimserver/storage/buffer/double_write_buffer.cpp:58-180 | a page is up to date after the crash if and only if the crash does not tear its slot's overwrite or its last flushed version was up to date |
| DoubleWriteRuns.LoadedNeverOlder | src/dimserver/storage/buffer/double_write_buffer.cpp:58-112 | load_pages never loads a copy older than the one at home, although stale slots are still visible |
| DoubleWriteRuns.TornOverwriteLoses | src/dimserver/storage/buffer/double_write_buffer.cpp:139-142 | a never flushed page is lost when the overwrite of its slot tears |
| DoubleWriteRuns.RunFlags | src/dimserver/storage/buffer/double_write_buffer.cpp:118-126 | after every run exactly the slots of the pages still cached are marked valid on disk |
| DoubleWriteBuffer.DiskDoubleWriteBuffer.WriteSlot | src/dimserver/storage/buffer/double_write_buffer.cpp:81-82 | one slot write at the page's own index |
| DoubleWriteBuffer.DiskDoubleWriteBuffer.AddPage | src/dimserver/storage/buffer/double_write_buffer.cpp:134-180 | issues exactly the writes of the protocol, and those of a flush when the buffer is full; the first failed write ends it with that write's code, and cache, page count and disk are as far as it got |
| DoubleWriteBuffer.DiskDoubleWriteBuffer.FlushPage | src/dimserver/storage/buffer/double_write_buffer.cpp:114-132 | issues exactly the two writes per cached page in the order of the hash map and empties the buffer in memory; a home write that fails ends it with the buffer uncleared, a failed slot write is not noticed |
| DoubleWriteBuffer.DiskDoubleWriteBuffer.LoadPages | src/dimserver/storage/buffer/double_write_buffer.cpp:58-112 | loads exactly the whole visible slots, the first one of each key, up to the first slot that cannot be sought, read or found, and reports that error |
| DoubleWriteBuffer.CleanLoad | src/dimserver/storage/buffer/double_write_buffer.cpp:58-112 | without errors it succeeds exactly on an image with all visible slots and loads what recovery uses |
| DoubleWriteBuffer.DiskDoubleWriteBuffer.OpenFile | src/dimserver/storage/buffer/double_write_buffer.cpp:42-56 | opens once and loads, with the result of the load |
| PageChecksum.EntryFor | src/dimserver/storage/buffer/page.h:81-87 | a table entry is eight division steps on its index |
| PageChecksum.CrcTable.Initialize | src/dimserver/storage/buffer/page.h:80-89 | builds the whole table once |
| PageChecksum.TableUpdateIsSerial | src/dimserver/storage/buffer/page.h:93-95 | one table update equals eight steps of the bit-at-a-time reflected division, for every register and byte |
| PageChecksum.TableStep | src/dimserver/storage/buffer/page.h:94 | eight steps split into the table entry of the low byte and a shift of the rest |
| PageChecksum.BitStepLinear | src/dimserver/storage/buffer/page.h:84 | the bit step is linear over xor |
| PageChecksum.StepReversible | src/dimserver/storage/buffer/page.h:84 | the bit step is a bijection |
| PageChecksum.Page.Init | src/dimserver/storage/buffer/page.h:62-73 | all header fields and data bytes are set |
| PageChecksum.Page.CalcChecksum | src/dimserver/storage/buffer/page.h:75-98 | the table-driven loop stores the CRC-32 of the data, as the bit-at-a-time form defines it, and changes nothing else |
| PageChecksum.Page.VerifyChecksum | src/dimserver/storage/buffer/page.h:100-106 | true exactly when the stored checksum is the CRC-32 of the data; the stored one is put back |
| KnownChecksums.TableIsLiteral | src/dimserver/common/math/crc.cpp:3-36 | all 256 entries of the table that calc_checksum builds are those spelled out in crc.cpp |
| KnownChecksums.CheckValue | src/dimserver/storage/buffer/page.h:91-97 | the checksum of "123456789" is 0xCBF43926, the check value of CRC-32 |
| PageChecksum.FourByteChangeDetected | src/dimserver/storage/buffer/page.h:75-106 | for data of any length, any change within four consecutive bytes changes the CRC-32, so verify_checksum returns false |
| PageChecksum.BurstChangesChecksum | src/dimserver/storage/buffer/page.h:75-106 | so does any change within 32 consecutive bits at any bit position |
| PageChecksum.LoaderChecksumDiffers | src/dimserver/common/math/crc.cpp:38-65 | on zeroed data of any length the crc32 that load_pages uses differs from the page's checksum |
| PageChecksum.StampedPageAcceptedExactly | src/dimserver/storage/buffer/double_write_buffer.cpp:101-102 | load_pages accepts a page stamped by calc_checksum if and only if its CRC-32 is the one stamp that belongs to the xors of the bytes of its words; that stamp is one of 256, so the header alone can tell that a page is refused |
| PageChecksum.AcceptedStamps | src/dimserver/common/math/crc.cpp:38-65 | the same for any stamp |
| PageChecksum.WordLoopIsEntry | src/dimserver/common/math/crc.cpp:50-57 | the word loop carries one byte: its result is a single table entry |
| PageChecksum.LoaderSeesFoldsOnly | src/dimserver/storage/buffer/double_write_buffer.cpp:101-102 | contents whose words have the same byte xors are accepted with the same stamps |
| KnownChecksums.LoaderCheckValue | src/dimserver/common/math/crc.cpp:38-65 | on "12345678" the word loop gives 0xA34C95FB |
| KnownChecksums.WordsAre | src/dimserver/common/math/crc.cpp:48-51 | the aligned data is read as one word for each four bytes, in order |
| KnownChecksums.WordIsNumber | src/dimserver/common/math/crc.cpp:48-51 | a word is the little-endian number of its bytes |
| ShiftRegister.BurstSeparates | src/dimserver/storage/buffer/page.h:92-95 | in any reversible linear register two streams that differ in one word-sized window end in different states |
| Recency.RunSorted | src/dimserver/storage/buffer/lru_cache.h:34-82 | after any sequence of get, put, remove and pop the list has no duplicate key and is sorted by the time of last get or put |
| Recency.PopRemovesOldest | src/dimserver/storage/buffer/lru_cache.h:64-82 | pop removes the key unused for longest, and only it |
| Recency.GetKeepsMap | src/dimserver/storage/buffer/lru_cache.h:34-42 | get leaves the map unchanged and answers what is in it |
| Recency.PutUpdatesMap | src/dimserver/storage/buffer/lru_cache.h:44-54 | put is map update |
| Recency.AsMapWithout | src/dimserver/storage/buffer/lru_cache.h:56-62 | remove is map removal |
| Recency.PopShrinksMap | src/dimserver/storage/buffer/lru_cache.h:64-82 | pop removes the last key from the map |
| LruCache.LruCache.Splice | src/dimserver/storage/buffer/lru_cache.h:39 | the node moves to the front, the others keep their order, every table entry still finds its node |
| LruCache.LruCache.Get | src/dimserver/storage/buffer/lru_cache.h:34-42 | a hit returns the value and moves the entry to the front, a miss changes nothing |
| LruCache.LruCache.PutItem | src/dimserver/storage/buffer/lru_cache.h:44-54 | the key has the value and is in front, whether it was there or not |
| LruCache.LruCache.Remove | src/dimserver/storage/buffer/lru_cache.h:56-62 | the key is gone from list and table, the rest keeps its order |
| LruCache.LruCache.PopItem | src/dimserver/storage/buffer/lru_cache.h:64-82 | the last entry is removed and returned |
| LruCache.LruCache.Destroy | src/dimserver/storage/buffer/lru_cache.h:27-30 | the cache is empty |
| LruCache.LruCache.ForeachReverse | src/dimserver/storage/buffer/lru_cache.h:84-91 | visits the entries from the least recently used on and stops exactly at the first refusal |
| LruCache.LinkedTaken | src/dimserver/storage/buffer/lru_cache.h:16-17 | any selection of different nodes stays linked to a table that keeps their keys |
| FramePool.GetKeeps | src/dimserver/storage/buffer/buffer_pool.cpp:31-44 | get keeps cache, pool and pin counts in agreement |
| FramePool.AllocKeepsExactly | src/dimserver/storage/buffer/buffer_pool.cpp:61-74 | alloc keeps them in agreement if and only if no frame is free or the key is not cached yet |
| FramePool.AllocGives | src/dimserver/storage/buffer/buffer_pool.cpp:61-74 | the frame handed out is the one free for longest; it is in use, has one pin, and is cached in front under its key; no other pin or key changes |
| FramePool.FreeKeepsExactly | src/dimserver/storage/buffer/buffer_pool.cpp:76-96 | free_internal without its ASSERT keeps them in agreement if and only if the key leads to the freed frame, or leads nowhere and the frame is not in use |
| FramePool.PinAllKeeps | src/dimserver/storage/buffer/buffer_pool.cpp:46-59 | pinning a list adds to each pin count the number of times the frame is listed |
| FramePool.PoolFreeSpare | src/dimserver/common/mem/mem_pool.h:282-304 | the pool's free keeps used and free frames apart and their number constant, also for a frame not in use |
| FramePurge.FindListKeeps | src/dimserver/storage/buffer/buffer_pool.cpp:46-59 | find_list keeps the agreement |
| FramePurge.FindListPins | src/dimserver/storage/buffer/buffer_pool.cpp:46-59 | exactly the cached frames of the buffer pool get exactly one more pin, and nothing else changes |
| FramePurge.InPoolUsed | src/dimserver/storage/buffer/buffer_pool.cpp:50-56 | find_list lists exactly the cached frames of that buffer pool |
| FramePurge.CandidateCount | src/dimserver/storage/buffer/buffer_pool.cpp:98-115 | purge_frames offers min(max(count, 1), available) frames |
| FramePurge.OfferedCount | src/dimserver/storage/buffer/buffer_pool.cpp:98-115 | the number offered is min(max(count, 1), number of cached frames without a pin) |
| FramePurge.CandidatesAreOldest | src/dimserver/storage/buffer/buffer_pool.cpp:105-115 | an unpinned frame at or behind an offered one in the recency list is offered too |
| FramePurge.CandidatePlace | src/dimserver/storage/buffer/buffer_pool.cpp:105-113 | an offered frame is cached and unpinned |
| FramePurge.CandidatesDescend | src/dimserver/storage/buffer/buffer_pool.cpp:105-121 | the frames are offered, and the purger asked, from the least recently used on |
| FramePurge.FreeOne | src/dimserver/storage/buffer/buffer_pool.cpp:83-96 | freeing leaves no trace of the reordering done by the lookup |
| FramePurge.PurgeSpec | src/dimserver/storage/buffer/buffer_pool.cpp:98-133 | purge_frames removes exactly the offered frames whose purger succeeded, returns them to the pool in that order, and keeps the agreement and the pool's size |
| FramePurge.PurgedAre | src/dimserver/storage/buffer/buffer_pool.cpp:118-131 | a key is cached afterwards if and only if it was and is not one offered with a purger that succeeded |
| FramePurge.PurgeStoredUsed | src/dimserver/storage/buffer/buffer_pool.cpp:118-131 | as written: a frame is in use afterwards if and only if it was and is not one offered with a purger that succeeded |
| FramePurge.PurgeKeepsPins | src/dimserver/storage/buffer/buffer_pool.cpp:98-133 | no pin count changes, and a frame that was pinned is not removed |
| FramePurge.SurvivorsKeepOrder | src/dimserver/storage/buffer/buffer_pool.cpp:118-131 | the survivors are exactly the other keys, in their old relative order |
| FramePurge.StoredIdWorksExactly | src/dimserver/storage/buffer/buffer_pool.cpp:123 | freeing by the id stored in the frame keeps the agreement if and only if the frame was allocated for page -1 |
| FramePurge.PurgeStoredExactly | src/dimserver/storage/buffer/buffer_pool.cpp:98-133 | purge_frames as written keeps the agreement if and only if every frame it removes was allocated for page -1, and then it is the intended purge |
| FramePurge.StepKeeps | src/dimserver/storage/buffer/buffer_pool.cpp:31-133 | every legal call keeps the agreement and the pool's size |
| FramePurge.RunKeeps | src/dimserver/storage/buffer/buffer_pool.cpp:31-133 | after any legal run the cached frames are exactly the used ones, keys and frames are one to one, and used plus free frames is the pool's size |
| FramePurge.HeldFramesStay | src/dimserver/storage/buffer/buffer_pool.cpp:31-133 | a frame held by more than one holder is recycled by no call |
| FrameManager.MemPool.Init | src/dimserver/common/mem/mem_pool.h:181-207 | an empty pool gets exactly that many blank free frames, one with memory keeps it, a size that is not positive is refused |
| FrameManager.MemPool.Alloc | src/dimserver/common/mem/mem_pool.h:256-280 | the first free frame, reset and in use; none when there is none |
| FrameManager.MemPool.Free | src/dimserver/common/mem/mem_pool.h:282-304 | the frame is reset in any case and goes to the end of the free list if it was in use |
| FrameManager.MemPool.Pin | src/dimserver/storage/buffer/frame.cpp:65-67 | one pin more, nothing else |
| FrameManager.MemPool.Unpin | src/dimserver/storage/buffer/frame.cpp:69-73 | one pin less, but not below zero |
| FrameManager.MemPool.SetPageNum | src/dimserver/storage/buffer/frame.cpp:113-115 | the page header changes, the frame id does not |
| FrameManager.MemPool.SetBufferPoolId | src/dimserver/storage/buffer/frame.cpp:101-103 | only the pool id in the frame id changes |
| FrameManager.FrameManager.constructor | src/dimserver/storage/buffer/buffer_pool.cpp:7 | a new manager caches nothing and has no frames |
| FrameManager.FrameManager.Init | src/dimserver/storage/buffer/buffer_pool.cpp:13-20 | gives an empty manager exactly that many free frames, NO_MEM_POOL when the number is not positive; one that has its frames keeps them |
| FrameManager.FrameManager.GetFrame | src/dimserver/storage/buffer/buffer_pool.cpp:31-44 | computes the get of the value model and returns the cached frame |
| FrameManager.FrameManager.FindFrames | src/dimserver/storage/buffer/buffer_pool.cpp:46-59 | computes find_list and returns the frames, most recently used first |
| FrameManager.FrameManager.AllocFrame | src/dimserver/storage/buffer/buffer_pool.cpp:61-74 | computes alloc; the new frame has one pin, its page number, and a frame id without page number |
| FrameManager.FrameManager.DropFrame | src/dimserver/storage/buffer/buffer_pool.cpp:83-93 | the cache's part of free_internal touches no other frame |
| FrameManager.FrameManager.ReleaseFrame | src/dimserver/storage/buffer/buffer_pool.cpp:83-96 | computes free_internal for any key and frame, as release builds carry it out |
| FrameManager.FrameManager.FreeFrame | src/dimserver/storage/buffer/buffer_pool.cpp:83-96 | the same; called as the ASSERT demands it leaves the ids of the cached frames right |
| FrameManager.FrameManager.PinIfPurgeable | src/dimserver/storage/buffer/buffer_pool.cpp:105-113 | pins exactly an unpinned frame |
| FrameManager.FrameManager.FindPurgeable | src/dimserver/storage/buffer/buffer_pool.cpp:101-115 | the walk from the least recently used end finds and pins exactly the frames to be offered |
| FrameManager.FrameManager.Settle | src/dimserver/storage/buffer/buffer_pool.cpp:119-130 | an offered frame is freed if its purger succeeded and unpinned if not |
| FrameManager.FrameManager.PurgeFrames | src/dimserver/storage/buffer/buffer_pool.cpp:98-133 | with the key a frame is cached under: computes the purge of the value model for every purger; a frame offered stays cached exactly if its purger does not answer SUCCESS, and the number of SUCCESS answers is returned |
| FrameManager.FrameManager.PurgeFramesAsWritten | src/dimserver/storage/buffer/buffer_pool.cpp:98-133 | with the id stored in the frame, as line 123 has it: computes the purge as written; a frame offered stays in use exactly if its purger does not answer SUCCESS, and the number of SUCCESS answers is returned |
| FrameManager.FrameManager.SettleAsWritten | src/dimserver/storage/buffer/buffer_pool.cpp:119-130 | an offered frame is freed under its stored id if its purger succeeded and unpinned if not |
| FrameManager.PurgeAnswered | src/dimserver/storage/buffer/buffer_pool.cpp:98-133 | how many frames are offered, which of them go for which answers of the purger, and how many are counted |
| FrameManager.GetSnap | src/dimserver/storage/buffer/buffer_pool.cpp:37-44 | pinning a frame in the pool's memory is the pin of the value model |
| FrameManager.AllocSnap | src/dimserver/storage/buffer/buffer_pool.cpp:61-74 | so is writing pins and ids of a new frame |
| FrameManager.FreeSnap | src/dimserver/storage/buffer/buffer_pool.cpp:83-96 | so is resetting a freed one, whatever key it is freed under |
| FrameSteps.WalkOne | src/dimserver/storage/buffer/buffer_pool.cpp:105-113 | one turn of the walk: the pins the walk itself has set do not change which entries are found |
| FrameSteps.SweptNext | src/dimserver/storage/buffer/buffer_pool.cpp:119-131 | one turn of the sweep keeps the remaining frames ready and the count right |
| FrameSteps.SweptStoredNext | src/dimserver/storage/buffer/buffer_pool.cpp:119-131 | one turn of the sweep as written |
| Bitmap.SetChanges | src/dimserver/common/bitmap/bitmap.cpp:33-36 | or-ing the mask in sets its own bit of the byte and no other |
| Bitmap.ClearChanges | src/dimserver/common/bitmap/bitmap.cpp:38-41 | and-ing the complement clears its own bit and no other |
| Bitmap.UnpackedStore | src/dimserver/common/bitmap/bitmap.cpp:33-41 | storing a byte that differs in one bit changes that bit of the sequence and no other |
| Bitmap.BitsAreBinary | src/dimserver/common/bitmap/bitmap.cpp:33-46 | bit k has weight 2^k in the bytes read as one little-endian number |
| Bitmap.FindFirst | src/dimserver/common/bitmap/bitmap.cpp:7-23 | the least bit from start on with the wanted value, -1 if the byte has none |
| Bitmap.Bitmap.Init | src/dimserver/common/bitmap/bitmap.cpp:28-31 | the bitmap takes over memory and size |
| Bitmap.Bitmap.Bytes | src/dimserver/common/bitmap/bitmap.h:23 | the least number of bytes that covers the size, not positive for a size that is not |
| Bitmap.Bitmap.Set | src/dimserver/common/bitmap/bitmap.cpp:33-36 | exactly the addressed bit becomes one |
| Bitmap.Bitmap.Clear | src/dimserver/common/bitmap/bitmap.cpp:38-41 | exactly the addressed bit becomes zero |
| Bitmap.Bitmap.Get | src/dimserver/common/bitmap/bitmap.cpp:43-46 | the addressed bit |
| Bitmap.Bitmap.NextZeroBit | src/dimserver/common/bitmap/bitmap.cpp:48-67 | the least zero bit >= start and < size, -1 exactly when there is none, for any size and start |
| Bitmap.Bitmap.NextOneBit | src/dimserver/common/bitmap/bitmap.cpp:69-88 | the least one bit >= start and < size, -1 exactly when there is none |
| Bitmap.ByteDone | src/dimserver/common/bitmap/bitmap.cpp:51-61 | skipping a full or empty byte loses no bit |
| CharString.ActualLength | src/dimserver/common/value.h:91-97 | the loop finds the length without trailing blanks |
| CharString.Equals | src/dimserver/common/value.h:99-111 | true exactly when the strings are equal without trailing blanks |
| CharString.Less | src/dimserver/common/value.h:113-124 | the lexicographic order of unsigned bytes of the strings without trailing blanks |
| CharString.FromMemory | src/dimserver/common/value.h:39-48 | the characters up to the first NUL, cut or filled with blanks to the size |
| CharString.LexTransitive | src/dimserver/common/value.h:120-123 | the byte order is transitive |
| CharString.LexTotal | src/dimserver/common/value.h:120-123 | two strings neither of which is less are equal |
| CharString.PaddedKeeps | src/dimserver/common/value.h:39-48 | a string without NUL is kept whole, whatever follows in memory |
| CharString.PaddedLoses | src/dimserver/common/value.h:41 | a string with a NUL never is |
| Value.LessIsStrictOrder | src/dimserver/common/value.cpp:19-27 | < is irreflexive, asymmetric and transitive on all values, NaN included |
| Value.EquivalenceIsEqualExactly | src/dimserver/common/value.cpp:5-27 | neither less than the other is the same as == if and only if the values are no two floats with a NaN among them |
| Value.WeakOrderExactly | src/dimserver/common/value.cpp:19-27 | not being comparable is transitive for three values if and only if no NaN stands between two different numbers of its type |
| Value.LessIsWeakOrder | src/dimserver/common/value.cpp:19-27 | so without NaN < is a strict weak order across types, nulls and CHAR lengths |
| Value.NaNBreaksWeakOrder | src/dimserver/common/value.cpp:19-27 | with a NaN it is not |
| Value.GreaterMirrorsExactly | src/dimserver/common/value.cpp:29-39 | > and >= are the mirror images of < and <= if and only if no NaN is compared |
| Value.EqualIsEquivalence | src/dimserver/common/value.cpp:5-13 | == is symmetric and transitive, and reflexive exactly where no NaN is held |
| Value.EqualIsCongruent | src/dimserver/common/value.cpp:5-27 | values that are == cannot be told apart by < |
| Value.TrailingBlanksIgnored | src/dimserver/common/value.h:99-124 | blanks at the end have no influence on comparisons |
| ValueOrder.TypesInOrder | src/dimserver/common/value.cpp:20-22 | values of different types follow the enumerators UNDEFINED, INTEGER, FLOAT, VARCHAR, BOOLEAN, TIMESTAMP, CHAR, MAX_TYPE |
| ValueOrder.NullIsLast | src/dimserver/common/value.cpp:23-25 | within a type null is greater than everything else |
| ValueOrder.AlternativesInOrder | src/dimserver/common/value.cpp:26 | values of one type with different alternatives follow the order of the alternatives |
| ValueOrder.NumbersBySize | src/dimserver/common/value.cpp:26 | integers and timestamps by size, false before true |
| ValueOrder.FloatsByNumber | src/dimserver/common/value.cpp:26 | finite floats by the real numbers their bit patterns stand for, the infinities at the two ends, a NaN nowhere |
| ValueOrder.FloatExamples | src/dimserver/common/value.cpp:26 | the bit patterns of 1.0, -2.0 and 2^-149 |
| ValueOrder.StringsByBytes | src/dimserver/common/value.h:113-124 | VARCHAR by the first differing byte, a beginning before the whole; CHAR the same without the blanks at its end |
| ValueOrder.DerivedOperators | src/dimserver/common/value.cpp:29-39 | <=, > and >= from < and ==; > and >= are true of a NaN |
| ValueCodec.RoundTripExactly | src/dimserver/common/value.cpp:41-159 | deserialize_from gives a non-null value of a defined type back if and only if its length is below 2^32 and a CHAR holds no NUL, whatever bytes follow |
| ValueCodec.NullRoundTrip | src/dimserver/common/value.cpp:115-120 | every null value comes back as a null value == to it |
| ValueCodec.UndefinedIsNotRead | src/dimserver/common/value.cpp:156-158 | a non-null value of no defined type is written but not read back |
| ValueCodec.OtherTypeIsRefused | src/dimserver/common/value.cpp:105-108 | a record read as another type is refused |
| ValueCodec.CutRecord | src/dimserver/common/value.cpp:97-159 | of a record cut at any byte nothing is read: another expected type gives the mismatch as soon as the type is there, and every other read runs over the end |
| ValueCodec.SizeIsExactly | src/dimserver/common/value.cpp:161-188 | get_serialized_size is the number of bytes written if and only if the cut length leaves room for the nine bytes before it |
| ValueCodec.SizeThrowsExactly | src/dimserver/common/value.cpp:161-188 | get_serialized_size throws exactly for a VARCHAR or CHAR value with another alternative |
| ValueCodec.NumberBytes | src/dimserver/common/value.cpp:41-95 | the bytes of one INTEGER, FLOAT, TIMESTAMP and BOOLEAN value |
| ValueCodec.OtherBytes | src/dimserver/common/value.cpp:41-95 | the bytes of one VARCHAR, CHAR, null, UNDEFINED and MAX_TYPE value |
| ValueCodec.WriteString | src/dimserver/common/value.cpp:70-77 | length and characters, nothing else touched |
| ValueCodec.WritePayload | src/dimserver/common/value.cpp:52-94 | the payload of each type |
| ValueCodec.SerializeTo | src/dimserver/common/value.cpp:41-95 | exactly the encoding, and nothing behind it, is written; a value whose alternative does not fit its type throws after the header |
| ValueCodec.DeserializeFrom | src/dimserver/common/value.cpp:97-159 | computes the decoding, error cases included |

## Left out

- Recovery, page read and page removal of the double-write buffer, and the destructor's flush: only declared, or I/O.
- Double-write runs past the first crash and its load, or past a failed write: stale slots and page indices may collide then, and pages already flushed stay in the map although they are deleted; the `valid` flag of a loaded page when it is written again.
- Double-write bytes: a slot is one unit with the page in it; its checksum is the torn-or-whole assumption.
- `LogFileWriter::is_full`: `write` already rejects an LSN at the end.
- LogFile.LogFileWriter.Write: a negative recorded size, or one beyond the payload, makes the source read past the payload; such entries are excluded.
- LogFileManager.LogFileManager.NextFile: does not model 64-bit overflow of the next segment's LSN.
- LogFileManager.LogFileManager.LastFile: does not model 64-bit overflow of the end LSN.
- Seek errors of lseek on an open log file.
- Condition variables, flush thresholds, statistics and concurrent changes of the limit in the log buffer.
- Bitmap.Bitmap.Bytes: does not model the `int` overflow of sizes above 2^31 - 8.
- Pool growth, `cleanup`, and the item pool in `mem_pool.cpp`: the frame manager uses neither growth nor the item pool.
- FrameManager.FrameManager.PurgeFrames: frees under the cached key, which is what line 123 of `buffer_pool.cpp` intends; the line as written is `PurgeFramesAsWritten`.
- FrameManager.FrameManager.Settle: the same for one frame; as written it is `SettleAsWritten`.
- The effects of a purger itself (page writes) are not part of the model, only its answers.
- Two loops of the bitmap that differ only in the wanted bit are one method with the bit as a parameter.
- Buffer pool, buffer pool manager and their log handlers and replayers: declared without bodies.
- Frames as objects: a frame is a record in the pool's array, so two pointers to one frame are two equal places.
- Frame dirty flags, access times, hashes and page types.
- Date and time construction and formatting of values, `to_string` functions, error-code names.
- The unaligned and tail bytes of `crc32` in `crc.cpp`, which only matter where its word loop does not run.
- The text logger, stack traces, SQL grammar and lexer.
