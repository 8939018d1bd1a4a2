# GubbinsMOS models

This project models the parts of GubbinsMOS, a small run-time framework for microcontrollers, whose correctness
rests on data structures and protocols rather than on hardware, and proves what those parts are for. It covers the
littlefs core that GubbinsMOS imports, the memory pool with its buffers and streams, the CBOR encoder and scanner, the
EEPROM record store, the scheduler with its events, and the real time clock.

`dafny verify dfyconfig.toml` checks everything.

## Form

What the C code updates in place is a class with the same fields (`Pool`, `Buffer`, `Stream`, `Parser`, `Allocator`,
`Tortoise`, `Cache`, `Eeprom`, `Task`, `Event`, `EventQueue`, `Scheduler`, `Rtc`); its loops are loops, and its linked
lists are linked objects with a ghost sequence beside them. What the operations mean is said with pure functions, and
the theorems are lemmas about these. Integers are unbounded; where the width matters it is written out: wrapping task
timestamps, 16-bit buffer sizes, the 32-bit clock, the 8-bit loop counters of the CBOR scanner.

| modules | about | main results |
|---|---|---|
| `Words` | bytes, words, powers of two, exclusive or | arithmetic the others share |
| `LfsLog`, `LfsLogBounds` | the metadata log as a history of entries | searching backwards equals replaying forwards; ids stay in range |
| `LfsImage`, `LfsDir` | the log as bytes with chained tags | the search in a block returns what the replay gives, byte by byte |
| `LfsCompact`, `LfsTraverse` | the filter and the traversal that compact a log | compaction preserves lookups; which finer lookups it changes, exactly |
| `LfsAlloc` | the lookahead window and its checkpoint counter | no block is handed out twice or while in use, over every run; no space is reported truthfully |
| `LfsCtzIndex`, `LfsCtzList` | the skip-lists that hold files | the closed form finds the block; find, extend, append and traverse keep the list |
| `LfsTail` | the tail list and Brent's algorithm | the walk ends, and reports corruption exactly if the list does not |
| `LfsRead` | reading through two caches | cached reads are plain reads overlaid with pending bytes |
| `Mempool`, `SegmentBytes`, `SegmentLists`, `SegmentCopy` | the pool and its segment lists | lists stay acyclic and disjoint, counts exact |
| `Buffers`, `BufferMoves`, `BufferCopy`, `BufferSystem` | segmented buffers | each operation refines byte sequences and fails exactly when it must; concatenation never fails; every run on many buffers |
| `Streams`, `StreamMessages` | byte queues and messages | a bounded queue open at its head; messages arrive intact and in order |
| `CborFormat`, `CborTree`, `CborParser` | headers, token trees, the scanner | the scanner appends the preorder of the tree there is, or fails, exactly |
| `CborRoundTrip`, `CborExact`, `CborEncode`, `CborLookup` | values, encoders, decoders, lookups | round trip, exactly for the values within the limits; what is decoded and looked up is what the tokens denote |
| `EepromFormat`, `EepromSearch` | the record list and the search in it | searching is a map lookup; when offsets wrap |
| `EepromPower`, `EepromDriver` | torn writes, and the driver's state machine | a create is atomic however its writes are torn; when an update is, exactly |
| `TaskQueues`, `Events`, `Scheduler` | intrusive queues with wrapping deadlines | every task is in the queue of its state; what a step wakes, exactly |
| `SchedulerRuns` | runs of starts, resumes, events and steps | first in, first out; consumers are served by the next step; no deadline is slept through |
| `RtcCalendar`, `RtcConvert`, `RtcClock` | calendar, conversions, counting clock | round trips, exactly when; counting equals converting |

## Where the code does less than one might expect

The model follows the code in each of these.

- `gmosDriverEepromRecordCreate` checks for the room of one header (common/src/gmos-driver-eeprom.c:318-321), but the
  end marker moves behind the new record and needs another. Without that room the create sequence waits for ever
  (`EepromDriver.Eeprom.RunWithoutRoom`); with it the record is created (`EepromDriver.Eeprom.RunToIdle`).
- An EEPROM value update is a plain write: after a loss of power the record has some value of its length, not
  necessarily the old one or the new one (`EepromPower.NeitherOldNorNew`). Every other record is as it was
  (`EepromPower.PowerLossInUpdate`). If bytes are written one after the other, an update is atomic if and only if the
  two values differ in at most one byte (`EepromPower.UpdateIsAtomic`), which a caller can find out by reading the
  record first; if writes may be torn in any way, if and only if the value is empty (`EepromPower.TornUpdateIsAtomic`).
- On a memory that holds no record list, a search that runs off its end reports a formatting error, unless the 16-bit
  offset wraps and the search starts over (`EepromSearch.WalkCanWrap`). Where a list is, it cannot wrap
  (`EepromSearch.FormattedNeverWraps`).
- The CBOR scanner holds the length of a fixed array or map in a `uint_fast8_t`. Where that has 8 bits, an array of 256
  entries is scanned as an empty one (`CborExact.ArrayOf256`); a value survives the scan if and only if its lengths
  and its nesting are within the limits (`CborExact.ScansExactly`).
- The CBOR scanner adds the length of a string to its offset in a `uint_fast16_t`. A string that reaches beyond the
  message is accepted if that wraps (`CborExact.StringBeyondMessage`); a scanned string lies inside the message if and
  only if it did not (`CborExact.ScannedString`).
- The header file says that `gmosBufferConcatenate` may fail for lack of memory. It does not, and always returns true
  (`BufferMoves.Concatenate`). Beyond 65535 bytes no buffer can hold the result (`BufferMoves.NothingHoldsMore`).
- Local time is computed in 32 bits, so a universal time near the end of its range with an eastern zone is accepted as a
  time early in 2000 (`RtcConvert.LocalTimeCanWrap`). `RtcConvert.ThereAndBack` says exactly when a second survives
  the round trip.
- A failing littlefs scan drops the lookahead window, and that is a checkpoint (`LfsAlloc.Allocator.Scan`): a block
  handed out before it may be handed out again, as in `LfsAlloc.TwiceAfterFailedScan`. Without a checkpoint or a
  failing scan in between it never is (`LfsAlloc.TwiceMeansEpochBetween`).
- The compaction filter lets a later struct tag stand for all earlier ones of any exact type. Lookups of a whole class
  are preserved; a lookup of one exact struct type is preserved if and only if the newest struct has that type or none
  was found before (`LfsCompact.FinerLookupAfterCompaction`).
- Sub-second counting carries at most one second per update: the clock keeps time if and only if updates are less than a
  second apart (`RtcClock.Rtc.UpdateTimerCounter`).

## Model

| member | source | states |
|---|---|---|
| LfsLog.BackwardSearchIsReplay | imports/littlefs/lfs.c:721-784 | For every log, the search from the newest tag back, with the id adjusted at each splice, finds exactly the newest value that replaying creates, deletes and values forwards gives the entry, or nothing |
| LfsLog.MatchesInBits | imports/littlefs/lfs.c:764 | Two types match under the masks 0x7ff, 0x780 and 0x700 exactly if they agree in the bits set there |
| LfsImage.ChainBothWays | imports/littlefs/lfs.c:749 | A tag masked with its neighbour is unmasked by either: knowing the previous tag gives the tag, and knowing the tag gives the previous one, whatever their valid bits |
| LfsImage.AttributeTwice | imports/littlefs/lfs.c:1623-1640 | The bytes of a log of two tags: big-endian words, the first masked with all ones and the second with the first |
| LfsDir.Get | imports/littlefs/lfs.c:721-784 | On the bytes of any block that holds a log: not found exactly if the replay gives the entry no value; otherwise a tag with the kind and size of the newest value and the id asked for, and a buffer that holds the value byte by byte, as far as it goes, and zeros after it |
| LfsCompact.SurviveInverse | imports/littlefs/lfs.c:855-883 | A tag survives the filter, renumbered to some id, exactly if searching the later tags back from that id passes through to the id the tag was written with |
| LfsCompact.CompactionAgrees | imports/littlefs/lfs.c:915-1107 | Searching the compacted log, with any mask within a class of values, agrees step by step with searching the whole log |
| LfsCompact.CompactionPreservesLookups | imports/littlefs/lfs.c:2018-2024 | For every log, id range and id in it, a lookup of a name, struct or user attribute class finds in the compacted log what it found before, under the new id |
| LfsCompact.FinerLookupAfterCompaction | imports/littlefs/lfs.c:855-883 | With a finer mask the result after compaction is the newest value of the class if it matches; it is unchanged if and only if that is so or nothing was found before |
| LfsCompact.StaleStructIsForgotten | imports/littlefs/lfs.c:860-867 | A concrete log in which an exact-type lookup finds an overwritten struct before compaction, and nothing after it |
| LfsCompact.CompactionPreservesReplay | imports/littlefs/lfs.c:2018-2024 | The same as CompactionPreservesLookups said of forward replay: the entries that the compacted log replays to have the values of the original ones |
| LfsTraverse.Commit.CommitAttr | imports/littlefs/lfs.c:1623-1666 | Appending one masked tag and its data extends the log that the block holds by that tag, or fails and changes nothing if it does not fit |
| LfsTraverse.Traverse | imports/littlefs/lfs.c:915-1107 | The loop with an explicit stack writes exactly the compaction of the block's log followed by the pending attributes, and succeeds if and only if the encoded result fits |
| LfsTraverse.PendingAreAll | imports/littlefs/lfs.c:945-951 | Every pending attribute that says something takes part, with its packed word and its data |
| LfsTraverse.Compact | imports/littlefs/lfs.c:1953-2024 | The new block starts with the next revision count, and every lookup of every kept entry in it answers what it would have answered in the old one with the pending attributes applied; it holds no other entries |
| LfsTraverse.NewBlockAnswersAlike | imports/littlefs/lfs.c:2018-2024 | The renumbered entry has the newest name, struct and user attributes of the original, for every class |
| LfsLogBounds.FilterStepInBounds | imports/littlefs/lfs.c:855-883 | In a well formed log a tag passed through a later one keeps an id within the entries that exist at that point |
| LfsAlloc.Allocator.Scan | imports/littlefs/lfs.c:643-664 | After a scan the window starts after what was looked at, is as large as the checkpoint count allows, and marks a block exactly if the tree uses it; a failing scan drops the window |
| LfsAlloc.Allocator.Alloc | imports/littlefs/lfs.c:668-717 | The nested loops end; a block returned is not in the tree and was not handed out since the last checkpoint; no space is reported only when every block was handed out or found in use by a scan; the count of blocks left never increases |
| LfsAlloc.Allocator.NothingLeft | imports/littlefs/lfs.c:698-705 | When the checkpoint count reaches zero, every block of the device was handed out since the last checkpoint or was found in the tree |
| LfsAlloc.Allocator.Checkpoint | imports/littlefs/lfs.c:616-618 | A checkpoint forgets what was handed out and keeps the window invariant size - next <= ckpoint <= block count |
| LfsAlloc.Allocator.Drop | imports/littlefs/lfs.c:622-626 | Dropping the window keeps the invariant |
| LfsAlloc.Run | imports/littlefs/lfs.c:616-717 | Every run of allocations, scans with faults, commits, releases and checkpoints keeps the allocator valid; each step shows what it should: a block neither in the tree nor in flight, or no space only if every block is in flight, or was marked in use by a scan since the last checkpoint or in the window that the checkpoint kept, or is in the tree that this very call scanned |
| LfsAlloc.TwiceMeansEpochBetween | imports/littlefs/lfs.c:612-618 | In every run, between two grants of the same block a checkpoint or a failed scan lies |
| LfsAlloc.HandedIsFree | imports/littlefs/lfs.c:670-690 | In every run, a block is not in the tree when it is handed out |
| LfsAlloc.FullIsTruthful | imports/littlefs/lfs.c:698-717 | In every run, when no space is reported every block either was handed out since the last checkpoint or was in the tree when a scan looked at it |
| LfsAlloc.TwiceAfterFailedScan | imports/littlefs/lfs.c:643-664 | A device of two blocks on which one block is handed out twice with nothing but a failing scan in between |
| LfsCtzIndex.PointersInAll | imports/littlefs/lfs.c:2874-2885 | The pointers of blocks 1 to m number 2m - popcount(m) |
| LfsCtzIndex.OnlyBlockOf | imports/littlefs/lfs.c:2874-2885 | At most one block covers a file position |
| LfsCtzIndex.TwoDivisions | imports/littlefs/lfs.c:2878-2883 | The first quotient is zero exactly for block 0, and correcting by the pointers of the blocks before it and dividing again gives the block that covers the position |
| LfsCtzIndex.Index | imports/littlefs/lfs.c:2874-2885 | For every block size from 128 and every 32-bit position, the two divisions and popcounts give the block that the layout gives and the offset of the position in it |
| LfsCtzList.Find | imports/littlefs/lfs.c:2887-2920 | The walk over the skip pointers, never using a pointer that is not there, ends at the one block that covers the position, with the offset at which that block holds the byte that the file has there; an empty file gives the null block |
| LfsCtzList.Extend | imports/littlefs/lfs.c:2922-3017 | The contents stay; the chain gets a new last block with its pointers collected by following pointers, or with the last block copied if that has room; pointer k of block n is block n - 2^k |
| LfsCtzList.Append | imports/littlefs/lfs.c:3588-3660 | Appending any bytes, block by block, yields a skip-list that holds the old contents followed by the bytes; the file as it was is still there, whether or not the blocks suffice |
| LfsCtzList.Traverse | imports/littlefs/lfs.c:3021-3062 | Every block of the file is visited exactly once, newest first |
| LfsTail.Tortoise.DetectCycles | imports/littlefs/lfs.c:4461-4477 | One step of Brent's algorithm: what is reported, and where the tortoise is put |
| LfsTail.NotForLong | imports/littlefs/lfs.c:4461-4477 | Past the first n pairs (n the number of pairs there are) the tortoise is met again within n steps if the list goes on |
| LfsTail.Traverse | imports/littlefs/lfs.c:4485-4500 | The walk ends within 3n + 2 steps on every finite tail map; it reports corruption exactly if the list never ends, and then a pair did repeat; otherwise it has visited every pair of the list once |
| LfsRead.NextPart | imports/littlefs/lfs.c:56-90 | The stretch that can be read at once, and from where: pending bytes first, then cached ones, neither overlapping the rest |
| LfsRead.Read | imports/littlefs/lfs.c:44-125 | For every overlap of range, pending bytes and cached bytes the result is the device block overlaid with the pending bytes; the read cache stays coherent, and the loop ends |
| LfsRead.OverlayAt | imports/littlefs/lfs.c:56-70 | Byte by byte: what waits to be programmed, and what the device holds elsewhere |
| Mempool.Pool.constructor | common/src/gmos-mempool.c:52-76 | The segments are linked into the free list, in order, with a correct count |
| Mempool.Pool.Alloc | common/src/gmos-mempool.c:146-156 | Takes the first free segment, detached, or nothing if there is none; the data of all segments stays |
| Mempool.Pool.Free | common/src/gmos-mempool.c:161-170 | The segment becomes the first free one |
| Mempool.Pool.AllocSegments | common/src/gmos-mempool.c:175-195 | Takes a list of exactly that many segments off the free list, or changes nothing if there are too few |
| Mempool.Pool.FreeSegments | common/src/gmos-mempool.c:200-219 | A whole list goes to the front of the free list, counted right |
| SegmentCopy.CopyToSegments | common/src/gmos-buffers.c:67-102 | Overwrites exactly the addressed bytes of a segment list, across segment boundaries |
| SegmentCopy.CopyFromSegments | common/src/gmos-buffers.c:107-141 | Returns exactly the addressed bytes of a segment list |
| Buffers.Buffer.Reset | common/src/gmos-buffers.c:166-185 | Succeeds exactly if the pool and the buffer's own segments suffice; otherwise leaves the buffer empty; no segment is lost |
| Buffers.Buffer.IncrSizeEnd | common/src/gmos-buffers.c:190-224 | Succeeds exactly if the segments suffice; keeps the contents as a prefix; keeps the exact segment count |
| Buffers.Buffer.DecrSizeEnd | common/src/gmos-buffers.c:229-250 | Keeps exactly the prefix, and returns exactly the surplus segments |
| Buffers.Buffer.IncrSizeStart | common/src/gmos-buffers.c:255-301 | Succeeds exactly if the segments that the grown buffer takes up fit into its own and the free ones; keeps the contents as a suffix |
| Buffers.Buffer.DecrSizeStart | common/src/gmos-buffers.c:306-338 | Keeps exactly the suffix; the new offset accounts for the segments dropped |
| Buffers.Buffer.Extend | common/src/gmos-buffers.c:343-364 | When extending succeeds, exactly, and that the old contents stay in front |
| Buffers.Buffer.Resize | common/src/gmos-buffers.c:369-396 | Keeps the common prefix of the old and the new size; when it fails, exactly |
| Buffers.Buffer.Rebase | common/src/gmos-buffers.c:401-428 | Keeps the common suffix of the old and the new size; fails exactly if the segments that the buffer would take up exceed its own and the free ones |
| Buffers.Buffer.Write | common/src/gmos-buffers.c:433-449 | Replaces the addressed bytes or, out of range, nothing |
| Buffers.Buffer.Read | common/src/gmos-buffers.c:454-471 | Returns the addressed bytes or, out of range, fails |
| Buffers.Buffer.Append | common/src/gmos-buffers.c:476-493 | Contents become contents + data, or stay as they were exactly if memory does not suffice |
| Buffers.Buffer.Prepend | common/src/gmos-buffers.c:498-512 | Contents become data + contents, or stay as they were exactly if the segments that the two would take up exceed the buffer's own and the free ones |
| Buffers.SegCountBefore | common/src/gmos-buffers.c:266-278 | Bytes put in front enter the first segment at the one offset that leaves the others in place, and take exactly as many more segments as whole ones have to be linked in |
| SegmentBytes.SegCountIsLeast | common/src/gmos-buffers.c:172-175 | The number of segments of a buffer is the least that holds its bytes |
| BufferMoves.Move | common/src/gmos-buffers.c:518-532 | The contents and segments change hands; the old segments of the destination become free |
| BufferCopy.Copy | common/src/gmos-buffers.c:590-594 | Succeeds exactly if the segments suffice; the source stays, the destination holds the same bytes or nothing |
| BufferMoves.ChunkFits | common/src/gmos-buffers.c:625-634 | Taking a chunk from the start of one buffer frees at least as many segments as appending it to another can take |
| BufferMoves.ChunkFitsBefore | common/src/gmos-buffers.c:648-658 | The same for a chunk taken from the end and prepended, with the exact count of segments that a prepend takes |
| BufferMoves.Concatenate | common/src/gmos-buffers.c:665-703 | For distinct sources of representable total size the destination, which may be one of them, always holds A + B and the sources are consumed, even with no free segment |
| BufferMoves.NothingHoldsMore | common/src/gmos-buffers.c:665-703 | If the sizes together exceed what a buffer can have, no buffer whatever holds the two contents: the condition of Concatenate is exact |
| BufferSystem.Run | common/src/gmos-buffers.c:51-594 | For every sequence of operations on any number of buffers over one pool: each succeeds exactly when the segments it holds and the free ones allow, contents follow the byte sequence specification, failed operations other than reset and copy change nothing, and the free list and the buffers stay acyclic and disjoint and hold exactly the same segments, as many as each should |
| BufferSystem.Step | common/src/gmos-buffers.c:51-594 | One operation on a system of buffers: its exact success condition, its effect on contents, offset and segment counts, and that all the other buffers are untouched |
| Streams.Stream.GetWriteCapacity | common/src/gmos-streams.c:109-134 | All the bytes of the segments, the stream's own and the free ones, but for those up to the last byte held, within the limit of the stream |
| Streams.Stream.CommonWrite | common/src/gmos-streams.c:178-235 | Within the capacity no allocation fails; the contents are appended to; the space left shrinks by what was written |
| Streams.Stream.Write | common/src/gmos-streams.c:241-257 | Appends as much as the capacity allows, exactly |
| Streams.Stream.WriteAll | common/src/gmos-streams.c:264-279 | Appends all or nothing, exactly by capacity |
| Streams.Stream.WriteByte | common/src/gmos-streams.c:306-348 | Appends one byte exactly if there is capacity |
| Streams.Stream.WriteMessage | common/src/gmos-streams.c:285-301 | Appends the size and the message, or nothing; the three writes it is made of cannot fail in between |
| Streams.FrameIs | common/src/gmos-streams.c:294-299 | A message in a stream is its size in two bytes, the less significant one first, and the message itself |
| Streams.Stream.CommonRead | common/src/gmos-streams.c:355-388 | Removes a prefix of the contents; segments return to the pool as they are used up |
| Streams.Stream.Read | common/src/gmos-streams.c:394-410 | Removes and returns as long a prefix as there is |
| Streams.Stream.ReadAll | common/src/gmos-streams.c:417-430 | Removes and returns a prefix of the given size, or nothing |
| Streams.Stream.ReadByte | common/src/gmos-streams.c:475-501 | Removes and returns the first byte, if there is one |
| Streams.Stream.PeekByte | common/src/gmos-streams.c:507-531 | Returns the byte at an index of the contents |
| Streams.Stream.ReadMessage | common/src/gmos-streams.c:438-470 | Removes a complete message with its header, or changes nothing, with the three reasons told apart |
| Streams.Stream.PushBack | common/src/gmos-streams.c:540-601 | Prepends all or nothing, exactly by capacity; data ends up before the bytes there were |
| StreamMessages.Exchange | common/src/gmos-streams.c:285-470 | Any sequence of sends and receives is a run of a message queue, step for step: a message is refused only if there is no room for it, and the first message is received unless it is longer than allowed; the stream holds the frames of the pending messages and nothing else |
| StreamMessages.ReceivedInOrder | common/src/gmos-streams.c:285-470 | In every such run the messages sent are those received followed by those still in the stream: none lost, changed or overtaken |
| CborFormat.HeaderRoundTrip | common/src/gmos-format-cbor-dec.c:79-165 | Every header the encoder writes, anywhere in a message, is read back with its type, parameter and end |
| CborFormat.HeaderIs | common/src/gmos-format-cbor-dec.c:79-165 | Where there is a header, exactly, for any bytes whatever; and its parameter in terms of the bytes |
| CborFormat.ShortestHeader | common/src/gmos-format-cbor-enc.c:46-86 | No header that is read as the same parameter is shorter than the one the encoder writes |
| CborFormat.BeDigit | common/src/gmos-format-cbor-enc.c:46-86 | Which digit of the parameter each byte of a header is |
| CborRoundTrip.StandardBytes | common/src/gmos-format-cbor-enc.c:123-385 | The major type of each encoded value, and the bytes of simple values, floating point headers and open arrays and maps, as the standard has them |
| CborRoundTrip.IntegerBytes | common/src/gmos-format-cbor-enc.c:212-227 | A negative integer is written with major type 1 and how far it lies below minus one |
| CborEncode.EncodeWithParameter | common/src/gmos-format-cbor-enc.c:37-90 | Appends the shortest header for the parameter, exactly if memory suffices, or nothing |
| CborEncode.FitsExactly | common/src/gmos-format-cbor-enc.c:37-90 | When there is memory for more bytes, exactly: in terms of sizes, offset and number of segments |
| CborEncode.EncodeWithByteArray | common/src/gmos-format-cbor-enc.c:96-120 | Appends header and string, exactly if both fit, with the header taken back otherwise |
| CborEncode.EncodeInt64 | common/src/gmos-format-cbor-enc.c:212-227 | Appends the header that the standard has for the signed value, or nothing |
| CborEncode.EncodeValue | common/src/gmos-format-cbor-enc.c:37-385 | Encoding a value tree item by item appends exactly its encoding, and succeeds if and only if all of it fits |
| CborParser.Parser.DecodeWithParameter | common/src/gmos-format-cbor-dec.c:79-165 | Yields the token for a complete header, and nothing for reserved or truncated ones |
| CborParser.Parser.ScanFixed | common/src/gmos-format-cbor-dec.c:171-340 | Scanning a fixed length array or map appends the preorder tokens of the tree there is, with the enclosing count patched, or fails; exactly if the tree exists and there is memory for it |
| CborParser.Parser.ScanIndefArray | common/src/gmos-format-cbor-dec.c:228-282 | The same for an array ended by a break code, whose length is found on the way |
| CborParser.Parser.ScanIndefMap | common/src/gmos-format-cbor-dec.c:346-411 | The same for a map ended by a break code in place of a key |
| CborParser.Parser.ScanTag | common/src/gmos-format-cbor-dec.c:435-471 | The same for a tagged item |
| CborParser.Parser.ScanNextToken | common/src/gmos-format-cbor-dec.c:478-565 | The same for any item; a break code is reported only where one may stand |
| CborParser.Parser.Scan | common/src/gmos-format-cbor-dec.c:571-595 | A message is accepted exactly if one item with memory for its tokens takes up all of it; the tokens are the preorder of its tree |
| CborRoundTrip.ScanEncoded | common/src/gmos-format-cbor-dec.c:478-565 | Scanning an encoded value within the limits, wherever it stands in a message, finds its token tree and its end |
| CborExact.ScannedIsSound | common/src/gmos-format-cbor-dec.c:171-595 | In every scanned tree each token stands for a header in the message that is not a break code, each count covers its subtree, the nesting is within the limit, each array and map has the children its length, narrowed to the loop counter, announces, and each string has a definite length and ends within the message as far as 16-bit addition can tell |
| CborExact.ScannedString | common/src/gmos-format-cbor-dec.c:417-430 | A scanned string lies inside the message if and only if adding its length to its offset did not wrap |
| CborExact.StringBeyondMessage | common/src/gmos-format-cbor-dec.c:417-430 | A message of a few bytes whose one string claims far more than there is, and is accepted because its end wraps |
| CborExact.ScansExactly | common/src/gmos-format-cbor-dec.c:171-595 | For every value: the scan of its encoding finds its token tree and consumes it all if and only if nesting and lengths are within the limits, the width of uint_fast8_t included |
| CborExact.ArrayOf256 | common/src/gmos-format-cbor-dec.c:189-190 | With an 8-bit uint_fast8_t an array of 256 entries is scanned as an empty one |
| CborExact.DenotesOne | common/src/gmos-format-cbor-dec.c:478-565 | A token tree stands for at most one value |
| CborExact.RoundTrip | common/src/gmos-format-cbor-dec.c:571-595 | Scanning the encoding of a value within the limits consumes all of it, and the tokens stand for that value and no other |
| CborLookup.DecodeUint32 | common/src/gmos-format-cbor-dec.c:761-780 | If the token denotes an integer of the range, returns that integer; fails exactly if it denotes none |
| CborLookup.DecodeInt32 | common/src/gmos-format-cbor-dec.c:787-811 | If the token denotes an integer of the range, returns that integer; fails exactly if it denotes none |
| CborLookup.DecodeUint64 | common/src/gmos-format-cbor-dec.c:819-838 | If the token denotes an integer of the range, returns that integer; fails exactly if it denotes none |
| CborLookup.DecodeInt64 | common/src/gmos-format-cbor-dec.c:847-871 | If the token denotes an integer of the range, returns that integer; fails exactly if it denotes none |
| CborLookup.DecodeEncoded | common/src/gmos-format-cbor-dec.c:787-871 | Every signed integer that was encoded and scanned is decoded as itself, in 64 bits always and in 32 bits exactly if it has the width |
| CborLookup.MatchTextString | common/src/gmos-format-cbor-dec.c:1104-1150 | Comparing 16 bytes at a time succeeds exactly if token and message denote the text |
| CborLookup.MatchEncoded | common/src/gmos-format-cbor-dec.c:1104-1150 | A text that was encoded and scanned matches itself and no other |
| CborLookup.LookupArrayEntry | common/src/gmos-format-cbor-dec.c:1262-1292 | Finds exactly the index at which the tokens of the k-th child stand, or fails exactly if there is no such child |
| CborLookup.LookupMapIntKey | common/src/gmos-format-cbor-dec.c:1323-1354 | The exact place of the value of the first pair whose key denotes the integer; fails exactly if no pair has one |
| CborLookup.LookupMapTextKey | common/src/gmos-format-cbor-dec.c:1384-1413 | The exact place of the value of the first pair whose key denotes the text; fails exactly if no pair has one |
| CborLookup.FindsInMap | common/src/gmos-format-cbor-dec.c:1323-1413 | For tokens that denote a map of given items, a lookup succeeds exactly if the key is among the keys, and then gives the place of the value of the first of them |
| CborLookup.SoundIsWhole | common/src/gmos-format-cbor-dec.c:1262-1413 | Scanned arrays and maps meet what the lookups require, unless their length was narrowed |
| EepromFormat.SameRecords | common/src/gmos-driver-eeprom.c:100-131 | Nothing after the end marker matters to the list of records |
| EepromFormat.OneValueChanged | common/src/gmos-driver-eeprom.c:203-208 | Overwriting bytes of one value changes that value and no other record |
| EepromFormat.HeaderDigits | common/src/gmos-driver-eeprom.c:323-330 | A header is the bytes of the tag, then those of the length, each least significant first |
| EepromFormat.EndTagBytes | common/src/gmos-driver-eeprom.c:51-65 | The end marker is all ones in the tag and zero in the length |
| EepromSearch.UsableTags | common/src/gmos-driver-eeprom.c:90-94 | Which tags records may have, by size of the tag field |
| EepromSearch.FindIsLookup | common/src/gmos-driver-eeprom.c:77-142 | On a formatted memory the linear search is the lookup in the map of its records, with the place of the value |
| EepromSearch.FormattedNeverWraps | common/src/gmos-driver-eeprom.c:100-131 | In a memory that holds records no search reaches an offset beyond 16 bits |
| EepromSearch.WalkCanWrap | common/src/gmos-driver-eeprom.c:100-131 | A memory that holds no list, in which the offset of the next record wraps to the first one |
| EepromDriver.Eeprom.RecordSearch | common/src/gmos-driver-eeprom.c:77-142 | The loop returns what the walk over the records finds, the error for a list that runs off the memory included, for every memory on which the 16-bit offset does not wrap |
| EepromDriver.Eeprom.WriteData | common/src/gmos-driver-eeprom-sw.c:71-100 | Writes the bytes given, or zeros if none are, into the range and nothing elsewhere, or nothing at all, one after the other; unless the write is atomic, a loss of power may leave every memory that differs from the old one in the range, whatever it holds there |
| EepromPower.HeaderCommits | common/src/gmos-driver-eeprom.c:191-200 | The header write over the end marker turns the list into the list with the new record |
| EepromPower.CreateTearsAreWhole | common/src/gmos-driver-eeprom.c:165-200 | Every memory that a loss of power may leave in a create, from its first write on, holds the old list or the new one |
| EepromDriver.Eeprom.Task | common/src/gmos-driver-eeprom.c:148-226 | Each step of the state machine keeps the invariant and moves to the state it should; what losses of power may leave, behind it and still to come, is the same set of memories before and after each step, any tearing of end marker and value included; a create without room for the end marker stays where it is |
| EepromDriver.Eeprom.CreateIsAtomic | common/src/gmos-driver-eeprom.c:165-200 | In the middle of a create, with torn writes, whatever memory may be left shows the old records, or those and the new one |
| EepromDriver.Eeprom.UpdateKeepsOthers | common/src/gmos-driver-eeprom.c:203-208 | In the middle of an update, with a torn write, whatever memory may be left shows the old map with some value of the same length for the one record |
| EepromPower.PowerLossInCreate | common/src/gmos-driver-eeprom.c:165-200 | Whenever power is lost in a create, and however the writes of end marker and value are torn, every search sees exactly the old records, or exactly those and the new one |
| EepromPower.PowerLossInUpdate | common/src/gmos-driver-eeprom.c:203-208 | However the write of an update is torn, every search sees the old map with some value of the same length for that record |
| EepromPower.UpdateIsAtomic | common/src/gmos-driver-eeprom.c:203-208 | With bytes written one after the other, every memory on the way shows the old or the new value if and only if the two differ in at most one byte |
| EepromPower.TornUpdateIsAtomic | common/src/gmos-driver-eeprom.c:203-208 | With writes torn in any way, an update is atomic if and only if the value is empty |
| EepromPower.NeitherOldNorNew | common/src/gmos-driver-eeprom.c:203-208 | A two-byte value of which the first byte is new and the second old when power is lost: a search finds a value that nobody wrote |
| EepromDriver.Eeprom.RunToIdle | common/src/gmos-driver-eeprom.c:231-236 | With room for the record and the end marker a create or update completes with the intended records; what losses of power could have left on the way is exactly the set announced when it began |
| EepromDriver.Eeprom.RunWithoutRoom | common/src/gmos-driver-eeprom.c:318-321 | Without that room a create that passed the space check never completes: any number of runs changes nothing |
| EepromDriver.Eeprom.RecordCreate | common/src/gmos-driver-eeprom.c:292-349 | The status in every case, in terms of the map of records; a completed create adds exactly the record to the map, and could have left exactly the memories of which CreateTearsAreWhole speaks |
| EepromDriver.Eeprom.RecordWrite | common/src/gmos-driver-eeprom.c:355-392 | The status in every case; a completed update changes exactly the value of the tag, and could have left exactly the memories torn in that value |
| EepromDriver.Eeprom.RecordRead | common/src/gmos-driver-eeprom.c:398-426 | The status in every case; the bytes read are those of the map's value |
| TaskQueues.SignedDifference | common/src/gmos-scheduler.c:119-127 | The wrapped difference of wrapped timestamps is the difference of the deadlines if these are less than 2^31 apart |
| TaskQueues.FindPlace | common/src/gmos-scheduler.c:119-127 | The search for the insertion point stops exactly after all tasks due no later, under wrapping comparison |
| Events.EventQueue.Append | common/src/gmos-events.c:40-68 | The event joins the end of the queue unless it waits already or has no consumer |
| Events.EventQueue.AssignMaskedBits | common/src/gmos-events.c:147-161 | The bits under the mask are replaced and no others, the old ones are returned, and the event is queued once however often it occurs |
| Events.EventQueue.GetNextConsumer | common/src/gmos-events.c:216-239 | Returns the consumer of the event that has waited longest, with the ready flag kept right |
| Scheduler.Scheduler.MakeTaskReady | common/src/gmos-scheduler.c:65-76 | The task joins the end of the ready queue; every other task stays in the one queue of its state |
| Scheduler.Scheduler.InsertTask | common/src/gmos-scheduler.c:83-129 | The task goes where its status asks for; queues stay sorted by deadline, first come first served among equals |
| Scheduler.Scheduler.RemoveTask | common/src/gmos-scheduler.c:135-158 | A delayed task leaves its queue, in whichever it is; the order of the others stays |
| Scheduler.Scheduler.BeginStep | common/src/gmos-scheduler.c:219-282 | The queues become exactly what waking the consumers of queued events in turn, and then releasing what is due, makes of them; the first ready task becomes active; the idle period ends with the next scheduled deadline, and passes none |
| Scheduler.NobodyIsLeft | common/src/gmos-scheduler.c:219-282 | After that every consumer of a queued event and every due task is ready, what was ready comes first, everybody else stays, and nobody else is woken |
| Scheduler.Scheduler.EndStep | common/src/gmos-scheduler.c:259-272 | A task that returns is put where its status asks for, and no task is active |
| Scheduler.Scheduler.TaskStart | common/src/gmos-scheduler.c:290-293 | A task that is not under way, new or suspended, joins the end of the ready queue |
| Scheduler.Scheduler.TaskResume | common/src/gmos-scheduler.c:299-306 | A waiting task moves to the end of the ready queue; for one that is ready or active nothing changes |
| SchedulerRuns.Run | common/src/gmos-scheduler.c:219-352 | Whatever is started, resumed and raised, within steps or between them, in any order, the scheduler and its queues stay valid and each task stays in the one queue of its state; what is seen of them follows an operation by operation specification |
| SchedulerRuns.NoneOvertakes | common/src/gmos-scheduler.c:219-306 | In every run and from every moment, the task at position p of the ready queue is the one that the step after p others runs, whether it was ready at the start or became so on the way |
| SchedulerRuns.RaisedIsServed | common/src/gmos-scheduler.c:230-239 | In every run, the consumer of an event raised at any moment is ready or active after the next step has begun |
| SchedulerRuns.NobodyIsLate | common/src/gmos-scheduler.c:241-282 | In every run, once a step has begun no delayed task is waiting past its deadline, none that waited is lost, and with nothing to do and nobody asking to stay awake the idle period lasts exactly until the first scheduled deadline |
| SchedulerRuns.NobodyIsEarly | common/src/gmos-scheduler.c:230-253 | In every run, a step makes nobody ready but the consumers of events that waited and the tasks that are due |
| SchedulerRuns.StartedIsReady | common/src/gmos-scheduler.c:290-306 | In every run, a task that is resumed is ready or active, and one that is started is ready unless it was under way |
| SchedulerRuns.ReturnedWaits | common/src/gmos-scheduler.c:83-129 | In every run, what becomes of a task that returns, for every status: ready, suspended, or waiting in one of the two queues until the time it asked for |
| RtcCalendar.OneDate | common/src/gmos-driver-rtc.c:76-118 | A day number belongs to one date |
| RtcCalendar.OneTime | common/src/gmos-driver-rtc.c:148-234 | A second of local time has one set of fields |
| RtcCalendar.MonthLengths | common/src/gmos-driver-rtc.c:41-54 | The lengths of the months, in order, with leap years |
| RtcCalendar.KnownDates | common/src/gmos-driver-rtc.c:76-118 | The day numbers of six dates of the century |
| RtcCalendar.KnownTime | common/src/gmos-driver-rtc.c:240-266 | The seconds, the weekday and the zone adjustment of one local time |
| RtcConvert.GetElapsedDays | common/src/gmos-driver-rtc.c:76-118 | The leap year cycles and month loop give the number of days before the date, as summed year by year and month by month |
| RtcConvert.ConvertFromUtc | common/src/gmos-driver-rtc.c:148-234 | Succeeds exactly if the zone is in range and the 32-bit local time lies before 2100; the fields are valid, of the right weekday, and stand for that local time |
| RtcConvert.ConvertToUtc | common/src/gmos-driver-rtc.c:240-266 | Succeeds exactly if universal time would not lie before 2000, and gives local time less the zone |
| RtcConvert.Validate | common/src/gmos-driver-rtc.c:273-320 | Accepts exactly the field values that are a date and time, and sets the right weekday |
| RtcConvert.ThereAndBack | common/src/gmos-driver-rtc.c:148-266 | Both conversions in turn succeed if and only if local time lies in 2000 to 2099 without wrapping, and give back the same second |
| RtcConvert.BackAndThere | common/src/gmos-driver-rtc.c:148-266 | Every valid field set with a representable universal time converts to it and back unchanged, weekday included |
| RtcConvert.LocalTimeCanWrap | common/src/gmos-driver-rtc.c:163-171 | A concrete universal time whose eastern local time wraps and is accepted as one in 2000 |
| RtcClock.Rtc.IncrementDate | common/src/gmos-driver-rtc-sw.c:115-150 | The BCD date moves to the next day of the calendar, leap years included, and starts over after 2099 |
| RtcClock.Rtc.IncrementTime | common/src/gmos-driver-rtc-sw.c:156-175 | Local time moves on by one second, with the weekday right |
| RtcClock.Rtc.Tick | common/src/gmos-driver-rtc-sw.c:156-175 | N calls move local time on by N seconds |
| RtcClock.CountAndConvert | common/src/gmos-driver-rtc-sw.c:115-175 | N calls give the same fields as converting the universal time N seconds later, weekday included |
| RtcClock.Rtc.UpdateTimerCounter | common/src/gmos-driver-rtc-sw.c:181-204 | Seconds and sub-seconds together move on by the elapsed ticks if and only if these make up less than a second |
| RtcClock.Rtc.SetDaylightSaving | common/src/gmos-driver-rtc-sw.c:401-436 | A change before the end of the century leaves universal time as it is; it is refused exactly for a change back in the first hour of a day |

## Left out

- BufferMoves.Concatenate: requires a total size of at most 65535, since sizes have 16 bits, and two sources that are not the same buffer; what is left in the buffers otherwise is not modelled.
- BufferMoves.Move: requires two different buffers; moved onto itself a buffer is emptied.
- BufferCopy.Copy: requires two different buffers; copied onto itself a buffer is emptied first, and then gets segments of its old size with whatever bytes they hold.
- Buffers.Buffer.Prepend: requires a new size of at most 65535, because the code narrows it to 16 bits before use; `BufferSystem.Run` does not make such calls and says so in the run.
- Mempool.Pool.AllocSegments: requires a count of at least one; for none the code takes a free segment without counting it.
- Streams.Stream.PushBack: requires data to push back; for none, an empty stream takes a segment that it does not fill.
- Streams.Stream.CommonWrite: the resumption of the consumer task is left out; `Scheduler.Scheduler.TaskResume` is what it calls.
- Streams.Stream.WriteByte: the same.
- EepromDriver.Eeprom.RecordCreate: a blocking create that passes the space check without room for the end marker is excluded, because the call does not return; `EepromDriver.Eeprom.RunWithoutRoom` covers it. Lengths that the length field of the header cannot hold are excluded as well; the code does not check for them and writes a shorter one.
- EepromDriver.Eeprom.Task: the write of a record header takes effect at once, as the platform is taken to do; end marker, value and reset may be torn in any way.
- EepromDriver.Eeprom.RecordSearch: requires 16-bit offsets not to wrap on the walk for the tag, which they never do in a memory that holds records; where they do, the code may search for ever.
- LfsAlloc.Allocator.Alloc: the tree is the sequence of blocks that a traversal visits; that the traversal reaches every block in use is not modelled.
- LfsCtzList.Find: block bytes are modelled as their pointers and their data, so the little-endian pointer words and the caches under them are not part of this module.
- LfsCtzList.Extend: blocks program without error, so that relocation after a bad block does not arise.
- LfsCtzList.Append: writes at the end of a file only, to blocks that program without error.
- LfsTraverse.Traverse: attributes that move entries from another directory or carry user attribute lists are not modelled, nor are writing failures other than a full block.
- LfsDir.Get: slices start at offset 0; queries without an id (global state, tail) are not modelled.
- CborLookup.LookupArrayEntry: requires an array whose length was not narrowed by the scan, as do the map lookups; `CborLookup.SoundIsWhole` says which these are.
- CborLookup.LookupMapIntKey: keys take one token, as the code steps over a key by one.
- CborLookup.LookupMapTextKey: keys take one token, as the code steps over a key by one.
- CborParser.Parser.Scan: message and token storage are sequences with a capacity in tokens, not data buffers; buffers are proved to hold byte sequences on their own.
- CborExact.ScansExactly: which messages that are not well-formed CBOR are accepted is not characterised beyond the token tree that a scan yields; additional information 31 passes for integers and tags.
- Scheduler.Scheduler.BeginStep: one timer reading serves each part of a step; the function of a task runs between the two parts and reaches the scheduler only through the other operations.
- SchedulerRuns.Run: from the beginning of a step less than 2^31 ticks pass to the next one and to every deadline that the step sets, so that timestamps stay comparable under wrapping. Operations are atomic, which is what sections under a mutex make them; requests to stay awake are counted without limit; known tasks and events are given at the start.
- RtcClock.Rtc.SetDaylightSaving: near the end of 2099 only validity and the flag are promised.
- littlefs checksums, forward checksums, synthetic moves, global state, relocation of bad blocks, orphans, path lookup, open and close, migration.
- littlefs device errors, except for failing allocator scans; caching under the directory code.
- Inline files, writes inside a file, truncation.
- Heap-backed memory pools; segment sizes other than the default of 64 bytes.
- `gmosBufferCopySection`, `gmosBufferGetSegment`; the first leaves surplus segments behind when it skips whole segments.
- `gmosStreamSendBuffer`, `gmosStreamAcceptBuffer`, `gmosStreamPushBackBuffer`, which copy buffer structures as bytes.
- CBOR floating point arithmetic (values are bit patterns), string functions on NUL-terminated text, and reading tokens through data sources.
- EEPROM tags of four bytes; completion callbacks; busy polling beyond whether the platform is ready.
- Scheduler busy waiting (`gmosSchedulerTaskBusyWait`), priorities, lifecycle monitors, host operating system locks. Interrupts: sections under a mutex are single steps.
- Clock synchronisation and adjustment; the calibration of the sub-second counter is a parameter.
- SPI, I2C, GPIO, displays, touch, timers, flash drivers, random numbers and logging.
