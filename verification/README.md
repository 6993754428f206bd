# Verified model of the storage and encoding core

This project models the parts of the execution layer that keep data on disk, encode it and order it, and
proves what they promise. Nothing of the original program runs here: each module restates the logic of one
component in Dafny, with the source's branches, edge cases, constants and machine-word arithmetic, and
states its properties for all inputs.

`dafny verify dfyconfig.toml` checks everything.

| module | models |
|---|---|
| `Wrappers`, `Bytes` | optional and failing results; bytes and big-endian numbers |
| `FreezerIndex`, `FreezerDisk` | index entries as bytes; what a table leaves on disk, what a crash takes, what opening makes of the rest |
| `FreezerTable`, `FreezerBatch`, `Freezer` | one append-only table, its write batch, and all tables in lockstep |
| `FreezerCrash` | a freezer that is stopped in the middle of an operation and loses bytes, and what opening makes of it |
| `Rlp`, `RlpRaw`, `RlpBuffer`, `RlpStream` | the encoding as a recursive function, the slice splitter, the encoder buffer and its reader, the streaming decoder |
| `DeriveSha` | the order in which list items are fed to the hasher |
| `Heap`, `Prque`, `LazyQueue`, `LazyQueueRun` | heap steps on keys, the priority queue on a blocked stack, the queue with estimated priorities, its runs |
| `Lru` | the cache: a map threaded on a circular doubly linked list |
| `Bitset` | sparse bitset compression |
| `TxIndex` | the loops that index and unindex transactions |
| `ExpDecay` | the exponentially-decaying sample |
| `AccessList` | the access list with last-in-first-out undo |

## How it is modelled

- **Files** are byte sequences. A table records in its trace the disk after every single file step, so a
  statement about every element of the trace is a statement about a stop at any step. The members named
  `Stop...` and `CrashDuring...` stop there and open the files again, the latter after a loss.
- **A crash** leaves any prefix of the index file of at least one entry, torn inside an entry or not, and
  takes any number of bytes off the end of the newest data file; older files and the metadata stay.
- **The layout** of a table is its index entries, its head file and that file's size. `Place`, `KeepBelow` and
  `HideBelow` say what a write and the two cuts make of it. File numbers are limited by what the layout
  comes to, not by how many items are written.
- **A write to all tables** is one `Draft` per table: everything given to it, where that goes, and how much of it is
  on disk. It follows from the appends alone.
- **Concurrency** in `TxIndex` is any sequence of deliveries of different blocks of the range, in any order
  and with any of them missing.
- **Callbacks, clocks and random numbers** are parameters. The callback of `MultiPop` is given by the number
  of the call at which it answers no.
- **Priorities and sample keys** are reals. Of the exponential function only that it is positive and turns
  sums into products is used.
- `container/heap` is not part of the repository. Its algorithm is taken as `metrics/sample.go` copies it.

## Where the code differs from what one would expect

- `repair` removes data files below the tail after it has brought index and head file in step. If the last
  entry kept lies in a file below the first one's then that is the head file itself: it is opened anew, empty,
  while its bytes stay counted. Bytes counted and bytes there agree, and a repair that is stopped and started
  again ends where one would that was not, if and only if that entry's file is not below the first one's or its offset
  is 0 (`FreezerTable.Table.Repair`, `FreezerTable.RepairResumes`, `FreezerTable.FallenHead`).
- `repair` on an index file of one to five bytes cuts it to nothing, does not write the first entry and sets
  `items` to 2^64 - 1 (`FreezerTable.Table.RepairTorn`).
- `RetrieveItems` limits `count` by comparing `start + count`, which wraps: the limit is right if and only if
  the sum stays below 2^64 (`FreezerTable.ClipCorrect`).
- `indexEntry.append` keeps 16 bits of the file number and 32 of the offset without complaint: an entry comes
  back if and only if both fit (`FreezerIndex.MarshalRoundTrip`).
- `ModifyAncients` undoes a failed write if and only if no item at or above `frozen` is hidden, or nothing of the
  write has gone to disk: an item that does not fit its file or the buffer makes the batch write. After a crash the
  tail can be above `frozen`; then exactly what has gone to disk on the way stays
  (`Freezer.Freezer.ModifyAncients`, `FreezerCrash.FailedWrite`, `FreezerCrash.FailedWriteHappens`).
- `LazyQueue.Reset` replaces the stacks but keeps `indexOffset`. Indices lead to their values afterwards if
  and only if it was 0, and a new queue has it at 1 (`LazyQueue.LazyQueue.Reset`,
  `LazyQueue.LazyQueue.IndexLeadsHome`, `LazyQueue.ResetMisleads`).
- `LazyQueue.Refresh` makes estimates for one period ahead, but is not due again for two. In between an actual
  priority may exceed its estimate although `maxPriority` keeps its promise. Estimates are upper bounds if and
  only if the priorities are within what `maxPriority` says for one period after the last refresh, or for two
  of values added since (`LazyQueue.LazyQueue.EstimatesExact`, `LazyQueue.StaleEstimate`).
- `ExpDecaySample.update` makes room before it looks at the new key, so a forward-decaying reservoir that
  should hold the largest keys holds the newest and the largest of the others. A full reservoir that held the
  largest keys still does after an update if and only if the key at the root was no larger than the new one
  (`ExpDecay.ExpDecaySample.Update`, `ExpDecay.LargestKept`, `ExpDecay.SmallerKept`).
- The indexer's queue reads block numbers as signed. When a block on the far side of 2^63 is delivered before one on
  the near side the loop stops for good, although both are there. A range all of which is delivered is done
  completely if and only if that does not happen, so always in ranges up to 2^63 (`TxIndex.ComesToEnd`,
  `TxIndex.Stuck`, `TxIndex.NoneIndexed`, `TxIndex.NoneUnindexed`).
- `accessList.DeleteSlot` cuts the slot list at the emptied entry: the list stays well-formed if and only if
  slots are left or the entry was the newest (`AccessList.DeleteSlotValid`, `AccessList.OutOfOrderLosesSlots`).

## Model

| member | source | states |
|---|---|---|
| FreezerIndex.MarshalRoundTrip | core/rawdb/freezer_table.go:61-73 | an entry read back is the entry written if and only if its number fits 16 bits and its offset 32 |
| FreezerIndex.MarshalBytes | core/rawdb/freezer_table.go:61-73 | the first two bytes are the file number and the last four the offset, most significant byte first, each cut to its width |
| FreezerDisk.LongestSurvivingPrefix | core/rawdb/freezer_table.go:271-317 | after a crash the entries the repair loop keeps are exactly the longest run of items whose entry and bytes both survived |
| FreezerDisk.RepairRecovers | core/rawdb/freezer_table.go:200-352 | the repaired disk stores precisely that prefix of the items from before the crash, each blob unchanged |
| FreezerDisk.NothingLost | core/rawdb/freezer_table.go:271-317 | without a loss repair keeps every item |
| FreezerTable.RepairResumes | core/rawdb/freezer_table.go:200-352 | stopping repair after any of its file steps and repairing again ends with the same index, metadata and data if and only if repair does not remove a head file that holds bytes |
| FreezerTable.RepairedIndex | core/rawdb/freezer_table.go:271-317 | for every disk the repaired index is the entries up to the last that does not point past the end of its file; the first always stays |
| FreezerTable.RepairedFiles | core/rawdb/freezer_table.go:271-317 | the file of the last entry kept ends at its offset, what is left of it unchanged; no other file changes |
| FreezerTable.RepairedMeta | core/rawdb/freezer_meta.go:76-109 | the hidden count is the stored one, or the number of deleted items if none is stored or it is less |
| FreezerTable.Table.AlignHead | core/rawdb/freezer_table.go:271-317 | the loop ends with index and newest data file agreeing at the last item kept, and every disk on the way still leads there |
| FreezerTable.Table.PopIndex | core/rawdb/freezer_table.go:290-316 | one round of the loop drops the last entry and moves to the file of the one before it |
| FreezerTable.Table.LoadMetadata | core/rawdb/freezer_meta.go:76-109 | the hidden count is the stored one, but never below the number of deleted items, and is what the file holds afterwards |
| FreezerTable.Table.Preopen | core/rawdb/freezer_table.go:358-375 | succeeds if and only if every file from tail to head but the head exists; the head is created if missing, and then exactly those files are open |
| FreezerTable.Table.Repair | core/rawdb/freezer_table.go:200-352 | for every disk, however damaged, it ends with the repaired index, files, metadata and counters, and no file that was not there before unless an index entry names it; the bytes counted are those in the head file if and only if that was not removed or is to be empty; it fails if and only if a file before the head is missing |
| FreezerTable.Table.Reclaim | core/rawdb/freezer_table.go:336-340 | of the files open by then exactly a head below the tail is removed, and nothing else changes at any step |
| FreezerTable.Table.RepairTorn | core/rawdb/freezer_table.go:200-262 | an index of one to five bytes gives an empty index, 2^64 - 1 items, an emptied file 0 as head, the other counters 0, and the hidden count of the metadata |
| FreezerTable.FallenHead | core/rawdb/freezer_table.go:336-345 | the entries (5,0) and (3,1) with a file 3 of one byte: afterwards one byte is counted in a file 3 that is empty |
| FreezerTable.Table.Reopen | core/rawdb/freezer_table.go:200-352 | opening a crashed table gives a valid table with the longest surviving prefix, the same hidden count and the layout of the entries kept |
| FreezerTable.CreateTable | core/rawdb/freezer_table.go:129-196 | a table opened over an empty directory is valid, holds nothing and has no file but its empty head |
| FreezerTable.OpenTable | core/rawdb/freezer_table.go:129-196 | a table opened over files that show a history and a tail is valid and shows exactly these |
| FreezerTable.Table.TruncateHead | core/rawdb/freezer_table.go:378-448 | keeps the first n items or fails and changes nothing; every disk on the way shows the new window; the index keeps the entries of these items and every file above the new head is off the disk |
| FreezerTable.StopTruncateHead | core/rawdb/freezer_table.go:378-448 | a cut of the head stopped after any file step: the table opened from there shows exactly what the cut was to leave |
| FreezerTable.Table.CutData | core/rawdb/freezer_table.go:416-439 | the head file becomes the one of the last item kept, cut to its end; the files above it are off the disk |
| FreezerTable.Table.ReleaseFilesAfter | core/rawdb/freezer_table.go:622-632 | removes exactly the open files above the given one; no other file changes at any step |
| FreezerTable.Table.ReleaseFilesBefore | core/rawdb/freezer_table.go:635-645 | removes exactly the open files below the given one; no other file changes at any step |
| FreezerTable.Table.CountDeleted | core/rawdb/freezer_table.go:497-514 | counts down to the first item of the new tail file, even where the 64-bit counter wraps below zero |
| FreezerTable.DroppedTail | core/rawdb/freezer_table.go:516-543 | the shortened index with its new marker shows the same items |
| FreezerTable.Table.TruncateTail | core/rawdb/freezer_table.go:451-552 | hides the items below n or fails and changes nothing; every disk on the way shows the new window; the tail file is that of item n, or the head if there is none; exactly the entries of files below it leave the index, and these files the disk |
| FreezerTable.StopTruncateTail | core/rawdb/freezer_table.go:451-552 | a cut of the tail stopped after any file step: the table opened from there has every blob and the new tail |
| FreezerTable.Table.DropFiles | core/rawdb/freezer_table.go:478-543 | every file below the new tail file is off the disk, exactly its entries are out of the index, and every item at or above the tail stays readable at every step |
| FreezerTable.Table.Shorten | core/rawdb/freezer_table.go:490-543 | the index is rewritten in one step without exactly the entries of the files below the new tail; no data file changes |
| FreezerTable.Table.AdvanceHead | core/rawdb/freezer_table.go:860-884 | a new empty head file, whatever a left-over file of that number held |
| FreezerTable.Table.OpenForAppend | core/rawdb/freezer_utils.go:84-97 | opening creates a missing file and changes no existing one |
| FreezerTable.Table.GetIndices | core/rawdb/freezer_table.go:653-681 | the entries around the items asked for, with offset 0 in place of the marker's |
| FreezerTable.ClipCorrect | core/rawdb/freezer_table.go:755-757 | the number of items is limited to those there if and only if the sum does not wrap |
| FreezerTable.ReadItems | core/rawdb/freezer_table.go:759-829 | reads that are put off and joined across file boundaries give the same bytes as reading item by item |
| FreezerTable.SliceUp | core/rawdb/freezer_table.go:703-730 | cutting the joined bytes by size gives back the blobs |
| FreezerTable.Table.RetrieveRaw | core/rawdb/freezer_table.go:738-830 | fails if and only if the first item is not visible or none is asked for; else as many items as maxBytes allows, one at least, one more would be too many |
| FreezerTable.Table.RetrieveItems | core/rawdb/freezer_table.go:697-731 | a non-empty run of the appended blobs from start on, at most count, maximal under maxBytes |
| FreezerTable.Table.Retrieve | core/rawdb/freezer_table.go:685-691 | item i is the i-th blob appended if it is not hidden and exists, and an error if not |
| FreezerBatch.ParseMarshalAll | core/rawdb/freezer_batch.go:149-174 | the buffered index bytes read back as the entries |
| FreezerBatch.StoresNewEntries | core/rawdb/freezer_batch.go:149-174 | data and entries appended to what stores h store h and the new blobs |
| FreezerBatch.CommitWindows | core/rawdb/freezer_batch.go:185-210 | between the data write and the index write the disk shows the old items, after both the new ones too |
| FreezerBatch.TableBatch.Reset | core/rawdb/freezer_batch.go:107-112 | the batch starts empty at the table's next item |
| FreezerBatch.TableBatch.AppendRaw | core/rawdb/freezer_batch.go:137-147 | only the next item number is taken; any other leaves the batch as it is |
| FreezerBatch.TableBatch.AppendItem | core/rawdb/freezer_batch.go:149-174 | table and buffer together gain exactly the blob; it begins the next file if and only if it would make the current one larger than maxFileSize; the buffer is written out if and only if it would hold more than 2 MiB, or the file changes; how many items are on disk is determined; a stop at any step shows a prefix |
| FreezerBatch.TableBatch.FlushedLayout | core/rawdb/freezer_batch.go:149-210 | what the table shows and where it lies follows from what was appended and how much of it is on disk |
| FreezerBatch.StopAppend | core/rawdb/freezer_batch.go:149-174 | an append stopped after any file step: the table opened from there shows all items from before and some first ones of those appended since |
| FreezerBatch.TableBatch.Commit | core/rawdb/freezer_batch.go:185-210 | the buffered entries are behind the index, the buffered data behind the head file, and nothing else on disk differs; the table shows all that was buffered and the buffer is empty |
| FreezerBatch.TableBatch.CommitAndAdvance | core/rawdb/freezer_batch.go:155-164 | a full file is committed before the next one is begun, and nothing moves between them |
| FreezerBatch.PlaceGrows | core/rawdb/freezer_batch.go:149-174 | placing more items never lowers the file number, so a run fits if its end does |
| FreezerBatch.RunPacked | core/rawdb/freezer_batch.go:149-174 | after any run of writes and cuts the layout is one in which files are filled one after the other up to the size limit |
| FreezerBatch.ItemsAreImmutable | core/rawdb/freezer_table.go:378-552 | over any run an item keeps its blob until the head is cut below it, and the tail never goes back |
| FreezerBatch.WriteAll | core/rawdb/freezer_batch.go:137-210 | appending and committing any blobs, whatever their number, adds exactly those and leaves them where they belong |
| FreezerBatch.RunTable | core/rawdb/freezer_table.go:378-552 | after any sequence of batched writes and head and tail cuts the files show exactly the abstract window of blobs, lying where the commands put them |
| FreezerBatch.RunFromEmpty | core/rawdb/freezer_table.go:129-196 | the same from an empty directory on; the files on disk are exactly those from tail to head; an item in the file of the one before ends within maxFileSize, and an item in another is in the next one and would have made the one before too large |
| Freezer.Freezer.TruncateHead | core/rawdb/freezer.go:279-296 | all tables keep their first n items, where these lie, or all stay as they are; every disk on the way shows the new window at least |
| Freezer.Freezer.TruncateTail | core/rawdb/freezer.go:299-316 | all tables hide the same items or none does; every disk on the way shows every item |
| Freezer.Freezer.Extent | core/rawdb/freezer.go:369-378 | the least item count and the greatest hidden count over the tables |
| Freezer.Freezer.Repair | core/rawdb/freezer.go:365-391 | succeeds if and only if no tail is above any head or the tables agree already, and then they are in lockstep at the least head and the greatest tail, each with its items and their places cut to these |
| Freezer.Freezer.Open | core/rawdb/freezer.go:91-158 | opens under the same condition, with all tables in the same lockstep and a new batch each |
| Freezer.Freezer.CommitAll | core/rawdb/freezer_batch.go:64-82 | commits if and only if all batches reach the same item, and then every table shows all it was given |
| Freezer.Freezer.RollBack | core/rawdb/freezer.go:253-266 | every table shows what undoing its part leaves: its items from before if the tail is not above them, else what has gone to disk |
| Freezer.Freezer.ModifyAncients | core/rawdb/freezer.go:245-276 | all or nothing: on success every table has what was written to it, where it goes, and all have the same count; on failure every table shows exactly what undoing leaves, which is what was there if and only if tail <= frozen or nothing has gone to disk; every disk on the way shows the items from before and a prefix of the new ones |
| Freezer.TakenAll | core/rawdb/freezer_batch.go:137-174 | a table's part of a write holds what was there and every append that claims the next number, of which at least what was there is on disk |
| Freezer.WrittenStep | core/rawdb/freezer_batch.go:137-147 | an append adds its blob to its table if and only if it claims the next number there, and does nothing to any other table |
| Freezer.RowsWritten | core/rawdb/freezer_batch.go:137-147 | appending rows item by item to all tables gives every table its row |
| Freezer.AppendRows | core/rawdb/freezer.go:245-276 | writing rows of one length, one for each table, succeeds and adds exactly these |
| Freezer.LeftSame | core/rawdb/freezer.go:253-266 | undoing a table's part leaves the items from before if and only if none to be cut off is hidden or nothing has gone to disk |
| Freezer.StepLevel | core/rawdb/freezer.go:245-316 | every operation leaves all tables with the same items and the same tail, and a tail that was not above the items is not afterwards |
| Freezer.StockIsImmutable | core/rawdb/freezer.go:245-316 | over any run of writes, failed or not, and cuts an item keeps its blob in every table until the head is cut below it, and the tail never goes back |
| Freezer.RunFreezer | core/rawdb/freezer.go:245-316 | after any such run the tables hold exactly what the operations, applied one after the other, leave |
| Freezer.CreateFreezer | core/rawdb/freezer.go:91-158 | a freezer over empty directories is in lockstep and holds nothing |
| Freezer.RunFreezerFromEmpty | core/rawdb/freezer.go:91-316 | the same runs from empty directories on |
| FreezerCrash.PrefixFits | core/rawdb/freezer_table.go:497-543 | fewer entries never make the number of deleted items larger than the index can store |
| FreezerCrash.OpenOne | core/rawdb/freezer_table.go:129-352 | a table opened over what a crash left of a disk holds exactly the items that survived, and the old tail |
| FreezerCrash.OpenLost | core/rawdb/freezer.go:91-158 | the tables and the freezer over what crashes left open if and only if no tail is above the items that survived in any table or the tables agree, and then all are in lockstep on the items that survived in all |
| FreezerCrash.CrashDuringWrite | core/rawdb/freezer.go:245-276 | a write stopped in every table after any file step of its own, losing any bytes, opened again: exactly when it opens, and then all tables hold the same number of first items of what was there and was written; without a loss at least what was there |
| FreezerCrash.CrashDuringCutHead | core/rawdb/freezer.go:279-296 | the same for a head cut; without a loss at least what the cut was to leave |
| FreezerCrash.CrashDuringCutTail | core/rawdb/freezer.go:299-316 | the same for a tail cut, with the new tail if any table has got that far; without a loss every item |
| FreezerCrash.FailedWrite | core/rawdb/freezer.go:245-276 | with the tail above frozen a failed write of one blob stays in the table if the blob is larger than the buffer, and leaves nothing if not |
| FreezerCrash.TailAboveFrozen | core/rawdb/freezer.go:365-391 | a freezer that gets there: one item is written and hidden, a crash takes its index entry, and it is opened again |
| FreezerCrash.FailedWriteHappens | core/rawdb/freezer.go:245-276 | both outcomes in that freezer |
| Rlp.IntLenLeast | rlp/encode.go:490-496 | the length of a number is the least number of bytes that holds it |
| Rlp.StrHeadBytes | rlp/encode.go:127-135 | the header of n < 56 bytes is 0x80 + n; of more it is 0xB7 + k and then n in the k bytes it needs |
| Rlp.ListHeadBytes | rlp/encode.go:127-135 | the same for lists with 0xC0 and 0xF7 |
| Rlp.StrBytes | rlp/encbuffer.go:134-142 | a single byte below 128 is itself; every other string is its header and then its bytes |
| Rlp.ListBytes | rlp/encbuffer.go:194-207 | a list is the header of its payload and then that |
| Rlp.ReadTagSound | rlp/decode.go:1039-1097 | a header that is accepted is the one the encoder writes for that kind and size |
| Rlp.ReadTagComplete | rlp/decode.go:1039-1097 | every header the encoder writes is accepted with its kind and size |
| RlpRaw.ReadKindMeaning | rlp/raw.go:153-192 | the slice reader accepts exactly the headers that are canonical and whose content is there |
| RlpRaw.SplitSound | rlp/raw.go:80-86 | whenever it succeeds the input is the minimal header, the content and the rest |
| RlpRaw.SplitStr | rlp/raw.go:80-86 | an encoded string before any suffix splits into the string and the suffix |
| RlpRaw.SplitList | rlp/raw.go:80-86 | an encoded list before any suffix splits into its payload and the suffix |
| RlpRaw.SplitTreeExact | rlp/raw.go:80-192 | splitting recursively gives a tree and a rest if and only if the input is the tree's encoding and that rest |
| RlpRaw.EncodePrefixFree | rlp/raw.go:80-192 | no two trees have encodings of which one starts the other |
| RlpRaw.CountEncoded | rlp/raw.go:141-151 | counting the values in the encodings of n trees gives n |
| RlpRaw.CountValues | rlp/raw.go:141-151 | the loop ends and counts what splitting value by value counts, with the same errors |
| RlpBuffer.IntSize | rlp/encode.go:490-496 | the shift loop computes the length |
| RlpBuffer.IntBytesMeaning | rlp/encode.go:432-487 | the eight cases of putint write the number big-endian in its least length |
| RlpBuffer.PutHead | rlp/encode.go:127-135 | the header is written at its place and nothing around it changes |
| RlpBuffer.RenderItem | rlp/encbuffer.go:194-207 | string data and list headers recorded apart, put together late, are the recursive encoding, whatever surrounds them |
| RlpBuffer.ItemSize | rlp/encbuffer.go:199-207 | the size recorded for an item is what it adds to string data and headers |
| RlpBuffer.PayloadSize | rlp/encbuffer.go:199-207 | the same for the items of a list |
| RlpBuffer.EncBuffer.WriteBytes | rlp/encbuffer.go:134-142 | appends the string's encoding |
| RlpBuffer.EncBuffer.EncodeStringHeader | rlp/encbuffer.go:218-226 | appends the string's header |
| RlpBuffer.EncBuffer.ListEnd | rlp/encbuffer.go:199-207 | the header gets the size of all written since, headers included, and is counted |
| RlpBuffer.EncBuffer.EncodeItem | rlp/encode.go:287-341 | encoding a tree adds its strings, its headers and their size |
| RlpBuffer.EncBuffer.CopyTo | rlp/encbuffer.go:65-79 | the output fills exactly the first size() bytes of the destination |
| RlpBuffer.EncBuffer.WriteTo | rlp/encbuffer.go:82-104 | the pieces written one after the other are the same output |
| RlpBuffer.EncodeToBytes | rlp/encode.go:78-86 | the bytes are the recursive encoding: a byte below 128 alone, or the header byte 0x80 or 0xC0 plus the size, or from 56 bytes on 0xB7 or 0xF7 plus the number of size bytes and these, and then the content |
| RlpBuffer.EncodeToWriter | rlp/encode.go:62-74 | the bytes written are the recursive encoding |
| RlpBuffer.EncodeToReader | rlp/encode.go:93-103 | the size is the encoding's length and the reader is at its start |
| RlpBuffer.EncReader.Next | rlp/encbuffer.go:262-293 | the next piece leaves what is still to be read as it is, and there is none only at the end |
| RlpBuffer.EncReader.Read | rlp/encbuffer.go:237-258 | a read returns the next n bytes, fewer only at the end |
| RlpBuffer.ReadAll | rlp/encbuffer.go:237-258 | reads of any sizes give the first bytes of the encoding in order: as many as they ask for, or all |
| RlpStream.SubZero | rlp/decode.go:797-816 | a limit that is taken from in 64 bits is zero only if exactly all of it was taken |
| RlpStream.Stream.WillRead | rlp/decode.go:1161-1177 | n bytes may be read if and only if list and input both have them, and which of the two is short decides the error |
| RlpStream.Stream.ReadUint | rlp/decode.go:1099-1123 | reads n bytes big-endian, 0 for none, and refuses a leading zero of more than one with an error of its own |
| RlpStream.Stream.ReadKind | rlp/decode.go:1039-1097 | accepts exactly the canonical headers that are in the list, and takes just the header; it reports the end of the input if and only if there is none left outside all lists |
| RlpStream.Stream.NextKind | rlp/decode.go:1012-1037 | a header read before is answered again; else end of list if and only if nothing is left of it, end of input if and only if nothing is left outside all lists, or a header whose content fits input and list |
| RlpStream.Stream.ReadString | rlp/decode.go:636-657 | an error found in a header read before is returned; else what is read is the encoding of the string returned, and the encoding of a string that is ahead and fits is read; a list is refused |
| RlpStream.Stream.EnterList | rlp/decode.go:797-816 | an error found in a header read before is returned; a list is entered if and only if a list header whose content fits is ahead; the outer limit is reduced in 64 bits, which may wrap |
| RlpStream.Stream.ListEnd | rlp/decode.go:820-831 | a list is left if and only if there is one and it is used up, with an error for each of the two |
| RlpStream.Stream.DecodeSliceElems | rlp/decode.go:313-340 | the elements' encodings are exactly the list's payload |
| RlpStream.Stream.DecodeListSlice | rlp/decode.go:298-311 | a list is decoded if and only if its payload is the encodings of some items |
| RlpStream.Stream.DecodeInterface | rlp/decode.go:518-540 | a decoded tree's encoding is what was read, and an encoding that is ahead and fits is decoded |
| RlpStream.DecodeBytes | rlp/decode.go:93-107 | succeeds with x if and only if the input is the encoding of x, for all inputs, overrunning and wrapping inner lists included; reports the end of the input if and only if it is empty, and more than one value if and only if it goes on after an encoding |
| DeriveSha.BigEndianOrder | rlp/raw.go:226-294 | numbers of one length sort as their big-endian bytes |
| DeriveSha.AppendUint64 | rlp/raw.go:226-294 | appends the encoding of the number |
| DeriveSha.KeyOrder | core/types/hashing.go:100-116 | the order 1..127, 0, 128.. is the byte order of the encoded indices |
| DeriveSha.FeedList | core/types/hashing.go:89-118 | every index is fed once with its item, under strictly increasing keys |
| Bitset.BitsMeaning | common/bitutil/compress.go:71-97 | a bit is set if and only if its byte of data is not zero |
| Bitset.BitsUnique | common/bitutil/compress.go:71-97 | only that bitset has this meaning |
| Bitset.BitsBytes | common/bitutil/compress.go:71-97 | byte j stands for the eight bytes from 8j on, the bits 0x80 down to 0x01 for the first to the eighth of them |
| Bitset.EncodedForm | common/bitutil/compress.go:71-97 | a single non-zero byte is kept; more are the compressed bitset and then the non-zero bytes in order |
| Bitset.EncodedPrefixFree | common/bitutil/compress.go:130-170 | no compression of one block starts that of another of the same size |
| Bitset.BitsetEncodeBytes | common/bitutil/compress.go:71-97 | the recursion ends and yields the compressed bitset followed by the non-zero bytes |
| Bitset.CompressBytes | common/bitutil/compress.go:60-67 | the compression if it is shorter than the data, else the data itself; so never longer, and nothing for zeros |
| Bitset.BitsetDecodePartialBytes | common/bitutil/compress.go:130-170 | what is decoded compresses to exactly the bytes used, and a compression that is there is decoded |
| Bitset.DecompressBytes | common/bitutil/compress.go:102-112 | for input shorter than the target it gives d if and only if d has that size and compresses to the input |
| Bitset.RoundTrip | common/bitutil/compress.go:60-112 | decompressing a compressed block at its size gives the block |
| Prque.SStack.Push | common/prque/sstack.go:54-70 | the blocks hold the flat sequence with one more item, whose index is reported |
| Prque.SStack.Pop | common/prque/sstack.go:74-86 | the last item is taken off across block boundaries and -1 is reported |
| Prque.SStack.Less | common/prque/sstack.go:95-97 | compares the items at two places of the flat sequence |
| Prque.SStack.Swap | common/prque/sstack.go:100-108 | two items change places and every value's last reported index stays its place |
| Prque.Up | metrics/sample.go:608-617 | an item too small for its place rises until the heap is in order, losing none |
| Prque.Down | metrics/sample.go:619-635 | an item sinks until nothing below it comes first; if it did not move it may still have to rise |
| Prque.HeapPush | common/prque/prque.go:37-39 | heap order, the items with one more, and indices that locate every value |
| Prque.HeapPop | common/prque/prque.go:49-52 | the item of the greatest priority, the others kept in heap order and located |
| Prque.HeapRemove | common/prque/prque.go:60-62 | exactly item i is taken out of the middle of the heap |
| Prque.Queue.Peek | common/prque/prque.go:42-45 | an item of the greatest priority |
| Prque.Queue.Pop | common/prque/prque.go:49-52 | that item is gone and no other |
| Prque.Queue.Remove | common/prque/prque.go:60-62 | the value taken out is the one whose last reported index was given |
| LazyQueue.ValuesPermuted | common/prque/lazyqueue.go:91-99 | the values in a queue do not depend on their order |
| LazyQueue.LazyQueue.constructor | common/prque/lazyqueue.go:58-72 | an empty queue, just refreshed, whose indices lead home with indexOffset at 1 |
| LazyQueue.LazyQueue.Reset | common/prque/lazyqueue.go:75-78 | empties the queue; its indices lead home afterwards if and only if indexOffset was 0 |
| LazyQueue.ResetMisleads | common/prque/lazyqueue.go:58-104 | a queue that is made, cleared and given one value, whose reported index 1 does not lead to it |
| LazyQueue.LazyQueue.RefreshAt | common/prque/lazyqueue.go:91-99 | no value is lost or doubled, the older stack's get the estimate for one period ahead, and stacks and offset change together |
| LazyQueue.LazyQueue.Refresh | common/prque/lazyqueue.go:81-88 | does nothing before two periods are over; else it ends after two rounds with every estimate made for one period from now |
| LazyQueue.LazyQueue.EstimatesExact | common/prque/lazyqueue.go:27-35 | estimates bound priorities if and only if the older stack's values are within maxPriority for one period after the last refresh and the newer one's for two |
| LazyQueue.LazyQueue.EstimatesHold | common/prque/lazyqueue.go:27-35 | so they do at every time up to one period after the last refresh at which maxPriority keeps its promise |
| LazyQueue.StaleEstimate | common/prque/lazyqueue.go:81-99 | a queue refreshed when due whose estimate is below a priority that maxPriority bounds |
| LazyQueue.LazyQueue.Push | common/prque/lazyqueue.go:102-104 | one more value with its estimate, indices of all values kept right |
| LazyQueue.LazyQueue.Update | common/prque/lazyqueue.go:107-109 | the value with that index gets the estimate for the newest time; every other item keeps its estimate |
| LazyQueue.LazyQueue.PeekedGreatest | common/prque/lazyqueue.go:127-138 | the stack chosen has the greatest estimate of all |
| LazyQueue.LazyQueue.HandOut | common/prque/lazyqueue.go:149-158 | what is handed out has no higher actual priority left behind it |
| LazyQueue.LazyQueue.MultiPop | common/prque/lazyqueue.go:143-160 | ends with popQueue empty, nothing lost or doubled, and, if estimates are upper bounds, items by falling actual priority with nothing higher left |
| LazyQueue.LazyQueue.Pop | common/prque/lazyqueue.go:112-123 | an item of the greatest actual priority if estimates are upper bounds; none only from an empty queue |
| LazyQueue.LazyQueue.IndexLeadsHome | common/prque/lazyqueue.go:169-195 | a value's last reported index leads to it across queue swaps if and only if stacks and offset are aligned |
| LazyQueue.LazyQueue.Remove | common/prque/lazyqueue.go:169-171 | takes out the very value whose last reported index is given; every other item stays |
| LazyQueueRun.RunQueue | common/prque/lazyqueue.go:58-195 | over any run of pushes, refreshes, pops, updates and removals nothing is lost or doubled, every update and removal by the last reported index finds its value, and a pop within one period of the last refresh finds one of the greatest priority if maxPriority keeps its promise |
| Lru.LinkedList.PushElem | common/lru/basiclru.go:178-183 | the ring with the element in front, all links consistent |
| Lru.LinkedList.Unlink | common/lru/basiclru.go:193-197 | the ring without the element |
| Lru.LinkedList.MoveToFront | common/lru/basiclru.go:186-190 | the ring with the element moved to the front |
| Lru.LinkedList.Last | common/lru/basiclru.go:209-215 | the last element, or none |
| Lru.LinkedList.AppendTo | common/lru/basiclru.go:218-223 | the values from last to first |
| Lru.BasicLRU.Add | common/lru/basiclru.go:49-74 | the pair is newest; a known key is updated, else the least recent pair goes if and only if the cache is full; all others keep their order |
| Lru.BasicLRU.Get | common/lru/basiclru.go:83-90 | the value, its pair now newest |
| Lru.BasicLRU.Peek | common/lru/basiclru.go:110-113 | the value, the order unchanged |
| Lru.BasicLRU.Contains | common/lru/basiclru.go:77-80 | whether some pair has the key |
| Lru.BasicLRU.GetOldest | common/lru/basiclru.go:94-102 | the least recent pair |
| Lru.BasicLRU.Remove | common/lru/basiclru.go:124-131 | the sequence without the key's pair |
| Lru.BasicLRU.RemoveOldest | common/lru/basiclru.go:134-145 | the least recent pair is returned and gone |
| Lru.BasicLRU.Purge | common/lru/basiclru.go:116-121 | the empty cache |
| Lru.BasicLRU.Keys | common/lru/basiclru.go:148-151 | the keys from oldest to newest |
| Lru.RecencyMeans | common/lru/basiclru.go:49-74 | an entry of the recency list is the last addition of its key, and every key before it was added after that |
| Lru.RecencyKeys | common/lru/basiclru.go:49-74 | the recency list has exactly the keys that were added |
| Lru.CacheIsMostRecent | common/lru/basiclru.go:49-74 | after any run of additions the cache is the cap most recently added different keys with their last values |
| Lru.AddAll | common/lru/basiclru.go:49-74 | a cache object given any additions holds the cap most recently added different keys with their last values |
| Lru.RunCache | common/lru/basiclru.go:49-145 | a cache object is after any additions, lookups, removals and purges what they leave, applied one after the other |
| Lru.CacheInOrder | common/lru/basiclru.go:49-145 | that is at most cap entries, no key twice, each with the value it was last added with and not removed since, in order of last use, so what a full cache drops has not been used for longest |
| TxIndex.Lookup | core/rawdb/chain_iterator.go:113-133 | visits exactly from..to-1, rising or falling, also when from is 0 and from-1 wraps, or a prefix of that if interrupted |
| TxIndex.IndexedLowest | core/rawdb/chain_iterator.go:214-216 | after the blocks of t..to-1 a hash leads to the lowest of them that holds it |
| TxIndex.IndexedElsewhere | core/rawdb/chain_iterator.go:214-216 | hashes that none of them holds lead where they led before |
| TxIndex.UnindexedMeaning | core/rawdb/chain_iterator.go:303-305 | after the blocks of from..t-1 exactly the hashes they hold lead nowhere |
| TxIndex.WriteEntries | core/rawdb/accessor_indexes.go:66-71 | the batch gains one entry for each of the block's hashes in order, so adds these lookups and no others |
| TxIndex.DeleteEntries | core/rawdb/accessor_indexes.go:90-94 | the batch removes the block's hashes and nothing else |
| TxIndex.PendingLess | core/rawdb/chain_iterator.go:203-215 | the queue holds exactly the deliveries whose turn has not come |
| TxIndex.RankOrder | core/rawdb/chain_iterator.go:200-208 | the queue puts waiting blocks of the far side before those of the near side, and each side in order of turn |
| TxIndex.FirstIsDue | core/rawdb/chain_iterator.go:204-208 | the first in the queue is the block due if and only if that has been delivered and no delivery on the far side of 2^63 overtakes it |
| TxIndex.NotOvertaken | core/rawdb/chain_iterator.go:200-208 | in ranges up to 2^63 no delivery overtakes |
| TxIndex.TakeDue | core/rawdb/chain_iterator.go:204-215 | takes the delivery of the block due, with that block's own hashes, if and only if it is there, not overtaken and let by the hook; else the queue stays as it is |
| TxIndex.Stuck | core/rawdb/chain_iterator.go:199-228 | once a block of the far side is delivered before one of the near side the job never moves again |
| TxIndex.ComesToEnd | core/rawdb/chain_iterator.go:181-242 | a range all of which is delivered and let by the hook is done to its end if and only if no block of the far side is delivered before one of the near side |
| TxIndex.Flush | core/rawdb/chain_iterator.go:221-226 | one write takes the data and the tail that describes it |
| TxIndex.IndexBlock | core/rawdb/chain_iterator.go:214-227 | after one more block batch and database together hold exactly the blocks from it on; the batch is written if and only if it has become larger than 100 KiB |
| TxIndex.UnindexBlock | core/rawdb/chain_iterator.go:303-319 | the same upwards, written if and only if the number of blocks done is a multiple of 1000 |
| TxIndex.Index | core/rawdb/chain_iterator.go:181-242 | for every delivery order and any missing blocks each database written has a tail t with exactly t..to-1 indexed, tails never go back, the last is exactly where the deliveries and the hook bring the job, and every write but the last took a batch that had become larger than 100 KiB with its last block and not before |
| TxIndex.NoneIndexed | core/rawdb/chain_iterator.go:181-242 | the blocks 2^63 - 1 and 2^63, delivered in this order, both let: none is indexed |
| TxIndex.Unindex | core/rawdb/chain_iterator.go:273-334 | the same for from..t-1 unindexed, with a write after each thousand blocks and one at the end |
| TxIndex.NoneUnindexed | core/rawdb/chain_iterator.go:273-334 | the blocks 2^63 + 1 and 2^63, delivered in this order, both let: none is unindexed |
| ExpDecay.SampleHeap.Up | metrics/sample.go:608-617 | a new key rises to its place, no sample lost |
| ExpDecay.SampleHeap.Down | metrics/sample.go:619-635 | the key at the root sinks to its place, no sample lost |
| ExpDecay.SampleHeap.Push | metrics/sample.go:582-587 | one more sample, heap order kept, the array behind it untouched |
| ExpDecay.SampleHeap.Pop | metrics/sample.go:589-598 | a sample of the least key is taken out |
| ExpDecay.SampleHeap.Rescale | metrics/sample.go:188-197 | pushing from the array that is being overwritten loses no sample and multiplies every key by the factor |
| ExpDecay.Rekeyed | metrics/sample.go:190-196 | a rescaled sample weighs at the new t0 what it weighed at the old one |
| ExpDecay.NewKey | metrics/sample.go:184-187 | a new key is comparable with the old ones: it does not depend on t0 but for the common weight |
| ExpDecay.LaterKey | metrics/sample.go:184-187 | of two samples that draw the same number the one taken d later has a key exp(alpha * d) times as large |
| ExpDecay.ExpDecaySample.HeldKey | metrics/sample.go:171-199 | a sample in the heap is one that was seen, its key times exp(alpha * t0) being exp(alpha * t) / u for its own time and number |
| ExpDecay.ExpDecaySample.Decay | metrics/sample.go:188-197 | moves t0 to t and multiplies every key by exp(-alpha * (t - t0)); what is held and how it is weighed stays |
| ExpDecay.ReservoirEvicts | metrics/sample.go:174-187 | dropping a least key keeps the rest the largest of the earlier samples |
| ExpDecay.ExpDecaySample.Update | metrics/sample.go:171-199 | after any run there are min(count, reservoirSize) samples in heap order: the newest, weighed exp(alpha * t) / u, and, of all earlier ones, those of the largest keys, rescaled after an hour or not; if the largest were held they are afterwards, when full if and only if the key at the root was no larger than exp(alpha * (t - t0)) / u |
| ExpDecay.ExpDecaySample.Clear | metrics/sample.go:70-77 | an empty sample from now on |
| ExpDecay.LargestKept | metrics/sample.go:171-187 | giving up m for x keeps the largest keys if and only if m's key is no larger than x's |
| ExpDecay.SmallerKept | metrics/sample.go:171-187 | random numbers 0.25 and 0.5 make it give up a key of 4 for a key of 2 |
| AccessList.AddAddressValid | core/state/access_list.go:58-64 | the set of addresses gains the address, the pairs stay, indices stay a bijection onto non-empty slot sets |
| AccessList.AddSlotValid | core/state/access_list.go:71-89 | the set of pairs gains the pair, the addresses the address, indices stay a bijection |
| AccessList.DeleteSlotValid | core/state/access_list.go:95-110 | the list stays well-formed if and only if slots are left or the entry was the newest |
| AccessList.UndoRestores | core/state/access_list.go:58-118 | undoing any sequence of reported additions in reverse restores the exact earlier list |
| AccessList.OutOfOrderLosesSlots | core/state/access_list.go:95-110 | undone out of order another address loses its slots |
| AccessList.List.Contains | core/state/access_list.go:18-30 | whether address and pair are in the sets |
| AccessList.List.AddAddress | core/state/access_list.go:58-64 | adds the address and reports whether it was new |
| AccessList.List.AddSlot | core/state/access_list.go:71-89 | adds the pair and reports what of it was new |
| AccessList.List.DeleteSlot | core/state/access_list.go:95-110 | undoes the addition of the pair in place |
| AccessList.List.DeleteAddress | core/state/access_list.go:116-118 | undoes the addition of the address in place |

## Left out

- FreezerTable.Table.RetrieveItems: requires that `start + count` stays below 2^64 when the first item is visible, because beyond that the limit is wrong (see `FreezerTable.ClipCorrect`) and the code asks for a buffer of that many entries.
- FreezerTable.Table.RetrieveRaw: the same.
- FreezerTable.Table.TruncateTail: a cut that takes effect requires n within 64 bits and the number of items deleted with their files below 2^32, because the index stores that number in 32 bits and a larger one is cut off in writing (see `FreezerIndex.MarshalRoundTrip`). How many items are hidden is not limited.
- FreezerTable.StopTruncateTail: the same.
- FreezerTable.Table.DropFiles: the same.
- FreezerTable.DroppedTail: the same.
- FreezerBatch.TableBatch.AppendItem: requires blobs below 4 GiB and that the file the blob goes to has a number below 2^16, because the index stores both in fixed widths and larger ones are cut off in writing.
- FreezerBatch.TableBatch.AppendRaw: the same of an item it takes.
- FreezerBatch.StopAppend: the same.
- FreezerBatch.WriteAll: the same of the file the last blob goes to; the number of blobs is not limited.
- FreezerBatch.RunTable: the same of every command, and of the number of deleted items as in `FreezerTable.Table.TruncateTail`; the number of commands and items is not limited.
- FreezerBatch.RunFromEmpty: the same.
- Freezer.Freezer.TruncateTail: a cut that takes effect requires the same of every table.
- Freezer.Freezer.Repair: requires the same of the tail cut that each table gets, if it gets one.
- Freezer.Freezer.Open: the same.
- Freezer.RunFreezer: requires of every operation that what it makes the index store fits, and that a failed write can be undone (which it always can with tail <= frozen, see `Freezer.TailBelow`), because after one that cannot the tables are no longer in lockstep.
- Freezer.RunFreezerFromEmpty: the same.
- FreezerCrash.CrashDuringWrite: requires the widths of `Freezer.Freezer.ModifyAncients`.
- FreezerCrash.CrashDuringCutTail: requires the widths of `Freezer.Freezer.TruncateTail`.
- FreezerCrash.OpenLost: requires them of the tail cut that a table gets, if it gets one.
- Freezer.Freezer.ModifyAncients: the callback is any sequence of appends to known tables, of which those that claim a wrong item number have no effect, and whether it reports success in the end; blobs are below 4 GiB and the files they go to have numbers below 2^16; tables that vanish or fail to write are not modelled.
- Freezer.AppendRows: requires the widths of `Freezer.Freezer.ModifyAncients`.
- Freezer.Freezer.TruncateHead: requires at least one table; tables are a sequence in any fixed order instead of a map with any order of iteration.
- RlpStream.DecodeBytes: inputs and trees of up to 2^64 - 1 bytes.
- RlpRaw.ReadKindMeaning: does not say which error a header that is not accepted gives.
- Bitset.DecompressBytes: does not say which error input shorter than the target gives that is no compressed block.
- ExpDecay.ExpDecaySample.Update: random numbers above 0, because for 0 the key is infinite, which is no real; reals without rounding, and a reservoir of at least one place, since `update` takes a sample out of an empty heap otherwise.
- LazyQueue.LazyQueue.MultiPop: callbacks that push while they are called; which of values of equal priority comes first.
- LazyQueue.LazyQueue.Push: requires a value that is not in the queue, because a value has one index: that of the first would be overwritten, and only one of the two could be found.
- LazyQueue.LazyQueue.Refresh: requires a period above 0 when it is due, because otherwise it does not end.
- LazyQueueRun.RunQueue: requires a period above 0, for the same reason, and pushes a value only if it is not in the queue.
- Prque.SStack.Push: requires a value that is not in the stack when indices are reported, for the same reason as `LazyQueue.LazyQueue.Push`.
- Prque.HeapPush: the same.
- AccessList.List.DeleteSlot: requires an address that has slots, because the code panics otherwise.
- Prque.SStack.Swap: priorities are totally ordered, so not-a-number priorities are not modelled.
- Compressed tables: snappy is foreign code; only uncompressed tables are modelled.
- The metadata file is one value that is replaced whole; its RLP form and version check are not modelled.
- fsync, locks, meters, read-only and closed tables, directory locks and `MigrateTable`.
- RLP struct tags, reflection, big integers, streams without an input limit and the typed read functions of `Stream`.
- The trie hasher itself, and the values that `DeriveSha` encodes.
- The two workers of `iterateTransactions` that decode blocks, beyond the order and completeness of what they deliver; progress logging.
- `core/state` beyond the access list, `core/txpool`, `common/lru/blob_lru.go`, the word-wise helpers of `common/bitutil`, `common/mclock` and the other samples of `metrics`.
