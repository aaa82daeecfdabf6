# A verified model of the MRIS storage engine

MRIS is LevelDB 1.5 with a "large space": values above a threshold are moved out of the sorted tables
into separate block files and replaced by a delegate (offset and size).  This project models the engine
in Dafny and proves what its parts promise each other, from the bytes on disk to reads over whole runs
of the store.  Nothing was executed: every statement below is a proof over all inputs or all runs.

`dafny verify dfyconfig.toml` checks everything.  Imperative parts of the engine (log writer and reader,
batches, block and table builders, the block iterator, the skip list, the caches, the iterators, the large
space, the version set) are classes and methods with loops; their contracts tie them to functions and
predicates on values, about which the lemmas speak.

## What is proved

**Reads over whole runs** (`Entries`, `Levels`, `Overlap`, `Compaction`, `Install`, `Store`, `Machine`).  The store
is a state machine: write a batch, switch the memtable, flush, move a file, compact, take and release snapshots.
The reference is the list of all updates in the steps of the run.  In every state of every run, every read that can
still be issued returns what the last update of its key put, among all updates or among those before its snapshot was
taken, and the levels stay sorted, disjoint and ordered by age.  What a compaction keeps, the choice of inputs, the
cursor that only moves forward and the level search are proved exact on their own.

**From the code to the steps** (`Background`).  The concrete methods, from the picked file or the manual range through
the choice of inputs, the merging iterator and the compaction loop to the new version, make steps of the machine
whose moves and compactions are unrestricted (`Boundary.AnyNext`), and every new table respects the bound on the level
after next.  Which files a step takes, and when it is a trivial move, is stated exactly.  Which of these steps belong
to `Machine` is the subject of `Boundary`; a move from level 0 that the picker makes always does.

**Where that fails** (`Boundary`).  A compaction may cut one user key across two files of a level, and
`SetupOtherInputs` does not bring the two together again; a manual compaction may also cut the inputs of level 0.
The runs of `Machine` therefore assume of every move and compaction that nothing older than a taken entry of its
user key is left on the input level, nor anything older than a discarded deletion on the output level
(`Machine.OrderKept`).  `Boundary` drops the assumption.  For every store, every move, every compaction and every read it
gives the exact condition, on the store before the step, under which the read is preserved.  Over whole runs it gives
the condition under which all reads in all states are right; each step starts from levels ordered by age, and the last
one may break that order.  For moves it shows that the assumption is exactly what keeps the levels ordered by age.  As
instances it exhibits a run, all of whose steps meet the assumption, after which a compaction, and likewise the trivial
move that the code makes by itself, hides the last write of a key.

**Write-ahead log, batches, recovery, group commit** (`Coding`, `Log`, `Salvage`, `Batch`, `Recovery`, `WriteQueue`,
`WriteProtocol`).  Whatever prefix of the log survives a crash, the reader returns exactly the complete records,
recovery rebuilds exactly whole groups with their sequence numbers, and a sync call that returned success is
among the synced entries.  A cut between fragments of one record, or inside the zero padding of a block trailer,
is reported as a drop although every record returned is right; `Log.CleanCut` says exactly when no drop is
reported.  On any file at all, whatever is returned stood in it under valid checksums, and damage does not reach past
the blocks that hold it; the one exception, a physical record of type 5, is proved too, against doc/log_format.txt.

**Tables** (`Keys`, `Block`, `Bloom`, `FilterBlock`, `Table`).  Blocks round trip for every restart interval and
decode in only one way; filters never miss a key, and exclude exactly the keys they can; separators never send a
lookup to the wrong block; a table read through index, filter and block answers as the list of its entries.

**Large space** (`LargeSpace`, `Redirect`).  Every value ever issued stays in its place on disk, across sealing,
closing, crashes and reopening, and a space that was always closed reads back every delegate; a table built with
redirected values then answers every read as the memtable did.  Two things fail and have exact statements.  A space that
was not closed forgets exactly the values begun after its last metadata and hands their offsets out again.  It also keeps
an empty block, and the search over blocks misses a value exactly when empty blocks in front of it are in certain
positions; a run shows how a value is lost this way although the space was closed after it was written.

**Memtable** (`SkipList`, `SkipReaders`).  One writer and any number of readers interleave pointer by pointer; no
reader ever skips a node that was there when its call began.

**Manifest** (`Edits`, `Manifest`, `VersionSet`).  Replaying the manifest with one builder gives the files that
installing the edits one at a time gave, if and only if no deleted file has its number brought back without it and no
file is brought after another of the same number and smallest key.  The version set's own numbering keeps both from
happening, so recovery gives its current version, the counters of its last edit, and a next file number above every
file.  Versions are compared level by level as sets of files, and as lists where numbers are not repeated.

**Block cache** (`HandleTable`, `LruCache`).  Reference counts, usage, list and hash table stay consistent; an entry
is deleted exactly once, and only when neither list nor handle holds it.

**Iterators** (`DbIter`, `Merger`, `Scan`).  The merging iterator is a cursor over the union of its children in both
directions.  The user-level iterator shows the visible map; forward it skips values of large type, and after
turning round it can show a key twice, both exactly under conditions on the entries.  Put together on the memtables and
files of the store, they list in every state of every run exactly what point reads return.

## Hypotheses

- File operations succeed, and a background flush or compaction takes effect at once when it is installed.
- In the store, the skip list and the iterators a user key is a real number, which stands for its rank in the
  comparator's order: byte strings are countably many, so every such order embeds in the rationals.
- The per-byte step of CRC32C and the hash functions are parameters; nothing depends on which they are.
- Sizes obey the source's own widths: 32-bit lengths and block sizes, 64-bit offsets and file numbers, 56-bit sequence
  numbers.  They appear as `requires` where an overflow would change a format.
- The skip list's stores and loads take effect in program order, as its release stores and acquire loads provide for
  the published pointer.

## Model

| member | source | states |
|---|---|---|
| `Coding.Fixed32RoundTrip` | benchmark/leveldb/util/coding.cc:9-33 | decoding the four little-endian bytes of any 32-bit number, whatever follows them, gives the number back |
| `Coding.Fixed64RoundTrip` | benchmark/leveldb/util/coding.cc:20-33 | the same for 64-bit numbers |
| `Coding.PutVarint32` | benchmark/leveldb/util/coding.cc:47-79 | the five unrolled branches of EncodeVarint32 write exactly the base-128 digits that the loop of EncodeVarint64 writes |
| `Coding.PutVarint64` | benchmark/leveldb/util/coding.cc:81-96 | the loop appends the base-128 digits of the number, low digits first |
| `Coding.Varint32RoundTrip` | benchmark/leveldb/util/coding.cc:112-141 | reading a varint of any 32-bit number returns the number and exactly the bytes after it |
| `Coding.Varint64RoundTrip` | benchmark/leveldb/util/coding.cc:143-170 | the same for 64-bit numbers and ten bytes |
| `Coding.LengthPrefixedRoundTrip` | benchmark/leveldb/util/coding.cc:172-192 | a length-prefixed slice is read back whole, with the rest of the input left |
| `Coding.VarintExact` | benchmark/leveldb/util/coding.cc:112-170 | on any bytes: a varint is read exactly when one ends within the permitted number of bytes, and then it is the number its base-128 digits stand for |
| `Coding.SliceExact` | benchmark/leveldb/util/coding.cc:172-192 | on any bytes: a slice is read exactly when the bytes are a length of at most five bytes, as many bytes as it says, and the rest |
| `Coding.ExtendIsCrc` | benchmark/leveldb/util/crc32c.cc:286-329 | extending the checksum of a by b is the checksum of a followed by b, for any per-byte step |
| `Coding.UnmaskMask` | benchmark/leveldb/util/crc32c.h:26-43 | Unmask undoes Mask on every 32-bit checksum |
| `Coding.MaskedExact` | benchmark/leveldb/util/crc32c.h:26-41 | a stored checksum is accepted exactly when it is the masked checksum |
| `Log.CrcSound` | benchmark/leveldb/db/log_writer.cc:75-100 | the masked CRC header the writer emits is accepted by the reader for every type and payload |
| `Log.CrcExact` | benchmark/leveldb/db/log_reader.cc:228-243 | the only checksum bytes that pass the reader's test are those the writer makes |
| `Log.Writer.constructor` | benchmark/leveldb/db/log_writer.cc:15-22 | a new log is the log of no records |
| `Log.Writer.AddRecord` | benchmark/leveldb/db/log_writer.cc:27-73 | whatever the block offset, the file becomes the log of one more record and nothing already written changes |
| `Log.Writer.AppendFragments` | benchmark/leveldb/db/log_writer.cc:27-73 | the loop writes the FULL / FIRST..MIDDLE..LAST fragments of the record, with padding where a header does not fit |
| `Log.Writer.EmitPhysicalRecord` | benchmark/leveldb/db/log_writer.cc:75-100 | header and payload are appended and stay inside the block |
| `Log.AppendsRecord` | benchmark/leveldb/db/log_writer.cc:27-73 | a file that is the log of some records, followed by the fragments of one more, is the log of all of them |
| `Log.ReadsRecord` | benchmark/leveldb/db/log_reader.cc:59-162 | the fragments of a record, at any offset and with any bytes after them, are assembled to the record and the reader stands after them |
| `Log.ReadsCutRecord` | benchmark/leveldb/db/log_reader.cc:59-162 | a record cut anywhere delivers nothing, and a drop is reported unless the cut is before its first header |
| `Log.ReadsLog` | benchmark/leveldb/db/log_reader.cc:59-256 | for every list of records and every prefix of their log the reader returns exactly the records wholly inside the prefix, in order, and reports a drop exactly when the cut is not clean |
| `Log.CompleteIsLongest` | benchmark/leveldb/db/log_reader.cc:59-256 | the records counted as complete are the longest list that fits in the prefix |
| `Log.Reader.ReadPhysicalRecord` | benchmark/leveldb/db/log_reader.cc:179-256 | the buffered reader reports what reading the file at its position gives: fragment, bad record or end, with or without a drop |
| `Log.Reader.ReadRecord` | benchmark/leveldb/db/log_reader.cc:59-162 | each call delivers the next record of the whole-file reading, and None exactly when it has no more; the position moves forward |
| `Salvage.PieceExact` | benchmark/leveldb/db/log_reader.cc:179-257 | on any file: a fragment is read exactly when a physical record with a valid checksum stands, wholly in its block, at the next header |
| `Salvage.ReturnsChecked` | benchmark/leveldb/db/log_reader.cc:59-164 | on any file, damaged or not: every record returned is a full fragment, or a first, middle ones and a last one without a gap, all under valid checksums, and lies after the record returned before it |
| `Salvage.ConfinesDamage` | benchmark/leveldb/doc/log_format.txt:55-61 | whatever the first blocks of a file hold, the records written from the next block on are all returned; unless the reader meets in those blocks a physical record of type 5 under a valid checksum, and then what follows the blocks makes no difference to what is returned |
| `Salvage.EndMarkStops` | benchmark/leveldb/db/log_reader.cc:134-140 | such a block, after which no record is returned although complete ones follow |
| `Batch.BatchRoundTrip` | benchmark/leveldb/db/write_batch.cc:42-80 | iterating over an encoded batch yields exactly its updates, in order, and no error |
| `Batch.HeaderRoundTrip` | benchmark/leveldb/db/write_batch.cc:82-96 | the header of an encoded batch holds its sequence number and its count |
| `Batch.WriteBatch.Put` | benchmark/leveldb/db/write_batch.cc:98-103 | the representation becomes the encoding of the old updates followed by the put |
| `Batch.WriteBatch.Delete` | benchmark/leveldb/db/write_batch.cc:105-109 | the representation becomes the encoding of the old updates followed by the deletion |
| `Batch.WriteBatch.Append` | benchmark/leveldb/db/write_batch.cc:141-146 | the destination holds its updates followed by those of the source; its sequence number stays |
| `Batch.WriteBatch.SetSequence` | benchmark/leveldb/db/write_batch.cc:94-96 | changes the sequence number only |
| `Batch.Iterate` | benchmark/leveldb/db/write_batch.cc:42-80 | on every byte string: the updates handled are as many as can be read one after the other, in any encoding of their lengths, and the batch is accepted exactly when they end with the input and their number is the count in the header |
| `Batch.UpdateExact` | benchmark/leveldb/db/write_batch.cc:50-72 | on any bytes: an update is parsed exactly when they start with its type and its slices |
| `Recovery.RecoverLogFile` | benchmark/leveldb/db/db_impl.cc:345-437 | for every log: fails exactly when paranoid and something was dropped or malformed; otherwise the tables written hold, in order, every entry of every record read, and the maximum sequence is that of the records |
| `Recovery.InsertInto` | benchmark/leveldb/db/write_batch.cc:112-134 | the entries of a record are numbered from its sequence; a malformed record is fatal only when paranoid |
| `Recovery.ReplaysGroups` | benchmark/leveldb/db/db_impl.cc:345-437 | replaying the records of a list of groups inserts exactly their updates with their sequence numbers, and the greatest number seen is theirs |
| `Recovery.NumberedIs` | benchmark/leveldb/db/write_batch.cc:112-134 | update i of a batch with sequence sn is inserted itself, with the number sn + i in 64 bits |
| `Recovery.EntriesInOrder` | benchmark/leveldb/db/db_impl.cc:345-437 | the entries of a list of groups, by position: update i of group g stands after all updates of the groups before, with the number of its group plus i |
| `Recovery.RecoversPrefix` | benchmark/leveldb/db/db_impl.cc:345-437 | replaying any prefix of a log gives, position by position, exactly the updates of the groups wholly inside it with their own numbers, never part of a group, and the greatest of their numbers; it is intact exactly when the cut is clean |
| `WriteQueue.BuildBatchGroup` | benchmark/leveldb/db/db_impl.cc:1188-1233 | the group is the longest run of waiting calls that may join the leader (size limits, no sync behind a non-sync leader), and the result is, update by update, that of the calls one after the other; no caller batch is modified |
| `WriteProtocol.StepKeeps` | benchmark/leveldb/db/db_impl.cc:1123-1180 | every step of the protocol (a call arrives, is refused, leads a group, the group is appended, synced, applied, finished) keeps the invariant |
| `WriteProtocol.RunInv` | benchmark/leveldb/db/db_impl.cc:1123-1180 | the invariant holds in every state of every run |
| `WriteProtocol.AppliedOnce` | benchmark/leveldb/db/db_impl.cc:1123-1180 | calls complete in arrival order, each once; between groups update i of every accepted call stands in the memtable after all updates of the calls accepted before, numbered consecutively, and the log holds the same in the same order |
| `WriteProtocol.SyncNeverCarried` | benchmark/leveldb/db/db_impl.cc:1201-1233 | no sync call is ever carried by a group whose leader does not sync |
| `WriteProtocol.CrashRecovers` | benchmark/leveldb/db/db_impl.cc:1123-1180 | after a crash that leaves any prefix of the log, recovery gives, position by position, exactly the updates of the log entries wholly in it, numbered as they were, which are those of the calls of the entries; no synced entry is lost when the synced bytes are there |
| `WriteProtocol.RecoverAfterCrash` | benchmark/leveldb/db/db_impl.cc:345-437 | the recovery loop itself, run on any such prefix, writes tables that hold exactly these updates |
| `WriteProtocol.Durable` | benchmark/leveldb/db/db_impl.cc:1123-1180 | a sync call that returned success is in a synced log entry |
| `Keys.LessTransitive` | benchmark/leveldb/util/comparator.cc:25-27 | bytewise order is transitive |
| `Keys.LessTotal` | benchmark/leveldb/util/comparator.cc:25-27 | bytewise order is total |
| `Keys.FindShortestSeparator` | benchmark/leveldb/util/comparator.cc:29-51 | the result is the start, or lies strictly between start and limit and is no longer; it is shortened exactly when the code may shorten it |
| `Keys.FindShortSuccessor` | benchmark/leveldb/util/comparator.cc:53-65 | the result is not before the key, no longer, and increments the first byte that is not 0xff |
| `Keys.KeyRoundTrip` | benchmark/leveldb/db/dbformat.cc:12-21 | parsing an encoded internal key gives back user key, sequence and type |
| `Keys.ParseExact` | benchmark/leveldb/db/dbformat.h:180-194 | on any bytes: a key parses exactly when it is an encoding with a known type |
| `Keys.InternalTransitive` | benchmark/leveldb/db/dbformat.cc:50-66 | the internal order (user key up, trailer down) is transitive |
| `Keys.InternalAsymmetric` | benchmark/leveldb/db/dbformat.cc:50-66 | the internal order is asymmetric |
| `Keys.InternalTotal` | benchmark/leveldb/db/dbformat.cc:50-66 | two internal keys neither of which is first have the same user key and trailer |
| `Keys.InternalSeparator` | benchmark/leveldb/db/dbformat.cc:68-85 | a changed separator lies strictly between the keys, and its user key strictly between their user keys; it is changed exactly when the user key can be shortened at the first byte that differs, and then it is that user key with the greatest sequence number |
| `Keys.InternalSuccessor` | benchmark/leveldb/db/dbformat.cc:87-99 | a changed successor is after the key, with a larger user key; it is changed exactly when a byte below 0xff stands before the last one, and then it stops there |
| `Block.EntryDecodes` | benchmark/leveldb/table/block.cc:52-73 | the bytes of an entry decode, on the fast path and on the slow one, to its three lengths |
| `Block.BlockBuilder.Add` | benchmark/leveldb/table/block_builder.cc:73-107 | one more entry: a restart point exactly after the interval, otherwise the longest prefix shared with the last key is left out |
| `Block.BlockBuilder.Finish` | benchmark/leveldb/table/block_builder.cc:63-71 | the bytes of the block are the bytes of exactly the entries added, with their restart points |
| `Block.Iter.ParseNextKey` | benchmark/leveldb/table/block.cc:225-252 | prefix-compressed keys are rebuilt: the iterator stands on the next entry, or past the end |
| `Block.Iter.Next` | benchmark/leveldb/table/block.cc:138-141 | moves to the next entry |
| `Block.Iter.Prev` | benchmark/leveldb/table/block.cc:143-162 | moves to the entry before, across restart points, and becomes invalid at the first |
| `Block.Iter.Seek` | benchmark/leveldb/table/block.cc:164-202 | binary search over restarts and scan stop at the first entry not before the target |
| `Block.Iter.SeekToFirst` | benchmark/leveldb/table/block.cc:204-207 | stands on the first entry |
| `Block.Iter.SeekToLast` | benchmark/leveldb/table/block.cc:209-214 | stands on the last entry |
| `Block.ReadEntries` | benchmark/leveldb/table/block.cc:138-252 | walking a finished block from the first entry gives back exactly the entries added, for every restart interval |
| `Block.Unambiguous` | benchmark/leveldb/table/block.cc:52-252 | no byte string is the block of two different lists of entries |
| `Bloom.SetBitSets` | benchmark/leveldb/util/bloom.cc:35-61 | setting a bit sets that bit and no other |
| `Bloom.ProbeIs` | benchmark/leveldb/util/bloom.cc:49-58 | probe j of a key is its hash plus j times the second hash, in 32 bits |
| `Bloom.Rotates` | benchmark/leveldb/util/bloom.cc:51-52 | the second hash is the first rotated right by 17 of its 32 bits |
| `Bloom.CreateFilter` | benchmark/leveldb/util/bloom.cc:35-61 | the appended filter has exactly the bits that some probe of some key hits, and what was there before is kept |
| `Bloom.KeyMayMatch` | benchmark/leveldb/util/bloom.cc:63-87 | the loop answers whether all probes of the key hit, with the reserved and too short filters decided as in the source |
| `Bloom.FilterMatches` | benchmark/leveldb/util/bloom.cc:35-87 | no false negative: every key a filter was made from matches it |
| `Bloom.MatchExact` | benchmark/leveldb/util/bloom.cc:35-87 | a filter excludes exactly the keys with a probe that no key of the filter has |
| `Bloom.SameHash` | benchmark/leveldb/util/bloom.cc:63-87 | matching depends on the hash of the key only |
| `FilterBlock.FilterBlockBuilder.StartBlock` | benchmark/leveldb/table/filter_block.cc:22-28 | keys added so far stay with their blocks, whatever number of filters is skipped |
| `FilterBlock.FilterBlockBuilder.AddKey` | benchmark/leveldb/table/filter_block.cc:30-34 | the key is added for the block being written |
| `FilterBlock.FilterBlockBuilder.GenerateFilter` | benchmark/leveldb/table/filter_block.cc:52-76 | one more filter, made of exactly the keys pending |
| `FilterBlock.FilterBlockBuilder.Finish` | benchmark/leveldb/table/filter_block.cc:36-50 | the finished bytes match every key at the offset it was added for, and for every offset and key answer as the filter of exactly the keys added for that 2 KB range does; an empty range matches nothing |
| `FilterBlock.NeverMisses` | benchmark/leveldb/table/filter_block.cc:95-109 | a lookup through offset, index and filter bytes never misses an added key |
| `Table.RawBlockReads` | benchmark/leveldb/table/format.cc:66-144 | a block written with its trailer is read back, checksum included |
| `Table.BlockExact` | benchmark/leveldb/table/format.cc:66-145 | on any file: a block is read exactly where its bytes, its type and its checksum stand |
| `Table.PastTheBlock` | benchmark/leveldb/table/table.cc:216-246 | a lookup key beyond the last key of a block but not beyond its separator has a user key that the next block does not hold |
| `Table.SeekThrough` | benchmark/leveldb/table/table.cc:216-246 | seeking in the one block the index points to finds what a seek in the whole table finds, or the whole table has nothing for the user key |
| `Table.InternalGet` | benchmark/leveldb/table/table.cc:216-246 | index, filter and block together deliver the entry at or after the key whenever it has the user key asked for; the filter never hides it |
| `Table.TableBuilder.Add` | benchmark/leveldb/table/table_builder.cc:92-122 | one more entry; the data block is written exactly when it has reached the block size, and holds everything since the last one |
| `Table.TableBuilder.Flush` | benchmark/leveldb/table/table_builder.cc:124-138 | the block being built is written; the entries of the table stay the same |
| `Table.TableBuilder.Finish` | benchmark/leveldb/table/table_builder.cc:200-255 | the finished table is one that InternalGet reads, and its blocks hold exactly the entries added |
| `Entries.TableGetIsNewest` | benchmark/leveldb/db/memtable.cc:108-143 | seeking to (key, snapshot) in a sorted table finds the newest visible entry of the key, or there is none |
| `Entries.InsertKeepsSorted` | benchmark/leveldb/db/memtable.cc:82-106 | inserting an entry at the position found by the seek keeps the table sorted |
| `Levels.FindFile` | benchmark/leveldb/db/version_set.cc:93-112 | binary search finds the first file whose largest key is not before the target |
| `Levels.LevelGetIsNewest` | benchmark/leveldb/db/version_set.cc:355-371 | looking into the one file found on a sorted level gives the newest visible entry of the whole level |
| `Levels.NewestFirst` | benchmark/leveldb/db/version_set.cc:338-353 | the candidates of level 0 are exactly the files whose range holds the key, newest number first |
| `Levels.Level0GetIsNewest` | benchmark/leveldb/db/version_set.cc:338-353 | the first hit, newest file first, is the newest visible entry of level 0 |
| `Levels.VersionGet` | benchmark/leveldb/db/version_set.cc:313-419 | the loop over levels returns the first hit from level 0 down |
| `Overlap.SomeFileOverlapsRange` | benchmark/leveldb/db/version_set.cc:128-163 | the linear test and the binary search both answer whether some file meets the user-key range, open ends included |
| `Overlap.GetOverlappingInputs` | benchmark/leveldb/db/version_set.cc:480-519 | on level 0 the restarting loop ends, and returns the least set of files that holds every file meeting the range and is closed under overlap; on other levels exactly the files that meet the range |
| `Overlap.PickLevelForMemTableOutput` | benchmark/leveldb/db/version_set.cc:454-477 | the level chosen is the deepest one reachable without an overlap on the way, without too many grandparent bytes and within the limit |
| `Overlap.GetRange` | benchmark/leveldb/db/version_set.cc:1129-1149 | the smallest and largest key of the files |
| `Overlap.SetupOtherInputs` | benchmark/leveldb/db/version_set.cc:1250-1315 | the inputs of both levels are exactly determined: those of level+1 are the files that meet the span of the inputs; the inputs become what overlaps the span of both exactly when these are more, add no file of level+1 and stay under the byte limit; the grandparents are exactly the files of level+2 in the span; every list is in level order |
| `Overlap.PickInputs` | benchmark/leveldb/db/version_set.cc:1196-1248 | a picked file comes alone, or on level 0 with the least set of files that holds it and all that overlap one of them |
| `Overlap.RangeInputs` | benchmark/leveldb/db/version_set.cc:1317-1345 | the inputs of a manual compaction are the shortest prefix of the files that meet the range (on level 0 of the least closed set of them) that reaches the size limit; there are none exactly when no file meets the range |
| `Compaction.Cursor.IsBaseLevelForKey` | benchmark/leveldb/db/version_set.cc:1382-1401 | pointers that only move forward answer exactly, for every non-decreasing run of keys, whether a deeper level may hold the key |
| `Compaction.Cursor.ShouldStopBefore` | benchmark/leveldb/db/version_set.cc:1403-1423 | stops exactly when the grandparent bytes passed since the count restarted exceed the limit |
| `Compaction.DroppedNewest` | benchmark/leveldb/db/db_impl.cc:883-951 | if the loop drops the newest visible entry of a key, that entry is an obsolete deletion and nothing of the key is kept |
| `Compaction.DropsPreserveReads` | benchmark/leveldb/db/db_impl.cc:883-951 | replacing the merged input by what the drop rules keep changes no read at the oldest snapshot or later, if nothing older than a discarded deletion survives elsewhere |
| `Compaction.DoCompactionWork` | benchmark/leveldb/db/db_impl.cc:831-987 | the outputs, in order, hold exactly the input entries except those with a newer entry of their key at or below the oldest snapshot, and deletions at or below it of keys that no file from level+2 down has in its range; each output is non-empty, was under the size limit before its last entry, overlaps at most the permitted grandparent bytes plus one file, and unless it is the last is full or was closed for grandparent bytes that count for no other output |
| `Compaction.KeptIs` | benchmark/leveldb/db/db_impl.cc:883-951 | what the drop rules keep of a merged input, told without them |
| `Install.OneSide` | benchmark/leveldb/db/version_set.cc:1250-1315 | a file left on the output level lies on one side of all inputs |
| `Install.RewriteKeepsSound` | benchmark/leveldb/db/db_impl.cc:810-829 | installing the outputs of a compaction, expanded or not, keeps every level from 1 on sorted and disjoint |
| `Store.VersionGetIsNewest` | benchmark/leveldb/db/version_set.cc:313-419 | stopping at the first level with a hit gives the newest visible entry of all levels |
| `Store.GetIsNewest` | benchmark/leveldb/db/db_impl.cc:1047-1092 | memtable, immutable memtable, then version gives the newest visible entry of the store |
| `Machine.WriteKeepsInv` | benchmark/leveldb/db/write_batch.cc:112-134 | a batch, entry by entry, keeps the invariant: every read from the oldest snapshot on is answered as by the list of all writes |
| `Machine.WriteAllIs` | benchmark/leveldb/db/write_batch.cc:50-66 | update t of a batch joins the list of writes at its place, front to back, with the next sequence number |
| `Machine.SwitchKeepsInv` | benchmark/leveldb/db/db_impl.cc:1270-1300 | so does switching the memtable |
| `Machine.FlushKeepsInv` | benchmark/leveldb/db/db_impl.cc:486-517 | so does a flush to the level picked, below level 0 too |
| `Machine.MoveKeepsInv` | benchmark/leveldb/db/db_impl.cc:664-685 | so does a trivial move that leaves nothing older of a moved user key on its level; Boundary.MoveShapeIff shows that this is exactly when the levels stay ordered by age |
| `Machine.CompactKeepsReads` | benchmark/leveldb/db/db_impl.cc:831-987 | a compaction that leaves nothing older than a taken entry on the input level, nor than a discarded deletion on the output level, changes no read from the oldest snapshot on |
| `Machine.CompactKeepsInv` | benchmark/leveldb/db/db_impl.cc:810-829 | so the invariant holds after it |
| `Machine.CompactionOutputs` | benchmark/leveldb/db/db_impl.cc:883-951 | the output files hold exactly the input entries that are neither superseded by a newer entry of their key that every snapshot sees, nor deletions that every snapshot sees of a key that no deeper file has in its range |
| `Machine.SnapshotsKeepInv` | benchmark/leveldb/db/db_impl.cc:1104-1112 | taking and releasing snapshots keeps the invariant |
| `Machine.RunInv` | benchmark/leveldb/db/db_impl.cc:634-714 | the invariant holds in every state of every run of writes, switches, flushes, snapshots, and moves and compactions that keep the order of age; Boundary.RunExact and Boundary.LastStepExact say what the first step outside the hypothesis does |
| `Machine.SnapshotReads` | benchmark/leveldb/db/snapshot.h:30-62 | over every run, a read at a held snapshot returns the newest write up to it, and keeps returning it |
| `Machine.HistoryIs` | benchmark/leveldb/db/write_batch.cc:112-134 | in every state of every run the list of writes is the updates of the write steps, one after the other, numbered from 1 |
| `Machine.HeldSnapshotReads` | benchmark/leveldb/db/snapshot.h:30-62 | over every run, a read at a held snapshot returns v if and only if the last update of its key before the step that took the snapshot put v |
| `Machine.SnapshotTaken` | benchmark/leveldb/db/db_impl.cc:1104-1112 | every snapshot held was taken by a step of the run, at the writes of that moment |
| `Machine.LatestReads` | benchmark/leveldb/db/db_impl.cc:1047-1092 | over every run, a read without snapshot returns v if and only if the last update of its key in the write steps so far put v |
| `Background.FilesJoin` | benchmark/leveldb/db/db_impl.cc:758-808 | the tables made of the outputs hold, one after another, what the outputs hold |
| `Background.RunCompaction` | benchmark/leveldb/db/db_impl.cc:831-987 | the concrete loop, run on inputs, merged entries and grandparents, makes the compaction step of the store, with fresh file numbers and both bounds on every table |
| `Background.AllOk` | benchmark/leveldb/db/version_set.cc:1163-1194 | the children of the input iterator are sorted, share no key, and hold together exactly the entries of the inputs |
| `Background.BoundOnLevel` | benchmark/leveldb/db/version_set.cc:1403-1423 | the grandparent bound, proved of the grandparents collected, holds of all files of level+2 |
| `Background.CompactInputs` | benchmark/leveldb/db/db_impl.cc:634-714 | from inputs in level order through SetupOtherInputs, the merging iterator and the loop, or a trivial move: the result is a step of the store on exactly the inputs that SetupOtherInputs chooses; it is a move exactly when not manual, with one file, none below and few enough grandparent bytes; every new table overlaps at most the permitted bytes of level+2 plus one file |
| `Background.CompactPicked` | benchmark/leveldb/db/db_impl.cc:634-714 | the same from the file the picker chose, alone or on level 0 with the least closed set around it; a trivial move moves exactly that file; on level 0 nothing older of a taken key is left there, and a move from level 0 is a step of Machine |
| `Background.CompactRange` | benchmark/leveldb/db/db_impl.cc:634-660 | the same for a manual compaction of exactly the files that the range selects; it does nothing exactly when no file of the level meets the range |
| `Background.CompactMemTable` | benchmark/leveldb/db/db_impl.cc:440-517 | the concrete flush, with the level search, makes the flush step of the machine, on the deepest level permitted; an empty memtable makes no table |
| `Boundary.CompactionExact` | benchmark/leveldb/db/version_set.cc:1250-1315 | for every store, every compaction the code can run and every read: the read is preserved if and only if no older entry of its key is left behind next to what is taken |
| `Boundary.CompactionPreservesIff` | benchmark/leveldb/db/version_set.cc:1250-1315 | the same for all reads at once |
| `Boundary.MoveExact` | benchmark/leveldb/db/db_impl.cc:664-685 | for every store, every trivial move and every read: the read is preserved if and only if what its level keeps of the key says nothing else |
| `Boundary.MovePreservesIff` | benchmark/leveldb/db/db_impl.cc:664-685 | the same for all reads at once |
| `Boundary.ShapeIff` | benchmark/leveldb/db/db_impl.cc:810-829 | a compaction keeps the levels ordered by age if and only if nothing it makes is newer than what it leaves above |
| `Boundary.MoveShapeIff` | benchmark/leveldb/db/db_impl.cc:664-685 | a trivial move does so if and only if nothing older of a moved user key is left on its level |
| `Boundary.ClosedLevel0` | benchmark/leveldb/db/version_set.cc:1227-1238 | inputs of level 0 closed under overlap leave nothing older behind |
| `Boundary.OrderedNeverStraddles` | benchmark/leveldb/db/version_set.cc:1250-1315 | under the hypothesis of the runs nothing straddles |
| `Boundary.StepExact` | benchmark/leveldb/db/db_impl.cc:634-714 | one step of any kind, from any store that meets the invariant: all reads stay right if and only if no entry straddles under a read; the order of age may break |
| `Boundary.RunExact` | benchmark/leveldb/db/db_impl.cc:634-714 | over every run of any moves and compactions whose steps all start from levels ordered by age, whatever the last step does to that order: all reads in all states are right if and only if no step is taken while an entry straddles under a read |
| `Boundary.LastStepExact` | benchmark/leveldb/db/db_impl.cc:634-714 | a run under the hypothesis and one more step of any kind: all reads in the last state are right if and only if nothing straddles at that step |
| `Boundary.StaleRead` | benchmark/leveldb/db/version_set.cc:1317-1345 | a run of the store after which one more compaction, of one of two files that share a user key, makes the last write of the key invisible; an instance of LastStepExact |
| `Boundary.StaleMove` | benchmark/leveldb/db/version_set.cc:1365-1372 | the same run, and the trivial move that the code makes by itself: the last write of the key becomes invisible; an instance of LastStepExact |
| `LargeSpace.NamesDiffer` | benchmark/leveldb/table/mris.cc:32-49 | blocks with different numbers have different files |
| `LargeSpace.RecordReads` | benchmark/leveldb/table/mris.h:287-325 | a record (size, value, checksum) is read back from anywhere in a file |
| `LargeSpace.RecordExact` | benchmark/leveldb/table/mris.h:287-325 | on any file: a value is read exactly where its size, its bytes and its checksum stand |
| `LargeSpace.MetaRoundTrip` | benchmark/leveldb/table/mris.cc:147-246 | loading dumped metadata gives back thresholds and blocks, the block being built as one more block |
| `LargeSpace.MetaExact` | benchmark/leveldb/table/mris.cc:200-246 | on any bytes: metadata is accepted exactly when its body is followed by its length and its checksum |
| `LargeSpace.DelegateRoundTrip` | benchmark/leveldb/table/mris.cc:93-111 | decoding a delegate gives back offset and size |
| `LargeSpace.GetBlockReader` | benchmark/leveldb/table/mris.h:462-484 | the loop computes the recursive search |
| `LargeSpace.SearchExact` | benchmark/leveldb/table/mris.h:462-480 | with empty blocks the search finds the block of an offset exactly when the offset is inside the block, or the empty blocks in front of it all come after the last position to the left that the search looks at |
| `LargeSpace.MiddleDecides` | benchmark/leveldb/table/mris.h:462-480 | the middle block is never hidden, and empty blocks on both sides of the middle hide the block after them |
| `LargeSpace.SearchFinds` | benchmark/leveldb/table/mris.h:462-484 | without empty blocks every offset is found |
| `LargeSpace.SearchDecides` | benchmark/leveldb/table/mris.h:462-484 | the search gives the block that contains the offset if and only if no empty block hides it (Findable), and otherwise an empty block that starts there |
| `LargeSpace.WriteKeeps` | benchmark/leveldb/table/mris.h:364-388 | appending a record keeps every value ever issued in place, and its delegate is new |
| `LargeSpace.Space.constructor` | benchmark/leveldb/table/mris.cc:282-338 | opening a cleanly closed space gives back the blocks and every value issued; a missing or empty space opens empty |
| `LargeSpace.Space.Close` | benchmark/leveldb/table/mris.cc:340-353 | after Close the files hold everything needed to open the space again, also for a space that was opened after a crash |
| `LargeSpace.Space.DumpLargeSpace` | benchmark/leveldb/table/mris.cc:304-316 | the next metadata file is written before LARGEHEAD names it |
| `LargeSpace.Space.NewBuilder` | benchmark/leveldb/table/mris.cc:355-366 | the new block starts where the data ends, under the next name, and the metadata on disk already lists it, empty; an intact space stays intact |
| `LargeSpace.Space.SealLargeBlock` | benchmark/leveldb/table/mris.cc:369-386 | sealing changes neither the blocks seen by readers nor the data size |
| `LargeSpace.Space.Write` | benchmark/leveldb/table/mris.cc:388-410 | offsets are handed out consecutively and the new state is given exactly; in an intact space, empty blocks or not, the delegate is new, every value issued before stays in place, and the metadata on disk lags by the last block only |
| `LargeSpace.Space.Read` | benchmark/leveldb/table/mris.h:504-526 | the bounds, the writer block and the search answer as the reading function does; in an intact space a delegate reads back its value if (and, when the value is not empty, only if) no empty block hides it, and gives an error otherwise |
| `LargeSpace.SpaceReads` | benchmark/leveldb/table/mris.h:504-526 | the same on values: what is hidden is exactly told by the positions of empty blocks, no read of a delegate gives anything but its value or an error, and without empty blocks every delegate reads back its value |
| `LargeSpace.Space.Retrieve` | benchmark/leveldb/table/mris.h:564-596 | the encoded delegate of every issued value retrieves it, under the same condition |
| `LargeSpace.Space.Deposit` | benchmark/leveldb/table/mris.h:532-562 | the key becomes the same key of large type, the value its delegate, and the delegate reads back the value; a bad key changes nothing |
| `LargeSpace.Reopen` | benchmark/leveldb/table/mris.cc:282-353 | closing and opening gives back the same blocks and every value issued, in place |
| `LargeSpace.CrashReopen` | benchmark/leveldb/table/mris.cc:282-353 | opening a space again without Close gives an intact space with exactly the values begun before the end known to the metadata on disk; a value issued before is read back if and only if it is one of these and no empty block hides it (without empty blocks: if and only if it is one of these, or empty and exactly at the end); no read gives anything else; the space ends there, so the next value gets that offset again |
| `LargeSpace.ForgetsAndReissues` | benchmark/leveldb/table/mris.cc:355-410 | a run in which a value is lost without Close, its offset is handed out again, and its delegate reads the new value |
| `LargeSpace.LosesThoughClosed` | benchmark/leveldb/table/mris.cc:282-410 | a run (write, close, open, write, crash, open, write, close, open) after which the last value is not found although it was closed cleanly, because the block lost in the crash stays in the list, empty |
| `LargeSpace.Fits` | benchmark/leveldb/table/mris.cc:147-200 | metadata whose fields fit their widths and whose names are shorter than a megabyte can be encoded, however many blocks it lists |
| `Redirect.BuildTable` | benchmark/leveldb/db/builder.cc:19-61 | entry by entry the table holds the same value or, over the threshold, the large-type key with a delegate that stands for the value; the range is that of the memtable; the space stays intact, and free of empty blocks if it was |
| `Redirect.KeysIncrease` | benchmark/leveldb/db/builder.cc:40-56 | redirecting keeps the keys strictly increasing, although it changes their types |
| `Redirect.SamePlace` | benchmark/leveldb/db/version_set.cc:278-307 | a lookup stops at the same place in the redirected table as in the memtable |
| `Redirect.SameAnswer` | benchmark/leveldb/db/version_set.cc:402-409 | what is found there means the same to the reader |
| `Redirect.TableGet` | benchmark/leveldb/db/version_set.cc:278-419 | with a space in which no empty block hides a value, a read of the redirected table answers as the memtable did, for every key and snapshot: with the newest entry of the key at or below the snapshot, found or deleted, or absent when there is none |
| `Redirect.MemGetAnswers` | benchmark/leveldb/db/memtable.cc:108-143 | reading a memtable answers Found(v), Deleted or Absent if and only if the newest entry of the key at or below the snapshot is v, is a deletion, or does not exist |
| `SkipList.StepAt` | benchmark/leveldb/db/skiplist.h:259-278 | one step of a search: either it moves to a node before the target, or the next node is the first at or after it |
| `SkipList.Publish` | benchmark/leveldb/db/skiplist.h:360-366 | storing the pointer of the predecessor adds the node to the level and keeps every level sorted and part of the one below |
| `SkipList.List.FindGreaterOrEqual` | benchmark/leveldb/db/skiplist.h:259-278 | finds the first node at or after the key, and the predecessor on every level |
| `SkipList.List.FindLessThan` | benchmark/leveldb/db/skiplist.h:280-299 | finds the last node before the key |
| `SkipList.List.FindLast` | benchmark/leveldb/db/skiplist.h:301-319 | finds the last node |
| `SkipList.List.Contains` | benchmark/leveldb/db/skiplist.h:369-378 | answers whether the key is in the list |
| `SkipList.List.Insert` | benchmark/leveldb/db/skiplist.h:333-367 | one node more, in its place, for every height; all levels stay sorted |
| `SkipReaders.StepKeeps` | benchmark/leveldb/db/skiplist.h:333-367 | every single store of the writer and every single load of a reader keeps the invariant |
| `SkipReaders.RunInv` | benchmark/leveldb/db/skiplist.h:333-367 | in every intermediate state of every interleaving all levels are sorted and nested, and every reader that has returned keeps the promise of Seek, Next, Prev, SeekToFirst or SeekToLast |
| `SkipReaders.SeekNeverSkips` | benchmark/leveldb/db/skiplist.h:259-278 | a seek that runs while the writer inserts skips no node that was in the list when it began |
| `Edits.EditRoundTrip` | benchmark/leveldb/db/version_edit.cc:41-86 | decoding an encoded edit gives back every field, repeated ones included |
| `Edits.DecodeFrom` | benchmark/leveldb/db/version_edit.cc:109-210 | on every byte string: decoding succeeds exactly when the bytes are made of fields, each a tag and a body in any encoding of their numbers, and takes these fields in order |
| `Manifest.OrderedUnique` | benchmark/leveldb/db/version_set.cc:553-566 | the list of a level is determined by its set of files |
| `Manifest.KeyLessIsInternal` | benchmark/leveldb/db/version_set.cc:553-566 | on internal keys the order of files is that of the internal comparator |
| `Manifest.SaveLevel` | benchmark/leveldb/db/version_set.cc:658-719 | the merge holds exactly the base and added files not deleted, for any lists; it is ordered when the lists are and share no number |
| `Manifest.Builder.Apply` | benchmark/leveldb/db/version_set.cc:612-656 | the builder has absorbed one more edit |
| `Manifest.Builder.SaveTo` | benchmark/leveldb/db/version_set.cc:658-704 | the files saved are, level by level, what installing the edits one at a time gives if and only if no file is revived and none is masked, a condition on the edits; the list is ordered when no number is brought twice |
| `Manifest.BatchEqualsSteps` | benchmark/leveldb/db/version_set.cc:612-719 | one builder over many edits equals installing them one at a time, if no file number is brought twice |
| `Manifest.StepsAre` | benchmark/leveldb/db/version_set.cc:767-800 | what installing one at a time ends with, read off the edits: base files never deleted, and files brought and not deleted after |
| `Manifest.BatchIs` | benchmark/leveldb/db/version_set.cc:612-719 | what one builder ends with, read off the edits: numbers not deleted last, and of files with the same number and smallest key only the first ever brought |
| `Manifest.ExtraIff` | benchmark/leveldb/db/version_set.cc:612-719 | one builder keeps no file too many if and only if no deleted file has its number brought back without it |
| `Manifest.LostIff` | benchmark/leveldb/db/version_set.cc:612-719 | one builder loses no file if and only if none is brought to stay after another of the same number and smallest key |
| `Manifest.BatchEqualsStepsIff` | benchmark/leveldb/db/version_set.cc:612-719 | so one builder equals installing one at a time exactly under both conditions |
| `Manifest.KeepsOneTooMany` | benchmark/leveldb/db/version_set.cc:612-656 | add, delete, add under the same number with another smallest key: the builder also keeps the deleted file |
| `Manifest.LosesOne` | benchmark/leveldb/db/version_set.cc:612-656 | the same with the same smallest key: the builder keeps the deleted file and loses the new one |
| `Manifest.Recover` | benchmark/leveldb/db/version_set.cc:849-962 | fails exactly when the manifest is damaged, has the wrong comparator or lacks a counter; otherwise the counters are those of the edits, and the files are what installing the edits one at a time gives exactly when the edits are clear |
| `VersionSet.SnapshotInstalls` | benchmark/leveldb/db/version_set.cc:1007-1035 | installing the snapshot edit of a version on nothing gives the version |
| `VersionSet.ReadsManifest` | benchmark/leveldb/db/version_set.cc:849-962 | a manifest written out in full is read back as its list of edits |
| `VersionSet.VersionSet.constructor` | benchmark/leveldb/db/version_set.cc:1007-1035 | a new manifest holds the snapshot of the version |
| `VersionSet.VersionSet.LogAndApply` | benchmark/leveldb/db/version_set.cc:767-847 | the manifest has one more edit with its counters filled in, the current version is what the edits install, and file numbers stay in place if the edit brings new numbers or moves files down |
| `VersionSet.VersionSet.NewFileNumber` | benchmark/leveldb/db/version_set.h:174-174 | numbers are handed out once: the number is not used by any edit |
| `VersionSet.VersionSet.SetLastSequence` | benchmark/leveldb/db/version_set.h:194-198 | the last sequence number only grows, and the version set stays consistent and its numbers in place |
| `VersionSet.ProperIsOnce` | benchmark/leveldb/db/version_set.cc:767-847 | an edit that brings new numbers or moves files down brings no number to a level a second time |
| `VersionSet.PlacedMore` | benchmark/leveldb/db/version_set.cc:767-847 | such an edit keeps every number on one level, the deepest it was brought to, and below the next number |
| `VersionSet.Reopen` | benchmark/leveldb/db/version_set.cc:849-962 | recovering from the manifest of a running version set gives its log numbers, exactly the counters of its last edit, its current version when numbers are in place, and a next file number above every recovered file |
| `HandleTable.Table.FindPointer` | benchmark/leveldb/util/cache.cc:98-105 | finds the first match in the bucket of the hash, or its end |
| `HandleTable.Table.Lookup` | benchmark/leveldb/util/cache.cc:58-60 | finds a handle with the key exactly when the table holds one |
| `HandleTable.Table.Insert` | benchmark/leveldb/util/cache.cc:62-76 | the handle is in, the old one with its key is out and returned, nothing else changes |
| `HandleTable.Table.Remove` | benchmark/leveldb/util/cache.cc:78-86 | removes exactly the handle with the key |
| `HandleTable.Table.Resize` | benchmark/leveldb/util/cache.cc:107-132 | rehashing keeps exactly the same handles and makes room |
| `LruCache.Cache.Unref` | benchmark/leveldb/util/cache.cc:189-197 | the last reference frees the entry, gives back its charge and runs its deleter |
| `LruCache.Cache.Lookup` | benchmark/leveldb/util/cache.cc:212-221 | a hit becomes the newest entry and gains a handle; a miss means no listed entry has the key |
| `LruCache.Cache.Release` | benchmark/leveldb/util/cache.cc:223-226 | gives up one handle and keeps the accounting |
| `LruCache.Cache.Insert` | benchmark/leveldb/util/cache.cc:228-259 | the entry with the same key leaves, then the oldest ones until the usage fits or the list is empty; nothing is evicted when it fits; every other live entry keeps its value |
| `LruCache.Cache.Erase` | benchmark/leveldb/util/cache.cc:261-268 | exactly the entry with the key leaves; it lives on while it has handles |
| `LruCache.AllDeleted` | benchmark/leveldb/util/cache.cc:180-197 | with an empty list and no open handle every entry ever inserted has been deleted, once each, and the usage is 0 |
| `DbIter.Iter.FindNextUserEntry` | benchmark/leveldb/db/db_iter.cc:155-185 | finds the next user key with a visible value, over deletions and hidden entries |
| `DbIter.Iter.SeekToFirst` | benchmark/leveldb/db/db_iter.cc:270-279 | stands on the first visible user key |
| `DbIter.Iter.Seek` | benchmark/leveldb/db/db_iter.cc:256-268 | stands on the first visible user key at or after the target |
| `DbIter.Iter.Next` | benchmark/leveldb/db/db_iter.cc:129-153 | the next visible key; after a reversal exactly when no entry too new for the snapshot is interposed before the current key, or forward traversal does not show the key; otherwise the current key again |
| `DbIter.InterposedIs` | benchmark/leveldb/db/db_iter.cc:129-148 | where the internal iterator stands after a reversal, told from the entries alone |
| `DbIter.NextAfterPrev` | benchmark/leveldb/db/db_iter.cc:129-153 | without entries newer than the snapshot and without large values, Next after Prev is the true successor in the visible map |
| `DbIter.ShowsTwice` | benchmark/leveldb/db/db_iter.cc:129-153 | three entries on which SeekToLast and Next show the same key twice, the second time with an older value |
| `DbIter.Iter.FindPrevUserEntry` | benchmark/leveldb/db/db_iter.cc:214-254 | finds the previous user key with a visible value |
| `DbIter.Iter.SeekToLast` | benchmark/leveldb/db/db_iter.cc:281-286 | stands on the last visible user key |
| `DbIter.Iter.Prev` | benchmark/leveldb/db/db_iter.cc:187-212 | the previous visible key, from either direction |
| `DbIter.BackwardIsVisible` | benchmark/leveldb/db/db_iter.cc:214-254 | walking backward shows exactly the newest visible non-deleted entries |
| `DbIter.ForwardIsVisible` | benchmark/leveldb/db/db_iter.cc:155-185 | walking forward does so if and only if none of them is of large type |
| `DbIter.Forward` | benchmark/leveldb/db/db_iter.cc:129-279 | a whole forward traversal lists exactly those entries once each, in key order |
| `DbIter.Backward` | benchmark/leveldb/db/db_iter.cc:187-286 | a whole backward traversal lists exactly the visible map, in reverse order |
| `Merger.MergingIterator.FindSmallest` | benchmark/leveldb/table/merger.cc:155-168 | the child with the least current key, the first of them on ties |
| `Merger.MergingIterator.FindLargest` | benchmark/leveldb/table/merger.cc:170-183 | the child with the greatest current key, the last of them on ties |
| `Merger.MergingIterator.SeekToFirst` | benchmark/leveldb/table/merger.cc:35-41 | shows the least key of the union |
| `Merger.MergingIterator.SeekToLast` | benchmark/leveldb/table/merger.cc:43-49 | shows the greatest key of the union |
| `Merger.MergingIterator.Seek` | benchmark/leveldb/table/merger.cc:51-57 | shows the least key of the union not before the target |
| `Merger.MergingIterator.Next` | benchmark/leveldb/table/merger.cc:59-83 | shows the successor in the union, from either direction |
| `Merger.MergingIterator.Prev` | benchmark/leveldb/table/merger.cc:85-112 | shows the predecessor in the union, from either direction |
| `Merger.MergeEntries` | benchmark/leveldb/table/merger.cc:35-83 | walking from the first key to the last lists the entries of all children, each once, in key order |
| `Scan.InternalLists` | benchmark/leveldb/db/db_impl.cc:1008-1035 | the children of the internal iterator (memtables, each file of level 0, each deeper level joined) are sorted, share no key, and hold exactly the entries of the store |
| `Scan.NewestIsGet` | benchmark/leveldb/db/db_iter.cc:155-185 | what an iterator shows for a key is what a point read finds |
| `Scan.GetIsNewestItem` | benchmark/leveldb/db/db_iter.cc:155-185 | what a point read finds is shown |
| `Scan.Forward` | benchmark/leveldb/db/db_impl.cc:1094-1102 | merging the children and walking the user-level iterator forward lists, in ascending order, exactly the keys that point reads at the snapshot find, with their values |
| `Scan.Backward` | benchmark/leveldb/db/db_impl.cc:1094-1102 | walking backward lists the same in descending order |
| `Scan.NewIterator` | benchmark/leveldb/db/db_impl.cc:1094-1102 | in every state of every run, an iterator lists in ascending order exactly what the last update of each key put, among all updates so far or among those before its snapshot was taken |

## Left out

- Machine.RunInv: assumes that moves and compactions leave nothing older of a taken user key behind; `Boundary.RunExact` and `Boundary.LastStepExact` drop this for a step that starts from levels ordered by age.
- Boundary.RunExact: covers a step that breaks the order of age only as the last one of a run, and says nothing of the steps after it; `Boundary.ShapeIff` and `Boundary.MoveShapeIff` say which steps break it.
- Scan.NewIterator: the list under the iterator is the whole merged list, computed at once; entries of large type are the subject of `DbIter` and `Redirect`.
- Redirect.TableGet: with an empty block that hides a value, see `LargeSpace.Space.Retrieve`.
- Compaction.DoCompactionWork: the oldest snapshot is below the greatest sequence number, which the loop uses as its "no entry yet" mark.
- Recovery.RecoverLogFile: one log file; rotation, several logs and the size estimate that decides when a memtable is full are a parameter.
- WriteProtocol.CrashRecovers: one log without rotation; a call can fail only before its group is formed (no room), not in the append, the sync or the insert.
- Table.TableBuilder.Finish: the footer, the metaindex block and Snappy compression are not modelled; the table is handed over with its index and filter.
- Redirect.BuildTable: the threshold is above 0 (with 0 a deletion would be redirected, against the assertion in `Deposit`); the entries that the builder receives are a list, and the table format is `Table`.
- Block.Iter.ParseNextKey: the block is one that a builder made; on a corrupted block the iterator stops with an error, which is not modelled.
- LruCache.AllDeleted: the sharded wrapper, its hash routing and the destructor's walk over the list are not modelled.
- VersionSet.VersionSet.LogAndApply: CURRENT, the creation of a manifest inside the call and the compaction positions kept per level are not modelled.
- SkipList.List.Insert: the height is a parameter in place of the random source.
- Bloom.CreateFilter: BloomHash is a parameter.
- PickCompaction's choice of level and file, Finalize and seek-triggered scores: they decide which file is compacted first; every choice of theirs is a step of the machine.
- The flush of a memtable inside the compaction loop.
- Table cache, two-level iterator, file deletion, repair, the C bindings, options and the environment layer.
- The benchmark drivers and their scripts.
