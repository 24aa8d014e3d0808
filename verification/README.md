# Storage layer model

A Dafny model of the storage layer of a C++ re-implementation of LevelDB: the skip list and
memtable, the write-ahead log, the sorted table stack, the LRU cache, and the checksums,
codecs and allocator under them.  Verify everything with `dafny verify dfyconfig.toml`.

Main results, by module:

- `SkipListConcurrent`: one writer and any number of lock-free readers, one atomic load or
  store per step.  Every interleaving keeps each level sorted and nested in the one below,
  and every search is linearizable at its last load (`ReadIsLinearizable`,
  `SeekNeverMisses`, `KeysChangeAtomically`).  `SkipLists` is the sequential class over the
  same memory, `MemTables` the multi-version map on top of it.
- `LogTorn.TornLogReads`: a log whose writer died after any fragments of any records, read from
  any initial offset and cut off anywhere, yields exactly the whole records in the kept bytes;
  `LogTorn.LogReads` is the case without torn records.  `LogReports.SilentExactly`: when an
  undamaged log is read without a report.  `LogDamage.DamageNeverJoins`: damage within four
  consecutive bytes of each record's type and payload loses records but never mixes them.
- `Tables.BuildAndOpen` with `Table.NewIterator` and `Table.InternalGet`: a table file, from
  the entries added to the bytes written and back, with index separators, prefix-compressed
  blocks, block trailers, footer, filter block and metaindex; `TableSnapshots.SnapshotGet` reads
  such a table of internal keys at a snapshot, and `TableDamage` says what a verifying reader
  still finds in a damaged one.  The iterators (`BlockIterators`,
  `TwoLevelIterators`, `Merger`) are each proved to be a cursor over a list of entries
  (`Cursors`): those of a block, of the concatenated blocks, and of the sorted union of the
  children; the last with the exact condition under which a change of direction is.
- `LruCaches`: hash table, recency list, reference counts and charges agree in every state,
  and eviction is exactly least-recently-used (`KeptIsLongestThatFits`).
- `Crc32c.Extend`: the four-stride form equals the bytewise form for every alignment, over the
  CRC32C polynomial of section 12.1 of RFC 3720, with the program's own check value
  (`Crc32cVectors.TestBuffer`).

Conventions.  Bytes are numbers below 256 and files are byte sequences; appends succeed and a
read returns a full block when there is one.  Comparators, entry codecs, the log framing, the
table format, filter policies and the bloom hash are function parameters with a law each
(`Ordered`, `Sound`, `Lawful`); a lemma shows that the program's own instance fulfils it.
Integers are unbounded, and the program's 32- and 64-bit truncation is written out where it
acts (varint decoding, checksums, bloom probes, the length check of an entry).  Some heavy
predicates are stated behind a marker whose name begins with `Use` (`UseImage`, `UseRun` and so
on), which says where the verifier may use the definition and adds nothing to its meaning.

Where code and comments differ, the model follows the code.  The cache keeps one list with
every entry the cache still references, and never uses in_cache (util/cache.cpp:19-34 describes
two lists).  A merging iterator that changes direction skips entries of other children with
the current key; the exact condition is `Merger.TurnForwardExact` and `TurnBackwardExact`.
A fragment skipped because of the initial offset comes back as a bad record and ends
resynchronization (db/log_reader.cpp:93-104, 300-303), so an undamaged log can be reported as
corrupt: `LogReports.OffsetOneReports` is an input, `LogReports.SilentExactly` the exact
condition, and `LogReports.LogReportsAre` all that is reported.  A type byte 5 is taken for
the end of the file (`LogReports.TypeFiveStops` is an input, `LogReader.StopsExactly` the exact
condition), and type byte 6 for a record that was reported already
(`LogReports.UnknownTypeReported`).  InternalGet looks in one block only and can
miss the first entry of the next one (`Tables.LookupOfBMisses`); `Tables.FoundExactly` says
when it does not, and `TableSnapshots.SnapshotGet` that this never hides a user key.  An
internal separator can leave [start, limit) only if the user comparator shortens a key whose
limit is equal to it (`DbFormat.InternalSeparatorBetween`; `DbFormat.SeparatorLeavesBounds` is an
input).

## Model

| member | source | states |
|---|---|---|
| `SkipListMemory.PublishKeeps` | db/skiplist.h:394-401 | The store that links a node at one level keeps, on every level, each next pointer on the immediate successor among the nodes linked there, and adds the node's key to the visible keys at level 0 only |
| `SkipListMemory.OwnNextKeeps` | db/skiplist.h:394-398 | Setting a level of the new node's own tower before it is linked there changes nothing a reader can see |
| `SkipListMemory.NewNodeKeeps` | db/skiplist.h:392-393 | A newly allocated node with unset pointers is invisible until it is linked |
| `SkipListMemory.RaiseHeightKeeps` | db/skiplist.h:377-390 | Raising max_height_ before the new levels are in use keeps the invariant and the visible keys |
| `SkipListMemory.FollowIsSorted` | db/skiplist.h:276-300 | Following the pointers of any level from any node visits exactly the nodes linked there that lie after it, strictly increasing, and ends |
| `SkipListMemory.LevelsNest` | db/skiplist.h:394-401 | The list of each level is a sublist of the level below |
| `SkipListMemory.EmptyInv` | db/skiplist.h:351-361 | A new list satisfies the invariant and has no key |
| `SkipListConcurrent.StepKeeps` | db/skiplist.h:276-402 | Every step of the writer or of a reader, in any interleaving, keeps the invariant of memory, writer and all readers, and never moves, changes or unlinks a node |
| `SkipListConcurrent.LoadIsSet` | db/skiplist.h:281-283 | A reader standing on a linked node never loads an unset next pointer |
| `SkipListConcurrent.WriteKeeps` | db/skiplist.h:364-402 | Each atomic step of Insert keeps the invariant and changes the visible keys by exactly the inserted key at its level-0 store, and not at all otherwise |
| `SkipListConcurrent.FinalLoadAnswers` | db/skiplist.h:276-349 | The last level-0 load of FindGreaterOrEqual, FindLessThan or FindLast answers the query exactly on the list at that moment, wherever the walk started |
| `SkipListConcurrent.RunKeepsInv` | db/skiplist.h:276-402 | Every state of every run from the empty list satisfies the invariant |
| `SkipListConcurrent.RunGrows` | db/skiplist.h:364-402 | Between any two states of a run no node is moved, changed or unlinked |
| `SkipListConcurrent.ReadIsLinearizable` | db/skiplist.h:276-402 | In every run, a search that overlaps any writer steps returns the exact answer on the level-0 list at its last load, and that list still has every node it had when the search began |
| `SkipListConcurrent.SeekNeverMisses` | db/skiplist.h:276-300 | A Seek never lands beyond a key that was visible when it began and is not before the target |
| `SkipListConcurrent.KeysChangeAtomically` | db/skiplist.h:394-401 | In every run the set of visible keys changes only at the level-0 store of an Insert, and then by that key |
| `SkipListConcurrent.OnlyInserted` | db/skiplist.h:364-402 | No key is in memory that was not inserted, in any state of any run |
| `SkipListConcurrent.ScanMissesNothing` | db/skiplist.h:213-217 | Next after Next, with any steps of the writer in between, goes strictly upwards and has met every node that was visible when the scan began and lies up to where it stands |
| `SkipListConcurrent.FullScanMissesNothing` | db/skiplist.h:213-217 | A scan that reaches the end has met every node that was visible when it began and lies after its first node |
| `SkipLists.SkipList.FindGreaterOrEqual` | db/skiplist.h:276-300 | Returns the least node at or after the key, or null, and on every used level the last node before the key; terminates by (level, nodes remaining) |
| `SkipLists.SkipList.FindLessThan` | db/skiplist.h:304-328 | Returns the last node before the key, or the head |
| `SkipLists.SkipList.FindLast` | db/skiplist.h:331-349 | Returns the last node, or the head of an empty list |
| `SkipLists.SkipList.Insert` | db/skiplist.h:364-402 | For every height in 1..12 keeps the tower invariant and adds exactly the key |
| `SkipLists.SkipList.LinkNode` | db/skiplist.h:394-401 | The bottom-up linking loop ends with the node linked on all its levels and its key added |
| `SkipLists.SkipList.Contains` | db/skiplist.h:404-413 | True exactly when an equal key is in the set of inserted keys |
| `SkipLists.SkipList.constructor` | db/skiplist.h:351-361 | A new list is empty |
| `SkipLists.Iterator.Seek` | db/skiplist.h:231-233 | Rests on the least key at or after the target, or is invalid when there is none |
| `SkipLists.Iterator.SeekToFirst` | db/skiplist.h:236-238 | Rests on the least key of the set, or is invalid when it is empty |
| `SkipLists.Iterator.SeekToLast` | db/skiplist.h:241-246 | Rests on the greatest key of the set, or is invalid when it is empty |
| `SkipLists.Iterator.Next` | db/skiplist.h:214-217 | Rests on the least key after the current one, or becomes invalid |
| `SkipLists.Iterator.Prev` | db/skiplist.h:220-228 | Rests on the greatest key before the current one, or becomes invalid |
| `MemTables.MemTable.Add` | db/memtable.cpp:81-117 | The records are the old ones and the new one, and the skip list holds exactly their encodings |
| `MemTables.MemTable.Get` | db/memtable.cpp:119-154 | Over every user comparator, at a snapshot: the value of the user key's first visible entry in descending (sequence, type) order, NotFound when that is a deletion, false when there is none |
| `MemTables.AnswerIsUnique` | db/memtable.cpp:119-154 | The records determine that answer |
| `MemTables.SeekDecides` | db/memtable.cpp:119-139 | The first entry not before the lookup key is the newest visible one, or has another user key and then none is visible |
| `MemTables.ReadingAnswers` | db/memtable.cpp:119-154 | Wherever Seek of the lookup key lands, Get's reading of that entry is the answer for the records in the list |
| `MemTableConcurrent.GetIsLinearizable` | db/memtable.cpp:119-154 | In every run, a Get that overlaps any steps of any Adds answers for the records visible at its last load, among them all that were visible when it began |
| `MemTables.TakesApart` | db/memtable.cpp:81-115 | Taking apart the bytes that Add writes gives back user key, sequence number, type and value |
| `MemTables.EntryLessOrders` | db/memtable.cpp:29-34 | Over every user comparator, the memtable comparator is a strict weak order on all buffers, as the skip list demands |
| `MemTables.BufferCodecIsLawful` | db/memtable.cpp:29-115 | Over every user comparator, the program's comparator orders encoded entries, and the lookup key among them, by user key and then newest first, and its decoding inverts its encoding |
| `DbFormat.ParseRoundTrip` | db/dbformat.h:179-189 | Parsing the internal key of any user key, sequence number up to 2^56 - 1 and type gives them back |
| `DbFormat.ParsesExactly` | db/dbformat.h:179-189 | Exactly the internal keys parse, each as what it was made of: a short key or another type byte does not |
| `DbFormat.InternalOrdered` | db/dbformat.cpp:48-65 | Over every user comparator, the internal key order is a strict weak order |
| `DbFormat.InternalLessIs` | db/dbformat.cpp:48-65 | It compares internal keys by user key and then by descending (sequence, type) |
| `DbFormat.InternalSeparatorBetween` | db/dbformat.cpp:67-84 | Over every lawful user comparator the internal separator is no longer than start, not before it, and before limit if and only if the user comparator does not shorten a user key whose limit is equal to it |
| `DbFormat.SeparatorLeavesBounds` | db/dbformat.cpp:67-84 | The input: a lawful user comparator and one user key at two sequence numbers whose internal separator is not before the limit |
| `DbFormat.InternalSuccessorBehind` | db/dbformat.cpp:86-98 | Over every lawful user comparator the internal successor is not before the key and no longer than it |
| `DbFormat.InternalSeparatorIs` | db/dbformat.cpp:67-84 | Start is replaced if and only if the user comparator makes its user key shorter and moves it back, and then by the first entry that the shorter user key can have |
| `DbFormat.InternalSuccessorIs` | db/dbformat.cpp:86-98 | The same of the successor |
| `DbFormat.InternalSeparatorIsShortest` | db/dbformat.cpp:67-84 | With the bytewise comparator no internal key in [start, limit) has a shorter user key than a shortened separator |
| `DbFormat.InternalShortestSeparator` | db/dbformat.cpp:67-84 | Over every lawful user comparator the method computes that separator, not before start, and before limit under that exact condition |
| `DbFormat.InternalShortSuccessor` | db/dbformat.cpp:86-98 | Over every lawful user comparator the method computes that successor, not before the key |
| `DbFormat.BytewiseIsUserLawful` | util/comparator.cpp:20-63 | The bytewise comparator is such a user comparator |
| `DbFormat.InternalIsLawful` | db/dbformat.cpp:48-98 | Over every lawful user comparator that leaves a key alone when the limit is equal, the internal key comparator is a lawful comparator for tables |
| `Comparators.BytewiseOrdered` | util/comparator.cpp:20-22 | The bytewise order is a strict weak order |
| `Comparators.SeparatorBetween` | util/comparator.cpp:24-49 | The separator lies in [start, limit) whenever start is before limit, and is no longer than start |
| `Comparators.SeparatorShortens` | util/comparator.cpp:24-49 | Start is changed if and only if it and limit first differ where a byte lies strictly between theirs, and is then cut off behind that byte, incremented |
| `Comparators.SeparatorIsShortest` | util/comparator.cpp:24-49 | A changed separator is the least of the shortest: no string in [start, limit) is shorter, and none of its length behind start comes before it |
| `Comparators.SuccessorBehind` | util/comparator.cpp:51-63 | The successor is not before the key and no longer than it |
| `Comparators.SuccessorIsShortest` | util/comparator.cpp:51-63 | The successor leaves exactly the runs of 0xff alone, and else is the least of the shortest strings not before the key, the key itself apart |
| `Comparators.FindShortestSeparator` | util/comparator.cpp:24-49 | The in-place edit yields that separator: the first differing byte plus one, when that stays below limit's byte |
| `Comparators.FindShortSuccessor` | util/comparator.cpp:51-63 | The in-place edit yields that successor: the first byte other than 0xff plus one; a run of 0xff is left alone |
| `Comparators.BytewiseIsLawful` | util/comparator.cpp:20-63 | The bytewise comparator is a lawful comparator for tables |
| `LogWriter.Writer.AddRecord` | db/log_writer.cpp:32-87 | Appends exactly the fragments of the record (one for an empty record), from any file length, and nothing else |
| `LogWriter.Writer.AddFragment` | db/log_writer.cpp:41-84 | One round fills a trailer shorter than a header with zeros and emits as much as fits the block, with the right type |
| `LogWriter.Writer.EmitPhysicalRecord` | db/log_writer.cpp:89-114 | Appends header and payload and advances the block offset by their length |
| `LogWriter.Writer.constructor` | db/log_writer.cpp:24-27 | A writer reopened on a file continues at its length modulo the block size |
| `LogFormat.FragmentsChain` | db/log_writer.cpp:41-85 | The fragments of a record follow one another without overlap |
| `LogFormat.EmittedHolds` | db/log_writer.cpp:32-114 | What AddRecord appends holds every fragment at the place the layout gives it |
| `LogFormat.AppendKeepsLog` | db/log_writer.cpp:24-87 | A log of some records with one more record written, by this writer or a reopened one, is a log of one record more |
| `LogFormat.CrcFramingIsSound` | db/log_writer.cpp:89-114 | The program's header carries length and type, and its masked CRC passes the reader's check |
| `LogReader.Reader.ReadPhysicalRecord` | db/log_reader.cpp:216-310 | The buffered block-wise reader returns type, fragment, position and reported drop of the physical record at its position in the file |
| `LogReader.Reader.ParseBuffered` | db/log_reader.cpp:251-308 | The checks in order: length beyond the block, zero record, checksum, start before the initial offset |
| `LogReader.Reader.LoadBlock` | db/log_reader.cpp:218-239 | Loading the next block skips a trailer and changes nothing about the next physical record |
| `LogReader.Reader.SkipToInitialBlock` | db/log_reader.cpp:32-61 | Positions the reader at the first block that can hold a record at or after the initial offset |
| `LogReader.Reader.Handle` | db/log_reader.cpp:106-196 | The switch on the record type, with fragment assembly and reports |
| `LogReader.Reader.Resolve` | db/log_reader.cpp:90-104 | While resynchronizing, middle fragments and one last fragment are skipped silently |
| `LogReader.Reader.ReadRecord` | db/log_reader.cpp:63-199 | Each call returns the first of the records that the remaining file yields, with its offset as LastRecordOffset, until none is left; the reports are exactly those of the state machine; a call that returns false is at the end of the file, where every further call returns false and reports nothing, unless an intact record with type byte 5 lies on the way, and then it stands right behind that record |
| `LogReader.StopsExactly` | db/log_reader.cpp:170-177 | A run of the reader ends at the end of the file if and only if it meets no complete, undamaged record at or after the initial offset with type byte 5, and otherwise ends at that record |
| `LogTorn.LogReads` | db/log_reader.cpp:63-199 | Crash safety and initial offset: of a log cut off after any number of bytes, a reader opened at any offset returns, in order and byte for byte, exactly the records that lie wholly within the kept bytes and whose first fragment starts at or after the offset, with that start as LastRecordOffset; from offset 0 nothing is reported, and from other offsets LogReports.LogReportsAre says what is |
| `LogTorn.TornLogReads` | db/log_reader.cpp:106-177 | A log in which the writer died after some fragments of any of the records and was reopened: a reader of any first bytes of it, from any offset, returns exactly the records written whole within them that start at or after the offset, with their starts, and none of the torn ones' bytes; from offset 0 it reports exactly the payload lengths of the torn records that another record follows; and it reads to the end of the file |
| `LogTorn.FinalStep` | db/log_reader.cpp:107-160 | The last fragment of a record delivers that record without anything that a torn record before it left in the scratch, and reports that |
| `LogTorn.DyingKeepsLog` | db/log_writer.cpp:24-87 | A writer opened on such a log that dies after k fragments of a record leaves such a log, with one piece more |
| `LogReports.LogReportsAre` | db/log_reader.cpp:90-104 | The reports of a reader of any first bytes of a log from any offset: the payload lengths of what remains, in the file, of the record that the offset cuts in the block where reading starts; and reading stops at the end of the file, as no type byte 5 is met |
| `LogReports.SilentExactly` | db/log_reader.cpp:90-104 | Nothing is reported if and only if no unfinished fragment starts in the initial block before the offset with the next fragment in the file |
| `LogReports.InitialBoundary` | db/log_reader.cpp:32-61 | Reading starts at the block that the offset is in, or at the next one when it lies in the last five bytes of its block |
| `LogReports.OffsetOneReports` | db/log_reader.cpp:297-303 | One undamaged record over two blocks, read from offset 1: nothing is returned and its second fragment is reported |
| `LogReports.TypeFiveStops` | db/log_reader.cpp:170-177 | A physical record with type byte 5 is taken for the end of the file: ReadRecord returns false with a whole record still ahead |
| `LogReports.UnknownTypeStep` | db/log_reader.cpp:170-196 | What an intact record of an unknown type does in any state: type byte 5 ends the reading, type byte 6 drops the record in progress and reports only that, every other one is reported with its payload and the record in progress |
| `LogReports.UnknownTypeReported` | db/log_reader.cpp:170-196 | Alone in a file, an intact record of an unknown type is reported if and only if its type byte is neither 5 nor 6 and it is not an empty record of type 0 |
| `LogReader.ReadsIntact` | db/log_reader.cpp:251-308 | An undamaged physical record of any type is read as it was written, or as a bad record when it starts before the initial offset |
| `LogReader.ReadsTruncated` | db/log_reader.cpp:241-269 | A physical record cut off by the end of the file reads as the end of the file, without a report |
| `LogRoundTrip.WriteLog` | db/log_writer.cpp:24-87 | A writer reopened on the file any number of times leaves a log of exactly the records |
| `LogRoundTrip.ReadLog` | db/log_reader.cpp:63-199 | Calling ReadRecord until it returns false yields all that the state machine delivers and reports, and leaves the reader at the end of the file unless an intact record with type byte 5 is met; then it stands right behind that record |
| `LogRoundTrip.ReadPastEnd` | db/log_reader.cpp:170-177 | At the end of the file any number of further calls return false and report nothing |
| `LogRoundTrip.AllExpected` | db/log_reader.cpp:63-199 | Of a whole log read from its beginning every record is expected, in order |
| `LogRoundTrip.WriteCrashRead` | db/log_reader.cpp:63-199 | End to end: any records, reopenings, number of bytes kept and initial offset; exactly the whole records in the kept bytes come back, all of them when nothing was lost; exactly the rest of a record that the offset cuts is reported; and later calls find nothing |
| `LogRoundTrip.WriteTorn` | db/log_writer.cpp:24-87 | A run in which the writer is opened anew for each record and dies after any number of its fragments leaves exactly those pieces |
| `LogRoundTrip.WriteTornRead` | db/log_reader.cpp:63-199 | End to end: any records torn after any fragment, any number of bytes kept, any initial offset: exactly the whole records come back, and from offset 0 the torn ones that another follows are reported |
| `LogCorruption.CorruptionNeverJoins` | db/log_reader.cpp:106-196 | In a log damaged, cut off, or both, if every altered physical record fails a check, the records returned are a subsequence of those written, each intact: a first fragment is never completed by another record's fragments; LogDamage says which damage fails a check |
| `LogCorruption.CutIsDetectable` | db/log_reader.cpp:241-269 | Cutting a log off anywhere is damage of that kind |
| `LogCorruption.RejectedStep` | db/log_reader.cpp:257-293 | A refused physical record drops the rest of its block and any record in progress, or ends the file |
| `LogDamage.ChecksumDecides` | db/log_reader.cpp:280-310 | With checksums verified, a complete record whose stored word does not match is never delivered, and the rest of its block is reported |
| `LogDamage.DeliversExactly` | db/log_reader.cpp:280-310 | With the program's checksum, a complete record is delivered if and only if its bytes are those that the writer emits for its type and payload; else the rest of its block is reported |
| `LogDamage.WrongChecksumStep` | db/log_reader.cpp:280-293 | What a wrong checksum does in any state: the rest of the block and any record in progress are dropped and reported, unless they begin before the initial offset |
| `LogDamage.WrongLengthStep` | db/log_reader.cpp:257-269 | A length beyond the block does the same, or ends the file when the file ends in that block |
| `LogDamage.ZeroRecordStep` | db/log_reader.cpp:271-278 | A record of type 0 and length 0 drops the rest of the block without a report of its own |
| `LogDamage.StruckIsRejected` | db/log_reader.cpp:280-293 | A record changed within four consecutive bytes of its type and payload, a flipped bit for one, or only in its stored checksum, is refused |
| `LogDamage.DamageNeverJoins` | db/log_reader.cpp:63-199 | A log in which any records are damaged in that way and which is cut off anywhere: the records returned are some of those written, each intact and in order |
| `Coding.Fixed32RoundTrip` | util/coding.cpp:5-15 | Decoding inverts the four-byte encoding of every 32-bit value, whatever follows |
| `Coding.Fixed64RoundTrip` | util/coding.cpp:17-31 | Decoding inverts the eight-byte encoding of every 64-bit value, whatever follows |
| `Coding.Fixed32Onto` | util/coding.cpp:5-15 | Every four bytes are the encoding of what they decode to |
| `Coding.LittleEndian` | util/coding.cpp:5-31 | The byte order of both fixed encodings and of a two-byte varint |
| `Coding.VarintRoundTrip` | util/coding.cpp:92-102 | Decoding a varint gives back the value and its exact length, within k bytes for values of k digits |
| `Coding.DecodesExactly` | util/coding.cpp:125-174 | Of any bytes: the first of the first k without the continuation bit ends the varint, whose digits are the low seven bits up to there; without one there is none |
| `Coding.EncodeVarint32` | util/coding.cpp:45-83 | The unrolled 32-bit encoder writes the bytes of the general loop |
| `Coding.EncodeVarint64` | util/coding.cpp:92-102 | The loop writes the base-128 digits of the value |
| `Coding.VarintLength` | util/coding.cpp:116-123 | The length of the varint of the value |
| `Coding.GetVarint32Loop` | util/coding.cpp:125-143 | The shifting loop yields the value modulo 2^32 and the length, or fails when no byte ends the varint in time |
| `Coding.GetVarint64Loop` | util/coding.cpp:158-174 | The shifting loop yields the value modulo 2^64 and the length, or fails when no byte ends the varint in time |
| `Coding.GetVarint32Ptr` | util/coding.h:79-90 | The inline fast path agrees with the loop |
| `Coding.GetVarint64Ptr` | util/coding.cpp:158-174 | Reads at most ten bytes |
| `Coding.Varint32RoundTrip` | util/coding.cpp:45-143 | Every 32-bit value takes at most five bytes and is read back with exactly its length, whatever follows |
| `Coding.Varint64RoundTrip` | util/coding.cpp:92-174 | Every 64-bit value takes at most ten bytes and is read back with exactly its length, whatever follows |
| `Crc32c.Extend` | util/crc32c.cpp:270-371 | For every buffer, length and address alignment, the four-stride form equals folding the one-byte step over the buffer |
| `Crc32c.Rotate` | util/crc32c.cpp:343-352 | Advancing one stride by a word and rotating the four strides feeds that word to the combined register |
| `Crc32c.FourRotations` | util/crc32c.cpp:296-304 | A 16-byte swath is four such rotations |
| `Crc32c.StrideStepIs` | util/crc32c.cpp:287-294 | The four stride table lookups advance a partial result by sixteen zero bytes |
| `Crc32c.TableStepIsRegister` | util/crc32c.cpp:280-285 | The byte table lookup is one step of the register |
| `Crc32c.Linear16` | util/crc32c.cpp:287-294 | Advancing by sixteen zero bytes is linear over exclusive or |
| `Crc32c.Swaths` | util/crc32c.cpp:338-341 | The 16-byte loop keeps the combination of the strides equal to the bytewise register |
| `Crc32c.Words` | util/crc32c.cpp:343-352 | The word loop with rotation keeps that equality |
| `Crc32c.Combined` | util/crc32c.cpp:354-359 | Combining the four strides |
| `Crc32c.FeedBytes` | util/crc32c.cpp:362-365 | The one-byte loop |
| `Crc32c.PolynomialSteps` | util/crc32c.cpp:280-285 | Eight shifts by the reflected polynomial 0x82f63b78 form such a register |
| `Crc32cVectors.ByteTable` | util/crc32c.cpp:14-57 | The byte table at the eight powers of two; by linearity this is all of it |
| `Crc32cVectors.TestBuffer` | util/crc32c.cpp:260-268 | The checksum of TestCRCBuffer is 0xdcbc59fa |
| `Crc32cVectors.MaskIs` | util/crc32c.h:24-31 | Mask as 32-bit arithmetic: a rotation right by 15 bits and the addition of 0xa282ead8 |
| `Crc32cDetection.DentIsSeen` | util/crc32c.h:19-20 | Two strings of one length that differ, and only within four consecutive bytes, have different checksums |
| `Crc32cDetection.OneByteDents` | util/crc32c.h:19-20 | Any change of one byte is such a difference |
| `Crc32cDetection.MaskIsOnto` | util/crc32c.h:24-38 | Mask inverts Unmask on every 32-bit word, so that a stored word stands for one checksum only |
| `Crc32c.ExtendComposes` | util/crc32c.h:14-20 | Extending by a and then by b is extending by their concatenation |
| `Crc32c.UnmaskInvertsMask` | util/crc32c.h:24-38 | Unmask inverts Mask on every 32-bit word |
| `EntryCodec.FastPathAgrees` | table/block.cpp:62-76 | The three-byte fast path of DecodeEntry agrees with its slow path |
| `EntryCodec.DecodesEntry` | table/block.cpp:58-82 | DecodeEntry reads back the three lengths of an encoded entry, whatever follows it, and behind them lie the unshared key bytes and the value |
| `EntryCodec.AcceptsExactly` | table/block.cpp:58-82 | Of any bytes: an entry is accepted if and only if three lengths decode and the key bytes and value fit behind them, as long as their sum is a 32-bit number |
| `EntryCodec.VarintCodecIsSound` | table/block.cpp:58-82 | The program's entry encoding and decoding fulfil all that blocks rely on |
| `BlockBuilders.BlockBuilder.Add` | table/block_builder.cpp:69-109 | The block holds one entry more; it shares the longest common prefix with the previous key, except at a restart after every interval |
| `BlockBuilders.LayoutIsUnique` | table/block_builder.cpp:69-109 | The entries and the restart interval determine where restarts are and how many bytes each key shares, and so every byte of the block |
| `BlockBuilders.BlockBuilder.EstimateIs` | table/block_builder.cpp:53-57 | CurrentSizeEstimate is the size of the block that Finish would return |
| `BlockBuilders.BlockBuilder.Finish` | table/block_builder.cpp:59-67 | The bytes are the entries, the restart array and its length |
| `BlockBuilders.BlockBuilder.Reset` | table/block_builder.cpp:44-51 | The builder is empty again |
| `BlockReading.ContentsReadable` | table/block_builder.cpp:59-67 | In the bytes of a finished block, every entry decodes at its offset and every restart point is the offset of an entry that shares nothing |
| `BlockIterators.NewIterator` | table/block.cpp:21-38 | A new iterator over a finished block is a cursor over the entries that were added |
| `BlockIterators.Iter.Seek` | table/block.cpp:201-240 | Moves the cursor to the first entry whose key is not before the target, by binary search over the restart points |
| `BlockIterators.Iter.SearchRestarts` | table/block.cpp:204-228 | All entries before the restart point found are before the target |
| `BlockIterators.Iter.Next` | table/block.cpp:164-167 | Moves the cursor to the next entry |
| `BlockIterators.Iter.Prev` | table/block.cpp:175-194 | Moves the cursor to the previous entry, or makes it invalid at the first |
| `BlockIterators.Iter.SeekToFirst` | table/block.cpp:242-245 | Moves the cursor to the first entry |
| `BlockIterators.Iter.SeekToLast` | table/block.cpp:247-252 | Moves the cursor to the last entry |
| `BlockIterators.Iter.ParseNextKey` | table/block.cpp:263-294 | Rebuilds the next key from its shared prefix, or ends at the restart array |
| `BlockIterators.Iter.ParseEntry` | table/block.cpp:275-287 | Decodes one entry; a bad header or an impossible prefix is a corruption |
| `BlockIterators.Iter.RestartKey` | table/block.cpp:208-217 | In a finished block, the key of the entry at the restart point; None, a corruption, for a bad header or a key not stored in full |
| `BlockIterators.Iter.Value` | table/block.cpp:155-162 | key() and value() are those of the cursor's entry |
| `Merger.MergingIterator.Next` | table/merger.cpp:55-79 | Rests on the first element beyond the current one, or after a turn on the first with a greater key; this is the cursor's Next over the sorted union if and only if it does not turn or no later child holds the current key, and always when keys are distinct across children |
| `Merger.MergingIterator.Prev` | table/merger.cpp:81-109 | Rests on the last element ahead of the current one, or after a turn on the last with a smaller key; this is the cursor's Prev over the sorted union if and only if it does not turn or no earlier child holds the current key, and always when keys are distinct across children |
| `Merger.MergingIterator.Seek` | table/merger.cpp:47-53 | The cursor's Seek over the sorted union, duplicates included |
| `Merger.MergingIterator.SeekToFirst` | table/merger.cpp:31-37 | The cursor's SeekToFirst over the sorted union |
| `Merger.MergingIterator.SeekToLast` | table/merger.cpp:39-45 | The cursor's SeekToLast over the sorted union |
| `Merger.MergingIterator.FindSmallest` | table/merger.cpp:152-168 | Picks the child with the least key, the first of equals |
| `Merger.MergingIterator.FindLargest` | table/merger.cpp:170-184 | Picks the child with the greatest key, the last of equals |
| `Merger.MergingIterator.TurnForward` | table/merger.cpp:63-75 | Positions every other child on its first entry after the current key |
| `Merger.MergingIterator.TurnBackward` | table/merger.cpp:89-105 | Positions every other child on its last entry before the current key |
| `Merger.TurnForwardExact` | table/merger.cpp:63-75 | Turning forward skips no element if and only if no later child holds the current key |
| `Merger.TurnBackwardExact` | table/merger.cpp:89-105 | Turning backward skips no element if and only if no earlier child holds the current key |
| `Merger.TurnForwardSkips` | table/merger.cpp:55-79 | Two children with the same single key: SeekToLast, Prev and Next end the iteration with an element still ahead |
| `Merger.TurnBackwardSkips` | table/merger.cpp:81-109 | Two children with the same single key: SeekToFirst, Next and Prev end the iteration with an element still behind |
| `Merger.UnionExists` | table/merger.cpp:10-21 | The children have a sorted union: every entry of every child once, in order of key and child |
| `Merger.CurrentIsCursor` | table/merger.cpp:111-119 | key() and value() are those of the cursor over the union |
| `Merger.DistinctTurns` | table/merger.cpp:55-109 | With keys distinct across children no turn skips an element, so that Next and Prev are always the cursor's Next and Prev over the sorted union |
| `Merger.ScanForward` | table/merger.cpp:31-79 | A forward scan yields every element of every child exactly once, in order, duplicates included |
| `Merger.ScanBackward` | table/merger.cpp:39-109 | A backward scan yields every element of every child exactly once, in reverse order, duplicates included |
| `TwoLevelIterators.TwoLevelIterator.Seek` | table/two_level_iterator.cpp:91-96 | With separating index keys, moves to the first entry of the concatenated blocks not before the target |
| `TwoLevelIterators.TwoLevelIterator.SeekToFirst` | table/two_level_iterator.cpp:98-103 | Moves to the first entry of the concatenation |
| `TwoLevelIterators.TwoLevelIterator.SeekToLast` | table/two_level_iterator.cpp:105-110 | Moves to the last entry of the concatenation |
| `TwoLevelIterators.TwoLevelIterator.Next` | table/two_level_iterator.cpp:112-116 | Moves to the next entry of the concatenation, over any run of empty blocks |
| `TwoLevelIterators.TwoLevelIterator.Prev` | table/two_level_iterator.cpp:118-122 | Moves to the previous entry of the concatenation, over any run of empty blocks |
| `TwoLevelIterators.TwoLevelIterator.SkipEmptyDataBlocksForward` | table/two_level_iterator.cpp:124-139 | Terminates at the same position of the concatenation, on an entry or at the end |
| `TwoLevelIterators.TwoLevelIterator.SkipEmptyDataBlocksBackward` | table/two_level_iterator.cpp:141-152 | Terminates on the last entry before the block it left, or at the end |
| `TwoLevelIterators.TwoLevelIterator.InitDataBlock` | table/two_level_iterator.cpp:159-182 | The open block is the one the index stands at, reused when the handle is the same |
| `TwoLevelIterators.SeekInBlock` | table/two_level_iterator.cpp:89-96 | Seeking in the one block the index names finds the first entry of the whole concatenation |
| `Bloom.CreateFilter` | util/bloom.cpp:31-66 | Appends the filter of the keys: zero bytes with every key's probes set, and the probe count |
| `Bloom.KeyMayMatch` | util/bloom.cpp:68-92 | The method answers as MatchesExactly and MayMatchIs say |
| `Bloom.KeysSet` | util/bloom.cpp:46-65 | The bits set are exactly the probes of the keys |
| `Bloom.MatchesExactly` | util/bloom.cpp:31-92 | For up to 30 probes, a key may match the filter of some keys if and only if each of its probes (h + j * delta) mod 2^32 mod bits is a probe of one of them |
| `Bloom.MayMatchIs` | util/bloom.cpp:68-92 | Of any bytes as a filter: fewer than two match nothing, a probe count above 30 matches everything, and else the bits of all probes have to be set |
| `Bloom.DeltaRotates` | util/bloom.cpp:47-51 | Delta is the hash rotated left by 15 bits |
| `Bloom.NoFalseNegatives` | util/bloom.cpp:31-92 | A key in the list always matches, for every hash function and every probe count |
| `FilterBlocks.BloomIsLawful` | util/bloom.cpp:31-92 | The bloom policy admits every key it was created from |
| `FilterBlocks.InternalIsLawful` | db/dbformat.cpp:104-117 | The policy on user keys over a lawful policy is lawful on internal keys |
| `FilterBlocks.FilterBlockBuilder.StartBlock` | table/filter_block.cpp:16-24 | Makes filters up to the 2 KiB bucket of the offset, and keeps every key in the group of its bucket |
| `FilterBlocks.FilterBlockBuilder.AddKey` | table/filter_block.cpp:26-30 | The key belongs to the current offset's bucket |
| `FilterBlocks.FilterBlockBuilder.GenerateFilter` | table/filter_block.cpp:55-80 | The collected keys, cut out of their flattened form, become one filter, empty for no keys, and its offset is recorded |
| `FilterBlocks.FilterBlockBuilder.Keys` | table/filter_block.cpp:63-71 | The keys cut out of the flattened string are the keys added |
| `FilterBlocks.FilterBlockBuilder.Finish` | table/filter_block.cpp:32-53 | The bytes are filters, offset array, its offset and the base; each filter is made of exactly the keys added under offsets of its bucket; and every key added under an offset may match at that offset, for every lawful policy |
| `FilterBlocks.AddedKeyMayMatch` | table/filter_block.cpp:82-116 | A key of the group of a bucket may match at every offset of that bucket |
| `FilterBlocks.BucketDecides` | table/filter_block.cpp:101-116 | Exactly: at an offset beyond the last filter every key may match, and else the filter of the keys added in its bucket decides |
| `FilterBlocks.BloomBlockExactly` | table/filter_block.cpp:101-116 | With the bloom policy a key is ruled out at an offset exactly when no key was added in its bucket or one of its probes is no probe of such a key |
| `FilterBlocks.MalformedMatches` | table/filter_block.cpp:82-116 | Errors are potential matches: a block too short, or with its array behind its end, rules nothing out |
| `FilterBlocks.FramedOpen` | table/filter_block.cpp:82-99 | The reader's constructor finds the offset array and the number of filters |
| `FilterBlocks.FramedWord` | table/filter_block.cpp:101-106 | Word i of the array is where filter i starts, and the word behind the array where the filters end |
| `HandleTables.HandleTable.FindPointer` | util/cache.cpp:118-125 | The slot of the entry with this hash and key, or the last slot of its chain; the entry found is the map's |
| `HandleTables.HandleTable.Lookup` | util/cache.cpp:73-75 | The map's handle for the hash and key, or null |
| `HandleTables.HandleTable.Insert` | util/cache.cpp:77-96 | The map with the entry put under its hash and key; returns the one it replaced; elems_ stays the size of the map, and within the number of buckets |
| `HandleTables.HandleTable.Remove` | util/cache.cpp:98-106 | The map without the hash and key; returns the entry removed; elems_ stays the size of the map |
| `HandleTables.HandleTable.Resize` | util/cache.cpp:127-178 | The same map in a power-of-two number of buckets, at least as many as entries; all entries are moved and counted |
| `HandleTables.HandleTable.MoveBucket` | util/cache.cpp:158-172 | Rehashing one bucket moves each of its entries to the front of its new chain |
| `HandleTables.MovedAll` | util/cache.cpp:151-174 | After all buckets the new chains hold exactly the map |
| `HandleTables.SearchDecides` | util/cache.cpp:118-125 | A search of one chain settles whether the hash and key are in the map |
| `HandleTables.OwnedInMap` | util/cache.cpp:111-113 | The handles in the chains are exactly the values of the map |
| `LruCaches.LRUCache.Insert` | util/cache.cpp:279-312 | Replaces any entry with the same hash and key, makes the new one the newest, and evicts: what stays is the reference eviction's list, fits the capacity, or is empty |
| `LruCaches.LRUCache.Evict` | util/cache.cpp:303-309 | Evicts the least recently used entries, and only while usage exceeds capacity |
| `LruCaches.LRUCache.EvictOldest` | util/cache.cpp:305-308 | The first entry by time of last Insert or Lookup leaves list and table, and the cache's reference to it goes |
| `LruCaches.KeptIsLongestThatFits` | util/cache.cpp:303-309 | The list left is the longest run of newest entries that fits beside the entries clients hold, or empty if even those do not fit |
| `LruCaches.LRUCache.Lookup` | util/cache.cpp:263-272 | Returns the table's entry, gives the client a reference and makes the entry the newest |
| `LruCaches.LRUCache.Release` | util/cache.cpp:274-277 | One client reference goes; the deleter runs exactly when it was the last one and the entry is no longer in the cache |
| `LruCaches.LRUCache.Erase` | util/cache.cpp:314-321 | The hash and key leave the table, and the entry the list; clients keep what they hold |
| `LruCaches.LRUCache.Unref` | util/cache.cpp:238-247 | At zero references the charge is given back and the deleter runs, and only then; usage_ stays the charge of all undeleted entries |
| `LruCaches.LRUCache.Destroy` | util/cache.cpp:229-236 | With no handle outstanding, every entry ever created has been deleted exactly once and usage_ is 0 |
| `LruCaches.Unlink` | util/cache.cpp:249-252 | LRU_Remove: the circular list without the entry |
| `LruCaches.Append` | util/cache.cpp:254-261 | LRU_Append: the circular list with the entry as the newest |
| `LruCaches.ChargesSplit` | util/cache.cpp:238-247 | The total charge splits off any entry |
| `LruCaches.LRUCache.constructor` | util/cache.cpp:223-227 | A new cache is empty and its list a circle of the dummy head |
| `TableFormat.HandleRoundTrip` | table/format.cpp:11-27 | Decoding inverts the encoding of every block handle, within 20 bytes, whatever follows |
| `TableFormat.FooterRoundTrip` | table/format.cpp:29-61 | The footer of any two handles takes 48 bytes and decodes to them |
| `TableFormat.MagicIs` | table/format.cpp:29-39 | The last eight bytes are the 64-bit magic number, low byte first |
| `TableFormat.CrcTrailerMatches` | table/table_builder.cpp:208-213 | The stored checksum of block and type byte passes the reader's check |
| `TableFormat.VarintFormatIsSound` | table/format.cpp:11-96 | The program's handles, footers and block trailers are all read back |
| `TableFormat.StoredIsRead` | table/format.cpp:63-141 | A block stored raw at a handle is read back, with checksums verified or not |
| `TableDamage.VerifiedExactly` | table/format.cpp:63-141 | With checksums verified, a block is read if and only if it stands there as the builder stores it, with its type byte and checksum |
| `TableDamage.UnverifiedExactly` | table/format.cpp:63-141 | Without, if and only if it lies there with type byte 0 and the file has the trailer's bytes |
| `TableDamage.OtherTypeIsRefused` | table/format.cpp:100-138 | A block with another type byte is never read |
| `TableDamage.DamageIsRefused` | table/format.cpp:86-97 | A stored block changed within four consecutive bytes of it and its type byte, a flipped bit for one, or only in its checksum, is not read |
| `TableDamage.MagicExactly` | table/format.cpp:41-50 | The footer's test passes for exactly the magic number |
| `TableBuilders.TableBuilder.constructor` | table/table_builder.cpp:49-70 | A new builder has no entries, and the filter starts at offset 0 |
| `TableBuilders.TableBuilder.Add` | table/table_builder.cpp:94-136 | For a key after the last: one entry more, all written and pending state in step; the data block with it is written exactly when it has reached the block size |
| `TableBuilders.TableBuilder.AddIndexEntry` | table/table_builder.cpp:115-122 | A deferred index entry gets the separator of its block's last key and the key to come, in [last key, key to come) and after all index keys |
| `TableBuilders.TableBuilder.Flush` | table/table_builder.cpp:138-157 | The current data block, if not empty, is one block more in the file, its index entry pending, the filter started at the next offset; the entries are unchanged |
| `TableBuilders.TableBuilder.WriteRawBlock` | table/table_builder.cpp:199-219 | The block, its type byte and checksum are at the end of the file, the handle names the place, the offset is the file's length |
| `TableBuilders.TableBuilder.WriteFilter` | table/table_builder.cpp:234-239 | The filter block in the file admits every key of every data block at that block's offset |
| `TableBuilders.TableBuilder.WriteMeta` | table/table_builder.cpp:243-256 | The metaindex block in the file maps the policy's name to the filter block, or is empty |
| `TableBuilders.TableBuilder.CloseIndex` | table/table_builder.cpp:259-266 | The last index entry, with a key not before the last key of all, completes the index |
| `TableBuilders.TableBuilder.Finish` | table/table_builder.cpp:226-283 | The file is a table of exactly the entries added, and every key of its index block is stored in full |
| `TableImages.PrimeStep` | table/table_builder.cpp:115-122 | Index keys stay strictly increasing and separate the blocks when a separator in [last key, next key) is added |
| `TableImages.AppendStep` | table/table_builder.cpp:128-130 | Appending a greater key keeps every earlier index key before it |
| `TableImages.FlushStep` | table/table_builder.cpp:138-153 | Writing the data block adds its run of entries to the blocks in the file |
| `TableImages.CompleteSeparates` | table/table_builder.cpp:33-42 | In a finished table the blocks that the index names concatenate to the entries, every index key is not before its block's keys and before all later keys, and index keys are strictly increasing |
| `TableImages.ContentsScan` | table/block.cpp:21-38 | Reading a finished block from its first byte yields the entries that were added |
| `Tables.OpensTable` | table/table.cpp:36-141 | On a finished table, Open finds footer, index block, metaindex block and filter block as written |
| `Tables.Open` | table/table.cpp:36-88 | Opening a finished table succeeds with its entries; the filter is used exactly when the table was built under the same policy name |
| `Tables.ReadMeta` | table/table.cpp:90-141 | Finds the filter block through the metaindex, or none when the names differ |
| `Tables.Table.NewIterator` | table/table.cpp:225-229 | An iterator over exactly the entries that were added, with separating index keys |
| `Tables.Table.BlockReader` | table/table.cpp:164-223 | The iterator over the block that an index value names |
| `Tables.Table.Get` | table/table.cpp:231-262 | What InternalGet hands the saver: the first entry not before the key in the one block that the index names, unless the filter rules the key out |
| `Tables.Table.InternalGet` | table/table.cpp:231-262 | With or without the filter: every key added is found with its value; whatever is found is the first entry of the table not before the key; and something is found if and only if the key is in reach of a block and the filter, if used, may match it at that block's offset |
| `Tables.FoundIsFirst` | table/table.cpp:248-252 | What the one block yields is the first entry of the whole table not before the key |
| `Tables.FoundExactly` | table/table.cpp:237-252 | Something is found if and only if some block's last key is not before the key and the index key before that block is |
| `TableDamage.LookupSurvivors` | table/table.cpp:164-262 | In a table whose data blocks are damaged in that way, a verifying lookup finds what it found before, or nothing if the block that the index names is damaged |
| `TableDamage.ScanSurvivors` | table/table.cpp:164-229 | A verifying scan of such a table yields the entries of the blocks that still stand, in order, and no other |
| `TableDamage.IndexDamageIsRefused` | table/table.cpp:36-69 | A table whose index block is damaged in that way is not opened |
| `TableDamage.OtherMagicIsRefused` | table/table.cpp:36-55 | A file without the magic number at its end is not opened |
| `TableDamage.FilterDamageIsRefused` | table/table.cpp:118-141 | A filter block damaged in that way is not used |
| `Tables.GapIsMissed` | table/table.cpp:248-252 | A lookup of an index key strictly between two blocks finds nothing although an entry lies ahead |
| `Tables.LookupOfBMisses` | table/table.cpp:248-252 | The input, as a run of the program's own codecs: keys a and c are added with a Flush between them, the file is finished and opened, and a lookup of b finds nothing although c lies ahead |
| `Tables.LookupBetween` | table/table.cpp:248-252 | The same run for any two keys: every key after the first and not after their separator finds nothing when a Flush comes between them |
| `Tables.KeyIsFound` | table/table.cpp:231-262 | For every key of the table the index names the block that holds it, and the block's Seek lands on it |
| `Tables.Table.ApproximateOffsetOf` | table/table.cpp:264-290 | The offset of the block that the index names for the key, which for a key of the table is the block that holds it; past the last index key, the metaindex block's offset |
| `TableSnapshots.SnapshotGet` | table/table.cpp:231-262 | A table of internal keys read at a snapshot: if the user key has a visible entry, InternalGet of the lookup key hands out the newest one exactly when the filter, if any, admits the lookup key in its block, as every policy on user keys that ignores what the comparator ignores does; if there is none, nothing or an entry of another user key |
| `TableSnapshots.UserIsFound` | table/table.cpp:237-252 | When the first entry not before the lookup key is of its user key, the one block that the index names holds it |
| `TableSnapshots.SeparatorSkipsNoUser` | db/dbformat.cpp:67-84 | No key of the next block's first user key lies between the block's last key and the index key |
| `TableSnapshots.NewestAdmitted` | include/leveldb/filter_policy.h:47-53 | A filter under a policy that cannot tell equal user keys apart admits the lookup key in the block of the newest visible entry |
| `TableSnapshots.BytewiseIsRespected` | include/leveldb/filter_policy.h:47-53 | Every policy is such a policy for the bytewise comparator |
| `TableSnapshots.DisrespectHides` | include/leveldb/filter_policy.h:47-53 | Not every lawful policy is such a policy for every comparator: one that tells equal keys apart rules out a key equal to the one added |
| `TableSnapshots.FirstIsNewest` | db/dbformat.cpp:48-65 | The first entry not before the lookup key is the newest visible one, if any is visible |
| `Tables.ProgramIsSuited` | table/table_builder.cpp:94-136 | The program's codecs fulfil all that tables rely on, with every lawful comparator, and with the internal comparator over every one that leaves a key alone when the limit is equal |
| `Tables.BuildAndOpen` | table/table_builder.cpp:94-283 | End to end: any strictly increasing entries, any placement of Flush, any block size, restart interval and filter policy: the file opens as a table of exactly those entries, where no data block had reached the block size before its last entry, and each but the last has with it unless Flush was called behind it |
| `Arenas.Arena.Allocate` | util/arena.h:46-55 | Hands out one more range, disjoint from all earlier ones and inside one block; what fits the current block is taken from it |
| `Arenas.Arena.AllocateAligned` | util/arena.cpp:39-60 | The same with a start that is a multiple of 8 |
| `Arenas.Arena.AllocateFallback` | util/arena.cpp:16-30 | A large request gets its own block and leaves the current one alone; a small one abandons at most 1030 bytes of the current block |
| `Arenas.Arena.AllocateNewBlock` | util/arena.cpp:32-37 | blocks_memory_ stays the sum of the block sizes |

## Left out

- LogReader.Reader.ReadRecord: says nothing about a call after a type byte 5 stopped the reader before it returned any record from a non-zero initial offset; such a call repositions the file again.
- Tables.Open: is stated for finished tables; the error paths of the footer, of block reads and of handles are in the functions it calls (OpenIndex, ReadBlock, FilterAt, OpenBlock), but an iterator over a corrupt block is not modelled.
- Tables.ReadMeta: is stated for finished tables; a metaindex block that cannot be read or a bad handle gives no filter (FilterAt), but an iterator over a corrupt metaindex block is not modelled.
- Tables.Table.BlockReader: is stated for the index values of a finished table; for any other value OpenBlock says what is opened, up to a corrupt entry.
- Tables.Table.NewIterator: runs the two levels as cursors over entry lists; that a block's iterator is such a cursor is the result of BlockIterators.
- BlockIterators.NewIterator: is stated for finished blocks shorter than 2^32 bytes; the corruption branches of the iterator are modelled in ParseEntry and RestartKey, which are called only on such blocks.
- LogTorn.TornLogReads: the writer dies between two fragments; one that dies within a fragment and is reopened behind it leaves a record whose length covers bytes of the next, of which only the checks of LogDamage are stated.
- LogDamage.DamageNeverJoins: leaves the length bytes of every record alone; a damaged length makes the checksum cover other bytes, for which no checksum gives a guarantee.
- TableBuilders.TableBuilder.Finish: promises a table for files shorter than 2^64 bytes, and reading one back is stated below 2^32 bytes; errors of the underlying file are not modelled.
- SkipListConcurrent.StepKeeps: loads and stores are sequentially consistent; the acquire, release and relaxed orderings are not modelled.
- Skip list heights: any height in 1..12; their distribution is not modelled.
- Crc32c.Extend: the tables are computed from the polynomial and the sixteen-byte advance instead of copied, and hardware acceleration is not modelled.
- Bloom.CreateFilter: the hash is any function to 32-bit words and the probe count any byte; the floating-point choice of the count and false-positive rates are not modelled.
- HandleTables.HandleTable.FindPointer: writes hash & (length - 1) as hash modulo length, which is the same for the power-of-two lengths that Resize keeps.
- The sharding of the cache (ShardedLRUCache) and the use of a block cache in Table::BlockReader: each shard is the modelled cache, and a cached block has the bytes that were read.
- Concurrency of the cache: each locked method is one step.
- Snappy-compressed blocks: only blocks stored raw are modelled; any other type byte is a bad block.
- TableBuilder::ChangeOptions and Abandon.
- Status and cleanup plumbing of iterators, the table cache, file names, loggers, the environments, and the rest of the repository.
