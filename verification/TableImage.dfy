/** What a table file holds (table/table_builder.cpp, table/table.cpp): the data blocks, one
    after the other, each named by the handle of its index entry. */
module TableImages {
  import opened Coding
  import opened Cursors
  import EntryCodec
  import BlockFormat
  import BlockReading
  import BlockBuilders
  import Comparators
  import opened TableFormat
  import TwoLevelIterators
  import FilterBlocks

  // ---- the entries of a block -----------------------------------------------------------

  /** The entry at an offset of a block, behind the key of the entry before it, and where it
      ends; None for a corrupt one. */
  function EntryAt(cd: EntryCodec.Codec, data: bytes, restarts: nat, off: nat, key: bytes): (r: Option<(Entry, nat)>)
    requires off < restarts <= |data|
    ensures r.Some? ==> off < r.value.1 <= restarts
  {
    var d := cd.decode(data[off..restarts]);
    if d.None? || |key| < d.value.shared then None
    else
      var p := off + d.value.size;
      var q := p + d.value.nonShared;
      var next := q + d.value.valueLength;
      if next <= off || next > restarts then None
      else Some((Entry(key[..d.value.shared] + data[p..q], data[q..next]), next))
  }

  /** All entries from there on, up to a corrupt one. */
  function Scan(cd: EntryCodec.Codec, data: bytes, restarts: nat, off: nat, key: bytes): seq<Entry>
    requires restarts <= |data|
    decreases restarts - off
  {
    if off >= restarts then []
    else
      var r := EntryAt(cd, data, restarts, off, key);
      if r.None? then [] else [r.value.0] + Scan(cd, data, restarts, r.value.1, r.value.0.key)
  }

  /** Block::Block and NewIterator, and then all entries of the block. */
  function BlockEntries(cd: EntryCodec.Codec, data: bytes): seq<Entry> {
    if |data| < 4 then []
    else
      var num := DecodeFixed32(data[|data| - 4..]);
      if num == 0 || num > (|data| - 4) / 4 then [] else Scan(cd, data, |data| - (1 + num) * 4, 0, [])
  }

  lemma {:induction false} ScanReads(cd: EntryCodec.Codec, data: bytes, restarts: nat, num: nat, b: BlockFormat.Layout, offs: seq<nat>, i: nat, key: bytes)
    requires BlockReading.Readable(cd, data, restarts, num, b, offs) && i <= |b.entries|
    requires i < |b.entries| ==> b.shared[i] <= |key| && key[..b.shared[i]] == b.entries[i].key[..b.shared[i]]
    ensures Scan(cd, data, restarts, offs[i], key) == b.entries[i..]
    decreases |b.entries| - i
  {
    if i < |b.entries| {
      assert BlockReading.ReadsAt(cd, data, restarts, b, offs, i);
      var e := b.entries[i];
      if i + 1 < |b.entries| {
        assert BlockFormat.SharesPrefix(b, i + 1);
      }
      ScanReads(cd, data, restarts, num, b, offs, i + 1, e.key);
      ScanOne(cd, data, restarts, offs[i], offs[i + 1], b.shared[i], e, key);
    }
  }

  lemma ScanOne(cd: EntryCodec.Codec, data: bytes, restarts: nat, off: nat, next: nat, shared: nat, e: Entry, key: bytes)
    requires shared <= |e.key| && BlockReading.ReadsEntry(cd, data, restarts, off, next, shared, e)
    requires shared <= |key| && key[..shared] == e.key[..shared]
    ensures EntryAt(cd, data, restarts, off, key) == Some((e, next))
  {
    assert e.key[..shared] + e.key[shared..] == e.key;
  }

  /** The bytes of a finished block scan as the entries that were added. */
  lemma ContentsScan(cd: EntryCodec.Codec, b: BlockFormat.Layout)
    requires EntryCodec.Sound(cd) && BlockFormat.WellFormed(b) && |BlockFormat.Contents(cd, b)| < TWO32
    ensures BlockEntries(cd, BlockFormat.Contents(cd, b)) == b.entries
  {
    BlockReading.ContentsReadable(cd, b);
    assert BlockReading.Offsets(cd, b)[0] == 0;
    ReadableScan(cd, BlockFormat.Contents(cd, b), BlockFormat.Offset(cd, b, |b.entries|), |b.starts|, b, BlockReading.Offsets(cd, b));
  }

  lemma ReadableScan(cd: EntryCodec.Codec, data: bytes, restarts: nat, num: nat, b: BlockFormat.Layout, offs: seq<nat>)
    requires BlockReading.Readable(cd, data, restarts, num, b, offs) && offs[0] == 0
    requires DecodeFixed32(data[|data| - 4..]) == num
    ensures BlockEntries(cd, data) == b.entries
  {
    if 0 < |b.entries| {
      assert BlockFormat.SharesPrefix(b, 0);
    }
    ScanReads(cd, data, restarts, num, b, offs, 0, []);
  }

  // ---- the data blocks of a table -------------------------------------------------------

  /** A data block in the file: what it holds, where it lies, and how many of the table's
      entries come before its end. */
  datatype Chunk = Chunk(layout: BlockFormat.Layout, handle: BlockHandle, end: nat)

  ghost function Begin(chunks: seq<Chunk>, i: nat): nat
    requires i <= |chunks|
  {
    if i == 0 then 0 else chunks[i - 1].end
  }

  ghost predicate ChunkAt(fmt: Format, cd: EntryCodec.Codec, file: bytes, entries: seq<Entry>, chunks: seq<Chunk>, i: nat)
    requires i < |chunks|
  {
    var c := chunks[i];
    Begin(chunks, i) < c.end <= |entries|
    && BlockFormat.WellFormed(c.layout) && c.layout.entries == entries[Begin(chunks, i)..c.end]
    && Stored(fmt, file, c.handle, BlockFormat.Contents(cd, c.layout))
  }

  /** The blocks hold consecutive runs of the entries. */
  ghost predicate Chunked(fmt: Format, cd: EntryCodec.Codec, file: bytes, entries: seq<Entry>, chunks: seq<Chunk>) {
    forall i {:trigger ChunkAt(fmt, cd, file, entries, chunks, i)} :: 0 <= i < |chunks| ==>
      ChunkAt(fmt, cd, file, entries, chunks, i)
  }

  /** The key is not before the first `end` entries, and before the others. */
  ghost predicate Splits(lt: KeyLess, key: bytes, entries: seq<Entry>, end: nat) {
    && (forall q :: 0 <= q < end && q < |entries| ==> !lt(key, entries[q].key))
    && (forall q :: end <= q < |entries| ==> lt(key, entries[q].key))
  }

  ghost predicate IndexAt(lt: KeyLess, fmt: Format, entries: seq<Entry>, chunks: seq<Chunk>, index: seq<Entry>, i: nat)
    requires i < |chunks| && i < |index|
  {
    index[i].value == fmt.handle(chunks[i].handle) && Splits(lt, index[i].key, entries, chunks[i].end)
  }

  /** Index entry i names block i, with a key between its last key and the next block's first. */
  ghost predicate Indexes(lt: KeyLess, fmt: Format, entries: seq<Entry>, chunks: seq<Chunk>, index: seq<Entry>) {
    |index| <= |chunks| && forall i {:trigger IndexAt(lt, fmt, entries, chunks, index, i)} :: 0 <= i < |index| ==>
      IndexAt(lt, fmt, entries, chunks, index, i)
  }

  /** A table being built: `tail` are the entries of the current data block, and `pending` says
      that the last block's index entry is still to come. */
  ghost predicate Progressing(fmt: Format, cd: EntryCodec.Codec, lt: KeyLess, file: bytes, entries: seq<Entry>,
                              chunks: seq<Chunk>, index: seq<Entry>, pending: bool, tail: seq<Entry>)
  {
    && Sorted(lt, entries) && Chunked(fmt, cd, file, entries, chunks)
    && Indexes(lt, fmt, entries, chunks, index) && Sorted(lt, index)
    && Begin(chunks, |chunks|) <= |entries| && tail == entries[Begin(chunks, |chunks|)..]
    && |index| + (if pending then 1 else 0) == |chunks|
    && (pending ==> tail == []) && (!pending && chunks != [] ==> tail != [])
  }

  /** The same, with every block in the index and all its keys before the key to come. */
  ghost predicate Indexed(fmt: Format, cd: EntryCodec.Codec, lt: KeyLess, file: bytes, entries: seq<Entry>,
                          chunks: seq<Chunk>, index: seq<Entry>, tail: seq<Entry>, key: bytes)
  {
    && Sorted(lt, entries) && NewKey(lt, entries, key) && Chunked(fmt, cd, file, entries, chunks)
    && |index| == |chunks| && Indexes(lt, fmt, entries, chunks, index) && Sorted(lt, index) && NewKey(lt, index, key)
    && Begin(chunks, |chunks|) <= |entries| && tail == entries[Begin(chunks, |chunks|)..]
  }

  /** Marks where the definitions of Progress and Primed are used, so that the verifier uses
      them nowhere else. */
  ghost predicate UseImage(m: int) { true }

  ghost predicate Progress(fmt: Format, cd: EntryCodec.Codec, lt: KeyLess, file: bytes, entries: seq<Entry>,
                           chunks: seq<Chunk>, index: seq<Entry>, pending: bool, tail: seq<Entry>)
  {
    forall m {:trigger UseImage(m)} :: UseImage(m) ==> Progressing(fmt, cd, lt, file, entries, chunks, index, pending, tail)
  }

  ghost predicate Primed(fmt: Format, cd: EntryCodec.Codec, lt: KeyLess, file: bytes, entries: seq<Entry>,
                         chunks: seq<Chunk>, index: seq<Entry>, tail: seq<Entry>, key: bytes)
  {
    forall m {:trigger UseImage(m)} :: UseImage(m) ==> Indexed(fmt, cd, lt, file, entries, chunks, index, tail, key)
  }

  /** The key comes after the last of these. */
  ghost predicate NewKey(lt: KeyLess, entries: seq<Entry>, key: bytes) {
    entries != [] ==> lt(entries[|entries| - 1].key, key)
  }

  lemma SplitsAll(lt: KeyLess, key: bytes, entries: seq<Entry>)
    requires Ordered(lt) && Sorted(lt, entries) && entries != [] && !lt(key, entries[|entries| - 1].key)
    ensures Splits(lt, key, entries, |entries|)
  {
    var last := entries[|entries| - 1].key;
    forall q | 0 <= q < |entries|
      ensures !lt(key, entries[q].key)
    {
      if lt(key, entries[q].key) && q < |entries| - 1 {
        Transitive(lt, key, entries[q].key, last);
      }
    }
  }

  /** The last index key lies before every key at or after the last entry. */
  lemma IndexKeyGrows(lt: KeyLess, key: bytes, entries: seq<Entry>, end: nat, next: bytes)
    requires Ordered(lt) && Splits(lt, key, entries, end) && end < |entries| && !lt(next, entries[|entries| - 1].key)
    ensures lt(key, next)
  {
    Between(lt, key, entries[|entries| - 1].key, next);
  }

  lemma SplitsMore(lt: KeyLess, key: bytes, entries: seq<Entry>, end: nat, e: Entry)
    requires Splits(lt, key, entries, end) && end <= |entries| && lt(key, e.key)
    ensures Splits(lt, key, entries + [e], end)
  {
  }

  lemma ChunkedMore(fmt: Format, cd: EntryCodec.Codec, file: bytes, more: bytes, entries: seq<Entry>, extra: seq<Entry>, chunks: seq<Chunk>)
    requires Chunked(fmt, cd, file, entries, chunks) && file <= more
    ensures Chunked(fmt, cd, more, entries + extra, chunks)
  {
    forall i | 0 <= i < |chunks|
      ensures ChunkAt(fmt, cd, more, entries + extra, chunks, i)
    {
      assert ChunkAt(fmt, cd, file, entries, chunks, i);
      var c := chunks[i];
      StoredStays(fmt, file, more, c.handle, BlockFormat.Contents(cd, c.layout));
      assert (entries + extra)[Begin(chunks, i)..c.end] == entries[Begin(chunks, i)..c.end];
    }
  }

  lemma ChunkEnds(fmt: Format, cd: EntryCodec.Codec, file: bytes, entries: seq<Entry>, chunks: seq<Chunk>, i: nat, j: nat)
    requires Chunked(fmt, cd, file, entries, chunks) && i < j <= |chunks|
    ensures Begin(chunks, i) < Begin(chunks, j) <= |entries|
    decreases j
  {
    assert ChunkAt(fmt, cd, file, entries, chunks, j - 1);
    if i < j - 1 {
      ChunkEnds(fmt, cd, file, entries, chunks, i, j - 1);
    }
  }

  /** The bytes of a finished block. */
  ghost predicate IsBlock(cd: EntryCodec.Codec, layout: BlockFormat.Layout, block: bytes) {
    forall m {:trigger UseImage(m)} :: UseImage(m) ==> BlockFormat.WellFormed(layout) && block == BlockFormat.Contents(cd, layout)
  }

  // ---- the steps of the builder ---------------------------------------------------------

  /** The index entry of the last block, with any key not before its last key. */
  lemma IndexStep(fmt: Format, cd: EntryCodec.Codec, lt: KeyLess, file: bytes, entries: seq<Entry>,
                  chunks: seq<Chunk>, index: seq<Entry>, tail: seq<Entry>, key: bytes)
    requires Ordered(lt) && Progressing(fmt, cd, lt, file, entries, chunks, index, true, tail)
    requires entries != [] && !lt(key, entries[|entries| - 1].key)
    ensures Indexes(lt, fmt, entries, chunks, index + [Entry(key, fmt.handle(chunks[|chunks| - 1].handle))])
    ensures NewKey(lt, index, key)
  {
    var n := |index|;
    var now := index + [Entry(key, fmt.handle(chunks[n].handle))];
    SplitsAll(lt, key, entries);
    forall i | 0 <= i < |now|
      ensures IndexAt(lt, fmt, entries, chunks, now, i)
    {
      if i < n {
        assert IndexAt(lt, fmt, entries, chunks, index, i);
      }
    }
    if n > 0 {
      assert IndexAt(lt, fmt, entries, chunks, index, n - 1);
      ChunkEnds(fmt, cd, file, entries, chunks, n, n + 1);
      IndexKeyGrows(lt, index[n - 1].key, entries, chunks[n - 1].end, key);
    }
  }

  /** The first entry of a block comes: the index entry of the block before it. */
  lemma PrimeStep(fmt: Format, cd: EntryCodec.Codec, lt: KeyLess, file: bytes, entries: seq<Entry>,
                  chunks: seq<Chunk>, index: seq<Entry>, tail: seq<Entry>, separator: bytes, key: bytes)
    requires Ordered(lt) && Progress(fmt, cd, lt, file, entries, chunks, index, true, tail)
    requires entries != [] && !lt(separator, entries[|entries| - 1].key)
    requires lt(separator, key) && NewKey(lt, entries, key)
    ensures chunks != [] && NewKey(lt, index, separator)
    ensures Primed(fmt, cd, lt, file, entries, chunks, index + [Entry(separator, fmt.handle(chunks[|chunks| - 1].handle))], tail, key)
  {
    assert UseImage(0);
    IndexStep(fmt, cd, lt, file, entries, chunks, index, tail, separator);
    BlockBuilders.SortedAppend(lt, index, Entry(separator, fmt.handle(chunks[|chunks| - 1].handle)));
  }

  /** A pending index entry has a block, and the block an entry. */
  lemma PendingHasEntries(fmt: Format, cd: EntryCodec.Codec, lt: KeyLess, file: bytes, entries: seq<Entry>,
                          chunks: seq<Chunk>, index: seq<Entry>, tail: seq<Entry>)
    requires Progress(fmt, cd, lt, file, entries, chunks, index, true, tail)
    ensures entries != [] && tail == [] && chunks != []
  {
    assert UseImage(0);
    ChunkEnds(fmt, cd, file, entries, chunks, 0, |chunks|);
  }

  /** When no entry waits in the data block, the last block ends all entries. */
  lemma FlushedEnds(fmt: Format, cd: EntryCodec.Codec, lt: KeyLess, file: bytes, entries: seq<Entry>,
                    chunks: seq<Chunk>, index: seq<Entry>, pending: bool)
    requires Progress(fmt, cd, lt, file, entries, chunks, index, pending, []) && entries != []
    ensures chunks != [] && chunks[|chunks| - 1].end == |entries|
  {
    assert UseImage(0);
  }

  /** An entry within a block. */
  lemma ContinueStep(fmt: Format, cd: EntryCodec.Codec, lt: KeyLess, file: bytes, entries: seq<Entry>,
                     chunks: seq<Chunk>, index: seq<Entry>, tail: seq<Entry>, key: bytes)
    requires Ordered(lt) && Progress(fmt, cd, lt, file, entries, chunks, index, false, tail) && NewKey(lt, entries, key)
    ensures Primed(fmt, cd, lt, file, entries, chunks, index, tail, key)
  {
    assert UseImage(0);
    if index != [] {
      var n := |index| - 1;
      assert IndexAt(lt, fmt, entries, chunks, index, n);
      assert !lt(key, entries[|entries| - 1].key);
      IndexKeyGrows(lt, index[n].key, entries, chunks[n].end, key);
    }
  }

  /** An entry behind all keys, once every block has its index entry. */
  lemma AppendStep(fmt: Format, cd: EntryCodec.Codec, lt: KeyLess, file: bytes, entries: seq<Entry>,
                   chunks: seq<Chunk>, index: seq<Entry>, tail: seq<Entry>, e: Entry)
    requires Ordered(lt) && Primed(fmt, cd, lt, file, entries, chunks, index, tail, e.key)
    ensures tail != [] ==> entries != [] && lt(tail[|tail| - 1].key, e.key)
    ensures Progress(fmt, cd, lt, file, entries + [e], chunks, index, false, tail + [e])
  {
    assert UseImage(0);
    BlockBuilders.SortedAppend(lt, entries, e);
    ChunkedMore(fmt, cd, file, file, entries, [e], chunks);
    forall i | 0 <= i < |index|
      ensures IndexAt(lt, fmt, entries + [e], chunks, index, i)
    {
      assert IndexAt(lt, fmt, entries, chunks, index, i);
      if i < |index| - 1 {
        Transitive(lt, index[i].key, index[|index| - 1].key, e.key);
      }
      ChunkEnds(fmt, cd, file, entries, chunks, i, i + 1);
      SplitsMore(lt, index[i].key, entries, chunks[i].end, e);
    }
  }

  /** The current data block goes to the end of the file. */
  lemma FlushStep(fmt: Format, cd: EntryCodec.Codec, lt: KeyLess, file: bytes, entries: seq<Entry>,
                  chunks: seq<Chunk>, index: seq<Entry>, pending: bool, layout: BlockFormat.Layout, block: bytes)
    requires Sound(fmt) && IsBlock(cd, layout, block) && layout.entries != []
    requires Progress(fmt, cd, lt, file, entries, chunks, index, pending, layout.entries)
    ensures Progress(fmt, cd, lt, file + block + fmt.trailer(block), entries,
                     chunks + [Chunk(layout, BlockHandle(|file|, |block|), |entries|)], index, true, [])
  {
    assert UseImage(0);
    var more, now := file + block + fmt.trailer(block), chunks + [Chunk(layout, BlockHandle(|file|, |block|), |entries|)];
    StoredAtEnd(fmt, file, block);
    ChunkedMore(fmt, cd, file, more, entries, [], chunks);
    assert entries + [] == entries;
    forall i | 0 <= i < |now|
      ensures ChunkAt(fmt, cd, more, entries, now, i)
    {
      if i < |chunks| {
        assert ChunkAt(fmt, cd, more, entries, chunks, i);
      } else {
        assert entries[Begin(chunks, |chunks|)..|entries|] == entries[Begin(chunks, |chunks|)..];
      }
    }
    forall i | 0 <= i < |index|
      ensures IndexAt(lt, fmt, entries, now, index, i)
    {
      assert IndexAt(lt, fmt, entries, chunks, index, i);
    }
  }

  // ---- a finished table -----------------------------------------------------------------

  /** Every entry is in a block, and every block in the index. */
  ghost predicate Complete(fmt: Format, cd: EntryCodec.Codec, lt: KeyLess, file: bytes, entries: seq<Entry>,
                           chunks: seq<Chunk>, index: seq<Entry>)
  {
    && Sorted(lt, entries) && Chunked(fmt, cd, file, entries, chunks)
    && Indexes(lt, fmt, entries, chunks, index) && Sorted(lt, index)
    && |index| == |chunks| && Begin(chunks, |chunks|) == |entries|
  }

  /** BlockReader: the entries of the block that an index value names; none if the handle or
      the block is bad. */
  function OpenBlock(fmt: Format, cd: EntryCodec.Codec, file: bytes, verify: bool, value: bytes): seq<Entry> {
    var h := fmt.parseHandle(value);
    if h.None? then []
    else
      var data := ReadBlock(fmt, file, h.value, verify);
      if data.None? then [] else BlockEntries(cd, data.value)
  }

  function Opener(fmt: Format, cd: EntryCodec.Codec, file: bytes, verify: bool): TwoLevelIterators.Opener {
    (value: bytes) => OpenBlock(fmt, cd, file, verify, value)
  }

  lemma OpensChunk(fmt: Format, cd: EntryCodec.Codec, lt: KeyLess, file: bytes, verify: bool, entries: seq<Entry>,
                   chunks: seq<Chunk>, index: seq<Entry>, i: nat)
    requires Sound(fmt) && EntryCodec.Sound(cd) && |file| < TWO32 && i < |index|
    requires Complete(fmt, cd, lt, file, entries, chunks, index)
    ensures fmt.parseHandle(index[i].value) == Some(chunks[i].handle)
    ensures BlockFormat.WellFormed(chunks[i].layout)
    ensures ReadBlock(fmt, file, chunks[i].handle, verify) == Some(BlockFormat.Contents(cd, chunks[i].layout))
    ensures TwoLevelIterators.BlockOf(index, Opener(fmt, cd, file, verify), i) == chunks[i].layout.entries
  {
    assert ChunkAt(fmt, cd, file, entries, chunks, i);
    assert IndexAt(lt, fmt, entries, chunks, index, i);
    var c := chunks[i];
    StoredIsRead(fmt, file, c.handle, BlockFormat.Contents(cd, c.layout), verify);
    ContentsScan(cd, c.layout);
  }

  /** The blocks that the index names are the chunks. */
  ghost predicate Opens(index: seq<Entry>, open: TwoLevelIterators.Opener, chunks: seq<Chunk>) {
    |index| == |chunks| && forall i {:trigger open(index[i].value)} :: 0 <= i < |index| ==>
      open(index[i].value) == chunks[i].layout.entries
  }

  lemma OpensChunks(fmt: Format, cd: EntryCodec.Codec, lt: KeyLess, file: bytes, verify: bool, entries: seq<Entry>,
                    chunks: seq<Chunk>, index: seq<Entry>)
    requires Sound(fmt) && EntryCodec.Sound(cd) && |file| < TWO32
    requires Complete(fmt, cd, lt, file, entries, chunks, index)
    ensures Opens(index, Opener(fmt, cd, file, verify), chunks)
  {
    forall i | 0 <= i < |index|
      ensures Opener(fmt, cd, file, verify)(index[i].value) == chunks[i].layout.entries
    {
      OpensChunk(fmt, cd, lt, file, verify, entries, chunks, index, i);
    }
  }

  lemma {:induction false} FlatIs(fmt: Format, cd: EntryCodec.Codec, file: bytes, entries: seq<Entry>,
                                  chunks: seq<Chunk>, index: seq<Entry>, open: TwoLevelIterators.Opener, n: nat)
    requires Chunked(fmt, cd, file, entries, chunks) && Opens(index, open, chunks) && n <= |index|
    ensures Begin(chunks, n) <= |entries|
    ensures TwoLevelIterators.Flat(index, open, n) == entries[..Begin(chunks, n)]
  {
    if n > 0 {
      FlatIs(fmt, cd, file, entries, chunks, index, open, n - 1);
      assert ChunkAt(fmt, cd, file, entries, chunks, n - 1);
      var from, to := Begin(chunks, n - 1), Begin(chunks, n);
      assert TwoLevelIterators.BlockOf(index, open, n - 1) == entries[from..to];
      assert entries[..from] + entries[from..to] == entries[..to];
    }
  }

  /** The index and the block function present the entries, and the index keys separate the
      blocks: what the two-level iterator needs to be a cursor over the entries. */
  lemma CompleteSeparates(fmt: Format, cd: EntryCodec.Codec, lt: KeyLess, file: bytes, entries: seq<Entry>,
                          chunks: seq<Chunk>, index: seq<Entry>, open: TwoLevelIterators.Opener)
    requires Ordered(lt) && Complete(fmt, cd, lt, file, entries, chunks, index) && Opens(index, open, chunks)
    ensures TwoLevelIterators.All(index, open) == entries
    ensures TwoLevelIterators.Separates(lt, index, open)
  {
    FlatIs(fmt, cd, file, entries, chunks, index, open, |index|);
    assert entries[..|entries|] == entries;
    forall j, p | 0 <= j < |index| && 0 <= p < |TwoLevelIterators.BlockOf(index, open, j)|
      ensures !lt(index[j].key, TwoLevelIterators.BlockOf(index, open, j)[p].key)
      ensures forall i :: 0 <= i < j ==> lt(index[i].key, TwoLevelIterators.BlockOf(index, open, j)[p].key)
    {
      InBlock(fmt, cd, lt, file, entries, chunks, index, j, p);
    }
  }

  lemma InBlock(fmt: Format, cd: EntryCodec.Codec, lt: KeyLess, file: bytes, entries: seq<Entry>,
                chunks: seq<Chunk>, index: seq<Entry>, j: nat, p: nat)
    requires Complete(fmt, cd, lt, file, entries, chunks, index) && j < |index| && p < |chunks[j].layout.entries|
    ensures !lt(index[j].key, chunks[j].layout.entries[p].key)
    ensures forall i :: 0 <= i < j ==> lt(index[i].key, chunks[j].layout.entries[p].key)
  {
    assert ChunkAt(fmt, cd, file, entries, chunks, j);
    var q := Begin(chunks, j) + p;
    assert chunks[j].layout.entries[p] == entries[q];
    assert IndexAt(lt, fmt, entries, chunks, index, j);
    forall i | 0 <= i < j
      ensures lt(index[i].key, entries[q].key)
    {
      assert IndexAt(lt, fmt, entries, chunks, index, i);
      if i + 1 < j {
        ChunkEnds(fmt, cd, file, entries, chunks, i + 1, j);
      }
    }
  }

  ghost predicate Completed(fmt: Format, cd: EntryCodec.Codec, lt: KeyLess, file: bytes, entries: seq<Entry>,
                            chunks: seq<Chunk>, index: seq<Entry>)
  {
    forall m {:trigger UseImage(m)} :: UseImage(m) ==> Complete(fmt, cd, lt, file, entries, chunks, index)
  }

  /** The last block's index entry completes the table, once there is no entry left to flush. */
  lemma FinishStep(fmt: Format, cd: EntryCodec.Codec, lt: KeyLess, file: bytes, more: bytes, entries: seq<Entry>,
                   chunks: seq<Chunk>, index: seq<Entry>, key: bytes)
    requires Ordered(lt) && Progress(fmt, cd, lt, file, entries, chunks, index, true, []) && file <= more
    requires entries != [] && !lt(key, entries[|entries| - 1].key)
    ensures chunks != [] && NewKey(lt, index, key)
    ensures Completed(fmt, cd, lt, more, entries, chunks, index + [Entry(key, fmt.handle(chunks[|chunks| - 1].handle))])
  {
    assert UseImage(0);
    IndexStep(fmt, cd, lt, file, entries, chunks, index, [], key);
    BlockBuilders.SortedAppend(lt, index, Entry(key, fmt.handle(chunks[|chunks| - 1].handle)));
    CompleteStays(fmt, cd, lt, file, more, entries, chunks, index + [Entry(key, fmt.handle(chunks[|chunks| - 1].handle))]);
  }

  lemma FinishEmpty(fmt: Format, cd: EntryCodec.Codec, lt: KeyLess, file: bytes, more: bytes, entries: seq<Entry>,
                    chunks: seq<Chunk>, index: seq<Entry>)
    requires Progress(fmt, cd, lt, file, entries, chunks, index, false, []) && file <= more
    ensures Completed(fmt, cd, lt, more, entries, chunks, index)
  {
    assert UseImage(0);
  }

  // ---- where the index keys come from ---------------------------------------------------

  /** The index key of block i is the separator of the block's last key and the next block's
      first, or, when no entry follows, the key `final`. */
  ghost predicate DerivedAt(cmp: Comparators.Comparator, entries: seq<Entry>, chunks: seq<Chunk>, index: seq<Entry>, final: bytes, i: nat) {
    && i < |index| && i < |chunks| && 0 < chunks[i].end <= |entries|
    && var end := chunks[i].end;
      index[i].key == if end < |entries| then cmp.separator(entries[end - 1].key, entries[end].key) else final
  }

  /** Marks where the definition of Derived is used, so that the verifier uses it nowhere else. */
  ghost predicate UseDerived(m: int) { true }

  ghost predicate Derived(cmp: Comparators.Comparator, entries: seq<Entry>, chunks: seq<Chunk>, index: seq<Entry>, final: bytes) {
    forall m {:trigger UseDerived(m)} :: UseDerived(m) ==>
      forall i {:trigger DerivedAt(cmp, entries, chunks, index, final, i)} :: 0 <= i < |index| ==>
        DerivedAt(cmp, entries, chunks, index, final, i)
  }

  /** Every block in the index is followed by entries, until the last block's entry is added. */
  lemma IndexedAreFollowed(fmt: Format, cd: EntryCodec.Codec, lt: KeyLess, file: bytes, entries: seq<Entry>,
                           chunks: seq<Chunk>, index: seq<Entry>, pending: bool, tail: seq<Entry>)
    requires Progress(fmt, cd, lt, file, entries, chunks, index, pending, tail)
    ensures |index| <= |chunks| && forall i :: 0 <= i < |index| ==> chunks[i].end < |entries|
  {
    assert UseImage(0);
    forall i | 0 <= i < |index|
      ensures chunks[i].end < |entries|
    {
      if i + 1 < |chunks| {
        ChunkEnds(fmt, cd, file, entries, chunks, i + 1, |chunks|);
      }
    }
  }

  lemma DerivedStays(cmp: Comparators.Comparator, entries: seq<Entry>, chunks: seq<Chunk>, index: seq<Entry>, was: bytes, final: bytes)
    requires Derived(cmp, entries, chunks, index, was) && |index| <= |chunks|
    requires forall i :: 0 <= i < |index| ==> chunks[i].end < |entries|
    ensures Derived(cmp, entries, chunks, index, final)
  {
    assert UseDerived(0);
    forall i | 0 <= i < |index|
      ensures DerivedAt(cmp, entries, chunks, index, final, i)
    {
      assert DerivedAt(cmp, entries, chunks, index, was, i);
    }
  }

  lemma DerivedIndexed(cmp: Comparators.Comparator, entries: seq<Entry>, chunks: seq<Chunk>, index: seq<Entry>, was: bytes, key: bytes, value: bytes)
    requires Derived(cmp, entries, chunks, index, was) && |index| + 1 == |chunks|
    requires forall i :: 0 <= i < |index| ==> chunks[i].end < |entries|
    requires entries != [] && chunks[|index|].end == |entries|
    ensures Derived(cmp, entries, chunks, index + [Entry(key, value)], key)
  {
    assert UseDerived(0);
    var now := index + [Entry(key, value)];
    forall i | 0 <= i < |now|
      ensures DerivedAt(cmp, entries, chunks, now, key, i)
    {
      if i < |index| {
        assert DerivedAt(cmp, entries, chunks, index, was, i);
      }
    }
  }

  lemma DerivedAppended(cmp: Comparators.Comparator, entries: seq<Entry>, chunks: seq<Chunk>, index: seq<Entry>, e: Entry, final: bytes)
    requires Derived(cmp, entries, chunks, index, if entries == [] then [] else cmp.separator(entries[|entries| - 1].key, e.key))
    ensures Derived(cmp, entries + [e], chunks, index, final)
  {
    assert UseDerived(0);
    forall i | 0 <= i < |index|
      ensures DerivedAt(cmp, entries + [e], chunks, index, final, i)
    {
      assert DerivedAt(cmp, entries, chunks, index, if entries == [] then [] else cmp.separator(entries[|entries| - 1].key, e.key), i);
    }
  }

  lemma DerivedFlushed(cmp: Comparators.Comparator, entries: seq<Entry>, chunks: seq<Chunk>, index: seq<Entry>, c: Chunk, final: bytes)
    requires Derived(cmp, entries, chunks, index, final)
    ensures Derived(cmp, entries, chunks + [c], index, final)
  {
    assert UseDerived(0);
    forall i | 0 <= i < |index|
      ensures DerivedAt(cmp, entries, chunks + [c], index, final, i)
    {
      assert DerivedAt(cmp, entries, chunks, index, final, i);
    }
  }

  /** The last block of a pending index entry ends all entries. */
  lemma PendingEnds(fmt: Format, cd: EntryCodec.Codec, lt: KeyLess, file: bytes, entries: seq<Entry>,
                    chunks: seq<Chunk>, index: seq<Entry>, tail: seq<Entry>)
    requires Progress(fmt, cd, lt, file, entries, chunks, index, true, tail)
    ensures |index| + 1 == |chunks| && chunks[|index|].end == |entries|
  {
    assert UseImage(0);
  }

  /** The first step of Add: the index entry of the block before, if one was pending. */
  lemma PrimeDerived(fmt: Format, cd: EntryCodec.Codec, cmp: Comparators.Comparator, file: bytes, entries: seq<Entry>,
                     chunks: seq<Chunk>, index: seq<Entry>, tail: seq<Entry>, was: bytes, key: bytes, value: bytes)
    requires Progress(fmt, cd, cmp.less, file, entries, chunks, index, true, tail) && Derived(cmp, entries, chunks, index, was)
    ensures Derived(cmp, entries, chunks, index + [Entry(key, value)], key)
  {
    IndexedAreFollowed(fmt, cd, cmp.less, file, entries, chunks, index, true, tail);
    PendingEnds(fmt, cd, cmp.less, file, entries, chunks, index, tail);
    PendingHasEntries(fmt, cd, cmp.less, file, entries, chunks, index, tail);
    DerivedIndexed(cmp, entries, chunks, index, was, key, value);
  }

  lemma ContinueDerived(fmt: Format, cd: EntryCodec.Codec, cmp: Comparators.Comparator, file: bytes, entries: seq<Entry>,
                        chunks: seq<Chunk>, index: seq<Entry>, pending: bool, tail: seq<Entry>, was: bytes, final: bytes)
    requires Progress(fmt, cd, cmp.less, file, entries, chunks, index, pending, tail) && Derived(cmp, entries, chunks, index, was)
    ensures Derived(cmp, entries, chunks, index, final)
  {
    IndexedAreFollowed(fmt, cd, cmp.less, file, entries, chunks, index, pending, tail);
    DerivedStays(cmp, entries, chunks, index, was, final);
  }

  /** The key of the last index entry of a finished table. */
  ghost function Final(cmp: Comparators.Comparator, entries: seq<Entry>): bytes {
    if entries == [] then [] else cmp.successor(entries[|entries| - 1].key)
  }

  // ---- the whole file -------------------------------------------------------------------

  /** The filter block admits every entry's key at the offset of the entry's block. */
  ghost predicate Admits(p: FilterBlocks.Policy, filter: bytes, entries: seq<Entry>, chunks: seq<Chunk>) {
    forall i, q {:trigger FilterBlocks.KeyMayMatch(p, filter, chunks[i].handle.offset, entries[q].key)} ::
      0 <= i < |chunks| && Begin(chunks, i) <= q < chunks[i].end && q < |entries| ==>
        FilterBlocks.KeyMayMatch(p, filter, chunks[i].handle.offset, entries[q].key)
  }

  /** A filter policy with its name, under which the filter block is found. */
  datatype Named = Named(name: bytes, policy: FilterBlocks.Policy)

  /** "filter." and the policy's name. */
  function FilterKey(name: bytes): bytes { [0x66, 0x69, 0x6c, 0x74, 0x65, 0x72, 0x2e] + name }

  datatype Image = Image(chunks: seq<Chunk>, index: BlockFormat.Layout, meta: BlockFormat.Layout, footer: Footer,
                         filterHandle: BlockHandle, filter: bytes)

  /** A finished table file, built with a filter policy or without one. */
  ghost predicate TableFile(fmt: Format, cd: EntryCodec.Codec, lt: KeyLess, built: Option<Named>, file: bytes,
                            entries: seq<Entry>, im: Image)
  {
    forall m {:trigger UseImage(m)} :: UseImage(m) ==> TableParts(fmt, cd, lt, built, file, entries, im)
  }

  ghost predicate TableParts(fmt: Format, cd: EntryCodec.Codec, lt: KeyLess, built: Option<Named>, file: bytes,
                            entries: seq<Entry>, im: Image)
  {
    && Complete(fmt, cd, lt, file, entries, im.chunks, im.index.entries)
    && BlockFormat.WellFormed(im.index) && Stored(fmt, file, im.footer.index, BlockFormat.Contents(cd, im.index))
    && BlockFormat.WellFormed(im.meta) && Stored(fmt, file, im.footer.metaindex, BlockFormat.Contents(cd, im.meta))
    && FOOTER <= |file| && file[|file| - FOOTER..] == fmt.footer(im.footer)
    && (built.None? ==> im.meta.entries == [])
    && (built.Some? ==>
          && im.meta.entries == [Entry(FilterKey(built.value.name), fmt.handle(im.filterHandle))]
          && Stored(fmt, file, im.filterHandle, im.filter)
          && Fitting(built.value.policy, im.filter, entries, im.chunks))
  }

  lemma CompleteStays(fmt: Format, cd: EntryCodec.Codec, lt: KeyLess, file: bytes, more: bytes, entries: seq<Entry>,
                      chunks: seq<Chunk>, index: seq<Entry>)
    requires Complete(fmt, cd, lt, file, entries, chunks, index) && file <= more
    ensures Complete(fmt, cd, lt, more, entries, chunks, index)
  {
    ChunkedMore(fmt, cd, file, more, entries, [], chunks);
    assert entries + [] == entries;
  }

  /** A block of its own in the file: the index or the metaindex. */
  ghost predicate Placed(fmt: Format, cd: EntryCodec.Codec, file: bytes, h: BlockHandle, layout: BlockFormat.Layout) {
    forall m {:trigger UseImage(m)} :: UseImage(m) ==>
      BlockFormat.WellFormed(layout) && Stored(fmt, file, h, BlockFormat.Contents(cd, layout))
  }

  lemma PlacedAtEnd(fmt: Format, cd: EntryCodec.Codec, file: bytes, layout: BlockFormat.Layout, block: bytes)
    requires Sound(fmt) && IsBlock(cd, layout, block)
    ensures Placed(fmt, cd, file + block + fmt.trailer(block), BlockHandle(|file|, |block|), layout)
  {
    assert UseImage(0);
    StoredAtEnd(fmt, file, block);
  }

  /** What a filter block must do for its table. */
  ghost predicate Fitting(p: FilterBlocks.Policy, filter: bytes, entries: seq<Entry>, chunks: seq<Chunk>) {
    |filter| < TWO32 && FilterBlocks.Lawful(p) ==> Admits(p, filter, entries, chunks)
  }

  /** The filter block of a table with a policy. */
  ghost predicate FilterPlaced(fmt: Format, built: Option<Named>, file: bytes, h: BlockHandle, filter: bytes,
                               entries: seq<Entry>, chunks: seq<Chunk>)
  {
    forall m {:trigger UseImage(m)} :: UseImage(m) && built.Some? ==>
      Stored(fmt, file, h, filter) && Fitting(built.value.policy, filter, entries, chunks)
  }

  /** The metaindex block of a table. */
  ghost predicate MetaPlaced(fmt: Format, cd: EntryCodec.Codec, built: Option<Named>, file: bytes, h: BlockHandle,
                             layout: BlockFormat.Layout, filterHandle: BlockHandle)
  {
    Placed(fmt, cd, file, h, layout)
    && layout.entries == if built.None? then [] else [Entry(FilterKey(built.value.name), fmt.handle(filterHandle))]
  }

  /** Written behind the data blocks, in this order: the filter block, the metaindex block, the
      index block and the footer. */
  lemma Assembled(fmt: Format, cd: EntryCodec.Codec, lt: KeyLess, built: Option<Named>, entries: seq<Entry>, im: Image,
                  filtered: bytes, withMeta: bytes, withIndex: bytes, file: bytes)
    requires filtered <= withMeta <= withIndex <= file && Sound(fmt)
    requires Completed(fmt, cd, lt, withMeta, entries, im.chunks, im.index.entries)
    requires MetaPlaced(fmt, cd, built, withMeta, im.footer.metaindex, im.meta, im.filterHandle)
    requires Placed(fmt, cd, withIndex, im.footer.index, im.index)
    requires FilterPlaced(fmt, built, filtered, im.filterHandle, im.filter, entries, im.chunks)
    requires file == withIndex + fmt.footer(im.footer) && |fmt.footer(im.footer)| == FOOTER
    ensures TableFile(fmt, cd, lt, built, file, entries, im)
  {
    assert UseImage(0);
    CompleteStays(fmt, cd, lt, withMeta, file, entries, im.chunks, im.index.entries);
    StoredStays(fmt, withMeta, file, im.footer.metaindex, BlockFormat.Contents(cd, im.meta));
    StoredStays(fmt, withIndex, file, im.footer.index, BlockFormat.Contents(cd, im.index));
    if built.Some? {
      StoredStays(fmt, filtered, file, im.filterHandle, im.filter);
    }
  }

  // ---- the keys given to the filter -----------------------------------------------------

  /** The keys of a run of entries were added under the offset. */
  ghost predicate Added(added: set<(nat, bytes)>, entries: seq<Entry>, from: nat, to: nat, offset: nat) {
    forall q :: from <= q < to && q < |entries| ==> (offset, entries[q].key) in added
  }

  /** Every block's keys were added under its offset, and the current block's under the next. */
  ghost predicate AllAdded(added: set<(nat, bytes)>, entries: seq<Entry>, chunks: seq<Chunk>, offset: nat) {
    (forall i :: 0 <= i < |chunks| ==>
        chunks[i].end <= |entries| && Added(added, entries, Begin(chunks, i), chunks[i].end, chunks[i].handle.offset))
    && Added(added, entries, Begin(chunks, |chunks|), |entries|, offset)
  }

  lemma AddedEntry(added: set<(nat, bytes)>, entries: seq<Entry>, chunks: seq<Chunk>, offset: nat, e: Entry)
    requires AllAdded(added, entries, chunks, offset)
    ensures AllAdded(added + {(offset, e.key)}, entries + [e], chunks, offset)
  {
    forall i | 0 <= i < |chunks|
      ensures Added(added + {(offset, e.key)}, entries + [e], Begin(chunks, i), chunks[i].end, chunks[i].handle.offset)
    {
      assert Added(added, entries, Begin(chunks, i), chunks[i].end, chunks[i].handle.offset);
    }
  }

  lemma AddedChunk(added: set<(nat, bytes)>, entries: seq<Entry>, chunks: seq<Chunk>, offset: nat, c: Chunk, next: nat)
    requires AllAdded(added, entries, chunks, offset) && c.handle.offset == offset && c.end == |entries|
    ensures AllAdded(added, entries, chunks + [c], next)
  {
    var now := chunks + [c];
    forall i | 0 <= i < |now|
      ensures Added(added, entries, Begin(now, i), now[i].end, now[i].handle.offset)
    {
      if i < |chunks| {
        assert Added(added, entries, Begin(chunks, i), chunks[i].end, chunks[i].handle.offset);
      }
    }
  }

  lemma AddedAdmits(p: FilterBlocks.Policy, filter: bytes, added: set<(nat, bytes)>, entries: seq<Entry>, chunks: seq<Chunk>, offset: nat)
    requires AllAdded(added, entries, chunks, offset)
    requires forall o, key :: (o, key) in added ==> FilterBlocks.KeyMayMatch(p, filter, o, key)
    ensures Admits(p, filter, entries, chunks)
  {
    forall i, q | 0 <= i < |chunks| && Begin(chunks, i) <= q < chunks[i].end && q < |entries|
      ensures FilterBlocks.KeyMayMatch(p, filter, chunks[i].handle.offset, entries[q].key)
    {
      assert Added(added, entries, Begin(chunks, i), chunks[i].end, chunks[i].handle.offset);
    }
  }
}
