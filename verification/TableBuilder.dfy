/** TableBuilder (table/table_builder.cpp): data blocks are cut from a strictly increasing run
    of entries, and a block's index entry waits for the first key of the next one. */
module TableBuilders {
  import opened Coding
  import opened Cursors
  import Comparators
  import EntryCodec
  import BlockFormat
  import opened BlockBuilders
  import FilterBlocks
  import opened TableFormat
  import opened TableImages

  /** Marks where the invariants of the block builders are used. */
  ghost predicate UseBlock(m: int) { true }

  /** The builder takes entries. */
  ghost predicate Writable(b: BlockBuilder)
    reads b
  {
    forall m {:trigger UseBlock(m)} :: UseBlock(m) ==> b.Valid() && !b.finished
  }

  method AddTo(b: BlockBuilder, key: bytes, value: bytes)
    requires Writable(b) && Ordered(b.lt) && NewKey(b.lt, b.layout.entries, key)
    modifies b
    ensures Writable(b) && b.layout.entries == old(b.layout.entries) + [Entry(key, value)]
  {
    assert UseBlock(0);
    assert UseBuilding(0);
    b.Add(key, value);
  }

  /** A block with a restart every `interval` entries. */
  ghost predicate Packed(b: BlockFormat.Layout, interval: nat) {
    BlockFormat.WellFormed(b) && Compressed(b, interval)
  }

  /** Finish and Reset. */
  method TakeBlock(b: BlockBuilder) returns (raw: bytes, ghost layout: BlockFormat.Layout)
    requires Writable(b)
    modifies b
    ensures IsBlock(b.cd, layout, raw) && layout == old(b.layout) && Packed(layout, b.interval)
    ensures Writable(b) && b.layout.entries == []
  {
    assert UseBlock(0);
    layout := b.layout;
    raw := b.Finish();
    b.Reset();
  }

  /** Marks where the definitions of Roomy and Filled are used, so that the verifier uses them
      nowhere else. */
  ghost predicate UseRoom(m: int) { true }

  /** A block of these entries is smaller than the limit. */
  ghost predicate Below(cd: EntryCodec.Codec, interval: nat, limit: nat, entries: seq<Entry>) {
    forall b {:trigger BlockFormat.WellFormed(b)} ::
      BlockFormat.WellFormed(b) && Compressed(b, interval) && b.entries == entries ==> |BlockFormat.Contents(cd, b)| < limit
  }

  /** So is a block of the first n of these entries, and of any fewer. */
  ghost predicate Roomy(cd: EntryCodec.Codec, interval: nat, limit: nat, entries: seq<Entry>, n: int) {
    forall m, k {:trigger UseRoom(m), entries[..k]} :: UseRoom(m) && 0 < k <= n && k <= |entries| ==> Below(cd, interval, limit, entries[..k])
  }

  /** The block has reached the limit. */
  ghost predicate Filled(cd: EntryCodec.Codec, interval: nat, limit: nat, b: BlockFormat.Layout) {
    forall m {:trigger UseRoom(m)} :: UseRoom(m) ==>
      BlockFormat.WellFormed(b) && Compressed(b, interval) && limit <= |BlockFormat.Contents(cd, b)|
  }

  lemma RoomyStays(cd: EntryCodec.Codec, interval: nat, limit: nat, entries: seq<Entry>, e: Entry)
    requires Roomy(cd, interval, limit, entries, |entries|)
    ensures Roomy(cd, interval, limit, entries + [e], |entries|)
  {
    assert UseRoom(0);
    forall k | 0 < k <= |entries|
      ensures Below(cd, interval, limit, (entries + [e])[..k])
    {
      assert (entries + [e])[..k] == entries[..k];
    }
  }

  lemma RoomyLess(cd: EntryCodec.Codec, interval: nat, limit: nat, entries: seq<Entry>)
    requires Roomy(cd, interval, limit, entries, |entries|)
    ensures Roomy(cd, interval, limit, entries, |entries| - 1)
  {
  }

  lemma RoomyGrows(cd: EntryCodec.Codec, interval: nat, limit: nat, b: BlockFormat.Layout)
    requires b.entries != [] && Roomy(cd, interval, limit, b.entries, |b.entries| - 1)
    requires BlockFormat.WellFormed(b) && Compressed(b, interval) && |BlockFormat.Contents(cd, b)| < limit
    ensures Roomy(cd, interval, limit, b.entries, |b.entries|)
  {
    assert UseRoom(0);
    forall c | BlockFormat.WellFormed(c) && Compressed(c, interval) && c.entries == b.entries
      ensures |BlockFormat.Contents(cd, c)| < limit
    {
      LayoutIsUnique(b, c, interval);
    }
    assert b.entries[..|b.entries|] == b.entries;
  }

  /** The estimate of a builder decides whether its block is filled. */
  method Reached(b: BlockBuilder, limit: nat) returns (full: bool)
    requires Writable(b) && b.layout.entries != [] && Roomy(b.cd, b.interval, limit, b.layout.entries, |b.layout.entries| - 1)
    ensures full == Filled(b.cd, b.interval, limit, b.layout)
    ensures !full ==> Roomy(b.cd, b.interval, limit, b.layout.entries, |b.layout.entries|)
  {
    assert UseBlock(0);
    b.EstimateIs();
    assert UseRoom(0);
    full := b.CurrentSizeEstimate() >= limit;
    if !full {
      RoomyGrows(b.cd, b.interval, limit, b.layout);
    }
  }

  method IsEmpty(b: BlockBuilder) returns (empty: bool)
    requires Writable(b) && EntryCodec.Sound(b.cd)
    ensures empty == (b.layout.entries == [])
  {
    assert UseBlock(0);
    assert UseBuilding(0);
    BlockFormat.BodyPrefix(b.cd, b.layout, 0, |b.layout.entries|);
    empty := b.buffer == [];
  }

  /** Marks where the filter's invariant is used. */
  ghost predicate UseFilter(m: int) { true }

  /** The filter has the keys of all blocks under their offsets, and takes those of the block
      that starts at `offset`. */
  ghost predicate Filtering(f: FilterBlocks.FilterBlockBuilder?, entries: seq<Entry>, chunks: seq<Chunk>, offset: nat)
    reads f
  {
    f != null ==> forall m {:trigger UseFilter(m)} :: UseFilter(m) ==>
      f.Valid() && f.blockOffset == offset && AllAdded(f.added, entries, chunks, offset)
  }

  method AddKey(f: FilterBlocks.FilterBlockBuilder?, e: Entry, ghost entries: seq<Entry>, ghost chunks: seq<Chunk>, ghost offset: nat)
    requires Filtering(f, entries, chunks, offset)
    modifies f
    ensures Filtering(f, entries + [e], chunks, offset)
  {
    if f != null {
      assert UseFilter(0);
      AddedEntry(f.added, entries, chunks, offset, e);
      f.AddKey(e.key);
    }
  }

  method StartBlock(f: FilterBlocks.FilterBlockBuilder?, next: nat, ghost entries: seq<Entry>, ghost chunks: seq<Chunk>, ghost offset: nat, ghost c: Chunk)
    requires Filtering(f, entries, chunks, offset) && offset <= next
    requires c.handle.offset == offset && c.end == |entries|
    modifies f
    ensures Filtering(f, entries, chunks + [c], next)
  {
    if f != null {
      assert UseFilter(0);
      AddedChunk(f.added, entries, chunks, offset, c, next);
      f.StartBlock(next);
    }
  }

  /** What fixes the file's form: the codecs, the order, and the block builders over them. */
  ghost predicate Suited(fmt: Format, cd: EntryCodec.Codec, cmp: Comparators.Comparator) {
    Comparators.Lawful(cmp) && Sound(fmt) && EntryCodec.Sound(cd)
  }

  /** One block more, of these entries. */
  ghost predicate OneMore(before: seq<Chunk>, after: seq<Chunk>, entries: seq<Entry>) {
    |after| == |before| + 1 && after[..|before|] == before && after[|before|].layout.entries == entries
  }

  class TableBuilder {
    const fmt: Format
    const cd: EntryCodec.Codec
    const cmp: Comparators.Comparator
    const blockSize: nat
    const interval: nat
    const filterPolicy: Option<Named>
    const dataBlock: BlockBuilder
    const indexBlock: BlockBuilder
    const filterBlock: FilterBlocks.FilterBlockBuilder?
    var file: bytes
    var offset: nat
    var lastKey: bytes
    var numEntries: nat
    var closed: bool
    var pendingIndexEntry: bool
    var pendingHandle: BlockHandle
    /** The entries added so far, and the blocks written. */
    ghost var entries: seq<Entry>
    ghost var chunks: seq<Chunk>

    ghost predicate Settings() {
      && 1 <= interval && dataBlock.cd == indexBlock.cd == cd && dataBlock.lt == indexBlock.lt == cmp.less
      && dataBlock != indexBlock && dataBlock.interval == interval && indexBlock.interval == 1
      && (filterBlock == null <==> filterPolicy.None?)
      && (filterBlock != null ==> filterBlock.policy == filterPolicy.value.policy)
    }

    /** What is written and what is pending. */
    ghost predicate Tracks()
      reads this
    {
      && offset == |file| && numEntries == |entries|
      && (entries != [] ==> lastKey == entries[|entries| - 1].key)
      && (pendingIndexEntry ==> chunks != [] && pendingHandle == chunks[|chunks| - 1].handle)
    }

    ghost predicate Valid()
      reads this, dataBlock, indexBlock, filterBlock
    {
      && Suited(fmt, cd, cmp) && Settings() && Writable(dataBlock) && Writable(indexBlock)
      && Tracks() && Filtering(filterBlock, entries, chunks, offset)
      && Progress(fmt, cd, cmp.less, file, entries, chunks, indexBlock.layout.entries, pendingIndexEntry, dataBlock.layout.entries)
      && Derived(cmp, entries, chunks, indexBlock.layout.entries, [])
      && Roomy(cd, interval, blockSize, dataBlock.layout.entries, |dataBlock.layout.entries|)
    }

    constructor (fmt: Format, cd: EntryCodec.Codec, cmp: Comparators.Comparator, blockSize: nat, interval: nat, filterPolicy: Option<Named>)
      requires 1 <= interval && Suited(fmt, cd, cmp)
      ensures Valid() && !closed && entries == []
      ensures this.fmt == fmt && this.cd == cd && this.cmp == cmp && this.filterPolicy == filterPolicy
      ensures this.blockSize == blockSize && this.interval == interval && chunks == [] && dataBlock.layout.entries == []
      ensures fresh(dataBlock) && fresh(indexBlock) && (filterBlock != null ==> fresh(filterBlock))
    {
      this.fmt, this.cd, this.cmp, this.blockSize, this.interval, this.filterPolicy := fmt, cd, cmp, blockSize, interval, filterPolicy;
      dataBlock := new BlockBuilder(cd, cmp.less, interval);
      indexBlock := new BlockBuilder(cd, cmp.less, 1);
      if filterPolicy.None? {
        filterBlock := null;
      } else {
        var f := new FilterBlocks.FilterBlockBuilder(filterPolicy.value.policy);
        f.StartBlock(0);
        filterBlock := f;
      }
      file, offset, lastKey, numEntries, closed := [], 0, [], 0, false;
      pendingIndexEntry, pendingHandle := false, BlockHandle(0, 0);
      entries, chunks := [], [];
    }

    /** The index entry that was waiting for this key, if any. */
    method AddIndexEntry(key: bytes)
      requires Suited(fmt, cd, cmp) && Settings() && Writable(indexBlock) && Tracks() && NewKey(cmp.less, entries, key)
      requires Progress(fmt, cd, cmp.less, file, entries, chunks, indexBlock.layout.entries, pendingIndexEntry, dataBlock.layout.entries)
      requires Derived(cmp, entries, chunks, indexBlock.layout.entries, [])
      modifies this`lastKey, this`pendingIndexEntry, indexBlock
      ensures Writable(indexBlock) && !pendingIndexEntry
      ensures Derived(cmp, entries, chunks, indexBlock.layout.entries,
                      if entries == [] then [] else cmp.separator(entries[|entries| - 1].key, key))
      ensures Primed(fmt, cd, cmp.less, file, entries, chunks, indexBlock.layout.entries, dataBlock.layout.entries, key)
    {
      ghost var index, tail := indexBlock.layout.entries, dataBlock.layout.entries;
      if pendingIndexEntry {
        PendingHasEntries(fmt, cd, cmp.less, file, entries, chunks, index, tail);
        lastKey := cmp.separator(lastKey, key);
        PrimeStep(fmt, cd, cmp.less, file, entries, chunks, index, tail, lastKey, key);
        PrimeDerived(fmt, cd, cmp, file, entries, chunks, index, tail, [], lastKey, fmt.handle(pendingHandle));
        AddTo(indexBlock, lastKey, fmt.handle(pendingHandle));
        pendingIndexEntry := false;
      } else {
        ContinueStep(fmt, cd, cmp.less, file, entries, chunks, index, tail, key);
        ContinueDerived(fmt, cd, cmp, file, entries, chunks, index, false, tail, [],
                        if entries == [] then [] else cmp.separator(entries[|entries| - 1].key, key));
      }
    }

    /** Keys come in strictly increasing order. */
    method Add(key: bytes, value: bytes)
      requires Valid() && !closed && NewKey(cmp.less, entries, key)
      modifies this, dataBlock, indexBlock, filterBlock
      ensures Valid() && !closed && entries == old(entries) + [Entry(key, value)]
      ensures if chunks == old(chunks) then dataBlock.layout.entries == old(dataBlock.layout.entries) + [Entry(key, value)]
              else OneMore(old(chunks), chunks, old(dataBlock.layout.entries) + [Entry(key, value)])
                   && Filled(cd, interval, blockSize, chunks[|chunks| - 1].layout) && dataBlock.layout.entries == []
    {
      AddIndexEntry(key);
      AddKey(filterBlock, Entry(key, value), entries, chunks, offset);
      RoomyStays(cd, interval, blockSize, dataBlock.layout.entries, Entry(key, value));
      AppendEntry(key, value);
      CutBlock();
    }

    /** Flush once the data block has reached the size. */
    method CutBlock()
      requires Suited(fmt, cd, cmp) && Settings() && Writable(dataBlock) && Writable(indexBlock) && !closed
      requires Tracks() && Filtering(filterBlock, entries, chunks, offset)
      requires Progress(fmt, cd, cmp.less, file, entries, chunks, indexBlock.layout.entries, pendingIndexEntry, dataBlock.layout.entries)
      requires Derived(cmp, entries, chunks, indexBlock.layout.entries, [])
      requires dataBlock.layout.entries != []
      requires Roomy(cd, interval, blockSize, dataBlock.layout.entries, |dataBlock.layout.entries| - 1)
      modifies this, dataBlock, filterBlock
      ensures Valid() && !closed && entries == old(entries)
      ensures if chunks == old(chunks) then dataBlock.layout.entries == old(dataBlock.layout.entries)
              else OneMore(old(chunks), chunks, old(dataBlock.layout.entries))
                   && Filled(cd, interval, blockSize, chunks[|chunks| - 1].layout) && dataBlock.layout.entries == []
    {
      var full := Reached(dataBlock, blockSize);
      if full {
        FlushBlock();
      }
    }

    /** The entry goes to the data block. */
    method AppendEntry(key: bytes, value: bytes)
      requires Suited(fmt, cd, cmp) && Settings() && Writable(dataBlock) && !pendingIndexEntry
      requires offset == |file| && numEntries == |entries|
      requires Primed(fmt, cd, cmp.less, file, entries, chunks, indexBlock.layout.entries, dataBlock.layout.entries, key)
      requires Derived(cmp, entries, chunks, indexBlock.layout.entries,
                       if entries == [] then [] else cmp.separator(entries[|entries| - 1].key, key))
      modifies this`lastKey, this`numEntries, this`entries, dataBlock
      ensures Writable(dataBlock) && Tracks() && entries == old(entries) + [Entry(key, value)]
      ensures dataBlock.layout.entries == old(dataBlock.layout.entries) + [Entry(key, value)]
      ensures Progress(fmt, cd, cmp.less, file, entries, chunks, indexBlock.layout.entries, false, dataBlock.layout.entries)
      ensures Derived(cmp, entries, chunks, indexBlock.layout.entries, [])
    {
      lastKey := key;
      numEntries := numEntries + 1;
      AppendStep(fmt, cd, cmp.less, file, entries, chunks, indexBlock.layout.entries, dataBlock.layout.entries, Entry(key, value));
      DerivedAppended(cmp, entries, chunks, indexBlock.layout.entries, Entry(key, value), []);
      AddTo(dataBlock, key, value);
      entries := entries + [Entry(key, value)];
    }

    /** The block's bytes, its type byte and its checksum go to the end of the file. */
    method WriteRawBlock(block: bytes) returns (h: BlockHandle)
      requires offset == |file| && Sound(fmt)
      modifies this`file, this`offset
      ensures file == old(file) + block + fmt.trailer(block) && offset == |file|
      ensures h == BlockHandle(|old(file)|, |block|)
    {
      h := BlockHandle(offset, |block|);
      assert |fmt.trailer(block)| == TRAILER;
      file := file + block;
      file := file + fmt.trailer(block);
      offset := offset + |block| + TRAILER;
    }

    method Flush()
      requires Valid() && !closed
      modifies this, dataBlock, filterBlock
      ensures Valid() && !closed && entries == old(entries) && dataBlock.layout.entries == []
      ensures if old(dataBlock.layout.entries) == [] then chunks == old(chunks)
              else OneMore(old(chunks), chunks, old(dataBlock.layout.entries))
      ensures entries != [] ==> chunks != [] && chunks[|chunks| - 1].end == |entries|
    {
      FlushBlock();
    }

    /** Flush, which Add calls before it is done. */
    method FlushBlock()
      requires Suited(fmt, cd, cmp) && Settings() && Writable(dataBlock) && Writable(indexBlock) && !closed
      requires Tracks() && Filtering(filterBlock, entries, chunks, offset)
      requires Progress(fmt, cd, cmp.less, file, entries, chunks, indexBlock.layout.entries, pendingIndexEntry, dataBlock.layout.entries)
      requires Derived(cmp, entries, chunks, indexBlock.layout.entries, [])
      modifies this, dataBlock, filterBlock
      ensures Valid() && !closed && entries == old(entries) && dataBlock.layout.entries == []
      ensures if old(dataBlock.layout.entries) == [] then chunks == old(chunks)
              else OneMore(old(chunks), chunks, old(dataBlock.layout.entries)) && chunks[|chunks| - 1].layout == old(dataBlock.layout)
      ensures entries != [] ==> chunks != [] && chunks[|chunks| - 1].end == |entries|
    {
      var empty := IsEmpty(dataBlock);
      if !empty {
        ghost var was, before := offset, chunks;
        ghost var c := WriteDataBlock();
        DerivedFlushed(cmp, entries, before, indexBlock.layout.entries, c, []);
        StartBlock(filterBlock, offset, entries, before, was, c);
      }
      if entries != [] {
        FlushedEnds(fmt, cd, cmp.less, file, entries, chunks, indexBlock.layout.entries, pendingIndexEntry);
      }
    }

    /** The current data block is written, and its index entry is pending. */
    method WriteDataBlock() returns (ghost c: Chunk)
      requires Suited(fmt, cd, cmp) && Settings() && Writable(dataBlock) && offset == |file| && dataBlock.layout.entries != []
      requires Progress(fmt, cd, cmp.less, file, entries, chunks, indexBlock.layout.entries, pendingIndexEntry, dataBlock.layout.entries)
      modifies this`file, this`offset, this`pendingHandle, this`pendingIndexEntry, this`chunks, dataBlock
      ensures Writable(dataBlock) && offset == |file| >= old(offset) && dataBlock.layout.entries == [] && pendingIndexEntry
      ensures chunks == old(chunks) + [c] && c.layout == old(dataBlock.layout) && c.handle.offset == old(offset)
      ensures c.end == |entries| && pendingHandle == c.handle
      ensures Progress(fmt, cd, cmp.less, file, entries, chunks, indexBlock.layout.entries, true, [])
    {
      var raw, layout := TakeBlock(dataBlock);
      FlushStep(fmt, cd, cmp.less, file, entries, chunks, indexBlock.layout.entries, pendingIndexEntry, layout, raw);
      c := Chunk(layout, BlockHandle(|file|, |raw|), |entries|);
      pendingHandle := WriteRawBlock(raw);
      pendingIndexEntry := true;
      chunks := chunks + [c];
    }

    /** The filter block, if there is a policy. */
    method WriteFilter() returns (h: BlockHandle, ghost filter: bytes)
      requires Suited(fmt, cd, cmp) && Settings() && offset == |file| && Filtering(filterBlock, entries, chunks, offset)
      modifies this`file, this`offset, filterBlock
      ensures offset == |file| && old(file) <= file
      ensures FilterPlaced(fmt, filterPolicy, file, h, filter, entries, chunks)
    {
      h, filter := BlockHandle(0, 0), [];
      if filterBlock != null {
        assert UseFilter(0);
        ghost var added := filterBlock.added;
        var contents := filterBlock.Finish();
        filter := contents;
        if |contents| < TWO32 && FilterBlocks.Lawful(filterBlock.policy) {
          AddedAdmits(filterBlock.policy, filter, added, entries, chunks, offset);
        }
        StoredAtEnd(fmt, file, filter);
        h := WriteRawBlock(contents);
      }
    }

    /** The metaindex block: where the filter is, under the policy's name. */
    method WriteMeta(filterHandle: BlockHandle) returns (h: BlockHandle, ghost layout: BlockFormat.Layout)
      requires Suited(fmt, cd, cmp) && 1 <= interval && offset == |file|
      modifies this`file, this`offset
      ensures offset == |file| && old(file) <= file && h.offset + h.size <= |file|
      ensures MetaPlaced(fmt, cd, filterPolicy, file, h, layout, filterHandle)
    {
      var meta := new BlockBuilder(cd, cmp.less, interval);
      if filterPolicy.Some? {
        AddTo(meta, FilterKey(filterPolicy.value.name), fmt.handle(filterHandle));
      }
      var raw, l := TakeBlock(meta);
      layout := l;
      PlacedAtEnd(fmt, cd, file, layout, raw);
      h := WriteRawBlock(raw);
    }

    /** The last index entry. */
    method CloseIndex(ghost dataFile: bytes)
      requires Suited(fmt, cd, cmp) && Settings() && Writable(indexBlock) && dataFile <= file
      requires entries != [] ==> lastKey == entries[|entries| - 1].key
      requires pendingIndexEntry ==> chunks != [] && pendingHandle == chunks[|chunks| - 1].handle
      requires Progress(fmt, cd, cmp.less, dataFile, entries, chunks, indexBlock.layout.entries, pendingIndexEntry, [])
      requires Derived(cmp, entries, chunks, indexBlock.layout.entries, [])
      modifies this`lastKey, this`pendingIndexEntry, indexBlock
      ensures Derived(cmp, entries, chunks, indexBlock.layout.entries, Final(cmp, entries))
      ensures Writable(indexBlock) && Completed(fmt, cd, cmp.less, file, entries, chunks, indexBlock.layout.entries)
    {
      ghost var index := indexBlock.layout.entries;
      if pendingIndexEntry {
        PendingHasEntries(fmt, cd, cmp.less, dataFile, entries, chunks, index, []);
        lastKey := cmp.successor(lastKey);
        FinishStep(fmt, cd, cmp.less, dataFile, file, entries, chunks, index, lastKey);
        PrimeDerived(fmt, cd, cmp, dataFile, entries, chunks, index, [], [], lastKey, fmt.handle(pendingHandle));
        AddTo(indexBlock, lastKey, fmt.handle(pendingHandle));
        pendingIndexEntry := false;
      } else {
        FinishEmpty(fmt, cd, cmp.less, dataFile, file, entries, chunks, index);
        ContinueDerived(fmt, cd, cmp, dataFile, entries, chunks, index, false, [], [], Final(cmp, entries));
      }
    }

    method WriteIndex() returns (h: BlockHandle, ghost layout: BlockFormat.Layout)
      requires Suited(fmt, cd, cmp) && Settings() && Writable(indexBlock) && offset == |file|
      modifies this`file, this`offset, indexBlock
      ensures offset == |file| && old(file) <= file && Placed(fmt, cd, file, h, layout) && h.offset + h.size <= |file|
      ensures layout == old(indexBlock.layout) && Packed(layout, 1)
    {
      var raw, l := TakeBlock(indexBlock);
      layout := l;
      PlacedAtEnd(fmt, cd, file, layout, raw);
      h := WriteRawBlock(raw);
    }

    /** The finished file is a table of the entries that were added. */
    method Finish() returns (ghost im: Image)
      requires Valid() && !closed
      modifies this, dataBlock, indexBlock, filterBlock
      ensures closed && offset == |file| && entries == old(entries) && Packed(im.index, 1)
      ensures if old(dataBlock.layout.entries) == [] then im.chunks == old(chunks)
              else OneMore(old(chunks), im.chunks, old(dataBlock.layout.entries))
      ensures |file| < TWO64 ==> TableFile(fmt, cd, cmp.less, filterPolicy, file, entries, im)
      ensures Derived(cmp, entries, im.chunks, im.index.entries, Final(cmp, entries))
    {
      Flush();
      closed := true;
      ghost var dataFile := file;
      var filterHandle, filter := WriteFilter();
      im := WriteRest(filterHandle, dataFile, filter);
    }

    method WriteRest(filterHandle: BlockHandle, ghost dataFile: bytes, ghost filter: bytes) returns (ghost im: Image)
      requires Suited(fmt, cd, cmp) && Settings() && Writable(indexBlock) && Tracks() && dataFile <= file
      requires Progress(fmt, cd, cmp.less, dataFile, entries, chunks, indexBlock.layout.entries, pendingIndexEntry, [])
      requires FilterPlaced(fmt, filterPolicy, file, filterHandle, filter, entries, chunks)
      requires Derived(cmp, entries, chunks, indexBlock.layout.entries, [])
      modifies this`file, this`offset, this`lastKey, this`pendingIndexEntry, indexBlock
      ensures offset == |file| && Derived(cmp, entries, im.chunks, im.index.entries, Final(cmp, entries))
      ensures im.chunks == chunks && Packed(im.index, 1)
      ensures |file| < TWO64 ==> TableFile(fmt, cd, cmp.less, filterPolicy, file, entries, im)
    {
      ghost var filtered := file;
      var metaHandle, meta := WriteMeta(filterHandle);
      CloseIndex(dataFile);
      im := WriteIndexAndFooter(metaHandle, filterHandle, meta, filter, filtered);
    }

    method WriteIndexAndFooter(metaHandle: BlockHandle, ghost filterHandle: BlockHandle, ghost meta: BlockFormat.Layout,
                               ghost filter: bytes, ghost filtered: bytes) returns (ghost im: Image)
      requires Suited(fmt, cd, cmp) && Settings() && Writable(indexBlock) && offset == |file| && filtered <= file
      requires Completed(fmt, cd, cmp.less, file, entries, chunks, indexBlock.layout.entries)
      requires MetaPlaced(fmt, cd, filterPolicy, file, metaHandle, meta, filterHandle) && metaHandle.offset + metaHandle.size <= |file|
      requires FilterPlaced(fmt, filterPolicy, filtered, filterHandle, filter, entries, chunks)
      modifies this`file, this`offset, indexBlock
      ensures offset == |file| && im.chunks == chunks && im.index == old(indexBlock.layout) && Packed(im.index, 1)
      ensures |file| < TWO64 ==> TableFile(fmt, cd, cmp.less, filterPolicy, file, entries, im)
    {
      ghost var withMeta := file;
      var indexHandle, index := WriteIndex();
      ghost var withIndex := file;
      var footer := Footer(metaHandle, indexHandle);
      file := file + fmt.footer(footer);
      offset := offset + |fmt.footer(footer)|;
      im := Image(chunks, index, meta, footer, filterHandle, filter);
      if |file| < TWO64 {
        assert |fmt.footer(footer)| == FOOTER;
        Assembled(fmt, cd, cmp.less, filterPolicy, entries, im, filtered, withMeta, withIndex, file);
      }
    }
  }
}
