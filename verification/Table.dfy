/** Table (table/table.cpp): a finished table file opened again. */
module Tables {
  import opened Coding
  import opened Cursors
  import Comparators
  import EntryCodec
  import BlockFormat
  import BlockIterators
  import TwoLevelIterators
  import FilterBlocks
  import opened TableFormat
  import opened TableImages
  import TableBuilders
  import DbFormat

  /** The first half of Open: the footer and the index block's bytes; None for a file that is
      too short, a bad footer or a bad index block. */
  function OpenIndex(fmt: Format, file: bytes, verify: bool): Option<(Footer, bytes)> {
    if |file| < FOOTER then None
    else
      var footer := fmt.parseFooter(file[|file| - FOOTER..]);
      if footer.None? then None
      else
        var data := ReadBlock(fmt, file, footer.value.index, verify);
        if data.None? then None else Some((footer.value, data.value))
  }

  /** ReadFilter: the filter block that a metaindex value names. */
  function FilterAt(fmt: Format, file: bytes, verify: bool, value: bytes): Option<bytes> {
    var h := fmt.parseHandle(value);
    if h.None? then None else ReadBlock(fmt, file, h.value, verify)
  }

  /** Opening a finished table finds its parts. */
  lemma OpensTable(fmt: Format, cd: EntryCodec.Codec, lt: KeyLess, built: Option<Named>, file: bytes, entries: seq<Entry>, im: Image, verify: bool)
    requires Sound(fmt) && TableFile(fmt, cd, lt, built, file, entries, im) && |file| < TWO32
    ensures BlockFormat.WellFormed(im.index) && BlockFormat.WellFormed(im.meta)
    ensures OpenIndex(fmt, file, verify) == Some((im.footer, BlockFormat.Contents(cd, im.index)))
    ensures ReadBlock(fmt, file, im.footer.metaindex, verify) == Some(BlockFormat.Contents(cd, im.meta))
    ensures |BlockFormat.Contents(cd, im.index)| < TWO32 && |BlockFormat.Contents(cd, im.meta)| < TWO32
    ensures built.Some? ==> FilterAt(fmt, file, verify, fmt.handle(im.filterHandle)) == Some(im.filter) && |im.filter| < TWO32
  {
    assert UseImage(0);
    StoredIsRead(fmt, file, im.footer.index, BlockFormat.Contents(cd, im.index), verify);
    StoredIsRead(fmt, file, im.footer.metaindex, BlockFormat.Contents(cd, im.meta), verify);
    if built.Some? {
      StoredIsRead(fmt, file, im.filterHandle, im.filter, verify);
    }
  }

  // ---- what a lookup finds --------------------------------------------------------------

  /** The first entry not before the key in the one block that the index names. */
  function Found(lt: KeyLess, index: seq<Entry>, open: TwoLevelIterators.Opener, key: bytes): Option<Entry> {
    var i := FirstAtLeast(lt, index, key);
    if i == |index| then None
    else
      var block := TwoLevelIterators.BlockOf(index, open, i);
      var p := FirstAtLeast(lt, block, key);
      if p == |block| then None else Some(block[p])
  }

  /** It is the first entry of the whole table not before the key. */
  lemma FoundIsFirst(lt: KeyLess, index: seq<Entry>, open: TwoLevelIterators.Opener, key: bytes)
    requires TwoLevelIterators.Separates(lt, index, open) && Found(lt, index, open, key).Some?
    ensures var all := TwoLevelIterators.All(index, open);
            var first := FirstAtLeast(lt, all, key);
            first < |all| && Found(lt, index, open, key) == Some(all[first])
  {
    TwoLevelIterators.SeekInBlock(lt, index, open, key);
    TwoLevelIterators.BlockAt(index, open, FirstAtLeast(lt, index, key));
  }

  /** The key is not behind the last key of block i, and behind the index key before it. */
  ghost predicate InReach(lt: KeyLess, entries: seq<Entry>, chunks: seq<Chunk>, index: seq<Entry>, key: bytes, i: nat) {
    && i < |index| && i < |chunks| && 0 < chunks[i].end <= |entries|
    && (i == 0 || lt(index[i - 1].key, key))
    && !lt(entries[chunks[i].end - 1].key, key)
  }

  /** Something is found if and only if the key is in reach of a block: not when it lies
      behind a block's last key and not behind its index key, though later blocks follow. */
  lemma FoundExactly(fmt: Format, cd: EntryCodec.Codec, lt: KeyLess, file: bytes, entries: seq<Entry>,
                     chunks: seq<Chunk>, index: seq<Entry>, open: TwoLevelIterators.Opener, key: bytes)
    requires Ordered(lt) && Complete(fmt, cd, lt, file, entries, chunks, index) && Opens(index, open, chunks)
    ensures Found(lt, index, open, key).Some? <==> exists i: nat :: InReach(lt, entries, chunks, index, key, i)
    ensures forall i: nat :: InReach(lt, entries, chunks, index, key, i) ==> i == FirstAtLeast(lt, index, key)
  {
    forall i: nat | InReach(lt, entries, chunks, index, key, i)
      ensures i == FirstAtLeast(lt, index, key) && Found(lt, index, open, key).Some?
    {
      ReachIsFound(fmt, cd, lt, file, entries, chunks, index, open, key, i);
    }
    if Found(lt, index, open, key).Some? {
      FoundIsReach(fmt, cd, lt, file, entries, chunks, index, open, key);
    }
  }

  lemma FoundIsReach(fmt: Format, cd: EntryCodec.Codec, lt: KeyLess, file: bytes, entries: seq<Entry>,
                     chunks: seq<Chunk>, index: seq<Entry>, open: TwoLevelIterators.Opener, key: bytes)
    requires Ordered(lt) && Complete(fmt, cd, lt, file, entries, chunks, index) && Opens(index, open, chunks)
    requires Found(lt, index, open, key).Some?
    ensures InReach(lt, entries, chunks, index, key, FirstAtLeast(lt, index, key))
  {
    var i := FirstAtLeast(lt, index, key);
    assert ChunkAt(fmt, cd, file, entries, chunks, i);
    var block, last := chunks[i].layout.entries, entries[chunks[i].end - 1];
    assert open(index[i].value) == block && block[|block| - 1] == last;
    var p := FirstAtLeast(lt, block, key);
    if p < |block| - 1 && lt(last.key, key) {
      assert block[p] == entries[Begin(chunks, i) + p];
      Transitive(lt, block[p].key, last.key, key);
    }
  }

  lemma ReachIsFound(fmt: Format, cd: EntryCodec.Codec, lt: KeyLess, file: bytes, entries: seq<Entry>,
                     chunks: seq<Chunk>, index: seq<Entry>, open: TwoLevelIterators.Opener, key: bytes, i: nat)
    requires Ordered(lt) && Complete(fmt, cd, lt, file, entries, chunks, index) && Opens(index, open, chunks)
    requires InReach(lt, entries, chunks, index, key, i)
    ensures i == FirstAtLeast(lt, index, key) && Found(lt, index, open, key).Some?
  {
    assert ChunkAt(fmt, cd, file, entries, chunks, i);
    assert IndexAt(lt, fmt, entries, chunks, index, i);
    var block, last := chunks[i].layout.entries, entries[chunks[i].end - 1].key;
    if lt(index[i].key, key) {
      Between(lt, index[i].key, key, last);
    }
    forall j | 0 <= j < i
      ensures lt(index[j].key, key)
    {
      if j < i - 1 {
        Transitive(lt, index[j].key, index[i - 1].key, key);
      }
    }
    FirstAtLeastIs(lt, index, key, i);
    assert open(index[i].value) == block && block[|block| - 1].key == last;
  }

  /** Two blocks with one entry each. */
  function TwoBlocks(first: bytes, a: Entry, second: bytes, c: Entry): TwoLevelIterators.Opener {
    (v: bytes) => if v == first then [a] else if v == second then [c] else []
  }

  /** A lookup of the index key b between them finds nothing although the second entry lies
      ahead. */
  lemma GapIsMissed(lt: KeyLess, a: Entry, b: bytes, c: Entry, d: bytes, first: bytes, second: bytes)
    requires Ordered(lt) && lt(a.key, b) && lt(b, c.key) && lt(c.key, d) && first != second
    ensures var index, open := [Entry(b, first), Entry(d, second)], TwoBlocks(first, a, second, c);
            && TwoLevelIterators.Separates(lt, index, open) && TwoLevelIterators.All(index, open) == [a, c]
            && Found(lt, index, open, b) == None && FirstAtLeast(lt, [a, c], b) == 1
  {
    var index, open := [Entry(b, first), Entry(d, second)], TwoBlocks(first, a, second, c);
    Transitive(lt, b, c.key, d);
    assert !lt(b, b) && !lt(c.key, b);
    assert TwoLevelIterators.Flat(index, open, 1) == [a];
    FirstAtLeastIs(lt, [a, c], b, 1);
    FirstAtLeastIs(lt, index, b, 0);
    FirstAtLeastIs(lt, [a], b, 1);
  }

  /** Seeking in the whole table, through the index. */
  lemma SeekThroughIndex(fmt: Format, cd: EntryCodec.Codec, lt: KeyLess, file: bytes, entries: seq<Entry>,
                         chunks: seq<Chunk>, index: seq<Entry>, open: TwoLevelIterators.Opener, key: bytes)
    requires Ordered(lt) && Complete(fmt, cd, lt, file, entries, chunks, index) && Opens(index, open, chunks)
    ensures var i := FirstAtLeast(lt, index, key);
            FirstAtLeast(lt, entries, key)
            == if i < |index| then Begin(chunks, i) + FirstAtLeast(lt, chunks[i].layout.entries, key) else |entries|
  {
    CompleteSeparates(fmt, cd, lt, file, entries, chunks, index, open);
    TwoLevelIterators.SeekInBlock(lt, index, open, key);
    FlatIs(fmt, cd, file, entries, chunks, index, open, FirstAtLeast(lt, index, key));
  }

  /** The first entry not before the key is in the block that the index names, or follows it. */
  lemma FirstNearBlock(fmt: Format, cd: EntryCodec.Codec, lt: KeyLess, file: bytes, entries: seq<Entry>,
                       chunks: seq<Chunk>, index: seq<Entry>, open: TwoLevelIterators.Opener, key: bytes)
    requires Ordered(lt) && Complete(fmt, cd, lt, file, entries, chunks, index) && Opens(index, open, chunks)
    requires FirstAtLeast(lt, entries, key) < |entries|
    ensures var first, i := FirstAtLeast(lt, entries, key), FirstAtLeast(lt, index, key);
            && i < |index| == |chunks| && Begin(chunks, i) <= first <= chunks[i].end && 0 < chunks[i].end
            && (first < chunks[i].end ==> Found(lt, index, open, key) == Some(entries[first]))
            && (first == chunks[i].end ==> lt(entries[first - 1].key, key) && !lt(index[i].key, key))
  {
    var i := FirstAtLeast(lt, index, key);
    SeekThroughIndex(fmt, cd, lt, file, entries, chunks, index, open, key);
    assert ChunkAt(fmt, cd, file, entries, chunks, i);
    assert open(index[i].value) == chunks[i].layout.entries;
  }

  lemma OwnPosition(lt: KeyLess, entries: seq<Entry>, q: nat)
    requires Ordered(lt) && Sorted(lt, entries) && q < |entries|
    ensures FirstAtLeast(lt, entries, entries[q].key) == q
  {
    FirstAtLeastIs(lt, entries, entries[q].key, q);
  }

  /** A key of the table is found, in the block whose index entry comes first. */
  lemma KeyIsFound(fmt: Format, cd: EntryCodec.Codec, lt: KeyLess, file: bytes, entries: seq<Entry>,
                   chunks: seq<Chunk>, index: seq<Entry>, open: TwoLevelIterators.Opener, q: nat)
    requires Ordered(lt) && Complete(fmt, cd, lt, file, entries, chunks, index) && Opens(index, open, chunks) && q < |entries|
    ensures Found(lt, index, open, entries[q].key) == Some(entries[q])
    ensures var i := FirstAtLeast(lt, index, entries[q].key);
            i < |index| && Begin(chunks, i) <= q < chunks[i].end
  {
    var key := entries[q].key;
    OwnPosition(lt, entries, q);
    FirstNearBlock(fmt, cd, lt, file, entries, chunks, index, open, key);
    assert IndexAt(lt, fmt, entries, chunks, index, FirstAtLeast(lt, index, key));
  }

  // ---- the table ------------------------------------------------------------------------

  /** A key is found by its block's filter, when the filter is fit. */
  lemma KeyIsAdmitted(p: FilterBlocks.Policy, filter: bytes, entries: seq<Entry>, chunks: seq<Chunk>, i: nat, q: nat)
    requires Fitting(p, filter, entries, chunks) && FilterBlocks.Lawful(p) && |filter| < TWO32
    requires i < |chunks| && Begin(chunks, i) <= q < chunks[i].end && q < |entries|
    ensures FilterBlocks.KeyMayMatch(p, filter, chunks[i].handle.offset, entries[q].key)
  {
  }

  class Table {
    const fmt: Format
    const cd: EntryCodec.Codec
    const lt: KeyLess
    const policy: Option<Named>
    const file: bytes
    const verify: bool
    const metaindex: BlockHandle
    const indexData: bytes
    const filter: Option<bytes>
    ghost const built: Option<Named>
    ghost const entries: seq<Entry>
    ghost const im: Image

    ghost predicate Valid() {
      && Sound(fmt) && EntryCodec.Sound(cd) && Ordered(lt) && |file| < TWO32
      && TableFile(fmt, cd, lt, built, file, entries, im)
      && OpenIndex(fmt, file, verify) == Some((im.footer, indexData)) && metaindex == im.footer.metaindex
      && (filter.Some? ==> policy.Some? && built.Some? && policy.value.policy == built.value.policy && filter.value == im.filter)
    }

    constructor (fmt: Format, cd: EntryCodec.Codec, lt: KeyLess, policy: Option<Named>, file: bytes, verify: bool,
                 metaindex: BlockHandle, indexData: bytes, filter: Option<bytes>,
                 ghost built: Option<Named>, ghost entries: seq<Entry>, ghost im: Image)
      requires Sound(fmt) && EntryCodec.Sound(cd) && Ordered(lt) && |file| < TWO32
      requires TableFile(fmt, cd, lt, built, file, entries, im)
      requires OpenIndex(fmt, file, verify) == Some((im.footer, indexData)) && metaindex == im.footer.metaindex
      requires filter.Some? ==> policy.Some? && built.Some? && policy.value.policy == built.value.policy && filter.value == im.filter
      ensures Valid() && this.entries == entries && this.filter == filter && this.lt == lt && this.built == built && this.policy == policy
      ensures this.im == im
    {
      this.fmt, this.cd, this.lt, this.policy, this.file, this.verify := fmt, cd, lt, policy, file, verify;
      this.metaindex, this.indexData, this.filter := metaindex, indexData, filter;
      this.built, this.entries, this.im := built, entries, im;
    }

    /** The index block's entries, and the blocks they name. */
    lemma IndexIs()
      requires Valid()
      ensures BlockFormat.WellFormed(im.index) && indexData == BlockFormat.Contents(cd, im.index) && |indexData| < TWO32
      ensures BlockEntries(cd, indexData) == im.index.entries
      ensures Complete(fmt, cd, lt, file, entries, im.chunks, im.index.entries)
      ensures Opens(im.index.entries, Opener(fmt, cd, file, verify), im.chunks)
    {
      OpensTable(fmt, cd, lt, built, file, entries, im, verify);
      ContentsScan(cd, im.index);
      assert UseImage(0);
      OpensChunks(fmt, cd, lt, file, verify, entries, im.chunks, im.index.entries);
    }

    /** An iterator over exactly the entries that were added. */
    method NewIterator() returns (it: TwoLevelIterators.TwoLevelIterator)
      requires Valid()
      ensures fresh(it) && it.Valid() && it.Cursor() == Cursor(entries, |entries|)
      ensures TwoLevelIterators.Separates(lt, it.list, it.open)
    {
      IndexIs();
      var index, open := BlockEntries(cd, indexData), Opener(fmt, cd, file, verify);
      CompleteSeparates(fmt, cd, lt, file, entries, im.chunks, index, open);
      it := new TwoLevelIterators.TwoLevelIterator(Cursor(index, |index|), open);
    }

    /** BlockReader on the value of index entry i. */
    method BlockReader(value: bytes, ghost i: nat) returns (it: BlockIterators.Iter)
      requires Valid() && i < |im.index.entries| && value == im.index.entries[i].value
      ensures fresh(it) && it.Valid() && it.InOrder() && it.lt == lt
      ensures it.Cursor().entries == TwoLevelIterators.BlockOf(im.index.entries, Opener(fmt, cd, file, verify), i)
    {
      IndexIs();
      OpensChunk(fmt, cd, lt, file, verify, entries, im.chunks, im.index.entries, i);
      var h := fmt.parseHandle(value);
      var data := ReadBlock(fmt, file, h.value, verify);
      ChunkSorted(fmt, cd, lt, file, entries, im.chunks, i);
      it := BlockIterators.NewIterator(cd, lt, data.value, im.chunks[i].layout);
    }

    /** The first entry not before the key in block i, given to the saver. */
    method SeekInBlock(value: bytes, key: bytes, ghost i: nat) returns (found: Option<Entry>)
      requires Valid() && i < |im.index.entries| && value == im.index.entries[i].value
      ensures var block := TwoLevelIterators.BlockOf(im.index.entries, Opener(fmt, cd, file, verify), i);
              var p := FirstAtLeast(lt, block, key);
              found == if p == |block| then None else Some(block[p])
    {
      var it := BlockReader(value, i);
      it.Seek(key);
      var valid := it.IsValid();
      if !valid {
        return None;
      }
      var v := it.Value();
      found := Some(Entry(it.key, v));
    }

    /** The index entry for the key: its position, and its value if there is one. */
    method SeekIndex(key: bytes) returns (value: Option<bytes>, ghost i: nat)
      requires Valid()
      ensures i == FirstAtLeast(lt, im.index.entries, key)
      ensures value == if i < |im.index.entries| then Some(im.index.entries[i].value) else None
    {
      IndexIs();
      var it := BlockIterators.NewIterator(cd, lt, indexData, im.index);
      it.Seek(key);
      i := it.pos;
      var valid := it.IsValid();
      if !valid {
        return None, i;
      }
      var v := it.Value();
      value := Some(v);
    }

    /** The filter does not rule the key out of the block that the index value names. */
    predicate Passes(value: bytes, key: bytes)
      requires filter.Some? ==> policy.Some?
    {
      var h := fmt.parseHandle(value);
      filter.Some? && h.Some? ==> FilterBlocks.KeyMayMatch(policy.value.policy, filter.value, h.value.offset, key)
    }

    method Get(key: bytes) returns (found: Option<Entry>)
      requires Valid()
      ensures var index := im.index.entries;
              var i := FirstAtLeast(lt, index, key);
              found == if i < |index| && Passes(index[i].value, key) then Found(lt, index, Opener(fmt, cd, file, verify), key) else None
    {
      var value, i := SeekIndex(key);
      if value.None? || !Passes(value.value, key) {
        return None;
      }
      found := SeekInBlock(value.value, key, i);
    }

    /** The filter, if there is one, does not rule the key out of the block at that offset. */
    ghost predicate Admits(offset: nat, key: bytes)
      requires Valid()
    {
      filter.Some? ==> FilterBlocks.KeyMayMatch(built.value.policy, im.filter, offset, key)
    }

    lemma PassesIs(i: nat, key: bytes)
      requires Valid() && i < |im.index.entries|
      ensures i < |im.chunks| && (Passes(im.index.entries[i].value, key) <==> Admits(im.chunks[i].handle.offset, key))
    {
      IndexIs();
      OpensChunk(fmt, cd, lt, file, verify, entries, im.chunks, im.index.entries, i);
    }

    /** What Get finds, if anything, is the first entry not before the key; and a key that was
        added is always found, with its value. */
    method InternalGet(key: bytes) returns (found: Option<Entry>)
      requires Valid()
      ensures found.Some? ==> var first := FirstAtLeast(lt, entries, key); first < |entries| && found.value == entries[first]
      ensures found.Some? <==> exists i: nat :: InReach(lt, entries, im.chunks, im.index.entries, key, i)
                                                && Admits(im.chunks[i].handle.offset, key)
      ensures filter.None? || FilterBlocks.Lawful(built.value.policy) ==>
                forall q :: 0 <= q < |entries| && entries[q].key == key ==> found == Some(entries[q])
    {
      found := Get(key);
      IndexIs();
      ghost var index, open := im.index.entries, Opener(fmt, cd, file, verify);
      CompleteSeparates(fmt, cd, lt, file, entries, im.chunks, index, open);
      FoundExactly(fmt, cd, lt, file, entries, im.chunks, index, open, key);
      if FirstAtLeast(lt, index, key) < |index| {
        PassesIs(FirstAtLeast(lt, index, key), key);
      }
      if found.Some? {
        FoundIsFirst(lt, index, open, key);
        assert InReach(lt, entries, im.chunks, index, key, FirstAtLeast(lt, index, key));
      }
      if filter.None? || FilterBlocks.Lawful(built.value.policy) {
        forall q | 0 <= q < |entries| && entries[q].key == key
          ensures found == Some(entries[q])
        {
          AddedKeyPasses(q);
        }
      }
    }

    lemma AddedKeyPasses(q: nat)
      requires Valid() && q < |entries| && (filter.None? || FilterBlocks.Lawful(built.value.policy))
      ensures var index, key := im.index.entries, entries[q].key;
              var i := FirstAtLeast(lt, index, key);
              i < |index| && Passes(index[i].value, key) && Found(lt, index, Opener(fmt, cd, file, verify), key) == Some(entries[q])
    {
      var index, open := im.index.entries, Opener(fmt, cd, file, verify);
      IndexIs();
      KeyIsFound(fmt, cd, lt, file, entries, im.chunks, index, open, q);
      var i := FirstAtLeast(lt, index, entries[q].key);
      OpensChunk(fmt, cd, lt, file, verify, entries, im.chunks, index, i);
      if filter.Some? {
        OpensTable(fmt, cd, lt, built, file, entries, im, verify);
        FilterIsFit();
        KeyIsAdmitted(built.value.policy, im.filter, entries, im.chunks, i, q);
      }
    }

    lemma FilterIsFit()
      requires Valid() && built.Some?
      ensures Fitting(built.value.policy, im.filter, entries, im.chunks)
    {
      assert UseImage(0);
    }

    /** The offset of the block the key would be in, or near the end of the file. */
    method ApproximateOffsetOf(key: bytes) returns (offset: nat)
      requires Valid()
      ensures var i := FirstAtLeast(lt, im.index.entries, key);
              |im.chunks| == |im.index.entries| && (i < |im.chunks| ==> offset == im.chunks[i].handle.offset)
      ensures forall q :: 0 <= q < |entries| && entries[q].key == key ==>
                exists i :: 0 <= i < |im.chunks| && Begin(im.chunks, i) <= q < im.chunks[i].end && offset == im.chunks[i].handle.offset
      ensures FirstAtLeast(lt, im.index.entries, key) == |im.index.entries| ==> offset == metaindex.offset
    {
      var value, i := SeekIndex(key);
      if value.None? {
        offset := metaindex.offset;
      } else {
        var h := fmt.parseHandle(value.value);
        offset := if h.Some? then h.value.offset else metaindex.offset;
      }
      IndexIs();
      if i < |im.chunks| {
        OpensChunk(fmt, cd, lt, file, verify, entries, im.chunks, im.index.entries, i);
      }
      forall q | 0 <= q < |entries| && entries[q].key == key
        ensures i < |im.chunks| && Begin(im.chunks, i) <= q < im.chunks[i].end && offset == im.chunks[i].handle.offset
      {
        KeyIsFound(fmt, cd, lt, file, entries, im.chunks, im.index.entries, Opener(fmt, cd, file, verify), q);
      }
    }
  }

  lemma ChunkSorted(fmt: Format, cd: EntryCodec.Codec, lt: KeyLess, file: bytes, entries: seq<Entry>, chunks: seq<Chunk>, i: nat)
    requires Sorted(lt, entries) && Chunked(fmt, cd, file, entries, chunks) && i < |chunks|
    ensures Sorted(lt, chunks[i].layout.entries)
  {
    assert ChunkAt(fmt, cd, file, entries, chunks, i);
  }

  // ---- opening --------------------------------------------------------------------------

  ghost predicate SameName(policy: Option<Named>, built: Option<Named>) {
    policy.Some? && built.Some? && policy.value.name == built.value.name
  }

  lemma MetaIs(fmt: Format, cd: EntryCodec.Codec, lt: KeyLess, built: Option<Named>, file: bytes, entries: seq<Entry>, im: Image)
    requires TableFile(fmt, cd, lt, built, file, entries, im)
    ensures im.meta.entries == if built.None? then [] else [Entry(FilterKey(built.value.name), fmt.handle(im.filterHandle))]
  {
    assert UseImage(0);
  }

  lemma FilterKeysDiffer(a: bytes, b: bytes)
    ensures FilterKey(a) == FilterKey(b) <==> a == b
  {
    assert FilterKey(a)[7..] == a && FilterKey(b)[7..] == b;
  }

  /** Seeking the policy's name in the metaindex. */
  lemma SeekMeta(meta: seq<Entry>, name: bytes, key: bytes, value: bytes)
    requires meta == [Entry(FilterKey(name), value)]
    ensures key == FilterKey(name) ==> FirstAtLeast(Comparators.Bytewise(), meta, key) == 0
  {
    Comparators.BytewiseAsymmetric(key, key);
  }

  /** ReadMeta: the filter is used when the table was built with a policy of the same name. */
  method ReadMeta(fmt: Format, cd: EntryCodec.Codec, policy: Option<Named>, file: bytes, verify: bool, metaindex: BlockHandle,
                  ghost lt: KeyLess, ghost built: Option<Named>, ghost entries: seq<Entry>, ghost im: Image)
    returns (filter: Option<bytes>)
    requires Sound(fmt) && EntryCodec.Sound(cd) && |file| < TWO32 && metaindex == im.footer.metaindex
    requires TableFile(fmt, cd, lt, built, file, entries, im)
    ensures filter == if SameName(policy, built) then Some(im.filter) else None
  {
    if policy.None? {
      return None;
    }
    OpensTable(fmt, cd, lt, built, file, entries, im, verify);
    MetaIs(fmt, cd, lt, built, file, entries, im);
    Comparators.BytewiseOrdered();
    var meta := ReadBlock(fmt, file, metaindex, verify);
    var key := FilterKey(policy.value.name);
    var it := BlockIterators.NewIterator(cd, Comparators.Bytewise(), meta.value, im.meta);
    it.Seek(key);
    if built.Some? {
      SeekMeta(im.meta.entries, built.value.name, key, fmt.handle(im.filterHandle));
      FilterKeysDiffer(policy.value.name, built.value.name);
    }
    var valid := it.IsValid();
    filter := None;
    if valid {
      var value := it.Value();
      if it.key == key {
        filter := FilterAt(fmt, file, verify, value);
      }
    }
  }

  /** Open on a finished table. */
  method Open(fmt: Format, cd: EntryCodec.Codec, lt: KeyLess, policy: Option<Named>, file: bytes, verify: bool,
              ghost built: Option<Named>, ghost entries: seq<Entry>, ghost im: Image)
    returns (t: Table)
    requires Sound(fmt) && EntryCodec.Sound(cd) && Ordered(lt) && |file| < TWO32
    requires TableFile(fmt, cd, lt, built, file, entries, im)
    requires SameName(policy, built) ==> policy == built
    ensures fresh(t) && t.Valid() && t.entries == entries && t.lt == lt && t.built == built && t.im == im
    ensures t.filter.Some? <==> SameName(policy, built)
  {
    OpensTable(fmt, cd, lt, built, file, entries, im, verify);
    var parts := OpenIndex(fmt, file, verify);
    var (footer, indexData) := parts.value;
    var filter := ReadMeta(fmt, cd, policy, file, verify, footer.metaindex, lt, built, entries, im);
    t := new Table(fmt, cd, lt, policy, file, verify, footer.metaindex, indexData, filter, built, entries, im);
  }

  // ---- end to end -----------------------------------------------------------------------

  /** The program's own codecs are suited, with any lawful comparator, and with the internal
      comparator over one that leaves equal keys alone. */
  lemma ProgramIsSuited(uc: Comparators.Comparator)
    requires Comparators.Lawful(uc)
    ensures TableBuilders.Suited(VarintFormat(), EntryCodec.VarintCodec(), uc)
    ensures DbFormat.UserLawful(uc) ==>
              TableBuilders.Suited(VarintFormat(), EntryCodec.VarintCodec(), DbFormat.InternalComparator(uc))
  {
    VarintFormatIsSound();
    EntryCodec.VarintCodecIsSound();
    if DbFormat.UserLawful(uc) {
      DbFormat.InternalIsLawful(uc);
    }
  }

  /** A block ends behind the first n entries. */
  ghost predicate EndsBlock(chunks: seq<Chunk>, n: nat) {
    exists c :: 0 <= c < |chunks| && chunks[c].end == n
  }

  lemma EndsStay(chunks: seq<Chunk>, more: seq<Chunk>)
    requires chunks <= more
    ensures forall n: nat :: EndsBlock(chunks, n) ==> EndsBlock(more, n)
  {
    forall n: nat | EndsBlock(chunks, n)
      ensures EndsBlock(more, n)
    {
      var c :| 0 <= c < |chunks| && chunks[c].end == n;
      assert more[c].end == n;
    }
  }

  /** A data block had not reached the size before its last entry. */
  ghost predicate Snug(cd: EntryCodec.Codec, interval: nat, blockSize: nat, c: Chunk) {
    TableBuilders.Roomy(cd, interval, blockSize, c.layout.entries, |c.layout.entries| - 1)
  }

  /** With it the block had, or Flush was called behind it. */
  ghost predicate Due(cd: EntryCodec.Codec, interval: nat, blockSize: nat, flushes: set<nat>, c: Chunk) {
    TableBuilders.Filled(cd, interval, blockSize, c.layout) || c.end - 1 in flushes
  }

  /** Every block is cut where it was due. */
  ghost predicate AllCut(cd: EntryCodec.Codec, interval: nat, blockSize: nat, flushes: set<nat>, chunks: seq<Chunk>) {
    chunks != [] ==>
      var last := chunks[|chunks| - 1];
      && AllCut(cd, interval, blockSize, flushes, chunks[..|chunks| - 1])
      && Snug(cd, interval, blockSize, last) && Due(cd, interval, blockSize, flushes, last)
  }

  /** Every block but the last, which Finish may have cut. */
  ghost predicate WellCut(cd: EntryCodec.Codec, interval: nat, blockSize: nat, flushes: set<nat>, chunks: seq<Chunk>) {
    chunks != [] ==>
      AllCut(cd, interval, blockSize, flushes, chunks[..|chunks| - 1]) && Snug(cd, interval, blockSize, chunks[|chunks| - 1])
  }

  method AddEntry(b: TableBuilders.TableBuilder, e: Entry, ghost flushes: set<nat>)
    requires b.Valid() && !b.closed && NewKey(b.cmp.less, b.entries, e.key)
    requires AllCut(b.cd, b.interval, b.blockSize, flushes, b.chunks)
    modifies b, b.dataBlock, b.indexBlock, b.filterBlock
    ensures b.Valid() && !b.closed && b.entries == old(b.entries) + [e]
    ensures AllCut(b.cd, b.interval, b.blockSize, flushes, b.chunks) && old(b.chunks) <= b.chunks
  {
    ghost var before, tail := b.chunks, b.dataBlock.layout.entries;
    TableBuilders.RoomyStays(b.cd, b.interval, b.blockSize, tail, e);
    b.Add(e.key, e.value);
  }

  /** One entry, and perhaps a Flush behind it. */
  method AddOne(b: TableBuilders.TableBuilder, e: Entry, flush: bool, ghost flushes: set<nat>)
    requires b.Valid() && !b.closed && NewKey(b.cmp.less, b.entries, e.key) && (flush <==> |b.entries| in flushes)
    requires AllCut(b.cd, b.interval, b.blockSize, flushes, b.chunks)
    modifies b, b.dataBlock, b.indexBlock, b.filterBlock
    ensures b.Valid() && !b.closed && b.entries == old(b.entries) + [e]
    ensures AllCut(b.cd, b.interval, b.blockSize, flushes, b.chunks)
    ensures old(b.chunks) <= b.chunks && (flush ==> EndsBlock(b.chunks, |b.entries|))
  {
    AddEntry(b, e, flushes);
    if flush {
      FlushOne(b, flushes);
    }
  }

  method FlushOne(b: TableBuilders.TableBuilder, ghost flushes: set<nat>)
    requires b.Valid() && !b.closed && b.entries != [] && |b.entries| - 1 in flushes
    requires AllCut(b.cd, b.interval, b.blockSize, flushes, b.chunks)
    modifies b, b.dataBlock, b.filterBlock
    ensures b.Valid() && !b.closed && b.entries == old(b.entries)
    ensures AllCut(b.cd, b.interval, b.blockSize, flushes, b.chunks)
    ensures old(b.chunks) <= b.chunks && EndsBlock(b.chunks, |b.entries|)
  {
    ghost var before, tail := b.chunks, b.dataBlock.layout.entries;
    TableBuilders.RoomyLess(b.cd, b.interval, b.blockSize, tail);
    b.Flush();
    assert b.chunks[|b.chunks| - 1].end == |b.entries|;
  }

  /** Adds the entries, with Flush behind those in `flushes`, and finishes. */
  method Build(fmt: Format, cd: EntryCodec.Codec, cmp: Comparators.Comparator, blockSize: nat, interval: nat,
               built: Option<Named>, adds: seq<Entry>, flushes: set<nat>)
    returns (b: TableBuilders.TableBuilder, ghost im: Image)
    requires 1 <= interval && TableBuilders.Suited(fmt, cd, cmp) && Sorted(cmp.less, adds)
    ensures fresh(b) && b.entries == adds && (|b.file| < TWO64 ==> TableFile(fmt, cd, cmp.less, built, b.file, adds, im))
    ensures Derived(cmp, adds, im.chunks, im.index.entries, Final(cmp, adds))
    ensures forall i :: i in flushes && i < |adds| ==> EndsBlock(im.chunks, i + 1)
    ensures WellCut(cd, interval, blockSize, flushes, im.chunks)
  {
    b := new TableBuilders.TableBuilder(fmt, cd, cmp, blockSize, interval, built);
    for i := 0 to |adds|
      invariant b.Valid() && !b.closed && b.entries == adds[..i]
      invariant b.cd == cd && b.interval == interval && b.blockSize == blockSize && AllCut(cd, interval, blockSize, flushes, b.chunks)
      invariant forall k :: k in flushes && k < i ==> EndsBlock(b.chunks, k + 1)
      invariant fresh(b) && fresh(b.dataBlock) && fresh(b.indexBlock) && (b.filterBlock != null ==> fresh(b.filterBlock))
    {
      ghost var before := b.chunks;
      AddOne(b, adds[i], i in flushes, flushes);
      EndsStay(before, b.chunks);
    }
    assert adds[..|adds|] == adds;
    im := FinishAll(b, flushes);
  }

  method FinishAll(b: TableBuilders.TableBuilder, ghost flushes: set<nat>) returns (ghost im: Image)
    requires b.Valid() && !b.closed && AllCut(b.cd, b.interval, b.blockSize, flushes, b.chunks)
    modifies b, b.dataBlock, b.indexBlock, b.filterBlock
    ensures b.entries == old(b.entries)
    ensures |b.file| < TWO64 ==> TableFile(b.fmt, b.cd, b.cmp.less, b.filterPolicy, b.file, b.entries, im)
    ensures Derived(b.cmp, b.entries, im.chunks, im.index.entries, Final(b.cmp, b.entries))
    ensures WellCut(b.cd, b.interval, b.blockSize, flushes, im.chunks)
    ensures forall n: nat :: EndsBlock(old(b.chunks), n) ==> EndsBlock(im.chunks, n)
  {
    ghost var before, tail := b.chunks, b.dataBlock.layout.entries;
    TableBuilders.RoomyLess(b.cd, b.interval, b.blockSize, tail);
    im := b.Finish();
    EndsStay(before, im.chunks);
  }

  /** Any strictly increasing list of entries, with Flush called after any of them: the file
      opens as a table of exactly those entries, its blocks cut at the block size. */
  method BuildAndOpen(fmt: Format, cd: EntryCodec.Codec, cmp: Comparators.Comparator, blockSize: nat, interval: nat,
                      built: Option<Named>, policy: Option<Named>, verify: bool, adds: seq<Entry>, flushes: set<nat>)
    returns (b: TableBuilders.TableBuilder, t: Option<Table>)
    requires 1 <= interval && TableBuilders.Suited(fmt, cd, cmp) && Sorted(cmp.less, adds)
    requires SameName(policy, built) ==> policy == built
    ensures b.entries == adds && (|b.file| < TWO32 ==> t.Some?)
    ensures t.Some? ==> t.value.Valid() && t.value.entries == adds && t.value.lt == cmp.less && t.value.built == built
    ensures t.Some? ==> (t.value.filter.Some? <==> SameName(policy, built))
    ensures t.Some? ==> Derived(cmp, adds, t.value.im.chunks, t.value.im.index.entries, Final(cmp, adds))
    ensures t.Some? ==> forall i :: i in flushes && i < |adds| ==> EndsBlock(t.value.im.chunks, i + 1)
    ensures t.Some? ==> WellCut(cd, interval, blockSize, flushes, t.value.im.chunks)
  {
    ghost var im: Image;
    b, im := Build(fmt, cd, cmp, blockSize, interval, built, adds, flushes);
    if |b.file| < TWO32 {
      var table := Open(fmt, cd, cmp.less, policy, b.file, verify, built, adds, im);
      t := Some(table);
    } else {
      t := None;
    }
  }

  /** Keys "a" and "c": "b" lies between them, and is their separator. */
  lemma AroundB(a: Entry, c: Entry)
    requires a.key == [0x61] && c.key == [0x63]
    ensures var cmp := Comparators.BytewiseComparator();
            && Sorted(cmp.less, [a, c]) && cmp.less(a.key, [0x62]) && Comparators.ShortestSeparator(a.key, c.key) == [0x62]
            && !cmp.less([0x62], [0x62]) && FirstAtLeast(cmp.less, [a, c], [0x62]) == 1
  {
    var lt := Comparators.BytewiseComparator().less;
    assert lt([0x61], [0x62]) && lt([0x62], [0x63]) && lt([0x61], [0x63]) && !lt([0x63], [0x62]);
    FirstAtLeastIs(lt, [a, c], [0x62], 1);
  }

  /** Keys "a" and "c" with a Flush between them, built, opened and looked up: "b" finds nothing,
      although "c" lies ahead. */
  method LookupOfBMisses(a: Entry, c: Entry, blockSize: nat, interval: nat, verify: bool)
    returns (b: TableBuilders.TableBuilder, found: Option<Entry>)
    requires 1 <= interval && a.key == [0x61] && c.key == [0x63]
    ensures b.entries == [a, c] && (|b.file| < TWO32 ==> found == None)
    ensures FirstAtLeast(Comparators.BytewiseComparator().less, b.entries, [0x62]) == 1
  {
    AroundB(a, c);
    b, found := LookupBetween(a, c, [0x62], blockSize, interval, verify);
  }

  /** Of any two keys, the separator finds nothing when a Flush comes between them. */
  method LookupBetween(a: Entry, c: Entry, key: bytes, blockSize: nat, interval: nat, verify: bool)
    returns (b: TableBuilders.TableBuilder, found: Option<Entry>)
    requires 1 <= interval && Sorted(Comparators.BytewiseComparator().less, [a, c])
    requires Comparators.BytewiseComparator().less(a.key, key)
    requires !Comparators.BytewiseComparator().less(Comparators.ShortestSeparator(a.key, c.key), key)
    ensures b.entries == [a, c] && (|b.file| < TWO32 ==> found == None)
  {
    var cmp := Comparators.BytewiseComparator();
    Comparators.BytewiseIsLawful();
    ProgramIsSuited(cmp);
    var t: Option<Table>;
    b, t := BuildAndOpen(VarintFormat(), EntryCodec.VarintCodec(), cmp, blockSize, interval, None, None, verify, [a, c], {0});
    found := None;
    if t.Some? {
      found := t.value.InternalGet(key);
      NothingInReach(t.value, [a, c], key);
    }
  }

  lemma TwoSingleBlocks(fmt: Format, cd: EntryCodec.Codec, file: bytes, adds: seq<Entry>, chunks: seq<Chunk>)
    requires Chunked(fmt, cd, file, adds, chunks) && |adds| == 2 && EndsBlock(chunks, 1)
    ensures 0 < |chunks| <= 2 && chunks[0].end == 1
  {
    var c :| 0 <= c < |chunks| && chunks[c].end == 1;
    ChunkEnds(fmt, cd, file, adds, chunks, 0, 1);
    if 0 < c {
      ChunkEnds(fmt, cd, file, adds, chunks, 1, c + 1);
    }
    if 2 < |chunks| {
      ChunkEnds(fmt, cd, file, adds, chunks, 1, 2);
      ChunkEnds(fmt, cd, file, adds, chunks, 2, 3);
    }
  }

  /** A key not before the index key between two single entries is in reach of neither block. */
  lemma NothingInReach(t: Table, adds: seq<Entry>, key: bytes)
    requires t.Valid() && t.entries == adds && |adds| == 2 && EndsBlock(t.im.chunks, 1)
    requires Derived(Comparators.BytewiseComparator(), adds, t.im.chunks, t.im.index.entries, Final(Comparators.BytewiseComparator(), adds))
    requires t.lt(adds[0].key, key) && !t.lt(Comparators.ShortestSeparator(adds[0].key, adds[1].key), key)
    ensures forall i: nat :: !InReach(t.lt, adds, t.im.chunks, t.im.index.entries, key, i)
  {
    t.IndexIs();
    var chunks, index, cmp := t.im.chunks, t.im.index.entries, Comparators.BytewiseComparator();
    TwoSingleBlocks(t.fmt, t.cd, t.file, adds, chunks);
    FirstDerived(cmp, adds, chunks, index);
  }

  lemma FirstDerived(cmp: Comparators.Comparator, adds: seq<Entry>, chunks: seq<Chunk>, index: seq<Entry>)
    requires Derived(cmp, adds, chunks, index, Final(cmp, adds)) && |adds| == 2 && index != [] && chunks != [] && chunks[0].end == 1
    ensures index[0].key == cmp.separator(adds[0].key, adds[1].key)
  {
    assert UseDerived(0);
    assert DerivedAt(cmp, adds, chunks, index, Final(cmp, adds), 0);
  }
}
