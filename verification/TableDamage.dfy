/** Damaged table files (table/format.cpp, table/table.cpp): with checksums verified a block is
    read if and only if it stands as it was stored, so that damage within four consecutive
    bytes of a block makes it unreadable and never changes what is read. */
module TableDamage {
  import opened Coding
  import opened Cursors
  import Crc32c
  import Crc32cDetection
  import EntryCodec
  import BlockFormat
  import TwoLevelIterators
  import opened TableFormat
  import opened TableImages
  import Tables

  // ---- which blocks are read ------------------------------------------------------------

  /** The checksum matches if and only if it is the one that is stored behind such a block. */
  lemma MatchesExactly(block: bytes, word: bytes)
    requires |word| == 4
    ensures CrcMatches(DecodeFixed32(word), block + [0]) <==> [0] + word == CrcTrailer(block)
  {
    var f, crc := Crc32c.Octet(), Crc32c.Value(block + [0]);
    Fixed32Onto(word);
    Crc32c.ExtendComposes(f, Crc32c.Zeros(32), block, [0]);
    Crc32c.UnmaskInvertsMask(crc);
    Crc32cDetection.MaskIsOnto(DecodeFixed32(word));
    CrcTrailerMatches(block);
    assert CrcTrailer(block) == [0] + Fixed32(Crc32c.Mask(crc));
    assert ([0] + word)[1..] == word && CrcTrailer(block)[1..] == Fixed32(Crc32c.Mask(crc));
    if CrcMatches(DecodeFixed32(word), block + [0]) {
      assert Crc32c.Mask(crc) == DecodeFixed32(word);
    }
  }

  lemma Cuts(contents: bytes, n: nat)
    requires |contents| == n + TRAILER
    ensures contents == contents[..n] + [contents[n]] + contents[n + 1..]
    ensures contents[..n + 1] == contents[..n] + [contents[n]]
  {
  }

  lemma ReadParts(fmt: Format, file: bytes, h: BlockHandle, block: bytes)
    requires ReadBlock(fmt, file, h, true) == Some(block)
    ensures h.size == |block| && h.offset + h.size + TRAILER <= |file|
    ensures var word := file[h.offset + h.size + 1..h.offset + h.size + TRAILER];
            Region(file, h) == block + ([0] + word) && fmt.matches(DecodeFixed32(word), block + [0])
  {
    var contents := Region(file, h);
    Cuts(contents, h.size);
    assert contents[h.size + 1..] == file[h.offset + h.size + 1..h.offset + h.size + TRAILER];
  }

  lemma ReadIsStored(file: bytes, h: BlockHandle, block: bytes)
    requires ReadBlock(VarintFormat(), file, h, true) == Some(block)
    ensures Stored(VarintFormat(), file, h, block)
  {
    ReadParts(VarintFormat(), file, h, block);
    MatchesExactly(block, file[h.offset + h.size + 1..h.offset + h.size + TRAILER]);
  }

  /** With checksums verified, a block is read if and only if it is stored there. */
  lemma VerifiedExactly(file: bytes, h: BlockHandle, block: bytes)
    ensures ReadBlock(VarintFormat(), file, h, true) == Some(block) <==> Stored(VarintFormat(), file, h, block)
  {
    VarintFormatIsSound();
    if Stored(VarintFormat(), file, h, block) {
      StoredIsRead(VarintFormat(), file, h, block, true);
    }
    if ReadBlock(VarintFormat(), file, h, true) == Some(block) {
      ReadIsStored(file, h, block);
    }
  }

  /** Without, if and only if it lies there with the type byte of a block stored as it is, and
      any five bytes behind the block. */
  lemma UnverifiedExactly(fmt: Format, file: bytes, h: BlockHandle, block: bytes)
    ensures ReadBlock(fmt, file, h, false) == Some(block)
            <==> h.size == |block| && h.offset + |block| + TRAILER <= |file| && file[h.offset..h.offset + |block| + 1] == block + [0]
  {
    var n := h.size;
    if h.offset + n + TRAILER <= |file| {
      var contents := file[h.offset..h.offset + n + TRAILER];
      Cuts(contents, n);
      assert contents[..n + 1] == file[h.offset..h.offset + n + 1];
      if n == |block| && file[h.offset..h.offset + n + 1] == block + [0] {
        assert (contents[..n] + [contents[n]])[..n] == contents[..n];
        assert (block + [0])[..n] == block && (block + [0])[n] == 0;
      }
    }
  }

  /** A block whose type byte is another one is never read. */
  lemma OtherTypeIsRefused(fmt: Format, file: bytes, h: BlockHandle, verify: bool)
    requires h.offset + h.size + TRAILER <= |file| && file[h.offset + h.size] != 0
    ensures ReadBlock(fmt, file, h, verify) == None
  {
  }

  // ---- damage ---------------------------------------------------------------------------

  /** Where a block and its trailer lie. */
  function Region(file: bytes, h: BlockHandle): bytes
    requires h.offset + h.size + TRAILER <= |file|
  {
    file[h.offset..h.offset + h.size + TRAILER]
  }

  /** Changed within four consecutive bytes of block and type byte, or only in the checksum. */
  ghost predicate Struck(was: bytes, now: bytes) {
    && TRAILER <= |was| == |now|
    && var n := |was| - 4;
       (was[n..] == now[n..] && Crc32cDetection.Dented(was[..n], now[..n])) || (was[n..] != now[n..] && was[..n] == now[..n])
  }

  ghost predicate Within(file: bytes, bad: bytes, h: BlockHandle) {
    |bad| == |file| && h.offset + h.size + TRAILER <= |file|
  }

  ghost predicate Hit(file: bytes, bad: bytes, h: BlockHandle) {
    Within(file, bad, h) && Struck(Region(file, h), Region(bad, h))
  }

  ghost predicate Kept(file: bytes, bad: bytes, h: BlockHandle) {
    Within(file, bad, h) && Region(file, h) == Region(bad, h)
  }

  lemma StoredParts(block: bytes)
    ensures var all := block + CrcTrailer(block);
            |all| == |block| + TRAILER && all[..|block| + 1] == block + [0] && all[|block| + 1..] == CrcTrailer(block)[1..]
  {
    CrcTrailerMatches(block);
    Cuts(block + CrcTrailer(block), |block|);
  }

  lemma SameFront(a: bytes, b: bytes)
    requires a + [0] == b + [0]
    ensures a == b
  {
    assert a == (a + [0])[..|a|] && b == (b + [0])[..|b|];
  }

  /** Such damage does not make one stored block of another. */
  lemma StruckIsOther(block: bytes, other: bytes)
    requires |other| == |block|
    ensures !Struck(block + CrcTrailer(block), other + CrcTrailer(other))
  {
    StoredParts(block);
    StoredParts(other);
    CrcTrailerMatches(block);
    CrcTrailerMatches(other);
    if block + [0] == other + [0] {
      SameFront(block, other);
    }
    if Crc32cDetection.Dented(block + [0], other + [0]) {
      Crc32cDetection.DentIsSeen(block + [0], other + [0]);
    }
  }

  lemma StoredRegion(file: bytes, h: BlockHandle, block: bytes)
    requires Stored(VarintFormat(), file, h, block)
    ensures h.size == |block| && h.offset + h.size + TRAILER <= |file| && Region(file, h) == block + CrcTrailer(block)
  {
  }

  /** A block so damaged is refused. */
  lemma DamageIsRefused(file: bytes, bad: bytes, h: BlockHandle, block: bytes)
    requires Stored(VarintFormat(), file, h, block) && Hit(file, bad, h)
    ensures ReadBlock(VarintFormat(), bad, h, true) == None
  {
    StoredRegion(file, h, block);
    var r := ReadBlock(VarintFormat(), bad, h, true);
    if r.Some? {
      VerifiedExactly(bad, h, r.value);
      StoredRegion(bad, h, r.value);
      StruckIsOther(block, r.value);
    }
  }

  /** A block that is not damaged is read as before. */
  lemma KeptIsRead(fmt: Format, file: bytes, bad: bytes, h: BlockHandle, verify: bool)
    requires Kept(file, bad, h)
    ensures ReadBlock(fmt, bad, h, verify) == ReadBlock(fmt, file, h, verify)
  {
  }

  // ---- damaged tables -------------------------------------------------------------------

  /** Every data block stands as it was, or is damaged in that way. */
  ghost predicate DataDamage(file: bytes, bad: bytes, chunks: seq<Chunk>) {
    forall i {:trigger chunks[i]} :: 0 <= i < |chunks| ==> Kept(file, bad, chunks[i].handle) || Hit(file, bad, chunks[i].handle)
  }

  /** What each index entry opens: the entries of its block, or nothing if that is damaged. */
  lemma OpensSurvivors(cd: EntryCodec.Codec, lt: KeyLess, file: bytes, bad: bytes, entries: seq<Entry>,
                       chunks: seq<Chunk>, index: seq<Entry>, i: nat)
    requires EntryCodec.Sound(cd) && |file| < TWO32 && i < |index|
    requires Complete(VarintFormat(), cd, lt, file, entries, chunks, index) && DataDamage(file, bad, chunks)
    ensures TwoLevelIterators.BlockOf(index, Opener(VarintFormat(), cd, bad, true), i)
            == if Kept(file, bad, chunks[i].handle) then chunks[i].layout.entries else []
  {
    var fmt := VarintFormat();
    VarintFormatIsSound();
    OpensChunk(fmt, cd, lt, file, true, entries, chunks, index, i);
    assert ChunkAt(fmt, cd, file, entries, chunks, i);
    if Kept(file, bad, chunks[i].handle) {
      KeptIsRead(fmt, file, bad, chunks[i].handle, true);
    } else {
      DamageIsRefused(file, bad, chunks[i].handle, BlockFormat.Contents(cd, chunks[i].layout));
    }
  }

  /** The entries of the blocks that still stand. */
  ghost function Survivors(file: bytes, bad: bytes, chunks: seq<Chunk>, n: nat): seq<Entry>
    requires n <= |chunks|
  {
    if n == 0 then []
    else Survivors(file, bad, chunks, n - 1) + if Kept(file, bad, chunks[n - 1].handle) then chunks[n - 1].layout.entries else []
  }

  lemma {:induction false} FlatSurvivors(file: bytes, bad: bytes, chunks: seq<Chunk>, index: seq<Entry>, open: TwoLevelIterators.Opener, n: nat)
    requires n <= |index| == |chunks|
    requires forall i {:trigger chunks[i]} :: 0 <= i < n ==>
               open(index[i].value) == if Kept(file, bad, chunks[i].handle) then chunks[i].layout.entries else []
    ensures TwoLevelIterators.Flat(index, open, n) == Survivors(file, bad, chunks, n)
  {
    if n > 0 {
      FlatSurvivors(file, bad, chunks, index, open, n - 1);
      assert chunks[n - 1] == chunks[n - 1];
    }
  }

  /** A scan of a damaged table yields the entries of the blocks that still stand, and no
      other. */
  lemma ScanSurvivors(cd: EntryCodec.Codec, lt: KeyLess, file: bytes, bad: bytes, entries: seq<Entry>,
                      chunks: seq<Chunk>, index: seq<Entry>)
    requires EntryCodec.Sound(cd) && |file| < TWO32
    requires Complete(VarintFormat(), cd, lt, file, entries, chunks, index) && DataDamage(file, bad, chunks)
    ensures |index| == |chunks|
    ensures TwoLevelIterators.All(index, Opener(VarintFormat(), cd, bad, true)) == Survivors(file, bad, chunks, |chunks|)
  {
    var open := Opener(VarintFormat(), cd, bad, true);
    forall i {:trigger chunks[i]} | 0 <= i < |index|
      ensures open(index[i].value) == if Kept(file, bad, chunks[i].handle) then chunks[i].layout.entries else []
    {
      OpensSurvivors(cd, lt, file, bad, entries, chunks, index, i);
    }
    FlatSurvivors(file, bad, chunks, index, open, |index|);
  }

  /** A lookup in a damaged table finds what it found before, or nothing if the block that the
      index names is damaged. */
  lemma LookupSurvivors(cd: EntryCodec.Codec, lt: KeyLess, file: bytes, bad: bytes, entries: seq<Entry>,
                        chunks: seq<Chunk>, index: seq<Entry>, key: bytes)
    requires EntryCodec.Sound(cd) && |file| < TWO32
    requires Complete(VarintFormat(), cd, lt, file, entries, chunks, index) && DataDamage(file, bad, chunks)
    ensures var i := FirstAtLeast(lt, index, key);
            Tables.Found(lt, index, Opener(VarintFormat(), cd, bad, true), key)
            == if i < |index| && Kept(file, bad, chunks[i].handle)
               then Tables.Found(lt, index, Opener(VarintFormat(), cd, file, true), key) else None
  {
    var fmt, i := VarintFormat(), FirstAtLeast(lt, index, key);
    if i < |index| {
      VarintFormatIsSound();
      OpensSurvivors(cd, lt, file, bad, entries, chunks, index, i);
      OpensChunk(fmt, cd, lt, file, true, entries, chunks, index, i);
      assert ChunkAt(fmt, cd, file, entries, chunks, i);
    }
  }

  /** A file without the magic number at its end is not opened. */
  lemma OtherMagicIsRefused(file: bytes, verify: bool)
    requires |file| >= FOOTER && file[|file| - 8..] != Magic()
    ensures Tables.OpenIndex(VarintFormat(), file, verify) == None
  {
    var b := file[|file| - FOOTER..];
    assert b[40..] == file[|file| - 8..];
    if HasMagic(b) {
      MagicExactly(b);
    }
  }

  lemma MagicExactly(b: bytes)
    requires |b| == FOOTER
    ensures HasMagic(b) <==> b[40..] == Magic()
  {
    var low, high := b[40..44], b[44..];
    assert b[40..] == low + high;
    Fixed32Onto(low);
    Fixed32Onto(high);
    assert DecodeFixed32(b[40..]) == DecodeFixed32(low);
    Fixed32RoundTrip(MAGIC_LOW, []);
    Fixed32RoundTrip(MAGIC_HIGH, []);
    assert Fixed32(MAGIC_LOW) + [] == Fixed32(MAGIC_LOW) && Fixed32(MAGIC_HIGH) + [] == Fixed32(MAGIC_HIGH);
    assert b[40..] == Magic() ==> b[40..][..4] == Fixed32(MAGIC_LOW) && b[40..][4..] == Fixed32(MAGIC_HIGH);
  }

  /** The footer of a table reads back, and names its index block. */
  lemma FooterIs(fmt: Format, cd: EntryCodec.Codec, lt: KeyLess, built: Option<Named>, file: bytes, entries: seq<Entry>, im: Image)
    requires Sound(fmt) && TableFile(fmt, cd, lt, built, file, entries, im) && |file| < TWO32
    ensures BlockFormat.WellFormed(im.index) && Stored(fmt, file, im.footer.index, BlockFormat.Contents(cd, im.index))
    ensures fmt.parseFooter(fmt.footer(im.footer)) == Some(im.footer)
  {
    assert UseImage(0);
  }

  /** A table whose index block is damaged is not opened. */
  lemma IndexDamageIsRefused(cd: EntryCodec.Codec, lt: KeyLess, built: Option<Named>, file: bytes, bad: bytes, entries: seq<Entry>, im: Image)
    requires TableFile(VarintFormat(), cd, lt, built, file, entries, im) && Hit(file, bad, im.footer.index)
    requires |file| < TWO32 && |bad| >= FOOTER && bad[|bad| - FOOTER..] == VarintFormat().footer(im.footer)
    ensures Tables.OpenIndex(VarintFormat(), bad, true) == None
  {
    VarintFormatIsSound();
    FooterIs(VarintFormat(), cd, lt, built, file, entries, im);
    DamageIsRefused(file, bad, im.footer.index, BlockFormat.Contents(cd, im.index));
  }

  /** A damaged filter block is not used. */
  lemma FilterDamageIsRefused(cd: EntryCodec.Codec, lt: KeyLess, built: Option<Named>, file: bytes, bad: bytes, entries: seq<Entry>, im: Image)
    requires TableFile(VarintFormat(), cd, lt, built, file, entries, im) && built.Some? && Hit(file, bad, im.filterHandle)
    requires |file| < TWO32
    ensures Tables.FilterAt(VarintFormat(), bad, true, VarintFormat().handle(im.filterHandle)) == None
  {
    assert UseImage(0);
    DamageIsRefused(file, bad, im.filterHandle, im.filter);
    VarintFormatIsSound();
  }
}
