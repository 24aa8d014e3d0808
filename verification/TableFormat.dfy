/** What is stored in a table file around its blocks (table/format.cpp): block handles, the
    footer, and the type byte and checksum behind every block. */
module TableFormat {
  import opened Coding
  import Crc32c

  datatype BlockHandle = BlockHandle(offset: nat, size: nat)

  datatype Footer = Footer(metaindex: BlockHandle, index: BlockHandle)

  const TRAILER: nat := 5
  const FOOTER: nat := 48

  /** kTableMagicNumber, low and high word. */
  const MAGIC_LOW: nat := 0x8b80fb57
  const MAGIC_HIGH: nat := 0xdb477524

  // ---- block handles --------------------------------------------------------------------

  function EncodeHandle(h: BlockHandle): bytes { Varint(h.offset) + Varint(h.size) }

  function GetVarint64(b: bytes): (r: Option<(nat, nat)>)
    ensures r.Some? ==> 1 <= r.value.1 <= |b|
  {
    Truncated(DecodeVarint(b, 10), TWO64)
  }

  /** The handle at the front of b and how many bytes it takes, or None for a bad one. */
  function DecodeHandle(b: bytes): (r: Option<(BlockHandle, nat)>)
    ensures r.Some? ==> r.value.1 <= |b|
  {
    var offset := GetVarint64(b);
    if offset.None? then None else
    var size := GetVarint64(b[offset.value.1..]);
    if size.None? then None else Some((BlockHandle(offset.value.0, size.value.0), offset.value.1 + size.value.1))
  }

  predicate Fits(h: BlockHandle) { h.offset < TWO64 && h.size < TWO64 }

  lemma HandleRoundTrip(h: BlockHandle, rest: bytes)
    requires Fits(h)
    ensures |EncodeHandle(h)| <= 20
    ensures DecodeHandle(EncodeHandle(h) + rest) == Some((h, |EncodeHandle(h)|))
  {
    var x, y := Varint(h.offset), Varint(h.size);
    Varint64RoundTrip(h.offset, y + rest);
    Varint64RoundTrip(h.size, rest);
    assert x + y + rest == x + (y + rest);
    assert (x + y + rest)[|x|..] == y + rest;
  }

  // ---- the footer -----------------------------------------------------------------------

  function Magic(): (b: bytes)
    ensures |b| == 8
  {
    Fixed32(MAGIC_LOW) + Fixed32(MAGIC_HIGH)
  }

  /** The magic number as one 64-bit word. */
  lemma MagicIs()
    ensures Magic() == Fixed64(0xdb4775248b80fb57)
  {
  }

  /** dst->resize(40). */
  function Padded(handles: bytes): (r: bytes)
    ensures |r| == 40
  {
    if |handles| <= 40 then handles + ZeroBytes(40 - |handles|) else handles[..40]
  }

  /** Footer::EncodeTo with an empty destination. */
  function EncodeFooter(f: Footer): bytes {
    Padded(EncodeHandle(f.metaindex) + EncodeHandle(f.index)) + Magic()
  }

  predicate HasMagic(b: bytes)
    requires |b| >= FOOTER
  {
    DecodeFixed32(b[40..]) == MAGIC_LOW && DecodeFixed32(b[44..]) == MAGIC_HIGH
  }

  function DecodeHandles(b: bytes): Option<Footer> {
    var metaindex := DecodeHandle(b);
    if metaindex.None? then None else
    var index := DecodeHandle(b[metaindex.value.1..]);
    if index.None? then None else Some(Footer(metaindex.value.0, index.value.0))
  }

  /** Footer::DecodeFrom; None for a bad magic number or a bad handle. */
  function DecodeFooter(b: bytes): Option<Footer>
    requires |b| >= FOOTER
  {
    if !HasMagic(b) then None else DecodeHandles(b)
  }

  /** b is read as h, whatever follows. */
  ghost predicate ReadAs(b: bytes, h: BlockHandle) {
    forall rest: bytes {:trigger DecodeHandle(b + rest)} :: DecodeHandle(b + rest) == Some((h, |b|))
  }

  lemma HandleReadAs(h: BlockHandle)
    requires Fits(h)
    ensures ReadAs(EncodeHandle(h), h) && |EncodeHandle(h)| <= 20
  {
    HandleRoundTrip(h, []);
    forall rest: bytes
      ensures DecodeHandle(EncodeHandle(h) + rest) == Some((h, |EncodeHandle(h)|))
    {
      HandleRoundTrip(h, rest);
    }
  }

  lemma FooterRoundTrip(f: Footer)
    requires Fits(f.metaindex) && Fits(f.index)
    ensures |EncodeFooter(f)| == FOOTER && DecodeFooter(EncodeFooter(f)) == Some(f)
  {
    HandleReadAs(f.metaindex);
    HandleReadAs(f.index);
    MagicBehind(Padded(EncodeHandle(f.metaindex) + EncodeHandle(f.index)));
    HandlesInFront(f, EncodeHandle(f.metaindex), EncodeHandle(f.index), Magic());
  }

  lemma MagicBehind(front: bytes)
    requires |front| == 40
    ensures HasMagic(front + Magic())
  {
    var low, high := Fixed32(MAGIC_LOW), Fixed32(MAGIC_HIGH);
    var b := front + Magic();
    assert b[40..] == low + high;
    assert b[44..] == high + [];
    Fixed32RoundTrip(MAGIC_LOW, high);
    Fixed32RoundTrip(MAGIC_HIGH, []);
  }

  lemma HandlesInFront(f: Footer, m: bytes, i: bytes, rest: bytes)
    requires ReadAs(m, f.metaindex) && ReadAs(i, f.index) && |m| + |i| <= 40
    ensures DecodeHandles(Padded(m + i) + rest) == Some(f)
  {
    var b, tail := Padded(m + i) + rest, ZeroBytes(40 - |m| - |i|) + rest;
    assert b == m + (i + tail);
    assert b[|m|..] == i + tail;
  }

  // ---- blocks in the file ---------------------------------------------------------------

  /** The type byte of a block stored as it is, and its checksum. */
  function CrcTrailer(block: bytes): bytes {
    [0] + Fixed32(Crc32c.Mask(Crc32c.Extended(Crc32c.Octet(), Crc32c.Value(block), [0])))
  }

  predicate CrcMatches(word: nat, data: bytes) {
    word < TWO32 && Crc32c.Unmask(word) == Crc32c.Value(data)
  }

  lemma CrcTrailerMatches(block: bytes)
    ensures var t := CrcTrailer(block); |t| == TRAILER && t[0] == 0 && CrcMatches(DecodeFixed32(t[1..]), block + [0])
  {
    Crc32c.ExtendComposes(Crc32c.Octet(), Crc32c.Zeros(32), block, [0]);
    var crc := Crc32c.Extended(Crc32c.Octet(), Crc32c.Value(block), [0]);
    Crc32c.UnmaskInvertsMask(crc);
    assert CrcTrailer(block)[1..] == Fixed32(Crc32c.Mask(crc)) + [];
    Fixed32RoundTrip(Crc32c.Mask(crc), []);
  }

  // ---- the format as tables use it ------------------------------------------------------

  datatype Format = Format(handle: BlockHandle -> bytes, parseHandle: bytes -> Option<BlockHandle>,
                           footer: Footer -> bytes, parseFooter: bytes -> Option<Footer>,
                           trailer: bytes -> bytes, matches: (nat, bytes) -> bool)

  /** Everything written is read back. */
  ghost predicate Sound(fmt: Format) {
    && (forall h {:trigger fmt.handle(h)} :: Fits(h) ==> fmt.parseHandle(fmt.handle(h)) == Some(h))
    && (forall f: Footer {:trigger fmt.footer(f)} :: Fits(f.metaindex) && Fits(f.index) ==>
          |fmt.footer(f)| == FOOTER && fmt.parseFooter(fmt.footer(f)) == Some(f))
    && (forall block {:trigger fmt.trailer(block)} ::
          var t := fmt.trailer(block); |t| == TRAILER && t[0] == 0 && fmt.matches(DecodeFixed32(t[1..]), block + [0]))
  }

  function VarintFormat(): Format {
    Format((h: BlockHandle) => EncodeHandle(h),
           (b: bytes) => var r := DecodeHandle(b); if r.None? then None else Some(r.value.0),
           (f: Footer) => EncodeFooter(f),
           (b: bytes) => if |b| < FOOTER then None else DecodeFooter(b),
           (block: bytes) => CrcTrailer(block),
           (word: nat, data: bytes) => CrcMatches(word, data))
  }

  lemma VarintFormatIsSound()
    ensures Sound(VarintFormat())
  {
    var fmt := VarintFormat();
    forall h | Fits(h)
      ensures fmt.parseHandle(fmt.handle(h)) == Some(h)
    {
      HandleRoundTrip(h, []);
      assert EncodeHandle(h) + [] == EncodeHandle(h);
    }
    forall f: Footer | Fits(f.metaindex) && Fits(f.index)
      ensures |fmt.footer(f)| == FOOTER && fmt.parseFooter(fmt.footer(f)) == Some(f)
    {
      FooterRoundTrip(f);
    }
    forall block
      ensures var t := fmt.trailer(block); |t| == TRAILER && t[0] == 0 && fmt.matches(DecodeFixed32(t[1..]), block + [0])
    {
      CrcTrailerMatches(block);
    }
  }

  /** ReadBlock: None when the file is too short, the checksum does not match, or the block is
      not stored as it is. */
  function ReadBlock(fmt: Format, file: bytes, h: BlockHandle, verify: bool): Option<bytes> {
    var n := h.size;
    if h.offset + n + TRAILER > |file| then None
    else
      var contents := file[h.offset..h.offset + n + TRAILER];
      if verify && !fmt.matches(DecodeFixed32(contents[n + 1..]), contents[..n + 1]) then None
      else if contents[n] != 0 then None
      else Some(contents[..n])
  }

  /** The handle names a place where the block and its trailer lie. */
  ghost predicate Stored(fmt: Format, file: bytes, h: BlockHandle, block: bytes) {
    h.size == |block| && h.offset + |block| + TRAILER <= |file|
    && file[h.offset..h.offset + |block| + TRAILER] == block + fmt.trailer(block)
  }

  lemma StoredIsRead(fmt: Format, file: bytes, h: BlockHandle, block: bytes, verify: bool)
    requires Sound(fmt) && Stored(fmt, file, h, block)
    ensures ReadBlock(fmt, file, h, verify) == Some(block)
  {
    var n, t := |block|, fmt.trailer(block);
    assert (block + t)[n + 1..] == t[1..];
    assert (block + t)[..n + 1] == block + [t[0]];
    assert (block + t)[..n] == block;
  }

  lemma StoredAtEnd(fmt: Format, file: bytes, block: bytes)
    requires Sound(fmt)
    ensures Stored(fmt, file + block + fmt.trailer(block), BlockHandle(|file|, |block|), block)
    ensures |fmt.trailer(block)| == TRAILER
  {
    var t := fmt.trailer(block);
    assert (file + block + t)[|file|..|file| + |block| + 5] == block + t;
  }

  lemma StoredStays(fmt: Format, file: bytes, more: bytes, h: BlockHandle, block: bytes)
    requires Stored(fmt, file, h, block) && file <= more
    ensures Stored(fmt, more, h, block)
  {
    assert more[h.offset..h.offset + |block| + TRAILER] == file[h.offset..h.offset + |block| + TRAILER];
  }
}
