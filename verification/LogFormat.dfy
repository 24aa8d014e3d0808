/** The write-ahead log's format (db/log_format.h) and the bytes log::Writer produces
    (db/log_writer.cpp).

    A log is a sequence of 32 KiB blocks of physical records, each a 7-byte header (checksum,
    length, type) and a payload, none crossing a block boundary.  The framing is a
    parameter, of which only soundness is used; CrcFraming is the one the program uses. */
module LogFormat {
  import opened Coding
  import Crc32c

  const BLOCK: nat := 32768
  const HEADER: nat := 7

  const ZERO: byte := 0
  const FULL: byte := 1
  const FIRST: byte := 2
  const MIDDLE: byte := 3
  const LAST: byte := 4

  /** How a payload is framed: the header the writer puts in front of it, and whether the
      checksum word of a header matches a type byte and payload. */
  datatype Framing = Framing(header: (byte, bytes) -> bytes, matches: (nat, byte, bytes) -> bool)

  /** A header carries the length and the type, and a checksum word that matches. */
  ghost predicate Sound(fr: Framing) {
    forall kind, payload {:trigger fr.header(kind, payload)} ::
      var h := fr.header(kind, payload);
      && |h| == 7
      && (|payload| < 0x1_0000 ==>
            && HeaderLength(h) == |payload|
            && h[6] == kind
            && fr.matches(DecodeFixed32(h), kind, payload))
  }

  function HeaderLength(h: bytes): nat
    requires |h| >= 6
  {
    var a: int, b: int := h[4], h[5];
    a + 256 * b
  }

  /** The checksum the writer stores: it extends a precomputed CRC of the type byte. */
  function StoredCrc(kind: byte, payload: bytes): nat {
    Crc32c.Mask(Crc32c.Extended(Crc32c.Octet(), Crc32c.Value([kind]), payload))
  }

  /** The header of EmitPhysicalRecord. */
  function CrcHeader(kind: byte, payload: bytes): bytes {
    Fixed32(StoredCrc(kind, payload)) + [|payload| % 256, |payload| / 256 % 256, kind]
  }

  /** The check of ReadPhysicalRecord: the CRC of type byte and payload, in one go. */
  predicate CrcMatches(word: nat, kind: byte, payload: bytes) {
    word < TWO32 && Crc32c.Unmask(word) == Crc32c.Value([kind] + payload)
  }

  function CrcFraming(): Framing {
    Framing((kind: byte, payload: bytes) => CrcHeader(kind, payload),
            (word: nat, kind: byte, payload: bytes) => CrcMatches(word, kind, payload))
  }

  lemma StoredCrcMatches(kind: byte, payload: bytes)
    ensures StoredCrc(kind, payload) < TWO32 && CrcMatches(StoredCrc(kind, payload), kind, payload)
  {
    Crc32c.ExtendComposes(Crc32c.Octet(), Crc32c.Zeros(32), [kind], payload);
    Crc32c.UnmaskInvertsMask(Crc32c.Extended(Crc32c.Octet(), Crc32c.Value([kind]), payload));
  }

  lemma CrcHeaderIsSound(kind: byte, payload: bytes)
    ensures var h := CrcHeader(kind, payload);
            && |h| == 7 && h[6] == kind && CrcMatches(DecodeFixed32(h), kind, payload)
            && (|payload| < 0x1_0000 ==> HeaderLength(h) == |payload|)
  {
    StoredCrcMatches(kind, payload);
    var w, tail: bytes := Fixed32(StoredCrc(kind, payload)), [|payload| % 256, |payload| / 256 % 256, kind];
    Fixed32RoundTrip(StoredCrc(kind, payload), tail);
    TwoBytes(|payload|);
    assert (w + tail)[4] == tail[0] && (w + tail)[5] == tail[1] && (w + tail)[6] == tail[2];
  }

  lemma TwoBytes(n: nat)
    ensures n < 0x1_0000 ==> n % 256 + 256 * (n / 256 % 256) == n
  {
  }

  lemma CrcFramingIsSound()
    ensures Sound(CrcFraming())
  {
    forall kind, payload
      ensures var h := CrcFraming().header(kind, payload);
              && |h| == 7 && h[6] == kind && CrcFraming().matches(DecodeFixed32(h), kind, payload)
              && (|payload| < 0x1_0000 ==> HeaderLength(h) == |payload|)
    {
      CrcHeaderIsSound(kind, payload);
    }
  }

  // ---- where the physical records lie ---------------------------------------------------

  /** The offset of position p in its block. */
  function Offset(p: nat): nat { p % 32768 }

  /** The end of the block that holds position p. */
  function BlockEnd(p: nat): nat {
    p - Offset(p) + 32768
  }

  /** Fewer than 7 bytes at the end of a block are a trailer to skip. */
  function SkipTrailer(p: nat): nat {
    if BLOCK - Offset(p) < HEADER then BlockEnd(p) else p
  }

  datatype Physical = Physical(start: nat, kind: byte, payload: bytes) {
    function End(): nat { start + HEADER + |payload| }
  }

  function Kind(begin: bool, end: bool): byte {
    if begin && end then FULL else if begin then FIRST else if end then LAST else MIDDLE
  }

  /** How many of the bytes still to write fit in the block at q. */
  function Room(q: nat, data: bytes): (n: nat)
    requires q == SkipTrailer(q)
    ensures n <= |data|
  {
    var avail := BLOCK - Offset(q) - HEADER;
    if |data| < avail then |data| else avail
  }

  lemma SkipTrailerIdempotent(p: nat)
    ensures SkipTrailer(SkipTrailer(p)) == SkipTrailer(p) >= p
  {
  }

  /** The next physical record when data remains to be written at position p. */
  function NextFragment(p: nat, data: bytes, begin: bool): Physical {
    SkipTrailerIdempotent(p);
    var q := SkipTrailer(p);
    var n := Room(q, data);
    Physical(q, Kind(begin, n == |data|), data[..n])
  }

  /** The fragments of a record of which data remains, written from position p on. */
  function Fragments(p: nat, data: bytes, begin: bool): (fs: seq<Physical>)
    ensures 0 < |fs|
    decreases |data|, if Offset(p) == 0 then 0 else 1
  {
    var ph := NextFragment(p, data, begin);
    var n := |ph.payload|;
    if n == |data| then [ph]
    else
      FragmentFillsBlock(p, data, begin);
      [ph] + Fragments(ph.End(), data[n..], false)
  }

  lemma FragmentFillsBlock(p: nat, data: bytes, begin: bool)
    ensures var ph := NextFragment(p, data, begin);
            && ph.start == SkipTrailer(p) && ph.End() <= BlockEnd(ph.start)
            && |ph.payload| <= |data| && ph.payload == data[..|ph.payload|]
            && (|ph.payload| != |data| ==> ph.End() == BlockEnd(ph.start) && Offset(ph.End()) == 0)
            && (|ph.payload| == 0 && |data| != 0 ==> Offset(p) != 0)
  {
  }

  /** The position just past a record. */
  function EndOf(p: nat, data: bytes, begin: bool): nat {
    var fs := Fragments(p, data, begin);
    fs[|fs| - 1].End()
  }

  function Layout(p: nat, records: seq<bytes>): seq<Physical>
    decreases |records|
  {
    if records == [] then []
    else Fragments(p, records[0], true) + Layout(EndOf(p, records[0], true), records[1..])
  }

  function LayoutEnd(p: nat, records: seq<bytes>): nat
    decreases |records|
  {
    if records == [] then p else LayoutEnd(EndOf(p, records[0], true), records[1..])
  }

  // ---- the bytes ------------------------------------------------------------------------

  function Render(fr: Framing, kind: byte, payload: bytes): bytes {
    fr.header(kind, payload) + payload
  }

  /** The fragments follow one another from position p on. */
  ghost predicate Chain(p: nat, fs: seq<Physical>)
    decreases |fs|
  {
    fs != [] ==> p <= fs[0].start && Chain(fs[0].End(), fs[1..])
  }

  /** The bytes from position p to the end of the last fragment, with zeros in the trailers. */
  function RenderAll(fr: Framing, p: nat, fs: seq<Physical>): bytes
    requires Chain(p, fs)
    decreases |fs|
  {
    if fs == [] then []
    else ZeroBytes(fs[0].start - p) + Render(fr, fs[0].kind, fs[0].payload) + RenderAll(fr, fs[0].End(), fs[1..])
  }

  lemma {:induction false} FragmentsChain(p: nat, data: bytes, begin: bool)
    ensures Chain(p, Fragments(p, data, begin))
    decreases |data|, if Offset(p) == 0 then 0 else 1
  {
    FragmentFillsBlock(p, data, begin);
    SkipTrailerIdempotent(p);
    FragmentsUnfold(p, data, begin);
    var ph := NextFragment(p, data, begin);
    if |ph.payload| != |data| {
      FragmentsChain(ph.End(), data[|ph.payload|..], false);
      assert Fragments(p, data, begin)[1..] == Fragments(ph.End(), data[|ph.payload|..], false);
    }
  }

  /** What AddRecord appends at position p. */
  function Emitted(fr: Framing, p: nat, data: bytes, begin: bool): bytes {
    FragmentsChain(p, data, begin);
    RenderAll(fr, p, Fragments(p, data, begin))
  }

  /** Physical record ph stands in the file. */
  ghost predicate Holds(fr: Framing, file: bytes, ph: Physical) {
    ph.End() <= |file| && file[ph.start..ph.End()] == Render(fr, ph.kind, ph.payload)
  }

  ghost predicate HoldsAll(fr: Framing, file: bytes, fs: seq<Physical>) {
    forall i :: 0 <= i < |fs| ==> Holds(fr, file, fs[i])
  }

  lemma HoldsHere(fr: Framing, before: bytes, pad: bytes, ph: Physical, after: bytes)
    requires Sound(fr)
    requires ph.start == |before| + |pad|
    ensures Holds(fr, before + pad + Render(fr, ph.kind, ph.payload) + after, ph)
  {
    var r := Render(fr, ph.kind, ph.payload);
    assert (before + pad + r + after)[ph.start..ph.End()] == r;
  }

  lemma HoldsCons(fr: Framing, file: bytes, ph: Physical, fs: seq<Physical>)
    requires Holds(fr, file, ph) && HoldsAll(fr, file, fs)
    ensures HoldsAll(fr, file, [ph] + fs)
  {
  }

  lemma FragmentsUnfold(p: nat, data: bytes, begin: bool)
    ensures var ph := NextFragment(p, data, begin);
            if |ph.payload| == |data| then Fragments(p, data, begin) == [ph] && EndOf(p, data, begin) == ph.End()
            else Fragments(p, data, begin) == [ph] + Fragments(ph.End(), data[|ph.payload|..], false)
                 && EndOf(p, data, begin) == EndOf(ph.End(), data[|ph.payload|..], false)
  {
  }

  function LastEnd(p: nat, fs: seq<Physical>): nat {
    if fs == [] then p else fs[|fs| - 1].End()
  }

  /** The rendered bytes hold every fragment at its place. */
  lemma {:induction false} RenderHolds(fr: Framing, before: bytes, fs: seq<Physical>, after: bytes)
    requires Chain(|before|, fs)
    requires Sound(fr)
    ensures HoldsAll(fr, before + RenderAll(fr, |before|, fs) + after, fs)
    ensures |before| + |RenderAll(fr, |before|, fs)| == LastEnd(|before|, fs)
    decreases |fs|
  {
    if fs != [] {
      var ph, pad := fs[0], ZeroBytes(fs[0].start - |before|);
      var r := Render(fr, ph.kind, ph.payload);
      var here := before + pad + r;
      var tail := RenderAll(fr, ph.End(), fs[1..]);
      assert |here| == ph.End();
      RenderHolds(fr, here, fs[1..], after);
      HoldsHere(fr, before, pad, ph, tail + after);
      Regroup(before, pad, r, tail, after);
      HoldsCons(fr, here + tail + after, ph, fs[1..]);
      assert [ph] + fs[1..] == fs;
    }
  }

  lemma Regroup(a: bytes, b: bytes, c: bytes, d: bytes, e: bytes)
    ensures a + (b + c + d) + e == a + b + c + d + e == a + b + c + (d + e)
  {
  }

  lemma EmittedHolds(fr: Framing, before: bytes, data: bytes, begin: bool, after: bytes)
    requires Sound(fr)
    ensures HoldsAll(fr, before + Emitted(fr, |before|, data, begin) + after, Fragments(|before|, data, begin))
    ensures |before| + |Emitted(fr, |before|, data, begin)| == EndOf(|before|, data, begin)
  {
    FragmentsChain(|before|, data, begin);
    RenderHolds(fr, before, Fragments(|before|, data, begin), after);
  }

  /** Writing the next fragment leaves the rest of the bytes to write. */
  lemma EmittedUnfolds(fr: Framing, before: bytes, data: bytes, begin: bool, dest: bytes)
    requires Sound(fr)
    requires var ph := NextFragment(|before|, data, begin);
             ph.start >= |before|
             && dest == before + ZeroBytes(ph.start - |before|) + Render(fr, ph.kind, ph.payload)
    ensures var n := |NextFragment(|before|, data, begin).payload|;
            && n <= |data|
            && before + Emitted(fr, |before|, data, begin)
               == if n == |data| then dest else dest + Emitted(fr, |dest|, data[n..], false)
  {
    var ph := NextFragment(|before|, data, begin);
    FragmentFillsBlock(|before|, data, begin);
    FragmentsUnfold(|before|, data, begin);
    FragmentsChain(|before|, data, begin);
    var fs := Fragments(|before|, data, begin);
    assert |dest| == ph.End() && fs[0] == ph;
    if |ph.payload| == |data| {
      assert RenderAll(fr, ph.End(), fs[1..]) == [];
    } else {
      assert fs[1..] == Fragments(ph.End(), data[|ph.payload|..], false);
    }
  }

  lemma HoldsExtends(fr: Framing, file: bytes, after: bytes, fs: seq<Physical>)
    requires HoldsAll(fr, file, fs)
    ensures HoldsAll(fr, file + after, fs)
  {
    forall i | 0 <= i < |fs|
      ensures Holds(fr, file + after, fs[i])
    {
      assert (file + after)[fs[i].start..fs[i].End()] == file[fs[i].start..fs[i].End()];
    }
  }

  lemma {:induction false} LayoutAppend(p: nat, records: seq<bytes>, r: bytes)
    ensures Layout(p, records + [r]) == Layout(p, records) + Fragments(LayoutEnd(p, records), r, true)
    ensures LayoutEnd(p, records + [r]) == EndOf(LayoutEnd(p, records), r, true)
    decreases |records|
  {
    var all := records + [r];
    if records == [] {
      assert all == [r] && all[1..] == [];
      assert Layout(EndOf(p, r, true), all[1..]) == [];
    } else {
      var end := EndOf(p, records[0], true);
      assert all[0] == records[0] && all[1..] == records[1..] + [r];
      LayoutAppend(end, records[1..], r);
      var fs, ls := Fragments(p, records[0], true), Layout(end, records[1..]);
      assert fs + (ls + Fragments(LayoutEnd(end, records[1..]), r, true)) == fs + ls + Fragments(LayoutEnd(end, records[1..]), r, true);
    }
  }

  /** The file holds exactly these records, laid out from its beginning. */
  ghost predicate IsLog(fr: Framing, file: bytes, records: seq<bytes>) {
    HoldsAll(fr, file, Layout(0, records)) && |file| == LayoutEnd(0, records)
  }

  /** Writing a record extends the log by that record, wherever the file ends; a reopened
      writer continues from the file's length alone. */
  lemma AppendKeepsLog(fr: Framing, file: bytes, records: seq<bytes>, r: bytes)
    requires Sound(fr) && IsLog(fr, file, records)
    ensures IsLog(fr, file + Emitted(fr, |file|, r, true), records + [r])
  {
    var after := Emitted(fr, |file|, r, true);
    LayoutAppend(0, records, r);
    EmittedHolds(fr, file, r, true, []);
    HoldsExtends(fr, file, after, Layout(0, records));
    assert file + after + [] == file + after;
  }
}
