/** What the checksums of a log detect (db/log_reader.cpp:280-293): with checksums verified, a
    complete physical record is delivered if and only if it stands as the writer would have
    written it, and damage within four consecutive bytes of its type and payload never goes
    unnoticed. */
module LogDamage {
  import opened Coding
  import opened LogFormat
  import opened LogReader
  import opened LogCorruption
  import Crc32c
  import Crc32cDetection

  // ---- the checksum decides -------------------------------------------------------------

  /** A physical record lies complete within its block and the file, and is no zero record. */
  ghost predicate Complete(src: Source, ph: Physical) {
    && ph.start == SkipTrailer(ph.start) && ph.End() <= BlockEnd(ph.start) && ph.End() <= |src.file|
    && (ph.kind != ZERO || ph.payload != [])
    && HeaderLength(src.file[ph.start..]) == |ph.payload| && src.file[ph.start + 6] == ph.kind
    && src.file[ph.start + HEADER..ph.End()] == ph.payload
  }

  /** The word stored with it. */
  function StoredWord(file: bytes, ph: Physical): bytes
    requires ph.End() <= |file|
  {
    file[ph.start..ph.start + 4]
  }

  /** Without a matching checksum it is not delivered, and the rest of its block is reported. */
  lemma ChecksumDecides(src: Source, p: nat, ph: Physical)
    requires src.check && Complete(src, ph) && SkipTrailer(p) == ph.start
    ensures var e := Min(BlockEnd(ph.start), |src.file|);
            ReadPhysical(src, p)
            == if !src.fr.matches(DecodeFixed32(StoredWord(src.file, ph)), ph.kind, ph.payload)
               then Read(BAD, ph.start, [], e, Some(e - ph.start))
               else if ph.start < src.initial then Read(BAD, ph.start, [], ph.End(), None)
               else Read(ph.kind, ph.start, ph.payload, ph.End(), None)
  {
    assert DecodeFixed32(src.file[ph.start..]) == DecodeFixed32(StoredWord(src.file, ph));
  }

  /** The program's checksum matches if and only if the record stands as it is written. */
  lemma MatchesExactly(src: Source, ph: Physical)
    requires Complete(src, ph) && |ph.payload| < 0x1_0000
    ensures CrcMatches(DecodeFixed32(StoredWord(src.file, ph)), ph.kind, ph.payload) <==> Holds(CrcFraming(), src.file, ph)
  {
    var f, q, w := src.file, ph.start, StoredWord(src.file, ph);
    var header := CrcHeader(ph.kind, ph.payload);
    HeaderParts(f, ph);
    Fixed32Onto(w);
    Crc32cDetection.MaskIsOnto(DecodeFixed32(w));
    StoredCrcMatches(ph.kind, ph.payload);
    Fixed32RoundTrip(StoredCrc(ph.kind, ph.payload), []);
    Crc32c.ExtendComposes(Crc32c.Octet(), Crc32c.Zeros(32), [ph.kind], ph.payload);
    assert header[..4] == Fixed32(StoredCrc(ph.kind, ph.payload));
  }

  /** The record's bytes are its word, its length, its type and its payload. */
  lemma HeaderParts(file: bytes, ph: Physical)
    requires ph.End() <= |file| && HeaderLength(file[ph.start..]) == |ph.payload| < 0x1_0000
    requires file[ph.start + 6] == ph.kind && file[ph.start + HEADER..ph.End()] == ph.payload
    ensures file[ph.start..ph.End()] == Render(CrcFraming(), ph.kind, ph.payload)
            <==> StoredWord(file, ph) == Fixed32(StoredCrc(ph.kind, ph.payload))
  {
    var q, n := ph.start, |ph.payload|;
    var w, all := StoredWord(file, ph), file[q..ph.End()];
    var low: int, high: int := file[q + 4], file[q + 5];
    assert n == low + 256 * high;
    assert all == w + [n % 256, n / 256 % 256, ph.kind] + ph.payload;
    assert Render(CrcFraming(), ph.kind, ph.payload) == Fixed32(StoredCrc(ph.kind, ph.payload)) + [n % 256, n / 256 % 256, ph.kind] + ph.payload;
    assert all[..4] == w;
    assert Render(CrcFraming(), ph.kind, ph.payload)[..4] == Fixed32(StoredCrc(ph.kind, ph.payload));
  }

  /** With the program's framing and checksums verified: a complete record is delivered if and
      only if it stands as it is written, and otherwise the rest of its block is reported. */
  lemma DeliversExactly(src: Source, p: nat, ph: Physical)
    requires src.check && src.fr == CrcFraming() && Complete(src, ph) && SkipTrailer(p) == ph.start && src.initial <= ph.start
    ensures var e := Min(BlockEnd(ph.start), |src.file|);
            ReadPhysical(src, p) == if Holds(src.fr, src.file, ph) then Read(ph.kind, ph.start, ph.payload, ph.End(), None)
                                    else Read(BAD, ph.start, [], e, Some(e - ph.start))
  {
    ChecksumDecides(src, p, ph);
    MatchesExactly(src, ph);
  }

  /** The state after the rest of a block is dropped: the record in progress goes too, and is
      reported unless it would begin before the initial offset. */
  function Dropped(src: Source, s: State, e: nat, reported: seq<nat>): State {
    var lost := if s.inRecord && src.initial + |s.scratch| <= e then [|s.scratch|] else [];
    s.(pos := e, resync := false, inRecord := false, scratch := if s.inRecord then [] else s.scratch,
       reports := s.reports + reported + lost)
  }

  /** What a record with a wrong checksum does in any state: the rest of its block is dropped and
      reported, unless it begins before the initial offset. */
  lemma WrongChecksumStep(src: Source, s: State, ph: Physical)
    requires src.check && Complete(src, ph) && SkipTrailer(s.pos) == ph.start
    requires !src.fr.matches(DecodeFixed32(StoredWord(src.file, ph)), ph.kind, ph.payload)
    ensures var e := Min(BlockEnd(ph.start), |src.file|);
            Advance(src, s) == Continue(Dropped(src, s, e, if src.initial <= ph.start then [e - ph.start] else []))
  {
    ChecksumDecides(src, s.pos, ph);
  }

  /** A length that runs past the block does the same, but ends the file when it is cut off in
      that block. */
  lemma WrongLengthStep(src: Source, s: State, q: nat)
    requires q == SkipTrailer(s.pos) && q + HEADER <= |src.file|
    requires q + HEADER + HeaderLength(src.file[q..]) > Min(BlockEnd(q), |src.file|)
    ensures var e := BlockEnd(q);
            Advance(src, s)
            == if |src.file| < e then End(s.(pos := |src.file|, resync := false, inRecord := false, scratch := []))
               else Continue(Dropped(src, s, e, if src.initial <= q then [e - q] else []))
  {
  }

  /** A record of type 0 and length 0, as preallocated files have, drops the rest of its block
      without a report of its own. */
  lemma ZeroRecordStep(src: Source, s: State, q: nat)
    requires q == SkipTrailer(s.pos) && q + HEADER <= |src.file|
    requires src.file[q + 6] == ZERO && HeaderLength(src.file[q..]) == 0
    ensures Advance(src, s) == Continue(Dropped(src, s, Min(BlockEnd(q), |src.file|), []))
  {
  }

  // ---- damage ---------------------------------------------------------------------------

  /** What the checksum covers. */
  function Covered(file: bytes, ph: Physical): bytes
    requires ph.End() <= |file|
  {
    file[ph.start + 6..ph.End()]
  }

  /** In a damaged copy the record's length is unchanged, and it is changed only within four
      consecutive bytes of type and payload, or only in its checksum. */
  ghost predicate Struck(was: bytes, now: bytes, ph: Physical) {
    && ph.End() <= |was| && ph.End() <= |now|
    && was[ph.start + 4..ph.start + 6] == now[ph.start + 4..ph.start + 6]
    && if StoredWord(was, ph) == StoredWord(now, ph) then Crc32cDetection.Dented(Covered(was, ph), Covered(now, ph))
       else Covered(was, ph) == Covered(now, ph)
  }

  /** The bytes that the checksum covers are those it was computed from. */
  lemma CoveredIs(file: bytes, ph: Physical)
    requires ph.End() <= |file|
    ensures Covered(file, ph) == [file[ph.start + 6]] + file[ph.start + HEADER..ph.End()]
  {
  }

  lemma HeldWord(file: bytes, ph: Physical)
    requires Holds(CrcFraming(), file, ph) && |ph.payload| < 0x1_0000
    ensures HeaderLength(file[ph.start..]) == |ph.payload| && Covered(file, ph) == [ph.kind] + ph.payload
    ensures CrcMatches(DecodeFixed32(StoredWord(file, ph)), ph.kind, ph.payload)
  {
    CrcHeaderIsSound(ph.kind, ph.payload);
    HeaderAt(file, ph.start, CrcHeader(ph.kind, ph.payload), ph.payload);
    CoveredIs(file, ph);
    assert DecodeFixed32(file[ph.start..]) == DecodeFixed32(StoredWord(file, ph));
  }

  lemma WordsDiffer(a: bytes, b: bytes)
    requires |a| == |b| == 4 && a != b
    ensures Crc32c.Unmask(DecodeFixed32(a)) != Crc32c.Unmask(DecodeFixed32(b))
    ensures DecodeFixed32(a) < TWO32 && DecodeFixed32(b) < TWO32
  {
    Fixed32Onto(a);
    Fixed32Onto(b);
    Crc32cDetection.MaskIsOnto(DecodeFixed32(a));
    Crc32cDetection.MaskIsOnto(DecodeFixed32(b));
  }

  /** Such damage makes the checksum wrong. */
  lemma StruckMismatches(was: bytes, now: bytes, ph: Physical)
    requires |ph.payload| < 0x1_0000 && Holds(CrcFraming(), was, ph) && Struck(was, now, ph)
    ensures !CrcMatches(DecodeFixed32(StoredWord(now, ph)), now[ph.start + 6], now[ph.start + HEADER..ph.End()])
  {
    HeldWord(was, ph);
    CoveredIs(now, ph);
    if StoredWord(was, ph) == StoredWord(now, ph) {
      Crc32cDetection.DentIsSeen(Covered(was, ph), Covered(now, ph));
    } else {
      WordsDiffer(StoredWord(was, ph), StoredWord(now, ph));
    }
  }

  lemma MismatchIsRejected(src: Source, ph: Physical)
    requires src.check && InBlock(ph) && ph.End() <= |src.file| && HeaderLength(src.file[ph.start..]) == |ph.payload|
    requires !src.fr.matches(DecodeFixed32(src.file[ph.start..]), src.file[ph.start + 6], src.file[ph.start + HEADER..ph.End()])
    ensures Rejected(src, ph.start)
  {
  }

  /** Such damage is refused. */
  lemma StruckIsRejected(src: Source, was: bytes, ph: Physical)
    requires src.check && src.fr == CrcFraming() && Placed(ph) && Holds(src.fr, was, ph) && Struck(was, src.file, ph)
    ensures Rejected(src, ph.start)
  {
    var q, f := ph.start, src.file;
    HeldWord(was, ph);
    SameLength(was, f, ph);
    StruckMismatches(was, f, ph);
    assert DecodeFixed32(f[q..]) == DecodeFixed32(StoredWord(f, ph));
    MismatchIsRejected(src, ph);
  }

  lemma SameLength(was: bytes, now: bytes, ph: Physical)
    requires ph.start + HEADER <= |was| && ph.start + HEADER <= |now|
    requires was[ph.start + 4..ph.start + 6] == now[ph.start + 4..ph.start + 6]
    ensures HeaderLength(was[ph.start..]) == HeaderLength(now[ph.start..])
  {
    var a, b := was[ph.start + 4..ph.start + 6], now[ph.start + 4..ph.start + 6];
    assert a[0] == was[ph.start + 4] && a[1] == was[ph.start + 5] && b[0] == now[ph.start + 4] && b[1] == now[ph.start + 5];
  }

  /** A copy in which every record stands as it was, is damaged in that way, or is cut off with
      its length unchanged; what lies between the records may be anything. */
  ghost predicate Damaged(whole: bytes, file: bytes, ph: Physical) {
    && |file| <= |whole| && ph.End() <= |whole|
    && if ph.End() <= |file| then
         whole[ph.start..ph.End()] == file[ph.start..ph.End()] || Struck(whole, file, ph)
       else
         ph.start + HEADER <= |file| ==> whole[ph.start + 4..ph.start + 6] == file[ph.start + 4..ph.start + 6]
  }

  /** Of a log damaged in that way and cut off anywhere, a reader that verifies checksums, opened
      at any offset, returns some of the records written, each intact and in order. */
  lemma DamageNeverJoins(src: Source, whole: bytes, records: seq<bytes>)
    requires src.check && src.fr == CrcFraming() && IsLog(src.fr, whole, records) && |src.file| <= |whole|
    requires forall i :: 0 <= i < |Layout(0, records)| ==> Damaged(whole, src.file, Layout(0, records)[i])
    ensures Detectable(src, Layout(0, records)) && Subsequence(Run(src, Opened(src)).items, records)
  {
    var fs := Layout(0, records);
    CrcFramingIsSound();
    forall i | 0 <= i < |fs|
      ensures Holds(src.fr, src.file, fs[i]) || Rejected(src, fs[i].start) || fs[i].start + HEADER > |src.file|
    {
      LayoutPlaced(0, records, i);
      assert Holds(src.fr, whole, fs[i]);
      DamagedRecord(src, whole, fs[i]);
    }
    CorruptionNeverJoins(src, records);
  }

  lemma DamagedRecord(src: Source, whole: bytes, ph: Physical)
    requires src.check && src.fr == CrcFraming() && Placed(ph) && Holds(src.fr, whole, ph) && Damaged(whole, src.file, ph)
    ensures Holds(src.fr, src.file, ph) || Rejected(src, ph.start) || ph.start + HEADER > |src.file|
  {
    if ph.End() <= |src.file| {
      if whole[ph.start..ph.End()] != src.file[ph.start..ph.End()] {
        StruckIsRejected(src, whole, ph);
      }
    } else if ph.start + HEADER <= |src.file| {
      HeldWord(whole, ph);
      SameLength(whole, src.file, ph);
    }
  }
}
