/** Damaged logs (db/log_reader.cpp): when every altered physical record fails one of the
    reader's checks, the records read are a subsequence of those written, each intact; a
    fragment is never completed by fragments of another record. */
module LogCorruption {
  import opened Coding
  import opened LogFormat
  import opened LogReader

  /** ReadPhysicalRecord refuses what stands at q: the length runs past the block, the record
      is a zero record, or the checksum does not match. */
  ghost predicate Rejected(src: Source, q: nat) {
    && q + HEADER <= |src.file|
    && var e := Min(BlockEnd(q), |src.file|);
       q + HEADER <= e && (BadLength(src, q, e) || ZeroRecord(src, q) || BadChecksum(src, q, e))
  }

  /** Every physical record stands unchanged, is refused, or has no header within the file. */
  ghost predicate Detectable(src: Source, fs: seq<Physical>) {
    forall i :: 0 <= i < |fs| ==>
      Holds(src.fr, src.file, fs[i]) || Rejected(src, fs[i].start) || fs[i].start + HEADER > |src.file|
  }

  /** The items are some of the records, in order. */
  ghost predicate Subsequence(items: seq<Item>, records: seq<bytes>)
    decreases |records|
  {
    || items == []
    || (records != []
        && ((items[0].record == records[0] && Subsequence(items[1..], records[1..]))
            || Subsequence(items, records[1..])))
  }

  lemma SubsequenceSkips(items: seq<Item>, r: bytes, rest: seq<bytes>)
    requires Subsequence(items, rest)
    ensures Subsequence(items, [r] + rest)
  {
    assert ([r] + rest)[1..] == rest;
  }

  lemma SubsequenceTakes(item: Item, items: seq<Item>, r: bytes, rest: seq<bytes>)
    requires Subsequence(items, rest) && item.record == r
    ensures Subsequence([item] + items, [r] + rest)
  {
    assert ([r] + rest)[1..] == rest && ([item] + items)[1..] == items;
  }

  /** The records that may still be returned: the one in progress, if none of it was lost. */
  function Candidates(s: State, data: bytes, begin: bool, rest: seq<bytes>): seq<bytes> {
    if begin then [data] + rest else if s.inRecord then [s.scratch + data] + rest else rest
  }

  /** The reader stands at layout position p, or has dropped everything up to a later block
      boundary or the end of the file. */
  ghost predicate Located(src: Source, s: State, p: nat, begin: bool) {
    && (begin ==> !s.inRecord)
    && (s.resync ==> !s.inRecord)
    && (|| SkipTrailer(s.pos) == SkipTrailer(p)
        || (SkipTrailer(p) < s.pos && Offset(s.pos) == 0 && !s.inRecord)
        || (|src.file| <= s.pos))
  }

  lemma RejectedStep(src: Source, s: State, q: nat)
    requires SkipTrailer(s.pos) == q && Rejected(src, q)
    ensures var t := Advance(src, s);
            t.End? || (t.Continue? && t.s.pos == Min(BlockEnd(q), |src.file|) && !t.s.inRecord && !t.s.resync)
  {
  }

  lemma PartialKept(src: Source, s: State, p: nat, data: bytes, begin: bool, ph: Physical)
    requires Sound(src.fr) && Located(src, s, p, begin) && ph == NextFragment(p, data, begin)
    requires SkipTrailer(s.pos) == ph.start && |ph.payload| < |data| && Holds(src.fr, src.file, ph)
    ensures var t := Advance(src, s);
            && t.Continue? && t.s.pos == ph.End() && (t.s.resync ==> !t.s.inRecord)
            && (t.s.inRecord ==> (begin || s.inRecord)
                                 && t.s.scratch == (if begin then [] else s.scratch) + ph.payload)
  {
    FragmentPlaced(p, data, begin);
    FragmentFillsBlock(p, data, begin);
    ReadsIntact(src, s.pos, ph);
    assert [] + ph.payload == ph.payload;
  }

  lemma FinalKept(src: Source, s: State, p: nat, data: bytes, begin: bool, ph: Physical)
    requires Sound(src.fr) && Located(src, s, p, begin) && ph == NextFragment(p, data, begin)
    requires SkipTrailer(s.pos) == ph.start && |ph.payload| == |data| && Holds(src.fr, src.file, ph)
    ensures var t := Advance(src, s);
            && !t.End? && t.s.pos == ph.End() && !t.s.inRecord
            && (t.Found? ==> if begin then t.item.record == data
                             else s.inRecord && t.item.record == s.scratch + data)
  {
    FragmentPlaced(p, data, begin);
    FragmentFillsBlock(p, data, begin);
    assert data[..|data|] == data;
    ReadsIntact(src, s.pos, ph);
  }

  ghost predicate Remains(src: Source, p: nat, data: bytes, begin: bool, rest: seq<bytes>) {
    && Sound(src.fr)
    && Detectable(src, Fragments(p, data, begin))
    && Detectable(src, Layout(EndOf(p, data, begin), rest))
    && |src.file| <= LayoutEnd(EndOf(p, data, begin), rest)
  }

  function FragmentCount(p: nat, data: bytes, begin: bool, rest: seq<bytes>): nat {
    |Fragments(p, data, begin)| + |Layout(EndOf(p, data, begin), rest)|
  }

  lemma RemainsShrinks(src: Source, p: nat, data: bytes, begin: bool, rest: seq<bytes>)
    requires Remains(src, p, data, begin, rest)
    ensures var ph := NextFragment(p, data, begin);
            && |ph.payload| <= |data|
            && (Holds(src.fr, src.file, ph) || Rejected(src, ph.start) || ph.start + HEADER > |src.file|)
            && if |ph.payload| == |data| then
                 EndOf(p, data, begin) == ph.End() && |Layout(ph.End(), rest)| < FragmentCount(p, data, begin, rest)
               else
                 && Remains(src, ph.End(), data[|ph.payload|..], false, rest)
                 && FragmentCount(ph.End(), data[|ph.payload|..], false, rest) < FragmentCount(p, data, begin, rest)
  {
    FragmentFillsBlock(p, data, begin);
    FragmentsUnfold(p, data, begin);
    var ph := NextFragment(p, data, begin);
    var fs := Fragments(p, data, begin);
    assert fs[0] == ph;
    if |ph.payload| != |data| {
      var fs' := Fragments(ph.End(), data[|ph.payload|..], false);
      assert forall i :: 0 <= i < |fs'| ==> fs'[i] == fs[i + 1];
    }
  }

  lemma {:induction false} NextNeverJoins(src: Source, s: State, p: nat, rest: seq<bytes>)
    requires Sound(src.fr) && Located(src, s, p, true)
    requires Detectable(src, Layout(p, rest)) && |src.file| <= LayoutEnd(p, rest)
    ensures Subsequence(Run(src, s).items, rest)
    decreases |Layout(p, rest)|, 2
  {
    if rest == [] {
      SkipTrailerIdempotent(s.pos);
      SkipTrailerIdempotent(p);
      RunAtEnd(src, s);
    } else {
      var fs, ls := Fragments(p, rest[0], true), Layout(EndOf(p, rest[0], true), rest[1..]);
      assert Layout(p, rest) == fs + ls;
      assert forall i :: 0 <= i < |fs| ==> (fs + ls)[i] == fs[i];
      assert forall i :: 0 <= i < |ls| ==> (fs + ls)[|fs| + i] == ls[i];
      RestNeverJoins(src, s, p, rest[0], true, rest[1..]);
      assert [rest[0]] + rest[1..] == rest;
    }
  }

  lemma {:induction false} RestNeverJoins(src: Source, s: State, p: nat, data: bytes, begin: bool, rest: seq<bytes>)
    requires Located(src, s, p, begin) && Remains(src, p, data, begin, rest)
    ensures Subsequence(Run(src, s).items, Candidates(s, data, begin, rest))
    decreases FragmentCount(p, data, begin, rest), 1
  {
    var ph := NextFragment(p, data, begin);
    FragmentFillsBlock(p, data, begin);
    SkipTrailerIdempotent(s.pos);
    SkipTrailerIdempotent(p);
    RemainsShrinks(src, p, data, begin, rest);
    if |src.file| < SkipTrailer(s.pos) + HEADER {
      RunAtEnd(src, s);
    } else if SkipTrailer(s.pos) != ph.start {
      DroppedNeverJoins(src, s, p, data, begin, rest);
    } else if Holds(src.fr, src.file, ph) {
      KeptNeverJoins(src, s, p, data, begin, rest);
    } else {
      RejectedStep(src, s, ph.start);
      var t := Advance(src, s);
      if t.Continue? {
        BoundaryIsOffsetZero(ph.start);
        if t.s.pos == BlockEnd(ph.start) {
          DroppedNeverJoins(src, t.s, p, data, begin, rest);
        } else {
          SkipTrailerIdempotent(t.s.pos);
          RunAtEnd(src, t.s);
        }
        if !begin && s.inRecord {
          SubsequenceSkips(Run(src, t.s).items, s.scratch + data, rest);
        }
      }
    }
  }

  lemma BoundaryIsOffsetZero(p: nat)
    ensures p < BlockEnd(p) && Offset(BlockEnd(p)) == 0
  {
  }

  /** The reader has dropped this fragment unread. */
  lemma {:induction false} DroppedNeverJoins(src: Source, s: State, p: nat, data: bytes, begin: bool, rest: seq<bytes>)
    requires Remains(src, p, data, begin, rest) && !s.inRecord
    requires SkipTrailer(p) < s.pos && Offset(s.pos) == 0
    ensures Subsequence(Run(src, s).items, Candidates(s, data, begin, rest))
    decreases FragmentCount(p, data, begin, rest), 0
  {
    var ph := NextFragment(p, data, begin);
    FragmentFillsBlock(p, data, begin);
    RemainsShrinks(src, p, data, begin, rest);
    BeforeBoundary(ph.start, ph.End(), s.pos);
    if |ph.payload| == |data| {
      NextNeverJoins(src, s, ph.End(), rest);
    } else {
      RestNeverJoins(src, s, ph.End(), data[|ph.payload|..], false, rest);
    }
    if begin {
      SubsequenceSkips(Run(src, s).items, data, rest);
    }
  }

  lemma {:induction false} KeptNeverJoins(src: Source, s: State, p: nat, data: bytes, begin: bool, rest: seq<bytes>)
    requires Located(src, s, p, begin) && Remains(src, p, data, begin, rest)
    requires var ph := NextFragment(p, data, begin);
             SkipTrailer(s.pos) == ph.start && Holds(src.fr, src.file, ph)
    ensures Subsequence(Run(src, s).items, Candidates(s, data, begin, rest))
    decreases FragmentCount(p, data, begin, rest), 0
  {
    var ph := NextFragment(p, data, begin);
    var t, r := Advance(src, s), if begin then data else s.scratch + data;
    RemainsShrinks(src, p, data, begin, rest);
    if |ph.payload| == |data| {
      FinalKept(src, s, p, data, begin, ph);
      NextNeverJoins(src, t.s, ph.End(), rest);
      if t.Found? {
        SubsequenceTakes(t.item, Run(src, t.s).items, r, rest);
      } else if begin || s.inRecord {
        SubsequenceSkips(Run(src, t.s).items, r, rest);
      }
    } else {
      FragmentFillsBlock(p, data, begin);
      PartialKept(src, s, p, data, begin, ph);
      RestNeverJoins(src, t.s, ph.End(), data[|ph.payload|..], false, rest);
      SameCandidates(s, t.s, data, begin, rest, ph.payload);
      if (begin || s.inRecord) && !t.s.inRecord {
        SubsequenceSkips(Run(src, t.s).items, r, rest);
      }
    }
  }

  /** Delivering a fragment leaves the record in progress the same candidate. */
  lemma SameCandidates(s: State, s': State, data: bytes, begin: bool, rest: seq<bytes>, payload: bytes)
    requires |payload| <= |data| && payload == data[..|payload|]
    requires s'.inRecord ==> (begin || s.inRecord)
                             && s'.scratch == (if begin then [] else s.scratch) + payload
    ensures s'.inRecord ==> Candidates(s', data[|payload|..], false, rest) == Candidates(s, data, begin, rest)
  {
    var data' := data[|payload|..];
    assert data == payload + data';
    assert s.scratch + payload + data' == s.scratch + data;
    assert [] + payload + data' == data;
  }

  /** Corruption never joins records: in a damaged copy of a log, cut off or not, where every
      altered physical record is refused by one of the reader's checks, a reader opened at any
      offset returns some of the records written, each intact and in order. */
  lemma CorruptionNeverJoins(src: Source, records: seq<bytes>)
    requires Sound(src.fr)
    requires Detectable(src, Layout(0, records)) && |src.file| <= LayoutEnd(0, records)
    ensures Subsequence(Run(src, Opened(src)).items, records)
  {
    NextNeverJoins(src, Opened(src), 0, records);
  }

  /** Cutting a log off is such damage. */
  lemma CutIsDetectable(src: Source, whole: bytes, records: seq<bytes>)
    requires Cut(src, whole) && IsLog(src.fr, whole, records)
    ensures Detectable(src, Layout(0, records)) && |src.file| <= LayoutEnd(0, records)
  {
    var fs := Layout(0, records);
    forall i | 0 <= i < |fs|
      ensures Holds(src.fr, src.file, fs[i]) || Rejected(src, fs[i].start) || fs[i].start + HEADER > |src.file|
    {
      LayoutPlaced(0, records, i);
      assert Holds(src.fr, whole, fs[i]);
      CutRecord(src, whole, fs[i]);
    }
  }

  lemma {:induction false} FragmentsPlaced(p: nat, data: bytes, begin: bool, i: nat)
    requires i < |Fragments(p, data, begin)|
    ensures Placed(Fragments(p, data, begin)[i])
    decreases |data|, if Offset(p) == 0 then 0 else 1
  {
    var ph := NextFragment(p, data, begin);
    FragmentPlaced(p, data, begin);
    FragmentsUnfold(p, data, begin);
    if i > 0 {
      FragmentFillsBlock(p, data, begin);
      FragmentsPlaced(ph.End(), data[|ph.payload|..], false, i - 1);
    }
  }

  lemma {:induction false} LayoutPlaced(p: nat, records: seq<bytes>, i: nat)
    requires i < |Layout(p, records)|
    ensures Placed(Layout(p, records)[i])
    decreases |records|
  {
    var n := |Fragments(p, records[0], true)|;
    if i < n {
      FragmentsPlaced(p, records[0], true, i);
    } else {
      LayoutPlaced(EndOf(p, records[0], true), records[1..], i - n);
    }
  }

  lemma CutRecord(src: Source, whole: bytes, ph: Physical)
    requires Cut(src, whole) && Placed(ph) && Holds(src.fr, whole, ph)
    ensures Holds(src.fr, src.file, ph) || Rejected(src, ph.start) || ph.start + HEADER > |src.file|
  {
    if ph.End() <= |src.file| {
      HoldsInPrefix(src.fr, whole, |src.file|, ph);
    } else if ph.start + HEADER <= |src.file| {
      ReadsTruncated(src, whole, ph.start, ph);
    }
  }
}
