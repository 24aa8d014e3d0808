/** What a reader of an undamaged log reports when it starts at an offset (db/log_reader.cpp).

    A fragment that starts before the initial offset comes back as a bad record and ends
    resynchronization, so the fragments behind it in the same record are reported as missing
    their start.  Nothing else is reported. */
module LogReports {
  import opened Coding
  import opened LogFormat
  import opened LogReader
  import LogTorn

  /** The record goes on in the next block. */
  predicate Unfinished(ph: Physical) { ph.kind == FIRST || ph.kind == MIDDLE }

  // ---- the physical records of a log, one after the other -------------------------------

  /** From position p on: each physical record where the one before it ends, unfinished ones
      filling their block, and the types in the order of whole records. */
  ghost predicate Laid(p: nat, fs: seq<Physical>, begin: bool)
    decreases |fs|
  {
    fs != [] ==>
      && fs[0].start == SkipTrailer(p) && Placed(fs[0])
      && (if begin then fs[0].kind == FULL || fs[0].kind == FIRST else fs[0].kind == MIDDLE || fs[0].kind == LAST)
      && (Unfinished(fs[0]) ==> fs[0].End() == BlockEnd(fs[0].start))
      && Laid(fs[0].End(), fs[1..], !Unfinished(fs[0]))
  }

  lemma LaidCons(p: nat, ph: Physical, fs: seq<Physical>, begin: bool)
    requires ph.start == SkipTrailer(p) && Placed(ph) && Laid(ph.End(), fs, !Unfinished(ph))
    requires if begin then ph.kind == FULL || ph.kind == FIRST else ph.kind == MIDDLE || ph.kind == LAST
    requires Unfinished(ph) ==> ph.End() == BlockEnd(ph.start)
    ensures Laid(p, [ph] + fs, begin) && LastEnd(p, [ph] + fs) == LastEnd(ph.End(), fs)
  {
    assert ([ph] + fs)[1..] == fs;
  }

  /** The next fragment as LaidCons needs it. */
  lemma NextIsLaid(p: nat, data: bytes, begin: bool, ph: Physical, fs: seq<Physical>)
    requires ph == NextFragment(p, data, begin) && Laid(ph.End(), fs, |ph.payload| == |data|)
    ensures Laid(p, [ph] + fs, begin) && LastEnd(p, [ph] + fs) == LastEnd(ph.End(), fs)
  {
    FragmentPlaced(p, data, begin);
    FragmentFillsBlock(p, data, begin);
    assert Unfinished(ph) <==> |ph.payload| != |data|;
    LaidCons(p, ph, fs, begin);
  }

  lemma {:induction false} FragmentsLaid(p: nat, data: bytes, begin: bool, rest: seq<Physical>)
    requires Laid(EndOf(p, data, begin), rest, true)
    ensures Laid(p, Fragments(p, data, begin) + rest, begin)
    ensures LastEnd(p, Fragments(p, data, begin) + rest) == LastEnd(EndOf(p, data, begin), rest)
    decreases |data|, if Offset(p) == 0 then 0 else 1
  {
    var ph := NextFragment(p, data, begin);
    FragmentsUnfold(p, data, begin);
    if |ph.payload| == |data| {
      NextIsLaid(p, data, begin, ph, rest);
    } else {
      FragmentFillsBlock(p, data, begin);
      var fs := Fragments(ph.End(), data[|ph.payload|..], false);
      FragmentsLaid(ph.End(), data[|ph.payload|..], false, rest);
      NextIsLaid(p, data, begin, ph, fs + rest);
      assert [ph] + fs + rest == [ph] + (fs + rest);
    }
  }

  lemma {:induction false} LayoutLaid(p: nat, records: seq<bytes>)
    ensures Laid(p, Layout(p, records), true) && LastEnd(p, Layout(p, records)) == LayoutEnd(p, records)
    decreases |records|
  {
    if records != [] {
      var end := EndOf(p, records[0], true);
      LayoutLaid(end, records[1..]);
      FragmentsLaid(p, records[0], true, Layout(end, records[1..]));
    }
  }

  /** Later records start and end later. */
  lemma {:induction false} LaidGrows(p: nat, fs: seq<Physical>, begin: bool, i: nat)
    requires Laid(p, fs, begin) && i < |fs|
    ensures p <= SkipTrailer(p) <= fs[i].start && fs[0].End() <= fs[i].End()
    ensures 0 < i ==> fs[0].End() <= fs[i].start
    decreases |fs|
  {
    SkipTrailerIdempotent(p);
    if i > 0 {
      LaidGrows(fs[0].End(), fs[1..], !Unfinished(fs[0]), i - 1);
    }
  }

  // ---- the reports ----------------------------------------------------------------------

  /** The payload lengths of what remains of a record, as far as it is within n bytes. */
  function Lost(n: nat, fs: seq<Physical>): seq<nat> {
    if fs == [] || fs[0].End() > n then []
    else [|fs[0].payload|] + if fs[0].kind == LAST then [] else Lost(n, fs[1..])
  }

  /** What is reported of the first n bytes of a log: the rest of the record whose fragment
      the initial offset cuts off in the block where reading starts. */
  function Reported(initial: nat, n: nat, fs: seq<Physical>): seq<nat> {
    if fs == [] || fs[0].End() > n || initial <= fs[0].start then []
    else if InitialBlock(initial) <= fs[0].start && Unfinished(fs[0]) then Lost(n, fs[1..])
    else Reported(initial, n, fs[1..])
  }

  /** The physical records from position p to the end of the whole log. */
  ghost predicate LogTail(src: Source, whole: bytes, p: nat, fs: seq<Physical>, begin: bool) {
    Cut(src, whole) && HoldsAll(src.fr, whole, fs) && Laid(p, fs, begin) && |whole| == LastEnd(p, fs)
  }

  lemma LogTailShrinks(src: Source, whole: bytes, p: nat, fs: seq<Physical>, begin: bool)
    requires LogTail(src, whole, p, fs, begin) && fs != []
    ensures LogTail(src, whole, fs[0].End(), fs[1..], !Unfinished(fs[0])) && Holds(src.fr, whole, fs[0])
  {
    assert forall i :: 0 <= i < |fs| - 1 ==> fs[1..][i] == fs[i + 1];
  }

  /** The run reports this beyond what it has, and stops at the end of the file. */
  ghost predicate RunReports(src: Source, s: State, more: seq<nat>) {
    forall m {:trigger UseRun(m)} :: UseRun(m) ==> Run(src, s).reports == s.reports + more && AtEof(src, Stop(src, s))
  }

  lemma ReportsStep(src: Source, s: State, x: seq<nat>, y: seq<nat>)
    requires var t := Advance(src, s); !t.End? && t.s.reports == s.reports + x && RunReports(src, t.s, y)
    ensures RunReports(src, s, x + y)
  {
    assert UseRun(0);
    assert s.reports + x + y == s.reports + (x + y);
  }

  lemma AtTheEnd(src: Source, s: State)
    requires |src.file| < SkipTrailer(s.pos) + HEADER
    ensures RunReports(src, s, [])
  {
    RunAtEnd(src, s);
  }

  /** The writer died within this physical record. */
  lemma CutOff(src: Source, whole: bytes, s: State, p: nat, fs: seq<Physical>, begin: bool)
    requires LogTail(src, whole, p, fs, begin) && fs != [] && SkipTrailer(s.pos) == SkipTrailer(p) && |src.file| < fs[0].End()
    ensures RunReports(src, s, [])
  {
    assert Holds(src.fr, whole, fs[0]);
    ReadsTruncated(src, whole, s.pos, fs[0]);
  }

  /** Nothing is reported once a record is complete, in assembly, or skipped silently. */
  lemma {:induction false} CleanReports(src: Source, whole: bytes, s: State, p: nat, fs: seq<Physical>, begin: bool)
    requires LogTail(src, whole, p, fs, begin) && SkipTrailer(s.pos) == SkipTrailer(p) && src.initial <= SkipTrailer(p)
    requires if begin then !s.inRecord else s.inRecord != s.resync
    ensures RunReports(src, s, [])
    decreases |fs|
  {
    SkipTrailerIdempotent(p);
    if fs == [] {
      AtTheEnd(src, s);
    } else if |src.file| < fs[0].End() {
      CutOff(src, whole, s, p, fs, begin);
    } else {
      LogTailShrinks(src, whole, p, fs, begin);
      HoldsInPrefix(src.fr, whole, |src.file|, fs[0]);
      Delivered(src, s, fs[0]);
      SkipTrailerIdempotent(fs[0].End());
      CleanReports(src, whole, Advance(src, s).s, fs[0].End(), fs[1..], !Unfinished(fs[0]));
      ReportsStep(src, s, [], []);
    }
  }

  lemma OrphanStep(src: Source, s: State, ph: Physical)
    requires Sound(src.fr) && Placed(ph) && Holds(src.fr, src.file, ph) && SkipTrailer(s.pos) == ph.start
    requires src.initial <= ph.start && !s.inRecord && !s.resync && (ph.kind == MIDDLE || ph.kind == LAST)
    ensures Advance(src, s) == Continue(s.(pos := ph.End(), reports := s.reports + [|ph.payload|]))
  {
    Delivered(src, s, ph);
  }

  /** The rest of a record whose start was not taken is reported, fragment by fragment. */
  lemma {:induction false} OrphanReports(src: Source, whole: bytes, s: State, p: nat, fs: seq<Physical>)
    requires LogTail(src, whole, p, fs, false) && SkipTrailer(s.pos) == SkipTrailer(p) && src.initial <= SkipTrailer(p)
    requires !s.inRecord && !s.resync
    ensures RunReports(src, s, Lost(|src.file|, fs))
    decreases |fs|
  {
    SkipTrailerIdempotent(p);
    if fs == [] {
      AtTheEnd(src, s);
    } else if |src.file| < fs[0].End() {
      CutOff(src, whole, s, p, fs, false);
    } else {
      LogTailShrinks(src, whole, p, fs, false);
      HoldsInPrefix(src.fr, whole, |src.file|, fs[0]);
      OrphanStep(src, s, fs[0]);
      SkipTrailerIdempotent(fs[0].End());
      var s' := Advance(src, s).s;
      if fs[0].kind == LAST {
        CleanReports(src, whole, s', fs[0].End(), fs[1..], true);
      } else {
        OrphanReports(src, whole, s', fs[0].End(), fs[1..]);
      }
      ReportsStep(src, s, [|fs[0].payload|], if fs[0].kind == LAST then [] else Lost(|src.file|, fs[1..]));
    }
  }

  /** An unfinished record that starts before the offset ends behind it. */
  lemma BlockCovers(initial: nat, start: nat)
    requires InitialBlock(initial) <= start < initial
    ensures initial <= BlockEnd(start) == SkipTrailer(BlockEnd(start))
  {
  }

  /** In the block where reading starts. */
  lemma {:induction false} StartReports(src: Source, whole: bytes, s: State, p: nat, fs: seq<Physical>, begin: bool)
    requires LogTail(src, whole, p, fs, begin) && SkipTrailer(s.pos) == SkipTrailer(p) && InitialBlock(src.initial) <= SkipTrailer(p)
    requires !s.inRecord && (!begin ==> s.resync)
    ensures RunReports(src, s, Reported(src.initial, |src.file|, fs))
    decreases |fs|
  {
    SkipTrailerIdempotent(p);
    if fs == [] {
      AtTheEnd(src, s);
    } else if |src.file| < fs[0].End() {
      CutOff(src, whole, s, p, fs, begin);
    } else if src.initial <= fs[0].start {
      CleanReports(src, whole, s, p, fs, begin);
    } else {
      LogTailShrinks(src, whole, p, fs, begin);
      HoldsInPrefix(src.fr, whole, |src.file|, fs[0]);
      SkippedByOffset(src, s, fs[0]);
      SkipTrailerIdempotent(fs[0].End());
      var s' := Advance(src, s).s;
      if Unfinished(fs[0]) {
        BlockCovers(src.initial, fs[0].start);
        OrphanReports(src, whole, s', fs[0].End(), fs[1..]);
      } else {
        StartReports(src, whole, s', fs[0].End(), fs[1..], true);
      }
      ReportsStep(src, s, [], Reported(src.initial, |src.file|, fs));
      assert [] + Reported(src.initial, |src.file|, fs) == Reported(src.initial, |src.file|, fs);
    }
  }

  /** Before that block. */
  lemma {:induction false} SkipReports(src: Source, whole: bytes, s: State, p: nat, fs: seq<Physical>, begin: bool)
    requires LogTail(src, whole, p, fs, begin) && SkipTrailer(p) <= s.pos == InitialBlock(src.initial) && Offset(s.pos) == 0
    requires !s.inRecord && s.resync
    ensures RunReports(src, s, Reported(src.initial, |src.file|, fs))
    decreases |fs|
  {
    SkipTrailerIdempotent(p);
    SkipTrailerIdempotent(s.pos);
    if fs == [] {
      AtTheEnd(src, s);
    } else if fs[0].start == s.pos {
      StartReports(src, whole, s, p, fs, begin);
    } else {
      BeforeBoundary(fs[0].start, fs[0].End(), s.pos);
      if |src.file| < fs[0].End() {
        AtTheEnd(src, s);
      } else {
        LogTailShrinks(src, whole, p, fs, begin);
        SkipReports(src, whole, s, fs[0].End(), fs[1..], !Unfinished(fs[0]));
      }
    }
  }

  /** The reports of a reader of the first bytes of a log, from any initial offset. */
  lemma LogReportsAre(src: Source, whole: bytes, records: seq<bytes>)
    requires Cut(src, whole) && IsLog(src.fr, whole, records)
    ensures Run(src, Opened(src)).reports == Reported(src.initial, |src.file|, Layout(0, records))
    ensures AtEof(src, Stop(src, Opened(src))) && !MeetsFive(src, Opened(src).pos)
  {
    assert UseRun(0);
    StopsExactly(src, Opened(src));
    var fs, s := Layout(0, records), Opened(src);
    LayoutLaid(0, records);
    if src.initial == 0 {
      StartReports(src, whole, s, 0, fs, true);
    } else {
      InitialBoundary(src.initial);
      SkipReports(src, whole, s, 0, fs, true);
    }
  }

  /** Reading starts at the block that the offset is in, or at the next one when it is in the
      last five bytes of its block. */
  lemma InitialBoundary(initial: nat)
    ensures Offset(InitialBlock(initial)) == 0 && InitialBlock(initial) == (initial + 5) / BLOCK * BLOCK
  {
  }

  /** The initial offset falls behind the start of an unfinished physical record in the block
      where reading starts, and the one after it is within n bytes. */
  ghost predicate CutsRecord(initial: nat, n: nat, fs: seq<Physical>, i: nat) {
    i + 1 < |fs| && InitialBlock(initial) <= fs[i].start < initial && Unfinished(fs[i]) && fs[i + 1].End() <= n
  }

  /** Nothing is reported if and only if the offset cuts no record. */
  lemma {:induction false} ReportsNothing(initial: nat, n: nat, p: nat, fs: seq<Physical>, begin: bool)
    requires Laid(p, fs, begin)
    ensures Reported(initial, n, fs) == [] <==> !exists i: nat :: CutsRecord(initial, n, fs, i)
    decreases |fs|
  {
    if fs == [] {
    } else if fs[0].End() > n || initial <= fs[0].start {
      forall i: nat
        ensures !CutsRecord(initial, n, fs, i)
      {
        if i + 1 < |fs| {
          LaidGrows(p, fs, begin, i);
          LaidGrows(p, fs, begin, i + 1);
        }
      }
    } else if InitialBlock(initial) <= fs[0].start && Unfinished(fs[0]) {
      BlockCovers(initial, fs[0].start);
      forall i: nat
        ensures CutsRecord(initial, n, fs, i) <==> i == 0 && Lost(n, fs[1..]) != []
      {
        if 0 < i < |fs| {
          LaidGrows(p, fs, begin, i);
        }
      }
      assert Lost(n, fs[1..]) != [] ==> CutsRecord(initial, n, fs, 0);
    } else {
      ReportsNothing(initial, n, fs[0].End(), fs[1..], !Unfinished(fs[0]));
      forall i: nat
        ensures CutsRecord(initial, n, fs, i + 1) <==> CutsRecord(initial, n, fs[1..], i)
        ensures !CutsRecord(initial, n, fs, 0)
      {
      }
      if exists i: nat :: CutsRecord(initial, n, fs, i) {
        var i: nat :| CutsRecord(initial, n, fs, i);
        assert CutsRecord(initial, n, fs[1..], i - 1);
      }
      if exists i: nat :: CutsRecord(initial, n, fs[1..], i) {
        var i: nat :| CutsRecord(initial, n, fs[1..], i);
        assert CutsRecord(initial, n, fs, i + 1);
      }
    }
  }

  /** An undamaged log is read without a report if and only if the offset cuts no record. */
  lemma SilentExactly(src: Source, whole: bytes, records: seq<bytes>)
    requires Cut(src, whole) && IsLog(src.fr, whole, records)
    ensures Run(src, Opened(src)).reports == []
            <==> !exists i: nat :: CutsRecord(src.initial, |src.file|, Layout(0, records), i)
  {
    LogReportsAre(src, whole, records);
    LayoutLaid(0, records);
    ReportsNothing(src.initial, |src.file|, 0, Layout(0, records), true);
  }

  /** One record over two blocks, read from offset 1: nothing is returned, and the second
      fragment is reported as corruption although the log is undamaged. */
  lemma OffsetOneReports(src: Source, data: bytes)
    requires Sound(src.fr) && src.initial == 1 && IsLog(src.fr, src.file, [data]) && 32761 < |data| <= 65522
    ensures Run(src, Opened(src)) == Outcome([], [|data| - 32761])
  {
    assert src.file[..|src.file|] == src.file;
    LogTorn.LogReads(src, src.file, [data]);
    LogReportsAre(src, src.file, [data]);
    TwoFragments(data);
    assert LogTorn.Expected(1, |src.file|, 0, [data]) == [];
  }

  lemma TwoFragments(data: bytes)
    requires 32761 < |data| <= 65522
    ensures var fs := Layout(0, [data]);
            && fs == [Physical(0, FIRST, data[..32761]), Physical(32768, LAST, data[32761..])]
            && LayoutEnd(0, [data]) == 32768 + 7 + |data| - 32761
  {
    var first, tail := NextFragment(0, data, true), data[32761..];
    FragmentsUnfold(0, data, true);
    FragmentsUnfold(32768, tail, false);
    assert first == Physical(0, FIRST, data[..32761]);
    assert tail[..|tail|] == tail;
    assert NextFragment(32768, tail, false) == Physical(32768, LAST, tail);
    assert [data][1..] == [];
    assert Layout(EndOf(0, data, true), [data][1..]) == [];
  }

  /** A physical record with type byte 5 is taken for the end of the file: ReadRecord returns
      false with a whole record still ahead.  LogReader.StopsExactly is the exact condition. */
  lemma TypeFiveStops(src: Source, data: bytes)
    requires Sound(src.fr) && src.initial == 0 && |data| + 14 <= BLOCK
    requires src.file == Render(src.fr, 5, []) + Render(src.fr, FULL, data)
    ensures Run(src, Opened(src)) == Outcome([], []) && MeetsFive(src, 0) && !AtEof(src, Stop(src, Opened(src)))
    ensures Run(src, State(7, false, false, [], 0, [])).items == [Item(data, 7)]
  {
    var five, full := src.fr.header(5, []), Physical(7, FULL, data);
    assert src.file[0..7] == five + [];
    HeaderAt(src.file, 0, five, []);
    assert src.file[0..] == src.file;
    assert ReadPhysical(src, 0) == Read(5, 0, [], 7, None);
    assert src.file[7..full.End()] == Render(src.fr, FULL, data);
    Delivered(src, State(7, false, false, [], 0, []), full);
    RunAtEnd(src, State(full.End(), false, false, [], 0, []));
  }

  /** What an intact physical record of an unknown type does to the reader. */
  lemma UnknownTypeStep(src: Source, s: State, ph: Physical)
    requires Sound(src.fr) && InBlock(ph) && Holds(src.fr, src.file, ph) && SkipTrailer(s.pos) == ph.start
    requires src.initial <= ph.start && (ph.kind > 4 || (ph.kind == ZERO && ph.payload != []))
    ensures var now := s.(pos := ph.End(), resync := false);
            var lost := if s.inRecord then |s.scratch| else 0;
            Advance(src, s)
            == if ph.kind == 5 then End(now.(inRecord := false, scratch := []))
               else if ph.kind == 6 then
                 Continue(if s.inRecord then Report(src, now, lost).(inRecord := false, scratch := []) else now)
               else Continue(Report(src, now, |ph.payload| + lost).(inRecord := false, scratch := []))
  {
    ReadsIntact(src, s.pos, ph);
  }

  /** Of an intact record of an unknown type, alone in a file: the reader reports it, except for
      type byte 5, taken for the end of the file, type byte 6, taken for a record that was
      reported already, and an empty record with type byte 0. */
  lemma UnknownTypeReported(src: Source, kind: byte, payload: bytes)
    requires Sound(src.fr) && src.initial == 0 && (kind == ZERO || kind > 4) && |payload| + HEADER <= BLOCK
    requires src.file == Render(src.fr, kind, payload)
    ensures Run(src, Opened(src))
            == Outcome([], if kind == 5 || kind == 6 || (kind == ZERO && payload == []) then [] else [|payload|])
  {
    var ph, s := Physical(0, kind, payload), Opened(src);
    assert src.file[0..ph.End()] == src.file;
    if kind == ZERO && payload == [] {
      HeaderAt(src.file, 0, src.fr.header(kind, payload), payload);
      assert src.file[0..] == src.file;
      assert ReadPhysical(src, 0) == Read(BAD, 0, [], 7, None);
      RunAtEnd(src, Advance(src, s).s);
    } else {
      UnknownTypeStep(src, s, ph);
      if kind != 5 {
        RunAtEnd(src, Advance(src, s).s);
      }
    }
  }
}
