/** log::Reader (db/log_reader.cpp): physical records out of 32 KiB blocks, reassembled by a
    state machine.  Run is what repeated calls of ReadRecord return until it returns false. */
module LogReader {
  import opened Coding
  import opened LogFormat

  /** Beyond the record types; a type byte with one of these values is taken for it. */
  const EOF: nat := 5
  const BAD: nat := 6

  /** What a reader is opened with. */
  datatype Source = Source(fr: Framing, check: bool, file: bytes, initial: nat)

  /** The result of ReadPhysicalRecord, the position after it, and the drop it reports. */
  datatype Read = Read(kind: nat, start: nat, fragment: bytes, pos: nat, drop: Option<nat>)

  function Max(a: nat, b: nat): nat { if a < b then b else a }
  function Min(a: nat, b: nat): nat { if a < b then a else b }

  /** The checks on the physical record at q, whose block ends (or is cut off) at e. */
  predicate BadLength(src: Source, q: nat, e: nat)
    requires q + HEADER <= e <= |src.file|
  {
    HEADER + HeaderLength(src.file[q..]) > e - q
  }

  predicate ZeroRecord(src: Source, q: nat)
    requires q + HEADER <= |src.file|
  {
    src.file[q + 6] == ZERO && HeaderLength(src.file[q..]) == 0
  }

  predicate BadChecksum(src: Source, q: nat, e: nat)
    requires q + HEADER <= e <= |src.file| && !BadLength(src, q, e)
  {
    src.check && !src.fr.matches(DecodeFixed32(src.file[q..]), src.file[q + 6], PayloadAt(src, q, e))
  }

  function PayloadAt(src: Source, q: nat, e: nat): bytes
    requires q + HEADER <= e <= |src.file| && !BadLength(src, q, e)
  {
    src.file[q + HEADER..q + HEADER + HeaderLength(src.file[q..])]
  }

  function ReadPhysical(src: Source, p: nat): (r: Read)
    ensures r.kind != EOF ==> p < r.pos <= |src.file|
  {
    var q := SkipTrailer(p);
    if q + HEADER > |src.file| then
      Read(EOF, q, [], Max(p, |src.file|), None)
    else
      ReadAt(src, q, Min(BlockEnd(q), |src.file|), |src.file| < BlockEnd(q))
  }

  /** The record at q, whose block ends at e, or is cut off there by the end of the file. */
  function ReadAt(src: Source, q: nat, e: nat, cut: bool): (r: Read)
    requires q + HEADER <= e <= |src.file|
    ensures r.kind != EOF ==> q < r.pos <= |src.file|
  {
    if BadLength(src, q, e) then
      if cut then Read(EOF, q, [], e, None) else Read(BAD, q, [], e, Some(e - q))
    else if ZeroRecord(src, q) then
      Read(BAD, q, [], e, None)
    else if BadChecksum(src, q, e) then
      Read(BAD, q, [], e, Some(e - q))
    else
      var payload := PayloadAt(src, q, e);
      var end := q + HEADER + |payload|;
      if q < src.initial then Read(BAD, q, [], end, None)
      else Read(src.file[q + 6], q, payload, end, None)
  }

  /** The reader between two physical records; `start` is where the partial record began. */
  datatype State = State(pos: nat, resync: bool, inRecord: bool, scratch: bytes, start: nat, reports: seq<nat>)

  datatype Item = Item(record: bytes, offset: nat)

  datatype Step = Continue(s: State) | Found(item: Item, s: State) | End(s: State)

  /** ReportDrop: drops that begin before the initial offset are not reported. */
  function Report(src: Source, s: State, n: nat): State {
    if s.pos - n >= src.initial then s.(reports := s.reports + [n]) else s
  }

  /** The switch of ReadRecord on one physical record. */
  function Dispatch(src: Source, s: State, r: Read): Step {
    if r.kind == FULL as int then
      var s1 := if s.inRecord && s.scratch != [] then Report(src, s, |s.scratch|) else s;
      Found(Item(r.fragment, r.start), s1.(inRecord := false, scratch := [], start := 0))
    else if r.kind == FIRST as int then
      var s1 := if s.inRecord && s.scratch != [] then Report(src, s, |s.scratch|) else s;
      Continue(s1.(inRecord := true, scratch := r.fragment, start := r.start))
    else if r.kind == MIDDLE as int then
      if !s.inRecord then Continue(Report(src, s, |r.fragment|))
      else Continue(s.(scratch := s.scratch + r.fragment))
    else if r.kind == LAST as int then
      if !s.inRecord then Continue(Report(src, s, |r.fragment|))
      else Found(Item(s.scratch + r.fragment, s.start), s.(inRecord := false, scratch := [], start := 0))
    else if r.kind == EOF then
      End(s.(inRecord := false, scratch := []))
    else if r.kind == BAD then
      if s.inRecord then Continue(Report(src, s, |s.scratch|).(inRecord := false, scratch := []))
      else Continue(s)
    else
      Continue(Report(src, s, |r.fragment| + if s.inRecord then |s.scratch| else 0).(inRecord := false, scratch := []))
  }

  /** While resynchronizing, the tail of a record that began earlier is skipped silently. */
  function Settle(src: Source, s: State, r: Read): Step {
    if s.resync && (r.kind == MIDDLE as int || r.kind == LAST as int) then
      Continue(s.(resync := r.kind == MIDDLE as int))
    else
      Dispatch(src, s.(resync := false), r)
  }

  /** One turn of ReadRecord's loop. */
  function Advance(src: Source, s: State): (t: Step)
    ensures !t.End? ==> s.pos < t.s.pos <= |src.file|
  {
    var r := ReadPhysical(src, s.pos);
    var s1 := s.(pos := r.pos);
    Settle(src, if r.drop.Some? then Report(src, s1, r.drop.value) else s1, r)
  }

  datatype Outcome = Outcome(items: seq<Item>, reports: seq<nat>)

  function Run(src: Source, s: State): Outcome
    decreases |src.file| - Min(s.pos, |src.file|)
  {
    match Advance(src, s)
    case Continue(s') => Run(src, s')
    case Found(item, s') =>
      var rest := Run(src, s');
      Outcome([item] + rest.items, rest.reports)
    case End(s') => Outcome([], s'.reports)
  }

  /** The file ends at p or cuts off the physical record there; no type byte is involved. */
  predicate AtEof(src: Source, p: nat) {
    var q := SkipTrailer(p);
    || q + HEADER > |src.file|
    || (BadLength(src, q, Min(BlockEnd(q), |src.file|)) && |src.file| < BlockEnd(q))
  }

  /** Where the last physical record of a run is looked for. */
  function Stop(src: Source, s: State): nat
    decreases |src.file| - Min(s.pos, |src.file|)
  {
    match Advance(src, s)
    case Continue(s') => Stop(src, s')
    case Found(_, s') => Stop(src, s')
    case End(_) => s.pos
  }

  /** At p stands a physical record that passes every check and has type byte 5, the value that
      stands for the end of the file. */
  predicate Five(src: Source, p: nat) {
    var q := SkipTrailer(p);
    && q + HEADER <= |src.file| && src.initial <= q && src.file[q + 6] == 5
    && var e := Min(BlockEnd(q), |src.file|);
    !BadLength(src, q, e) && !ZeroRecord(src, q) && !BadChecksum(src, q, e)
  }

  /** Reading physical records from p on meets such a one before the file ends. */
  predicate MeetsFive(src: Source, p: nat)
    decreases |src.file| - Min(p, |src.file|)
  {
    var r := ReadPhysical(src, p);
    if r.kind == EOF then Five(src, p) else MeetsFive(src, r.pos)
  }

  /** The end of the file, or a record that is taken for it. */
  lemma EofIsEndOrFive(src: Source, p: nat)
    ensures ReadPhysical(src, p).kind == EOF <==> AtEof(src, p) || Five(src, p)
    ensures !(AtEof(src, p) && Five(src, p))
  {
  }

  lemma AdvanceIs(src: Source, s: State)
    ensures var t, r := Advance(src, s), ReadPhysical(src, s.pos);
            t.s.pos == r.pos && (t.End? <==> r.kind == EOF)
  {
  }

  /** A run ends at the end of the file if and only if no such record is met; otherwise it ends
      at that record. */
  lemma {:induction false} StopsExactly(src: Source, s: State)
    ensures AtEof(src, Stop(src, s)) <==> !MeetsFive(src, s.pos)
    ensures MeetsFive(src, s.pos) ==> Five(src, Stop(src, s))
    decreases |src.file| - Min(s.pos, |src.file|)
  {
    AdvanceIs(src, s);
    EofIsEndOrFive(src, s.pos);
    var t := Advance(src, s);
    if !t.End? {
      StopsExactly(src, t.s);
    }
  }

  /** Marks where the definition of Leads is used, so that the verifier uses it nowhere else. */
  ghost predicate UseRun(m: int) { true }

  /** From s on, the reader delivers and reports this, and stops there. */
  ghost predicate Leads(src: Source, s: State, o: Outcome, stop: nat) {
    forall m {:trigger UseRun(m)} :: UseRun(m) ==> Run(src, s) == o && Stop(src, s) == stop
  }

  lemma LeadsOn(src: Source, s: State, o: Outcome, stop: nat)
    requires Leads(src, s, o, stop)
    ensures match Advance(src, s)
            case Continue(s') => Leads(src, s', o, stop)
            case Found(item, s') => o.items != [] && o.items[0] == item && Leads(src, s', Outcome(o.items[1..], o.reports), stop)
            case End(s') => o == Outcome([], s'.reports) && stop == s.pos
  {
    assert UseRun(0);
  }

  /** SkipToInitialBlock: the first block that can hold a record at or after the offset. */
  function InitialBlock(initial: nat): nat {
    if Offset(initial) > BLOCK - 6 then BlockEnd(initial) else initial - Offset(initial)
  }

  function Opened(src: Source): State {
    State(if src.initial == 0 then 0 else InitialBlock(src.initial), src.initial > 0, false, [], 0, [])
  }

  // ---- the reader object ----------------------------------------------------------------

  /** The buffer is what remains of the block read last, which ended at `end`. */
  ghost predicate BufferHolds(file: bytes, buffer: bytes, end: nat, eof: bool) {
    && |buffer| <= end
    && (buffer != [] ==> end <= |file| && buffer == file[end - |buffer|..end])
    && (!eof ==> Offset(end) == 0 && |buffer| <= BLOCK)
    && (eof ==> |file| <= end && |file| < BlockEnd(end - |buffer|))
  }

  /** Marks where the definition of Buffered is used, so that the verifier uses it nowhere else. */
  ghost predicate UseBuffer(m: int) { true }

  ghost predicate Buffered(file: bytes, buffer: bytes, end: nat, eof: bool) {
    forall m {:trigger UseBuffer(m)} :: UseBuffer(m) ==> BufferHolds(file, buffer, end, eof)
  }

  lemma BufferedTail(file: bytes, buffer: bytes, end: nat, eof: bool, n: nat)
    requires Buffered(file, buffer, end, eof) && n <= |buffer|
    ensures Buffered(file, buffer[n..], end, eof)
  {
    assert UseBuffer(0);
  }

  lemma BufferedAligned(file: bytes, buffer: bytes, end: nat)
    requires Buffered(file, buffer, end, false)
    ensures Offset(end) == 0
  {
    assert UseBuffer(0);
  }

  /** A buffer too short for a header is a trailer, and the next block follows it. */
  lemma BufferedTrailer(src: Source, buffer: bytes, end: nat)
    requires Buffered(src.file, buffer, end, false) && |buffer| < HEADER && |buffer| <= end
    ensures ReadPhysical(src, end) == ReadPhysical(src, end - |buffer|) && AtEof(src, end) == AtEof(src, end - |buffer|)
  {
    assert UseBuffer(0);
    SameTrailer(src, end - |buffer|, end);
  }

  /** At the end of the file, it is what is left of a header. */
  lemma BufferedEnd(src: Source, buffer: bytes, end: nat)
    requires Buffered(src.file, buffer, end, true) && |buffer| < HEADER && |buffer| <= end
    ensures ReadPhysical(src, end - |buffer|) == Read(EOF, SkipTrailer(end - |buffer|), [], end, None)
    ensures Buffered(src.file, [], end, true)
  {
    assert UseBuffer(0);
    EofAt(end - |buffer|, end, src);
  }

  /** What ReadPhysical sees at q when the rest of q's block is in the buffer. */
  function ParseAt(src: Source, q: nat, buffer: bytes, eof: bool): Read
    requires HEADER <= |buffer|
  {
    var length, end := HeaderLength(buffer), q + |buffer|;
    if HEADER + length > |buffer| then
      if eof then Read(EOF, q, [], end, None) else Read(BAD, q, [], end, Some(|buffer|))
    else if buffer[6] == ZERO && length == 0 then Read(BAD, q, [], end, None)
    else
      var payload := buffer[HEADER..HEADER + length];
      if src.check && !src.fr.matches(DecodeFixed32(buffer), buffer[6], payload) then Read(BAD, q, [], end, Some(|buffer|))
      else if q < src.initial then Read(BAD, q, [], q + HEADER + length, None)
      else Read(buffer[6], q, payload, q + HEADER + length, None)
  }

  lemma SliceOfSlice(file: bytes, q: nat, n: nat, i: nat, j: nat)
    requires q + n <= |file| && i <= j <= n
    ensures file[q..q + n][i..j] == file[q + i..q + j]
  {
    var a, b := file[q..q + n][i..j], file[q + i..q + j];
    forall k | 0 <= k < j - i
      ensures a[k] == b[k]
    {
      assert a[k] == file[q..q + n][i + k] == file[q + i + k];
    }
  }

  lemma ParseIsRead(src: Source, q: nat, buffer: bytes, eof: bool)
    requires HEADER <= |buffer| && Buffered(src.file, buffer, q + |buffer|, eof)
    ensures ReadPhysical(src, q) == ParseAt(src, q, buffer, eof)
  {
    assert UseBuffer(0);
    BufferedBlock(q, q + |buffer|, src.file, eof);
    ParseIsReadAt(src, q, buffer, eof);
  }

  lemma ParseIsReadAt(src: Source, q: nat, buffer: bytes, eof: bool)
    requires HEADER <= |buffer| && q + |buffer| <= |src.file| && buffer == src.file[q..q + |buffer|]
    ensures ReadAt(src, q, q + |buffer|, eof) == ParseAt(src, q, buffer, eof)
  {
    HeaderInBuffer(buffer, src.file, q);
    var length := HeaderLength(buffer);
    if HEADER + length <= |buffer| {
      SliceOfSlice(src.file, q, |buffer|, HEADER, HEADER + length);
    }
  }

  lemma ParseAtEof(src: Source, q: nat, buffer: bytes, eof: bool)
    requires HEADER <= |buffer| && Buffered(src.file, buffer, q + |buffer|, eof)
    requires AtEof(src, q)
    ensures eof && ParseAt(src, q, buffer, eof) == Read(EOF, q, [], q + |buffer|, None)
  {
    assert UseBuffer(0);
    BufferedBlock(q, q + |buffer|, src.file, eof);
    HeaderInBuffer(buffer, src.file, q);
  }

  class Reader {
    const src: Source
    var filePos: nat
    var buffer: bytes
    var eof: bool
    var lastRecordOffset: nat
    var endOfBufferOffset: nat
    var resyncing: bool
    var reports: seq<nat>

    ghost predicate Ok()
      reads this
    {
      filePos == endOfBufferOffset && |buffer| <= endOfBufferOffset && Buffered(src.file, buffer, endOfBufferOffset, eof)
    }

    /** Between calls: until a record has been returned, nothing has been read. */
    ghost predicate Valid()
      reads this
    {
      Ok() && (lastRecordOffset < src.initial ==>
                 && buffer == [] && endOfBufferOffset == 0 && !eof
                 && resyncing && reports == [])
    }

    /** The file is used up: whatever is called from here on finds nothing more. */
    ghost predicate Ended()
      reads this
    {
      eof && buffer == []
    }

    /** Where the reads that are still to come will stop. */
    ghost function RestStop(): nat
      requires Valid()
      reads this
    {
      Stop(src, if lastRecordOffset < src.initial then Opened(src) else State(Pos(), resyncing, false, [], 0, reports))
    }

    /** Where the next call starts to read. */
    ghost function RestPos(): nat
      requires Valid()
      reads this
    {
      if lastRecordOffset < src.initial then Opened(src).pos else Pos()
    }

    ghost function Pos(): nat
      requires |buffer| <= endOfBufferOffset
      reads this
    {
      endOfBufferOffset - |buffer|
    }

    /** What the calls still to come return. */
    ghost function Rest(): Outcome
      requires Valid()
      reads this
    {
      Run(src, if lastRecordOffset < src.initial then Opened(src) else State(Pos(), resyncing, false, [], 0, reports))
    }

    lemma RestStopsExactly()
      requires Valid()
      ensures AtEof(src, RestStop()) <==> !MeetsFive(src, RestPos())
      ensures MeetsFive(src, RestPos()) ==> Five(src, RestStop())
    {
      StopsExactly(src, if lastRecordOffset < src.initial then Opened(src) else State(Pos(), resyncing, false, [], 0, reports));
    }

    constructor (src: Source)
      ensures Valid() && this.src == src && Rest() == Run(src, Opened(src)) && RestStop() == Stop(src, Opened(src))
    {
      this.src := src;
      filePos := 0;
      buffer := [];
      eof := false;
      lastRecordOffset := 0;
      endOfBufferOffset := 0;
      resyncing := src.initial > 0;
      reports := [];
      new;
      assert src.initial == 0 ==> State(Pos(), resyncing, false, [], 0, reports) == Opened(src);
    }

    method ReportDrop(n: nat)
      requires |buffer| <= endOfBufferOffset
      modifies this`reports
      ensures reports == if Pos() - n >= src.initial then old(reports) + [n] else old(reports)
    {
      if endOfBufferOffset - |buffer| - n >= src.initial {
        reports := reports + [n];
      }
    }

    /** file_->Read(kBlockSize): a full block when one is left. */
    method LoadBlock()
      requires Ok() && |buffer| < HEADER && !eof
      modifies this`filePos, this`buffer, this`eof, this`endOfBufferOffset
      ensures Ok() && (eof || HEADER <= |buffer|) && Pos() == old(endOfBufferOffset)
    {
      BufferedAligned(src.file, buffer, endOfBufferOffset);
      LoadedIsBuffered(src.file, filePos);
      var n := if filePos < |src.file| then Min(BLOCK, |src.file| - filePos) else 0;
      buffer := if filePos < |src.file| then src.file[filePos..filePos + n] else [];
      filePos := filePos + n;
      endOfBufferOffset := endOfBufferOffset + |buffer|;
      eof := |buffer| < BLOCK;
    }

    /** The outcome r of the physical record that began at the old position. */
    twostate predicate Yields(r: Read, kind: nat, fragment: bytes)
      requires |buffer| <= endOfBufferOffset
      reads this
    {
      && kind == r.kind && fragment == r.fragment && Pos() == r.pos
      && (r.kind != EOF && r.kind != BAD ==> r.start == Pos() - HEADER - |fragment|)
      && reports == if r.drop.Some? && r.pos - r.drop.value >= src.initial
                    then old(reports) + [r.drop.value] else old(reports)
    }

    /** A header is in the buffer: check it and take the record off the buffer. */
    method ParseBuffered() returns (kind: nat, fragment: bytes)
      requires Ok() && HEADER <= |buffer|
      modifies this`buffer, this`reports
      ensures Ok() && Yields(ParseAt(src, old(Pos()), old(buffer), eof), kind, fragment)
    {
      fragment := [];
      var length, rest := HeaderLength(buffer), |buffer|;
      BufferedTail(src.file, buffer, endOfBufferOffset, eof, rest);
      assert buffer[rest..] == [];
      if HEADER + length > rest {
        buffer := [];
        if !eof {
          ReportDrop(rest);
          return BAD, [];
        }
        return EOF, [];
      }
      if buffer[6] == ZERO && length == 0 {
        buffer := [];
        return BAD, [];
      }
      var payload := buffer[HEADER..HEADER + length];
      kind := buffer[6];
      if src.check && !src.fr.matches(DecodeFixed32(buffer), buffer[6], payload) {
        buffer := [];
        ReportDrop(rest);
        return BAD, [];
      }
      BufferedTail(src.file, buffer, endOfBufferOffset, eof, HEADER + length);
      buffer := buffer[HEADER + length..];
      if endOfBufferOffset - |buffer| - HEADER - length < src.initial {
        return BAD, [];
      }
      fragment := payload;
    }

    /** Nothing more can be loaded: a short buffer is the end of the file. */
    method TakeBuffered() returns (kind: nat, fragment: bytes)
      requires (Ok() || Ended()) && (eof || HEADER <= |buffer|)
      modifies this`buffer, this`reports
      ensures old(Ok()) ==> Ok() && Yields(ReadPhysical(src, old(Pos())), kind, fragment)
      ensures old(Ok()) && AtEof(src, old(Pos())) ==> Ended()
      ensures old(Ended()) ==> Ended() && kind == EOF && fragment == [] && reports == old(reports)
    {
      if |buffer| < HEADER {
        if Ok() {
          BufferedEnd(src, buffer, endOfBufferOffset);
        }
        buffer := [];
        kind, fragment := EOF, [];
      } else {
        ParseIsRead(src, Pos(), buffer, eof);
        if AtEof(src, Pos()) {
          ParseAtEof(src, Pos(), buffer, eof);
        }
        kind, fragment := ParseBuffered();
      }
    }

    method ReadPhysicalRecord() returns (kind: nat, fragment: bytes)
      requires Ok() || Ended()
      modifies this`filePos, this`buffer, this`eof, this`endOfBufferOffset, this`reports
      ensures old(Ok()) ==> Ok() && Yields(ReadPhysical(src, old(Pos())), kind, fragment)
      ensures old(Ok()) && AtEof(src, old(Pos())) ==> Ended()
      ensures old(Ended()) ==> Ended() && kind == EOF && fragment == [] && reports == old(reports)
    {
      FillBuffer();
      kind, fragment := TakeBuffered();
    }

    /** Loads a block when too little is left of the last one for a header. */
    method FillBuffer()
      requires Ok() || Ended()
      modifies this`filePos, this`buffer, this`eof, this`endOfBufferOffset
      ensures eof || HEADER <= |buffer|
      ensures old(Ok()) ==> Ok() && ReadPhysical(src, Pos()) == old(ReadPhysical(src, Pos())) && AtEof(src, Pos()) == old(AtEof(src, Pos()))
      ensures old(Ended()) ==> Ended()
    {
      if |buffer| < HEADER && !eof {
        BufferedTrailer(src, buffer, endOfBufferOffset);
        LoadBlock();
      }
    }

    /** SkipToInitialBlock, when the file can be positioned. */
    method SkipToInitialBlock()
      requires (Valid() || Ended()) && lastRecordOffset < src.initial
      modifies this`filePos, this`endOfBufferOffset
      ensures old(Valid()) ==> Ok() && Pos() == InitialBlock(src.initial)
    {
      var offsetInBlock := Offset(src.initial);
      var blockStart := src.initial - offsetInBlock;
      if offsetInBlock > BLOCK - 6 {
        blockStart := blockStart + BLOCK;
      }
      endOfBufferOffset := blockStart;
      filePos := filePos + blockStart;
    }

    /** The locals and fields that make up the state of ReadRecord's loop. */
    ghost function Looping(inRecord: bool, scratch: bytes, start: nat): State
      requires |buffer| <= endOfBufferOffset
      reads this
    {
      State(Pos(), resyncing, inRecord, scratch, start, reports)
    }

    /** The switch on the record type, with ReadRecord's locals passed in and out. */
    method Handle(r: Read, inRecord: bool, scratch: bytes, start: nat)
      returns (found: Option<Item>, ended: bool, inRecord': bool, scratch': bytes, start': nat)
      requires |buffer| <= endOfBufferOffset
      modifies this`reports
      ensures var t, s' := Dispatch(src, old(Looping(inRecord, scratch, start)), r), Looping(inRecord', scratch', start');
              && t.s == s'
              && (ended <==> t.End?)
              && found == if t.Found? then Some(t.item) else None
    {
      found, ended, inRecord', scratch', start' := None, false, inRecord, scratch, start;
      if r.kind == FULL as int {
        if inRecord && scratch != [] {
          ReportDrop(|scratch|);
        }
        found, inRecord', scratch', start' := Some(Item(r.fragment, r.start)), false, [], 0;
      } else if r.kind == FIRST as int {
        if inRecord && scratch != [] {
          ReportDrop(|scratch|);
        }
        inRecord', scratch', start' := true, r.fragment, r.start;
      } else if r.kind == MIDDLE as int {
        if !inRecord {
          ReportDrop(|r.fragment|);
        } else {
          scratch' := scratch + r.fragment;
        }
      } else if r.kind == LAST as int {
        if !inRecord {
          ReportDrop(|r.fragment|);
        } else {
          found, inRecord', scratch', start' := Some(Item(scratch + r.fragment, start)), false, [], 0;
        }
      } else if r.kind == EOF {
        ended, inRecord', scratch' := true, false, [];
      } else if r.kind == BAD {
        if inRecord {
          ReportDrop(|scratch|);
          inRecord', scratch' := false, [];
        }
      } else {
        ReportDrop(|r.fragment| + if inRecord then |scratch| else 0);
        inRecord', scratch' := false, [];
      }
    }

    /** Resynchronization, then the switch. */
    method Resolve(r: Read, inRecord: bool, scratch: bytes, start: nat)
      returns (found: Option<Item>, ended: bool, inRecord': bool, scratch': bytes, start': nat)
      requires |buffer| <= endOfBufferOffset
      modifies this`reports, this`resyncing
      ensures var t, s' := Settle(src, old(Looping(inRecord, scratch, start)), r), Looping(inRecord', scratch', start');
              && t.s == s'
              && (ended <==> t.End?)
              && found == if t.Found? then Some(t.item) else None
    {
      if resyncing {
        if r.kind == MIDDLE as int {
          return None, false, inRecord, scratch, start;
        } else if r.kind == LAST as int {
          resyncing := false;
          return None, false, inRecord, scratch, start;
        }
        resyncing := false;
      }
      found, ended, inRecord', scratch', start' := Handle(r, inRecord, scratch, start);
    }

    /** One turn of ReadRecord's loop. */
    method Turn(inRecord: bool, scratch: bytes, start: nat)
      returns (found: Option<Item>, ended: bool, inRecord': bool, scratch': bytes, start': nat)
      requires Ok() || Ended()
      modifies this`filePos, this`buffer, this`eof, this`endOfBufferOffset, this`reports, this`resyncing
      ensures |buffer| <= endOfBufferOffset
      ensures old(Ok()) ==>
                Ok() && var t, s' := Advance(src, old(Looping(inRecord, scratch, start))), Looping(inRecord', scratch', start');
                && t.s == s'
                && (ended <==> t.End?)
                && found == if t.Found? then Some(t.item) else None
      ensures old(Ok()) && AtEof(src, old(Pos())) ==> Ended()
      ensures old(Ended()) ==> Ended() && ended && found.None? && reports == old(reports)
    {
      ghost var ok := Ok();
      ghost var read := ReadPhysical(src, Pos());
      var kind, fragment := ReadPhysicalRecord();
      var pos := endOfBufferOffset - |buffer|;
      // the offset of a bad record or of the end of the file is never used
      var offset := if pos < HEADER + |fragment| then 0 else pos - HEADER - |fragment|;
      var r := Read(kind, offset, fragment, pos, None);
      if ok {
        SameSettle(src, Looping(inRecord, scratch, start), r, read);
      }
      found, ended, inRecord', scratch', start' := Resolve(r, inRecord, scratch, start);
    }

    /** Reads the next record, or reports the end of the input with None; at the end of the
        file it does so from then on. */
    method ReadRecord() returns (record: Option<bytes>)
      requires Valid() || Ended()
      modifies this
      ensures old(Valid()) && record.Some? ==>
                Valid() && old(Rest()) == Outcome([Item(record.value, lastRecordOffset)] + Rest().items, Rest().reports)
                && old(RestStop()) == RestStop()
      ensures old(Valid()) && record.None? ==> old(Rest()) == Outcome([], reports)
      ensures old(Valid()) && record.None? && !MeetsFive(src, old(RestPos())) ==> Ended()
      ensures old(Valid()) && record.None? && MeetsFive(src, old(RestPos())) ==>
                Five(src, old(RestStop())) && |buffer| <= endOfBufferOffset && Pos() == ReadPhysical(src, old(RestStop())).pos
      ensures old(Valid()) && record.None? && src.initial <= lastRecordOffset ==> Valid()
      ensures old(Ended()) ==> record.None? && Ended() && reports == old(reports)
    {
      ghost var valid, done := Valid(), Ended();
      ghost var goal, stop := if valid then Rest() else Outcome([], []), if valid then RestStop() else 0;
      if valid {
        RestStopsExactly();
      }
      if lastRecordOffset < src.initial {
        SkipToInitialBlock();
      }
      assert valid ==> Leads(src, Looping(false, [], 0), goal, stop);
      record := Assemble(valid, done, goal, stop);
      if valid && record.Some? {
        assert UseRun(0);
        assert [goal.items[0]] + goal.items[1..] == goal.items;
      }
    }

    /** The loop of ReadRecord over physical records. */
    method Assemble(ghost valid: bool, ghost done: bool, ghost goal: Outcome, ghost stop: nat) returns (record: Option<bytes>)
      requires |buffer| <= endOfBufferOffset && (valid || done) && (done ==> Ended())
      requires valid ==> Ok() && Leads(src, Looping(false, [], 0), goal, stop)
      modifies this
      ensures done ==> record.None? && Ended() && reports == old(reports)
      ensures valid ==> Ok() && |buffer| <= endOfBufferOffset
      ensures valid && record.None? ==>
                && lastRecordOffset == old(lastRecordOffset) && goal == Outcome([], reports)
                && (AtEof(src, stop) ==> Ended()) && Pos() == ReadPhysical(src, stop).pos
      ensures valid && record.Some? ==>
                && src.initial <= lastRecordOffset && goal.items != [] && goal.items[0] == Item(record.value, lastRecordOffset)
                && Leads(src, Looping(false, [], 0), Outcome(goal.items[1..], goal.reports), stop)
    {
      var inRecord, scratch: bytes, start: nat, found: Option<Item>, ended := false, [], 0, None, false;
      while !ended && found.None?
        invariant |buffer| <= endOfBufferOffset && (valid ==> Ok()) && (inRecord && valid ==> src.initial <= start)
        invariant done ==> Ended() && found.None? && reports == old(reports)
        invariant lastRecordOffset == old(lastRecordOffset)
        invariant valid && !ended && found.None? ==> Leads(src, Looping(inRecord, scratch, start), goal, stop)
        invariant valid && ended ==> found.None? && goal == Outcome([], reports) && (AtEof(src, stop) ==> Ended())
        invariant valid && ended ==> Pos() == ReadPhysical(src, stop).pos
        invariant valid && found.Some? ==>
                    && !inRecord && scratch == [] && start == 0 && src.initial <= found.value.offset
                    && goal.items != [] && goal.items[0] == found.value
                    && Leads(src, Looping(false, [], 0), Outcome(goal.items[1..], goal.reports), stop)
        invariant valid || done
        decreases !ended && found.None?, |src.file| - Min(Pos(), |src.file|)
      {
        if valid {
          OffsetsStay(src, Looping(inRecord, scratch, start));
          LeadsOn(src, Looping(inRecord, scratch, start), goal, stop);
          AdvanceIs(src, Looping(inRecord, scratch, start));
        }
        found, ended, inRecord, scratch, start := Turn(inRecord, scratch, start);
      }
      if found.Some? {
        lastRecordOffset := found.value.offset;
        record := Some(found.value.record);
      } else {
        record := None;
      }
    }
  }

  /** The dispatch depends on the start only for records that are delivered. */
  lemma SameSettle(src: Source, s: State, a: Read, b: Read)
    requires a.kind == b.kind && a.fragment == b.fragment
    requires b.kind != EOF && b.kind != BAD ==> a.start == b.start
    ensures Settle(src, s, a) == Settle(src, s, b)
  {
  }

  /** Records are delivered from the initial offset on only. */
  lemma OffsetsStay(src: Source, s: State)
    requires s.inRecord ==> src.initial <= s.start
    ensures var t := Advance(src, s);
            && (t.Found? ==> src.initial <= t.item.offset && !t.s.inRecord && t.s.scratch == [] && t.s.start == 0)
            && (t.s.inRecord ==> src.initial <= t.s.start)
  {
  }

  lemma EofAt(p: nat, end: nat, src: Source)
    requires p <= end < p + HEADER && |src.file| <= end && |src.file| < BlockEnd(p)
    requires p < end ==> end <= |src.file|
    ensures ReadPhysical(src, p) == Read(EOF, SkipTrailer(p), [], end, None)
  {
  }

  lemma HeaderInBuffer(buffer: bytes, file: bytes, q: nat)
    requires HEADER <= |buffer| && q + |buffer| <= |file| && buffer == file[q..q + |buffer|]
    ensures HeaderLength(buffer) == HeaderLength(file[q..]) && DecodeFixed32(buffer) == DecodeFixed32(file[q..])
    ensures buffer[6] == file[q + 6]
  {
    assert forall i :: 0 <= i < HEADER ==> buffer[i] == file[q..][i];
  }

  /** A short trailer before a block boundary reads as the boundary. */
  lemma SameTrailer(src: Source, p: nat, end: nat)
    requires p <= end && end - p < HEADER && Offset(end) == 0 && (p < end ==> end <= |src.file|)
    ensures ReadPhysical(src, end) == ReadPhysical(src, p) && AtEof(src, end) == AtEof(src, p)
  {
    assert SkipTrailer(p) == end == SkipTrailer(end);
  }

  lemma LoadedIsBuffered(file: bytes, at: nat)
    requires Offset(at) == 0
    ensures var n := if at < |file| then Min(BLOCK, |file| - at) else 0;
            var b := if at < |file| then file[at..at + n] else [];
            Buffered(file, b, at + n, n < BLOCK) && |b| == n
  {
  }

  /** The bytes from q to the end of the buffer are the rest of q's block, or of the file. */
  lemma BufferedBlock(q: nat, end: nat, file: bytes, eof: bool)
    requires q + HEADER <= end <= |file|
    requires !eof ==> Offset(end) == 0 && end - q <= BLOCK
    requires eof ==> |file| <= end && |file| < BlockEnd(q)
    ensures SkipTrailer(q) == q && end == Min(BlockEnd(q), |file|)
    ensures eof <==> |file| < BlockEnd(q)
  {
  }

  // ---- intact, truncated and rejected physical records ----------------------------------

  /** Where the physical records of a log lie. */
  ghost predicate Placed(ph: Physical) {
    InBlock(ph) && 1 <= ph.kind <= 4
  }

  /** A physical record of any type within one block. */
  ghost predicate InBlock(ph: Physical) {
    ph.start == SkipTrailer(ph.start) && ph.End() <= BlockEnd(ph.start)
  }

  lemma FragmentPlaced(p: nat, data: bytes, begin: bool)
    ensures Placed(NextFragment(p, data, begin))
  {
    FragmentFillsBlock(p, data, begin);
    SkipTrailerIdempotent(p);
  }

  lemma ReadsIntact(src: Source, p: nat, ph: Physical)
    requires Sound(src.fr) && InBlock(ph) && Holds(src.fr, src.file, ph) && SkipTrailer(p) == ph.start
    requires ph.kind != ZERO || ph.payload != []
    ensures ReadPhysical(src, p)
            == if ph.start < src.initial then Read(BAD, ph.start, [], ph.End(), None)
               else Read(ph.kind, ph.start, ph.payload, ph.End(), None)
  {
    var q, h := ph.start, src.fr.header(ph.kind, ph.payload);
    var e := Min(BlockEnd(q), |src.file|);
    assert src.file[q..ph.End()] == h + ph.payload;
    HeaderAt(src.file, q, h, ph.payload);
  }

  /** A header is read back byte by byte from where it stands. */
  lemma HeaderAt(file: bytes, q: nat, h: bytes, payload: bytes)
    requires |h| == HEADER && q + HEADER + |payload| <= |file|
    requires file[q..q + HEADER + |payload|] == h + payload
    ensures HeaderLength(file[q..]) == HeaderLength(h) && DecodeFixed32(file[q..]) == DecodeFixed32(h)
    ensures file[q + 6] == h[6] && file[q + HEADER..q + HEADER + |payload|] == payload
  {
    forall i | 0 <= i < HEADER + |payload|
      ensures file[q + i] == (h + payload)[i]
    {
      assert file[q..q + HEADER + |payload|][i] == file[q + i];
    }
  }

  /** A record cut off by the end of the file is not an error: the writer died. */
  lemma ReadsTruncated(src: Source, whole: bytes, p: nat, ph: Physical)
    requires Sound(src.fr) && Placed(ph) && Holds(src.fr, whole, ph) && SkipTrailer(p) == ph.start
    requires |src.file| <= |whole| && src.file == whole[..|src.file|] && |src.file| < ph.End()
    ensures ReadPhysical(src, p).kind == EOF && ReadPhysical(src, p).drop == None && AtEof(src, p)
  {
    var q, h := ph.start, src.fr.header(ph.kind, ph.payload);
    assert whole[q..ph.End()] == h + ph.payload;
    HeaderAt(whole, q, h, ph.payload);
    if q + HEADER <= |src.file| {
      assert src.file[q..][4] == whole[q..][4] && src.file[q..][5] == whole[q..][5];
    }
  }

  lemma HoldsInPrefix(fr: Framing, whole: bytes, n: nat, ph: Physical)
    requires n <= |whole| && Holds(fr, whole, ph) && ph.End() <= n
    ensures Holds(fr, whole[..n], ph)
  {
    assert whole[..n][ph.start..ph.End()] == whole[ph.start..ph.End()];
  }

  lemma RunAtEnd(src: Source, s: State)
    requires |src.file| < SkipTrailer(s.pos) + HEADER
    ensures Run(src, s) == Outcome([], s.reports)
  {
  }

  // ---- what one intact fragment does ----------------------------------------------------

  lemma Delivered(src: Source, s: State, ph: Physical)
    requires Sound(src.fr) && Placed(ph) && Holds(src.fr, src.file, ph) && SkipTrailer(s.pos) == ph.start
    requires src.initial <= ph.start
    ensures Advance(src, s)
            == if s.resync && (ph.kind == MIDDLE || ph.kind == LAST)
               then Continue(s.(pos := ph.End(), resync := ph.kind == MIDDLE))
               else Dispatch(src, s.(pos := ph.End(), resync := false), Read(ph.kind, ph.start, ph.payload, ph.End(), None))
  {
    ReadsIntact(src, s.pos, ph);
  }

  lemma SkippedByOffset(src: Source, s: State, ph: Physical)
    requires Sound(src.fr) && Placed(ph) && Holds(src.fr, src.file, ph) && SkipTrailer(s.pos) == ph.start
    requires ph.start < src.initial && !s.inRecord
    ensures Advance(src, s) == Continue(s.(pos := ph.End(), resync := false))
  {
    ReadsIntact(src, s.pos, ph);
  }

  // ---- logs, whole or cut off -----------------------------------------------------------

  lemma {:induction false} EndGrows(p: nat, data: bytes, begin: bool)
    ensures SkipTrailer(p) + HEADER <= NextFragment(p, data, begin).End() <= EndOf(p, data, begin)
    decreases |data|, if Offset(p) == 0 then 0 else 1
  {
    FragmentFillsBlock(p, data, begin);
    FragmentsUnfold(p, data, begin);
    var ph := NextFragment(p, data, begin);
    if |ph.payload| != |data| {
      EndGrows(ph.End(), data[|ph.payload|..], false);
      SkipTrailerIdempotent(ph.End());
    }
  }

  ghost predicate Cut(src: Source, whole: bytes) {
    Sound(src.fr) && |src.file| <= |whole| && src.file == whole[..|src.file|]
  }

  lemma SplitHolds(fr: Framing, file: bytes, a: seq<Physical>, b: seq<Physical>)
    requires HoldsAll(fr, file, a + b)
    ensures HoldsAll(fr, file, a) && HoldsAll(fr, file, b)
  {
    assert forall i :: 0 <= i < |a| ==> (a + b)[i] == a[i];
    assert forall i :: 0 <= i < |b| ==> (a + b)[|a| + i] == b[i];
  }

  /** A placed record that starts before a block boundary ends at or before it. */
  lemma BeforeBoundary(start: nat, end: nat, boundary: nat)
    requires start < boundary && Offset(boundary) == 0 && end <= BlockEnd(start)
    ensures end <= boundary && SkipTrailer(end) <= boundary == SkipTrailer(boundary)
    ensures start == SkipTrailer(start) ==> start + HEADER <= boundary
  {
  }
}
