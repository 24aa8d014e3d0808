/** The log end to end: the writer's loop, a crash, and the reader's loop. */
module LogRoundTrip {
  import opened Coding
  import opened LogFormat
  import opened LogReader
  import opened LogReports
  import opened LogTorn
  import LogWriter

  /** Writes the records, by a writer that is reopened on the file before each record in
      `reopens`. */
  method WriteLog(fr: Framing, records: seq<bytes>, reopens: set<nat>) returns (file: bytes)
    requires Sound(fr)
    ensures IsLog(fr, file, records)
  {
    var w := new LogWriter.Writer(fr, []);
    for i := 0 to |records|
      invariant fresh(w) && w.Valid() && w.fr == fr && IsLog(fr, w.dest, records[..i])
    {
      if i in reopens {
        w := new LogWriter.Writer(fr, w.dest);
      }
      AppendKeepsLog(fr, w.dest, records[..i], records[i]);
      assert records[..i] + [records[i]] == records[..i + 1];
      w.AddRecord(records[i]);
    }
    assert records[..|records|] == records;
    file := w.dest;
  }

  /** Calls ReadRecord until it returns false. */
  method ReadLog(src: Source) returns (items: seq<Item>, reports: seq<nat>, r: Reader)
    ensures fresh(r) && Outcome(items, reports) == Run(src, Opened(src)) && r.reports == reports
    ensures !MeetsFive(src, Opened(src).pos) ==> r.Ended()
    ensures MeetsFive(src, Opened(src).pos) ==>
              Five(src, Stop(src, Opened(src))) && |r.buffer| <= r.endOfBufferOffset
              && r.Pos() == ReadPhysical(src, Stop(src, Opened(src))).pos
  {
    r := new Reader(src);
    StopsExactly(src, Opened(src));
    items, reports := ReadRest(r);
  }

  /** At the end of the file every further call returns false and reports nothing. */
  method ReadPastEnd(r: Reader, more: nat) returns (late: seq<Option<bytes>>)
    requires r.Ended()
    modifies r
    ensures r.Ended() && r.reports == old(r.reports)
    ensures |late| == more && forall i :: 0 <= i < more ==> late[i].None?
  {
    late := [];
    for i := 0 to more
      invariant r.Ended() && r.reports == old(r.reports)
      invariant |late| == i && forall k :: 0 <= k < i ==> late[k].None?
    {
      var record := r.ReadRecord();
      late := late + [record];
    }
  }

  method ReadRest(r: Reader) returns (items: seq<Item>, reports: seq<nat>)
    requires r.Valid()
    modifies r
    ensures Outcome(items, reports) == old(r.Rest()) && r.reports == reports
    ensures Stands(r, old(r.RestStop()))
  {
    ghost var all, stop := r.Rest(), r.RestStop();
    items := [];
    var record, rest := ReadOne(r);
    while record.Some?
      invariant record.Some? ==> r.Valid() && rest == r.Rest() && r.RestStop() == stop
                                 && all == Joined(items, Item(record.value, r.lastRecordOffset), rest)
      invariant record.None? ==> all == Outcome(items, r.reports) && Stands(r, stop)
      decreases if record.Some? then 1 + |rest.items| else 0
    {
      var item := Item(record.value, r.lastRecordOffset);
      JoinedOnce(items, item, rest);
      items := items + [item];
      record, rest := ReadOne(r);
    }
    reports := r.reports;
  }

  /** Where the reader stands after a read that stopped there: at the end of the file, or behind
      the record that was taken for it. */
  ghost predicate Stands(r: Reader, stop: nat)
    reads r
  {
    if AtEof(r.src, stop) then r.Ended()
    else Five(r.src, stop) && |r.buffer| <= r.endOfBufferOffset && r.Pos() == ReadPhysical(r.src, stop).pos
  }

  /** One call of ReadRecord. */
  method ReadOne(r: Reader) returns (record: Option<bytes>, ghost rest: Outcome)
    requires r.Valid()
    modifies r
    ensures record.Some? ==> r.Valid() && rest == r.Rest() && r.RestStop() == old(r.RestStop())
                             && old(r.Rest()) == Outcome([Item(record.value, r.lastRecordOffset)] + rest.items, rest.reports)
    ensures record.None? ==> old(r.Rest()) == Outcome([], r.reports) && Stands(r, old(r.RestStop()))
  {
    r.RestStopsExactly();
    record := r.ReadRecord();
    rest := if record.Some? then r.Rest() else Outcome([], r.reports);
  }

  /** Items returned so far, the one just returned, and what is still to come. */
  ghost function Joined(items: seq<Item>, item: Item, rest: Outcome): Outcome {
    Outcome(items + ([item] + rest.items), rest.reports)
  }

  lemma JoinedOnce(items: seq<Item>, item: Item, rest: Outcome)
    ensures Joined(items, item, rest) == Outcome(items + [item] + rest.items, rest.reports)
  {
    assert items + ([item] + rest.items) == items + [item] + rest.items;
  }

  /** All records are expected of a whole log read from its beginning. */
  lemma {:induction false} AllExpected(n: nat, p: nat, records: seq<bytes>)
    requires LayoutEnd(p, records) <= n
    ensures var items := Expected(0, n, p, records);
            |items| == |records| && forall i :: 0 <= i < |records| ==> items[i].record == records[i]
    decreases |records|
  {
    if records != [] {
      var end := EndOf(p, records[0], true);
      AllExpected(n, end, records[1..]);
      LayoutEndGrows(end, records[1..]);
    }
  }

  lemma {:induction false} LayoutEndGrows(p: nat, records: seq<bytes>)
    ensures p <= LayoutEnd(p, records)
    decreases |records|
  {
    if records != [] {
      EndGrows(p, records[0], true);
      SkipTrailerIdempotent(p);
      LayoutEndGrows(EndOf(p, records[0], true), records[1..]);
    }
  }

  /** Any records, any reopening of the writer, a crash that keeps any number of bytes, and any
      initial offset: exactly the whole records in the kept bytes come back, and all of them
      when nothing was lost.  Only the rest of a record that the offset cuts is reported, and
      calls after the end find nothing. */
  method WriteCrashRead(fr: Framing, records: seq<bytes>, reopens: set<nat>, kept: nat, check: bool, initial: nat, more: nat)
    returns (items: seq<Item>, reports: seq<nat>, late: seq<Option<bytes>>, size: nat)
    requires Sound(fr)
    ensures |late| == more && forall i :: 0 <= i < more ==> late[i].None?
    ensures items == Expected(initial, if kept < size then kept else size, 0, records)
    ensures reports == Reported(initial, if kept < size then kept else size, Layout(0, records))
    ensures initial == 0 && size <= kept ==>
              |items| == |records| && forall i :: 0 <= i < |records| ==> items[i].record == records[i]
  {
    var whole := WriteLog(fr, records, reopens);
    size := |whole|;
    var file := if kept < size then whole[..kept] else whole;
    var src := Source(fr, check, file, initial);
    assert whole[..|whole|] == whole;
    LogReads(src, whole, records);
    LogReportsAre(src, whole, records);
    StopsExactly(src, Opened(src));
    var r;
    items, reports, r := ReadLog(src);
    late := ReadPastEnd(r, more);
    if initial == 0 && size <= kept {
      AllExpected(size, 0, records);
    }
  }

  /** Writes the pieces: each by a writer opened on the file, which dies after the given number
      of fragments or finishes its record. */
  method WriteTorn(fr: Framing, pieces: seq<Piece>) returns (file: bytes)
    requires Sound(fr) && Begun(pieces)
    ensures IsTornLog(fr, file, pieces)
  {
    file := [];
    for i := 0 to |pieces|
      invariant IsTornLog(fr, file, pieces[..i])
    {
      var a := pieces[i];
      var end := WrittenEnd(|file|, a.data, true, a.written);
      DyingKeepsLog(fr, file, pieces[..i], a);
      assert pieces[..i] + [a] == pieces[..i + 1];
      var w := new LogWriter.Writer(fr, file);
      w.AddRecord(a.data);
      file := w.dest[..end];
    }
    assert pieces[..|pieces|] == pieces;
  }

  /** Any records, the writer dying after any number of fragments of any of them: exactly the
      whole records come back, and from offset 0 the torn ones that another record follows are
      reported with their lengths. */
  method WriteTornRead(fr: Framing, pieces: seq<Piece>, kept: nat, check: bool, initial: nat, more: nat)
    returns (items: seq<Item>, reports: seq<nat>, late: seq<Option<bytes>>, size: nat)
    requires Sound(fr) && Begun(pieces)
    ensures |late| == more && forall i :: 0 <= i < more ==> late[i].None?
    ensures items == WholeItems(initial, if kept < size then kept else size, 0, pieces)
    ensures initial == 0 ==> reports == TornReports(if kept < size then kept else size, 0, pieces)
  {
    var whole := WriteTorn(fr, pieces);
    size := |whole|;
    var file := if kept < size then whole[..kept] else whole;
    var src := Source(fr, check, file, initial);
    assert whole[..|whole|] == whole;
    TornLogReads(src, whole, pieces);
    StopsExactly(src, Opened(src));
    var r;
    items, reports, r := ReadLog(src);
    late := ReadPastEnd(r, more);
  }
}
