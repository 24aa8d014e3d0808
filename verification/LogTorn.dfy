/** Torn records (db/log_writer.cpp:24-87, db/log_reader.cpp:106-177): a writer dies after some
    fragments of a record, and a reopened one goes on from the file's length.  The fragments
    left behind never become part of another record, and their loss is reported as soon as
    another record follows. */
module LogTorn {
  import opened Coding
  import opened LogFormat
  import opened LogReader

  /** A record, and how many of its fragments were written before the writer died. */
  datatype Piece = Piece(data: bytes, written: nat)

  // ---- layout ---------------------------------------------------------------------------

  /** The first k fragments of what remains of a record; all of them, if there are not more. */
  function Written(p: nat, data: bytes, begin: bool, k: nat): seq<Physical> {
    var fs := Fragments(p, data, begin);
    if k < |fs| then fs[..k] else fs
  }

  function WrittenEnd(p: nat, data: bytes, begin: bool, k: nat): nat {
    LastEnd(p, Written(p, data, begin, k))
  }

  predicate Torn(p: nat, data: bytes, begin: bool, k: nat) { k < |Fragments(p, data, begin)| }

  function TornLayout(p: nat, pieces: seq<Piece>): seq<Physical>
    decreases |pieces|
  {
    if pieces == [] then []
    else
      var a := pieces[0];
      Written(p, a.data, true, a.written) + TornLayout(WrittenEnd(p, a.data, true, a.written), pieces[1..])
  }

  function TornEnd(p: nat, pieces: seq<Piece>): nat
    decreases |pieces|
  {
    if pieces == [] then p else TornEnd(WrittenEnd(p, pieces[0].data, true, pieces[0].written), pieces[1..])
  }

  /** The file holds these pieces, one after the other, at least one fragment of each. */
  ghost predicate IsTornLog(fr: Framing, file: bytes, pieces: seq<Piece>) {
    HoldsAll(fr, file, TornLayout(0, pieces)) && |file| == TornEnd(0, pieces) && Begun(pieces)
  }

  ghost predicate Begun(pieces: seq<Piece>) { forall i :: 0 <= i < |pieces| ==> 1 <= pieces[i].written }

  // ---- what is read ---------------------------------------------------------------------

  /** The pieces written whole that start at or after the offset and end within n bytes. */
  function WholeItems(offset: nat, n: nat, p: nat, pieces: seq<Piece>): seq<Item>
    decreases |pieces|
  {
    if pieces == [] then []
    else
      var a := pieces[0];
      var end := WrittenEnd(p, a.data, true, a.written);
      (if !Torn(p, a.data, true, a.written) && offset <= SkipTrailer(p) && end <= n then [Item(a.data, SkipTrailer(p))] else [])
        + WholeItems(offset, n, end, pieces[1..])
  }

  /** The payload bytes of fragments. */
  function Payloads(fs: seq<Physical>): nat {
    if fs == [] then 0 else |fs[0].payload| + Payloads(fs[1..])
  }

  /** Another piece follows at p, with its first fragment within n bytes. */
  predicate Follows(n: nat, p: nat, pieces: seq<Piece>) {
    pieces != [] && NextFragment(p, pieces[0].data, true).End() <= n
  }

  /** The payload lengths of the torn pieces that another one follows. */
  function TornReports(n: nat, p: nat, pieces: seq<Piece>): seq<nat>
    decreases |pieces|
  {
    if pieces == [] then []
    else
      var a := pieces[0];
      var fs, end := Written(p, a.data, true, a.written), WrittenEnd(p, a.data, true, a.written);
      (if Torn(p, a.data, true, a.written) then Lost(n, end, pieces[1..], Payloads(fs)) else [])
        + TornReports(n, end, pieces[1..])
  }

  /** A loss is reported when there is one and another piece follows. */
  function Lost(n: nat, p: nat, pieces: seq<Piece>, bytes: nat): seq<nat> {
    if 0 < bytes && Follows(n, p, pieces) then [bytes] else []
  }

  /** The reader stands at layout position p, or at a later block boundary before which every
      record starts below the initial offset. */
  ghost predicate At(src: Source, s: State, p: nat) {
    || SkipTrailer(s.pos) == SkipTrailer(p)
    || (SkipTrailer(p) < s.pos <= src.initial + 6 && Offset(s.pos) == 0 && !s.inRecord)
  }

  /** What the record in progress contributes. */
  function Pending(src: Source, s: State, p: nat, data: bytes, begin: bool): seq<Item> {
    if EndOf(p, data, begin) > |src.file| then []
    else if begin then if src.initial <= SkipTrailer(p) then [Item(data, SkipTrailer(p))] else []
    else if s.inRecord then [Item(s.scratch + data, s.start)] else []
  }

  // ---- fragment by fragment -------------------------------------------------------------

  lemma SamePending(src: Source, s: State, s': State, p: nat, data: bytes, begin: bool, ph: Physical)
    requires ph == NextFragment(p, data, begin) && ph.start == SkipTrailer(p)
    requires |ph.payload| < |data| && ph.payload == data[..|ph.payload|]
    requires EndOf(ph.End(), data[|ph.payload|..], false) == EndOf(p, data, begin)
    requires s'.inRecord <==> src.initial <= ph.start && (begin || s.inRecord)
    requires s.inRecord ==> src.initial <= ph.start
    requires s'.inRecord ==> s'.start == (if begin then ph.start else s.start)
                             && s'.scratch == (if begin then [] else s.scratch) + ph.payload
    ensures Pending(src, s', ph.End(), data[|ph.payload|..], false) == Pending(src, s, p, data, begin)
  {
    var data' := data[|ph.payload|..];
    assert data == ph.payload + data';
    assert s.scratch + ph.payload + data' == s.scratch + data;
    assert [] + ph.payload + data' == data;
  }

  lemma WrittenUnfolds(p: nat, data: bytes, begin: bool, k: nat)
    ensures var ph := NextFragment(p, data, begin);
            && |ph.payload| <= |data|
            && (k == 0 ==> Written(p, data, begin, k) == [] && WrittenEnd(p, data, begin, k) == p && Torn(p, data, begin, k))
            && (k > 0 && |ph.payload| == |data| ==>
                  && Written(p, data, begin, k) == [ph] && WrittenEnd(p, data, begin, k) == ph.End()
                  && !Torn(p, data, begin, k) && EndOf(p, data, begin) == ph.End())
            && (k > 0 && |ph.payload| != |data| ==>
                  && Written(p, data, begin, k) == [ph] + Written(ph.End(), data[|ph.payload|..], false, k - 1)
                  && WrittenEnd(p, data, begin, k) == WrittenEnd(ph.End(), data[|ph.payload|..], false, k - 1)
                  && (Torn(p, data, begin, k) <==> Torn(ph.End(), data[|ph.payload|..], false, k - 1))
                  && EndOf(p, data, begin) == EndOf(ph.End(), data[|ph.payload|..], false))
  {
    FragmentFillsBlock(p, data, begin);
    FragmentsUnfold(p, data, begin);
    var ph := NextFragment(p, data, begin);
    if k > 0 && |ph.payload| != |data| {
      var fs := Fragments(ph.End(), data[|ph.payload|..], false);
      assert k < 1 + |fs| ==> ([ph] + fs)[..k] == [ph] + fs[..k - 1];
    }
  }

  /** A piece that is not torn ends where its record does. */
  lemma {:induction false} WholeEnd(p: nat, data: bytes, begin: bool, k: nat)
    requires !Torn(p, data, begin, k)
    ensures WrittenEnd(p, data, begin, k) == EndOf(p, data, begin)
  {
  }

  lemma {:induction false} WrittenGrows(p: nat, data: bytes, begin: bool, k: nat)
    ensures p <= WrittenEnd(p, data, begin, k)
    ensures 0 < k ==> SkipTrailer(p) + HEADER <= NextFragment(p, data, begin).End() <= WrittenEnd(p, data, begin, k)
    decreases k
  {
    WrittenUnfolds(p, data, begin, k);
    SkipTrailerIdempotent(p);
    FragmentFillsBlock(p, data, begin);
    var ph := NextFragment(p, data, begin);
    if 0 < k && |ph.payload| != |data| {
      WrittenGrows(ph.End(), data[|ph.payload|..], false, k - 1);
    }
  }

  /** Nothing is expected or reported of what lies behind the end of the file. */
  lemma {:induction false} NothingBeyond(offset: nat, n: nat, p: nat, pieces: seq<Piece>)
    requires n < p && Begun(pieces)
    ensures WholeItems(offset, n, p, pieces) == [] && TornReports(n, p, pieces) == [] && !Follows(n, p, pieces)
    decreases |pieces|
  {
    if pieces != [] {
      var a := pieces[0];
      WrittenGrows(p, a.data, true, a.written);
      SkipTrailerIdempotent(p);
      NothingBeyond(offset, n, WrittenEnd(p, a.data, true, a.written), pieces[1..]);
    }
  }

  /** From position p on, k more fragments of a record and then further pieces. */
  ghost predicate TornTail(fr: Framing, whole: bytes, p: nat, data: bytes, begin: bool, k: nat, rest: seq<Piece>) {
    && HoldsAll(fr, whole, Written(p, data, begin, k))
    && HoldsAll(fr, whole, TornLayout(WrittenEnd(p, data, begin, k), rest))
    && |whole| == TornEnd(WrittenEnd(p, data, begin, k), rest) && Begun(rest)
  }

  function PieceCount(p: nat, data: bytes, begin: bool, k: nat, rest: seq<Piece>): nat {
    |Written(p, data, begin, k)| + |TornLayout(WrittenEnd(p, data, begin, k), rest)|
  }

  lemma TornTailShrinks(fr: Framing, whole: bytes, p: nat, data: bytes, begin: bool, k: nat, rest: seq<Piece>)
    requires TornTail(fr, whole, p, data, begin, k, rest) && 0 < k
    ensures var ph := NextFragment(p, data, begin);
            && |ph.payload| <= |data| && Holds(fr, whole, ph)
            && if |ph.payload| == |data| then
                 && WrittenEnd(p, data, begin, k) == ph.End() && PieceCount(p, data, begin, k, rest) == 1 + |TornLayout(ph.End(), rest)|
                 && HoldsAll(fr, whole, TornLayout(ph.End(), rest)) && |whole| == TornEnd(ph.End(), rest)
               else
                 && TornTail(fr, whole, ph.End(), data[|ph.payload|..], false, k - 1, rest)
                 && PieceCount(p, data, begin, k, rest) == 1 + PieceCount(ph.End(), data[|ph.payload|..], false, k - 1, rest)
  {
    WrittenUnfolds(p, data, begin, k);
    var ph := NextFragment(p, data, begin);
    assert Written(p, data, begin, k)[0] == ph;
    if |ph.payload| != |data| {
      SplitHolds(fr, whole, [ph], Written(ph.End(), data[|ph.payload|..], false, k - 1));
    }
  }

  /** Between two fragments; what a torn record left behind may still be in the scratch. */
  ghost predicate Between(src: Source, s: State, p: nat, begin: bool) {
    && At(src, s, p) && |s.scratch| <= p
    && (s.inRecord ==> !s.resync && src.initial <= s.start && src.initial <= SkipTrailer(p) && SkipTrailer(s.pos) == SkipTrailer(p))
    && (src.initial == 0 ==> !s.resync && (!begin ==> s.inRecord))
    && (!s.inRecord ==> s.scratch == [])
  }

  /** What the piece in progress contributes. */
  function PieceItems(src: Source, s: State, p: nat, data: bytes, begin: bool, k: nat): seq<Item> {
    if Torn(p, data, begin, k) then [] else Pending(src, s, p, data, begin)
  }

  /** What is reported for it, and for what a torn record before it left behind. */
  function PieceReports(src: Source, s: State, p: nat, data: bytes, begin: bool, k: nat, rest: seq<Piece>): seq<nat> {
    var n, end := |src.file|, WrittenEnd(p, data, begin, k);
    (if begin && s.scratch != [] && NextFragment(p, data, begin).End() <= n then [|s.scratch|] else [])
      + if Torn(p, data, begin, k) then
          Lost(n, end, rest, (if begin then 0 else |s.scratch|) + Payloads(Written(p, data, begin, k)))
        else []
  }

  /** The run delivers these items, ends at the end of the file and, from offset 0, reports this
      beyond what it has. */
  ghost predicate TornReads(src: Source, s: State, items: seq<Item>, more: seq<nat>) {
    forall m {:trigger UseRun(m)} :: UseRun(m) ==>
      && Run(src, s).items == items && AtEof(src, Stop(src, s))
      && (src.initial == 0 ==> Run(src, s).reports == s.reports + more)
  }

  /** One turn of the loop. */
  lemma ReadsOn(src: Source, s: State, items: seq<Item>, more: seq<nat>, x: seq<nat>)
    requires var t := Advance(src, s); !t.End? && TornReads(src, t.s, items, more) && (src.initial == 0 ==> t.s.reports == s.reports + x)
    ensures TornReads(src, s, (if Advance(src, s).Found? then [Advance(src, s).item] else []) + items, x + more)
  {
    assert UseRun(0);
    assert s.reports + x + more == s.reports + (x + more);
    assert [] + items == items;
  }

  lemma ReadsEnd(src: Source, s: State)
    requires Advance(src, s).End? && Advance(src, s).s.reports == s.reports && AtEof(src, s.pos)
    ensures TornReads(src, s, [], [])
  {
  }

  /** After the last fragment of a piece, at position p. */
  lemma {:induction false} NextPiece(src: Source, whole: bytes, s: State, p: nat, rest: seq<Piece>)
    requires Cut(src, whole) && Between(src, s, p, true)
    requires HoldsAll(src.fr, whole, TornLayout(p, rest)) && |whole| == TornEnd(p, rest) && Begun(rest)
    ensures TornReads(src, s, WholeItems(src.initial, |src.file|, p, rest),
                      Lost(|src.file|, p, rest, |s.scratch|) + TornReports(|src.file|, p, rest))
    decreases |TornLayout(p, rest)|, 1, 0
  {
    if rest == [] {
      SkipTrailerIdempotent(s.pos);
      SkipTrailerIdempotent(p);
      RunAtEnd(src, s);
    } else {
      var a := rest[0];
      var fs, end := Written(p, a.data, true, a.written), WrittenEnd(p, a.data, true, a.written);
      SplitHolds(src.fr, whole, fs, TornLayout(end, rest[1..]));
      RestOfPiece(src, whole, s, p, a.data, true, a.written, rest[1..]);
      if !Torn(p, a.data, true, a.written) {
        WholeEnd(p, a.data, true, a.written);
      }
      NextRegroups(src, s, p, rest);
    }
  }

  lemma NextRegroups(src: Source, s: State, p: nat, rest: seq<Piece>)
    requires rest != []
    ensures var a := rest[0];
            PieceReports(src, s, p, a.data, true, a.written, rest[1..])
              + TornReports(|src.file|, WrittenEnd(p, a.data, true, a.written), rest[1..])
            == Lost(|src.file|, p, rest, |s.scratch|) + TornReports(|src.file|, p, rest)
  {
    var a := rest[0];
    var n, end := |src.file|, WrittenEnd(p, a.data, true, a.written);
    var x := Lost(n, p, rest, |s.scratch|);
    var y := if Torn(p, a.data, true, a.written) then Lost(n, end, rest[1..], Payloads(Written(p, a.data, true, a.written))) else [];
    assert x + y + TornReports(n, end, rest[1..]) == x + (y + TornReports(n, end, rest[1..]));
  }

  /** What is still to come for k more fragments of a record and the pieces behind it. */
  ghost predicate Goal(src: Source, s: State, p: nat, data: bytes, begin: bool, k: nat, rest: seq<Piece>) {
    TornReads(src, s, PieceItems(src, s, p, data, begin, k) + WholeItems(src.initial, |src.file|, WrittenEnd(p, data, begin, k), rest),
              PieceReports(src, s, p, data, begin, k, rest) + TornReports(|src.file|, WrittenEnd(p, data, begin, k), rest))
  }

  /** k more fragments of a record, and then further pieces. */
  lemma {:induction false} RestOfPiece(src: Source, whole: bytes, s: State, p: nat, data: bytes, begin: bool, k: nat, rest: seq<Piece>)
    requires Cut(src, whole) && Between(src, s, p, begin) && TornTail(src.fr, whole, p, data, begin, k, rest) && (begin ==> 0 < k)
    ensures Goal(src, s, p, data, begin, k, rest)
    decreases PieceCount(p, data, begin, k, rest), if k == 0 then 2 else 0, 1
  {
    var ph := NextFragment(p, data, begin);
    if k == 0 {
      WrittenUnfolds(p, data, begin, k);
      NextPiece(src, whole, s, p, rest);
      NoneLeft(src, s, p, data, rest);
    } else {
      TornTailShrinks(src.fr, whole, p, data, begin, k, rest);
      FragmentFillsBlock(p, data, begin);
      if SkipTrailer(s.pos) != ph.start {
        PieceSkipped(src, whole, s, p, data, begin, k, rest);
      } else if |src.file| < ph.End() {
        PieceCut(src, whole, s, p, data, begin, k, rest);
      } else {
        HoldsInPrefix(src.fr, whole, |src.file|, ph);
        if |ph.payload| == |data| {
          PieceFinal(src, whole, s, p, data, begin, k, rest);
        } else {
          PiecePartial(src, whole, s, p, data, begin, k, rest);
        }
      }
    }
  }

  lemma NoneLeft(src: Source, s: State, p: nat, data: bytes, rest: seq<Piece>)
    ensures WrittenEnd(p, data, false, 0) == p && PieceItems(src, s, p, data, false, 0) == []
    ensures PieceReports(src, s, p, data, false, 0, rest) == Lost(|src.file|, p, rest, |s.scratch|)
    ensures [] + WholeItems(src.initial, |src.file|, p, rest) == WholeItems(src.initial, |src.file|, p, rest)
  {
    WrittenUnfolds(p, data, false, 0);
  }

  /** The writer died within this fragment, or the file was cut off there. */
  lemma PieceCut(src: Source, whole: bytes, s: State, p: nat, data: bytes, begin: bool, k: nat, rest: seq<Piece>)
    requires Cut(src, whole) && Begun(rest) && 0 < k && Holds(src.fr, whole, NextFragment(p, data, begin))
    requires SkipTrailer(s.pos) == SkipTrailer(p) && |src.file| < NextFragment(p, data, begin).End()
    ensures Goal(src, s, p, data, begin, k, rest)
  {
    FragmentPlaced(p, data, begin);
    FragmentFillsBlock(p, data, begin);
    WrittenGrows(p, data, begin, k);
    ReadsTruncated(src, whole, s.pos, NextFragment(p, data, begin));
    AdvanceIs(src, s);
    NothingBeyond(src.initial, |src.file|, WrittenEnd(p, data, begin, k), rest);
    if !Torn(p, data, begin, k) {
      WholeEnd(p, data, begin, k);
    }
    ReadsEnd(src, s);
  }

  /** The reader has jumped over this fragment. */
  lemma {:induction false} PieceSkipped(src: Source, whole: bytes, s: State, p: nat, data: bytes, begin: bool, k: nat, rest: seq<Piece>)
    requires Cut(src, whole) && Between(src, s, p, begin) && TornTail(src.fr, whole, p, data, begin, k, rest) && 0 < k
    requires SkipTrailer(s.pos) != SkipTrailer(p)
    ensures Goal(src, s, p, data, begin, k, rest)
    decreases PieceCount(p, data, begin, k, rest), 0, 0
  {
    var ph := NextFragment(p, data, begin);
    FragmentFillsBlock(p, data, begin);
    FragmentPlaced(p, data, begin);
    TornTailShrinks(src.fr, whole, p, data, begin, k, rest);
    BeforeBoundary(ph.start, ph.End(), s.pos);
    if |ph.payload| == |data| {
      NextPiece(src, whole, s, ph.End(), rest);
      SkippedFinal(src, s, p, data, begin, k, rest);
    } else {
      RestOfPiece(src, whole, s, ph.End(), data[|ph.payload|..], false, k - 1, rest);
      SkippedPartial(src, s, p, data, begin, k, rest);
    }
  }

  lemma SkippedFinal(src: Source, s: State, p: nat, data: bytes, begin: bool, k: nat, rest: seq<Piece>)
    requires 0 < k && !s.inRecord && s.scratch == [] && SkipTrailer(p) < src.initial
    requires var ph := NextFragment(p, data, begin);
             |ph.payload| == |data|
             && TornReads(src, s, WholeItems(src.initial, |src.file|, ph.End(), rest),
                          Lost(|src.file|, ph.End(), rest, 0) + TornReports(|src.file|, ph.End(), rest))
    ensures Goal(src, s, p, data, begin, k, rest)
  {
    WrittenUnfolds(p, data, begin, k);
    assert Pending(src, s, p, data, begin) == [];
  }

  lemma SkippedPartial(src: Source, s: State, p: nat, data: bytes, begin: bool, k: nat, rest: seq<Piece>)
    requires 0 < k && !s.inRecord && s.scratch == [] && SkipTrailer(p) < src.initial
    requires var ph := NextFragment(p, data, begin);
             |ph.payload| < |data| && Goal(src, s, ph.End(), data[|ph.payload|..], false, k - 1, rest)
    ensures Goal(src, s, p, data, begin, k, rest)
  {
    var ph := NextFragment(p, data, begin);
    WrittenUnfolds(p, data, begin, k);
    assert Pending(src, s, p, data, begin) == [] == Pending(src, s, ph.End(), data[|ph.payload|..], false);
  }

  /** The last (or only) fragment of a record is in the file. */
  lemma {:induction false} PieceFinal(src: Source, whole: bytes, s: State, p: nat, data: bytes, begin: bool, k: nat, rest: seq<Piece>)
    requires Cut(src, whole) && Between(src, s, p, begin) && TornTail(src.fr, whole, p, data, begin, k, rest) && 0 < k
    requires var ph := NextFragment(p, data, begin);
             && SkipTrailer(s.pos) == ph.start && |ph.payload| == |data|
             && ph.End() <= |src.file| && Holds(src.fr, src.file, ph)
    ensures Goal(src, s, p, data, begin, k, rest)
    decreases PieceCount(p, data, begin, k, rest), 0, 0
  {
    var ph := NextFragment(p, data, begin);
    TornTailShrinks(src.fr, whole, p, data, begin, k, rest);
    FinalStep(src, s, p, data, begin, ph);
    var t := Advance(src, s);
    NextPiece(src, whole, t.s, ph.End(), rest);
    var x := if begin && s.scratch != [] then [|s.scratch|] else [];
    ReadsOn(src, s, WholeItems(src.initial, |src.file|, ph.End(), rest),
            Lost(|src.file|, ph.End(), rest, 0) + TornReports(|src.file|, ph.End(), rest), x);
    FinalItems(src, s, p, data, begin, k);
    FinalReports(src, s, p, data, begin, k, rest);
    assert [] + TornReports(|src.file|, ph.End(), rest) == TornReports(|src.file|, ph.End(), rest);
  }

  lemma FinalItems(src: Source, s: State, p: nat, data: bytes, begin: bool, k: nat)
    requires 0 < k && (s.inRecord ==> src.initial <= SkipTrailer(p))
    requires var ph := NextFragment(p, data, begin); ph.End() <= |src.file| && |ph.payload| == |data| && ph.start == SkipTrailer(p)
    ensures var ph := NextFragment(p, data, begin);
            && WrittenEnd(p, data, begin, k) == ph.End()
            && PieceItems(src, s, p, data, begin, k)
               == (if src.initial <= ph.start && (begin || s.inRecord)
                   then [if begin then Item(data, ph.start) else Item(s.scratch + data, s.start)] else [])
  {
    WrittenUnfolds(p, data, begin, k);
  }

  lemma FinalReports(src: Source, s: State, p: nat, data: bytes, begin: bool, k: nat, rest: seq<Piece>)
    requires 0 < k && NextFragment(p, data, begin).End() <= |src.file| && |NextFragment(p, data, begin).payload| == |data|
    ensures PieceReports(src, s, p, data, begin, k, rest) == if begin && s.scratch != [] then [|s.scratch|] else []
  {
    WrittenUnfolds(p, data, begin, k);
  }

  /** What the last fragment of a record does: the record is delivered without what a torn one
      left behind, which is reported. */
  lemma FinalStep(src: Source, s: State, p: nat, data: bytes, begin: bool, ph: Physical)
    requires Sound(src.fr) && Between(src, s, p, begin) && ph == NextFragment(p, data, begin)
    requires SkipTrailer(s.pos) == ph.start && |ph.payload| == |data| && Holds(src.fr, src.file, ph)
    ensures var t := Advance(src, s);
            && !t.End? && t.s.pos == ph.End() && !t.s.inRecord && t.s.scratch == [] && (src.initial == 0 ==> !t.s.resync)
            && (t.Found? <==> src.initial <= ph.start && (begin || s.inRecord))
            && (t.Found? ==> t.item == if begin then Item(data, ph.start) else Item(s.scratch + data, s.start))
            && (src.initial == 0 ==> t.s.reports == s.reports + if begin && s.scratch != [] then [|s.scratch|] else [])
  {
    FragmentPlaced(p, data, begin);
    FragmentFillsBlock(p, data, begin);
    SkipTrailerIdempotent(p);
    assert data[..|data|] == data;
    ReadsIntact(src, s.pos, ph);
  }

  /** A fragment of a record that goes on in the next block is in the file. */
  lemma {:induction false} PiecePartial(src: Source, whole: bytes, s: State, p: nat, data: bytes, begin: bool, k: nat, rest: seq<Piece>)
    requires Cut(src, whole) && Between(src, s, p, begin) && TornTail(src.fr, whole, p, data, begin, k, rest) && 0 < k
    requires var ph := NextFragment(p, data, begin);
             && SkipTrailer(s.pos) == ph.start && |ph.payload| < |data|
             && ph.End() <= |src.file| && Holds(src.fr, src.file, ph)
    ensures Goal(src, s, p, data, begin, k, rest)
    decreases PieceCount(p, data, begin, k, rest), 0, 0
  {
    var ph := NextFragment(p, data, begin);
    TornTailShrinks(src.fr, whole, p, data, begin, k, rest);
    TornPartialStep(src, s, p, data, begin, ph);
    RestOfPiece(src, whole, Advance(src, s).s, ph.End(), data[|ph.payload|..], false, k - 1, rest);
    PartialGoal(src, s, p, data, begin, k, rest, if begin && s.scratch != [] then [|s.scratch|] else []);
  }

  lemma PartialGoal(src: Source, s: State, p: nat, data: bytes, begin: bool, k: nat, rest: seq<Piece>, x: seq<nat>)
    requires 0 < k && x == if begin && s.scratch != [] then [|s.scratch|] else []
    requires var ph, t := NextFragment(p, data, begin), Advance(src, s);
             && ph.End() <= |src.file| && |ph.payload| < |data| && t.Continue? && Taken(src, s, t.s, begin, ph)
             && (src.initial == 0 ==> t.s.inRecord && t.s.reports == s.reports + x)
             && Goal(src, t.s, ph.End(), data[|ph.payload|..], false, k - 1, rest)
    ensures Goal(src, s, p, data, begin, k, rest)
  {
    var ph, s' := NextFragment(p, data, begin), Advance(src, s).s;
    var data' := data[|ph.payload|..];
    var end := WrittenEnd(ph.End(), data', false, k - 1);
    var items := PieceItems(src, s', ph.End(), data', false, k - 1) + WholeItems(src.initial, |src.file|, end, rest);
    var y, z := PieceReports(src, s', ph.End(), data', false, k - 1, rest), TornReports(|src.file|, end, rest);
    ReadsOn(src, s, items, y + z, x);
    PartialItems(src, s, s', p, data, begin, k);
    assert [] + items == items;
    if src.initial == 0 {
      PartialReports(src, s, s', p, data, begin, k, rest, x);
      Regroups(x, y, z);
    } else {
      OtherReports(src, s, items, x + (y + z), PieceReports(src, s, p, data, begin, k, rest) + z);
    }
  }

  /** From other offsets nothing is said of the reports. */
  lemma OtherReports(src: Source, s: State, items: seq<Item>, more: seq<nat>, other: seq<nat>)
    requires src.initial != 0 && TornReads(src, s, items, more)
    ensures TornReads(src, s, items, other)
  {
    assert UseRun(0);
  }

  lemma Regroups(x: seq<nat>, y: seq<nat>, z: seq<nat>)
    ensures x + (y + z) == x + y + z
  {
  }

  /** The state after a fragment of a record that goes on. */
  ghost predicate Taken(src: Source, s: State, s': State, begin: bool, ph: Physical) {
    && (s.inRecord ==> src.initial <= ph.start) && (!begin && !s.inRecord ==> s.scratch == [])
    && (s'.inRecord <==> src.initial <= ph.start && (begin || s.inRecord))
    && (s'.inRecord ==> s'.start == (if begin then ph.start else s.start)
                         && s'.scratch == (if begin then [] else s.scratch) + ph.payload)
  }

  lemma PartialItems(src: Source, s: State, s': State, p: nat, data: bytes, begin: bool, k: nat)
    requires 0 < k && |NextFragment(p, data, begin).payload| < |data| && Taken(src, s, s', begin, NextFragment(p, data, begin))
    ensures var ph := NextFragment(p, data, begin);
            var data' := data[|ph.payload|..];
            && WrittenEnd(p, data, begin, k) == WrittenEnd(ph.End(), data', false, k - 1)
            && PieceItems(src, s, p, data, begin, k) == PieceItems(src, s', ph.End(), data', false, k - 1)
  {
    WrittenUnfolds(p, data, begin, k);
    FragmentFillsBlock(p, data, begin);
    SamePending(src, s, s', p, data, begin, NextFragment(p, data, begin));
  }

  lemma SameBytes(src: Source, s: State, s': State, p: nat, data: bytes, begin: bool, k: nat)
    requires 0 < k && |NextFragment(p, data, begin).payload| < |data| && Taken(src, s, s', begin, NextFragment(p, data, begin)) && s'.inRecord
    ensures var ph := NextFragment(p, data, begin);
            (if begin then 0 else |s.scratch|) + Payloads(Written(p, data, begin, k))
            == |s'.scratch| + Payloads(Written(ph.End(), data[|ph.payload|..], false, k - 1))
  {
    var ph := NextFragment(p, data, begin);
    WrittenUnfolds(p, data, begin, k);
    PayloadsCons(ph, Written(ph.End(), data[|ph.payload|..], false, k - 1));
  }

  lemma PartialReports(src: Source, s: State, s': State, p: nat, data: bytes, begin: bool, k: nat, rest: seq<Piece>, x: seq<nat>)
    requires 0 < k && x == if begin && s.scratch != [] then [|s.scratch|] else []
    requires var ph := NextFragment(p, data, begin);
             ph.End() <= |src.file| && |ph.payload| < |data| && Taken(src, s, s', begin, ph) && s'.inRecord
    ensures var ph := NextFragment(p, data, begin);
            PieceReports(src, s, p, data, begin, k, rest) == x + PieceReports(src, s', ph.End(), data[|ph.payload|..], false, k - 1, rest)
  {
    var ph := NextFragment(p, data, begin);
    var n, end, data' := |src.file|, WrittenEnd(p, data, begin, k), data[|ph.payload|..];
    SameBytes(src, s, s', p, data, begin, k);
    WrittenUnfolds(p, data, begin, k);
    var y := if Torn(p, data, begin, k) then Lost(n, end, rest, |s'.scratch| + Payloads(Written(ph.End(), data', false, k - 1))) else [];
    assert PieceReports(src, s, p, data, begin, k, rest) == x + y;
    assert PieceReports(src, s', ph.End(), data', false, k - 1, rest) == [] + y;
  }

  lemma PayloadsCons(ph: Physical, fs: seq<Physical>)
    ensures Payloads([ph] + fs) == |ph.payload| + Payloads(fs)
  {
    assert ([ph] + fs)[1..] == fs;
  }

  lemma TornPartialStep(src: Source, s: State, p: nat, data: bytes, begin: bool, ph: Physical)
    requires Sound(src.fr) && Between(src, s, p, begin) && ph == NextFragment(p, data, begin)
    requires SkipTrailer(s.pos) == ph.start && |ph.payload| < |data| && Holds(src.fr, src.file, ph)
    ensures var t := Advance(src, s);
            && t.Continue? && t.s.pos == ph.End() && Between(src, t.s, ph.End(), false)
            && (t.s.inRecord <==> src.initial <= ph.start && (begin || s.inRecord))
            && (t.s.inRecord ==> t.s.start == (if begin then ph.start else s.start)
                                 && t.s.scratch == (if begin then [] else s.scratch) + ph.payload)
            && (src.initial == 0 ==> t.s.reports == s.reports + if begin && s.scratch != [] then [|s.scratch|] else [])
  {
    FragmentPlaced(p, data, begin);
    FragmentFillsBlock(p, data, begin);
    SkipTrailerIdempotent(p);
    ReadsIntact(src, s.pos, ph);
    assert [] + ph.payload == ph.payload;
  }

  /** Of a log of whole and torn records, cut off anywhere, a reader opened at any offset returns
      exactly the whole records within the kept bytes that start at or after the offset, with
      their starts; from offset 0 it reports exactly the payload lengths of the torn records
      that another record follows. */
  lemma TornLogReads(src: Source, whole: bytes, pieces: seq<Piece>)
    requires Cut(src, whole) && IsTornLog(src.fr, whole, pieces)
    ensures Run(src, Opened(src)).items == WholeItems(src.initial, |src.file|, 0, pieces)
    ensures src.initial == 0 ==> Run(src, Opened(src)).reports == TornReports(|src.file|, 0, pieces)
    ensures AtEof(src, Stop(src, Opened(src)))
  {
    assert UseRun(0);
    NextPiece(src, whole, Opened(src), 0, pieces);
    assert Lost(|src.file|, 0, pieces, 0) == [];
  }

  // ---- writing --------------------------------------------------------------------------

  lemma {:induction false} TornAppend(p: nat, pieces: seq<Piece>, a: Piece)
    ensures TornLayout(p, pieces + [a]) == TornLayout(p, pieces) + Written(TornEnd(p, pieces), a.data, true, a.written)
    ensures TornEnd(p, pieces + [a]) == WrittenEnd(TornEnd(p, pieces), a.data, true, a.written)
    decreases |pieces|
  {
    var all := pieces + [a];
    if pieces == [] {
      assert all == [a] && all[1..] == [];
      assert TornLayout(WrittenEnd(p, a.data, true, a.written), all[1..]) == [];
    } else {
      var b := pieces[0];
      var end := WrittenEnd(p, b.data, true, b.written);
      assert all[0] == b && all[1..] == pieces[1..] + [a];
      TornAppend(end, pieces[1..], a);
      var x, y, z := Written(p, b.data, true, b.written), TornLayout(end, pieces[1..]), Written(TornEnd(p, pieces), a.data, true, a.written);
      assert x + (y + z) == x + y + z;
    }
  }

  /** The fragments written end within what was written, and that within the whole record. */
  lemma {:induction false} WrittenWithin(p: nat, data: bytes, begin: bool, k: nat)
    ensures p <= WrittenEnd(p, data, begin, k) <= EndOf(p, data, begin)
    ensures forall i :: 0 <= i < |Written(p, data, begin, k)| ==> Written(p, data, begin, k)[i].End() <= WrittenEnd(p, data, begin, k)
    decreases k
  {
    var ph := NextFragment(p, data, begin);
    WrittenUnfolds(p, data, begin, k);
    WrittenGrows(p, data, begin, k);
    EndGrows(p, data, begin);
    SkipTrailerIdempotent(p);
    if 0 < k && |ph.payload| != |data| {
      WrittenWithin(ph.End(), data[|ph.payload|..], false, k - 1);
    }
  }

  /** A writer, opened on the file, that dies after some fragments of a record leaves one piece
      more. */
  lemma DyingKeepsLog(fr: Framing, file: bytes, pieces: seq<Piece>, a: Piece)
    requires Sound(fr) && IsTornLog(fr, file, pieces) && 1 <= a.written
    ensures var all, end := file + Emitted(fr, |file|, a.data, true), WrittenEnd(|file|, a.data, true, a.written);
            |file| <= end <= |all| && IsTornLog(fr, all[..end], pieces + [a])
  {
    var all, end := file + Emitted(fr, |file|, a.data, true), WrittenEnd(|file|, a.data, true, a.written);
    EmittedHolds(fr, file, a.data, true, []);
    assert all + [] == all;
    WrittenWithin(|file|, a.data, true, a.written);
    TornAppend(0, pieces, a);
    HoldsExtends(fr, file, all[|file|..end], TornLayout(0, pieces));
    assert file + all[|file|..end] == all[..end];
    WrittenHolds(fr, all, |file|, a);
  }

  lemma WrittenHolds(fr: Framing, all: bytes, p: nat, a: Piece)
    requires HoldsAll(fr, all, Fragments(p, a.data, true)) && WrittenEnd(p, a.data, true, a.written) <= |all|
    ensures HoldsAll(fr, all[..WrittenEnd(p, a.data, true, a.written)], Written(p, a.data, true, a.written))
  {
    WrittenWithin(p, a.data, true, a.written);
    var fs := Written(p, a.data, true, a.written);
    forall i | 0 <= i < |fs|
      ensures Holds(fr, all[..WrittenEnd(p, a.data, true, a.written)], fs[i])
    {
      assert fs[i] == Fragments(p, a.data, true)[i];
      HoldsInPrefix(fr, all, WrittenEnd(p, a.data, true, a.written), fs[i]);
    }
  }

  // ---- logs of whole records ------------------------------------------------------------

  /** The records whose first fragment starts at or after the offset and that end within the
      first n bytes, with the start of their first fragment. */
  function Expected(offset: nat, n: nat, p: nat, records: seq<bytes>): seq<Item>
    decreases |records|
  {
    if records == [] then []
    else
      var end := EndOf(p, records[0], true);
      (if offset <= SkipTrailer(p) && end <= n then [Item(records[0], SkipTrailer(p))] else [])
        + Expected(offset, n, end, records[1..])
  }

  /** The records as pieces that were written whole. */
  function WholePieces(p: nat, records: seq<bytes>): seq<Piece>
    decreases |records|
  {
    if records == [] then []
    else [Piece(records[0], |Fragments(p, records[0], true)|)] + WholePieces(EndOf(p, records[0], true), records[1..])
  }

  lemma {:induction false} WholeLayout(p: nat, records: seq<bytes>)
    ensures var pieces := WholePieces(p, records);
            TornLayout(p, pieces) == Layout(p, records) && TornEnd(p, pieces) == LayoutEnd(p, records) && Begun(pieces)
    decreases |records|
  {
    if records != [] {
      var pieces := WholePieces(p, records);
      WholeLayout(EndOf(p, records[0], true), records[1..]);
      assert pieces[1..] == WholePieces(EndOf(p, records[0], true), records[1..]);
    }
  }

  lemma {:induction false} WholeExpected(offset: nat, n: nat, p: nat, records: seq<bytes>)
    ensures var pieces := WholePieces(p, records);
            WholeItems(offset, n, p, pieces) == Expected(offset, n, p, records) && TornReports(n, p, pieces) == []
    decreases |records|
  {
    if records != [] {
      var pieces := WholePieces(p, records);
      WholeExpected(offset, n, EndOf(p, records[0], true), records[1..]);
      assert pieces[1..] == WholePieces(EndOf(p, records[0], true), records[1..]);
    }
  }

  /** Crash safety and initial offset at once.  Of a log cut off after any number of bytes, a
      reader opened at any initial offset returns, in order and byte for byte, exactly the
      records that lie wholly within the kept bytes and whose first fragment starts at or
      after the offset, each with that start as its LastRecordOffset; and a reader of the
      whole log from its beginning reports no corruption. */
  lemma LogReads(src: Source, whole: bytes, records: seq<bytes>)
    requires Cut(src, whole) && IsLog(src.fr, whole, records)
    ensures Run(src, Opened(src)).items == Expected(src.initial, |src.file|, 0, records)
    ensures src.initial == 0 ==> Run(src, Opened(src)).reports == []
  {
    var pieces := WholePieces(0, records);
    WholeLayout(0, records);
    WholeExpected(src.initial, |src.file|, 0, records);
    TornLogReads(src, whole, pieces);
  }
}
