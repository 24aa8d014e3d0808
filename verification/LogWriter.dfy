/** log::Writer (db/log_writer.cpp). */
module LogWriter {
  import opened Coding
  import opened LogFormat

  /** After a round, what is left to write; the bytes left or the room in the block shrink. */
  lemma RoundDone(fr: Framing, before: bytes, left: bytes, begin: bool, dest: bytes)
    requires Sound(fr)
    requires var ph := NextFragment(|before|, left, begin);
             ph.start >= |before|
             && dest == before + ZeroBytes(ph.start - |before|) + Render(fr, ph.kind, ph.payload)
    ensures var n := |NextFragment(|before|, left, begin).payload|;
            && n <= |left|
            && before + Emitted(fr, |before|, left, begin) == (if n == |left| then dest else dest + Emitted(fr, |dest|, left[n..], false))
            && (n == 0 && left != [] ==> Offset(|before|) != 0 && Offset(|dest|) == 0)
  {
    FragmentFillsBlock(|before|, left, begin);
    EmittedUnfolds(fr, before, left, begin, dest);
  }

  lemma OffsetAdds(p: nat, q: nat, n: nat)
    requires Offset(p) == Offset(q)
    ensures Offset(p + n) == Offset(q + n)
  {
  }

  class Writer {
    const fr: Framing
    var dest: bytes
    var blockOffset: nat

    ghost predicate Valid()
      reads this
    {
      Sound(fr) && blockOffset <= BLOCK && Offset(blockOffset) == Offset(|dest|)
    }

    /** A writer appending to a file that already holds `dest` (empty for a new log). */
    constructor (fr: Framing, dest: bytes)
      requires Sound(fr)
      ensures Valid() && this.fr == fr && this.dest == dest
    {
      this.fr := fr;
      this.dest := dest;
      blockOffset := Offset(|dest|);
    }

    method EmitPhysicalRecord(kind: byte, payload: bytes)
      requires Valid() && blockOffset + HEADER + |payload| <= BLOCK
      modifies this
      ensures Valid() && dest == old(dest) + Render(fr, kind, payload)
      ensures blockOffset == old(blockOffset) + HEADER + |payload|
    {
      var n := |payload|;
      ghost var before := dest;
      dest := dest + fr.header(kind, payload);
      dest := dest + payload;
      assert dest == before + Render(fr, kind, payload);
      OffsetAdds(blockOffset, |before|, HEADER + n);
      blockOffset := blockOffset + HEADER + n;
    }

    /** One round of AddRecord: fill the trailer if it is too short for a header, then emit
        as much of `left` as fits in the block. */
    method AddFragment(left: bytes, begin: bool) returns (n: nat)
      requires Valid()
      modifies this
      ensures Valid()
      ensures var ph := NextFragment(|old(dest)|, left, begin);
              && n == |ph.payload| && ph.start >= |old(dest)|
              && dest == old(dest) + ZeroBytes(ph.start - |old(dest)|) + Render(fr, ph.kind, ph.payload)
    {
      ghost var before := dest;
      FragmentFillsBlock(|before|, left, begin);
      SkipTrailerIdempotent(|before|);
      ghost var ph := NextFragment(|before|, left, begin);
      var leftover := BLOCK - blockOffset;
      if leftover < HEADER {
        if leftover > 0 {
          dest := dest + ZeroBytes(leftover);
        }
        blockOffset := 0;
      }
      assert dest == before + ZeroBytes(ph.start - |before|);
      var avail := BLOCK - blockOffset - HEADER;
      n := if |left| < avail then |left| else avail;
      var end := |left| == n;
      EmitPhysicalRecord(Kind(begin, end), left[..n]);
    }

    /** Appends the fragments of the record; an empty record still emits one. */
    method AddRecord(slice: bytes)
      requires Valid()
      modifies this
      ensures Valid() && dest == old(dest) + Emitted(fr, |old(dest)|, slice, true)
    {
      ghost var goal := dest + Emitted(fr, |dest|, slice, true);
      assert slice[0..] == slice;
      var ptr, begin, more := 0, true, true;
      while more
        invariant Valid() && 0 <= ptr <= |slice|
        invariant goal == if more then dest + Emitted(fr, |dest|, slice[ptr..], begin) else dest
        decreases more, |slice| - ptr, if Offset(|dest|) == 0 then 0 else 1
      {
        ghost var before := dest;
        var n := AddFragment(slice[ptr..], begin);
        assert slice[ptr + n..] == slice[ptr..][n..];
        RoundDone(fr, before, slice[ptr..], begin, dest);
        ptr := ptr + n;
        begin := false;
        more := ptr < |slice|;
      }
    }
  }
}
