/** What a reader finds in the bytes of a finished block (table/block.cpp). */
module BlockReading {
  import opened Coding
  import opened Cursors
  import opened EntryCodec
  import opened BlockFormat

  /** GetRestartPoint. */
  function RestartAt(data: bytes, restarts: nat, j: nat): nat
    requires restarts + 4 * j + 4 <= |data|
  {
    DecodeFixed32(data[restarts + 4 * j..])
  }

  /** Decoding the bytes from off yields the lengths of the entry that ends at next, and in
      between lie its unshared key bytes and its value. */
  ghost predicate ReadsEntry(cd: Codec, data: bytes, restarts: nat, off: nat, next: nat, shared: nat, e: Entry)
    requires shared <= |e.key|
  {
    && off < next <= restarts <= |data|
    && var d := cd.decode(data[off..restarts]);
    && d.Some?
    && var h := d.value;
    && h.shared == shared && h.nonShared == |e.key| - shared && h.valueLength == |e.value|
    && off + h.size + h.nonShared + h.valueLength == next
    && data[off + h.size..off + h.size + h.nonShared] == e.key[shared..]
    && data[next - h.valueLength..next] == e.value
  }

  ghost predicate ReadsAt(cd: Codec, data: bytes, restarts: nat, b: Layout, offs: seq<nat>, i: nat)
    requires Encodable(b) && i < |b.entries| && |offs| == |b.entries| + 1
  {
    ReadsEntry(cd, data, restarts, offs[i], offs[i + 1], b.shared[i], b.entries[i])
  }

  /** The block reads as the entries of b; entry i takes the bytes offs[i] up to offs[i + 1]. */
  ghost predicate Readable(cd: Codec, data: bytes, restarts: nat, num: nat, b: Layout, offs: seq<nat>) {
    && WellFormed(b)
    && num == |b.starts|
    && |offs| == |b.entries| + 1
    && restarts == offs[|b.entries|]
    && restarts + 4 * num + 4 == |data|
    && (forall i, j :: 0 <= i < j < |offs| ==> offs[i] < offs[j])
    && (forall j :: 0 <= j < num ==> RestartAt(data, restarts, j) == offs[b.starts[j]])
    && (forall i :: 0 <= i < |b.entries| ==> ReadsAt(cd, data, restarts, b, offs, i))
  }

  function Offsets(cd: Codec, b: Layout): seq<nat>
    requires Encodable(b)
  {
    seq(|b.entries| + 1, i requires 0 <= i < |b.entries| + 1 => Offset(cd, b, i))
  }

  lemma Slices(body: bytes, tail: bytes, off: nat, next: nat, x: bytes)
    requires off <= next <= |body| && body[off..next] == x
    ensures (body + tail)[off..|body|] == x + body[next..]
    ensures (body + tail)[off..next] == x
  {
    assert (body + tail)[off..|body|] == body[off..];
    assert body[off..] == body[off..next] + body[next..];
    assert (body + tail)[off..next] == body[off..next];
  }

  lemma SubSlice(data: bytes, off: nat, next: nat, x: bytes, i: nat, j: nat)
    requires off <= next <= |data| && data[off..next] == x && i <= j <= |x|
    ensures data[off + i..off + j] == x[i..j]
  {
    forall k | 0 <= k < j - i
      ensures data[off + i..off + j][k] == x[i..j][k]
    {
      assert data[off..next][i + k] == data[off + i + k];
    }
  }

  lemma EntryReads(cd: Codec, b: Layout, tail: bytes, i: nat)
    requires Sound(cd) && WellFormed(b) && i < |b.entries|
    requires Offset(cd, b, |b.entries|) + |tail| < TWO32
    ensures ReadsEntry(cd, Body(cd, b, |b.entries|) + tail, Offset(cd, b, |b.entries|),
                       Offset(cd, b, i), Offset(cd, b, i + 1), b.shared[i], b.entries[i])
  {
    var body := Body(cd, b, |b.entries|);
    var data, off, next := body + tail, Offset(cd, b, i), Offset(cd, b, i + 1);
    var shared, e := b.shared[i], b.entries[i];
    EntryAt(cd, b, i);
    KeyFits(cd, b, i);
    var x := cd.encode(shared, e);
    Slices(body, tail, off, next, x);
    assert Inverts(cd, shared, e, body[next..]);
    var h := cd.decode(x + body[next..]).value;
    KeyAndValue(data, off, next, x, h, shared, e);
  }

  /** The key bytes and the value behind the lengths of an entry. */
  lemma KeyAndValue(data: bytes, off: nat, next: nat, x: bytes, h: Header, shared: nat, e: Entry)
    requires off <= next <= |data| && data[off..next] == x && shared <= |e.key|
    requires h.nonShared == |e.key| - shared && h.valueLength == |e.value|
    requires h.size + h.nonShared + h.valueLength == |x|
    requires x[h.size..] == e.key[shared..] + e.value
    ensures data[off + h.size..off + h.size + h.nonShared] == e.key[shared..]
    ensures data[next - h.valueLength..next] == e.value
  {
    SubSlice(data, off, next, x, h.size, h.size + h.nonShared);
    SubSlice(data, off, next, x, h.size + h.nonShared, |x|);
    var t := e.key[shared..] + e.value;
    assert x[h.size..h.size + h.nonShared] == t[..h.nonShared] == e.key[shared..];
    assert x[h.size + h.nonShared..] == t[h.nonShared..] == e.value;
  }

  lemma RestartReads(offsets: seq<nat>, body: bytes, num: bytes, j: nat)
    requires j < |offsets| && forall k :: 0 <= k < |offsets| ==> offsets[k] < TWO32
    requires |num| == 4
    ensures |Fixed32Array(offsets)| == 4 * |offsets|
    ensures RestartAt(body + Fixed32Array(offsets) + num, |body|, j) == offsets[j]
  {
    Fixed32ArrayAt(offsets, j);
    var a := Fixed32Array(offsets);
    var data := body + a + num;
    assert data[|body| + 4 * j..|body| + 4 * j + 4] == a[4 * j..4 * j + 4];
    var from := data[|body| + 4 * j..];
    assert from[..4] == Fixed32(offsets[j]);
    assert from == Fixed32(offsets[j]) + from[4..];
    Fixed32RoundTrip(offsets[j], from[4..]);
  }

  lemma OffsetsIncrease(cd: Codec, b: Layout)
    requires Sound(cd) && WellFormed(b)
    ensures var offs := Offsets(cd, b); forall i, j :: 0 <= i < j < |offs| ==> offs[i] < offs[j]
    ensures forall k :: 0 <= k < |b.starts| ==> StartOffsets(cd, b)[k] <= Offset(cd, b, |b.entries|)
  {
    forall i, j | 0 <= i < j < |b.entries| + 1
      ensures Offset(cd, b, i) < Offset(cd, b, j)
    {
      BodyPrefix(cd, b, i, j);
    }
    forall k | 0 <= k < |b.starts|
      ensures Offset(cd, b, b.starts[k]) <= Offset(cd, b, |b.entries|)
    {
      BodyPrefix(cd, b, b.starts[k], |b.entries|);
    }
  }

  lemma ContentsEntries(cd: Codec, b: Layout)
    requires Sound(cd) && WellFormed(b) && |Contents(cd, b)| < TWO32
    ensures forall i :: 0 <= i < |b.entries| ==>
              ReadsAt(cd, Contents(cd, b), Offset(cd, b, |b.entries|), b, Offsets(cd, b), i)
  {
    var body, tail := Body(cd, b, |b.entries|), Fixed32Array(StartOffsets(cd, b)) + Fixed32(|b.starts|);
    assert Contents(cd, b) == body + tail;
    forall i | 0 <= i < |b.entries|
      ensures ReadsAt(cd, body + tail, Offset(cd, b, |b.entries|), b, Offsets(cd, b), i)
    {
      EntryReads(cd, b, tail, i);
    }
  }

  lemma ContentsRestarts(cd: Codec, b: Layout)
    requires Sound(cd) && WellFormed(b) && |Contents(cd, b)| < TWO32
    ensures var data, restarts := Contents(cd, b), Offset(cd, b, |b.entries|);
            && restarts + 4 * |b.starts| + 4 == |data|
            && DecodeFixed32(data[|data| - 4..]) == |b.starts|
            && (forall j :: 0 <= j < |b.starts| ==> RestartAt(data, restarts, j) == Offsets(cd, b)[b.starts[j]])
  {
    var body, offsets, num := Body(cd, b, |b.entries|), StartOffsets(cd, b), Fixed32(|b.starts|);
    var data := body + Fixed32Array(offsets) + num;
    OffsetsIncrease(cd, b);
    Fixed32ArrayAt(offsets, 0);
    forall j | 0 <= j < |b.starts|
      ensures RestartAt(data, |body|, j) == offsets[j] == Offsets(cd, b)[b.starts[j]]
    {
      RestartReads(offsets, body, num, j);
    }
    LastWord(body + Fixed32Array(offsets), |b.starts|);
  }

  lemma LastWord(front: bytes, v: nat)
    requires v < TWO32
    ensures DecodeFixed32((front + Fixed32(v))[|front|..]) == v
  {
    assert (front + Fixed32(v))[|front|..] == Fixed32(v) + [];
    Fixed32RoundTrip(v, []);
  }

  /** The bytes Finish returns read as the entries that were added. */
  lemma ContentsReadable(cd: Codec, b: Layout)
    requires Sound(cd) && WellFormed(b) && |Contents(cd, b)| < TWO32
    ensures Readable(cd, Contents(cd, b), Offset(cd, b, |b.entries|), |b.starts|, b, Offsets(cd, b))
    ensures DecodeFixed32(Contents(cd, b)[|Contents(cd, b)| - 4..]) == |b.starts|
  {
    OffsetsIncrease(cd, b);
    ContentsEntries(cd, b);
    ContentsRestarts(cd, b);
  }
}
