/** One entry of a block (table/block_builder.cpp:91-98, table/block.cpp:47-82): three varint
    lengths, the key bytes not shared with the previous key, and the value. */
module EntryCodec {
  import opened Coding
  import opened Cursors

  function EntryBytes(shared: nat, e: Entry): bytes {
    if shared <= |e.key| then
      Varint(shared) + Varint(|e.key| - shared) + Varint(|e.value|) + (e.key[shared..] + e.value)
    else []
  }

  /** The three lengths in front of an entry, and how many bytes they take. */
  datatype Header = Header(size: nat, shared: nat, nonShared: nat, valueLength: nat)

  function GetVarint32(b: bytes): (r: Option<(nat, nat)>)
    ensures r.Some? ==> 1 <= r.value.1 <= |b|
  {
    Truncated(DecodeVarint(b, 5), TWO32)
  }

  /** The slow path of DecodeEntry: three varints. */
  function DecodeLengths(b: bytes): (r: Option<Header>)
    ensures r.Some? ==> r.value.size <= |b|
  {
    var first := GetVarint32(b);
    if first.None? then None else
    var rest := b[first.value.1..];
    var second := GetVarint32(rest);
    if second.None? then None else
    var third := GetVarint32(rest[second.value.1..]);
    if third.None? then None else
    Some(Header(first.value.1 + second.value.1 + third.value.1, first.value.0, second.value.0, third.value.0))
  }

  /** DecodeEntry on the bytes from p to the limit; None is the null pointer. */
  function DecodeEntry(b: bytes): (r: Option<Header>)
    ensures r.Some? ==> r.value.size <= |b|
  {
    if |b| < 3 then None
    else
      var h := if b[0] < 128 && b[1] < 128 && b[2] < 128 then Some(Header(3, b[0], b[1], b[2])) else DecodeLengths(b);
      if h.None? || (|b| - h.value.size) % TWO32 < (h.value.nonShared + h.value.valueLength) % TWO32 then None else h
  }

  /** The three-byte fast path agrees with the slow path. */
  lemma FastPathAgrees(b: bytes)
    requires 3 <= |b| && b[0] < 128 && b[1] < 128 && b[2] < 128
    ensures DecodeLengths(b) == Some(Header(3, b[0], b[1], b[2]))
  {
    assert b[1..][1..] == b[2..];
  }

  /** An entry is accepted if and only if its three lengths decode and the key bytes and value fit
      behind them, as long as their sum is a 32-bit number. */
  lemma AcceptsExactly(b: bytes)
    requires |b| < TWO32
    requires var h := DecodeLengths(b); h.Some? ==> h.value.nonShared + h.value.valueLength < TWO32
    ensures DecodeEntry(b)
            == var h := DecodeLengths(b);
               if h.Some? && h.value.size + h.value.nonShared + h.value.valueLength <= |b| then h else None
  {
    if 3 <= |b| && b[0] < 128 && b[1] < 128 && b[2] < 128 {
      FastPathAgrees(b);
    }
  }

  lemma Concat4(x: bytes, y: bytes, z: bytes, rest: bytes)
    ensures x + y + z + rest == x + (y + z + rest)
    ensures (x + y + z + rest)[|x|..] == y + z + rest
    ensures y + z + rest == y + (z + rest)
    ensures (y + z + rest)[|y|..] == z + rest
  {
  }

  /** x is read as v, whatever follows. */
  ghost predicate ReadAs(x: bytes, v: nat) {
    forall rest: bytes {:trigger GetVarint32(x + rest)} :: GetVarint32(x + rest) == Some((v, |x|))
  }

  lemma VarintReadAs(v: nat)
    requires v < TWO32
    ensures ReadAs(Varint(v), v)
  {
    forall rest: bytes
      ensures GetVarint32(Varint(v) + rest) == Some((v, |Varint(v)|))
    {
      Varint32RoundTrip(v, rest);
    }
  }

  /** Three lengths one after the other, given as the bytes that encode them. */
  lemma DecodesThree(x: bytes, y: bytes, z: bytes, a: nat, n: nat, v: nat, rest: bytes)
    requires ReadAs(x, a) && ReadAs(y, n) && ReadAs(z, v)
    ensures DecodeLengths(x + y + z + rest) == Some(Header(|x| + |y| + |z|, a, n, v))
  {
    Concat4(x, y, z, rest);
    assert GetVarint32(x + (y + z + rest)) == Some((a, |x|));
    assert GetVarint32(y + (z + rest)) == Some((n, |y|));
    assert GetVarint32(z + rest) == Some((v, |z|));
  }

  lemma DecodesChecked(b: bytes, h: Header)
    requires 3 <= |b| < TWO32 && DecodeLengths(b) == Some(h)
    requires h.nonShared + h.valueLength <= |b| - h.size
    ensures DecodeEntry(b) == Some(h)
  {
    if b[0] < 128 && b[1] < 128 && b[2] < 128 {
      FastPathAgrees(b);
    }
  }

  /** DecodeEntry inverts the entry encoding, whatever follows in the block. */
  lemma DecodesEntry(shared: nat, e: Entry, rest: bytes)
    requires shared <= |e.key| && shared < TWO32 && |EntryBytes(shared, e)| + |rest| < TWO32
    ensures var size := |Varint(shared)| + |Varint(|e.key| - shared)| + |Varint(|e.value|)|;
            && DecodeEntry(EntryBytes(shared, e) + rest) == Some(Header(size, shared, |e.key| - shared, |e.value|))
            && |EntryBytes(shared, e)| == size + |e.key| - shared + |e.value|
            && EntryBytes(shared, e)[size..] == e.key[shared..] + e.value
  {
    VarintReadAs(shared);
    VarintReadAs(|e.key| - shared);
    VarintReadAs(|e.value|);
    DecodesFields(Varint(shared), Varint(|e.key| - shared), Varint(|e.value|), shared, e, rest);
  }

  lemma DecodesFields(x: bytes, y: bytes, z: bytes, shared: nat, e: Entry, rest: bytes)
    requires shared <= |e.key| && 1 <= |x| && 1 <= |y| && 1 <= |z|
    requires ReadAs(x, shared) && ReadAs(y, |e.key| - shared) && ReadAs(z, |e.value|)
    requires |x + y + z + (e.key[shared..] + e.value)| + |rest| < TWO32
    ensures var size := |x| + |y| + |z|;
            && DecodeEntry(x + y + z + (e.key[shared..] + e.value) + rest)
               == Some(Header(size, shared, |e.key| - shared, |e.value|))
            && (x + y + z + (e.key[shared..] + e.value))[size..] == e.key[shared..] + e.value
  {
    var tail := e.key[shared..] + e.value;
    DecodesThree(x, y, z, shared, |e.key| - shared, |e.value|, tail + rest);
    Concat5(x, y, z, tail, rest);
    DecodesChecked(x + y + z + (tail + rest), Header(|x| + |y| + |z|, shared, |e.key| - shared, |e.value|));
  }

  lemma Concat5(x: bytes, y: bytes, z: bytes, tail: bytes, rest: bytes)
    ensures x + y + z + tail + rest == x + y + z + (tail + rest)
    ensures (x + y + z + tail)[|x| + |y| + |z|..] == tail
  {
  }

  // ---- the codec as blocks use it -------------------------------------------------------

  /** How entries are written and how their lengths are read back. */
  datatype Codec = Codec(encode: (nat, Entry) -> bytes, decode: bytes -> Option<Header>)

  /** Reading back an entry yields its lengths, whatever follows it, and behind them lie the
      unshared key bytes and the value. */
  ghost predicate Inverts(c: Codec, shared: nat, e: Entry, rest: bytes) {
    var b := c.encode(shared, e);
    var d := c.decode(b + rest);
    && d.Some?
    && var h := d.value;
      && shared <= |e.key| && h.shared == shared && h.nonShared == |e.key| - shared && h.valueLength == |e.value|
      && h.size + h.nonShared + h.valueLength == |b|
      && b[h.size..] == e.key[shared..] + e.value
  }

  ghost predicate Sound(c: Codec) {
    && (forall shared: nat, e: Entry {:trigger c.encode(shared, e)} :: shared <= |e.key| ==>
          |c.encode(shared, e)| >= 3 + |e.key| - shared + |e.value|)
    && (forall shared: nat, e: Entry, rest: bytes {:trigger Inverts(c, shared, e, rest)} ::
          shared <= |e.key| && shared < TWO32 && |c.encode(shared, e)| + |rest| < TWO32 ==> Inverts(c, shared, e, rest))
  }

  function VarintCodec(): Codec {
    Codec((shared: nat, e: Entry) => EntryBytes(shared, e), (b: bytes) => DecodeEntry(b))
  }

  lemma VarintCodecIsSound()
    ensures Sound(VarintCodec())
  {
    var c := VarintCodec();
    forall shared: nat, e: Entry, rest: bytes
      | shared <= |e.key| && shared < TWO32 && |c.encode(shared, e)| + |rest| < TWO32
      ensures Inverts(c, shared, e, rest)
    {
      DecodesEntry(shared, e, rest);
    }
  }
}
