/** Fixed-width and varint encodings (util/coding.h, util/coding.cpp).

    Machine words are natural numbers below 2^32 or 2^64; shifts and masks by powers of two
    are written as division and remainder, and truncating left shifts as remainders. */
module Coding {

  type byte = x: int | 0 <= x < 256
  type bytes = seq<byte>

  const TWO32: nat := 0x1_0000_0000
  const TWO64: nat := 0x1_0000_0000_0000_0000

  datatype Option<+T> = None | Some(value: T)

  /** Padding. */
  function ZeroBytes(n: nat): (b: bytes)
    ensures |b| == n
  {
    seq(n, _ => 0)
  }

  // ---- fixed width ----------------------------------------------------------------------

  function Fixed32(v: nat): (b: bytes)
    ensures |b| == 4
  {
    [v % 256, v / 0x100 % 256, v / 0x1_0000 % 256, v / 0x100_0000 % 256]
  }

  function DecodeFixed32(b: bytes): nat
    requires |b| >= 4
  {
    var b0: int, b1: int, b2: int, b3: int := b[0], b[1], b[2], b[3];
    b0 + 0x100 * b1 + 0x1_0000 * b2 + 0x100_0000 * b3
  }

  function Fixed64(v: nat): (b: bytes)
    ensures |b| == 8
  {
    Fixed32(v % TWO32) + Fixed32(v / TWO32)
  }

  function DecodeFixed64(b: bytes): nat
    requires |b| >= 8
  {
    DecodeFixed32(b) + TWO32 * DecodeFixed32(b[4..])
  }

  /** Decoding inverts encoding, whatever follows the four bytes. */
  lemma Fixed32RoundTrip(v: nat, rest: bytes)
    requires v < TWO32
    ensures DecodeFixed32(Fixed32(v) + rest) == v
  {
    Base256(v);
    Base256(v / 256);
    Base256(v / 256 / 256);
    assert v / 0x1_0000 == v / 256 / 256;
    assert v / 0x100_0000 == v / 256 / 256 / 256;
  }

  lemma Base256(v: nat)
    ensures v == v / 256 * 256 + v % 256
  {
  }

  /** Every four bytes are the encoding of what they decode to. */
  lemma Fixed32Onto(w: bytes)
    requires |w| == 4
    ensures DecodeFixed32(w) < TWO32 && Fixed32(DecodeFixed32(w)) == w
  {
    var v := DecodeFixed32(w);
    var a: int, b: int, c: int, d: int := w[0], w[1], w[2], w[3];
    assert v / 0x100 == b + 0x100 * c + 0x1_0000 * d;
    assert v / 0x1_0000 == c + 0x100 * d;
    assert v / 0x100_0000 == d;
  }

  lemma Fixed64Onto(w: bytes)
    requires |w| == 8
    ensures DecodeFixed64(w) < TWO64 && Fixed64(DecodeFixed64(w)) == w
  {
    Fixed32Onto(w[..4]);
    Fixed32Onto(w[4..]);
    var low, high := DecodeFixed32(w[..4]), DecodeFixed32(w[4..]);
    assert DecodeFixed64(w) == low + TWO32 * high;
    assert (low + TWO32 * high) % TWO32 == low && (low + TWO32 * high) / TWO32 == high;
    assert w == w[..4] + w[4..];
  }

  lemma Fixed64RoundTrip(v: nat, rest: bytes)
    requires v < TWO64
    ensures DecodeFixed64(Fixed64(v) + rest) == v
  {
    Fixed32RoundTrip(v % TWO32, Fixed32(v / TWO32) + rest);
    Fixed32RoundTrip(v / TWO32, rest);
    var b := Fixed64(v) + rest;
    assert b == Fixed32(v % TWO32) + (Fixed32(v / TWO32) + rest);
    assert b[4..] == Fixed32(v / TWO32) + rest;
  }

  /** Words one after the other, as offset arrays are stored. */
  function Fixed32Array(words: seq<nat>): bytes {
    if words == [] then [] else Fixed32Array(words[..|words| - 1]) + Fixed32(words[|words| - 1])
  }

  lemma {:induction false} Fixed32ArrayLength(words: seq<nat>)
    ensures |Fixed32Array(words)| == 4 * |words|
  {
    if words != [] {
      Fixed32ArrayLength(words[..|words| - 1]);
    }
  }

  lemma {:induction false} Fixed32ArrayAt(words: seq<nat>, j: nat)
    requires forall k :: 0 <= k < |words| ==> words[k] < TWO32
    ensures |Fixed32Array(words)| == 4 * |words|
    ensures j < |words| ==> Fixed32Array(words)[4 * j..4 * j + 4] == Fixed32(words[j])
  {
    if words != [] {
      var n := |words| - 1;
      Fixed32ArrayAt(words[..n], j);
      var a, f := Fixed32Array(words[..n]), Fixed32(words[n]);
      if j < n {
        assert (a + f)[4 * j..4 * j + 4] == a[4 * j..4 * j + 4];
      } else if j == n {
        assert (a + f)[4 * j..4 * j + 4] == f;
      }
    }
  }

  /** The byte order. */
  lemma LittleEndian()
    ensures Fixed32(0x04030201) == [1, 2, 3, 4] && Fixed64(0x0807060504030201) == [1, 2, 3, 4, 5, 6, 7, 8]
    ensures Varint(300) == [0xac, 0x02]
  {
    assert Varint(2) == [2];
  }

  // ---- varints --------------------------------------------------------------------------

  /** Little-endian base-128 digits, every byte but the last with its top bit set. */
  function Varint(v: nat): (b: bytes)
    ensures |b| >= 1
  {
    if v < 128 then [v] else [v % 128 + 128] + Varint(v / 128)
  }

  /** The value and length of the varint at the front of b, reading at most k bytes. */
  function DecodeVarint(b: bytes, k: nat): (r: Option<(nat, nat)>)
    ensures r.Some? ==> 1 <= r.value.1 <= |b| && r.value.1 <= k
    decreases |b|
  {
    if k == 0 || b == [] then None
    else if b[0] < 128 then Some((b[0], 1))
    else
      match DecodeVarint(b[1..], k - 1)
      case None => None
      case Some((v, n)) => Some((b[0] - 128 + 128 * v, n + 1))
  }

  function Pow128(k: nat): nat {
    if k == 0 then 1 else 128 * Pow128(k - 1)
  }

  lemma {:induction false} VarintRoundTrip(v: nat, k: nat, rest: bytes)
    requires 0 < k && v < Pow128(k)
    ensures |Varint(v)| <= k
    ensures DecodeVarint(Varint(v) + rest, k) == Some((v, |Varint(v)|))
  {
    if v < 128 {
      assert (Varint(v) + rest)[0] == v;
    } else {
      assert v / 128 < Pow128(k - 1);
      VarintRoundTrip(v / 128, k - 1, rest);
      assert (Varint(v) + rest)[1..] == Varint(v / 128) + rest;
      assert v == v % 128 + 128 * (v / 128);
    }
  }

  /** Exactly: the first byte without the continuation bit, among the first k, ends the varint,
      and the low seven bits of the bytes up to it are its base-128 digits. */
  lemma {:induction false} DecodesExactly(b: bytes, k: nat, n: nat)
    ensures n < k && n < |b| && b[n] < 128 && (forall i :: 0 <= i < n ==> b[i] >= 128) ==>
              DecodeVarint(b, k) == Some((Digits(b[..n + 1]), n + 1))
    ensures (forall i :: 0 <= i < k && i < |b| ==> b[i] >= 128) ==> DecodeVarint(b, k) == None
    decreases |b|
  {
    if k > 0 && b != [] && b[0] >= 128 {
      DecodesExactly(b[1..], k - 1, if n > 0 then n - 1 else 0);
      if 0 < n < |b| {
        assert b[..n + 1][1..] == b[1..][..n];
      }
    }
  }

  function Digits(b: bytes): nat {
    if b == [] then 0 else b[0] % 128 + 128 * Digits(b[1..])
  }

  /** A varint of v takes at most 5 bytes for 32-bit values and 10 for 64-bit ones. */
  lemma Widths()
    ensures TWO32 <= Pow128(5)
    ensures TWO64 <= Pow128(10)
  {
    assert Pow128(5) == 128 * 128 * 128 * 128 * 128 * Pow128(0);
    assert Pow128(10) == 128 * 128 * 128 * 128 * 128 * Pow128(5);
  }

  /** EncodeVarint32: the unrolled encoder writes the same bytes as the general loop. */
  method EncodeVarint32(v: nat) returns (b: bytes)
    requires v < TWO32
    ensures b == Varint(v)
  {
    var v1, v2, v3, v4 := v / 0x80, v / 0x4000, v / 0x20_0000, v / 0x1000_0000;
    assert v1 / 128 == v2 && v2 / 128 == v3 && v3 / 128 == v4;
    if v < 0x80 {
      b := [v];
    } else if v < 0x4000 {
      b := [v % 128 + 128, v1];
    } else if v < 0x20_0000 {
      b := [v % 128 + 128, v1 % 128 + 128, v2];
      assert Varint(v2) == [v2];
      assert Varint(v1) == [v1 % 128 + 128, v2];
    } else if v < 0x1000_0000 {
      b := [v % 128 + 128, v1 % 128 + 128, v2 % 128 + 128, v3];
      assert Varint(v3) == [v3];
      assert Varint(v2) == [v2 % 128 + 128, v3];
      assert Varint(v1) == [v1 % 128 + 128, v2 % 128 + 128, v3];
    } else {
      b := [v % 128 + 128, v1 % 128 + 128, v2 % 128 + 128, v3 % 128 + 128, v4];
      assert Varint(v4) == [v4];
      assert Varint(v3) == [v3 % 128 + 128, v4];
      assert Varint(v2) == [v2 % 128 + 128, v3 % 128 + 128, v4];
      assert Varint(v1) == [v1 % 128 + 128, v2 % 128 + 128, v3 % 128 + 128, v4];
    }
  }

  method EncodeVarint64(v: nat) returns (b: bytes)
    requires v < TWO64
    ensures b == Varint(v)
  {
    var n := v;
    b := [];
    while n >= 128
      invariant b + Varint(n) == Varint(v)
    {
      b := b + [n % 128 + 128];
      n := n / 128;
    }
    b := b + [n];
  }

  method VarintLength(v: nat) returns (len: nat)
    requires v < TWO64
    ensures len == |Varint(v)|
  {
    var n := v;
    len := 1;
    while n >= 128
      invariant len >= 1 && len + |Varint(n)| == |Varint(v)| + 1
    {
      n := n / 128;
      len := len + 1;
    }
  }

  /** GetVarint32PtrFallback, reading at most k bytes: bits above the 32nd are shifted out; None
      is the null pointer. */
  method GetVarint32Loop(b: bytes, k: nat) returns (r: Option<(nat, nat)>)
    ensures r == Truncated(DecodeVarint(b, k), 0x1_0000_0000)
  {
    var result: nat, p: nat := 0, 0;
    ghost var exact: nat := 0;
    while p < k && p < |b|
      invariant 0 <= p <= k && p <= |b|
      invariant result == exact % 0x1_0000_0000
      invariant DecodeVarint(b, k) == Prefixed(exact, p, DecodeVarint(b[p..], k - p))
    {
      var c: nat := b[p];
      DecodeStep(b, k, exact, p);
      var term := ShiftLeft7(c % 128, p);
      AddTruncated32(exact, term);
      result := (result + term) % 0x1_0000_0000;
      exact := exact + term;
      if c < 128 {
        return Some((result, p + 1));
      }
      p := p + 1;
    }
    return None;
  }

  /** GetVarint64Ptr, reading at most k bytes: bits above the 64th are shifted out. */
  method GetVarint64Loop(b: bytes, k: nat) returns (r: Option<(nat, nat)>)
    ensures r == Truncated(DecodeVarint(b, k), 0x1_0000_0000_0000_0000)
  {
    var result: nat, p: nat := 0, 0;
    ghost var exact: nat := 0;
    while p < k && p < |b|
      invariant 0 <= p <= k && p <= |b|
      invariant result == exact % 0x1_0000_0000_0000_0000
      invariant DecodeVarint(b, k) == Prefixed(exact, p, DecodeVarint(b[p..], k - p))
    {
      var c: nat := b[p];
      DecodeStep(b, k, exact, p);
      var term := ShiftLeft7(c % 128, p);
      AddTruncated64(exact, term);
      result := (result + term) % 0x1_0000_0000_0000_0000;
      exact := exact + term;
      if c < 128 {
        return Some((result, p + 1));
      }
      p := p + 1;
    }
    return None;
  }

  /** GetVarint32Ptr: one byte without the continuation bit is decoded inline. */
  method GetVarint32Ptr(b: bytes) returns (r: Option<(nat, nat)>)
    ensures r == Truncated(DecodeVarint(b, 5), TWO32)
  {
    if 0 < |b| && b[0] < 128 {
      return Some((b[0], 1));
    }
    r := GetVarint32Loop(b, 5);
  }

  method GetVarint64Ptr(b: bytes) returns (r: Option<(nat, nat)>)
    ensures r == Truncated(DecodeVarint(b, 10), TWO64)
  {
    r := GetVarint64Loop(b, 10);
  }

  function Truncated(d: Option<(nat, nat)>, width: nat): Option<(nat, nat)>
    requires width > 0
  {
    if d.None? then None else Some((d.value.0 % width, d.value.1))
  }

  lemma AddTruncated32(a: nat, t: nat)
    ensures (a % 0x1_0000_0000 + t) % 0x1_0000_0000 == (a + t) % 0x1_0000_0000
  {
  }

  lemma AddTruncated64(a: nat, t: nat)
    ensures (a % 0x1_0000_0000_0000_0000 + t) % 0x1_0000_0000_0000_0000 == (a + t) % 0x1_0000_0000_0000_0000
  {
  }

  /** `v << 7 * n`. */
  function ShiftLeft7(v: nat, n: nat): nat {
    if n == 0 then v else 128 * ShiftLeft7(v, n - 1)
  }

  lemma {:induction false} ShiftLeft7Splits(d: nat, h: nat, n: nat)
    ensures ShiftLeft7(d + 128 * h, n) == ShiftLeft7(d, n) + ShiftLeft7(h, n + 1)
  {
    if n == 0 {
      assert ShiftLeft7(h, 1) == 128 * h;
    } else {
      ShiftLeft7Splits(d, h, n - 1);
    }
  }

  /** The n digits read so far in front of those still to come. */
  ghost function Prefixed(low: nat, n: nat, rest: Option<(nat, nat)>): Option<(nat, nat)> {
    if rest.None? then None else Some((low + ShiftLeft7(rest.value.0, n), n + rest.value.1))
  }

  /** Reading one more byte moves its digit from the rest to the prefix. */
  lemma DecodeStep(b: bytes, k: nat, low: nat, n: nat)
    requires n < k && n < |b|
    ensures var c: nat := b[n];
            var low' := low + ShiftLeft7(c % 128, n);
            Prefixed(low, n, DecodeVarint(b[n..], k - n))
            == if c < 128 then Some((low', n + 1))
               else Prefixed(low', n + 1, DecodeVarint(b[n + 1..], k - n - 1))
  {
    var c: nat := b[n];
    assert b[n..][1..] == b[n + 1..];
    var rest := DecodeVarint(b[n + 1..], k - n - 1);
    if c >= 128 && rest.Some? {
      ShiftLeft7Splits(c - 128, rest.value.0, n);
    }
  }

  /** What GetVarint32Ptr returns on the encoding of v, whatever follows it. */
  lemma Varint32RoundTrip(v: nat, rest: bytes)
    requires v < TWO32
    ensures |Varint(v)| <= 5
    ensures Truncated(DecodeVarint(Varint(v) + rest, 5), TWO32) == Some((v, |Varint(v)|))
  {
    Widths();
    VarintRoundTrip(v, 5, rest);
  }

  lemma Varint64RoundTrip(v: nat, rest: bytes)
    requires v < TWO64
    ensures |Varint(v)| <= 10
    ensures Truncated(DecodeVarint(Varint(v) + rest, 10), TWO64) == Some((v, |Varint(v)|))
  {
    Widths();
    VarintRoundTrip(v, 10, rest);
  }
}
