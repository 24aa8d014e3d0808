/** CRC32C (util/crc32c.h, util/crc32c.cpp; section 12.1 of RFC 3720).

    A 32-bit word is the sequence of its bits, least significant first, so that shifting is
    dropping, masking is taking and reading a little-endian word is concatenating bytes.  The
    reference is the one-bit shift register of the reflected polynomial; the byte table and
    the four stride tables are defined from its eight-bit step.  Extend, which runs four
    interleaved strides over aligned words, is proved to fold the step over the bytes, for
    every buffer, length and address.  That argument uses only two properties of the step,
    so it is made for an arbitrary Register f. */
module Crc32c {
  import opened Coding

  type Bits = seq<bool>
  type Word = w: Bits | |w| == 32 witness seq(32, _ => false)

  function Xor(a: Bits, b: Bits): (c: Bits)
    requires |a| == |b|
    ensures |c| == |a|
  {
    seq(|a|, i requires 0 <= i < |a| => a[i] != b[i])
  }

  function Zeros(n: nat): (z: Bits)
    ensures |z| == n
  {
    seq(n, _ => false)
  }

  lemma XorAssoc(a: Word, b: Word, c: Word)
    ensures Xor(Xor(a, b), c) == Xor(a, Xor(b, c))
  {
  }

  lemma XorComm(a: Word, b: Word)
    ensures Xor(a, b) == Xor(b, a)
  {
  }

  lemma XorCancels(a: Word, b: Word)
    ensures Xor(Xor(a, b), b) == a
  {
  }

  lemma XorZero(a: Word)
    ensures Xor(a, Zeros(32)) == a
  {
  }

  // ---- numbers as bits ------------------------------------------------------------------

  function FromNat(n: nat, k: nat): (b: Bits)
    ensures |b| == k
  {
    if k == 0 then [] else [n % 2 == 1] + FromNat(n / 2, k - 1)
  }

  function ToNat(b: Bits): nat {
    if b == [] then 0 else (if b[0] then 1 else 0) + 2 * ToNat(b[1..])
  }

  function Pow2(k: nat): (r: nat)
    ensures r > 0
  {
    if k == 0 then 1 else 2 * Pow2(k - 1)
  }

  lemma {:induction false} ToNatBound(b: Bits)
    ensures ToNat(b) < Pow2(|b|)
  {
    if b != [] {
      ToNatBound(b[1..]);
    }
  }

  lemma {:induction false} FromToNat(b: Bits)
    ensures FromNat(ToNat(b), |b|) == b
  {
    if b != [] {
      FromToNat(b[1..]);
    }
  }

  lemma Pow2Is()
    ensures Pow2(32) == TWO32
  {
    assert Pow2(8) == 256;
    assert Pow2(16) == 256 * Pow2(8);
    assert Pow2(24) == 256 * Pow2(16);
    assert Pow2(32) == 256 * Pow2(24);
  }

  lemma {:induction false} ToFromNat(n: nat, k: nat)
    requires n < Pow2(k)
    ensures ToNat(FromNat(n, k)) == n
  {
    if k > 0 {
      ToFromNat(n / 2, k - 1);
      assert FromNat(n, k)[1..] == FromNat(n / 2, k - 1);
    }
  }

  lemma {:induction false} ToNatAppend(a: Bits, b: Bits)
    ensures ToNat(a + b) == ToNat(a) + Pow2(|a|) * ToNat(b)
  {
    if a == [] {
      assert a + b == b;
    } else {
      ToNatAppend(a[1..], b);
      assert (a + b)[1..] == a[1..] + b;
      DoubleTimes(Pow2(|a| - 1), ToNat(b));
    }
  }

  /** The low j bits and the k bits above them. */
  lemma {:induction false} NatSplits(low: nat, high: nat, j: nat, k: nat)
    requires low < Pow2(j)
    ensures FromNat(low + Pow2(j) * high, j + k) == FromNat(low, j) + FromNat(high, k)
  {
    if j == 0 {
      assert [] + FromNat(high, k) == FromNat(high, k);
    } else {
      NatSplits(low / 2, high, j - 1, k);
      DoubleTimes(Pow2(j - 1), high);
      OneBitMore(low % 2, low / 2, Pow2(j - 1) * high, high, j - 1, k);
    }
  }

  lemma OneBitMore(b: nat, low: nat, shifted: nat, high: nat, j: nat, k: nat)
    requires b < 2 && FromNat(low + shifted, j + k) == FromNat(low, j) + FromNat(high, k)
    ensures FromNat(b + 2 * low + 2 * shifted, j + 1 + k) == FromNat(b + 2 * low, j + 1) + FromNat(high, k)
  {
    NatBit(b, low + shifted, j + k);
    NatBit(b, low, j);
    BitAndRest(b == 1, FromNat(low, j), FromNat(high, k));
  }

  lemma DoubleTimes(p: nat, n: nat)
    ensures 2 * p * n == 2 * (p * n)
  {
  }

  lemma NatBit(b: nat, n: nat, k: nat)
    requires b < 2
    ensures FromNat(b + 2 * n, k + 1) == [b == 1] + FromNat(n, k)
  {
  }

  lemma BitAndRest(b: bool, x: Bits, y: Bits)
    ensures [b] + (x + y) == [b] + x + y
  {
  }

  /** Rotating a number of j + k bits by j exchanges its low j and its high k bits. */
  lemma RotatedNat(low: nat, high: nat, j: nat, k: nat)
    requires low < Pow2(j) && high < Pow2(k)
    ensures var w := FromNat(low + Pow2(j) * high, j + k);
            w[j..] + w[..j] == FromNat(high + Pow2(k) * low, k + j)
  {
    NatSplits(low, high, j, k);
    NatSplits(high, low, k, j);
  }

  lemma Pow15And17()
    ensures Pow2(15) == 0x8000 && Pow2(17) == 0x2_0000
  {
    assert Pow2(8) == 256;
  }

  // ---- the eight-bit step ---------------------------------------------------------------

  ghost predicate Linear(f: Word -> Word) {
    forall a: Word, b: Word {:trigger f(Xor(a, b))} :: f(Xor(a, b)) == Xor(f(a), f(b))
  }

  /** A register whose low byte is zero is only shifted. */
  ghost predicate Shifts(f: Word -> Word) {
    forall h: Bits {:trigger f(Zeros(8) + h)} :: |h| == 24 ==> f(Zeros(8) + h) == h + Zeros(8)
  }

  type Register = f: Word -> Word | Linear(f) && Shifts(f)
    witness (LineShift(); (x: Word) => x[8..] + Zeros(8))

  lemma LineShift()
    ensures Linear((x: Word) => x[8..] + Zeros(8))
    ensures Shifts((x: Word) => x[8..] + Zeros(8))
  {
    forall a: Word, b: Word
      ensures Xor(a, b)[8..] + Zeros(8) == Xor(a[8..] + Zeros(8), b[8..] + Zeros(8))
    {
    }
    forall h: Bits | |h| == 24
      ensures (Zeros(8) + h)[8..] + Zeros(8) == h + Zeros(8)
    {
    }
  }

  lemma Split(f: Register, a: Word, b: Word)
    ensures f(Xor(a, b)) == Xor(f(a), f(b))
  {
  }

  // ---- the reference: a fold of one-byte table steps ------------------------------------

  function Byte(b: byte): (r: Bits)
    ensures |r| == 8
  {
    FromNat(b, 8)
  }

  /** `(w >> 8) ^ kByteExtensionTable[w & 0xff]`; the byte table at c is f(c). */
  function TableStep(f: Register, w: Word): Word {
    Xor(w[8..] + Zeros(8), f(w[..8] + Zeros(24)))
  }

  /** STEP1: the byte enters through the table index. */
  function ByteStep(f: Register, l: Word, b: byte): Word {
    Xor(f(Xor(l[..8], Byte(b)) + Zeros(24)), l[8..] + Zeros(8))
  }

  function Feed(f: Register, l: Word, data: bytes): Word {
    if data == [] then l else ByteStep(f, Feed(f, l, data[..|data| - 1]), data[|data| - 1])
  }

  lemma {:induction false} FeedAppend(f: Register, l: Word, a: bytes, b: bytes)
    ensures Feed(f, l, a + b) == Feed(f, Feed(f, l, a), b)
  {
    if b == [] {
      assert a + b == a;
    } else {
      var b' := b[..|b| - 1];
      FeedAppend(f, l, a, b');
      assert (a + b)[..|a + b| - 1] == a + b';
    }
  }

  // ---- register steps -------------------------------------------------------------------

  /** A table step is a register step. */
  lemma TableStepIsRegister(f: Register, w: Word)
    ensures TableStep(f, w) == f(w)
  {
    var low, high := w[..8] + Zeros(24), Zeros(8) + w[8..];
    assert w == Xor(high, low);
    Split(f, high, low);
    assert f(high) == w[8..] + Zeros(8);
  }

  lemma ByteStepIsRegister(f: Register, l: Word, b: byte)
    ensures ByteStep(f, l, b) == f(Xor(l, Byte(b) + Zeros(24)))
  {
    var w := Xor(l, Byte(b) + Zeros(24));
    TableStepIsRegister(f, w);
    assert w[8..] == l[8..];
    assert w[..8] == Xor(l[..8], Byte(b));
    XorComm(w[8..] + Zeros(8), f(w[..8] + Zeros(24)));
  }

  function F4(f: Register, x: Word): Word { f(f(f(f(x)))) }

  /** Sixteen zero bytes: one turn of a stride. */
  function F16(f: Register, x: Word): Word { F4(f, F4(f, F4(f, F4(f, x)))) }

  lemma Linear4(f: Register, a: Word, b: Word)
    ensures F4(f, Xor(a, b)) == Xor(F4(f, a), F4(f, b))
  {
    Split(f, a, b);
    Split(f, f(a), f(b));
    Split(f, f(f(a)), f(f(b)));
    Split(f, f(f(f(a))), f(f(f(b))));
  }

  lemma Linear16(f: Register, a: Word, b: Word)
    ensures F16(f, Xor(a, b)) == Xor(F16(f, a), F16(f, b))
  {
    Linear4(f, a, b);
    Linear4(f, F4(f, a), F4(f, b));
    Linear4(f, F4(f, F4(f, a)), F4(f, F4(f, b)));
    Linear4(f, F4(f, F4(f, F4(f, a))), F4(f, F4(f, F4(f, b))));
  }

  // ---- words ----------------------------------------------------------------------------

  /** ReadUint32LE. */
  function ReadWord(b0: byte, b1: byte, b2: byte, b3: byte): Word {
    Byte(b0) + Byte(b1) + Byte(b2) + Byte(b3)
  }

  /** A byte waiting above the low one comes down; those above it keep waiting. */
  lemma Pending(f: Register, x: Word, b: Bits, rest: Bits)
    requires |b| == 8 && |rest| == 16
    ensures f(Xor(x, Zeros(8) + b + rest)) == Xor(Xor(f(x), b + Zeros(24)), Zeros(8) + rest + Zeros(8))
  {
    var y := Zeros(8) + (b + rest);
    assert y == Zeros(8) + b + rest;
    Split(f, x, y);
    assert f(y) == (b + rest) + Zeros(8);
    assert (b + rest) + Zeros(8) == Xor(b + Zeros(24), Zeros(8) + rest + Zeros(8));
    XorAssoc(f(x), b + Zeros(24), Zeros(8) + rest + Zeros(8));
  }

  /** So a byte step follows a register step. */
  lemma PendingStep(f: Register, x: Word, b: byte, rest: Bits)
    requires |rest| == 16
    ensures var y := Xor(f(x), Byte(b) + Zeros(24));
            f(Xor(x, Zeros(8) + Byte(b) + rest)) == Xor(y, Zeros(8) + rest + Zeros(8)) && f(y) == ByteStep(f, f(x), b)
  {
    Pending(f, x, Byte(b), rest);
    ByteStepIsRegister(f, f(x), b);
  }

  lemma WordParts(b0: byte, b1: byte, b2: byte, b3: byte)
    ensures ReadWord(b0, b1, b2, b3) == Xor(Byte(b0) + Zeros(24), Zeros(8) + Byte(b1) + (Byte(b2) + Byte(b3)))
  {
  }

  lemma MoveUp(a: Bits, b: Bits)
    ensures Zeros(8) + (a + b) + Zeros(8) == Zeros(8) + a + (b + Zeros(8))
  {
  }

  lemma NothingWaits(x: Word)
    ensures Xor(x, Zeros(8) + Zeros(16) + Zeros(8)) == x
  {
    assert Zeros(8) + Zeros(16) + Zeros(8) == Zeros(32);
    XorZero(x);
  }

  /** Four register steps on a word are four byte steps. */
  lemma FourSteps(f: Register, l: Word, b0: byte, b1: byte, b2: byte, b3: byte)
    ensures ByteStep(f, ByteStep(f, ByteStep(f, ByteStep(f, l, b0), b1), b2), b3)
            == F4(f, Xor(l, ReadWord(b0, b1, b2, b3)))
  {
    var w0, t1, t2 := Byte(b0) + Zeros(24), Byte(b2) + Byte(b3), Byte(b3) + Zeros(8);
    var x0 := Xor(l, w0);
    WordParts(b0, b1, b2, b3);
    XorAssoc(l, w0, Zeros(8) + Byte(b1) + t1);
    ByteStepIsRegister(f, l, b0);
    PendingStep(f, x0, b1, t1);
    var x1 := Xor(f(x0), Byte(b1) + Zeros(24));
    MoveUp(Byte(b2), Byte(b3));
    PendingStep(f, x1, b2, t2);
    var x2 := Xor(f(x1), Byte(b2) + Zeros(24));
    MoveUp(Byte(b3), Zeros(8));
    assert Zeros(8) + Zeros(8) == Zeros(16);
    PendingStep(f, x2, b3, Zeros(16));
    NothingWaits(Xor(f(x2), Byte(b3) + Zeros(24)));
  }

  function WordAt(data: bytes, p: nat): Word
    requires p + 4 <= |data|
  {
    ReadWord(data[p], data[p + 1], data[p + 2], data[p + 3])
  }

  lemma FeedNext(f: Register, l: Word, data: bytes, p: nat)
    requires p < |data|
    ensures Feed(f, l, data[..p + 1]) == ByteStep(f, Feed(f, l, data[..p]), data[p])
  {
    assert data[..p + 1][..p] == data[..p];
  }

  lemma FeedWord(f: Register, l: Word, data: bytes, p: nat)
    requires p + 4 <= |data|
    ensures Feed(f, l, data[..p + 4]) == F4(f, Xor(Feed(f, l, data[..p]), WordAt(data, p)))
  {
    var l0 := Feed(f, l, data[..p]);
    FeedNext(f, l, data, p);
    FeedNext(f, l, data, p + 1);
    FeedNext(f, l, data, p + 2);
    FeedNext(f, l, data, p + 3);
    FourSteps(f, l0, data[p], data[p + 1], data[p + 2], data[p + 3]);
  }

  // ---- strides --------------------------------------------------------------------------

  /** The four stride tables: table s at c advances c, standing s bytes from the top, over
      sixteen zero bytes. */
  function Stride3(f: Register, c: Bits): Word requires |c| == 8 { F16(f, c + Zeros(24)) }
  function Stride2(f: Register, c: Bits): Word requires |c| == 8 { F16(f, Zeros(8) + c + Zeros(16)) }
  function Stride1(f: Register, c: Bits): Word requires |c| == 8 { F16(f, Zeros(16) + c + Zeros(8)) }
  function Stride0(f: Register, c: Bits): Word requires |c| == 8 { F16(f, Zeros(24) + c) }

  /** STEP4: the word enters after the accumulator has advanced by one stride. */
  function StrideStep(f: Register, crc: Word, word: Word): Word {
    Xor(Xor(Xor(Xor(word, Stride3(f, crc[..8])), Stride2(f, crc[8..16])), Stride1(f, crc[16..24])), Stride0(f, crc[24..]))
  }

  lemma Split4(f: Register, x: Word)
    ensures F16(f, x) == Xor(Xor(Xor(Stride3(f, x[..8]), Stride2(f, x[8..16])), Stride1(f, x[16..24])), Stride0(f, x[24..]))
  {
    var c3, c2, c1, c0 := x[..8] + Zeros(24), Zeros(8) + x[8..16] + Zeros(16), Zeros(16) + x[16..24] + Zeros(8), Zeros(24) + x[24..];
    assert x == Xor(Xor(Xor(c3, c2), c1), c0);
    Linear16(f, Xor(Xor(c3, c2), c1), c0);
    Linear16(f, Xor(c3, c2), c1);
    Linear16(f, c3, c2);
  }

  lemma XorFive(w: Word, a: Word, b: Word, c: Word, d: Word)
    ensures Xor(Xor(Xor(Xor(w, a), b), c), d) == Xor(w, Xor(Xor(Xor(a, b), c), d))
  {
  }

  lemma StrideStepIs(f: Register, crc: Word, word: Word)
    ensures StrideStep(f, crc, word) == Xor(word, F16(f, crc))
  {
    Split4(f, crc);
    XorFive(word, Stride3(f, crc[..8]), Stride2(f, crc[8..16]), Stride1(f, crc[16..24]), Stride0(f, crc[24..]));
  }

  /** What the four accumulators stand for: the words each has absorbed are four apart. */
  function Combine(f: Register, c0: Word, c1: Word, c2: Word, c3: Word): Word {
    F4(f, Xor(F4(f, Xor(F4(f, Xor(F4(f, c0), c1)), c2)), c3))
  }

  /** The oldest accumulator moved through the other three by linearity. */
  lemma CombineSplits(f: Register, c0: Word, c1: Word, c2: Word, c3: Word)
    ensures Combine(f, c0, c1, c2, c3) == Xor(F16(f, c0), F4(f, Xor(F4(f, Xor(F4(f, c1), c2)), c3)))
  {
    var a1 := F4(f, c0);
    Linear4(f, a1, c1);
    var a2, b2 := F4(f, a1), F4(f, c1);
    XorAssoc(a2, b2, c2);
    Linear4(f, a2, Xor(b2, c2));
    var a3, b3 := F4(f, a2), F4(f, Xor(b2, c2));
    XorAssoc(a3, b3, c3);
    Linear4(f, a3, Xor(b3, c3));
  }

  /** Absorbing a word in the oldest accumulator and rotating is feeding the word. */
  lemma Rotate(f: Register, c0: Word, c1: Word, c2: Word, c3: Word, word: Word)
    ensures Combine(f, c1, c2, c3, StrideStep(f, c0, word)) == F4(f, Xor(Combine(f, c0, c1, c2, c3), word))
  {
    CombineSplits(f, c0, c1, c2, c3);
    StrideStepIs(f, c0, word);
    var a, b := F16(f, c0), F4(f, Xor(F4(f, Xor(F4(f, c1), c2)), c3));
    XorComm(word, a);
    XorAssoc(b, a, word);
    XorComm(a, b);
  }

  // ---- Extend ---------------------------------------------------------------------------

  function Ones(n: nat): (r: Bits)
    ensures |r| == n
  {
    seq(n, _ => true)
  }

  /** The CRC of the string crc stands for, followed by data. */
  function Extended(f: Register, crc: Word, data: bytes): Word {
    Xor(Feed(f, Xor(crc, Ones(32)), data), Ones(32))
  }

  lemma ExtendComposes(f: Register, crc: Word, a: bytes, b: bytes)
    ensures Extended(f, Extended(f, crc, a), b) == Extended(f, crc, a + b)
  {
    var l := Feed(f, Xor(crc, Ones(32)), a);
    XorCancels(l, Ones(32));
    FeedAppend(f, Xor(crc, Ones(32)), a, b);
  }

  /** STEP1 from position `from` up to position `to`. */
  method FeedBytes(f: Register, l: Word, data: bytes, from: nat, to: nat, ghost l0: Word) returns (r: Word)
    requires from <= to <= |data| && l == Feed(f, l0, data[..from])
    ensures r == Feed(f, l0, data[..to])
  {
    r := l;
    var p := from;
    while p != to
      invariant from <= p <= to
      invariant r == Feed(f, l0, data[..p])
    {
      FeedNext(f, l0, data, p);
      r := ByteStep(f, r, data[p]);
      p := p + 1;
    }
  }

  /** STEP4W: absorb one accumulator in the running remainder. */
  method AbsorbWord(f: Register, l: Word, c: Word) returns (r: Word)
    ensures r == F4(f, Xor(l, c))
  {
    var w := Xor(c, l);
    XorComm(c, l);
    TableStepIsRegister(f, w);
    w := TableStep(f, w);
    TableStepIsRegister(f, w);
    w := TableStep(f, w);
    TableStepIsRegister(f, w);
    w := TableStep(f, w);
    TableStepIsRegister(f, w);
    w := TableStep(f, w);
    r := w;
  }

  datatype Strides = Strides(c0: Word, c1: Word, c2: Word, c3: Word)

  /** Marks where the definition of Absorbed is used, so that the verifier uses it nowhere else. */
  ghost predicate UseStrides(m: int) { true }

  /** The accumulators have absorbed the first p bytes. */
  ghost predicate Absorbed(f: Register, s: Strides, l0: Word, data: bytes, p: nat)
    requires p <= |data|
  {
    forall m {:trigger UseStrides(m)} :: UseStrides(m) ==> Combine(f, s.c0, s.c1, s.c2, s.c3) == Feed(f, l0, data[..p])
  }

  /** Four accumulators stepped in place are four rotations. */
  lemma FourRotations(f: Register, c0: Word, c1: Word, c2: Word, c3: Word, l0: Word, data: bytes, p: nat)
    requires p + 16 <= |data| && Combine(f, c0, c1, c2, c3) == Feed(f, l0, data[..p])
    ensures Combine(f, StrideStep(f, c0, WordAt(data, p)), StrideStep(f, c1, WordAt(data, p + 4)),
                       StrideStep(f, c2, WordAt(data, p + 8)), StrideStep(f, c3, WordAt(data, p + 12)))
            == Feed(f, l0, data[..p + 16])
  {
    var d0 := StrideStep(f, c0, WordAt(data, p));
    OneRotation(f, c0, c1, c2, c3, l0, data, p);
    var d1 := StrideStep(f, c1, WordAt(data, p + 4));
    OneRotation(f, c1, c2, c3, d0, l0, data, p + 4);
    var d2 := StrideStep(f, c2, WordAt(data, p + 8));
    OneRotation(f, c2, c3, d0, d1, l0, data, p + 8);
    OneRotation(f, c3, d0, d1, d2, l0, data, p + 12);
  }

  lemma OneRotation(f: Register, c0: Word, c1: Word, c2: Word, c3: Word, l0: Word, data: bytes, p: nat)
    requires p + 4 <= |data| && Combine(f, c0, c1, c2, c3) == Feed(f, l0, data[..p])
    ensures Combine(f, c1, c2, c3, StrideStep(f, c0, WordAt(data, p))) == Feed(f, l0, data[..p + 4])
  {
    Rotate(f, c0, c1, c2, c3, WordAt(data, p));
    FeedWord(f, l0, data, p);
  }

  /** Loading the first swath: sixteen bytes at once. */
  lemma FirstSwath(f: Register, l0: Word, data: bytes, p: nat)
    requires p + 16 <= |data|
    ensures Combine(f, Xor(WordAt(data, p), Feed(f, l0, data[..p])), WordAt(data, p + 4), WordAt(data, p + 8), WordAt(data, p + 12))
            == Feed(f, l0, data[..p + 16])
  {
    XorComm(WordAt(data, p), Feed(f, l0, data[..p]));
    FeedWord(f, l0, data, p);
    FeedWord(f, l0, data, p + 4);
    FeedWord(f, l0, data, p + 8);
    FeedWord(f, l0, data, p + 12);
  }

  /** STEP16. */
  method SwathStep(f: Register, s: Strides, data: bytes, p: nat, ghost l0: Word) returns (t: Strides)
    requires p + 16 <= |data| && Absorbed(f, s, l0, data, p)
    ensures Absorbed(f, t, l0, data, p + 16)
  {
    assert UseStrides(0);
    FourRotations(f, s.c0, s.c1, s.c2, s.c3, l0, data, p);
    t := Strides(StrideStep(f, s.c0, WordAt(data, p)), StrideStep(f, s.c1, WordAt(data, p + 4)),
                 StrideStep(f, s.c2, WordAt(data, p + 8)), StrideStep(f, s.c3, WordAt(data, p + 12)));
  }

  /** STEP4(0) and a rotation. */
  method WordStep(f: Register, s: Strides, data: bytes, p: nat, ghost l0: Word) returns (t: Strides)
    requires p + 4 <= |data| && Absorbed(f, s, l0, data, p)
    ensures Absorbed(f, t, l0, data, p + 4)
  {
    assert UseStrides(0);
    OneRotation(f, s.c0, s.c1, s.c2, s.c3, l0, data, p);
    t := Strides(s.c1, s.c2, s.c3, StrideStep(f, s.c0, WordAt(data, p)));
  }

  /** STEP16 while sixteen bytes remain. */
  method Swaths(f: Register, s: Strides, data: bytes, from: nat, ghost l0: Word) returns (t: Strides, p: nat)
    requires from <= |data| && Absorbed(f, s, l0, data, from)
    ensures from <= p <= |data| && Absorbed(f, t, l0, data, p)
  {
    t, p := s, from;
    while |data| - p >= 16
      invariant from <= p <= |data|
      invariant Absorbed(f, t, l0, data, p)
    {
      t := SwathStep(f, t, data, p, l0);
      p := p + 16;
    }
  }

  /** STEP4(0) and a rotation while four bytes remain. */
  method Words(f: Register, s: Strides, data: bytes, from: nat, ghost l0: Word) returns (t: Strides, p: nat)
    requires from <= |data| && Absorbed(f, s, l0, data, from)
    ensures from <= p <= |data| < p + 4 && Absorbed(f, t, l0, data, p)
  {
    t, p := s, from;
    while |data| - p >= 4
      invariant from <= p <= |data|
      invariant Absorbed(f, t, l0, data, p)
    {
      t := WordStep(f, t, data, p, l0);
      p := p + 4;
    }
  }

  /** Combine the four partial results. */
  method Combined(f: Register, s: Strides) returns (l: Word)
    ensures l == Combine(f, s.c0, s.c1, s.c2, s.c3)
  {
    l := Zeros(32);
    XorComm(l, s.c0);
    XorZero(s.c0);
    l := AbsorbWord(f, l, s.c0);
    l := AbsorbWord(f, l, s.c1);
    l := AbsorbWord(f, l, s.c2);
    l := AbsorbWord(f, l, s.c3);
  }

  /** The strided part of Extend: everything from `from` on but at most three bytes. */
  method FeedStrides(f: Register, l: Word, data: bytes, from: nat, ghost l0: Word) returns (r: Word, p: nat)
    requires from + 16 <= |data| && l == Feed(f, l0, data[..from])
    ensures from <= p <= |data| < p + 4 && r == Feed(f, l0, data[..p])
  {
    FirstSwath(f, l0, data, from);
    var s := Strides(Xor(WordAt(data, from), l), WordAt(data, from + 4), WordAt(data, from + 8), WordAt(data, from + 12));
    s, p := Swaths(f, s, data, from + 16, l0);
    s, p := Words(f, s, data, p, l0);
    r := Combined(f, s);
    assert UseStrides(0);
  }

  /** Extend of data stored at address addr. */
  method Extend(f: Register, crc: Word, data: bytes, addr: nat) returns (r: Word)
    ensures r == Extended(f, crc, data)
  {
    var n := |data|;
    var l := Xor(crc, Ones(32));
    ghost var l0 := l;
    var p, x := 0, (addr + 3) / 4 * 4 - addr;
    if x <= n {
      l := FeedBytes(f, l, data, p, x, l0);
      p := x;
    }
    if n - p >= 16 {
      l, p := FeedStrides(f, l, data, p, l0);
    }
    l := FeedBytes(f, l, data, p, n, l0);
    assert data[..n] == data;
    r := Xor(l, Ones(32));
  }

  // ---- the register of the polynomial ---------------------------------------------------

  /** A hexadecimal digit, least significant bit first. */
  datatype Digit = Digit(b0: bool, b1: bool, b2: bool, b3: bool)

  datatype Digits = Digits(d7: Digit, d6: Digit, d5: Digit, d4: Digit, d3: Digit, d2: Digit, d1: Digit, d0: Digit)

  const H0 := Digit(false, false, false, false)
  const H1 := Digit(true, false, false, false)
  const H2 := Digit(false, true, false, false)
  const H3 := Digit(true, true, false, false)
  const H4 := Digit(false, false, true, false)
  const H5 := Digit(true, false, true, false)
  const H6 := Digit(false, true, true, false)
  const H7 := Digit(true, true, true, false)
  const H8 := Digit(false, false, false, true)
  const H9 := Digit(true, false, false, true)
  const HA := Digit(false, true, false, true)
  const HB := Digit(true, true, false, true)
  const HC := Digit(false, false, true, true)
  const HD := Digit(true, false, true, true)
  const HE := Digit(false, true, true, true)
  const HF := Digit(true, true, true, true)

  function Four(d: Digit): (b: Bits)
    ensures |b| == 4
  {
    [d.b0, d.b1, d.b2, d.b3]
  }

  /** The word with these hexadecimal digits. */
  function Joined(h: Digits): Word {
    (Four(h.d0) + Four(h.d1) + (Four(h.d2) + Four(h.d3))) + (Four(h.d4) + Four(h.d5) + (Four(h.d6) + Four(h.d7)))
  }

  /** 0x82f63b78. */
  const POLYNOMIAL: Word := Joined(Digits(H8, H2, HF, H6, H3, HB, H7, H8))

  function Shift1(c: Word): Word {
    if c[0] then Xor(c[1..] + [false], POLYNOMIAL) else c[1..] + [false]
  }

  function Shift(n: nat, c: Word): Word {
    if n == 0 then c else Shift1(Shift(n - 1, c))
  }

  lemma Shift1Linear(a: Word, b: Word)
    ensures Shift1(Xor(a, b)) == Xor(Shift1(a), Shift1(b))
  {
    var p := POLYNOMIAL;
    var a', b' := a[1..] + [false], b[1..] + [false];
    assert Xor(a, b)[1..] + [false] == Xor(a', b');
    assert Xor(Xor(a', p), Xor(b', p)) == Xor(a', b');
    assert Xor(Xor(a', p), b') == Xor(Xor(a', b'), p) == Xor(a', Xor(b', p));
  }

  lemma {:induction false} ShiftLinear(n: nat, a: Word, b: Word)
    ensures Shift(n, Xor(a, b)) == Xor(Shift(n, a), Shift(n, b))
  {
    if n > 0 {
      ShiftLinear(n - 1, a, b);
      Shift1Linear(Shift(n - 1, a), Shift(n - 1, b));
    }
  }

  lemma {:induction false} ShiftShifts(n: nat, h: Bits, m: nat)
    requires n <= m && m + |h| == 32
    ensures Shift(n, Zeros(m) + h) == Zeros(m - n) + h + Zeros(n)
  {
    if n == 0 {
      assert Zeros(m) + h == Zeros(m - 0) + h + Zeros(0);
    } else {
      ShiftShifts(n - 1, h, m);
      var c := Zeros(m - (n - 1)) + h + Zeros(n - 1);
      assert c[1..] + [false] == Zeros(m - n) + h + Zeros(n);
    }
  }

  function Shifter(n: nat): Word -> Word { (c: Word) => Shift(n, c) }

  lemma PolynomialSteps(n: nat)
    requires n == 8
    ensures Linear(Shifter(n)) && Shifts(Shifter(n))
  {
    forall a: Word, b: Word
      ensures Shifter(n)(Xor(a, b)) == Xor(Shifter(n)(a), Shifter(n)(b))
    {
      ShiftLinear(n, a, b);
    }
    forall h: Bits | |h| == 24
      ensures Shifter(n)(Zeros(8) + h) == h + Zeros(8)
    {
      ShiftShifts(n, h, 8);
      assert Zeros(0) + h + Zeros(8) == h + Zeros(8);
    }
  }

  /** The byte step of CRC32C. */
  function Octet(): Register {
    PolynomialSteps(8);
    Shifter(8)
  }

  function Value(data: bytes): Word {
    Extended(Octet(), Zeros(32), data)
  }

  // ---- masking --------------------------------------------------------------------------

  const MASK_DELTA: nat := 0xa282_ead8

  /** Rotate right by 15 bits and add a constant, as a 32-bit number. */
  function Mask(crc: Word): nat {
    (ToNat(crc[15..] + crc[..15]) + MASK_DELTA) % TWO32
  }

  function Unmask(masked: nat): Word
    requires masked < TWO32
  {
    var rot := FromNat((masked + TWO32 - MASK_DELTA) % TWO32, 32);
    rot[17..] + rot[..17]
  }

  lemma UnmaskInvertsMask(crc: Word)
    ensures Mask(crc) < TWO32 && Unmask(Mask(crc)) == crc
  {
    var rot := crc[15..] + crc[..15];
    ToNatBound(rot);
    Pow2Is();
    var n := ToNat(rot);
    assert (Mask(crc) + TWO32 - MASK_DELTA) % TWO32 == n;
    FromToNat(rot);
    assert rot[17..] + rot[..17] == crc;
  }
}
