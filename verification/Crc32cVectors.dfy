/** The constants of CRC32C: entries of the byte table (util/crc32c.cpp:14-57), checksums that
    are known, and the mask as 32-bit arithmetic.  Words are taken apart into hexadecimal
    digits, on which the register is cheap to follow. */
module Crc32cVectors {
  import opened Coding
  import opened Crc32c

  // ---- digits ---------------------------------------------------------------------------

  function DigitAt(w: Bits, k: nat): Digit
    requires k + 4 <= |w|
  {
    Digit(w[k], w[k + 1], w[k + 2], w[k + 3])
  }

  function Of(w: Word): Digits {
    Digits(DigitAt(w, 28), DigitAt(w, 24), DigitAt(w, 20), DigitAt(w, 16),
           DigitAt(w, 12), DigitAt(w, 8), DigitAt(w, 4), DigitAt(w, 0))
  }

  lemma SameDigit(a: Word, b: Word, k: nat, i: nat)
    requires k <= i < k + 4 <= 32 && DigitAt(a, k) == DigitAt(b, k)
    ensures a[i] == b[i]
  {
  }

  lemma SameDigits(a: Word, b: Word)
    requires Of(a) == Of(b)
    ensures a == b
  {
    forall i | 0 <= i < 32
      ensures a[i] == b[i]
    {
      SameDigit(a, b, i / 4 * 4, i);
    }
  }

  lemma JoinedIs(h: Digits)
    ensures Of(Joined(h)) == h
  {
  }

  // ---- the register ---------------------------------------------------------------------

  const P := Digits(H8, H2, HF, H6, H3, HB, H7, H8)

  /** A digit shifted right; `up` comes in from above, and p is added if `out` is set. */
  function ShiftDigit(d: Digit, up: bool, out: bool, p: Digit): Digit {
    Digit(d.b1 != (out && p.b0), d.b2 != (out && p.b1), d.b3 != (out && p.b2), up != (out && p.b3))
  }

  function ShiftDigits(h: Digits): Digits {
    Digits(ShiftDigit(h.d7, false, h.d0.b0, P.d7), ShiftDigit(h.d6, h.d7.b0, h.d0.b0, P.d6),
           ShiftDigit(h.d5, h.d6.b0, h.d0.b0, P.d5), ShiftDigit(h.d4, h.d5.b0, h.d0.b0, P.d4),
           ShiftDigit(h.d3, h.d4.b0, h.d0.b0, P.d3), ShiftDigit(h.d2, h.d3.b0, h.d0.b0, P.d2),
           ShiftDigit(h.d1, h.d2.b0, h.d0.b0, P.d1), ShiftDigit(h.d0, h.d1.b0, h.d0.b0, P.d0))
  }

  lemma ShiftAt(w: Word, k: nat)
    requires k + 4 <= 32
    ensures DigitAt(Shift1(w), k) == ShiftDigit(DigitAt(w, k), k + 4 < 32 && w[k + 4], w[0], DigitAt(POLYNOMIAL, k))
  {
  }

  lemma ShiftIs(w: Word)
    ensures Of(Shift1(w)) == ShiftDigits(Of(w))
  {
    JoinedIs(P);
    ShiftAt(w, 0);
    ShiftAt(w, 4);
    ShiftAt(w, 8);
    ShiftAt(w, 12);
    ShiftAt(w, 16);
    ShiftAt(w, 20);
    ShiftAt(w, 24);
    ShiftAt(w, 28);
  }

  lemma OctetIs(w: Word)
    ensures Of(Octet()(w)) == ShiftDigits(ShiftDigits(ShiftDigits(ShiftDigits(ShiftDigits(ShiftDigits(ShiftDigits(ShiftDigits(Of(w)))))))))
  {
    EightShifts(8, w);
    var w1 := Shift1(w);
    var w2 := Shift1(w1);
    var w3 := Shift1(w2);
    var w4 := Shift1(w3);
    var w5 := Shift1(w4);
    var w6 := Shift1(w5);
    var w7 := Shift1(w6);
    ShiftIs(w);
    ShiftIs(w1);
    ShiftIs(w2);
    ShiftIs(w3);
    ShiftIs(w4);
    ShiftIs(w5);
    ShiftIs(w6);
    ShiftIs(w7);
  }

  lemma EightShifts(n: nat, w: Word)
    requires n == 8
    ensures Octet()(w) == Shift1(Shift1(Shift1(Shift1(Shift1(Shift1(Shift1(Shift1(w))))))))
  {
    assert Octet()(w) == Shift(n, w);
    assert Shift(n, w) == Shift1(Shift(n - 1, w)) == Shift1(Shift1(Shift(n - 2, w)));
    assert Shift(n - 2, w) == Shift1(Shift1(Shift(n - 4, w))) && Shift(n - 4, w) == Shift1(Shift1(Shift(n - 6, w)));
    assert Shift(n - 6, w) == Shift1(Shift(n - 7, w)) && Shift(n - 7, w) == Shift1(Shift(n - 8, w));
  }

  lemma TableAt(h: Digits, r: Digits)
    requires ShiftDigits(ShiftDigits(ShiftDigits(ShiftDigits(ShiftDigits(ShiftDigits(ShiftDigits(ShiftDigits(h)))))))) == r
    ensures Octet()(Joined(h)) == Joined(r)
  {
    OctetIs(Joined(h));
    JoinedIs(h);
    JoinedIs(r);
    SameDigits(Octet()(Joined(h)), Joined(r));
  }

  /** kByteExtensionTable at the powers of two, which by linearity give the whole table. */
  lemma ByteTable()
    ensures Octet()(Joined(Digits(H0, H0, H0, H0, H0, H0, H0, H1))) == Joined(Digits(HF, H2, H6, HB, H8, H3, H0, H3))
    ensures Octet()(Joined(Digits(H0, H0, H0, H0, H0, H0, H0, H2))) == Joined(Digits(HE, H1, H3, HB, H7, H0, HF, H7))
    ensures Octet()(Joined(Digits(H0, H0, H0, H0, H0, H0, H0, H4))) == Joined(Digits(HC, H7, H9, HA, H9, H7, H1, HF))
    ensures Octet()(Joined(Digits(H0, H0, H0, H0, H0, H0, H0, H8))) == Joined(Digits(H8, HA, HD, H9, H5, H8, HC, HF))
    ensures Octet()(Joined(Digits(H0, H0, H0, H0, H0, H0, H1, H0))) == Joined(Digits(H1, H0, H5, HE, HC, H7, H6, HF))
    ensures Octet()(Joined(Digits(H0, H0, H0, H0, H0, H0, H2, H0))) == Joined(Digits(H2, H0, HB, HD, H8, HE, HD, HE))
    ensures Octet()(Joined(Digits(H0, H0, H0, H0, H0, H0, H4, H0))) == Joined(Digits(H4, H1, H7, HB, H1, HD, HB, HC))
    ensures Octet()(Joined(Digits(H0, H0, H0, H0, H0, H0, H8, H0))) == Joined(Digits(H8, H2, HF, H6, H3, HB, H7, H8))
  {
    TableAt(Digits(H0, H0, H0, H0, H0, H0, H0, H1), Digits(HF, H2, H6, HB, H8, H3, H0, H3));
    TableAt(Digits(H0, H0, H0, H0, H0, H0, H0, H2), Digits(HE, H1, H3, HB, H7, H0, HF, H7));
    TableAt(Digits(H0, H0, H0, H0, H0, H0, H0, H4), Digits(HC, H7, H9, HA, H9, H7, H1, HF));
    TableAt(Digits(H0, H0, H0, H0, H0, H0, H0, H8), Digits(H8, HA, HD, H9, H5, H8, HC, HF));
    TableAt(Digits(H0, H0, H0, H0, H0, H0, H1, H0), Digits(H1, H0, H5, HE, HC, H7, H6, HF));
    TableAt(Digits(H0, H0, H0, H0, H0, H0, H2, H0), Digits(H2, H0, HB, HD, H8, HE, HD, HE));
    TableAt(Digits(H0, H0, H0, H0, H0, H0, H4, H0), Digits(H4, H1, H7, HB, H1, HD, HB, HC));
    TableAt(Digits(H0, H0, H0, H0, H0, H0, H8, H0), Digits(H8, H2, HF, H6, H3, HB, H7, H8));
  }

  // ---- checksums ------------------------------------------------------------------------

  function XorDigit(a: Digit, b: Digit): Digit {
    Digit(a.b0 != b.b0, a.b1 != b.b1, a.b2 != b.b2, a.b3 != b.b3)
  }

  lemma XorAt(a: Word, b: Word, k: nat)
    requires k + 4 <= 32
    ensures DigitAt(Xor(a, b), k) == XorDigit(DigitAt(a, k), DigitAt(b, k))
  {
  }

  lemma ByteDigits(x: Word, low: Digit, high: Digit)
    requires x == Four(low) + Four(high) + Zeros(24)
    ensures Of(x) == Digits(H0, H0, H0, H0, H0, H0, high, low)
  {
  }

  /** A word with a byte, given by its two digits, added to it. */
  lemma ByteEnters(l: Digits, b: byte, high: Digit, low: Digit)
    requires Byte(b) == Four(low) + Four(high)
    ensures Of(Xor(Joined(l), Byte(b) + Zeros(24))) == l.(d0 := XorDigit(l.d0, low), d1 := XorDigit(l.d1, high))
  {
    var w, x := Joined(l), Byte(b) + Zeros(24);
    JoinedIs(l);
    ByteDigits(x, low, high);
    XorAt(w, x, 0);
    XorAt(w, x, 4);
    XorAt(w, x, 8);
    XorAt(w, x, 12);
    XorAt(w, x, 16);
    XorAt(w, x, 20);
    XorAt(w, x, 24);
    XorAt(w, x, 28);
  }

  function Value4(d: Digit): nat { Bit(d.b0) + 2 * Bit(d.b1) + 4 * (Bit(d.b2) + 2 * Bit(d.b3)) }

  function Bit(b: bool): nat { if b then 1 else 0 }

  lemma Value4Is(d: Digit)
    ensures ToNat(Four(d)) == Value4(d) < 16 && FromNat(Value4(d), 4) == Four(d)
  {
    var b := Four(d);
    assert b[1..][1..] == b[2..] && b[2..][1..] == b[3..] && b[3..][1..] == [];
    assert ToNat(b[3..]) == Bit(d.b3);
    assert ToNat(b[2..]) == Bit(d.b2) + 2 * Bit(d.b3);
    assert ToNat(b[1..]) == Bit(d.b1) + 2 * ToNat(b[2..]);
    FromToNat(b);
  }

  lemma TwoDigits(low: Digit, high: Digit, k: nat)
    requires k == 4
    ensures FromNat(Value4(low) + 16 * Value4(high), k + k) == Four(low) + Four(high)
  {
    assert Pow2(4) == 16;
    Value4Is(low);
    Value4Is(high);
    NatSplits(Value4(low), Value4(high), k, k);
  }

  lemma ByteIs(b: byte, high: Digit, low: Digit)
    requires b as int == Value4(low) + 16 * Value4(high)
    ensures Byte(b) == Four(low) + Four(high)
  {
    TwoDigits(low, high, 4);
  }

  /** One byte more of the data is fed. */
  lemma FeedStep(data: bytes, i: nat, l: Digits, high: Digit, low: Digit, r: Digits)
    requires i < |data| && data[i] as int == Value4(low) + 16 * Value4(high)
    requires Feed(Octet(), Ones(32), data[..i]) == Joined(l)
    requires var h := l.(d0 := XorDigit(l.d0, low), d1 := XorDigit(l.d1, high));
             ShiftDigits(ShiftDigits(ShiftDigits(ShiftDigits(ShiftDigits(ShiftDigits(ShiftDigits(ShiftDigits(h)))))))) == r
    ensures Feed(Octet(), Ones(32), data[..i + 1]) == Joined(r)
  {
    FeedNext(Octet(), Ones(32), data, i);
    ByteStepIsRegister(Octet(), Joined(l), data[i]);
    ByteIs(data[i], high, low);
    ByteEnters(l, data[i], high, low);
    var w := Xor(Joined(l), Byte(data[i]) + Zeros(24));
    OctetIs(w);
    JoinedIs(r);
    SameDigits(Octet()(w), Joined(r));
  }

  lemma ThirtyTwoOnes()
    ensures Joined(Digits(HF, HF, HF, HF, HF, HF, HF, HF)) == Ones(32)
  {
  }

  lemma FeedFirst(data: bytes)
    requires 4 <= |data| && data[0] == 0x54 && data[1] == 0x65 && data[2] == 0x73 && data[3] == 0x74
    ensures Feed(Octet(), Ones(32), data[..4]) == Joined(Digits(HA, HE, H7, HA, H9, H9, HB, H4))
  {
    ThirtyTwoOnes();
    FeedStep(data, 0, Digits(HF, HF, HF, HF, HF, HF, HF, HF), H5, H4, Digits(H3, HB, H3, HD, HE, H1, H6, H2));
    FeedStep(data, 1, Digits(H3, HB, H3, HD, HE, H1, H6, H2), H6, H5, Digits(HD, H4, HF, H1, H5, H9, H0, HA));
    FeedStep(data, 2, Digits(HD, H4, HF, H1, H5, H9, H0, HA), H7, H3, Digits(H0, H9, HF, HE, H7, HE, H9, H8));
    FeedStep(data, 3, Digits(H0, H9, HF, HE, H7, HE, H9, H8), H7, H4, Digits(HA, HE, H7, HA, H9, H9, HB, H4));
  }

  lemma FeedMiddle(data: bytes)
    requires 8 <= |data| && data[4] == 0x43 && data[5] == 0x52 && data[6] == 0x43 && data[7] == 0x42
    requires Feed(Octet(), Ones(32), data[..4]) == Joined(Digits(HA, HE, H7, HA, H9, H9, HB, H4))
    ensures Feed(Octet(), Ones(32), data[..8]) == Joined(Digits(H2, H0, HF, H1, HA, HC, H0, HE))
  {
    FeedStep(data, 4, Digits(HA, HE, H7, HA, H9, H9, HB, H4), H4, H3, Digits(H2, H7, H0, HA, H7, H1, H0, H7));
    FeedStep(data, 5, Digits(H2, H7, H0, HA, H7, H1, H0, H7), H5, H2, Digits(H6, H4, HF, H3, HC, H4, HB, HE));
    FeedStep(data, 6, Digits(H6, H4, HF, H3, HC, H4, HB, HE), H4, H3, Digits(H4, HC, H2, H2, HD, H0, H6, H2));
    FeedStep(data, 7, Digits(H4, HC, H2, H2, HD, H0, H6, H2), H4, H2, Digits(H2, H0, HF, H1, HA, HC, H0, HE));
  }

  lemma FeedLast(data: bytes)
    requires 13 <= |data| && data[8] == 0x75 && data[9] == 0x66 && data[10] == 0x66 && data[11] == 0x65 && data[12] == 0x72
    requires Feed(Octet(), Ones(32), data[..8]) == Joined(Digits(H2, H0, HF, H1, HA, HC, H0, HE))
    ensures Feed(Octet(), Ones(32), data[..13]) == Joined(Digits(H2, H3, H4, H3, HA, H6, H0, H5))
  {
    FeedStep(data, 8, Digits(H2, H0, HF, H1, HA, HC, H0, HE), H7, H5, Digits(HE, H8, H3, H1, H0, HE, H9, HA));
    FeedStep(data, 9, Digits(HE, H8, H3, H1, H0, HE, H9, HA), H6, H6, Digits(HB, HE, HC, H5, H9, H1, HA, HB));
    FeedStep(data, 10, Digits(HB, HE, HC, H5, H9, H1, HA, HB), H6, H6, Digits(H7, HC, H1, HB, HA, HF, H8, H6));
    FeedStep(data, 11, Digits(H7, HC, H1, HB, HA, HF, H8, H6), H6, H5, Digits(HF, H0, H1, HC, H4, H0, H4, H1));
    FeedStep(data, 12, Digits(HF, H0, H1, HC, H4, H0, H4, H1), H7, H2, Digits(H2, H3, H4, H3, HA, H6, H0, H5));
  }

  function Inverted(d: Digit): Digit { Digit(!d.b0, !d.b1, !d.b2, !d.b3) }

  lemma InvertedIs(h: Digits)
    ensures Of(Xor(Joined(h), Ones(32)))
            == Digits(Inverted(h.d7), Inverted(h.d6), Inverted(h.d5), Inverted(h.d4),
                      Inverted(h.d3), Inverted(h.d2), Inverted(h.d1), Inverted(h.d0))
  {
    JoinedIs(h);
  }

  /** The checksum of "TestCRCBuffer", 0xdcbc59fa. */
  lemma TestBuffer(data: bytes)
    requires data == [0x54, 0x65, 0x73, 0x74, 0x43, 0x52, 0x43, 0x42, 0x75, 0x66, 0x66, 0x65, 0x72]
    ensures Value(data) == Joined(Digits(HD, HC, HB, HC, H5, H9, HF, HA))
  {
    FeedFirst(data);
    FeedMiddle(data);
    FeedLast(data);
    assert data[..13] == data;
    assert Xor(Zeros(32), Ones(32)) == Ones(32);
    InvertedIs(Digits(H2, H3, H4, H3, HA, H6, H0, H5));
    JoinedIs(Digits(HD, HC, HB, HC, H5, H9, HF, HA));
    SameDigits(Value(data), Joined(Digits(HD, HC, HB, HC, H5, H9, HF, HA)));
  }

  // ---- the mask -------------------------------------------------------------------------

  lemma RotatedValue(low: nat, high: nat, j: nat, k: nat)
    requires low < Pow2(j) && high < Pow2(k)
    ensures var w := FromNat(low + Pow2(j) * high, j + k); ToNat(w[j..] + w[..j]) == high + Pow2(k) * low
  {
    RotatedNat(low, high, j, k);
    NatSplits(high, low, k, j);
    ToNatAppend(FromNat(high, k), FromNat(low, j));
    ToFromNat(high, k);
    ToFromNat(low, j);
  }

  /** Mask as 32-bit arithmetic: `((crc >> 15) | (crc << 17)) + 0xa282ead8`. */
  lemma MaskIs(c: nat)
    requires c < TWO32
    ensures Mask(FromNat(c, 32)) == (c / 0x8000 + c % 0x8000 * 0x2_0000 + 0xa282ead8) % TWO32
  {
    Pow15And17();
    RotatedValue(c % 0x8000, c / 0x8000, 15, 17);
  }
}
