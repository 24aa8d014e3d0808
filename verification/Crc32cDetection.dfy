/** What a CRC32C checksum detects: any damage within four consecutive bytes.  The register
    loses nothing, so two strings that differ only there have different checksums. */
module Crc32cDetection {
  import opened Coding
  import opened Crc32c

  ghost predicate Injective(f: Register) {
    forall a: Word, b: Word {:trigger f(a), f(b)} :: f(a) == f(b) ==> a == b
  }

  /** The bit shifted out comes back as the highest one. */
  lemma ShiftLosesNothing(a: Word, b: Word)
    requires Shift1(a) == Shift1(b)
    ensures a == b
  {
    assert POLYNOMIAL[31];
    assert Shift1(a)[31] == a[0] && Shift1(b)[31] == b[0];
    forall i | 0 <= i < 32
      ensures a[i] == b[i]
    {
      if i > 0 {
        assert Shift1(a)[i - 1] == (a[i] != (a[0] && POLYNOMIAL[i - 1]));
        assert Shift1(b)[i - 1] == (b[i] != (b[0] && POLYNOMIAL[i - 1]));
      }
    }
  }

  lemma {:induction false} ShiftsLoseNothing(n: nat, a: Word, b: Word)
    requires Shift(n, a) == Shift(n, b)
    ensures a == b
  {
    if n > 0 {
      ShiftLosesNothing(Shift(n - 1, a), Shift(n - 1, b));
      ShiftsLoseNothing(n - 1, a, b);
    }
  }

  lemma OctetIsInjective()
    ensures Injective(Octet())
  {
    forall a: Word, b: Word | Octet()(a) == Octet()(b)
      ensures a == b
    {
      ShiftsLoseNothing(8, a, b);
    }
  }

  lemma XorInjective(a: Word, b: Word, c: Word)
    requires Xor(a, c) == Xor(b, c)
    ensures a == b
  {
    XorCancels(a, c);
    XorCancels(b, c);
  }

  /** Registers that differ still differ after the same bytes. */
  lemma {:induction false} FeedKeepsApart(f: Register, l: Word, m: Word, data: bytes)
    requires Injective(f) && l != m
    ensures Feed(f, l, data) != Feed(f, m, data)
  {
    if data != [] {
      var n := |data| - 1;
      var x, y, b := Feed(f, l, data[..n]), Feed(f, m, data[..n]), data[n];
      FeedKeepsApart(f, l, m, data[..n]);
      ByteStepIsRegister(f, x, b);
      ByteStepIsRegister(f, y, b);
      if ByteStep(f, x, b) == ByteStep(f, y, b) {
        XorInjective(x, y, Byte(b) + Zeros(24));
      }
    }
  }

  lemma SameByte(a: byte, b: byte)
    requires Byte(a) == Byte(b)
    ensures a == b
  {
    assert Pow2(8) == 256;
    ToFromNat(a, 8);
    ToFromNat(b, 8);
  }

  lemma SameWord(x: bytes, y: bytes)
    requires |x| == |y| == 4 && WordAt(x, 0) == WordAt(y, 0)
    ensures x == y
  {
    var v, w := WordAt(x, 0), WordAt(y, 0);
    assert v[..8] == Byte(x[0]) && w[..8] == Byte(y[0]);
    assert v[8..16] == Byte(x[1]) && w[8..16] == Byte(y[1]);
    assert v[16..24] == Byte(x[2]) && w[16..24] == Byte(y[2]);
    assert v[24..] == Byte(x[3]) && w[24..] == Byte(y[3]);
    SameByte(x[0], y[0]);
    SameByte(x[1], y[1]);
    SameByte(x[2], y[2]);
    SameByte(x[3], y[3]);
  }

  lemma FourBytesAre(f: Register, l: Word, x: bytes)
    requires |x| == 4
    ensures Feed(f, l, x) == F4(f, Xor(l, WordAt(x, 0)))
  {
    FeedWord(f, l, x, 0);
    assert x[..0] == [] && x[..4] == x;
  }

  lemma F4Injective(f: Register, a: Word, b: Word)
    requires Injective(f) && F4(f, a) == F4(f, b)
    ensures a == b
  {
  }

  /** Four bytes that differ lead to different registers. */
  lemma FourBytesDiffer(f: Register, l: Word, x: bytes, y: bytes)
    requires Injective(f) && |x| == |y| == 4 && x != y
    ensures Feed(f, l, x) != Feed(f, l, y)
  {
    FourBytesAre(f, l, x);
    FourBytesAre(f, l, y);
    if Feed(f, l, x) == Feed(f, l, y) {
      var v, w := WordAt(x, 0), WordAt(y, 0);
      F4Injective(f, Xor(l, v), Xor(l, w));
      XorComm(l, v);
      XorComm(l, w);
      XorInjective(v, w, l);
      SameWord(x, y);
    }
  }

  /** So do up to four. */
  lemma FewBytesDiffer(f: Register, l: Word, x: bytes, y: bytes)
    requires Injective(f) && |x| == |y| <= 4 && x != y
    ensures Feed(f, l, x) != Feed(f, l, y)
  {
    var z := ZeroBytes(4 - |x|);
    FeedAppend(f, l, x, z);
    FeedAppend(f, l, y, z);
    assert (x + z)[..|x|] == x && (y + z)[..|x|] == y;
    FourBytesDiffer(f, l, x + z, y + z);
  }

  /** Two strings of one length that differ, and only within four consecutive bytes. */
  ghost predicate Dented(a: bytes, b: bytes) {
    |a| == |b| && a != b && exists i: nat :: i <= |a| && a[..i] == b[..i] && a[Later(i, |a|)..] == b[Later(i, |a|)..]
  }

  /** Four bytes on, or at the end. */
  function Later(i: nat, n: nat): nat { if i + 4 <= n then i + 4 else n }

  lemma DentIsSeen(a: bytes, b: bytes)
    requires Dented(a, b)
    ensures Value(a) != Value(b)
  {
    var i: nat :| i <= |a| && a[..i] == b[..i] && a[Later(i, |a|)..] == b[Later(i, |a|)..];
    var j, f := Later(i, |a|), Octet();
    var x, y, l := a[i..j], b[i..j], Feed(f, Ones(32), a[..i]);
    Parts(a, i, j);
    Parts(b, i, j);
    OctetIsInjective();
    FewBytesDiffer(f, l, x, y);
    FeedKeepsApart(f, Feed(f, l, x), Feed(f, l, y), a[j..]);
    FeedParts(f, Ones(32), a[..i], x, a[j..]);
    FeedParts(f, Ones(32), b[..i], y, b[j..]);
    assert Xor(Zeros(32), Ones(32)) == Ones(32);
    if Value(a) == Value(b) {
      XorInjective(Feed(f, Ones(32), a), Feed(f, Ones(32), b), Ones(32));
    }
  }

  lemma Parts(a: bytes, i: nat, j: nat)
    requires i <= j <= |a|
    ensures a == a[..i] + a[i..j] + a[j..]
  {
  }

  lemma FeedParts(f: Register, l: Word, a: bytes, b: bytes, c: bytes)
    ensures Feed(f, l, a + b + c) == Feed(f, Feed(f, Feed(f, l, a), b), c)
  {
    FeedAppend(f, l, a + b, c);
    FeedAppend(f, l, a, b);
  }

  /** A flipped bit, or any other change of one byte, is such damage. */
  lemma OneByteDents(a: bytes, i: nat, b: byte)
    requires i < |a| && a[i] != b
    ensures Dented(a, a[i := b])
  {
    assert a[..i] == a[i := b][..i];
    assert a[Later(i, |a|)..] == a[i := b][Later(i, |a|)..];
    assert a[i := b][i] == b;
  }

  /** A masked checksum says exactly which checksum it stands for. */
  lemma MaskIsOnto(word: nat)
    requires word < TWO32
    ensures Mask(Unmask(word)) == word
  {
    var n := (word + TWO32 - MASK_DELTA) % TWO32;
    var rot := FromNat(n, 32);
    var crc := Unmask(word);
    assert crc[15..] + crc[..15] == rot;
    Pow2Is();
    ToFromNat(n, 32);
  }
}
