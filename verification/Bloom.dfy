/** BloomFilterPolicy (util/bloom.cpp).  The hash is a parameter; its values are 32-bit. */
module Bloom {
  import opened Coding
  import Crc32c

  type HashFn = bytes -> nat

  // ---- bits of a byte array -------------------------------------------------------------

  function Bit(a: bytes, pos: nat): bool
    requires pos < 8 * |a|
  {
    Crc32c.Byte(a[pos / 8])[pos % 8]
  }

  /** `array[pos / 8] |= 1 << (pos % 8)`. */
  function SetBit(a: bytes, pos: nat): (r: bytes)
    requires pos < 8 * |a|
    ensures |r| == |a|
  {
    a[pos / 8 := WithBit(a[pos / 8], pos % 8)]
  }

  function WithBit(b: byte, i: nat): byte
    requires i < 8
  {
    ByteFits(Crc32c.Byte(b)[i := true]);
    Crc32c.ToNat(Crc32c.Byte(b)[i := true])
  }

  lemma ByteFits(bits: Crc32c.Bits)
    requires |bits| == 8
    ensures Crc32c.ToNat(bits) < 256
  {
    Crc32c.ToNatBound(bits);
    assert Crc32c.Pow2(8) == 256;
  }

  /** Setting a bit sets that bit and no other. */
  lemma SetBitSets(a: bytes, pos: nat, q: nat)
    requires pos < 8 * |a| && q < 8 * |a|
    ensures Bit(SetBit(a, pos), q) <==> q == pos || Bit(a, q)
  {
    var bits := Crc32c.Byte(a[pos / 8])[pos % 8 := true];
    ByteFits(bits);
    Crc32c.FromToNat(bits);
    if q / 8 == pos / 8 {
      assert q == pos <==> q % 8 == pos % 8;
    }
  }

  // ---- probes ---------------------------------------------------------------------------

  /** `(h >> 17) | (h << 15)` on 32 bits. */
  function Delta(h: nat): nat { h / 0x2_0000 + h % 0x2_0000 * 0x8000 }

  /** The j-th value of h in the double hashing loop. */
  function ProbeHash(h: nat, j: nat): nat {
    if j == 0 then h else (ProbeHash(h, j - 1) + Delta(h)) % TWO32
  }

  function ProbeBit(h: nat, j: nat, bits: nat): (p: nat)
    requires bits > 0
    ensures p < bits
  {
    ProbeHash(h, j) % bits
  }

  /** The bits of the first k probes of h. */
  function AddProbes(a: bytes, h: nat, k: nat): (r: bytes)
    requires |a| > 0
    ensures |r| == |a|
  {
    if k == 0 then a else SetBit(AddProbes(a, h, k - 1), ProbeBit(h, k - 1, 8 * |a|))
  }

  function AddKeys(hash: HashFn, a: bytes, keys: seq<bytes>, k: nat): (r: bytes)
    requires |a| > 0
    ensures |r| == |a|
  {
    if keys == [] then a
    else AddProbes(AddKeys(hash, a, keys[..|keys| - 1], k), hash(keys[|keys| - 1]), k)
  }

  /** The fewest bytes with room for that many bits per key, and for 64 bits. */
  function FilterBytes(n: nat, bitsPerKey: nat): (b: nat)
    ensures b >= 8 && 8 * b >= n * bitsPerKey && (b > 8 ==> 8 * (b - 1) < n * bitsPerKey)
  {
    var bits := n * bitsPerKey;
    ((if bits < 64 then 64 else bits) + 7) / 8
  }

  /** The filter CreateFilter appends for the keys. */
  function Filter(hash: HashFn, bitsPerKey: nat, k: nat, keys: seq<bytes>): bytes
    requires k < 256
  {
    AddKeys(hash, ZeroBytes(FilterBytes(|keys|, bitsPerKey)), keys, k) + [k]
  }

  /** What KeyMayMatch answers. */
  predicate MayMatch(hash: HashFn, key: bytes, filter: bytes) {
    && 2 <= |filter|
    && var a := filter[..|filter| - 1];
       filter[|filter| - 1] > 30
       || forall j: nat :: j < filter[|filter| - 1] ==> Bit(a, ProbeBit(hash(key), j, 8 * |a|))
  }

  // ---- no false negatives ---------------------------------------------------------------

  lemma {:induction false} ProbesSet(a: bytes, h: nat, k: nat, q: nat)
    requires |a| > 0 && q < 8 * |a|
    ensures Bit(AddProbes(a, h, k), q) <==> Bit(a, q) || exists j: nat :: j < k && q == ProbeBit(h, j, 8 * |a|)
  {
    if k > 0 {
      ProbesSet(a, h, k - 1, q);
      SetBitSets(AddProbes(a, h, k - 1), ProbeBit(h, k - 1, 8 * |a|), q);
    }
  }

  /** A bit is one of some key's probes. */
  ghost predicate Probed(hash: HashFn, keys: seq<bytes>, k: nat, q: nat, bits: nat)
    requires bits > 0
  {
    exists i: nat, j: nat :: i < |keys| && j < k && q == ProbeBit(hash(keys[i]), j, bits)
  }

  /** The bits set are exactly the probes of the keys. */
  lemma {:induction false} KeysSet(hash: HashFn, a: bytes, keys: seq<bytes>, k: nat, q: nat)
    requires |a| > 0 && q < 8 * |a|
    ensures Bit(AddKeys(hash, a, keys, k), q) <==> Bit(a, q) || Probed(hash, keys, k, q, 8 * |a|)
  {
    if keys != [] {
      var n := |keys| - 1;
      KeysSet(hash, a, keys[..n], k, q);
      ProbesSet(AddKeys(hash, a, keys[..n], k), hash(keys[n]), k, q);
      if Probed(hash, keys[..n], k, q, 8 * |a|) {
        var i: nat, j: nat :| i < n && j < k && q == ProbeBit(hash(keys[..n][i]), j, 8 * |a|);
        assert keys[..n][i] == keys[i];
      }
      if Probed(hash, keys, k, q, 8 * |a|) {
        var i: nat, j: nat :| i < |keys| && j < k && q == ProbeBit(hash(keys[i]), j, 8 * |a|);
        if i < n {
          assert keys[..n][i] == keys[i];
        }
      }
    }
  }

  lemma NoFalseNegatives(hash: HashFn, bitsPerKey: nat, k: nat, keys: seq<bytes>, i: nat)
    requires k < 256 && i < |keys|
    ensures MayMatch(hash, keys[i], Filter(hash, bitsPerKey, k, keys))
  {
    var z := ZeroBytes(FilterBytes(|keys|, bitsPerKey));
    var f := Filter(hash, bitsPerKey, k, keys);
    assert f[..|f| - 1] == AddKeys(hash, z, keys, k);
    forall j: nat | j < k
      ensures Bit(AddKeys(hash, z, keys, k), ProbeBit(hash(keys[i]), j, 8 * |z|))
    {
      KeysSet(hash, z, keys, k, ProbeBit(hash(keys[i]), j, 8 * |z|));
    }
  }

  // ---- exactly the keys whose probes are all set ----------------------------------------

  /** Delta is h rotated left by 15 bits. */
  lemma DeltaRotates(h: nat)
    requires h < TWO32
    ensures Delta(h) < TWO32
    ensures Crc32c.FromNat(Delta(h), 32) == Crc32c.FromNat(h, 32)[17..] + Crc32c.FromNat(h, 32)[..17]
  {
    Crc32c.Pow15And17();
    Crc32c.RotatedNat(h % 0x2_0000, h / 0x2_0000, 17, 15);
  }

  /** Probe j of h in a filter of that many bits. */
  function Probe(h: nat, j: nat, bits: nat): (p: nat)
    requires bits > 0
    ensures p < bits
  {
    (h + j * Delta(h)) % TWO32 % bits
  }

  lemma {:induction false} ProbeIs(h: nat, j: nat, bits: nat)
    requires h < TWO32 && bits > 0
    ensures ProbeHash(h, j) == (h + j * Delta(h)) % TWO32 && ProbeBit(h, j, bits) == Probe(h, j, bits)
  {
    if j == 0 {
      assert h + 0 * Delta(h) == h;
    } else {
      ProbeIs(h, j - 1, bits);
      OneMore(j, Delta(h));
      AddThenReduce(h + (j - 1) * Delta(h), Delta(h));
    }
  }

  lemma OneMore(j: nat, d: nat)
    requires j > 0
    ensures j * d == (j - 1) * d + d
  {
  }

  lemma AddThenReduce(a: nat, d: nat)
    ensures (a % TWO32 + d) % TWO32 == (a + d) % TWO32
  {
  }

  /** A probe of some key, the first k of each. */
  ghost predicate Met(hash: HashFn, keys: seq<bytes>, k: nat, p: nat, bits: nat)
    requires bits > 0
  {
    exists i: nat, j: nat :: i < |keys| && j < k && p == Probe(hash(keys[i]), j, bits)
  }

  lemma ProbedIsMet(hash: HashFn, keys: seq<bytes>, k: nat, p: nat, bits: nat)
    requires bits > 0 && forall key :: hash(key) < TWO32
    ensures Probed(hash, keys, k, p, bits) <==> Met(hash, keys, k, p, bits)
  {
    forall i: nat, j: nat | i < |keys|
      ensures ProbeBit(hash(keys[i]), j, bits) == Probe(hash(keys[i]), j, bits)
    {
      ProbeIs(hash(keys[i]), j, bits);
    }
  }

  /** With up to 30 probes, a key may match the filter of some keys if and only if each of its
      probes is a probe of one of them. */
  lemma MatchesExactly(hash: HashFn, bitsPerKey: nat, k: nat, keys: seq<bytes>, key: bytes)
    requires k <= 30 && forall key :: hash(key) < TWO32
    ensures var bits := 8 * FilterBytes(|keys|, bitsPerKey);
            MayMatch(hash, key, Filter(hash, bitsPerKey, k, keys))
            <==> forall j: nat :: j < k ==> Met(hash, keys, k, Probe(hash(key), j, bits), bits)
  {
    var z := ZeroBytes(FilterBytes(|keys|, bitsPerKey));
    var a, bits := AddKeys(hash, z, keys, k), 8 * |z|;
    var f := Filter(hash, bitsPerKey, k, keys);
    assert f[..|f| - 1] == a && f[|f| - 1] == k;
    forall j: nat
      ensures Bit(a, ProbeBit(hash(key), j, bits)) <==> Met(hash, keys, k, Probe(hash(key), j, bits), bits)
    {
      var p := ProbeBit(hash(key), j, bits);
      KeysSet(hash, z, keys, k, p);
      NoBits(|z|, p);
      ProbedIsMet(hash, keys, k, p, bits);
      ProbeIs(hash(key), j, bits);
    }
  }

  lemma NoBits(n: nat, p: nat)
    requires p < 8 * n
    ensures !Bit(ZeroBytes(n), p)
  {
    assert Crc32c.FromNat(0, 8) == [false, false, false, false, false, false, false, false];
  }

  /** Of any bytes as a filter: none matches fewer than two, every key matches a reserved
      probe count, and else the bits of all probes have to be set. */
  lemma MayMatchIs(hash: HashFn, key: bytes, filter: bytes)
    requires hash(key) < TWO32
    ensures |filter| < 2 ==> !MayMatch(hash, key, filter)
    ensures |filter| >= 2 && filter[|filter| - 1] > 30 ==> MayMatch(hash, key, filter)
    ensures |filter| >= 2 && filter[|filter| - 1] <= 30 ==>
              var a, k := filter[..|filter| - 1], filter[|filter| - 1];
              MayMatch(hash, key, filter) <==> forall j: nat :: j < k ==> Bit(a, Probe(hash(key), j, 8 * |a|))
  {
    if |filter| >= 2 {
      var a := filter[..|filter| - 1];
      forall j: nat
        ensures Bit(a, ProbeBit(hash(key), j, 8 * |a|)) <==> Bit(a, Probe(hash(key), j, 8 * |a|))
      {
        ProbeIs(hash(key), j, 8 * |a|);
      }
    }
  }

  // ---- the program's loops --------------------------------------------------------------

  method CreateFilter(hash: HashFn, bitsPerKey: nat, k: nat, keys: seq<bytes>, dst: bytes) returns (r: bytes)
    requires k < 256 && forall key :: hash(key) < TWO32
    ensures r == dst + Filter(hash, bitsPerKey, k, keys)
  {
    var bits := |keys| * bitsPerKey;
    if bits < 64 {
      bits := 64;
    }
    var size := (bits + 7) / 8;
    bits := size * 8;
    var a: bytes := ZeroBytes(size);
    for i := 0 to |keys|
      invariant |a| == size
      invariant a == AddKeys(hash, ZeroBytes(size), keys[..i], k)
    {
      assert keys[..i + 1][..i] == keys[..i];
      ghost var was := a;
      var h: nat := hash(keys[i]);
      var delta := Delta(h);
      for j := 0 to k
        invariant |a| == size && a == AddProbes(was, hash(keys[i]), j)
        invariant h == ProbeHash(hash(keys[i]), j)
      {
        a := SetBit(a, h % bits);
        h := (h + delta) % TWO32;
      }
    }
    assert keys[..|keys|] == keys;
    r := dst + a + [k];
  }

  method KeyMayMatch(hash: HashFn, key: bytes, filter: bytes) returns (m: bool)
    ensures m == MayMatch(hash, key, filter)
  {
    var len := |filter|;
    if len < 2 {
      return false;
    }
    var a := filter[..len - 1];
    var bits := (len - 1) * 8;
    var k := filter[len - 1];
    if k > 30 {
      return true;
    }
    var h := hash(key);
    var delta := Delta(h);
    for j := 0 to k
      invariant h == ProbeHash(hash(key), j)
      invariant forall i: nat :: i < j ==> Bit(a, ProbeBit(hash(key), i, 8 * |a|))
    {
      if !Bit(a, h % bits) {
        assert !Bit(a, ProbeBit(hash(key), j, 8 * |a|));
        return false;
      }
      h := (h + delta) % TWO32;
    }
    return true;
  }
}
