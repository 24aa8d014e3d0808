/** Comparators, and the bytewise one (util/comparator.cpp), with the separator functions the
    index block relies on. */
module Comparators {
  import opened Coding
  import opened Cursors

  // ---- bytewise order -------------------------------------------------------------------

  /** Slice::compare(b) < 0. */
  predicate BytewiseLess(a: bytes, b: bytes) {
    b != [] && (a == [] || a[0] < b[0] || (a[0] == b[0] && BytewiseLess(a[1..], b[1..])))
  }

  lemma {:induction false} BytewiseAsymmetric(a: bytes, b: bytes)
    ensures BytewiseLess(a, b) ==> !BytewiseLess(b, a)
    ensures !BytewiseLess(a, b) && !BytewiseLess(b, a) ==> a == b
  {
    if a != [] && b != [] && a[0] == b[0] {
      BytewiseAsymmetric(a[1..], b[1..]);
      assert a == [a[0]] + a[1..] && b == [b[0]] + b[1..];
    }
  }

  lemma {:induction false} BytewiseBetween(a: bytes, b: bytes, c: bytes)
    requires BytewiseLess(a, b)
    ensures BytewiseLess(a, c) || BytewiseLess(c, b)
  {
    if a != [] && b != [] && c != [] && a[0] == b[0] == c[0] {
      BytewiseBetween(a[1..], b[1..], c[1..]);
    }
  }

  function Bytewise(): KeyLess { (a: bytes, b: bytes) => BytewiseLess(a, b) }

  lemma BytewiseOrdered()
    ensures Ordered(Bytewise())
  {
    forall a, b
      ensures Bytewise()(a, b) ==> !Bytewise()(b, a)
    {
      BytewiseAsymmetric(a, b);
    }
    forall a, b, c | BytewiseLess(a, b)
      ensures Bytewise()(a, c) || Bytewise()(c, b)
    {
      BytewiseBetween(a, b, c);
    }
  }

  /** Two strings that first differ at i compare as their bytes there. */
  lemma {:induction false} DifferAt(a: bytes, b: bytes, i: nat)
    requires i < |a| && i < |b| && a[..i] == b[..i] && a[i] != b[i]
    ensures BytewiseLess(a, b) <==> a[i] < b[i]
  {
    if i > 0 {
      assert a[0] == a[..i][0] == b[..i][0] == b[0];
      assert a[1..][..i - 1] == a[..i][1..] && b[1..][..i - 1] == b[..i][1..];
      DifferAt(a[1..], b[1..], i - 1);
    }
  }

  function CommonLength(a: bytes, b: bytes): (n: nat)
    ensures n <= |a| && n <= |b| && a[..n] == b[..n] && (n < |a| && n < |b| ==> a[n] != b[n])
  {
    if a == [] || b == [] || a[0] != b[0] then 0 else 1 + CommonLength(a[1..], b[1..])
  }

  method CommonPrefix(a: bytes, b: bytes) returns (n: nat)
    ensures n == CommonLength(a, b)
  {
    n := 0;
    assert a[0..] == a && b[0..] == b;
    while n < |a| && n < |b| && a[n] == b[n]
      invariant n <= |a| && n <= |b|
      invariant CommonLength(a, b) == n + CommonLength(a[n..], b[n..])
    {
      assert a[n..][1..] == a[n + 1..] && b[n..][1..] == b[n + 1..];
      n := n + 1;
    }
  }

  /** Shortens start to the first byte that differs from limit, plus one, when that leaves it
      before limit. */
  function ShortestSeparator(start: bytes, limit: bytes): bytes {
    var i := CommonLength(start, limit);
    if i < |start| && i < |limit| && Apart(start[i], limit[i]) then start[..i] + [start[i] + 1] else start
  }

  /** There is a byte strictly between the two. */
  predicate Apart(a: int, b: int) { a + 1 < b }

  /** The separator is no longer than start and, when start is before limit, in [start, limit). */
  lemma SeparatorBetween(start: bytes, limit: bytes)
    ensures var r := ShortestSeparator(start, limit);
            && |r| <= |start| && (r != start ==> BytewiseLess(start, r))
            && (BytewiseLess(start, limit) ==> !BytewiseLess(r, start) && BytewiseLess(r, limit))
  {
    var i, r := CommonLength(start, limit), ShortestSeparator(start, limit);
    BytewiseAsymmetric(start, r);
    if r != start {
      assert r[..i] == start[..i];
      DifferAt(start, r, i);
      DifferAt(r, limit, i);
    }
  }

  /** Start and limit first differ at i, and a byte lies strictly between theirs there. */
  ghost predicate GapAt(start: bytes, limit: bytes, i: nat) {
    i < |start| && i < |limit| && start[..i] == limit[..i] && Apart(start[i], limit[i])
  }

  lemma FirstDifference(a: bytes, b: bytes, i: nat)
    requires i < |a| && i < |b| && a[..i] == b[..i] && a[i] != b[i]
    ensures CommonLength(a, b) == i
  {
    var n := CommonLength(a, b);
  }

  /** Start is left alone if and only if there is no such gap. */
  lemma SeparatorShortens(start: bytes, limit: bytes)
    ensures ShortestSeparator(start, limit) != start <==> exists i: nat :: GapAt(start, limit, i)
    ensures forall i: nat :: GapAt(start, limit, i) ==> ShortestSeparator(start, limit) == start[..i] + [start[i] + 1]
  {
    forall i: nat | GapAt(start, limit, i)
      ensures ShortestSeparator(start, limit) == start[..i] + [start[i] + 1] != start
    {
      FirstDifference(start, limit, i);
      assert (start[..i] + [start[i] + 1])[i] != start[i];
    }
    if ShortestSeparator(start, limit) != start {
      assert GapAt(start, limit, CommonLength(start, limit));
    }
  }

  /** A proper prefix comes first. */
  lemma {:induction false} PrefixLess(a: bytes, b: bytes)
    requires |a| < |b| && b[..|a|] == a
    ensures BytewiseLess(a, b)
  {
    if a != [] {
      assert a[0] == b[..|a|][0] == b[0];
      assert b[1..][..|a| - 1] == b[..|a|][1..];
      PrefixLess(a[1..], b[1..]);
    }
  }

  /** What is at most as long as the common prefix of two strings lies on one side of both. */
  lemma ShortIsOutside(a: bytes, b: bytes, n: nat, k: bytes)
    requires |k| <= n <= |a| && n <= |b| && a[..n] == b[..n] && n < |a|
    ensures BytewiseLess(k, a) || !BytewiseLess(k, b)
  {
    var i := CommonLength(k, a);
    assert a[..n][..|k|] == a[..|k|] && b[..n][..|k|] == b[..|k|];
    if i == |k| {
      PrefixLess(k, a);
    } else {
      assert a[i] == a[..n][i] == b[..n][i] == b[i];
      assert a[..i] == a[..n][..i] == b[..n][..i] == b[..i];
      DifferAt(k, a, i);
      DifferAt(k, b, i);
    }
  }

  /** A shortened separator is the least of the shortest: no string in [start, limit) is shorter,
      and none of its length behind start comes before it. */
  lemma SeparatorIsShortest(start: bytes, limit: bytes, k: bytes)
    requires ShortestSeparator(start, limit) != start && !BytewiseLess(k, start) && BytewiseLess(k, limit)
    ensures var r := ShortestSeparator(start, limit);
            |r| <= |k| && (|k| == |r| && k != start ==> !BytewiseLess(k, r))
  {
    var i, r := CommonLength(start, limit), ShortestSeparator(start, limit);
    if |k| <= i {
      ShortIsOutside(start, limit, i, k);
    } else if |k| == |r| && k != start {
      LeastBehind(start, i, k);
    }
  }

  /** Cutting a string off behind a byte and incrementing it gives the least string of that
      length behind it. */
  lemma LeastBehind(start: bytes, i: nat, k: bytes)
    requires i < |start| && start[i] < 0xff && |k| == i + 1 && k != start && !BytewiseLess(k, start)
    ensures !BytewiseLess(k, start[..i] + [start[i] + 1])
  {
    var r, n := start[..i] + [start[i] + 1], CommonLength(k, start);
    if n == |k| {
      PrefixLess(k, start);
    } else {
      DifferAt(k, start, n);
      assert r[..n] == start[..n];
      if n == i && k[n] == r[n] {
        assert k == k[..n] + [k[n]] == r;
        BytewiseAsymmetric(k, r);
      } else {
        DifferAt(k, r, n);
      }
    }
  }

  method FindShortestSeparator(start: bytes, limit: bytes) returns (r: bytes)
    ensures r == ShortestSeparator(start, limit)
  {
    r := start;
    var i := CommonPrefix(start, limit);
    if i < |start| && i < |limit| {
      var diff := start[i];
      if diff < 0xff && diff + 1 < limit[i] {
        r := start[..i] + [diff + 1];
      }
    }
  }

  /** Increments the first byte that can be, and drops what follows it. */
  function ShortSuccessor(key: bytes): bytes {
    if key == [] then []
    else if key[0] != 0xff then [key[0] + 1]
    else [0xff] + ShortSuccessor(key[1..])
  }

  /** The successor is no longer than the key and not before it. */
  lemma {:induction false} SuccessorBehind(key: bytes)
    ensures var r := ShortSuccessor(key);
            |r| <= |key| && !BytewiseLess(r, key) && (r != key ==> BytewiseLess(key, r))
  {
    if key != [] && key[0] == 0xff {
      SuccessorBehind(key[1..]);
      var r := ShortSuccessor(key);
      assert key == [0xff] + key[1..];
      assert r[1..] == ShortSuccessor(key[1..]);
    }
  }

  ghost predicate AllHighest(key: bytes) { forall i :: 0 <= i < |key| ==> key[i] == 0xff }

  lemma {:induction false} SuccessorAt(key: bytes, i: nat)
    requires i < |key| && AllHighest(key[..i]) && key[i] != 0xff
    ensures ShortSuccessor(key) == key[..i] + [key[i] + 1] != key
  {
    if i > 0 {
      assert key[0] == key[..i][0] == 0xff;
      assert key[1..][..i - 1] == key[..i][1..];
      SuccessorAt(key[1..], i - 1);
      assert key[..i] == [0xff] + key[1..][..i - 1];
    }
    assert (key[..i] + [key[i] + 1])[i] != key[i];
  }

  lemma {:induction false} SuccessorKeeps(key: bytes)
    requires AllHighest(key)
    ensures ShortSuccessor(key) == key
  {
    if key != [] {
      SuccessorKeeps(key[1..]);
    }
  }

  lemma {:induction false} FirstLow(key: bytes) returns (i: nat)
    requires !AllHighest(key)
    ensures i < |key| && AllHighest(key[..i]) && key[i] != 0xff
  {
    i := 0;
    if key[0] == 0xff {
      assert key == [0xff] + key[1..];
      var j := FirstLow(key[1..]);
      i := j + 1;
      assert key[..i] == [0xff] + key[1..][..j];
    }
  }

  /** The successor leaves a run of 0xff alone, and else is the least of the shortest strings
      not before the key, the key itself apart. */
  lemma SuccessorIsShortest(key: bytes)
    ensures ShortSuccessor(key) == key <==> AllHighest(key)
    ensures !AllHighest(key) ==> forall k: bytes {:trigger BytewiseLess(k, key)} :: !BytewiseLess(k, key) ==>
              var r := ShortSuccessor(key); |r| <= |k| && (|k| == |r| && k != key ==> !BytewiseLess(k, r))
  {
    if AllHighest(key) {
      SuccessorKeeps(key);
    } else {
      var i := FirstLow(key);
      SuccessorAt(key, i);
      forall k: bytes | !BytewiseLess(k, key)
        ensures i < |k| && (|k| == i + 1 && k != key ==> !BytewiseLess(k, ShortSuccessor(key)))
      {
        BehindIsLonger(key, i, k);
        if |k| == i + 1 && k != key {
          LeastBehind(key, i, k);
        }
      }
    }
  }

  lemma BehindIsLonger(key: bytes, i: nat, k: bytes)
    requires i < |key| && AllHighest(key[..i]) && !BytewiseLess(k, key)
    ensures i < |k|
  {
    var n := CommonLength(k, key);
    if n == |k| && n < |key| {
      PrefixLess(k, key);
    } else if n < |k| && n < i {
      assert key[n] == key[..i][n] == 0xff;
      DifferAt(k, key, n);
    }
  }

  method FindShortSuccessor(key: bytes) returns (r: bytes)
    ensures r == ShortSuccessor(key)
  {
    assert key[0..] == key;
    for i := 0 to |key|
      invariant ShortSuccessor(key) == key[..i] + ShortSuccessor(key[i..])
    {
      assert key[i..][1..] == key[i + 1..];
      if key[i] != 0xff {
        r := key[..i] + [key[i] + 1];
        return;
      }
      assert key[..i] + [0xff] == key[..i + 1];
    }
    r := key;
  }

  // ---- comparators ----------------------------------------------------------------------

  /** A comparator: its order, and the two functions that shorten index keys. */
  datatype Comparator = Comparator(less: KeyLess, separator: (bytes, bytes) -> bytes, successor: bytes -> bytes)

  ghost predicate Lawful(c: Comparator) {
    && Ordered(c.less)
    && (forall a, b {:trigger c.separator(a, b)} :: c.less(a, b) ==>
          !c.less(c.separator(a, b), a) && c.less(c.separator(a, b), b))
    && (forall a {:trigger c.successor(a)} :: !c.less(c.successor(a), a))
  }

  function BytewiseComparator(): Comparator {
    Comparator((a: bytes, b: bytes) => BytewiseLess(a, b),
               (start: bytes, limit: bytes) => ShortestSeparator(start, limit),
               (key: bytes) => ShortSuccessor(key))
  }

  lemma BytewiseIsLawful()
    ensures Lawful(BytewiseComparator())
  {
    var c := BytewiseComparator();
    forall a, b
      ensures c.less(a, b) ==> !c.less(b, a) && !c.less(c.separator(a, b), a) && c.less(c.separator(a, b), b)
    {
      BytewiseAsymmetric(a, b);
      SeparatorBetween(a, b);
    }
    forall a, b, c | BytewiseLess(a, b)
      ensures BytewiseLess(a, c) || BytewiseLess(c, b)
    {
      BytewiseBetween(a, b, c);
    }
    forall a
      ensures !c.less(c.successor(a), a)
    {
      SuccessorBehind(a);
    }
  }
}
