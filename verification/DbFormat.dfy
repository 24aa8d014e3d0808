/** Internal keys (db/dbformat.h, db/dbformat.cpp): a user key followed by eight bytes that
    pack a sequence number and a value type, ordered by user key and then newest first. */
module DbFormat {
  import opened Coding
  import opened Cursors
  import opened Comparators

  datatype ValueType = Deletion | Put

  const MAX_SEQUENCE: nat := 0xff_ffff_ffff_ffff

  function TypeByte(t: ValueType): nat { if t.Deletion? then 0 else 1 }

  /** PackSequenceAndType. */
  function Pack(seqno: nat, t: ValueType): nat { seqno * 256 + TypeByte(t) }

  datatype Parsed = Parsed(userKey: bytes, seqno: nat, kind: ValueType)

  function InternalKey(p: Parsed): bytes { p.userKey + Fixed64(Pack(p.seqno, p.kind)) }

  function UserKey(k: bytes): bytes { if |k| < 8 then [] else k[..|k| - 8] }

  function Tag(k: bytes): nat { if |k| < 8 then 0 else DecodeFixed64(k[|k| - 8..]) }

  /** ParseInternalKey: None when the key is too short or the type byte is unknown. */
  function ParseInternalKey(k: bytes): Option<Parsed> {
    if |k| < 8 || Tag(k) % 256 > 1 then None
    else Some(Parsed(UserKey(k), Tag(k) / 256, if Tag(k) % 256 == 0 then Deletion else Put))
  }

  lemma TagOf(p: Parsed)
    requires p.seqno <= MAX_SEQUENCE
    ensures Pack(p.seqno, p.kind) < TWO64
    ensures UserKey(InternalKey(p)) == p.userKey && Tag(InternalKey(p)) == Pack(p.seqno, p.kind)
  {
    var k, f := InternalKey(p), Fixed64(Pack(p.seqno, p.kind));
    assert k[|k| - 8..] == f + [];
    Fixed64RoundTrip(Pack(p.seqno, p.kind), []);
  }

  lemma Unpack(seqno: nat, t: ValueType)
    ensures Pack(seqno, t) / 256 == seqno && Pack(seqno, t) % 256 == TypeByte(t)
  {
  }

  lemma ParsesAs(k: bytes, p: Parsed)
    requires 8 <= |k| && UserKey(k) == p.userKey && Tag(k) == Pack(p.seqno, p.kind)
    ensures ParseInternalKey(k) == Some(p)
  {
    Unpack(p.seqno, p.kind);
  }

  lemma ParseRoundTrip(p: Parsed)
    requires p.seqno <= MAX_SEQUENCE
    ensures ParseInternalKey(InternalKey(p)) == Some(p)
  {
    TagOf(p);
    ParsesAs(InternalKey(p), p);
  }

  /** Exactly the internal keys parse, each as what it was made of: a key that is too short or
      has another type byte does not. */
  lemma ParsesExactly(k: bytes, p: Parsed)
    ensures ParseInternalKey(k) == Some(p) <==> p.seqno <= MAX_SEQUENCE && k == InternalKey(p)
  {
    if p.seqno <= MAX_SEQUENCE && k == InternalKey(p) {
      ParseRoundTrip(p);
    }
    if ParseInternalKey(k) == Some(p) {
      Fixed64Onto(k[|k| - 8..]);
      assert Pack(p.seqno, p.kind) == Tag(k);
      assert k == k[..|k| - 8] + k[|k| - 8..];
    }
  }

  /** The user comparator finds the keys equal; they need not be identical. */
  predicate SameUser(ul: KeyLess, a: bytes, b: bytes) { !ul(a, b) && !ul(b, a) }

  lemma SameUserTransitive(ul: KeyLess, a: bytes, b: bytes, c: bytes)
    requires Ordered(ul) && SameUser(ul, a, b) && SameUser(ul, b, c)
    ensures SameUser(ul, a, c)
  {
    if ul(a, c) {
      Between(ul, a, c, b);
    }
    if ul(c, a) {
      Between(ul, c, a, b);
    }
  }

  /** InternalKeyComparator::Compare(a, b) < 0 over a user comparator: by user key, and then by
      descending tag. */
  predicate InternalLess(ul: KeyLess, a: bytes, b: bytes) {
    ul(UserKey(a), UserKey(b)) || (SameUser(ul, UserKey(a), UserKey(b)) && Tag(a) > Tag(b))
  }

  function Internal(ul: KeyLess): KeyLess { (a: bytes, b: bytes) => InternalLess(ul, a, b) }

  lemma InternalBetween(ul: KeyLess, a: bytes, b: bytes, c: bytes)
    requires Ordered(ul) && InternalLess(ul, a, b)
    ensures !InternalLess(ul, b, a) && (InternalLess(ul, a, c) || InternalLess(ul, c, b))
  {
    var ua, ub, uc := UserKey(a), UserKey(b), UserKey(c);
    if ul(ua, ub) {
      assert !ul(ub, ua);
      Between(ul, ua, ub, uc);
      if SameUser(ul, ua, uc) && SameUser(ul, uc, ub) {
        SameUserTransitive(ul, ua, uc, ub);
      }
    } else {
      if ul(ua, uc) {
      } else if ul(uc, ua) {
        Between(ul, uc, ua, ub);
      } else {
        SameUserTransitive(ul, uc, ua, ub);
      }
    }
  }

  lemma InternalOrdered(ul: KeyLess)
    requires Ordered(ul)
    ensures Ordered(Internal(ul))
  {
    forall a, b, c | InternalLess(ul, a, b)
      ensures !Internal(ul)(b, a) && (Internal(ul)(a, c) || Internal(ul)(c, b))
    {
      InternalBetween(ul, a, b, c);
    }
  }

  /** The order on keys as parsed: by user key, then newest first. */
  predicate ParsedLess(ul: KeyLess, p: Parsed, q: Parsed) {
    || ul(p.userKey, q.userKey)
    || (SameUser(ul, p.userKey, q.userKey) && Pack(p.seqno, p.kind) > Pack(q.seqno, q.kind))
  }

  lemma InternalLessIs(ul: KeyLess, p: Parsed, q: Parsed)
    requires p.seqno <= MAX_SEQUENCE && q.seqno <= MAX_SEQUENCE
    ensures InternalLess(ul, InternalKey(p), InternalKey(q)) <==> ParsedLess(ul, p, q)
  {
    TagOf(p);
    TagOf(q);
  }

  /** The largest tag: a key carrying it sorts before every other key of its user key. */
  const SEEK_TAG: nat := 0xffff_ffff_ffff_ff01

  lemma SeekKey(user: bytes)
    ensures UserKey(user + Fixed64(SEEK_TAG)) == user && Tag(user + Fixed64(SEEK_TAG)) == SEEK_TAG
  {
    var k := user + Fixed64(SEEK_TAG);
    assert k[|k| - 8..] == Fixed64(SEEK_TAG) + [];
    Fixed64RoundTrip(SEEK_TAG, []);
  }

  /** InternalKeyComparator::FindShortestSeparator: shortens the user part of start, and puts
      the tag of the earliest possible entry behind it. */
  function InternalSeparator(uc: Comparator, start: bytes, limit: bytes): bytes {
    if Shortens(uc, start, limit) then uc.separator(UserKey(start), UserKey(limit)) + Fixed64(SEEK_TAG) else start
  }

  predicate Shortens(uc: Comparator, start: bytes, limit: bytes) {
    var tmp := uc.separator(UserKey(start), UserKey(limit));
    |tmp| < |UserKey(start)| && uc.less(UserKey(start), tmp)
  }

  function InternalSuccessor(uc: Comparator, key: bytes): bytes {
    var tmp := uc.successor(UserKey(key));
    if |tmp| < |UserKey(key)| && uc.less(UserKey(key), tmp) then tmp + Fixed64(SEEK_TAG) else key
  }

  /** A lawful user comparator that leaves a key alone when the limit is equal to it, of which
      the law of separators says nothing. */
  ghost predicate UserLawful(uc: Comparator) {
    && Lawful(uc)
    && forall a, b {:trigger uc.separator(a, b)} :: SameUser(uc.less, a, b) ==> !uc.less(a, uc.separator(a, b))
  }

  /** The separator lies in [start, limit), except exactly when the user keys are equal and the
      user comparator shortens one all the same. */
  lemma InternalSeparatorBetween(uc: Comparator, start: bytes, limit: bytes)
    requires Lawful(uc)
    ensures var ul, r := uc.less, InternalSeparator(uc, start, limit);
            && |r| <= |start|
            && (InternalLess(ul, start, limit) ==> !InternalLess(ul, r, start))
            && (InternalLess(ul, start, limit) ==>
                  (InternalLess(ul, r, limit) <==> !(SameUser(ul, UserKey(start), UserKey(limit)) && Shortens(uc, start, limit))))
  {
    var ul, us, um := uc.less, UserKey(start), UserKey(limit);
    var tmp, r := uc.separator(us, um), InternalSeparator(uc, start, limit);
    assert !ul(us, us);
    if Shortens(uc, start, limit) {
      SeekKey(tmp);
      assert !ul(tmp, us);
      if SameUser(ul, us, um) {
        Between(ul, us, tmp, um);
        assert !ul(tmp, um);
      }
    }
  }

  /** Start is replaced if and only if the user comparator makes its user key shorter and moves
      it back, and then by the first entry that the shorter user key can have. */
  lemma InternalSeparatorIs(uc: Comparator, start: bytes, limit: bytes)
    requires Lawful(uc)
    ensures var us, tmp, r := UserKey(start), uc.separator(UserKey(start), UserKey(limit)), InternalSeparator(uc, start, limit);
            && (r != start <==> |tmp| < |us| && uc.less(us, tmp))
            && (r != start ==> r == InternalKey(Parsed(tmp, MAX_SEQUENCE, Put)) && FirstOf(uc.less, tmp, r))
  {
    var us, tmp, r := UserKey(start), uc.separator(UserKey(start), UserKey(limit)), InternalSeparator(uc, start, limit);
    SeekKeyIs(tmp);
    SeekKeyIsFirst(uc.less, tmp);
    assert !uc.less(us, us);
  }

  /** The same of the successor. */
  lemma InternalSuccessorIs(uc: Comparator, key: bytes)
    requires Lawful(uc)
    ensures var u, tmp, r := UserKey(key), uc.successor(UserKey(key)), InternalSuccessor(uc, key);
            && (r != key <==> |tmp| < |u| && uc.less(u, tmp))
            && (r != key ==> r == InternalKey(Parsed(tmp, MAX_SEQUENCE, Put)) && FirstOf(uc.less, tmp, r))
  {
    var u, tmp := UserKey(key), uc.successor(UserKey(key));
    SeekKeyIs(tmp);
    SeekKeyIsFirst(uc.less, tmp);
    assert !uc.less(u, u);
  }

  /** No entry of the user key, at any sequence number, comes before r. */
  ghost predicate FirstOf(ul: KeyLess, user: bytes, r: bytes) {
    forall n: nat, kind: ValueType {:trigger Parsed(user, n, kind)} :: n <= MAX_SEQUENCE ==> !InternalLess(ul, InternalKey(Parsed(user, n, kind)), r)
  }

  lemma SeekKeyIs(user: bytes)
    ensures user + Fixed64(SEEK_TAG) == InternalKey(Parsed(user, MAX_SEQUENCE, Put))
  {
  }

  lemma SeekKeyIsFirst(ul: KeyLess, user: bytes)
    requires Ordered(ul)
    ensures FirstOf(ul, user, user + Fixed64(SEEK_TAG))
  {
    SeekKey(user);
    forall n: nat, kind: ValueType | n <= MAX_SEQUENCE
      ensures !InternalLess(ul, InternalKey(Parsed(user, n, kind)), user + Fixed64(SEEK_TAG))
    {
      TagOf(Parsed(user, n, kind));
      assert !ul(user, user);
    }
  }

  /** With the bytewise comparator a shortened separator has the shortest user key there is: no
      internal key in [start, limit) has a shorter one. */
  lemma InternalSeparatorIsShortest(start: bytes, limit: bytes, k: bytes)
    requires InternalSeparator(BytewiseComparator(), start, limit) != start
    requires !InternalLess(BytewiseComparator().less, k, start) && InternalLess(BytewiseComparator().less, k, limit)
    ensures |UserKey(InternalSeparator(BytewiseComparator(), start, limit))| <= |UserKey(k)|
  {
    var us, um, uk := UserKey(start), UserKey(limit), UserKey(k);
    SeekKey(ShortestSeparator(us, um));
    BytewiseAsymmetric(uk, us);
    BytewiseAsymmetric(uk, um);
    if BytewiseLess(uk, um) {
      SeparatorIsShortest(us, um, uk);
    }
  }

  lemma InternalSuccessorBehind(uc: Comparator, key: bytes)
    requires Lawful(uc)
    ensures var r := InternalSuccessor(uc, key); |r| <= |key| && !InternalLess(uc.less, r, key)
  {
    var u := UserKey(key);
    assert !uc.less(u, u);
    SeekKey(uc.successor(u));
  }

  function InternalComparator(uc: Comparator): Comparator {
    Comparator((a: bytes, b: bytes) => InternalLess(uc.less, a, b),
               (start: bytes, limit: bytes) => InternalSeparator(uc, start, limit),
               (key: bytes) => InternalSuccessor(uc, key))
  }

  /** Over every such user comparator. */
  lemma InternalIsLawful(uc: Comparator)
    requires UserLawful(uc)
    ensures Lawful(InternalComparator(uc))
  {
    var c := InternalComparator(uc);
    forall a, b, k | InternalLess(uc.less, a, b)
      ensures !c.less(b, a) && (c.less(a, k) || c.less(k, b))
    {
      InternalBetween(uc.less, a, b, k);
    }
    forall a, b | InternalLess(uc.less, a, b)
      ensures !c.less(c.separator(a, b), a) && c.less(c.separator(a, b), b)
    {
      InternalSeparatorBetween(uc, a, b);
      assert SameUser(uc.less, UserKey(a), UserKey(b)) ==> !uc.less(UserKey(a), uc.separator(UserKey(a), UserKey(b)));
    }
    forall a
      ensures !c.less(c.successor(a), a)
    {
      InternalSuccessorBehind(uc, a);
    }
  }

  lemma BytewiseIsUserLawful()
    ensures UserLawful(BytewiseComparator())
  {
    BytewiseIsLawful();
    var c := BytewiseComparator();
    forall a, b | SameUser(c.less, a, b)
      ensures !c.less(a, c.separator(a, b))
    {
      BytewiseAsymmetric(a, b);
      BytewiseAsymmetric(a, a);
    }
  }

  /** Not before start and, when start is before limit, before limit exactly unless the user keys
      are equal and shortened all the same. */
  method InternalShortestSeparator(uc: Comparator, start: bytes, limit: bytes) returns (r: bytes)
    requires 8 <= |start| && 8 <= |limit| && Lawful(uc)
    ensures r == InternalSeparator(uc, start, limit) && |r| <= |start|
    ensures InternalLess(uc.less, start, limit) ==>
              && !InternalLess(uc.less, r, start)
              && (InternalLess(uc.less, r, limit)
                  <==> !(SameUser(uc.less, UserKey(start), UserKey(limit)) && Shortens(uc, start, limit)))
  {
    InternalSeparatorBetween(uc, start, limit);
    r := start;
    var tmp := uc.separator(UserKey(start), UserKey(limit));
    if |tmp| < |UserKey(start)| && uc.less(UserKey(start), tmp) {
      r := tmp + Fixed64(SEEK_TAG);
    }
  }

  /** Not before the key. */
  method InternalShortSuccessor(uc: Comparator, key: bytes) returns (r: bytes)
    requires 8 <= |key| && Lawful(uc)
    ensures r == InternalSuccessor(uc, key) && |r| <= |key| && !InternalLess(uc.less, r, key)
  {
    InternalSuccessorBehind(uc, key);
    r := key;
    var tmp := uc.successor(UserKey(key));
    if |tmp| < |UserKey(key)| && uc.less(UserKey(key), tmp) {
      r := tmp + Fixed64(SEEK_TAG);
    }
  }

  // ---- a separator out of bounds --------------------------------------------------------

  /** The bytewise comparator, with a separator that is free where start is not before limit. */
  function LooseComparator(): Comparator {
    Comparator((a: bytes, b: bytes) => BytewiseLess(a, b),
               (start: bytes, limit: bytes) => if BytewiseLess(start, limit) then ShortestSeparator(start, limit) else [1],
               (key: bytes) => ShortSuccessor(key))
  }

  lemma LooseIsLawful()
    ensures Lawful(LooseComparator())
  {
    var c := LooseComparator();
    forall a, b
      ensures c.less(a, b) ==> !c.less(b, a) && !c.less(c.separator(a, b), a) && c.less(c.separator(a, b), b)
    {
      BytewiseAsymmetric(a, b);
      SeparatorBetween(a, b);
    }
    forall a, b, k | BytewiseLess(a, b)
      ensures BytewiseLess(a, k) || BytewiseLess(k, b)
    {
      BytewiseBetween(a, b, k);
    }
    forall a
      ensures !c.less(c.successor(a), a)
    {
      SuccessorBehind(a);
    }
  }

  /** Over that lawful comparator, user key [0, 0] at sequence numbers 2 and 1: the separator of
      the two internal keys is not before the second. */
  lemma SeparatorLeavesBounds()
    ensures var uc, start, limit := LooseComparator(), InternalKey(Parsed([0, 0], 2, Put)), InternalKey(Parsed([0, 0], 1, Put));
            && Lawful(uc) && InternalLess(uc.less, start, limit)
            && !InternalLess(uc.less, InternalSeparator(uc, start, limit), limit)
  {
    var uc, p, q := LooseComparator(), Parsed([0, 0], 2, Put), Parsed([0, 0], 1, Put);
    LooseIsLawful();
    BytewiseAsymmetric([0, 0], [0, 0]);
    InternalLessIs(uc.less, p, q);
    TagOf(p);
    TagOf(q);
    assert uc.separator([0, 0], [0, 0]) == [1];
    InternalSeparatorBetween(uc, InternalKey(p), InternalKey(q));
  }
}
