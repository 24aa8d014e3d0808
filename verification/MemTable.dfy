/** MemTable (db/memtable.cpp): a multi-version map kept in a skip list of encoded entries. */
module MemTables {
  import opened Coding
  import opened DbFormat
  import opened Cursors
  import SkipListMemory
  import opened SkipLists

  /** One Add: an internal key and its value. */
  datatype Record = Record(key: Parsed, value: bytes)

  /** How records lie in memory, what Get seeks with, the skip list's comparator, and how Get
      takes an entry apart. */
  datatype MemCodec = MemCodec(encode: Record -> bytes, probe: (bytes, nat) -> bytes,
                               less: (bytes, bytes) -> bool, decode: bytes -> Record)

  ghost predicate Fits(r: Record) {
    r.key.seqno <= MAX_SEQUENCE && |r.key.userKey| + 8 < TWO32 && |r.value| < TWO32
  }

  /** What the memtable relies on, over a user comparator. */
  ghost predicate Lawful(ul: KeyLess, cd: MemCodec) {
    && Ordered(ul) && SkipListMemory.StrictWeakOrder(cd.less)
    && (forall r, q :: Fits(r) && Fits(q) ==> (cd.less(cd.encode(r), cd.encode(q)) <==> ParsedLess(ul, r.key, q.key)))
    && (forall r: Record, u: bytes, s: nat {:trigger cd.less(cd.encode(r), cd.probe(u, s))} ::
          Fits(r) && |u| + 8 < TWO32 && s <= MAX_SEQUENCE ==>
            (cd.less(cd.encode(r), cd.probe(u, s)) <==> ParsedLess(ul, r.key, Parsed(u, s, Put))))
    && (forall r :: Fits(r) ==> cd.decode(cd.encode(r)) == r)
  }

  /** The skip list's condition on its comparator is the one on user comparators. */
  lemma OrderedIsWeak(lt: KeyLess)
    ensures Ordered(lt) <==> SkipListMemory.StrictWeakOrder(lt)
  {
    if Ordered(lt) {
      forall a, b, c | lt(a, b)
        ensures lt(a, c) || lt(c, b)
      {
        Between(lt, a, b, c);
      }
    }
  }

  /** What Get reports: a value, a NotFound status, or false. */
  datatype Answer = Found(value: bytes) | Deleted | Absent

  /** r is an entry for user key u that a reader at snapshot s can see. */
  ghost predicate Visible(ul: KeyLess, r: Record, u: bytes, s: nat) {
    SameUser(ul, r.key.userKey, u) && r.key.seqno <= s
  }

  /** r is the first visible entry in descending (sequence, type) order. */
  ghost predicate Newest(ul: KeyLess, records: set<Record>, u: bytes, s: nat, r: Record) {
    && r in records && Visible(ul, r, u, s)
    && forall q :: q in records && Visible(ul, q, u, s) ==> Pack(q.key.seqno, q.key.kind) <= Pack(r.key.seqno, r.key.kind)
  }

  ghost predicate Answers(ul: KeyLess, records: set<Record>, u: bytes, s: nat, a: Answer) {
    match a
    case Absent => forall r :: r in records ==> !Visible(ul, r, u, s)
    case Deleted => exists r :: Newest(ul, records, u, s, r) && r.key.kind.Deletion?
    case Found(v) => exists r :: Newest(ul, records, u, s, r) && r.key.kind.Put? && r.value == v
  }

  /** The same user key, sequence number and type. */
  ghost predicate SameTriple(ul: KeyLess, p: Parsed, q: Parsed) {
    SameUser(ul, p.userKey, q.userKey) && p.seqno == q.seqno && p.kind == q.kind
  }

  ghost predicate DistinctKeys(ul: KeyLess, records: set<Record>) {
    forall r, q :: r in records && q in records && SameTriple(ul, r.key, q.key) ==> r == q
  }

  lemma PackInjective(a: nat, t: ValueType, b: nat, u: ValueType)
    requires Pack(a, t) == Pack(b, u)
    ensures a == b && t == u
  {
    Unpack(a, t);
    Unpack(b, u);
  }

  /** The answer is determined by the records. */
  lemma AnswerIsUnique(ul: KeyLess, records: set<Record>, u: bytes, s: nat, a: Answer, b: Answer)
    requires Ordered(ul) && DistinctKeys(ul, records) && Answers(ul, records, u, s, a) && Answers(ul, records, u, s, b)
    ensures a == b
  {
    forall r, q | Newest(ul, records, u, s, r) && Newest(ul, records, u, s, q)
      ensures r == q
    {
      PackInjective(r.key.seqno, r.key.kind, q.key.seqno, q.key.kind);
      SameUserTransitive(ul, r.key.userKey, u, q.key.userKey);
      assert SameTriple(ul, r.key, q.key);
    }
  }

  /** The first entry not before the lookup key decides the answer. */
  lemma SeekDecides(ul: KeyLess, records: set<Record>, u: bytes, s: nat, r: Record)
    requires Ordered(ul) && r in records && !ParsedLess(ul, r.key, Parsed(u, s, Put))
    requires forall q :: q in records && !ParsedLess(ul, q.key, Parsed(u, s, Put)) ==> !ParsedLess(ul, q.key, r.key)
    ensures if SameUser(ul, r.key.userKey, u) then Newest(ul, records, u, s, r)
            else forall q :: q in records ==> !Visible(ul, q, u, s)
  {
    forall q | q in records && Visible(ul, q, u, s)
      ensures SameUser(ul, r.key.userKey, u) && Pack(q.key.seqno, q.key.kind) <= Pack(r.key.seqno, r.key.kind)
    {
      assert !ParsedLess(ul, q.key, Parsed(u, s, Put));
      VisibleIsFirst(ul, q.key, r.key, u);
    }
  }

  /** An entry of user key u is not after the first entry r, so r is one of u. */
  lemma VisibleIsFirst(ul: KeyLess, q: Parsed, r: Parsed, u: bytes)
    requires Ordered(ul) && SameUser(ul, q.userKey, u) && !ul(r.userKey, u) && !ParsedLess(ul, q, r)
    ensures SameUser(ul, r.userKey, u) && Pack(q.seqno, q.kind) <= Pack(r.seqno, r.kind)
  {
    if ul(u, r.userKey) {
      Between(ul, u, r.userKey, q.userKey);
    } else {
      SameUserTransitive(ul, q.userKey, u, r.userKey);
    }
  }

  lemma ParsedTotal(ul: KeyLess, p: Parsed, q: Parsed)
    requires Ordered(ul) && !SameTriple(ul, p, q)
    ensures ParsedLess(ul, p, q) || ParsedLess(ul, q, p)
  {
    if SameUser(ul, p.userKey, q.userKey) {
      Unpack(p.seqno, p.kind);
      Unpack(q.seqno, q.kind);
    }
  }

  // ---- the encoding of entries ----------------------------------------------------------

  /** Add's buffer: length-prefixed internal key, length-prefixed value. */
  function EntryOf(r: Record): bytes {
    Varint(|r.key.userKey| + 8) + InternalKey(r.key) + (Varint(|r.value|) + r.value)
  }

  /** LookupKey::memtable_key. */
  function Probe(u: bytes, s: nat): bytes {
    Varint(|u| + 8) + InternalKey(Parsed(u, s, Put))
  }

  /** GetLengthPrefixedSlice, and how many bytes it spans; an unreadable slice is empty. */
  function PrefixedSlice(b: bytes): (bytes, nat) {
    var d := Truncated(DecodeVarint(b, 5), TWO32);
    if d.None? || d.value.1 + d.value.0 > |b| then ([], 0)
    else (b[d.value.1..d.value.1 + d.value.0], d.value.1 + d.value.0)
  }

  /** MemTable::KeyComparator. */
  predicate EntryLess(ul: KeyLess, a: bytes, b: bytes) {
    InternalLess(ul, PrefixedSlice(a).0, PrefixedSlice(b).0)
  }

  /** How Get takes an entry apart. */
  function TakeApart(e: bytes): Record {
    var k := PrefixedSlice(e);
    var p := ParseInternalKey(k.0);
    var v := if k.1 <= |e| then PrefixedSlice(e[k.1..]).0 else [];
    Record(if p.Some? then p.value else Parsed(UserKey(k.0), Tag(k.0) / 256, Deletion), v)
  }

  lemma PrefixedReads(x: bytes, rest: bytes)
    requires |x| < TWO32
    ensures PrefixedSlice(Varint(|x|) + x + rest) == (x, |Varint(|x|)| + |x|)
  {
    Varint32RoundTrip(|x|, x + rest);
    Prefix3(Varint(|x|), x, rest);
  }

  lemma Prefix3(n: bytes, x: bytes, rest: bytes)
    ensures n + x + rest == n + (x + rest)
    ensures (n + x + rest)[|n|..|n| + |x|] == x
    ensures (n + x + rest)[|n| + |x|..] == rest
  {
  }

  lemma EntryKey(r: Record)
    requires Fits(r)
    ensures PrefixedSlice(EntryOf(r)).0 == InternalKey(r.key)
  {
    PrefixedReads(InternalKey(r.key), Varint(|r.value|) + r.value);
  }

  lemma ProbeKey(u: bytes, s: nat)
    requires |u| + 8 < TWO32
    ensures PrefixedSlice(Probe(u, s)).0 == InternalKey(Parsed(u, s, Put))
  {
    PrefixedReads(InternalKey(Parsed(u, s, Put)), []);
    assert Probe(u, s) + [] == Probe(u, s);
  }

  lemma TakesApart(r: Record)
    requires Fits(r)
    ensures TakeApart(EntryOf(r)) == r
  {
    var ik, tail := InternalKey(r.key), Varint(|r.value|) + r.value;
    PrefixedReads(ik, tail);
    Prefix3(Varint(|ik|), ik, tail);
    PrefixedReads(r.value, []);
    assert tail + [] == tail;
    ParseRoundTrip(r.key);
  }

  function BufferCodec(ul: KeyLess): MemCodec {
    MemCodec((r: Record) => EntryOf(r), (u: bytes, s: nat) => Probe(u, s),
             (a: bytes, b: bytes) => EntryLess(ul, a, b), (e: bytes) => TakeApart(e))
  }

  lemma EntryLessOrders(ul: KeyLess, a: bytes, b: bytes, c: bytes)
    requires Ordered(ul) && EntryLess(ul, a, b)
    ensures !EntryLess(ul, b, a) && (EntryLess(ul, a, c) || EntryLess(ul, c, b))
  {
    InternalBetween(ul, PrefixedSlice(a).0, PrefixedSlice(b).0, PrefixedSlice(c).0);
  }

  /** The program's buffers and comparator, over every user comparator. */
  lemma BufferCodecIsLawful(ul: KeyLess)
    requires Ordered(ul)
    ensures Lawful(ul, BufferCodec(ul))
  {
    var cd := BufferCodec(ul);
    forall a, b, c | EntryLess(ul, a, b)
      ensures !cd.less(b, a) && (cd.less(a, c) || cd.less(c, b))
    {
      EntryLessOrders(ul, a, b, c);
    }
    forall r, q | Fits(r) && Fits(q)
      ensures cd.less(cd.encode(r), cd.encode(q)) <==> ParsedLess(ul, r.key, q.key)
    {
      EntryKey(r);
      EntryKey(q);
      InternalLessIs(ul, r.key, q.key);
    }
    forall r: Record, u: bytes, s: nat | Fits(r) && |u| + 8 < TWO32 && s <= MAX_SEQUENCE
      ensures cd.less(cd.encode(r), cd.probe(u, s)) <==> ParsedLess(ul, r.key, Parsed(u, s, Put))
    {
      EntryKey(r);
      ProbeKey(u, s);
      InternalLessIs(ul, r.key, Parsed(u, s, Put));
    }
    forall r | Fits(r)
      ensures cd.decode(cd.encode(r)) == r
    {
      TakesApart(r);
    }
  }

  /** The encodings of these records, and nothing else. */
  ghost predicate Holds(cd: MemCodec, records: set<Record>, keys: set<bytes>) {
    && (forall r :: r in records ==> Fits(r) && cd.encode(r) in keys)
    && (forall k :: k in keys ==> exists r :: r in records && k == cd.encode(r))
  }

  /** Get's reading of the entry that Seek found, if any. */
  function Reading(ul: KeyLess, cd: MemCodec, user: bytes, found: Option<bytes>): Answer {
    if found.None? then Absent
    else
      var r := cd.decode(found.value);
      if !SameUser(ul, r.key.userKey, user) then Absent
      else match r.key.kind case Put => Found(r.value) case Deletion => Deleted
  }

  /** Where Seek of the lookup key lands, that reading is the answer. */
  lemma ReadingAnswers(ul: KeyLess, cd: MemCodec, records: set<Record>, keys: set<bytes>, user: bytes, s: nat, found: Option<bytes>)
    requires Lawful(ul, cd) && Holds(cd, records, keys) && |user| + 8 < TWO32 && s <= MAX_SEQUENCE
    requires found.None? ==> forall k :: k in keys ==> cd.less(k, cd.probe(user, s))
    requires found.Some? ==> found.value in keys && !cd.less(found.value, cd.probe(user, s))
    requires found.Some? ==> forall k :: k in keys && !cd.less(k, cd.probe(user, s)) ==> !cd.less(k, found.value)
    ensures Answers(ul, records, user, s, Reading(ul, cd, user, found))
  {
    var p := Parsed(user, s, Put);
    if found.None? {
      forall r | r in records
        ensures !Visible(ul, r, user, s)
      {
        assert cd.less(cd.encode(r), cd.probe(user, s));
      }
    } else {
      var r :| r in records && found.value == cd.encode(r);
      assert !cd.less(cd.encode(r), cd.probe(user, s));
      forall q | q in records && !ParsedLess(ul, q.key, p)
        ensures !ParsedLess(ul, q.key, r.key)
      {
        assert !cd.less(cd.encode(q), cd.probe(user, s));
      }
      SeekDecides(ul, records, user, s, r);
    }
  }

  class MemTable {
    const ul: KeyLess
    const cd: MemCodec
    const table: SkipList<bytes>
    ghost var records: set<Record>

    ghost predicate Valid()
      reads this, table
    {
      && Lawful(ul, cd) && table.Valid() && table.lt == cd.less
      && DistinctKeys(ul, records) && Holds(cd, records, table.Contents())
    }

    constructor (ul: KeyLess, cd: MemCodec)
      requires Lawful(ul, cd)
      ensures Valid() && fresh(table) && records == {} && this.ul == ul && this.cd == cd
    {
      this.ul, this.cd := ul, cd;
      table := new SkipList<bytes>(cd.less);
      records := {};
    }

    /** No two Adds carry the same user key, sequence number and type. */
    method Add(key: Parsed, value: bytes, height: nat)
      requires Valid() && Fits(Record(key, value)) && 1 <= height <= SkipListMemory.MAX_HEIGHT
      requires forall r :: r in records ==> !SameTriple(ul, r.key, key)
      modifies this, table
      ensures Valid() && records == old(records) + {Record(key, value)}
    {
      var e := cd.encode(Record(key, value));
      forall k | k in table.Contents()
        ensures !SkipListMemory.Equal(table.lt, k, e)
      {
        var r :| r in records && k == cd.encode(r);
        ParsedTotal(ul, r.key, key);
      }
      table.Insert(e, height);
      AddsOne(ul, records, Record(key, value));
      records := records + {Record(key, value)};
    }

    method Get(user: bytes, snapshot: nat) returns (a: Answer)
      requires Valid() && |user| + 8 < TWO32 && snapshot <= MAX_SEQUENCE
      ensures Answers(ul, records, user, snapshot, a)
    {
      var it := new Iterator<bytes>(table);
      it.Seek(cd.probe(user, snapshot));
      var found := if it.Valid() then Some(it.Key()) else None;
      ReadingAnswers(ul, cd, records, table.Contents(), user, snapshot, found);
      a := Reading(ul, cd, user, found);
    }
  }

  lemma AddsOne(ul: KeyLess, records: set<Record>, r: Record)
    requires DistinctKeys(ul, records) && forall q :: q in records ==> !SameTriple(ul, q.key, r.key)
    ensures DistinctKeys(ul, records + {r})
  {
    forall q | q in records
      ensures !SameTriple(ul, r.key, q.key)
    {
      assert !SameTriple(ul, q.key, r.key);
    }
  }
}
