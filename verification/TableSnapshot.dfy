/** Reading a table at a snapshot: entries under internal keys (db/dbformat.cpp), looked up by
    Table::InternalGet (table/table.cpp).  InternalGet looks in one block only; that is enough
    for every user key, because a shortened index key has a user key strictly between those of
    the two blocks. */
module TableSnapshots {
  import opened Coding
  import opened Cursors
  import Comparators
  import opened DbFormat
  import EntryCodec
  import FilterBlocks
  import TwoLevelIterators
  import opened TableFormat
  import opened TableImages
  import opened Tables

  /** Every key is an internal key. */
  ghost predicate Versions(entries: seq<Entry>) {
    forall q :: 0 <= q < |entries| ==> ParseInternalKey(entries[q].key).Some?
  }

  function LookupKey(user: bytes, snapshot: nat): bytes { InternalKey(Parsed(user, snapshot, Put)) }

  /** Entry q is one of the user key that a reader at the snapshot can see. */
  ghost predicate VisibleAt(ul: KeyLess, entries: seq<Entry>, user: bytes, snapshot: nat, q: nat) {
    q < |entries| && SameUser(ul, UserKey(entries[q].key), user) && Tag(entries[q].key) / 256 <= snapshot
  }

  /** And the first of them in descending (sequence, type) order. */
  ghost predicate NewestAt(ul: KeyLess, entries: seq<Entry>, user: bytes, snapshot: nat, q: nat) {
    && VisibleAt(ul, entries, user, snapshot, q)
    && forall p: nat :: VisibleAt(ul, entries, user, snapshot, p) ==> Tag(entries[p].key) <= Tag(entries[q].key)
  }

  /** An entry of the user key is visible exactly when it is not before the lookup key. */
  lemma VisibleIsAtLeast(ul: KeyLess, key: bytes, user: bytes, snapshot: nat)
    requires ParseInternalKey(key).Some? && snapshot <= MAX_SEQUENCE && SameUser(ul, UserKey(key), user)
    ensures Tag(key) / 256 <= snapshot <==> !InternalLess(ul, key, LookupKey(user, snapshot))
  {
    TagOf(Parsed(user, snapshot, Put));
  }

  /** An entry not before the lookup key, and not after an entry of the user key, is one. */
  lemma BetweenIsUser(ul: KeyLess, a: bytes, b: bytes, user: bytes, snapshot: nat)
    requires Ordered(ul) && snapshot <= MAX_SEQUENCE && SameUser(ul, UserKey(b), user)
    requires InternalLess(ul, a, b) && !InternalLess(ul, a, LookupKey(user, snapshot))
    ensures SameUser(ul, UserKey(a), user) && Tag(a) > Tag(b)
  {
    TagOf(Parsed(user, snapshot, Put));
    if ul(UserKey(a), UserKey(b)) {
      Between(ul, UserKey(a), UserKey(b), user);
    } else {
      SameUserTransitive(ul, UserKey(a), UserKey(b), user);
    }
  }

  /** The first entry not before the lookup key is the newest visible one, if any is visible. */
  lemma FirstIsNewest(uc: Comparators.Comparator, entries: seq<Entry>, user: bytes, snapshot: nat, q: nat)
    requires Ordered(uc.less) && snapshot <= MAX_SEQUENCE && Versions(entries)
    requires Sorted(InternalComparator(uc).less, entries) && VisibleAt(uc.less, entries, user, snapshot, q)
    ensures var first := FirstAtLeast(InternalComparator(uc).less, entries, LookupKey(user, snapshot));
            NewestAt(uc.less, entries, user, snapshot, first)
  {
    var lt, key := InternalComparator(uc).less, LookupKey(user, snapshot);
    var first := FirstAtLeast(lt, entries, key);
    forall p: nat | VisibleAt(uc.less, entries, user, snapshot, p)
      ensures VisibleAt(uc.less, entries, user, snapshot, first) && Tag(entries[p].key) <= Tag(entries[first].key)
    {
      VisibleIsAtLeast(uc.less, entries[p].key, user, snapshot);
      assert first <= p;
      if first < p {
        assert lt(entries[first].key, entries[p].key);
        BetweenIsUser(uc.less, entries[first].key, entries[p].key, user, snapshot);
        VisibleIsAtLeast(uc.less, entries[first].key, user, snapshot);
      }
    }
  }

  /** Two entries cannot both be the newest. */
  lemma NewestIsOne(uc: Comparators.Comparator, entries: seq<Entry>, user: bytes, snapshot: nat, p: nat, q: nat)
    requires Ordered(uc.less) && Sorted(InternalComparator(uc).less, entries)
    requires NewestAt(uc.less, entries, user, snapshot, p) && NewestAt(uc.less, entries, user, snapshot, q)
    ensures p == q
  {
    var lt, ul := InternalComparator(uc).less, uc.less;
    SameUserTransitive(ul, UserKey(entries[p].key), user, UserKey(entries[q].key));
    assert !lt(entries[p].key, entries[q].key) && !lt(entries[q].key, entries[p].key);
  }

  /** An index key derived from two neighbouring entries: no key of the second one's user key
      lies between the first entry and it. */
  lemma SeparatorSkipsNoUser(uc: Comparators.Comparator, last: bytes, next: bytes, key: bytes)
    requires UserLawful(uc) && InternalLess(uc.less, last, next) && SameUser(uc.less, UserKey(next), UserKey(key))
    requires InternalLess(uc.less, last, key)
    ensures InternalLess(uc.less, InternalSeparator(uc, last, next), key)
  {
    var ul, us, un := uc.less, UserKey(last), UserKey(next);
    var tmp := uc.separator(us, un);
    if Shortens(uc, last, next) {
      assert SameUser(ul, us, un) ==> !ul(us, uc.separator(us, un));
      assert ul(tmp, un);
      SeekKey(tmp);
      Between(ul, tmp, un, UserKey(key));
    }
  }

  /** The index key of a block behind which the first entry of a user key lies. */
  lemma IndexKeyIsBefore(uc: Comparators.Comparator, entries: seq<Entry>, chunks: seq<Chunk>, index: seq<Entry>, key: bytes, i: nat)
    requires UserLawful(uc) && Sorted(InternalComparator(uc).less, entries)
    requires Derived(InternalComparator(uc), entries, chunks, index, Final(InternalComparator(uc), entries))
    requires i < |index| && i < |chunks| && 0 < chunks[i].end < |entries|
    requires InternalLess(uc.less, entries[chunks[i].end - 1].key, key)
    requires SameUser(uc.less, UserKey(entries[chunks[i].end].key), UserKey(key))
    ensures InternalLess(uc.less, index[i].key, key)
  {
    var cmp, first := InternalComparator(uc), chunks[i].end;
    assert UseDerived(0);
    assert DerivedAt(cmp, entries, chunks, index, Final(cmp, entries), i);
    assert cmp.less(entries[first - 1].key, entries[first].key);
    SeparatorSkipsNoUser(uc, entries[first - 1].key, entries[first].key, key);
  }

  /** The block that the index names holds the first entry, when that is of the user key. */
  lemma UserIsFound(fmt: Format, cd: EntryCodec.Codec, uc: Comparators.Comparator, file: bytes, entries: seq<Entry>,
                    chunks: seq<Chunk>, index: seq<Entry>, open: TwoLevelIterators.Opener, key: bytes)
    requires UserLawful(uc) && Ordered(InternalComparator(uc).less)
    requires Complete(fmt, cd, InternalComparator(uc).less, file, entries, chunks, index) && Opens(index, open, chunks)
    requires Derived(InternalComparator(uc), entries, chunks, index, Final(InternalComparator(uc), entries))
    requires var first := FirstAtLeast(InternalComparator(uc).less, entries, key);
             first < |entries| && SameUser(uc.less, UserKey(entries[first].key), UserKey(key))
    ensures var lt := InternalComparator(uc).less;
            var first, i := FirstAtLeast(lt, entries, key), FirstAtLeast(lt, index, key);
            && i < |chunks| && Begin(chunks, i) <= first < chunks[i].end
            && Found(lt, index, open, key) == Some(entries[first])
  {
    var cmp := InternalComparator(uc);
    var lt := cmp.less;
    var first, i := FirstAtLeast(lt, entries, key), FirstAtLeast(lt, index, key);
    FirstNearBlock(fmt, cd, lt, file, entries, chunks, index, open, key);
    if first == chunks[i].end {
      IndexKeyIsBefore(uc, entries, chunks, index, key, i);
    }
  }

  // ---- with a filter --------------------------------------------------------------------

  /** The policy does not tell apart what the user comparator finds equal: a comparator that
      ignores parts of keys needs a policy that ignores them too. */
  ghost predicate Respects(p: FilterBlocks.Policy, ul: KeyLess) {
    forall a, b, filter {:trigger p.matches(a, filter), p.matches(b, filter)} ::
      SameUser(ul, a, b) ==> p.matches(a, filter) == p.matches(b, filter)
  }

  /** The bytewise comparator finds only identical keys equal, so every policy respects it. */
  lemma BytewiseIsRespected(p: FilterBlocks.Policy)
    ensures Respects(p, Comparators.BytewiseComparator().less)
  {
    forall a, b | SameUser(Comparators.BytewiseComparator().less, a, b)
      ensures a == b
    {
      Comparators.BytewiseAsymmetric(a, b);
    }
  }

  /** Such a policy on user keys cannot tell internal keys of one user key apart. */
  lemma SameUserSameMatch(p: FilterBlocks.Policy, ul: KeyLess, filter: bytes, offset: nat, a: bytes, b: bytes)
    requires Respects(p, ul) && SameUser(ul, UserKey(a), UserKey(b))
    ensures FilterBlocks.KeyMayMatch(FilterBlocks.InternalPolicy(p), filter, offset, a)
            <==> FilterBlocks.KeyMayMatch(FilterBlocks.InternalPolicy(p), filter, offset, b)
  {
  }

  /** A policy that does not: lawful, but a comparator that finds [0] and [1] equal is not
      respected, and the filter of [0] rules out [1]. */
  lemma DisrespectHides()
    ensures var uc := Comparators.Comparator((a: bytes, b: bytes) => false, (a: bytes, b: bytes) => a, (a: bytes) => a);
            var p := PickyPolicy();
            UserLawful(uc) && FilterBlocks.Lawful(p) && SameUser(uc.less, [0], [1]) && !p.matches([1], p.create([[0]]))
  {
    var p := PickyPolicy();
    forall keys: seq<bytes>, k: bytes | k in keys
      ensures p.matches(k, p.create(keys))
    {
    }
  }

  function PickyPolicy(): FilterBlocks.Policy {
    FilterBlocks.Policy((keys: seq<bytes>) => if keys == [[0]] then [1] else [],
                        (key: bytes, filter: bytes) => filter != [1] || key == [0])
  }

  /** The filter is one on user keys, under a policy that respects the user comparator. */
  ghost predicate UserFilter(t: Table, uc: Comparators.Comparator, p: FilterBlocks.Policy)
    requires t.Valid()
  {
    t.filter.Some? ==>
      t.built.value.policy == FilterBlocks.InternalPolicy(p) && FilterBlocks.Lawful(p) && Respects(p, uc.less)
  }

  /** The index names a block for the key. */
  ghost predicate Reached(t: Table, key: bytes) {
    FirstAtLeast(t.lt, t.im.index.entries, key) < |t.im.index.entries|
  }

  /** And the filter does not rule the key out of it. */
  ghost predicate Admitted(t: Table, key: bytes)
    requires t.Valid() && Reached(t, key)
  {
    var i := FirstAtLeast(t.lt, t.im.index.entries, key);
    i < |t.im.chunks| && t.Admits(t.im.chunks[i].handle.offset, key)
  }

  /** The snapshot read.  The newest visible entry of the user key is handed out, if there is
      one, exactly when the filter admits the lookup key in its block, as a filter on user keys
      that respects the user comparator does; if there is none, nothing is handed out or an
      entry of another user key. */
  method SnapshotGet(t: Table, user: bytes, snapshot: nat, ghost uc: Comparators.Comparator, ghost p: FilterBlocks.Policy)
    returns (found: Option<Entry>)
    requires t.Valid() && UserLawful(uc) && t.lt == InternalComparator(uc).less && snapshot <= MAX_SEQUENCE
    requires Versions(t.entries)
    requires Derived(InternalComparator(uc), t.entries, t.im.chunks, t.im.index.entries, Final(InternalComparator(uc), t.entries))
    ensures forall q: nat :: NewestAt(uc.less, t.entries, user, snapshot, q) ==>
              && Reached(t, LookupKey(user, snapshot))
              && (found == Some(t.entries[q]) <==> Admitted(t, LookupKey(user, snapshot)))
              && (UserFilter(t, uc, p) ==> found == Some(t.entries[q]))
    ensures (forall q: nat :: !VisibleAt(uc.less, t.entries, user, snapshot, q)) ==>
              found.None? || !SameUser(uc.less, UserKey(found.value.key), user)
  {
    var key := LookupKey(user, snapshot);
    found := t.InternalGet(key);
    ghost var entries, lt := t.entries, t.lt;
    ghost var first := FirstAtLeast(lt, entries, key);
    SortedEntries(t);
    TagOf(Parsed(user, snapshot, Put));
    if found.Some? && SameUser(uc.less, UserKey(found.value.key), user) {
      VisibleIsAtLeast(uc.less, entries[first].key, user, snapshot);
      assert VisibleAt(uc.less, entries, user, snapshot, first);
    }
    forall q: nat | NewestAt(uc.less, entries, user, snapshot, q)
      ensures Reached(t, key) && (found == Some(entries[q]) <==> Admitted(t, key))
      ensures UserFilter(t, uc, p) ==> Admitted(t, key)
    {
      FirstIsNewest(uc, entries, user, snapshot, q);
      NewestIsOne(uc, entries, user, snapshot, q, first);
      NewestReached(t, user, snapshot, uc);
      if UserFilter(t, uc, p) {
        NewestAdmitted(t, user, snapshot, uc, p);
      }
    }
  }

  lemma SortedEntries(t: Table)
    requires t.Valid()
    ensures Sorted(t.lt, t.entries)
  {
    t.IndexIs();
  }

  /** The newest visible entry is in the block that the index names, and in reach of no other. */
  lemma NewestReached(t: Table, user: bytes, snapshot: nat, uc: Comparators.Comparator)
    requires t.Valid() && UserLawful(uc) && t.lt == InternalComparator(uc).less && snapshot <= MAX_SEQUENCE
    requires Derived(InternalComparator(uc), t.entries, t.im.chunks, t.im.index.entries, Final(InternalComparator(uc), t.entries))
    requires NewestAt(uc.less, t.entries, user, snapshot, FirstAtLeast(t.lt, t.entries, LookupKey(user, snapshot)))
    ensures var key := LookupKey(user, snapshot);
            var first, i := FirstAtLeast(t.lt, t.entries, key), FirstAtLeast(t.lt, t.im.index.entries, key);
            && Reached(t, key) && i < |t.im.chunks| && Begin(t.im.chunks, i) <= first < t.im.chunks[i].end
            && forall k: nat :: InReach(t.lt, t.entries, t.im.chunks, t.im.index.entries, key, k) <==> k == i
  {
    var key := LookupKey(user, snapshot);
    var entries, chunks, index := t.entries, t.im.chunks, t.im.index.entries;
    var open := Opener(t.fmt, t.cd, t.file, t.verify);
    TagOf(Parsed(user, snapshot, Put));
    t.IndexIs();
    UserIsFound(t.fmt, t.cd, uc, t.file, entries, chunks, index, open, key);
    FoundIsReach(t.fmt, t.cd, t.lt, t.file, entries, chunks, index, open, key);
    FoundExactly(t.fmt, t.cd, t.lt, t.file, entries, chunks, index, open, key);
  }

  lemma NewestAdmitted(t: Table, user: bytes, snapshot: nat, uc: Comparators.Comparator, p: FilterBlocks.Policy)
    requires t.Valid() && UserLawful(uc) && t.lt == InternalComparator(uc).less && snapshot <= MAX_SEQUENCE
    requires Derived(InternalComparator(uc), t.entries, t.im.chunks, t.im.index.entries, Final(InternalComparator(uc), t.entries))
    requires NewestAt(uc.less, t.entries, user, snapshot, FirstAtLeast(t.lt, t.entries, LookupKey(user, snapshot)))
    requires UserFilter(t, uc, p)
    ensures Reached(t, LookupKey(user, snapshot)) && Admitted(t, LookupKey(user, snapshot))
  {
    var key := LookupKey(user, snapshot);
    var entries, chunks, index := t.entries, t.im.chunks, t.im.index.entries;
    var first, i := FirstAtLeast(t.lt, entries, key), FirstAtLeast(t.lt, index, key);
    TagOf(Parsed(user, snapshot, Put));
    NewestReached(t, user, snapshot, uc);
    t.IndexIs();
    OpensChunk(t.fmt, t.cd, t.lt, t.file, t.verify, entries, chunks, index, i);
    if t.filter.Some? {
      FilterBlocks.InternalIsLawful(p);
      OpensTable(t.fmt, t.cd, t.lt, t.built, t.file, entries, t.im, t.verify);
      t.FilterIsFit();
      KeyIsAdmitted(t.built.value.policy, t.im.filter, entries, chunks, i, first);
      SameUserSameMatch(p, uc.less, t.im.filter, chunks[i].handle.offset, entries[first].key, key);
    }
  }
}
