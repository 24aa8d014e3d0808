/** MemTable::Get while the writer adds (db/memtable.cpp, db/skiplist.h). */
module MemTableConcurrent {
  import opened Coding
  import opened Cursors
  import opened DbFormat
  import opened MemTables
  import SkipListMemory
  import opened SkipListConcurrent

  /** The writer inserts encoded records only. */
  ghost predicate AddsRecords(cd: MemCodec, acts: seq<Action<bytes>>) {
    forall n :: 0 <= n < |acts| && acts[n].BeginInsert? ==> IsEncoding(cd)(acts[n].key)
  }

  ghost function IsEncoding(cd: MemCodec): bytes -> bool {
    (k: bytes) => exists r: Record :: Fits(r) && k == cd.encode(r)
  }

  /** The records whose entries are in the level-0 list. */
  ghost function RecordsIn(cd: MemCodec, keys: set<bytes>): set<Record> {
    set k | k in keys :: cd.decode(k)
  }

  lemma RecordsAreHeld(ul: KeyLess, cd: MemCodec, keys: set<bytes>)
    requires Lawful(ul, cd) && forall k :: k in keys ==> IsEncoding(cd)(k)
    ensures MemTables.Holds(cd, RecordsIn(cd, keys), keys)
  {
    forall k | k in keys
      ensures Fits(cd.decode(k)) && cd.encode(cd.decode(k)) == k
    {
      var r: Record :| Fits(r) && k == cd.encode(r);
      assert cd.decode(cd.encode(r)) == r;
    }
    forall k | k in keys
      ensures exists r :: r in RecordsIn(cd, keys) && k == cd.encode(r)
    {
      assert cd.decode(k) in RecordsIn(cd, keys);
    }
  }

  /** The key of the node a search returned. */
  ghost function KeyAt(m: SkipListMemory.Memory<bytes>, result: SkipListMemory.Link): Option<bytes> {
    if result.To? && result.node < |m.nodes| && m.nodes[result.node].Item? then Some(m.nodes[result.node].key) else None
  }

  /** In every run, a Get that overlaps any steps of any Adds answers for the records visible at
      its last load, among which are all that were visible when it began. */
  lemma GetIsLinearizable(ul: KeyLess, cd: MemCodec, trace: seq<State<bytes>>, acts: seq<Action<bytes>>,
                          i: nat, j: nat, r: nat, user: bytes, s: nat)
    requires Lawful(ul, cd) && IsRun(cd.less, trace, acts) && AddsRecords(cd, acts)
    requires |user| + 8 < TWO32 && s <= MAX_SEQUENCE
    requires WalksFrom(trace, acts, i, j, r, AtOrAfter(cd.probe(user, s)))
    requires j + 1 < |trace| && acts[j] == ReaderStep(r)
    requires r < |trace[j + 1].readers| && trace[j + 1].readers[r].Done?
    ensures StateInv(cd.less, trace[i]) && StateInv(cd.less, trace[j])
    ensures var found := KeyAt(trace[j].mem, trace[j + 1].readers[r].result);
            MemTables.Answers(ul, RecordsIn(cd, SkipListConcurrent.Visible(trace[j])), user, s, Reading(ul, cd, user, found))
    ensures SkipListConcurrent.Visible(trace[i]) <= SkipListConcurrent.Visible(trace[j])
  {
    RunKeepsInv(cd.less, trace, acts, i);
    ReadIsLinearizable(cd.less, trace, acts, i, j, r, AtOrAfter(cd.probe(user, s)));
    OnlyInserted(cd.less, trace, acts, IsEncoding(cd), j);
    var keys := SkipListConcurrent.Visible(trace[j]);
    RecordsAreHeld(ul, cd, keys);
    SeekFound(cd, trace[j].mem, Linked(trace[j].writer), cd.probe(user, s), trace[j + 1].readers[r].result);
    ReadingAnswers(ul, cd, RecordsIn(cd, keys), keys, user, s, KeyAt(trace[j].mem, trace[j + 1].readers[r].result));
    VisibleGrows(cd.less, trace[i], trace[j]);
  }

  lemma VisibleGrows(lt: (bytes, bytes) -> bool, s: State<bytes>, t: State<bytes>)
    requires StateInv(lt, s) && StateInv(lt, t) && Grows(s, t)
    ensures SkipListConcurrent.Visible(s) <= SkipListConcurrent.Visible(t)
  {
    forall k | k in SkipListConcurrent.Visible(s)
      ensures k in SkipListConcurrent.Visible(t)
    {
      var n :| 0 < n < |s.mem.nodes| && SkipListMemory.Published(s.mem, Linked(s.writer), n, 0) && s.mem.nodes[n].key == k;
      assert SkipListMemory.Published(t.mem, Linked(t.writer), n, 0);
    }
  }

  /** What a search returns, in terms of the visible keys. */
  lemma SeekFound(cd: MemCodec, m: SkipListMemory.Memory<bytes>, done: nat, target: bytes, result: SkipListMemory.Link)
    requires SkipListMemory.StrictWeakOrder(cd.less) && SkipListMemory.Inv(cd.less, m, done)
    requires SkipListConcurrent.Answers(cd.less, m, done, AtOrAfter(target), result)
    ensures var found, keys := KeyAt(m, result), SkipListMemory.Keys(m, done);
            && (found.None? ==> forall k :: k in keys ==> cd.less(k, target))
            && (found.Some? ==> found.value in keys && !cd.less(found.value, target))
            && (found.Some? ==> forall k :: k in keys && !cd.less(k, target) ==> !cd.less(k, found.value))
  {
    var keys := SkipListMemory.Keys(m, done);
    forall k | k in keys && result.To? && !cd.less(k, target)
      ensures !cd.less(k, m.nodes[result.node].key)
    {
      var n :| 0 < n < |m.nodes| && SkipListMemory.Published(m, done, n, 0) && m.nodes[n].key == k;
    }
  }
}
