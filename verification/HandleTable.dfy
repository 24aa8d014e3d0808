/** The cache's hash table (util/cache.cpp): an array of chains of handles linked through
    next_hash, refining a finite map from (hash, key) to handle. */
module HandleTables {
  import opened Coding

  /** A cache entry. `next` and `prev` link the recency list, `nextHash` a chain. */
  class LRUHandle {
    const key: bytes
    const hash: nat
    const value: nat
    const charge: nat
    var next: LRUHandle?
    var prev: LRUHandle?
    var nextHash: LRUHandle?
    var refs: nat

    constructor (key: bytes, hash: nat, value: nat, charge: nat, refs: nat)
      ensures this.key == key && this.hash == hash && this.value == value && this.charge == charge && this.refs == refs
    {
      this.key, this.hash, this.value, this.charge, this.refs := key, hash, value, charge, refs;
      next, prev, nextHash := null, null, null;
    }
  }

  type Id = (nat, bytes)

  function IdOf(h: LRUHandle): Id { (h.hash, h.key) }

  /** hash & (length - 1), for a length that is a power of two. */
  function Bucket(hash: nat, length: nat): (b: nat)
    requires length > 0
    ensures b < length
  {
    hash % length
  }

  ghost predicate PowerOfTwo(n: nat) {
    n == 1 || (n > 1 && n % 2 == 0 && PowerOfTwo(n / 2))
  }

  ghost predicate Distinct<T>(s: seq<T>) {
    forall i, j :: 0 <= i < j < |s| ==> s[i] != s[j]
  }

  ghost function At(chain: seq<LRUHandle>, i: nat): LRUHandle? {
    if i < |chain| then chain[i] else null
  }

  /** The chain that starts at `head`. */
  ghost predicate Linked(head: LRUHandle?, chain: seq<LRUHandle>)
    reads chain`nextHash
  {
    head == At(chain, 0)
    && forall i {:trigger chain[i].nextHash} :: 0 <= i < |chain| ==> chain[i].nextHash == At(chain, i + 1)
  }

  /** The chains hold exactly the map's handles, each in its bucket, and each id once. */
  ghost predicate Indexed(chains: seq<seq<LRUHandle>>, contents: map<Id, LRUHandle>) {
    |chains| > 0
    && (forall b :: 0 <= b < |chains| ==> Distinct(chains[b]))
    && (forall b, i {:trigger Filed(chains[b][i], b, |chains|, contents)} ::
          0 <= b < |chains| && 0 <= i < |chains[b]| ==> Filed(chains[b][i], b, |chains|, contents))
    && forall id {:trigger Listed(id, chains, contents)} :: id in contents ==> Listed(id, chains, contents)
  }

  ghost predicate Listed(id: Id, chains: seq<seq<LRUHandle>>, contents: map<Id, LRUHandle>)
    requires |chains| > 0 && id in contents
  {
    IdOf(contents[id]) == id && contents[id] in chains[Bucket(id.0, |chains|)]
  }

  ghost predicate Filed(h: LRUHandle, b: nat, length: nat, contents: map<Id, LRUHandle>)
    requires length > 0
  {
    Bucket(h.hash, length) == b && IdOf(h) in contents && contents[IdOf(h)] == h
  }

  // ---- the chains after one change ------------------------------------------------------

  lemma Inserted(chains: seq<seq<LRUHandle>>, contents: map<Id, LRUHandle>, p: nat, h: LRUHandle)
    requires Indexed(chains, contents) && IdOf(h) !in contents
    requires p <= |chains[Bucket(h.hash, |chains|)]|
    ensures var b := Bucket(h.hash, |chains|);
            Indexed(chains[b := chains[b][..p] + [h] + chains[b][p..]], contents[IdOf(h) := h])
  {
    var b := Bucket(h.hash, |chains|);
    var chain := chains[b][..p] + [h] + chains[b][p..];
    var more, now := chains[b := chain], contents[IdOf(h) := h];
    forall i | 0 <= i < |chains[b]|
      ensures chains[b][i] != h
    {
      assert Filed(chains[b][i], b, |chains|, contents);
    }
    assert forall x :: x in chains[b] ==> x in chain by {
      forall x | x in chains[b] ensures x in chain {
        var i :| 0 <= i < |chains[b]| && chains[b][i] == x;
        assert chain[if i < p then i else i + 1] == x;
      }
    }
    assert chain[p] == h;
    forall c, i | 0 <= c < |more| && 0 <= i < |more[c]|
      ensures Filed(more[c][i], c, |more|, now)
    {
      if !(c == b && i == p) {
        var k := if c == b && i > p then i - 1 else i;
        assert more[c][i] == chains[c][k];
        assert Filed(chains[c][k], c, |chains|, contents);
      }
    }
    forall id | id in now
      ensures Listed(id, more, now)
    {
      if id != IdOf(h) {
        assert Listed(id, chains, contents);
        assert now[id] == contents[id];
      } else {
        assert now[id] == h && more[b] == chain;
      }
    }
  }

  lemma Replaced(chains: seq<seq<LRUHandle>>, contents: map<Id, LRUHandle>, p: nat, h: LRUHandle)
    requires Indexed(chains, contents)
    requires var chain := chains[Bucket(h.hash, |chains|)]; p < |chain| && h !in chain && IdOf(chain[p]) == IdOf(h)
    ensures var b := Bucket(h.hash, |chains|);
            Indexed(chains[b := chains[b][p := h]], contents[IdOf(h) := h])
  {
    var b := Bucket(h.hash, |chains|);
    var chain := chains[b][p := h];
    var more, now := chains[b := chain], contents[IdOf(h) := h];
    assert chain[p] == h;
    forall c, i | 0 <= c < |more| && 0 <= i < |more[c]|
      ensures Filed(more[c][i], c, |more|, now)
    {
      assert Filed(chains[c][i], c, |chains|, contents);
      assert Filed(chains[b][p], b, |chains|, contents);
    }
    forall id | id in now
      ensures Listed(id, more, now)
    {
      assert id != IdOf(h) ==> Listed(id, chains, contents);
      if id != IdOf(h) && Bucket(id.0, |more|) == b {
        var i :| 0 <= i < |chains[b]| && chains[b][i] == now[id];
        assert chain[i] == now[id];
      }
    }
  }

  lemma Removed(chains: seq<seq<LRUHandle>>, contents: map<Id, LRUHandle>, b: nat, p: nat)
    requires Indexed(chains, contents) && b < |chains| && p < |chains[b]|
    ensures var id := IdOf(chains[b][p]);
            Indexed(chains[b := chains[b][..p] + chains[b][p + 1..]], contents - {id})
  {
    var h := chains[b][p];
    var chain := chains[b][..p] + chains[b][p + 1..];
    var fewer, now := chains[b := chain], contents - {IdOf(h)};
    assert Filed(h, b, |chains|, contents);
    forall c, i | 0 <= c < |fewer| && 0 <= i < |fewer[c]|
      ensures Filed(fewer[c][i], c, |fewer|, now)
    {
      var k := if c == b && i >= p then i + 1 else i;
      assert fewer[c][i] == chains[c][k];
      assert Filed(chains[c][k], c, |chains|, contents);
    }
    forall id | id in now
      ensures Listed(id, fewer, now)
    {
      assert Listed(id, chains, contents);
      if Bucket(id.0, |fewer|) == b {
        var i :| 0 <= i < |chains[b]| && chains[b][i] == now[id];
        assert chain[if i < p then i else i - 1] == now[id];
      }
    }
  }

  // ---- the table ------------------------------------------------------------------------

  /** A search of the chain up to position p settles whether the id is in the map. */
  lemma SearchDecides(chains: seq<seq<LRUHandle>>, contents: map<Id, LRUHandle>, id: Id, p: nat)
    requires Indexed(chains, contents)
    requires var chain := chains[Bucket(id.0, |chains|)];
             p <= |chain| && (forall i :: 0 <= i < p ==> IdOf(chain[i]) != id) && (p < |chain| ==> IdOf(chain[p]) == id)
    ensures At(chains[Bucket(id.0, |chains|)], p) == if id in contents then contents[id] else null
  {
    var b := Bucket(id.0, |chains|);
    var chain := chains[b];
    if p < |chain| {
      assert Filed(chains[b][p], b, |chains|, contents);
    } else {
      assert id in contents ==> Listed(id, chains, contents);
    }
  }

  lemma LinkedTail(head: LRUHandle?, chain: seq<LRUHandle>, p: nat)
    requires Linked(head, chain) && p <= |chain|
    ensures Linked(At(chain, p), chain[p..])
  {
    var tail := chain[p..];
    forall i {:trigger tail[i].nextHash} | 0 <= i < |tail|
      ensures tail[i].nextHash == At(tail, i + 1)
    {
      assert tail[i] == chain[p + i];
    }
  }

  /** A handle in bucket b, or in none, is in no other bucket. */
  ghost predicate Apart(chains: seq<seq<LRUHandle>>, b: nat, h: LRUHandle) {
    forall c :: 0 <= c < |chains| && c != b ==> h !in chains[c]
  }

  lemma BucketsApart(chains: seq<seq<LRUHandle>>, contents: map<Id, LRUHandle>, h: LRUHandle, b: nat)
    requires Indexed(chains, contents) && (Bucket(h.hash, |chains|) == b || (b < |chains| && h in chains[b]))
    ensures Apart(chains, b, h)
  {
    forall c | 0 <= c < |chains| && h in chains[c]
      ensures c == Bucket(h.hash, |chains|)
    {
      var i :| 0 <= i < |chains[c]| && chains[c][i] == h;
      assert Filed(chains[c][i], c, |chains|, contents);
    }
  }

  /** The chains' handles, as a set. */
  ghost predicate Owns(handles: set<LRUHandle>, chains: seq<seq<LRUHandle>>) {
    InMap(chains, handles) && forall h {:trigger Own(h, chains)} :: h in handles ==> Own(h, chains)
  }

  ghost predicate Own(h: LRUHandle, chains: seq<seq<LRUHandle>>) {
    |chains| > 0 && h in chains[Bucket(h.hash, |chains|)]
  }

  ghost predicate InMap(chains: seq<seq<LRUHandle>>, handles: set<LRUHandle>) {
    forall b, i {:trigger chains[b][i]} :: 0 <= b < |chains| && 0 <= i < |chains[b]| ==> chains[b][i] in handles
  }

  lemma OwnedInMap(chains: seq<seq<LRUHandle>>, contents: map<Id, LRUHandle>, handles: set<LRUHandle>)
    requires Indexed(chains, contents) && Owns(handles, chains)
    ensures handles == contents.Values
  {
    forall h | h in handles
      ensures h in contents.Values
    {
      assert Own(h, chains);
      var b := Bucket(h.hash, |chains|);
      var i :| 0 <= i < |chains[b]| && chains[b][i] == h;
      assert Filed(chains[b][i], b, |chains|, contents);
    }
    forall id | id in contents
      ensures contents[id] in handles
    {
      assert Listed(id, chains, contents);
    }
  }

  lemma OwnId(chains: seq<seq<LRUHandle>>, contents: map<Id, LRUHandle>, handles: set<LRUHandle>, h: LRUHandle)
    requires Indexed(chains, contents) && Owns(handles, chains) && h in handles
    ensures IdOf(h) in contents && contents[IdOf(h)] == h
  {
    OwnedInMap(chains, contents, handles);
    var id :| id in contents && contents[id] == h;
    assert Listed(id, chains, contents);
  }

  lemma OwnsValues(chains: seq<seq<LRUHandle>>, contents: map<Id, LRUHandle>)
    requires Indexed(chains, contents)
    ensures Owns(contents.Values, chains)
  {
    forall b, i | 0 <= b < |chains| && 0 <= i < |chains[b]|
      ensures chains[b][i] in contents.Values
    {
      assert Filed(chains[b][i], b, |chains|, contents);
    }
    forall h | h in contents.Values
      ensures Own(h, chains)
    {
      var id :| id in contents && contents[id] == h;
      assert Listed(id, chains, contents);
    }
  }

  /** The slot at position p of a chain: the bucket's own, or the previous entry's next_hash. */
  ghost function SlotAt(chain: seq<LRUHandle>, p: nat): LRUHandle?
    requires p <= |chain|
  {
    if p == 0 then null else chain[p - 1]
  }

  /** Putting an entry at the position where the search for its id ended: in place of the
      entry with that id, or at the end of the chain. */
  ghost function PutAt(chain: seq<LRUHandle>, p: nat, h: LRUHandle): seq<LRUHandle>
    requires p <= |chain|
  {
    chain[..p] + PutTail(chain, p, h)
  }

  ghost function PutTail(chain: seq<LRUHandle>, p: nat, h: LRUHandle): seq<LRUHandle>
    requires p <= |chain|
  {
    [h] + if p < |chain| then chain[p + 1..] else []
  }

  lemma PutIndexed(chains: seq<seq<LRUHandle>>, contents: map<Id, LRUHandle>, b: nat, p: nat, h: LRUHandle)
    requires Indexed(chains, contents) && h !in contents.Values
    requires b == Bucket(h.hash, |chains|) && p <= |chains[b]|
    requires At(chains[b], p) == if IdOf(h) in contents then contents[IdOf(h)] else null
    ensures Indexed(chains[b := PutAt(chains[b], p, h)], contents[IdOf(h) := h])
  {
    var chain := chains[b];
    if p < |chain| {
      assert Listed(IdOf(h), chains, contents);
      assert PutAt(chain, p, h) == chain[p := h];
      HandleApart(chains, contents, h);
      Replaced(chains, contents, p, h);
    } else {
      assert PutAt(chain, p, h) == chain[..p] + [h] + chain[p..];
      Inserted(chains, contents, p, h);
    }
  }

  lemma HandleApart(chains: seq<seq<LRUHandle>>, contents: map<Id, LRUHandle>, h: LRUHandle)
    requires Indexed(chains, contents) && h !in contents.Values
    ensures forall c :: 0 <= c < |chains| ==> h !in chains[c]
  {
    forall c, i | 0 <= c < |chains| && 0 <= i < |chains[c]|
      ensures chains[c][i] != h
    {
      assert Filed(chains[c][i], c, |chains|, contents);
    }
  }

  lemma PutSize(contents: map<Id, LRUHandle>, h: LRUHandle)
    ensures |contents[IdOf(h) := h]| == |contents| + (if IdOf(h) in contents then 0 else 1)
  {
    assert contents[IdOf(h) := h].Keys == contents.Keys + {IdOf(h)};
  }

  lemma Put(chains: seq<seq<LRUHandle>>, contents: map<Id, LRUHandle>, handles: set<LRUHandle>, b: nat, p: nat, h: LRUHandle)
    requires Indexed(chains, contents) && Owns(handles, chains) && h !in handles
    requires b == Bucket(h.hash, |chains|) && p <= |chains[b]|
    requires At(chains[b], p) == if IdOf(h) in contents then contents[IdOf(h)] else null
    ensures var more, now := chains[b := PutAt(chains[b], p, h)], contents[IdOf(h) := h];
            Indexed(more, now) && Distinct(more[b])
            && |now| == |contents| + (if IdOf(h) in contents then 0 else 1)
            && Owns(Renewed(handles, At(chains[b], p), h), more)
    ensures p > 0 ==> Apart(chains, b, chains[b][p - 1])
    ensures forall c :: 0 <= c < |chains| ==> h !in chains[c]
  {
    OwnedInMap(chains, contents, handles);
    PutIndexed(chains, contents, b, p, h);
    if p < |chains[b]| {
      BucketsApart(chains, contents, chains[b][p], b);
    }
    OwnsMore(chains, handles, b, p, h);
    PutSize(contents, h);
    HandleApart(chains, contents, h);
    if p > 0 {
      BucketsApart(chains, contents, chains[b][p - 1], b);
    }
  }

  lemma LinkedFront(h: LRUHandle, tail: seq<LRUHandle>)
    requires Linked(h.nextHash, tail)
    ensures Linked(h, [h] + tail)
  {
    var chain := [h] + tail;
    forall i {:trigger chain[i].nextHash} | 0 <= i < |chain|
      ensures chain[i].nextHash == At(chain, i + 1)
    {
      if i > 0 {
        assert chain[i] == tail[i - 1];
      }
    }
  }

  ghost predicate Chained(list: array<LRUHandle?>, chains: seq<seq<LRUHandle>>)
    reads list, (set b, i | 0 <= b < |chains| && 0 <= i < |chains[b]| :: chains[b][i])`nextHash
  {
    list.Length == |chains| && forall b :: 0 <= b < |chains| ==> Linked(list[b], chains[b])
  }

  lemma OwnsFewer(chains: seq<seq<LRUHandle>>, handles: set<LRUHandle>, b: nat, p: nat)
    requires Owns(handles, chains) && b < |chains| && p < |chains[b]| && Distinct(chains[b]) && Apart(chains, b, chains[b][p])
    ensures Owns(handles - {chains[b][p]}, chains[b := chains[b][..p] + chains[b][p + 1..]])
  {
    var h := chains[b][p];
    var chain := chains[b][..p] + chains[b][p + 1..];
    var fewer := chains[b := chain];
    assert forall i :: 0 <= i < |chain| ==> chain[i] == chains[b][if i < p then i else i + 1];
    forall c, i | 0 <= c < |fewer| && 0 <= i < |fewer[c]|
      ensures fewer[c][i] in handles - {h}
    {
    }
    forall g | g in handles - {h}
      ensures Own(g, fewer)
    {
      assert Own(g, chains);
      if g in chains[b] {
        var i :| 0 <= i < |chains[b]| && chains[b][i] == g;
        assert chain[if i < p then i else i - 1] == g;
      }
    }
  }

  /** The handles once h is in the map, in place of `was`. */
  ghost function Renewed(handles: set<LRUHandle>, was: LRUHandle?, h: LRUHandle): set<LRUHandle> {
    (if was == null then handles else handles - {was}) + {h}
  }

  lemma OwnsMore(chains: seq<seq<LRUHandle>>, handles: set<LRUHandle>, b: nat, p: nat, h: LRUHandle)
    requires Owns(handles, chains) && b < |chains| && p <= |chains[b]| && Distinct(chains[b])
    requires b == Bucket(h.hash, |chains|) && (p < |chains[b]| ==> Apart(chains, b, chains[b][p]))
    ensures Owns(Renewed(handles, At(chains[b], p), h), chains[b := PutAt(chains[b], p, h)])
  {
    var chain := PutAt(chains[b], p, h);
    var more := chains[b := chain];
    var now := Renewed(handles, At(chains[b], p), h);
    assert chain[p] == h;
    assert forall i :: 0 <= i < |chain| && i != p ==> chain[i] == chains[b][i];
    forall c, i | 0 <= c < |more| && 0 <= i < |more[c]|
      ensures more[c][i] in now
    {
      assert c != b || i != p ==> more[c][i] == chains[c][i];
    }
    forall g | g in now
      ensures Own(g, more)
    {
      if g != h {
        assert Own(g, chains);
        if g in chains[b] {
          var i :| 0 <= i < |chains[b]| && chains[b][i] == g;
          assert chain[i] == g;
        }
      }
    }
  }

  /** Taking the entry at position p out of its chain. */
  lemma Taken(chains: seq<seq<LRUHandle>>, contents: map<Id, LRUHandle>, handles: set<LRUHandle>, b: nat, p: nat)
    requires Indexed(chains, contents) && Owns(handles, chains) && b < |chains| && p < |chains[b]|
    ensures var chain := chains[b];
            var fewer, now := chains[b := chain[..p] + chain[p + 1..]], contents - {IdOf(chain[p])};
            Indexed(fewer, now) && |now| == |contents| - 1
            && Owns(handles - {chain[p]}, fewer)
            && Distinct(chain[..p] + chain[p + 1..])
            && (p > 0 ==> Apart(chains, b, chain[p - 1]))
  {
    var chain := chains[b];
    Removed(chains, contents, b, p);
    assert Filed(chains[b][p], b, |chains|, contents);
    BucketsApart(chains, contents, chain[p], b);
    OwnsFewer(chains, handles, b, p);
    var id := IdOf(chain[p]);
    assert (contents - {id}).Keys == contents.Keys - {id};
    if p > 0 {
      BucketsApart(chains, contents, chain[p - 1], b);
    }
  }

  /** *ptr = h, where h starts a chain of its own: the rest of the bucket becomes that chain. */
  method Store(list: array<LRUHandle?>, b: nat, slot: LRUHandle?, h: LRUHandle?,
               ghost chains: seq<seq<LRUHandle>>, ghost p: nat, ghost tail: seq<LRUHandle>)
    requires Chained(list, chains) && b < list.Length && p <= |chains[b]| && slot == SlotAt(chains[b], p)
    requires Distinct(chains[b][..p] + tail) && Linked(h, tail)
    requires slot != null ==> Apart(chains, b, slot)
    modifies list, (if slot == null then {} else {slot})`nextHash
    ensures Chained(list, chains[b := chains[b][..p] + tail])
  {
    ghost var chain := chains[b];
    ghost var now := chain[..p] + tail;
    assert Linked(list[b], chain);
    if slot == null {
      list[b] := h;
      assert now == tail;
    } else {
      slot.nextHash := h;
      forall i {:trigger now[i].nextHash} | 0 <= i < |now|
        ensures now[i].nextHash == At(now, i + 1)
      {
        if i < p - 1 {
          assert now[i] == chain[i] != now[p - 1] && old(chain[i].nextHash) == At(chain, i + 1);
        } else if i >= p {
          assert now[i] == tail[i - p] != now[p - 1] && old(tail[i - p].nextHash) == At(tail, i - p + 1);
        }
      }
    }
    forall c | 0 <= c < |chains|
      ensures Linked(list[c], chains[b := now][c])
    {
      if c == b {
        assert list[b] == At(now, 0);
      } else {
        assert old(Linked(list[c], chains[c]));
      }
    }
  }

  /** h takes the place of `was`, or follows the last entry when there is none. */
  method Splice(list: array<LRUHandle?>, b: nat, slot: LRUHandle?, h: LRUHandle, was: LRUHandle?,
                ghost chains: seq<seq<LRUHandle>>, ghost p: nat)
    requires Chained(list, chains) && b < list.Length && p <= |chains[b]|
    requires slot == SlotAt(chains[b], p) && was == At(chains[b], p)
    requires Distinct(PutAt(chains[b], p, h))
    requires p > 0 ==> Apart(chains, b, chains[b][p - 1])
    requires forall c :: 0 <= c < |chains| ==> h !in chains[c]
    modifies list, h`nextHash, (if slot == null then {} else {slot})`nextHash
    ensures Chained(list, chains[b := PutAt(chains[b], p, h)])
  {
    ghost var chain := chains[b];
    ghost var from := if p < |chain| then p + 1 else p;
    LinkedTail(list[b], chain, from);
    h.nextHash := if was == null then null else was.nextHash;
    LinkedFront(h, chain[from..]);
    Store(list, b, slot, h, chains, p, PutTail(chain, p, h));
  }

  // ---- rehashing ------------------------------------------------------------------------

  /** Buckets before i, and the first j entries of bucket i, are in the new chains. */
  ghost predicate Moved(chains: seq<seq<LRUHandle>>, contents: map<Id, LRUHandle>,
                        now: seq<seq<LRUHandle>>, moved: map<Id, LRUHandle>, i: nat, j: nat)
  {
    Indexed(chains, contents) && Indexed(now, moved)
    && (forall id :: id in moved ==> id in contents && moved[id] == contents[id])
    && forall b, k {:trigger IdOf(chains[b][k])} :: 0 <= b < |chains| && 0 <= k < |chains[b]| ==>
         (IdOf(chains[b][k]) in moved <==> b < i || (b == i && k < j))
  }

  lemma EntriesDiffer(chains: seq<seq<LRUHandle>>, contents: map<Id, LRUHandle>, b: nat, k: nat, i: nat, j: nat)
    requires Indexed(chains, contents) && b < |chains| && k < |chains[b]| && i < |chains| && j < |chains[i]|
    requires IdOf(chains[b][k]) == IdOf(chains[i][j])
    ensures b == i && k == j
  {
    assert Filed(chains[b][k], b, |chains|, contents);
    assert Filed(chains[i][j], i, |chains|, contents);
  }

  /** Pushing the next entry on the front of its new chain. */
  lemma MovedOne(chains: seq<seq<LRUHandle>>, contents: map<Id, LRUHandle>,
                 now: seq<seq<LRUHandle>>, moved: map<Id, LRUHandle>, i: nat, j: nat)
    requires Moved(chains, contents, now, moved, i, j) && i < |chains| && j < |chains[i]|
    ensures var h := chains[i][j];
            var b := Bucket(h.hash, |now|);
            Moved(chains, contents, now[b := [h] + now[b]], moved[IdOf(h) := h], i, j + 1)
    ensures |moved[IdOf(chains[i][j]) := chains[i][j]]| == |moved| + 1
    ensures forall c :: 0 <= c < |now| ==> chains[i][j] !in now[c]
  {
    var h := chains[i][j];
    var b := Bucket(h.hash, |now|);
    assert IdOf(h) !in moved;
    HandleApart(now, moved, h) by {
      forall id | id in moved
        ensures moved[id] != h
      {
        assert Listed(id, now, moved);
      }
    }
    PutSize(moved, h);
    Inserted(now, moved, 0, h);
    assert now[b][..0] + [h] + now[b][0..] == [h] + now[b];
    assert Filed(chains[i][j], i, |chains|, contents);
    forall c, k | 0 <= c < |chains| && 0 <= k < |chains[c]|
      ensures IdOf(chains[c][k]) == IdOf(h) ==> c == i && k == j
    {
      if IdOf(chains[c][k]) == IdOf(h) {
        EntriesDiffer(chains, contents, c, k, i, j);
      }
    }
  }

  lemma MovedAll(chains: seq<seq<LRUHandle>>, contents: map<Id, LRUHandle>,
                 now: seq<seq<LRUHandle>>, moved: map<Id, LRUHandle>)
    requires Moved(chains, contents, now, moved, |chains|, 0)
    ensures moved == contents
  {
    forall id | id in contents
      ensures id in moved
    {
      assert Listed(id, chains, contents);
      var b := Bucket(id.0, |chains|);
      var k :| 0 <= k < |chains[b]| && chains[b][k] == contents[id];
      assert IdOf(chains[b][k]) == id;
    }
  }

  /** The entries not moved yet are still linked as before. */
  ghost predicate Remaining(chains: seq<seq<LRUHandle>>, i: nat, j: nat)
    reads (set b, k | 0 <= b < |chains| && 0 <= k < |chains[b]| :: chains[b][k])`nextHash
  {
    forall b, k {:trigger chains[b][k].nextHash} :: 0 <= b < |chains| && 0 <= k < |chains[b]| && (b > i || (b == i && k >= j)) ==>
      chains[b][k].nextHash == At(chains[b], k + 1)
  }

  /** *ptr = h->next_hash. */
  method Cut(list: array<LRUHandle?>, b: nat, slot: LRUHandle?, h: LRUHandle, ghost chains: seq<seq<LRUHandle>>, ghost p: nat)
    requires Chained(list, chains) && b < list.Length && p < |chains[b]|
    requires slot == SlotAt(chains[b], p) && h == chains[b][p]
    requires Distinct(chains[b][..p] + chains[b][p + 1..])
    requires p > 0 ==> Apart(chains, b, chains[b][p - 1])
    modifies list, (if slot == null then {} else {slot})`nextHash
    ensures Chained(list, chains[b := chains[b][..p] + chains[b][p + 1..]])
  {
    LinkedTail(list[b], chains[b], p + 1);
    Store(list, b, slot, h.nextHash, chains, p, chains[b][p + 1..]);
  }

  class HandleTable {
    var list: array<LRUHandle?>
    var elems: nat
    ghost var chains: seq<seq<LRUHandle>>
    /** The map that the table implements. */
    ghost var contents: map<Id, LRUHandle>
    ghost var handles: set<LRUHandle>

    ghost predicate Valid()
      reads this, list, handles`nextHash
    {
      Indexed(chains, contents) && elems == |contents| && PowerOfTwo(list.Length)
      && Owns(handles, chains) && Chained(list, chains)
    }

    constructor ()
      ensures Valid() && contents == map[] && handles == {} && fresh(list) && elems <= list.Length
    {
      list := new LRUHandle?[4](_ => null);
      elems, chains, contents, handles := 0, [[], [], [], []], map[], {};
      new;
      assert PowerOfTwo(2);
    }

    /** The slot that points to the entry with this hash and key, or the last slot of its
        chain: the bucket's own when `slot` is null, else that entry's next_hash. */
    method FindPointer(key: bytes, hash: nat) returns (slot: LRUHandle?, h: LRUHandle?, ghost p: nat)
      requires Valid()
      ensures var chain := chains[Bucket(hash, |chains|)];
              p <= |chain| && slot == SlotAt(chain, p) && h == At(chain, p)
      ensures h != null ==> IdOf(h) == (hash, key)
      ensures h == (if (hash, key) in contents then contents[(hash, key)] else null)
    {
      slot, h, p := Search(list[Bucket(hash, list.Length)], chains[Bucket(hash, |chains|)], key, hash);
      SearchDecides(chains, contents, (hash, key), p);
    }

    static method Search(head: LRUHandle?, ghost chain: seq<LRUHandle>, key: bytes, hash: nat)
      returns (slot: LRUHandle?, h: LRUHandle?, ghost p: nat)
      requires Linked(head, chain)
      ensures p <= |chain| && slot == SlotAt(chain, p) && h == At(chain, p)
      ensures forall i :: 0 <= i < p ==> IdOf(chain[i]) != (hash, key)
      ensures p < |chain| ==> IdOf(chain[p]) == (hash, key)
    {
      slot, h, p := null, head, 0;
      while h != null && (h.hash != hash || h.key != key)
        invariant p <= |chain| && slot == SlotAt(chain, p) && h == At(chain, p)
        invariant forall i :: 0 <= i < p ==> IdOf(chain[i]) != (hash, key)
        decreases |chain| - p
      {
        slot, h, p := h, h.nextHash, p + 1;
      }
    }

    method Lookup(key: bytes, hash: nat) returns (h: LRUHandle?)
      requires Valid()
      ensures h == if (hash, key) in contents then contents[(hash, key)] else null
      ensures h != null ==> h in handles
    {
      var slot, found, p := FindPointer(key, hash);
      h := found;
    }

    method Remove(key: bytes, hash: nat) returns (h: LRUHandle?)
      requires Valid()
      modifies this, list, handles`nextHash
      ensures Valid() && contents == old(contents) - {(hash, key)} && list == old(list)
      ensures h == if (hash, key) in old(contents) then old(contents)[(hash, key)] else null
      ensures h != null ==> h in old(handles)
      ensures handles == if h == null then old(handles) else old(handles) - {h}
      ensures elems <= old(elems)
    {
      var slot, found, p := FindPointer(key, hash);
      h := found;
      if h != null {
        Unlink(Bucket(hash, list.Length), slot, h, p);
      }
    }

    /** Removal of an entry by its own key and hash. */
    method RemoveEntry(e: LRUHandle)
      requires Valid() && e in handles
      modifies this, list, handles`nextHash
      ensures Valid() && handles == old(handles) - {e} && list == old(list)
    {
      OwnId(chains, contents, handles, e);
      var gone := Remove(e.key, e.hash);
    }

    method Unlink(b: nat, slot: LRUHandle?, h: LRUHandle, ghost p: nat)
      requires Valid() && b < |chains| && p < |chains[b]| && slot == SlotAt(chains[b], p) && h == chains[b][p]
      modifies this, list, handles`nextHash
      ensures Valid() && contents == old(contents) - {IdOf(h)} && handles == old(handles) - {h} && list == old(list)
    {
      ghost var chain := chains[b];
      ghost var fewer, now := chains[b := chain[..p] + chain[p + 1..]], contents - {IdOf(h)};
      Taken(chains, contents, handles, b, p);
      Cut(list, b, slot, h, chains, p);
      elems := elems - 1;
      chains, contents, handles := fewer, now, handles - {h};
    }

    method Insert(h: LRUHandle) returns (was: LRUHandle?)
      requires Valid() && h !in handles
      modifies this, list, h`nextHash, handles`nextHash
      ensures Valid() && contents == old(contents)[IdOf(h) := h]
      ensures was == if IdOf(h) in old(contents) then old(contents)[IdOf(h)] else null
      ensures was != null ==> was in old(handles)
      ensures handles == Renewed(old(handles), was, h)
      ensures list == old(list) || fresh(list)
      ensures old(elems <= list.Length) ==> elems <= list.Length
    {
      var slot, found, p := FindPointer(h.key, h.hash);
      was := found;
      Link(Bucket(h.hash, list.Length), slot, h, was, p);
      if was == null && elems > list.Length {
        Resize();
      }
    }

    method Link(b: nat, slot: LRUHandle?, h: LRUHandle, was: LRUHandle?, ghost p: nat)
      requires Valid() && h !in handles && b == Bucket(h.hash, |chains|)
      requires p <= |chains[b]| && slot == SlotAt(chains[b], p) && was == At(chains[b], p)
      requires was == if IdOf(h) in contents then contents[IdOf(h)] else null
      modifies this, list, h`nextHash, handles`nextHash
      ensures Valid() && contents == old(contents)[IdOf(h) := h] && handles == Renewed(old(handles), was, h)
      ensures list == old(list)
    {
      ghost var more, now := chains[b := PutAt(chains[b], p, h)], contents[IdOf(h) := h];
      Put(chains, contents, handles, b, p, h);
      Splice(list, b, slot, h, was, chains, p);
      if was == null {
        elems := elems + 1;
      }
      chains, contents, handles := more, now, Renewed(handles, was, h);
    }

    method Resize()
      requires Valid()
      modifies this, handles`nextHash
      ensures Valid() && contents == old(contents) && handles == old(handles) && elems == old(elems) && fresh(list)
      ensures list.Length >= elems
    {
      var length := 4;
      assert PowerOfTwo(2);
      while length < elems
        invariant PowerOfTwo(length)
      {
        length := 2 * length;
      }
      var newList := new LRUHandle?[length](_ => null);
      ghost var newChains: seq<seq<LRUHandle>> := seq(length, _ => []);
      ghost var moved: map<Id, LRUHandle> := map[];
      var count := 0;
      for i := 0 to list.Length
        modifies newList, handles`nextHash
        invariant Moved(chains, contents, newChains, moved, i, 0) && Chained(newList, newChains)
        invariant Remaining(chains, i, 0) && count == |moved|
        invariant forall b :: 0 <= b < |chains| ==> list[b] == At(chains[b], 0)
      {
        count, newChains, moved := MoveBucket(i, newList, newChains, moved, count);
      }
      MovedAll(chains, contents, newChains, moved);
      OwnedInMap(chains, contents, handles);
      OwnsValues(newChains, contents);
      assert elems == count;
      list, chains := newList, newChains;
    }

    method MoveBucket(i: nat, newList: array<LRUHandle?>, ghost newChains: seq<seq<LRUHandle>>, ghost moved: map<Id, LRUHandle>, count: nat)
      returns (total: nat, ghost nowChains: seq<seq<LRUHandle>>, ghost nowMoved: map<Id, LRUHandle>)
      requires i < list.Length == |chains| && newList != list && InMap(chains, handles)
      requires Moved(chains, contents, newChains, moved, i, 0) && Chained(newList, newChains)
      requires Remaining(chains, i, 0) && count == |moved| && list[i] == At(chains[i], 0)
      modifies newList, handles`nextHash
      ensures Moved(chains, contents, nowChains, nowMoved, i + 1, 0) && Chained(newList, nowChains)
      ensures Remaining(chains, i + 1, 0) && total == |nowMoved|
    {
      total, nowChains, nowMoved := count, newChains, moved;
      var h := list[i];
      ghost var j := 0;
      while h != null
        invariant j <= |chains[i]| && h == At(chains[i], j)
        invariant Moved(chains, contents, nowChains, nowMoved, i, j) && Chained(newList, nowChains)
        invariant Remaining(chains, i, j) && total == |nowMoved|
        decreases |chains[i]| - j
      {
        MovedOne(chains, contents, nowChains, nowMoved, i, j);
        var next := h.nextHash;
        Push(newList, h, nowChains);
        nowChains := nowChains[Bucket(h.hash, newList.Length) := [h] + nowChains[Bucket(h.hash, newList.Length)]];
        nowMoved := nowMoved[IdOf(h) := h];
        h, j, total := next, j + 1, total + 1;
      }
    }
  }

  method Push(list: array<LRUHandle?>, h: LRUHandle, ghost chains: seq<seq<LRUHandle>>)
    requires Chained(list, chains) && list.Length > 0
    requires forall c :: 0 <= c < |chains| ==> h !in chains[c]
    modifies list, h`nextHash
    ensures var b := Bucket(h.hash, |chains|); Chained(list, chains[b := [h] + chains[b]])
  {
    var b := Bucket(h.hash, list.Length);
    h.nextHash := list[b];
    LinkedFront(h, chains[b]);
    list[b] := h;
  }
}
