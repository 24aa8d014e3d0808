/** One shard of the cache (util/cache.cpp): a hash table and a circular list ordered by recency
    that hold the same entries, reference counts, and the charge accounting. */
module LruCaches {
  import opened Coding
  import opened HandleTables

  // ---- the circular list ----------------------------------------------------------------

  /** Oldest first, between two mentions of the dummy head. */
  ghost function Ring(lru: LRUHandle, order: seq<LRUHandle>): seq<LRUHandle> { [lru] + order + [lru] }

  ghost predicate Circular(lru: LRUHandle, order: seq<LRUHandle>, cached: set<LRUHandle>)
    reads lru`next, lru`prev, cached`next, cached`prev
  {
    var ring := Ring(lru, order);
    (forall i :: 0 <= i < |order| ==> order[i] in cached)
    && (forall i {:trigger ring[i].next} :: 0 <= i <= |order| ==> ring[i].next == ring[i + 1])
    && forall i {:trigger ring[i].prev} :: 1 <= i <= |order| + 1 ==> ring[i].prev == ring[i - 1]
  }

  ghost function Drop<T>(s: seq<T>, k: nat): seq<T>
    requires k < |s|
  {
    s[..k] + s[k + 1..]
  }

  method Unlink(lru: LRUHandle, e: LRUHandle, ghost order: seq<LRUHandle>, ghost k: nat, ghost cached: set<LRUHandle>)
    requires Circular(lru, order, cached) && k < |order| && order[k] == e && Distinct(order) && lru !in cached
    modifies lru`next, lru`prev, cached`next, cached`prev
    ensures Circular(lru, Drop(order, k), cached - {e})
  {
    ghost var ring, now := Ring(lru, order), Ring(lru, Drop(order, k));
    assert ring[k + 1] == e;
    assert e.next == ring[k + 2] && e.prev == ring[k];
    e.next.prev := e.prev;
    e.prev.next := e.next;
    assert forall i :: 0 <= i < |now| ==> now[i] == if i <= k then ring[i] else ring[i + 1];
    forall i {:trigger now[i].next} | 0 <= i < |now| - 1
      ensures now[i].next == now[i + 1]
    {
      var was := if i <= k then i else i + 1;
      assert ring[was] == now[i] && old(ring[was].next) == ring[was + 1];
    }
    forall i {:trigger now[i].prev} | 1 <= i < |now|
      ensures now[i].prev == now[i - 1]
    {
      var was := if i <= k then i else i + 1;
      assert ring[was] == now[i] && old(ring[was].prev) == ring[was - 1];
    }
  }

  /** e becomes the newest entry. */
  method Append(lru: LRUHandle, e: LRUHandle, ghost order: seq<LRUHandle>, ghost cached: set<LRUHandle>)
    requires Circular(lru, order, cached) && Distinct(order) && lru !in cached && e !in cached && e != lru
    modifies lru`next, lru`prev, e`next, e`prev, cached`next
    ensures Circular(lru, order + [e], cached + {e})
  {
    ghost var ring, now, n := Ring(lru, order), Ring(lru, order + [e]), |order|;
    assert ring[n + 1].prev == ring[n];
    e.next := lru;
    e.prev := lru.prev;
    e.prev.next := e;
    e.next.prev := e;
    assert forall i :: 0 <= i <= n ==> now[i] == ring[i];
    forall i {:trigger now[i].next} | 0 <= i < |now| - 1
      ensures now[i].next == now[i + 1]
    {
      if i < n {
        assert ring[i] == now[i] && old(ring[i].next) == ring[i + 1];
      }
    }
    forall i {:trigger now[i].prev} | 1 <= i < |now|
      ensures now[i].prev == now[i - 1]
    {
      if i <= n {
        assert ring[i] == now[i] && old(ring[i].prev) == ring[i - 1];
      }
    }
  }

  /** The entries other than e, in the same order. */
  ghost function Without(order: seq<LRUHandle>, e: LRUHandle?): seq<LRUHandle> {
    if order == [] then []
    else
      var n := |order| - 1;
      Without(order[..n], e) + if order[n] == e then [] else [order[n]]
  }

  lemma {:induction false} WithoutNone(order: seq<LRUHandle>, e: LRUHandle?)
    requires e !in order
    ensures Without(order, e) == order
  {
    if order != [] {
      WithoutNone(order[..|order| - 1], e);
    }
  }

  lemma {:induction false} WithoutIsDrop(order: seq<LRUHandle>, k: nat)
    requires Distinct(order) && k < |order|
    ensures Without(order, order[k]) == Drop(order, k)
  {
    var n := |order| - 1;
    if k < n {
      WithoutIsDrop(order[..n], k);
      assert Drop(order[..n], k) + [order[n]] == Drop(order, k);
    } else {
      WithoutNone(order[..n], order[n]);
    }
  }

  // ---- charges --------------------------------------------------------------------------

  ghost function Charges(s: set<LRUHandle>): nat {
    if s == {} then 0 else
      var h :| h in s;
      h.charge + Charges(s - {h})
  }

  lemma {:induction false} ChargesSplit(s: set<LRUHandle>, h: LRUHandle)
    requires h in s
    ensures Charges(s) == h.charge + Charges(s - {h})
  {
    var g :| g in s && Charges(s) == g.charge + Charges(s - {g});
    if g != h {
      ChargesSplit(s - {g}, h);
      ChargesSplit(s - {h}, g);
      assert s - {g} - {h} == s - {h} - {g};
    }
  }

  // ---- eviction -------------------------------------------------------------------------

  /** The entries that exist: those in the cache and those that clients hold. */
  ghost function Existing(order: seq<LRUHandle>, held: multiset<LRUHandle>): set<LRUHandle> {
    (set h | h in order) + (set h | h in held)
  }

  /** What Insert leaves in the cache. */
  ghost function Kept(order: seq<LRUHandle>, held: multiset<LRUHandle>, capacity: nat): seq<LRUHandle> {
    if order == [] || Charges(Existing(order, held)) <= capacity then order
    else Kept(order[1..], held, capacity)
  }

  /** The least recently used entries go, no more than needed, and all of them if the entries
      that clients hold already exceed the capacity. */
  lemma {:induction false} KeptIsLongestThatFits(order: seq<LRUHandle>, held: multiset<LRUHandle>, capacity: nat)
    ensures exists n :: 0 <= n <= |order| && Kept(order, held, capacity) == order[n..]
              && (Charges(Existing(order[n..], held)) <= capacity || n == |order|)
              && forall m :: 0 <= m < n ==> Charges(Existing(order[m..], held)) > capacity
  {
    assert order[0..] == order;
    if order != [] && Charges(Existing(order, held)) > capacity {
      KeptIsLongestThatFits(order[1..], held, capacity);
      var n :| 0 <= n <= |order[1..]| && Kept(order[1..], held, capacity) == order[1..][n..]
              && (Charges(Existing(order[1..][n..], held)) <= capacity || n == |order[1..]|)
              && forall m :: 0 <= m < n ==> Charges(Existing(order[1..][m..], held)) > capacity;
      assert order[1..][n..] == order[n + 1..];
      forall m | 0 <= m < n + 1
        ensures Charges(Existing(order[m..], held)) > capacity
      {
        if m > 0 {
          assert order[1..][m - 1..] == order[m..];
        }
      }
    }
  }

  // ---- the cache ------------------------------------------------------------------------

  ghost predicate In(h: LRUHandle, order: seq<LRUHandle>) { h in order }

  ghost predicate Lists(order: seq<LRUHandle>, cached: set<LRUHandle>) {
    (forall i :: 0 <= i < |order| ==> order[i] in cached)
    && forall h {:trigger In(h, order)} :: h in cached ==> In(h, order)
  }

  /** `order` lists the entries in the cache by the time of their last Insert or Lookup. */
  ghost predicate ByRecency(order: seq<LRUHandle>, cached: set<LRUHandle>, used: map<LRUHandle, nat>, clock: nat) {
    Distinct(order) && Lists(order, cached)
    && (forall i :: 0 <= i < |order| ==> order[i] in used && used[order[i]] < clock)
    && forall i, j :: 0 <= i < j < |order| ==> used[order[i]] < used[order[j]]
  }

  lemma Dropped(order: seq<LRUHandle>, cached: set<LRUHandle>, used: map<LRUHandle, nat>, clock: nat, k: nat)
    requires ByRecency(order, cached, used, clock) && k < |order|
    ensures ByRecency(Drop(order, k), cached - {order[k]}, used, clock) && Distinct(Drop(order, k))
  {
    var now := Drop(order, k);
    assert forall i :: 0 <= i < |now| ==> now[i] == order[if i < k then i else i + 1];
    forall h | h in cached && h != order[k]
      ensures In(h, now)
    {
      assert In(h, order);
      var i :| 0 <= i < |order| && order[i] == h;
      assert now[if i < k then i else i - 1] == h;
    }
  }

  lemma Appended(order: seq<LRUHandle>, cached: set<LRUHandle>, used: map<LRUHandle, nat>, clock: nat, e: LRUHandle)
    requires ByRecency(order, cached, used, clock) && e !in cached
    ensures ByRecency(order + [e], cached + {e}, used[e := clock], clock + 1)
  {
    var now := order + [e];
    forall h | h in cached + {e}
      ensures In(h, now)
    {
      if h == e {
        assert now[|order|] == e;
      } else {
        assert In(h, order);
      }
    }
  }

  lemma Touched(order: seq<LRUHandle>, cached: set<LRUHandle>, used: map<LRUHandle, nat>, clock: nat, k: nat)
    requires ByRecency(order, cached, used, clock) && k < |order|
    ensures ByRecency(Drop(order, k) + [order[k]], cached, used[order[k] := clock], clock + 1)
  {
    Dropped(order, cached, used, clock, k);
    Appended(Drop(order, k), cached - {order[k]}, used, clock, order[k]);
    assert cached - {order[k]} + {order[k]} == cached;
  }

  method MoveToEnd(lru: LRUHandle, e: LRUHandle, ghost order: seq<LRUHandle>, ghost k: nat, ghost cached: set<LRUHandle>)
    requires Circular(lru, order, cached) && k < |order| && order[k] == e && Distinct(order) && lru !in cached
    modifies lru`next, lru`prev, cached`next, cached`prev
    ensures Circular(lru, Drop(order, k) + [e], cached)
  {
    Unlink(lru, e, order, k, cached);
    Append(lru, e, Drop(order, k), cached - {e});
    assert cached - {e} + {e} == cached;
  }

  /** Every entry's count is its holders plus one while it is in the cache. */
  ghost predicate Counted(live: set<LRUHandle>, cached: set<LRUHandle>, held: multiset<LRUHandle>)
    reads live`refs
  {
    cached <= live && (forall h :: h in held ==> h in live)
    && forall h {:trigger h.refs} :: h in live ==> h.refs > 0 && h.refs == held[h] + if h in cached then 1 else 0
  }

  /** The deleter has run once for each entry that is gone, and for no other. */
  ghost predicate DeletedOnce(created: set<LRUHandle>, live: set<LRUHandle>, deleted: seq<LRUHandle>) {
    Distinct(deleted) && live <= created && (set h | h in deleted) == created - live
  }

  lemma Deletes(created: set<LRUHandle>, live: set<LRUHandle>, deleted: seq<LRUHandle>, e: LRUHandle)
    requires DeletedOnce(created, live, deleted) && e in live
    ensures DeletedOnce(created, live - {e}, deleted + [e])
  {
    var before, after := set h | h in deleted, set h | h in deleted + [e];
    assert e !in before && after == before + {e};
  }

  lemma Charged(created: set<LRUHandle>, live: set<LRUHandle>, deleted: seq<LRUHandle>, e: LRUHandle)
    requires DeletedOnce(created, live, deleted) && e !in created
    ensures DeletedOnce(created + {e}, live + {e}, deleted) && Charges(live + {e}) == Charges(live) + e.charge
  {
    ChargesSplit(live + {e}, e);
    assert live + {e} - {e} == live;
  }

  /** `mine` is the entries from position i on. */
  ghost predicate Rest(order: seq<LRUHandle>, i: nat, mine: set<LRUHandle>) {
    Distinct(order) && i <= |order| && Lists(order[i..], mine)
  }

  lemma RestShrinks(order: seq<LRUHandle>, i: nat, mine: set<LRUHandle>)
    requires Rest(order, i, mine) && i < |order|
    ensures order[i] in mine && Rest(order, i + 1, mine - {order[i]})
  {
    var now, next := order[i..], order[i + 1..];
    assert now[0] == order[i];
    forall k | 0 <= k < |next|
      ensures next[k] in mine - {order[i]}
    {
      assert next[k] == now[k + 1];
    }
    forall h | h in mine - {order[i]}
      ensures In(h, next)
    {
      assert In(h, now);
      var k :| 0 <= k < |now| && now[k] == h;
      assert next[k - 1] == h;
    }
  }

  lemma RestIsNone(order: seq<LRUHandle>, mine: set<LRUHandle>)
    requires Rest(order, |order|, mine)
    ensures mine == {}
  {
    assert forall h :: h in mine ==> In(h, order[|order|..]);
  }

  /** `was`, if any, is gone from the list. */
  ghost predicate Lost(before: seq<LRUHandle>, after: seq<LRUHandle>, was: LRUHandle?) {
    if was == null then after == before
    else exists k :: 0 <= k < |before| && before[k] == was && after == Drop(before, k)
  }

  class LRUCache {
    const lru: LRUHandle
    const table: HandleTable
    var capacity: nat
    var usage: nat
    /** The entries whose deleter has been called, in that order. */
    var deleted: seq<LRUHandle>
    /** The entries in the cache, least recently used first. */
    ghost var order: seq<LRUHandle>
    ghost var cached: set<LRUHandle>
    /** The handles that clients have and have not released. */
    ghost var held: multiset<LRUHandle>
    ghost var created: set<LRUHandle>
    ghost var live: set<LRUHandle>
    /** When each entry was last used. */
    ghost var used: map<LRUHandle, nat>
    ghost var clock: nat

    /** The list is circular, and in order of recency. */
    ghost predicate Listed()
      reads this`order, this`cached, this`used, this`clock, lru`next, lru`prev, cached`next, cached`prev
    {
      Circular(lru, order, cached) && lru !in cached && ByRecency(order, cached, used, clock)
    }

    /** Counts, charges and deletions, with a reference of the cache to each entry in `mine`. */
    ghost predicate Accounts(mine: set<LRUHandle>)
      reads this`held, this`live, this`created, this`usage, this`deleted, live`refs
    {
      lru !in created && Counted(live, mine, held) && usage == Charges(live) && DeletedOnce(created, live, deleted)
    }

    ghost predicate Valid()
      reads this, lru`next, lru`prev, cached`next, cached`prev, live`refs, table, table.list, table.handles`nextHash
    {
      Listed() && Accounts(cached) && cached == table.handles && table.Valid()
    }

    constructor (capacity: nat)
      ensures Valid() && order == [] && held == multiset{} && created == {} && this.capacity == capacity
      ensures fresh(lru) && fresh(table) && fresh(table.list)
    {
      lru := new LRUHandle([], 0, 0, 0, 0);
      table := new HandleTable();
      this.capacity, usage, deleted := capacity, 0, [];
      order, cached, held, created, live, used, clock := [], {}, multiset{}, {}, {}, map[], 0;
      new;
      lru.next, lru.prev := lru, lru;
    }

    method Unref(e: LRUHandle)
      requires e in live && e.refs > 0 && usage == Charges(live) && DeletedOnce(created, live, deleted)
      modifies this`usage, this`deleted, this`live, e`refs
      ensures e.refs == old(e.refs) - 1
      ensures live == (if e.refs == 0 then old(live) - {e} else old(live))
      ensures deleted == (if e.refs == 0 then old(deleted) + [e] else old(deleted))
      ensures usage == Charges(live) && DeletedOnce(created, live, deleted)
    {
      e.refs := e.refs - 1;
      if e.refs == 0 {
        ChargesSplit(live, e);
        Deletes(created, live, deleted, e);
        usage := usage - e.charge;
        deleted := deleted + [e];
        live := live - {e};
      }
    }

    method Hold(e: LRUHandle)
      requires Accounts(cached) && e in cached
      modifies this`held, e`refs
      ensures Accounts(cached) && held == old(held) + multiset{e}
    {
      e.refs := e.refs + 1;
      held := held + multiset{e};
    }

    /** LRU_Remove and LRU_Append: the entry becomes the newest. */
    method Refresh(e: LRUHandle, ghost k: nat)
      requires Listed() && k < |order| && order[k] == e
      modifies this`order, this`used, this`clock, lru`next, lru`prev, cached`next, cached`prev
      ensures Listed() && order == Drop(old(order), k) + [e]
      ensures used == old(used)[e := old(clock)] && clock == old(clock) + 1
    {
      MoveToEnd(lru, e, order, k, cached);
      Touched(order, cached, used, clock, k);
      order := Drop(order, k) + [e];
      used, clock := used[e := clock], clock + 1;
    }

    /** LRU_Remove. */
    method Detach(e: LRUHandle, ghost k: nat)
      requires Listed() && k < |order| && order[k] == e
      modifies this`order, this`cached, lru`next, lru`prev, cached`next, cached`prev
      ensures Listed() && order == Drop(old(order), k) && cached == old(cached) - {e}
    {
      Unlink(lru, e, order, k, cached);
      Dropped(order, cached, used, clock, k);
      order, cached := Drop(order, k), cached - {e};
    }

    /** LRU_Append for a new entry. */
    method Attach(e: LRUHandle)
      requires Listed() && e !in cached && e != lru
      modifies this`order, this`cached, this`used, this`clock, lru`next, lru`prev, cached`next, e`next, e`prev
      ensures Listed() && order == old(order) + [e] && cached == old(cached) + {e}
      ensures used == old(used)[e := old(clock)]
    {
      Append(lru, e, order, cached);
      Appended(order, cached, used, clock, e);
      order, cached := order + [e], cached + {e};
      used, clock := used[e := clock], clock + 1;
    }

    method Charge(e: LRUHandle, ghost mine: set<LRUHandle>)
      requires Accounts(mine) && e !in created && e != lru && e.refs == 2
      modifies this`usage, this`held, this`live, this`created
      ensures Accounts(mine + {e}) && held == old(held) + multiset{e} && created == old(created) + {e}
    {
      usage := usage + e.charge;
      Charged(created, live, deleted, e);
      held, live, created := held + multiset{e}, live + {e}, created + {e};
      assert Counted(live, mine + {e}, held);
    }

    /** The cache's own reference goes. */
    method Disown(e: LRUHandle, ghost mine: set<LRUHandle>)
      requires Accounts(mine) && e in mine
      modifies this`usage, this`deleted, this`live, e`refs
      ensures Accounts(mine - {e})
    {
      Unref(e);
    }

    method Use(e: LRUHandle)
      requires Listed() && Accounts(cached) && e in cached
      modifies this`held, this`order, this`used, this`clock, lru`next, lru`prev, cached`next, cached`prev, e`refs
      ensures Listed() && Accounts(cached)
      ensures held == old(held) + multiset{e} && used == old(used)[e := old(clock)] && clock == old(clock) + 1
    {
      assert In(e, order);
      ghost var k :| 0 <= k < |order| && order[k] == e;
      Hold(e);
      Refresh(e, k);
    }

    method Lookup(key: bytes, hash: nat) returns (e: LRUHandle?)
      requires Valid()
      modifies this`held, this`order, this`used, this`clock, lru`next, lru`prev, cached`next, cached`prev, cached`refs
      ensures Valid() && table.contents == old(table.contents)
      ensures e == if (hash, key) in table.contents then table.contents[(hash, key)] else null
      ensures e == null ==> held == old(held) && order == old(order) && used == old(used)
      ensures e != null ==> held == old(held) + multiset{e} && used == old(used)[e := old(clock)]
    {
      e := table.Lookup(key, hash);
      if e != null {
        Use(e);
      }
    }

    method Release(h: LRUHandle)
      requires Valid() && h in held
      modifies this`usage, this`deleted, this`live, this`held, h`refs
      ensures Valid() && held == old(held) - multiset{h}
      ensures deleted == if old(held)[h] == 1 && h !in cached then old(deleted) + [h] else old(deleted)
      ensures live == if old(held)[h] == 1 && h !in cached then old(live) - {h} else old(live)
    {
      Let(h);
    }

    method Let(h: LRUHandle)
      requires Accounts(cached) && h in held
      modifies this`usage, this`deleted, this`live, this`held, h`refs
      ensures Accounts(cached) && held == old(held) - multiset{h}
      ensures deleted == if old(held)[h] == 1 && h !in cached then old(deleted) + [h] else old(deleted)
      ensures live == if old(held)[h] == 1 && h !in cached then old(live) - {h} else old(live)
    {
      Unref(h);
      held := held - multiset{h};
    }

    /** A new entry, in place of any with the same hash and key, and then eviction: what stays
        fits the capacity, or nothing stays and clients hold all that is charged. */
    method Insert(key: bytes, hash: nat, value: nat, charge: nat) returns (e: LRUHandle)
      requires Valid()
      modifies this, lru, cached, table, table.list
      ensures Valid() && fresh(e) && e.key == key && e.hash == hash && e.value == value && e.charge == charge
      ensures var was := if (hash, key) in old(table.contents) then old(table.contents)[(hash, key)] else null;
              order == Kept(Without(old(order), was) + [e], held, capacity)
      ensures usage <= capacity || order == []
      ensures held == old(held) + multiset{e} && created == old(created) + {e} && capacity == old(capacity)
      ensures used == old(used)[e := old(clock)]
      ensures table.list == old(table.list) || fresh(table.list)
    {
      e := new LRUHandle(key, hash, value, charge, 2);
      var was := Place(e);
      Renumbered(old(order), order, was, e);
      Evict();
    }

    method Place(e: LRUHandle) returns (was: LRUHandle?)
      requires Valid() && e !in created && e != lru && e.refs == 2
      modifies this, lru, cached, e, table, table.list
      ensures Valid() && was == (if IdOf(e) in old(table.contents) then old(table.contents)[IdOf(e)] else null)
      ensures Lost(old(order) + [e], order, was) && was != e && cached <= old(cached) + {e}
      ensures held == old(held) + multiset{e} && created == old(created) + {e} && capacity == old(capacity)
      ensures used == old(used)[e := old(clock)]
      ensures table.list == old(table.list) || fresh(table.list)
    {
      Admit(e);
      was := Enter(e);
    }

    /** The destructor: once clients hold nothing, every entry ever made is deleted, once. */
    method Destroy()
      requires Valid() && held == multiset{}
      modifies this`usage, this`deleted, this`live, cached`refs
      ensures usage == 0 && live == {} && DeletedOnce(created, {}, deleted)
    {
      UnrefAll();
    }

    method UnrefAll()
      requires Listed() && Accounts(cached) && held == multiset{}
      modifies this`usage, this`deleted, this`live, cached`refs
      ensures Accounts({}) && live == {}
    {
      Oldest(lru, order, cached);
      var e := lru.next;
      ghost var i := 0;
      ghost var mine := cached;
      ghost var ring := Ring(lru, order);
      while e != lru
        invariant i <= |order| && e == ring[i + 1]
        invariant Rest(order, i, mine) && mine <= cached && Accounts(mine)
        decreases |order| - i
      {
        assert e == order[i];
        RestShrinks(order, i, mine);
        assert ring[i + 1].next == ring[i + 2];
        var next := e.next;
        assert e.refs == 1;
        Disown(e, mine);
        mine := mine - {e};
        e, i := next, i + 1;
      }
      RestIsNone(order, mine);
      assert forall h :: h in live ==> h.refs == 0;
    }

    method Erase(key: bytes, hash: nat)
      requires Valid()
      modifies this, lru, cached, table, table.list
      ensures Valid() && table.contents == old(table.contents) - {(hash, key)} && table.list == old(table.list)
      ensures held == old(held) && created == old(created) && used == old(used) && capacity == old(capacity)
    {
      var e := table.Remove(key, hash);
      if e != null {
        ghost var k := Forget(e);
      }
    }

    /** LRU_Remove and Unref. */
    method Forget(e: LRUHandle) returns (ghost k: nat)
      requires Listed() && Accounts(cached) && e in cached
      modifies this`usage, this`deleted, this`live, this`order, this`cached, lru`next, lru`prev, cached`next, cached`prev, e`refs
      ensures Listed() && Accounts(cached) && cached == old(cached) - {e}
      ensures k < |old(order)| && old(order)[k] == e && order == Drop(old(order), k)
    {
      ghost var mine := cached;
      assert In(e, order);
      k :| 0 <= k < |order| && order[k] == e;
      Detach(e, k);
      Disown(e, mine);
    }

    /** One turn of Insert's eviction loop: the least recently used entry leaves the cache. */
    method EvictOldest()
      requires Valid() && order != []
      modifies this, lru, cached, table, table.list
      ensures Valid() && order == old(order)[1..] && table.list == old(table.list) && cached <= old(cached)
      ensures held == old(held) && created == old(created) && used == old(used) && capacity == old(capacity)
    {
      ghost var mine := cached;
      var e := DetachOldest();
      Discard(e, mine);
    }

    method Discard(e: LRUHandle, ghost mine: set<LRUHandle>)
      requires Accounts(mine) && e in mine && table.Valid() && e in table.handles
      modifies this`usage, this`deleted, this`live, e`refs, table, table.list, table.handles`nextHash
      ensures Accounts(mine - {e}) && table.Valid() && table.handles == old(table.handles) - {e}
      ensures table.list == old(table.list)
    {
      table.RemoveEntry(e);
      Disown(e, mine);
    }

    lemma LiveIs()
      requires Listed() && Accounts(cached)
      ensures live == Existing(order, held)
    {
      forall h | h in live
        ensures h in Existing(order, held)
      {
        assert h.refs > 0;
        if h in cached {
          assert In(h, order);
        }
      }
    }

    /** The entries left are the longest run of newest ones that fits. */
    method Evict()
      requires Valid()
      modifies this, lru, cached, table, table.list
      ensures Valid() && order == Kept(old(order), held, capacity) && table.list == old(table.list)
      ensures usage <= capacity || order == []
      ensures held == old(held) && created == old(created) && used == old(used) && capacity == old(capacity)
    {
      Oldest(lru, order, cached);
      LiveIs();
      while usage > capacity && lru.next != lru
        invariant Valid() && Kept(order, held, capacity) == Kept(old(order), held, capacity)
        invariant table.list == old(table.list) && cached <= old(cached)
        invariant held == old(held) && created == old(created) && used == old(used) && capacity == old(capacity)
        invariant lru.next == lru <==> order == []
        invariant live == Existing(order, held)
        decreases |order|
      {
        EvictOldest();
        Oldest(lru, order, cached);
        LiveIs();
      }
    }

    /** LRU_Append, and the charge. */
    method Admit(e: LRUHandle)
      requires Listed() && Accounts(cached) && e !in created && e != lru && e.refs == 2
      modifies this`order, this`cached, this`used, this`clock, this`usage, this`held, this`live, this`created,
        lru`next, lru`prev, cached`next, e`next, e`prev
      ensures Listed() && Accounts(cached) && order == old(order) + [e] && cached == old(cached) + {e} && e !in old(cached)
      ensures held == old(held) + multiset{e} && created == old(created) + {e} && used == old(used)[e := old(clock)]
    {
      ghost var mine := cached;
      Attach(e);
      Charge(e, mine);
    }

    /** The entry goes to the table, in place of one with the same hash and key. */
    method Enter(e: LRUHandle) returns (was: LRUHandle?)
      requires Listed() && Accounts(cached) && table.Valid() && e !in table.handles && cached == table.handles + {e}
      modifies this, lru, cached, table, table.list
      ensures held == old(held) && created == old(created) && used == old(used) && capacity == old(capacity)
      ensures Valid() && was == (if IdOf(e) in old(table.contents) then old(table.contents)[IdOf(e)] else null)
      ensures cached <= old(cached) && was != e
      ensures Lost(old(order), order, was)
      ensures table.list == old(table.list) || fresh(table.list)
    {
      was := table.Insert(e);
      if was != null {
        ghost var k := Forget(was);
      }
    }

    method DetachOldest() returns (e: LRUHandle)
      requires Listed() && order != []
      modifies this`order, this`cached, lru`next, lru`prev, cached`next, cached`prev
      ensures Listed() && order == old(order)[1..] && cached == old(cached) - {e} && e in old(cached)
    {
      Oldest(lru, order, cached);
      e := lru.next;
      Detach(e, 0);
    }
  }

  lemma Renumbered(before: seq<LRUHandle>, after: seq<LRUHandle>, was: LRUHandle?, e: LRUHandle)
    requires Distinct(before + [e]) && was != e && Lost(before + [e], after, was)
    ensures after == Without(before, was) + [e]
  {
    var all := before + [e];
    assert all[..|before|] == before;
    if was == null {
      WithoutNone(before, was);
    } else {
      var k :| 0 <= k < |all| && all[k] == was && after == Drop(all, k);
      WithoutIsDrop(all, k);
    }
  }

  lemma Oldest(lru: LRUHandle, order: seq<LRUHandle>, cached: set<LRUHandle>)
    requires Circular(lru, order, cached) && lru !in cached
    ensures lru.next == if order == [] then lru else order[0]
    ensures lru.next == lru <==> order == []
  {
    var ring := Ring(lru, order);
    assert ring[0].next == ring[1];
  }
}
