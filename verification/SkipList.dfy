/** The skip list as its one writer and a reader without interference use it
    (db/skiplist.h): the searches as loops, Insert, Contains and the iterator. */
module SkipLists {
  import opened SkipListMemory
  import opened SkipListConcurrent

  /** The new node carries key and height and is linked at the levels below l. */
  ghost predicate LinkedBelow<K(!new)>(lt: (K, K) -> bool, m: Memory<K>, l: nat, prev: seq<nat>, height: nat, key: K) {
    && Inv(lt, m, l)
    && WriterInv(lt, m, Linking(l, prev))
    && |m.nodes[|m.nodes| - 1].next| == height
    && m.nodes[|m.nodes| - 1].key == key
  }

  lemma OwnStoreRound<K(!new)>(lt: (K, K) -> bool, m: Memory<K>, l: nat, prev: seq<nat>, height: nat, key: K)
    requires StrictWeakOrder(lt) && LinkedBelow(lt, m, l, prev, height, key)
    ensures var m' := SetNext(m, |m.nodes| - 1, l, m.nodes[prev[l]].next[l]);
            && Inv(lt, m', l) && WriterInv(lt, m', Publishing(l, prev))
            && |m'.nodes[|m'.nodes| - 1].next| == height && m'.nodes[|m'.nodes| - 1].key == key
            && Keys(m', l) == Keys(m, l)
  {
    OwnStoreKeeps(lt, m, l, prev);
    OwnNextKeeps(lt, m, l, m.nodes[prev[l]].next[l]);
  }

  /** Both stores of one round of the linking loop. */
  lemma LinkRound<K(!new)>(lt: (K, K) -> bool, m: Memory<K>, l: nat, prev: seq<nat>, height: nat, key: K)
    requires StrictWeakOrder(lt) && LinkedBelow(lt, m, l, prev, height, key)
    ensures var m1 := SetNext(m, |m.nodes| - 1, l, m.nodes[prev[l]].next[l]);
            && prev[l] + 1 < |m1.nodes| && l < |m1.nodes[prev[l]].next|
            && var m2 := Publish(m1, prev[l], l);
            if l + 1 < height then
              LinkedBelow(lt, m2, l + 1, prev, height, key)
              && Keys(m2, l + 1) == Keys(m, l) + if l == 0 then {key} else {}
            else
              Inv(lt, m2, MAX_HEIGHT)
              && Keys(m2, MAX_HEIGHT) == Keys(m, l) + if l == 0 then {key} else {}
  {
    OwnStoreRound(lt, m, l, prev, height, key);
    PublishStoreKeeps(lt, SetNext(m, |m.nodes| - 1, l, m.nodes[prev[l]].next[l]), l, prev);
  }

  class SkipList<K(!new)> {
    const lt: (K, K) -> bool
    var mem: Memory<K>

    ghost predicate Valid()
      reads this
    {
      StrictWeakOrder(lt) && Inv(lt, mem, MAX_HEIGHT)
    }

    /** The set of keys inserted so far. */
    ghost function Contents(): set<K>
      requires Valid()
      reads this
    {
      Keys(mem, MAX_HEIGHT)
    }

    constructor (lt: (K, K) -> bool)
      requires StrictWeakOrder(lt)
      ensures Valid() && this.lt == lt && Contents() == {}
    {
      this.lt := lt;
      mem := Empty();
      EmptyInv(lt);
    }

    /** The earliest node at or after key, and on every used level the last node before it. */
    method FindGreaterOrEqual(key: K) returns (result: Link, prev: seq<nat>)
      requires Valid()
      ensures Answers(lt, mem, MAX_HEIGHT, AtOrAfter(key), result)
      ensures PrevFound(lt, mem, MAX_HEIGHT, prev, key, 0, mem.maxHeight)
    {
      var x, level := 0, mem.maxHeight - 1;
      prev := seq(MAX_HEIGHT, _ => 0);
      while true
        invariant 0 <= level < mem.maxHeight
        invariant Published(mem, MAX_HEIGHT, x, level) && Below(lt, mem.nodes[x], key)
        invariant PrevFound(lt, mem, MAX_HEIGHT, prev, key, level + 1, mem.maxHeight)
        decreases level, |After(lt, mem, x)|
      {
        LoadIsSet(lt, mem, MAX_HEIGHT, x, level);
        var next := mem.nodes[x].next[level];
        if KeyIsAfter(lt, mem, key, next) {
          AfterShrinks(lt, mem, x, next.node);
          x := next.node;
        } else {
          prev := prev[level := x];
          if level == 0 {
            FinalLoadAnswers(lt, mem, MAX_HEIGHT, Walking(AtOrAfter(key), x, 0));
            return next, prev;
          }
          level := level - 1;
        }
      }
    }

    /** The latest node before key, or the head. */
    method FindLessThan(key: K) returns (x: nat)
      requires Valid()
      ensures Answers(lt, mem, MAX_HEIGHT, LastBefore(key), To(x))
    {
      var level := mem.maxHeight - 1;
      x := 0;
      while true
        invariant 0 <= level < mem.maxHeight
        invariant Published(mem, MAX_HEIGHT, x, level) && Below(lt, mem.nodes[x], key)
        decreases level, |After(lt, mem, x)|
      {
        LoadIsSet(lt, mem, MAX_HEIGHT, x, level);
        var next := mem.nodes[x].next[level];
        if next.Null? || !lt(mem.nodes[next.node].key, key) {
          if level == 0 {
            FinalLoadAnswers(lt, mem, MAX_HEIGHT, Walking(LastBefore(key), x, 0));
            return;
          }
          level := level - 1;
        } else {
          AfterShrinks(lt, mem, x, next.node);
          x := next.node;
        }
      }
    }

    /** The last node, or the head when the list is empty. */
    method FindLast() returns (x: nat)
      requires Valid()
      ensures Answers(lt, mem, MAX_HEIGHT, LastOfAll, To(x))
    {
      var level := mem.maxHeight - 1;
      x := 0;
      while true
        invariant 0 <= level < mem.maxHeight
        invariant Published(mem, MAX_HEIGHT, x, level)
        decreases level, |After(lt, mem, x)|
      {
        LoadIsSet(lt, mem, MAX_HEIGHT, x, level);
        var next := mem.nodes[x].next[level];
        if next.Null? {
          if level == 0 {
            FinalLoadAnswers(lt, mem, MAX_HEIGHT, Walking(LastOfAll, x, 0));
            return;
          }
          level := level - 1;
        } else {
          AfterShrinks(lt, mem, x, next.node);
          x := next.node;
        }
      }
    }

    /** Insert with the height RandomHeight draws.  The caller promises that nothing equal to
        key is in the list. */
    method Insert(key: K, height: nat)
      requires Valid() && 1 <= height <= MAX_HEIGHT
      requires forall k :: k in Contents() ==> !Equal(lt, k, key)
      modifies this
      ensures Valid() && Contents() == old(Contents()) + {key}
    {
      FreshKey(key);
      var x, prev := FindGreaterOrEqual(key);
      RaisedKeeps(lt, mem, key, prev, height);
      RaiseHeightKeeps(lt, mem, MAX_HEIGHT, height);
      prev := HeadFrom(prev, mem.maxHeight, height);
      mem := RaiseHeight(mem, height);
      AllocationKeeps(lt, mem, key, height, prev);
      NewNodeKeeps(lt, mem, key, height);
      mem := NewNode(mem, key, height);
      LinkNode(prev);
    }

    /** The linking loop: bottom-up, one level per round. */
    method LinkNode(prev: seq<nat>)
      requires StrictWeakOrder(lt) && Inv(lt, mem, 0) && WriterInv(lt, mem, Linking(0, prev))
      modifies this
      ensures Valid()
      ensures Contents() == old(Keys(mem, 0)) + {old(mem.nodes[|mem.nodes| - 1].key)}
    {
      var i, height := 0, |mem.nodes[|mem.nodes| - 1].next|;
      ghost var before, key := Keys(mem, 0), mem.nodes[|mem.nodes| - 1].key;
      while i < height
        invariant 0 <= i <= height
        invariant i < height ==> LinkedBelow(lt, mem, i, prev, height, key)
        invariant i < height ==> Keys(mem, i) == before + if i == 0 then {} else {key}
        invariant i == height ==> Inv(lt, mem, MAX_HEIGHT) && Keys(mem, MAX_HEIGHT) == before + {key}
      {
        LinkRound(lt, mem, i, prev, height, key);
        mem := SetNext(mem, |mem.nodes| - 1, i, mem.nodes[prev[i]].next[i]);
        mem := Publish(mem, prev[i], i);
        i := i + 1;
      }
    }

    lemma FreshKey(key: K)
      requires Valid() && forall k :: k in Contents() ==> !Equal(lt, k, key)
      ensures Fresh(lt, mem, key)
    {
      forall n | 0 < n < |mem.nodes|
        ensures !Equal(lt, mem.nodes[n].key, key)
      {
        assert Published(mem, MAX_HEIGHT, n, 0);
        assert mem.nodes[n].key in Contents();
      }
    }

    method Contains(key: K) returns (found: bool)
      requires Valid()
      ensures found <==> exists k :: k in Contents() && Equal(lt, k, key)
    {
      var x, _ := FindGreaterOrEqual(key);
      found := x.To? && Equal(lt, key, mem.nodes[x.node].key);
      if found {
        assert mem.nodes[x.node].key in Contents();
      }
    }
  }

  /** k is the least of the keys for which p holds. */
  ghost predicate IsLeast<K(!new)>(lt: (K, K) -> bool, keys: set<K>, p: K -> bool, k: K) {
    k in keys && p(k) && forall o :: o in keys && p(o) ==> !lt(o, k)
  }

  /** k is the greatest of the keys for which p holds. */
  ghost predicate IsGreatest<K(!new)>(lt: (K, K) -> bool, keys: set<K>, p: K -> bool, k: K) {
    k in keys && p(k) && forall o :: o in keys && p(o) ==> !lt(k, o)
  }

  /** SkipList::Iterator: a null node means not Valid(). */
  class Iterator<K(!new)> {
    const list: SkipList<K>
    var node: Link

    ghost predicate Ok()
      reads this, list
    {
      && list.Valid()
      && !node.Unset?
      && (node.To? ==> 0 < node.node && Published(list.mem, MAX_HEIGHT, node.node, 0))
    }

    predicate Valid()
      reads this
    {
      node.To?
    }

    function Key(): K
      requires Ok() && Valid()
      reads this, list
    {
      list.mem.nodes[node.node].key
    }

    /** The iterator rests on the least key satisfying p, or is invalid when there is none. */
    ghost predicate AtLeast(p: K -> bool)
      requires Ok()
      reads this, list
    {
      if Valid() then IsLeast(list.lt, list.Contents(), p, Key())
      else forall k :: k in list.Contents() ==> !p(k)
    }

    ghost predicate AtGreatest(p: K -> bool)
      requires Ok()
      reads this, list
    {
      if Valid() then IsGreatest(list.lt, list.Contents(), p, Key())
      else forall k :: k in list.Contents() ==> !p(k)
    }

    constructor (list: SkipList<K>)
      requires list.Valid()
      ensures this.list == list && Ok() && !Valid()
    {
      this.list := list;
      node := Null;
    }

    method Seek(target: K)
      requires Ok()
      modifies this
      ensures Ok() && AtLeast(k => !list.lt(k, target))
    {
      var x, _ := list.FindGreaterOrEqual(target);
      node := x;
      Visible();
    }

    method SeekToFirst()
      requires Ok()
      modifies this
      ensures Ok() && AtLeast(_ => true)
    {
      LoadIsSet(list.lt, list.mem, MAX_HEIGHT, 0, 0);
      assert Successor(list.lt, list.mem, MAX_HEIGHT, 0, 0);
      node := list.mem.nodes[0].next[0];
      Visible();
    }

    method SeekToLast()
      requires Ok()
      modifies this
      ensures Ok() && AtGreatest(_ => true)
    {
      var x := list.FindLast();
      node := if x == 0 then Null else To(x);
      Visible();
    }

    method Next()
      requires Ok() && Valid()
      modifies this
      ensures Ok() && var was := old(Key()); AtLeast(k => list.lt(was, k))
    {
      LoadIsSet(list.lt, list.mem, MAX_HEIGHT, node.node, 0);
      assert Successor(list.lt, list.mem, MAX_HEIGHT, node.node, 0);
      node := list.mem.nodes[node.node].next[0];
      Visible();
    }

    method Prev()
      requires Ok() && Valid()
      modifies this
      ensures Ok() && var was := old(Key()); AtGreatest(k => list.lt(k, was))
    {
      var x := list.FindLessThan(Key());
      node := if x == 0 then Null else To(x);
      Visible();
    }

    /** The contents are the keys of the nodes published at level 0. */
    lemma Visible()
      requires list.Valid()
      ensures forall k :: k in list.Contents() <==>
                exists n :: 0 < n && Published(list.mem, MAX_HEIGHT, n, 0) && list.mem.nodes[n].key == k
      ensures forall n :: 0 < n && Published(list.mem, MAX_HEIGHT, n, 0) ==> list.mem.nodes[n].key in list.Contents()
    {
    }
  }
}
