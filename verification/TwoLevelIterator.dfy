/** TwoLevelIterator (table/two_level_iterator.cpp) is a cursor over the concatenation of the
    blocks its index names, empty blocks included. */
module TwoLevelIterators {
  import opened Coding
  import opened Cursors

  /** The block function: the entries of the block a handle names. */
  type Opener = bytes -> seq<Entry>

  function BlockOf(index: seq<Entry>, open: Opener, i: nat): seq<Entry>
    requires i < |index|
  {
    open(index[i].value)
  }

  /** The entries of the first n blocks. */
  function Flat(index: seq<Entry>, open: Opener, n: nat): seq<Entry>
    requires n <= |index|
  {
    if n == 0 then [] else Flat(index, open, n - 1) + BlockOf(index, open, n - 1)
  }

  function All(index: seq<Entry>, open: Opener): seq<Entry> { Flat(index, open, |index|) }

  function Start(index: seq<Entry>, open: Opener, i: nat): nat
    requires i <= |index|
  {
    |Flat(index, open, i)|
  }

  lemma {:induction false} FlatPrefix(index: seq<Entry>, open: Opener, i: nat, n: nat)
    requires i <= n <= |index|
    ensures Flat(index, open, i) <= Flat(index, open, n)
  {
    if i < n {
      FlatPrefix(index, open, i, n - 1);
    }
  }

  /** Block i takes the positions from Start(i) to Start(i + 1). */
  lemma BlockAt(index: seq<Entry>, open: Opener, i: nat)
    requires i < |index|
    ensures Start(index, open, i + 1) == Start(index, open, i) + |BlockOf(index, open, i)| <= |All(index, open)|
    ensures forall p :: 0 <= p < |BlockOf(index, open, i)| ==>
              All(index, open)[Start(index, open, i) + p] == BlockOf(index, open, i)[p]
  {
    FlatPrefix(index, open, i + 1, |index|);
  }

  /** Every index key lies at or after the keys of its block and before those of later blocks. */
  ghost predicate Separates(lt: KeyLess, index: seq<Entry>, open: Opener) {
    && Ordered(lt)
    && Sorted(lt, index)
    && (forall i, p :: 0 <= i < |index| && 0 <= p < |BlockOf(index, open, i)| ==>
          !lt(index[i].key, BlockOf(index, open, i)[p].key))
    && (forall i, j, p :: 0 <= i < j < |index| && 0 <= p < |BlockOf(index, open, j)| ==>
          lt(index[i].key, BlockOf(index, open, j)[p].key))
  }

  /** The keys of the first i blocks are before the target when the index key before i is. */
  lemma {:induction false} EarlierBlocks(lt: KeyLess, index: seq<Entry>, open: Opener, i: nat, target: bytes)
    requires Separates(lt, index, open) && i <= |index|
    requires forall j :: 0 <= j < i ==> lt(index[j].key, target)
    ensures forall q :: 0 <= q < Start(index, open, i) ==> lt(Flat(index, open, i)[q].key, target)
  {
    if i > 0 {
      EarlierBlocks(lt, index, open, i - 1, target);
      var block := BlockOf(index, open, i - 1);
      forall p | 0 <= p < |block|
        ensures lt(block[p].key, target)
      {
        Between(lt, index[i - 1].key, target, block[p].key);
      }
    }
  }

  /** The keys of the blocks after block i lie after every key its index key is not before. */
  lemma {:induction false} LaterBlocks(lt: KeyLess, index: seq<Entry>, open: Opener, i: nat, n: nat, target: bytes)
    requires Separates(lt, index, open) && i < n <= |index| && !lt(index[i].key, target)
    ensures forall q :: Start(index, open, i + 1) <= q < Start(index, open, n) ==> !lt(Flat(index, open, n)[q].key, target)
  {
    if i + 1 < n {
      LaterBlocks(lt, index, open, i, n - 1, target);
      FlatPrefix(index, open, i + 1, n - 1);
      var block := BlockOf(index, open, n - 1);
      forall p | 0 <= p < |block|
        ensures !lt(block[p].key, target)
      {
        var k := block[p].key;
        assert lt(index[i].key, k);
        if lt(k, target) {
          Transitive(lt, index[i].key, k, target);
        }
      }
    }
  }

  /** Seeking in the block the index names finds the first key of the whole list. */
  lemma SeekInBlock(lt: KeyLess, index: seq<Entry>, open: Opener, target: bytes)
    requires Separates(lt, index, open)
    ensures var i := FirstAtLeast(lt, index, target);
            FirstAtLeast(lt, All(index, open), target)
            == if i < |index| then Start(index, open, i) + FirstAtLeast(lt, BlockOf(index, open, i), target)
               else |All(index, open)|
  {
    var i, all := FirstAtLeast(lt, index, target), All(index, open);
    EarlierBlocks(lt, index, open, i, target);
    if i < |index| {
      var block, start := BlockOf(index, open, i), Start(index, open, i);
      var p := FirstAtLeast(lt, block, target);
      BlockAt(index, open, i);
      FlatPrefix(index, open, i, |index|);
      LaterBlocks(lt, index, open, i, |index|, target);
      forall q | 0 <= q < start + p
        ensures lt(all[q].key, target)
      {
        if q >= start {
          assert all[start + (q - start)] == block[q - start];
        }
      }
      FirstAtLeastIs(lt, all, target, start + p);
    } else {
      FirstAtLeastIs(lt, all, target, |all|);
    }
  }

  class TwoLevelIterator {
    const open: Opener
    ghost const list: seq<Entry>
    var index: Cursor
    var data: Option<Cursor>
    var dataHandle: bytes

    /** An open data block is the one the index stands at. */
    ghost predicate Opened()
      reads this
    {
      && index.entries == list && index.pos <= |list|
      && (data.Some? ==>
            && data.value.entries == open(dataHandle) && data.value.pos <= |data.value.entries|
            && index.Valid() && dataHandle == index.Current().value)
      && (data.None? ==> !index.Valid())
    }

    ghost predicate Valid()
      reads this
    {
      Opened() && (data.Some? ==> data.value.Valid())
    }

    /** The position in the concatenation. */
    ghost function Location(): nat
      requires Opened()
      reads this
    {
      if data.None? then |All(list, open)| else Start(list, open, index.pos) + data.value.pos
    }

    ghost function Cursor(): Cursor
      requires Valid()
      reads this
    {
      Cursors.Cursor(All(list, open), Location())
    }

    /** Valid(), key() and value() are those of the data iterator. */
    lemma CurrentIsHere()
      requires Valid()
      ensures Cursor().Valid() == data.Some?
      ensures data.Some? ==> Cursor().Current() == data.value.Current()
    {
      if data.Some? {
        BlockAt(list, open, index.pos);
      }
    }

    constructor (index: Cursor, open: Opener)
      requires index.pos == |index.entries|
      ensures Valid() && Cursor() == Cursors.Cursor(All(index.entries, open), |All(index.entries, open)|)
      ensures this.open == open && this.list == index.entries
    {
      this.index, this.open, this.list := index, open, index.entries;
      data, dataHandle := None, [];
    }

    /** Opens the block the index stands at, unless it is open already. */
    method InitDataBlock()
      requires index.entries == list && index.pos <= |list|
      requires data.Some? ==> data.value.entries == open(dataHandle) && data.value.pos <= |data.value.entries|
      modifies this`data, this`dataHandle
      ensures Opened()
    {
      if !index.Valid() {
        data := None;
      } else {
        var handle := index.Current().value;
        if data.Some? && handle == dataHandle {
          // already constructed with this handle
        } else {
          var entries := open(handle);
          dataHandle := handle;
          data := Some(Cursors.Cursor(entries, |entries|));
        }
      }
    }

    method SkipEmptyDataBlocksForward()
      requires Opened()
      modifies this
      ensures Valid() && Location() == old(Location())
    {
      ghost var goal := Location();
      while data.None? || !data.value.Valid()
        invariant Opened() && Location() == goal
        decreases |list| - index.pos, data
      {
        if !index.Valid() {
          data := None;
          return;
        }
        BlockAt(list, open, index.pos);
        index := index.Next();
        InitDataBlock();
        if data.Some? {
          data := Some(data.value.SeekToFirst());
        }
      }
    }

    /** The position before block i. */
    ghost function LocationBefore(i: nat): nat
      requires i <= |list|
    {
      if Start(list, open, i) == 0 then |All(list, open)| else Start(list, open, i) - 1
    }

    method SkipEmptyDataBlocksBackward()
      requires Opened()
      modifies this
      ensures Valid()
      ensures Location() == if old(data.None?) || old(data.value.Valid()) then old(Location())
                            else old(LocationBefore(index.pos))
    {
      ghost var goal := if data.None? || data.value.Valid() then Location() else LocationBefore(index.pos);
      while data.None? || !data.value.Valid()
        invariant Opened()
        invariant goal == if data.None? || data.value.Valid() then Location() else LocationBefore(index.pos)
        decreases if data.None? then 0 else index.pos + 1
      {
        if !index.Valid() {
          data := None;
          return;
        }
        if index.pos > 0 {
          BlockAt(list, open, index.pos - 1);
        }
        index := index.Prev();
        InitDataBlock();
        if data.Some? {
          data := Some(data.value.SeekToLast());
        }
      }
    }

    method SeekToFirst()
      requires Valid()
      modifies this
      ensures Valid() && Cursor() == old(Cursor()).SeekToFirst()
    {
      index := index.SeekToFirst();
      InitDataBlock();
      if data.Some? {
        data := Some(data.value.SeekToFirst());
      }
      SkipEmptyDataBlocksForward();
    }

    method SeekToLast()
      requires Valid()
      modifies this
      ensures Valid() && Cursor() == old(Cursor()).SeekToLast()
    {
      index := index.SeekToLast();
      InitDataBlock();
      if data.Some? {
        data := Some(data.value.SeekToLast());
        BlockAt(list, open, index.pos);
      }
      SkipEmptyDataBlocksBackward();
    }

    method Seek(lt: KeyLess, target: bytes)
      requires Valid() && Separates(lt, list, open)
      modifies this
      ensures Valid() && Cursor() == old(Cursor()).Seek(lt, target)
    {
      SeekInBlock(lt, list, open, target);
      SeekThroughIndex(lt, target);
    }

    method SeekThroughIndex(lt: KeyLess, target: bytes)
      requires Valid()
      requires var i := FirstAtLeast(lt, list, target);
               FirstAtLeast(lt, All(list, open), target)
               == if i < |list| then Start(list, open, i) + FirstAtLeast(lt, BlockOf(list, open, i), target)
                  else |All(list, open)|
      modifies this
      ensures Valid() && Cursor() == old(Cursor()).Seek(lt, target)
    {
      index := index.Seek(lt, target);
      InitDataBlock();
      if data.Some? {
        data := Some(data.value.Seek(lt, target));
      }
      SkipEmptyDataBlocksForward();
    }

    method Next()
      requires Valid() && Cursor().Valid()
      modifies this
      ensures Valid() && Cursor() == old(Cursor()).Next()
    {
      CurrentIsHere();
      data := Some(data.value.Next());
      SkipEmptyDataBlocksForward();
    }

    method Prev()
      requires Valid() && Cursor().Valid()
      modifies this
      ensures Valid() && Cursor() == old(Cursor()).Prev()
    {
      CurrentIsHere();
      data := Some(data.value.Prev());
      SkipEmptyDataBlocksBackward();
    }
  }
}
