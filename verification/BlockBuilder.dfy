/** BlockBuilder (table/block_builder.cpp). */
module BlockBuilders {
  import opened Coding
  import opened Cursors
  import Comparators
  import opened EntryCodec
  import opened BlockFormat

  ghost predicate Spaced(starts: seq<nat>, j: nat, interval: nat)
    requires j + 1 < |starts|
  {
    starts[j + 1] == starts[j] + interval
  }

  /** A restart every `interval` entries, and every other key without the longest prefix that it
      has in common with the one before it. */
  ghost predicate Compressed(b: Layout, interval: nat)
    requires WellFormed(b)
  {
    && (forall j :: 0 <= j < |b.starts| - 1 ==> Spaced(b.starts, j, interval))
    && |b.entries| - b.starts[|b.starts| - 1] <= interval
    && (forall i {:trigger b.shared[i]} :: 0 < i < |b.entries| ==>
          b.shared[i] == if i in b.starts then 0 else Comparators.CommonLength(b.entries[i - 1].key, b.entries[i].key))
  }

  lemma {:induction false} SameStarts(b: Layout, c: Layout, interval: nat, j: nat)
    requires WellFormed(b) && Compressed(b, interval) && WellFormed(c) && Compressed(c, interval)
    requires j < |b.starts| && j < |c.starts|
    ensures b.starts[j] == c.starts[j]
  {
    if j > 0 {
      SameStarts(b, c, interval, j - 1);
      assert Spaced(b.starts, j - 1, interval) && Spaced(c.starts, j - 1, interval);
    }
  }

  lemma NextStart(b: Layout, interval: nat, j: nat)
    requires WellFormed(b) && Compressed(b, interval) && j + 1 < |b.starts|
    ensures b.starts[j + 1] == b.starts[j] + interval < |b.entries|
  {
    assert Spaced(b.starts, j, interval);
    assert b.starts[0] < b.starts[j + 1] <= |b.entries|;
  }

  lemma NoMoreStarts(b: Layout, c: Layout, interval: nat)
    requires WellFormed(b) && Compressed(b, interval) && WellFormed(c) && Compressed(c, interval) && b.entries == c.entries
    ensures |c.starts| <= |b.starts|
  {
    var n := |b.starts|;
    if n < |c.starts| {
      NextStart(c, interval, n - 1);
      SameStarts(b, c, interval, n - 1);
    }
  }

  /** The entries of a block and the interval determine all of it. */
  lemma LayoutIsUnique(b: Layout, c: Layout, interval: nat)
    requires WellFormed(b) && Compressed(b, interval) && WellFormed(c) && Compressed(c, interval) && b.entries == c.entries
    ensures b == c
  {
    NoMoreStarts(b, c, interval);
    NoMoreStarts(c, b, interval);
    forall j | 0 <= j < |b.starts|
      ensures b.starts[j] == c.starts[j]
    {
      SameStarts(b, c, interval, j);
    }
    assert b.starts == c.starts;
    forall i | 0 <= i < |b.shared|
      ensures b.shared[i] == c.shared[i]
    {
      assert SharesPrefix(b, i) && SharesPrefix(c, i);
    }
  }

  /** An unfinished block: the entries so far, with a restart every `interval` entries. */
  ghost predicate Built(cd: Codec, interval: nat, layout: Layout, buffer: bytes, restarts: seq<nat>, counter: nat, lastKey: bytes)
    requires WellFormed(layout)
  {
    && restarts == StartOffsets(cd, layout)
    && buffer == Body(cd, layout, |layout.entries|)
    && Compressed(layout, interval)
    && counter == |layout.entries| - layout.starts[|layout.starts| - 1]
    && lastKey == (if layout.entries == [] then [] else layout.entries[|layout.entries| - 1].key)
  }

  /** Marks where the definition of Building is used, so that the verifier uses it nowhere else. */
  ghost predicate UseBuilding(m: int) { true }

  /** The state of a builder that is not finished. */
  ghost predicate Building(cd: Codec, lt: KeyLess, interval: nat, layout: Layout, buffer: bytes, restarts: seq<nat>, counter: nat, lastKey: bytes) {
    forall m {:trigger UseBuilding(m)} :: UseBuilding(m) ==>
      SortedBlock(cd, lt, interval, layout, buffer, restarts, counter, lastKey)
  }

  ghost predicate SortedBlock(cd: Codec, lt: KeyLess, interval: nat, layout: Layout,
                              buffer: bytes, restarts: seq<nat>, counter: nat, lastKey: bytes)
  {
    WellFormed(layout) && Sorted(lt, layout.entries) && Built(cd, interval, layout, buffer, restarts, counter, lastKey)
  }

  lemma EmptyBuilding(cd: Codec, lt: KeyLess, interval: nat)
    ensures Building(cd, lt, interval, Layout([], [], [0]), [], [0], 0, [])
  {
    var b := Layout([], [], [0]);
    assert WellFormed(b) && StartOffsets(cd, b) == [0] && Compressed(b, interval);
  }

  lemma BuildingStep(cd: Codec, lt: KeyLess, interval: nat, b: Layout, buffer: bytes, restarts: seq<nat>, counter: nat, lastKey: bytes,
                     shared: nat, e: Entry)
    requires 1 <= interval && Ordered(lt) && Building(cd, lt, interval, b, buffer, restarts, counter, lastKey)
    requires b.entries != [] ==> lt(lastKey, e.key)
    requires shared == if interval <= counter then 0 else Comparators.CommonLength(lastKey, e.key)
    ensures var restart := interval <= counter;
            Building(cd, lt, interval, Appended(b, shared, e, restart), buffer + cd.encode(shared, e),
                     if restart then restarts + [|buffer|] else restarts, if restart then 1 else counter + 1, e.key)
  {
    assert UseBuilding(0);
    var restart := interval <= counter;
    SortedStep(cd, lt, interval, b, buffer, restarts, counter, lastKey, shared, e, Appended(b, shared, e, restart),
               buffer + cd.encode(shared, e), if restart then restarts + [|buffer|] else restarts, if restart then 1 else counter + 1);
  }

  lemma SortedStep(cd: Codec, lt: KeyLess, interval: nat, b: Layout, buffer: bytes, restarts: seq<nat>, counter: nat, lastKey: bytes,
                   shared: nat, e: Entry, c: Layout, buffer': bytes, restarts': seq<nat>, counter': nat)
    requires 1 <= interval && Ordered(lt) && SortedBlock(cd, lt, interval, b, buffer, restarts, counter, lastKey)
    requires b.entries != [] ==> lt(lastKey, e.key)
    requires shared == if interval <= counter then 0 else Comparators.CommonLength(lastKey, e.key)
    requires c == Appended(b, shared, e, interval <= counter)
    requires buffer' == buffer + cd.encode(shared, e)
    requires restarts' == if interval <= counter then restarts + [|buffer|] else restarts
    requires counter' == if interval <= counter then 1 else counter + 1
    ensures SortedBlock(cd, lt, interval, c, buffer', restarts', counter', e.key)
  {
    BuiltStep(cd, interval, b, buffer, restarts, counter, lastKey, shared, e, c, buffer', restarts', counter');
    SortedAppend(lt, b.entries, e);
  }

  /** Adding an entry keeps an unfinished block one. */
  lemma BuiltStep(cd: Codec, interval: nat, b: Layout, buffer: bytes, restarts: seq<nat>, counter: nat, lastKey: bytes,
                  shared: nat, e: Entry, c: Layout, buffer': bytes, restarts': seq<nat>, counter': nat)
    requires 1 <= interval && WellFormed(b) && Built(cd, interval, b, buffer, restarts, counter, lastKey)
    requires shared == if interval <= counter then 0 else Comparators.CommonLength(lastKey, e.key)
    requires c == Appended(b, shared, e, interval <= counter)
    requires buffer' == buffer + cd.encode(shared, e)
    requires restarts' == if interval <= counter then restarts + [|buffer|] else restarts
    requires counter' == if interval <= counter then 1 else counter + 1
    ensures WellFormed(c) && Built(cd, interval, c, buffer', restarts', counter', e.key)
  {
    var restart := interval <= counter;
    AppendStarts(cd, b, shared, e, restart);
    AppendBody(cd, b, shared, e, restart, |b.entries|);
    CompressedStep(interval, b, shared, e, c);
  }

  lemma CompressedStep(interval: nat, b: Layout, shared: nat, e: Entry, c: Layout)
    requires 1 <= interval && WellFormed(b) && Compressed(b, interval) && WellFormed(c)
    requires var restart := interval <= |b.entries| - b.starts[|b.starts| - 1];
             && c == Appended(b, shared, e, restart)
             && (b.entries != [] ==>
                   shared == if restart then 0 else Comparators.CommonLength(b.entries[|b.entries| - 1].key, e.key))
    ensures Compressed(c, interval)
  {
    forall j | 0 <= j < |c.starts| - 1
      ensures Spaced(c.starts, j, interval)
    {
      if j < |b.starts| - 1 {
        assert Spaced(b.starts, j, interval);
      }
    }
    forall i | 0 < i < |c.entries|
      ensures c.shared[i] == if i in c.starts then 0 else Comparators.CommonLength(c.entries[i - 1].key, c.entries[i].key)
    {
      StartsStay(b, shared, e, interval <= |b.entries| - b.starts[|b.starts| - 1], i);
      if i < |b.entries| {
        assert b.shared[i] == c.shared[i];
      }
    }
  }

  lemma StartsStay(b: Layout, shared: nat, e: Entry, restart: bool, i: nat)
    requires WellFormed(b) && b.entries != [] && i <= |b.entries|
    ensures i in Appended(b, shared, e, restart).starts <==> if i < |b.entries| then i in b.starts else restart
  {
  }

  class BlockBuilder {
    const cd: Codec
    const lt: KeyLess
    const interval: nat
    var buffer: bytes
    var restarts: seq<nat>
    var counter: nat
    var finished: bool
    var lastKey: bytes
    ghost var layout: Layout

    ghost predicate Valid()
      reads this
    {
      && 1 <= interval
      && if finished then WellFormed(layout) && Sorted(lt, layout.entries) && buffer == Contents(cd, layout)
              && Compressed(layout, interval)
         else Building(cd, lt, interval, layout, buffer, restarts, counter, lastKey)
    }

    constructor (cd: Codec, lt: KeyLess, interval: nat)
      requires 1 <= interval
      ensures Valid() && !finished && layout.entries == [] && this.cd == cd && this.lt == lt && this.interval == interval
    {
      this.cd, this.lt, this.interval := cd, lt, interval;
      buffer, restarts, counter, finished, lastKey := [], [0], 0, false, [];
      layout := Layout([], [], [0]);
      EmptyBuilding(cd, lt, interval);
    }

    method Reset()
      requires Valid()
      modifies this
      ensures Valid() && !finished && layout.entries == []
    {
      buffer, restarts, counter, finished, lastKey := [], [0], 0, false, [];
      layout := Layout([], [], [0]);
      EmptyBuilding(cd, lt, interval);
    }

    /** The caller adds keys in strictly increasing order. */
    method Add(key: bytes, value: bytes)
      requires Valid() && !finished && Ordered(lt)
      requires layout.entries != [] ==> lt(lastKey, key)
      modifies this
      ensures Valid() && !finished
      ensures layout.entries == old(layout.entries) + [Entry(key, value)]
    {
      var shared := 0;
      if counter < interval {
        shared := Comparators.CommonPrefix(lastKey, key);
      }
      BuildingStep(cd, lt, interval, layout, buffer, restarts, counter, lastKey, shared, Entry(key, value));
      var restart := interval <= counter;
      layout := Appended(layout, shared, Entry(key, value), restart);
      if restart {
        restarts := restarts + [|buffer|];
        counter := 0;
      }
      buffer := buffer + cd.encode(shared, Entry(key, value));
      assert lastKey[..shared] + key[shared..] == key;
      lastKey := lastKey[..shared] + key[shared..];
      counter := counter + 1;
    }

    /** Appends the restart array; the block is what is returned. */
    method Finish() returns (block: bytes)
      requires Valid() && !finished
      modifies this
      ensures Valid() && finished && layout == old(layout) && block == Contents(cd, layout) && Compressed(layout, interval)
    {
      assert UseBuilding(0);
      var trailer := RestartBytes(restarts);
      buffer := buffer + trailer;
      buffer := buffer + Fixed32(|restarts|);
      finished := true;
      block := buffer;
    }

    /** The estimate is the size of the block as it would be finished now. */
    lemma EstimateIs()
      requires Valid() && !finished
      ensures WellFormed(layout) && Compressed(layout, interval) && CurrentSizeEstimate() == |Contents(cd, layout)|
    {
      assert UseBuilding(0);
      Fixed32ArrayLength(StartOffsets(cd, layout));
    }

    function CurrentSizeEstimate(): nat
      reads this
    {
      |buffer| + |restarts| * 4 + 4
    }
  }

  method RestartBytes(restarts: seq<nat>) returns (r: bytes)
    ensures r == Fixed32Array(restarts)
  {
    r := [];
    var i := 0;
    while i < |restarts|
      invariant 0 <= i <= |restarts|
      invariant r == Fixed32Array(restarts[..i])
    {
      assert restarts[..i + 1][..i] == restarts[..i];
      r := r + Fixed32(restarts[i]);
      i := i + 1;
    }
    assert restarts[..i] == restarts;
  }

  lemma SortedAppend(lt: KeyLess, entries: seq<Entry>, e: Entry)
    requires Ordered(lt) && Sorted(lt, entries) && (entries != [] ==> lt(entries[|entries| - 1].key, e.key))
    ensures Sorted(lt, entries + [e])
  {
    forall i, j | 0 <= i < j < |entries| + 1
      ensures lt((entries + [e])[i].key, (entries + [e])[j].key)
    {
      if j == |entries| && i < |entries| - 1 {
        Transitive(lt, entries[i].key, entries[|entries| - 1].key, e.key);
      }
    }
  }
}
