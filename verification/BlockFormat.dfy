/** The bytes of a block (table/block_builder.cpp, table/block.cpp).

    Keys share prefixes with their predecessors except at restart points, whose offsets close
    the block.  A Layout records, beside the entries, how many key bytes each one shares and
    which entries are restart points; nothing else about the builder matters to a reader. */
module BlockFormat {
  import opened Coding
  import opened Cursors
  import opened EntryCodec

  datatype Layout = Layout(entries: seq<Entry>, shared: seq<nat>, starts: seq<nat>)

  /** The prefix entry i takes over from entry i - 1 is a prefix of both keys. */
  ghost predicate SharesPrefix(b: Layout, i: nat)
    requires i < |b.entries| == |b.shared|
  {
    && b.shared[i] <= |b.entries[i].key|
    && (if i == 0 then b.shared[i] == 0
        else b.shared[i] <= |b.entries[i - 1].key|
             && b.entries[i].key[..b.shared[i]] == b.entries[i - 1].key[..b.shared[i]])
  }

  predicate Encodable(b: Layout) {
    |b.shared| == |b.entries| && forall i :: 0 <= i < |b.entries| ==> b.shared[i] <= |b.entries[i].key|
  }

  ghost predicate WellFormed(b: Layout) {
    && Encodable(b)
    && (forall i :: 0 <= i < |b.entries| ==> SharesPrefix(b, i))
    && 0 < |b.starts| && b.starts[0] == 0
    && (forall j, k :: 0 <= j < k < |b.starts| ==> b.starts[j] < b.starts[k])
    && (forall j :: 0 <= j < |b.starts| ==>
          && b.starts[j] <= |b.entries| && (b.entries != [] ==> b.starts[j] < |b.entries|)
          && (b.starts[j] < |b.entries| ==> b.shared[b.starts[j]] == 0))
  }

  /** The first n entries. */
  function Body(cd: Codec, b: Layout, n: nat): bytes
    requires Encodable(b) && n <= |b.entries|
  {
    if n == 0 then [] else Body(cd, b, n - 1) + cd.encode(b.shared[n - 1], b.entries[n - 1])
  }

  function Offset(cd: Codec, b: Layout, i: nat): nat
    requires Encodable(b) && i <= |b.entries|
  {
    |Body(cd, b, i)|
  }

  lemma {:induction false} BodyPrefix(cd: Codec, b: Layout, i: nat, n: nat)
    requires Sound(cd) && Encodable(b) && i <= n <= |b.entries|
    ensures Offset(cd, b, i) <= Offset(cd, b, n) && Body(cd, b, n)[..Offset(cd, b, i)] == Body(cd, b, i)
    ensures i < n ==> Offset(cd, b, i) + 3 <= Offset(cd, b, n)
  {
    if i < n {
      BodyPrefix(cd, b, i, n - 1);
      var last := cd.encode(b.shared[n - 1], b.entries[n - 1]);
      assert |last| >= 3;
      assert (Body(cd, b, n - 1) + last)[..Offset(cd, b, i)] == Body(cd, b, n - 1)[..Offset(cd, b, i)];
    }
  }

  function StartOffsets(cd: Codec, b: Layout): seq<nat>
    requires WellFormed(b)
  {
    seq(|b.starts|, j requires 0 <= j < |b.starts| => Offset(cd, b, b.starts[j]))
  }

  /** The whole block, as Finish returns it. */
  function Contents(cd: Codec, b: Layout): bytes
    requires WellFormed(b)
  {
    Body(cd, b, |b.entries|) + Fixed32Array(StartOffsets(cd, b)) + Fixed32(|b.starts|)
  }

  // ---- finding entries ------------------------------------------------------------------

  /** Entry i, and what follows it in the body. */
  lemma EntryAt(cd: Codec, b: Layout, i: nat)
    requires Sound(cd) && Encodable(b) && i < |b.entries|
    ensures Offset(cd, b, i) < Offset(cd, b, i + 1) <= Offset(cd, b, |b.entries|)
    ensures Body(cd, b, |b.entries|)[Offset(cd, b, i)..Offset(cd, b, i + 1)] == cd.encode(b.shared[i], b.entries[i])
  {
    BodyPrefix(cd, b, i, i + 1);
    BodyPrefix(cd, b, i + 1, |b.entries|);
    var whole, upto := Body(cd, b, |b.entries|), Body(cd, b, i + 1);
    assert whole[Offset(cd, b, i)..Offset(cd, b, i + 1)] == whole[..Offset(cd, b, i + 1)][Offset(cd, b, i)..];
    assert upto[Offset(cd, b, i)..] == cd.encode(b.shared[i], b.entries[i]);
  }

  /** A key is no longer than the block up to its entry: it is rebuilt from bytes in it. */
  lemma {:induction false} KeyFits(cd: Codec, b: Layout, i: nat)
    requires Sound(cd) && WellFormed(b) && i < |b.entries|
    ensures |b.entries[i].key| <= Offset(cd, b, i + 1) && b.shared[i] <= Offset(cd, b, i)
  {
    assert SharesPrefix(b, i);
    if i > 0 {
      KeyFits(cd, b, i - 1);
    }
    assert |cd.encode(b.shared[i], b.entries[i])| >= |b.entries[i].key| - b.shared[i];
    assert Offset(cd, b, i + 1) == Offset(cd, b, i) + |cd.encode(b.shared[i], b.entries[i])|;
  }

  // ---- appending an entry ---------------------------------------------------------------

  lemma {:induction false} BodyAgrees(cd: Codec, b: Layout, c: Layout, n: nat)
    requires Encodable(b) && Encodable(c) && n <= |b.entries| && n <= |c.entries|
    requires forall i :: 0 <= i < n ==> b.entries[i] == c.entries[i] && b.shared[i] == c.shared[i]
    ensures Body(cd, b, n) == Body(cd, c, n)
  {
    if n > 0 {
      BodyAgrees(cd, b, c, n - 1);
    }
  }

  /** The layout with one more entry, which shares `shared` bytes or opens a restart. */
  function Appended(b: Layout, shared: nat, e: Entry, restart: bool): Layout {
    Layout(b.entries + [e], b.shared + [shared], if restart then b.starts + [|b.entries|] else b.starts)
  }

  /** The new entry may share these bytes with the last one. */
  ghost predicate MayAppend(b: Layout, shared: nat, e: Entry, restart: bool) {
    && WellFormed(b)
    && shared <= |e.key|
    && (b.entries == [] ==> shared == 0 && !restart && b.starts == [0])
    && (b.entries != [] ==>
          var last := b.entries[|b.entries| - 1].key;
          shared <= |last| && e.key[..shared] == last[..shared])
    && (restart ==> shared == 0)
  }

  lemma AppendWellFormed(b: Layout, shared: nat, e: Entry, restart: bool)
    requires MayAppend(b, shared, e, restart)
    ensures WellFormed(Appended(b, shared, e, restart))
  {
    var c := Appended(b, shared, e, restart);
    assert Encodable(c);
    forall i | 0 <= i < |c.entries|
      ensures SharesPrefix(c, i)
    {
      if i < |b.entries| {
        assert SharesPrefix(b, i);
      }
    }
  }

  lemma AppendBody(cd: Codec, b: Layout, shared: nat, e: Entry, restart: bool, i: nat)
    requires Encodable(b) && shared <= |e.key| && i <= |b.entries|
    ensures var c := Appended(b, shared, e, restart);
            && Encodable(c)
            && Body(cd, c, i) == Body(cd, b, i)
            && (i == |b.entries| ==> Body(cd, c, |c.entries|) == Body(cd, b, i) + cd.encode(shared, e))
  {
    BodyAgrees(cd, b, Appended(b, shared, e, restart), i);
  }

  lemma AppendStarts(cd: Codec, b: Layout, shared: nat, e: Entry, restart: bool)
    requires MayAppend(b, shared, e, restart)
    ensures WellFormed(Appended(b, shared, e, restart))
    ensures StartOffsets(cd, Appended(b, shared, e, restart))
            == if restart then StartOffsets(cd, b) + [Offset(cd, b, |b.entries|)] else StartOffsets(cd, b)
  {
    AppendWellFormed(b, shared, e, restart);
    var c := Appended(b, shared, e, restart);
    forall j | 0 <= j < |b.starts|
      ensures Offset(cd, c, c.starts[j]) == Offset(cd, b, b.starts[j])
    {
      AppendBody(cd, b, shared, e, restart, b.starts[j]);
    }
    AppendBody(cd, b, shared, e, restart, |b.entries|);
  }
}
