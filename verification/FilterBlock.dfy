/** The filter block (table/filter_block.cpp): one filter for every 2 KiB of file offsets. */
module FilterBlocks {
  import opened Coding
  import DbFormat
  import Bloom

  /** A filter policy: the filter for a list of keys, and the test of a key against it. */
  datatype Policy = Policy(create: seq<bytes> -> bytes, matches: (bytes, bytes) -> bool)

  ghost predicate Lawful(p: Policy) {
    forall keys: seq<bytes>, k: bytes {:trigger p.matches(k, p.create(keys))} :: k in keys ==> p.matches(k, p.create(keys))
  }

  function BloomPolicy(hash: Bloom.HashFn, bitsPerKey: nat, k: nat): Policy
    requires k < 256
  {
    Policy((keys: seq<bytes>) => Bloom.Filter(hash, bitsPerKey, k, keys),
           (key: bytes, filter: bytes) => Bloom.MayMatch(hash, key, filter))
  }

  lemma BloomIsLawful(hash: Bloom.HashFn, bitsPerKey: nat, k: nat)
    requires k < 256
    ensures Lawful(BloomPolicy(hash, bitsPerKey, k))
  {
    forall keys: seq<bytes>, key: bytes | key in keys
      ensures Bloom.MayMatch(hash, key, Bloom.Filter(hash, bitsPerKey, k, keys))
    {
      var i :| 0 <= i < |keys| && keys[i] == key;
      Bloom.NoFalseNegatives(hash, bitsPerKey, k, keys, i);
    }
  }

  /** InternalFilterPolicy: the user policy on the user part of the keys. */
  function UserKeys(keys: seq<bytes>): seq<bytes> {
    seq(|keys|, i requires 0 <= i < |keys| => DbFormat.UserKey(keys[i]))
  }

  function InternalPolicy(p: Policy): Policy {
    Policy((keys: seq<bytes>) => p.create(UserKeys(keys)),
           (key: bytes, filter: bytes) => p.matches(DbFormat.UserKey(key), filter))
  }

  lemma InternalIsLawful(p: Policy)
    requires Lawful(p)
    ensures Lawful(InternalPolicy(p))
  {
    forall keys: seq<bytes>, k: bytes | k in keys
      ensures p.matches(DbFormat.UserKey(k), p.create(UserKeys(keys)))
    {
      var i :| 0 <= i < |keys| && keys[i] == k;
      assert UserKeys(keys)[i] == DbFormat.UserKey(k);
    }
  }

  const BASE_LG: byte := 11

  /** block_offset / kFilterBase. */
  function Bucket(offset: nat): nat { offset / 2048 }

  // ---- the block's bytes ----------------------------------------------------------------

  function FilterOf(p: Policy, group: seq<bytes>): bytes {
    if group == [] then [] else p.create(group)
  }

  /** The filters of the first n groups. */
  function Filters(p: Policy, groups: seq<seq<bytes>>, n: nat): bytes
    requires n <= |groups|
  {
    if n == 0 then [] else Filters(p, groups, n - 1) + FilterOf(p, groups[n - 1])
  }

  function Offsets(p: Policy, groups: seq<seq<bytes>>): seq<nat> {
    seq(|groups|, i requires 0 <= i < |groups| => |Filters(p, groups, i)|)
  }

  /** What Finish returns. */
  function Contents(p: Policy, groups: seq<seq<bytes>>): bytes {
    var filters := Filters(p, groups, |groups|);
    filters + Fixed32Array(Offsets(p, groups)) + Fixed32(|filters|) + [BASE_LG]
  }

  // ---- the reader -----------------------------------------------------------------------

  /** FilterBlockReader: where the offset array begins, how many filters there are, and the
      shift that turns a file offset into a filter index. */
  datatype Reader = Reader(words: nat, num: nat, shift: nat)

  /** The constructor; a malformed block has no filters. */
  function Open(contents: bytes): (r: Reader)
    ensures 0 < r.num ==> r.words + 4 * r.num + 5 <= |contents|
  {
    var n := |contents|;
    if n < 5 then Reader(0, 0, 0)
    else
      var words := DecodeFixed32(contents[n - 5..]);
      if words > n - 5 then Reader(0, 0, contents[n - 1])
      else Reader(words, (n - 5 - words) / 4, contents[n - 1])
  }

  /** The i-th word of the offset array; the word after the last filter's is the array's own
      offset. */
  function WordAt(contents: bytes, r: Reader, i: nat): nat
    requires r.words + 4 * i + 4 <= |contents|
  {
    DecodeFixed32(contents[r.words + 4 * i..])
  }

  /** offset >> n. */
  function ShiftRight(offset: nat, n: nat): nat
    decreases n
  {
    if n == 0 then offset else ShiftRight(offset / 2, n - 1)
  }

  predicate KeyMayMatch(p: Policy, contents: bytes, blockOffset: nat, key: bytes) {
    var r := Open(contents);
    MayMatchAt(p, contents, r, ShiftRight(blockOffset, r.shift), key)
  }

  predicate MayMatchAt(p: Policy, contents: bytes, r: Reader, index: nat, key: bytes)
    requires 0 < r.num ==> r.words + 4 * r.num + 5 <= |contents|
  {
    index < r.num ==>
      var start, limit := WordAt(contents, r, index), WordAt(contents, r, index + 1);
      if start <= limit <= r.words then p.matches(key, contents[start..limit])
      else start != limit
  }

  // ---- a key that was added may match ---------------------------------------------------

  lemma {:induction false} FiltersPrefix(p: Policy, groups: seq<seq<bytes>>, i: nat, n: nat)
    requires i <= n <= |groups|
    ensures Filters(p, groups, i) <= Filters(p, groups, n)
  {
    if i < n {
      FiltersPrefix(p, groups, i, n - 1);
    }
  }

  lemma FilterAt(p: Policy, groups: seq<seq<bytes>>, i: nat)
    requires i < |groups|
    ensures var start, limit, all := |Filters(p, groups, i)|, |Filters(p, groups, i + 1)|, Filters(p, groups, |groups|);
            start <= limit <= |all| && all[start..limit] == FilterOf(p, groups[i])
  {
    FiltersPrefix(p, groups, i + 1, |groups|);
  }

  lemma ContentsFramed(p: Policy, groups: seq<seq<bytes>>)
    ensures Framed(Contents(p, groups), Filters(p, groups, |groups|), Offsets(p, groups))
  {
    OffsetsFit(p, groups);
  }

  /** The parts of a filter block. */
  ghost predicate Framed(c: bytes, filters: bytes, words: seq<nat>) {
    c == filters + Fixed32Array(words) + Fixed32(|filters|) + [BASE_LG]
    && forall k :: 0 <= k < |words| ==> words[k] <= |filters|
  }

  /** How the reader finds the offset array. */
  lemma FramedOpen(c: bytes, filters: bytes, words: seq<nat>)
    requires Framed(c, filters, words) && |c| < TWO32
    ensures Open(c) == Reader(|filters|, |words|, 11)
  {
    Fixed32ArrayAt(words, 0);
    var f := Fixed32(|filters|);
    assert c[|c| - 5..] == f + [BASE_LG];
    Fixed32RoundTrip(|filters|, [BASE_LG]);
  }

  lemma OffsetsFit(p: Policy, groups: seq<seq<bytes>>)
    ensures forall k :: 0 <= k < |groups| ==> Offsets(p, groups)[k] <= |Filters(p, groups, |groups|)|
  {
    forall k | 0 <= k < |groups|
      ensures |Filters(p, groups, k)| <= |Filters(p, groups, |groups|)|
    {
      FiltersPrefix(p, groups, k, |groups|);
    }
  }

  /** Word i of the array is where filter i starts, and the word behind it where they end. */
  lemma FramedWord(c: bytes, filters: bytes, words: seq<nat>, i: nat)
    requires Framed(c, filters, words) && |c| < TWO32 && i <= |words|
    ensures |c| == |filters| + 4 * |words| + 5
    ensures WordAt(c, Reader(|filters|, |words|, 11), i) == if i < |words| then words[i] else |filters|
  {
    Fixed32ArrayAt(words, i);
    ArrayWord(filters, Fixed32Array(words), Fixed32(|filters|), [BASE_LG], i, if i < |words| then words[i] else |filters|);
  }

  lemma ArrayWord(front: bytes, a: bytes, f: bytes, last: bytes, i: nat, v: nat)
    requires |a| % 4 == 0 && 4 * i <= |a| && |f| == 4 && v < TWO32
    requires 4 * i < |a| ==> a[4 * i..4 * i + 4] == Fixed32(v)
    requires 4 * i == |a| ==> f == Fixed32(v)
    ensures DecodeFixed32((front + a + f + last)[|front| + 4 * i..]) == v
  {
    var c := front + a + f + last;
    var from := c[|front| + 4 * i..];
    assert from[..4] == Fixed32(v) by {
      if 4 * i < |a| {
        assert from[..4] == a[4 * i..4 * i + 4];
      } else {
        assert from[..4] == f;
      }
    }
    assert from == Fixed32(v) + from[4..];
    Fixed32RoundTrip(v, from[4..]);
  }

  /** The filter that the array bounds decides; beyond the array nothing is ruled out. */
  lemma FramedDecides(p: Policy, c: bytes, filters: bytes, words: seq<nat>, i: nat, limit: nat, key: bytes)
    requires Framed(c, filters, words) && |c| < TWO32 && |c| == |filters| + 4 * |words| + 5
    requires i < |words| ==> limit == (if i + 1 < |words| then words[i + 1] else |filters|) && words[i] <= limit
    ensures MayMatchAt(p, c, Reader(|filters|, |words|, 11), i, key)
            <==> (i < |words| ==> p.matches(key, filters[words[i]..limit]))
  {
    if i < |words| {
      FramedWord(c, filters, words, i);
      FramedWord(c, filters, words, i + 1);
      assert c[words[i]..limit] == filters[words[i]..limit];
    }
  }

  /** Exactly: an offset beyond the last group may always match, and else the filter of the
      group of its bucket decides. */
  lemma BucketDecides(p: Policy, groups: seq<seq<bytes>>, offset: nat, key: bytes)
    requires |Contents(p, groups)| < TWO32
    ensures KeyMayMatch(p, Contents(p, groups), offset, key)
            <==> (Bucket(offset) < |groups| ==> p.matches(key, FilterOf(p, groups[Bucket(offset)])))
  {
    var filters, words, i := Filters(p, groups, |groups|), Offsets(p, groups), Bucket(offset);
    ContentsFramed(p, groups);
    ShiftIs(offset);
    FramedOpen(Contents(p, groups), filters, words);
    FramedWord(Contents(p, groups), filters, words, 0);
    var limit := if i < |groups| then |Filters(p, groups, i + 1)| else 0;
    if i < |groups| {
      FilterAt(p, groups, i);
    }
    FramedDecides(p, Contents(p, groups), filters, words, i, limit, key);
  }

  /** Errors are potential matches: a block too short for its trailer, or whose array would start
      behind it, rules nothing out. */
  lemma MalformedMatches(p: Policy, contents: bytes, offset: nat, key: bytes)
    requires |contents| < 5 || DecodeFixed32(contents[|contents| - 5..]) > |contents| - 5
    ensures KeyMayMatch(p, contents, offset, key)
  {
  }

  /** No false negatives: a key of group i may match at every offset of bucket i. */
  lemma AddedKeyMayMatch(p: Policy, groups: seq<seq<bytes>>, offset: nat, key: bytes)
    requires Lawful(p) && |Contents(p, groups)| < TWO32
    requires Bucket(offset) < |groups| && key in groups[Bucket(offset)]
    ensures KeyMayMatch(p, Contents(p, groups), offset, key)
  {
    BucketDecides(p, groups, offset, key);
  }

  /** With the bloom policy a key is ruled out at an offset exactly when no key was added in its
      bucket, or one of its probes is no probe of a key that was. */
  lemma BloomBlockExactly(hash: Bloom.HashFn, bitsPerKey: nat, k: nat, groups: seq<seq<bytes>>, offset: nat, key: bytes)
    requires k <= 30 && (forall x :: hash(x) < TWO32) && Bucket(offset) < |groups|
    requires |Contents(BloomPolicy(hash, bitsPerKey, k), groups)| < TWO32
    ensures var group := groups[Bucket(offset)];
            var bits := 8 * Bloom.FilterBytes(|group|, bitsPerKey);
            KeyMayMatch(BloomPolicy(hash, bitsPerKey, k), Contents(BloomPolicy(hash, bitsPerKey, k), groups), offset, key)
            <==> group != [] && forall j: nat :: j < k ==> Bloom.Met(hash, group, k, Bloom.Probe(hash(key), j, bits), bits)
  {
    BucketDecides(BloomPolicy(hash, bitsPerKey, k), groups, offset, key);
    Bloom.MatchesExactly(hash, bitsPerKey, k, groups[Bucket(offset)], key);
  }

  lemma ShiftIs(offset: nat)
    ensures ShiftRight(offset, 11) == Bucket(offset)
  {
    ShiftBy4(offset, 7);
    ShiftBy4(offset / 16, 3);
    assert ShiftRight(offset / 256, 3) == offset / 256 / 2 / 2 / 2;
  }

  lemma ShiftBy4(offset: nat, n: nat)
    ensures ShiftRight(offset, n + 4) == ShiftRight(offset / 16, n)
  {
    var half := offset / 2;
    var quarter := half / 2;
    var eighth := quarter / 2;
    assert ShiftRight(offset, n + 4) == ShiftRight(half, n + 3);
    assert ShiftRight(half, n + 3) == ShiftRight(quarter, n + 2);
    assert ShiftRight(quarter, n + 2) == ShiftRight(eighth, n + 1);
  }

  // ---- the builder ----------------------------------------------------------------------

  /** keys_: the keys one after the other. */
  function Flatten(keys: seq<bytes>): bytes {
    if keys == [] then [] else Flatten(keys[..|keys| - 1]) + keys[|keys| - 1]
  }

  lemma {:induction false} FlattenAt(keys: seq<bytes>, i: nat)
    requires i < |keys|
    ensures var from, to := |Flatten(keys[..i])|, |Flatten(keys[..i + 1])|;
            from <= to <= |Flatten(keys)| && Flatten(keys)[from..to] == keys[i]
  {
    var n := |keys| - 1;
    if i == n {
      assert keys[..i + 1] == keys;
    } else {
      FlattenAt(keys[..n], i);
      assert keys[..n][..i] == keys[..i] && keys[..n][..i + 1] == keys[..i + 1];
    }
  }

  lemma {:induction false} FiltersGrow(p: Policy, groups: seq<seq<bytes>>, group: seq<bytes>, n: nat)
    requires n <= |groups|
    ensures Filters(p, groups + [group], n) == Filters(p, groups, n)
  {
    if n > 0 {
      FiltersGrow(p, groups, group, n - 1);
    }
  }

  /** One more group: its filter behind the others, its start behind the other offsets. */
  lemma GroupAdded(p: Policy, groups: seq<seq<bytes>>, group: seq<bytes>)
    ensures var more, n := groups + [group], |groups|;
            Filters(p, more, n + 1) == Filters(p, groups, n) + FilterOf(p, group)
            && Offsets(p, more) == Offsets(p, groups) + [|Filters(p, groups, n)|]
  {
    var more := groups + [group];
    FiltersGrow(p, groups, group, |groups|);
    forall i | 0 <= i < |groups|
      ensures Offsets(p, more)[i] == Offsets(p, groups)[i]
    {
      FiltersGrow(p, groups, group, i);
    }
  }

  class FilterBlockBuilder {
    const policy: Policy
    var keys: bytes
    var start: seq<nat>
    var result: bytes
    var filterOffsets: seq<nat>
    /** The key lists of the filters made so far, and of the one to come. */
    ghost var groups: seq<seq<bytes>>
    ghost var pending: seq<bytes>
    /** The file offset of the last StartBlock, and each key added with the offset it was
        added under. */
    ghost var blockOffset: nat
    ghost var added: set<(nat, bytes)>

    ghost predicate Valid() reads this {
      filterOffsets == Offsets(policy, groups) && result == Filters(policy, groups, |groups|)
      && Collected() && |groups| == Bucket(blockOffset) && Placed(groups, pending, added)
    }

    ghost predicate Collected() reads this {
      keys == Flatten(pending) && |start| == |pending|
      && forall i :: 0 <= i < |start| ==> start[i] == |Flatten(pending[..i])|
    }

    constructor (policy: Policy)
      ensures Valid() && added == {} && blockOffset == 0 && this.policy == policy
    {
      this.policy := policy;
      keys, start, result, filterOffsets := [], [], [], [];
      groups, pending, blockOffset, added := [], [], 0, {};
    }

    /** The offset may go back, as long as it stays in the current 2 KiB. */
    method StartBlock(offset: nat)
      requires Valid() && Bucket(offset) >= |filterOffsets|
      modifies this
      ensures Valid() && blockOffset == offset && added == old(added)
    {
      var index := Bucket(offset);
      while index > |filterOffsets|
        invariant filterOffsets == Offsets(policy, groups) && result == Filters(policy, groups, |groups|)
        invariant Collected() && |groups| <= index && Placed(groups, pending, added) && added == old(added)
        decreases index - |filterOffsets|
      {
        GenerateFilter();
      }
      blockOffset := offset;
    }

    method AddKey(key: bytes)
      requires Valid()
      modifies this
      ensures Valid() && blockOffset == old(blockOffset) && added == old(added) + {(blockOffset, key)}
    {
      start := start + [|keys|];
      keys := keys + key;
      ghost var more := pending + [key];
      assert more[..|pending|] == pending;
      assert forall i :: 0 <= i < |pending| ==> more[..i] == pending[..i];
      PlacedKey(groups, pending, added, blockOffset, key);
      pending := more;
      added := added + {(blockOffset, key)};
    }

    method GenerateFilter()
      requires filterOffsets == Offsets(policy, groups) && result == Filters(policy, groups, |groups|) && Collected()
      requires Placed(groups, pending, added)
      modifies this
      ensures filterOffsets == Offsets(policy, groups) && result == Filters(policy, groups, |groups|) && Collected()
      ensures groups == old(groups + [pending]) && pending == [] && start == []
      ensures Placed(groups, pending, added) && added == old(added) && blockOffset == old(blockOffset)
    {
      GroupAdded(policy, groups, pending);
      PlacedGroup(groups, pending, added);
      filterOffsets := filterOffsets + [|result|];
      if start == [] {
        groups, pending := groups + [pending], [];
        return;
      }
      var list := Keys();
      result := result + policy.create(list);
      keys, start := [], [];
      groups, pending := groups + [pending], [];
    }

    /** The keys cut out of their flattened form again. */
    method Keys() returns (list: seq<bytes>)
      requires Collected()
      ensures list == pending
    {
      var limits := start + [|keys|];
      list := [];
      assert pending[..|pending|] == pending;
      for i := 0 to |start|
        invariant list == pending[..i]
      {
        FlattenAt(pending, i);
        list := list + [keys[limits[i]..limits[i + 1]]];
      }
    }

    /** The block's bytes; no key that was added is denied at the offset it was added under. */
    method Finish() returns (contents: bytes)
      requires Valid()
      modifies this
      ensures |contents| < TWO32 && Lawful(policy) ==>
                forall o, key :: (o, key) in old(added) ==> KeyMayMatch(policy, contents, o, key)
      ensures contents == Contents(policy, groups) && Placed(groups, [], old(added))
      ensures groups == old(if pending == [] then groups else groups + [pending])
    {
      if start != [] {
        GenerateFilter();
      }
      AppendOffsets();
      contents := result;
      AllMayMatch(policy, groups, added, contents);
    }

    method AppendOffsets()
      requires filterOffsets == Offsets(policy, groups) && result == Filters(policy, groups, |groups|)
      modifies this`result
      ensures result == Contents(policy, groups)
    {
      var offset := |result|;
      ghost var filters, words := result, filterOffsets;
      for i := 0 to |filterOffsets|
        invariant result == filters + Fixed32Array(words[..i])
      {
        assert words[..i + 1][..i] == words[..i];
        result := result + Fixed32(filterOffsets[i]);
      }
      assert words[..|words|] == words;
      result := result + Fixed32(offset) + [BASE_LG];
    }
  }

  lemma AllMayMatch(p: Policy, groups: seq<seq<bytes>>, added: set<(nat, bytes)>, contents: bytes)
    requires Placed(groups, [], added) && contents == Contents(p, groups)
    ensures |contents| < TWO32 && Lawful(p) ==> forall o, key :: (o, key) in added ==> KeyMayMatch(p, contents, o, key)
  {
    if |contents| < TWO32 && Lawful(p) {
      forall o, key | (o, key) in added
        ensures KeyMayMatch(p, contents, o, key)
      {
        AddedKeyMayMatch(p, groups, o, key);
      }
    }
  }

  /** The keys of a group. */
  function GroupOf(groups: seq<seq<bytes>>, pending: seq<bytes>, b: nat): seq<bytes> {
    if b < |groups| then groups[b] else if b == |groups| then pending else []
  }

  /** Each group holds exactly the keys added under an offset of its bucket, the last group
      still pending. */
  ghost predicate Placed(groups: seq<seq<bytes>>, pending: seq<bytes>, added: set<(nat, bytes)>) {
    && (forall o, key {:trigger (o, key) in added} :: (o, key) in added ==> key in GroupOf(groups, pending, Bucket(o)))
    && (forall b: nat, key: bytes {:trigger key in GroupOf(groups, pending, b)} ::
          key in GroupOf(groups, pending, b) ==> AddedUnder(added, b, key))
  }

  /** The key was added under an offset of that bucket. */
  ghost predicate AddedUnder(added: set<(nat, bytes)>, b: nat, key: bytes) {
    exists o: nat :: Bucket(o) == b && (o, key) in added
  }

  lemma PlacedKey(groups: seq<seq<bytes>>, pending: seq<bytes>, added: set<(nat, bytes)>, o: nat, key: bytes)
    requires Placed(groups, pending, added) && Bucket(o) == |groups|
    ensures Placed(groups, pending + [key], added + {(o, key)})
  {
    var more, all := pending + [key], added + {(o, key)};
    forall b: nat, k: bytes | k in GroupOf(groups, more, b)
      ensures AddedUnder(all, b, k)
    {
      if k in GroupOf(groups, pending, b) {
        var o': nat :| Bucket(o') == b && (o', k) in added;
        assert (o', k) in all;
      } else {
        assert (o, k) in all;
      }
    }
    forall o', k | (o', k) in all
      ensures k in GroupOf(groups, more, Bucket(o'))
    {
      if (o', k) in added {
        assert k in GroupOf(groups, pending, Bucket(o'));
      }
    }
  }

  lemma PlacedGroup(groups: seq<seq<bytes>>, pending: seq<bytes>, added: set<(nat, bytes)>)
    requires Placed(groups, pending, added)
    ensures Placed(groups + [pending], [], added)
  {
    assert forall b: nat :: GroupOf(groups + [pending], [], b) == GroupOf(groups, pending, b);
  }
}
