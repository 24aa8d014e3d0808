/** What every iterator of the table stack presents: a cursor over a list of entries in
    increasing key order.  The position one past the last entry stands for !Valid(). */
module Cursors {
  import opened Coding

  datatype Entry = Entry(key: bytes, value: bytes)

  /** `lt(a, b)` is `comparator->Compare(a, b) < 0`. */
  type KeyLess = (bytes, bytes) -> bool

  /** Names the keys at which transitivity is used, so that the verifier uses it nowhere else. */
  ghost predicate UseOrder(a: bytes, b: bytes, c: bytes) { true }

  /** A strict weak order; MemTables.OrderedIsWeak relates it to the skip list's form of it,
      which the verifier uses at other places. */
  ghost predicate Ordered(lt: KeyLess) {
    && (forall a, b {:trigger lt(a, b), lt(b, a)} :: lt(a, b) ==> !lt(b, a))
    && (forall a, b, c {:trigger UseOrder(a, b, c)} :: UseOrder(a, b, c) && lt(a, b) ==> lt(a, c) || lt(c, b))
  }

  /** Of two ordered keys, any third lies after the first or before the second. */
  lemma Between(lt: KeyLess, a: bytes, b: bytes, c: bytes)
    requires Ordered(lt) && lt(a, b)
    ensures lt(a, c) || lt(c, b)
  {
    assert UseOrder(a, b, c);
  }

  lemma Transitive(lt: KeyLess, a: bytes, b: bytes, c: bytes)
    requires Ordered(lt) && lt(a, b) && lt(b, c)
    ensures lt(a, c)
  {
    Between(lt, a, b, c);
    assert !lt(c, b);
  }

  ghost predicate Sorted(lt: KeyLess, entries: seq<Entry>) {
    forall i, j :: 0 <= i < j < |entries| ==> lt(entries[i].key, entries[j].key)
  }

  /** The index of the first entry whose key is not before the target. */
  function FirstAtLeast(lt: KeyLess, entries: seq<Entry>, target: bytes): (r: nat)
    ensures r <= |entries|
    ensures forall i :: 0 <= i < r ==> lt(entries[i].key, target)
    ensures r < |entries| ==> !lt(entries[r].key, target)
  {
    if entries == [] || !lt(entries[0].key, target) then 0
    else 1 + FirstAtLeast(lt, entries[1..], target)
  }

  lemma FirstAtLeastIs(lt: KeyLess, entries: seq<Entry>, target: bytes, r: nat)
    requires r <= |entries|
    requires forall i :: 0 <= i < r ==> lt(entries[i].key, target)
    requires r < |entries| ==> !lt(entries[r].key, target)
    ensures FirstAtLeast(lt, entries, target) == r
  {
  }

  datatype Cursor = Cursor(entries: seq<Entry>, pos: nat) {
    predicate Valid() { pos < |entries| }
    function Current(): Entry requires Valid() { entries[pos] }
    function SeekToFirst(): Cursor { this.(pos := 0) }
    function SeekToLast(): Cursor { this.(pos := if |entries| == 0 then 0 else |entries| - 1) }
    function Seek(lt: KeyLess, target: bytes): Cursor { this.(pos := FirstAtLeast(lt, entries, target)) }
    function Next(): Cursor requires Valid() { this.(pos := pos + 1) }
    function Prev(): Cursor requires Valid() { this.(pos := if pos == 0 then |entries| else pos - 1) }
  }
}
