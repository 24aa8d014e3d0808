/** MergingIterator (table/merger.cpp) over any number of sorted children.

    An element is a position in a child.  Elements are ordered by key and, for keys that
    compare equal, by child; that order is total, so a cursor over the sorted union is one
    that always rests on an immediate neighbour in it.  Duplicate keys are allowed. */
module Merger {
  import opened Coding
  import opened Cursors

  datatype Element = At(child: nat, index: nat)

  ghost predicate SortedLists(lt: KeyLess, lists: seq<seq<Entry>>) {
    Ordered(lt) && forall i :: 0 <= i < |lists| ==> Sorted(lt, lists[i])
  }

  predicate Exists(lists: seq<seq<Entry>>, e: Element) {
    e.child < |lists| && e.index < |lists[e.child]|
  }

  function KeyOf(lists: seq<seq<Entry>>, e: Element): bytes
    requires Exists(lists, e)
  {
    lists[e.child][e.index].key
  }

  predicate Less(lt: KeyLess, lists: seq<seq<Entry>>, a: Element, b: Element)
    requires Exists(lists, a) && Exists(lists, b)
  {
    if a.child == b.child then a.index < b.index
    else lt(KeyOf(lists, a), KeyOf(lists, b)) || (!lt(KeyOf(lists, b), KeyOf(lists, a)) && a.child < b.child)
  }

  lemma LessImplies(lt: KeyLess, lists: seq<seq<Entry>>, a: Element, b: Element)
    requires SortedLists(lt, lists) && Exists(lists, a) && Exists(lists, b) && Less(lt, lists, a, b)
    ensures !lt(KeyOf(lists, b), KeyOf(lists, a))
    ensures a.child == b.child ==> lt(KeyOf(lists, a), KeyOf(lists, b))
    ensures !Less(lt, lists, b, a)
  {
    if a.child == b.child {
      assert Sorted(lt, lists[a.child]);
    }
  }

  lemma LessTotal(lt: KeyLess, lists: seq<seq<Entry>>, a: Element, b: Element)
    requires Exists(lists, a) && Exists(lists, b) && a != b
    ensures Less(lt, lists, a, b) || Less(lt, lists, b, a)
  {
  }

  lemma LessTransitive(lt: KeyLess, lists: seq<seq<Entry>>, a: Element, b: Element, c: Element)
    requires SortedLists(lt, lists) && Exists(lists, a) && Exists(lists, b) && Exists(lists, c)
    requires Less(lt, lists, a, b) && Less(lt, lists, b, c)
    ensures Less(lt, lists, a, c)
  {
    LessImplies(lt, lists, a, b);
    LessImplies(lt, lists, b, c);
    var ka, kb, kc := KeyOf(lists, a), KeyOf(lists, b), KeyOf(lists, c);
    if lt(ka, kb) {
      Between(lt, ka, kb, kc);
    } else if lt(kb, kc) {
      Between(lt, kb, kc, ka);
    }
    if lt(kc, ka) {
      Between(lt, kc, ka, kb);
    }
    if a.child == c.child {
      assert Sorted(lt, lists[a.child]);
    }
  }

  /** e is the first (or absent) element of the upper part p of the order. */
  ghost predicate IsFirst(lt: KeyLess, lists: seq<seq<Entry>>, p: Element -> bool, e: Option<Element>) {
    match e
    case None => forall x :: Exists(lists, x) ==> !p(x)
    case Some(m) => Exists(lists, m) && p(m) && forall x :: Exists(lists, x) && p(x) ==> x == m || Less(lt, lists, m, x)
  }

  ghost predicate IsLast(lt: KeyLess, lists: seq<seq<Entry>>, p: Element -> bool, e: Option<Element>) {
    match e
    case None => forall x :: Exists(lists, x) ==> !p(x)
    case Some(m) => Exists(lists, m) && p(m) && forall x :: Exists(lists, x) && p(x) ==> x == m || Less(lt, lists, x, m)
  }

  // ---- parts of the order ---------------------------------------------------------------

  function Everything(lists: seq<seq<Entry>>): Element -> bool {
    (x: Element) => Exists(lists, x)
  }

  function Beyond(lt: KeyLess, lists: seq<seq<Entry>>, c: Element): Element -> bool {
    (x: Element) => Exists(lists, c) && Exists(lists, x) && Less(lt, lists, c, x)
  }

  function Ahead(lt: KeyLess, lists: seq<seq<Entry>>, c: Element): Element -> bool {
    (x: Element) => Exists(lists, c) && Exists(lists, x) && Less(lt, lists, x, c)
  }

  function KeyAtLeast(lt: KeyLess, lists: seq<seq<Entry>>, k: bytes): Element -> bool {
    (x: Element) => Exists(lists, x) && !lt(KeyOf(lists, x), k)
  }

  function KeyAbove(lt: KeyLess, lists: seq<seq<Entry>>, k: bytes): Element -> bool {
    (x: Element) => Exists(lists, x) && lt(k, KeyOf(lists, x))
  }

  function KeyBelow(lt: KeyLess, lists: seq<seq<Entry>>, k: bytes): Element -> bool {
    (x: Element) => Exists(lists, x) && lt(KeyOf(lists, x), k)
  }

  ghost predicate UpClosed(lt: KeyLess, lists: seq<seq<Entry>>, p: Element -> bool) {
    forall x, y :: Exists(lists, x) && Exists(lists, y) && p(x) && Less(lt, lists, x, y) ==> p(y)
  }

  ghost predicate DownClosed(lt: KeyLess, lists: seq<seq<Entry>>, p: Element -> bool) {
    forall x, y :: Exists(lists, x) && Exists(lists, y) && p(y) && Less(lt, lists, x, y) ==> p(x)
  }

  lemma PartsAreClosed(lt: KeyLess, lists: seq<seq<Entry>>, c: Element, k: bytes)
    requires SortedLists(lt, lists)
    ensures UpClosed(lt, lists, Everything(lists)) && DownClosed(lt, lists, Everything(lists))
    ensures UpClosed(lt, lists, Beyond(lt, lists, c)) && DownClosed(lt, lists, Ahead(lt, lists, c))
    ensures UpClosed(lt, lists, KeyAtLeast(lt, lists, k)) && UpClosed(lt, lists, KeyAbove(lt, lists, k))
    ensures DownClosed(lt, lists, KeyBelow(lt, lists, k))
  {
    forall x, y | Exists(lists, x) && Exists(lists, y) && Less(lt, lists, x, y)
      ensures Beyond(lt, lists, c)(x) ==> Beyond(lt, lists, c)(y)
      ensures Ahead(lt, lists, c)(y) ==> Ahead(lt, lists, c)(x)
      ensures KeyAtLeast(lt, lists, k)(x) ==> KeyAtLeast(lt, lists, k)(y)
      ensures KeyAbove(lt, lists, k)(x) ==> KeyAbove(lt, lists, k)(y)
      ensures KeyBelow(lt, lists, k)(y) ==> KeyBelow(lt, lists, k)(x)
    {
      LessImplies(lt, lists, x, y);
      var kx, ky := KeyOf(lists, x), KeyOf(lists, y);
      if Beyond(lt, lists, c)(x) { LessTransitive(lt, lists, c, x, y); }
      if Ahead(lt, lists, c)(y) { LessTransitive(lt, lists, x, y, c); }
      if lt(ky, k) { Between(lt, ky, k, kx); }
      if lt(k, kx) { Between(lt, k, kx, ky); }
    }
  }

  // ---- the sorted union -----------------------------------------------------------------

  /** All elements of the children, each once, in order. */
  ghost predicate Lines(lt: KeyLess, lists: seq<seq<Entry>>, order: seq<Element>) {
    Increasing(lt, lists, order) && forall x :: Exists(lists, x) ==> x in order
  }

  ghost predicate Increasing(lt: KeyLess, lists: seq<seq<Entry>>, order: seq<Element>) {
    && (forall i :: 0 <= i < |order| ==> Exists(lists, order[i]))
    && (forall i, j :: 0 <= i < j < |order| ==> Less(lt, lists, order[i], order[j]))
  }

  /** The elements of the first n children and the first k of child n, in order. */
  ghost predicate LinesUpTo(lt: KeyLess, lists: seq<seq<Entry>>, order: seq<Element>, n: nat, k: nat) {
    && Increasing(lt, lists, order)
    && (forall x :: x in order <==> Exists(lists, x) && (x.child < n || (x.child == n && x.index < k)))
  }

  ghost function Inserted(lt: KeyLess, lists: seq<seq<Entry>>, order: seq<Element>, e: Element): seq<Element>
    requires Exists(lists, e) && forall i :: 0 <= i < |order| ==> Exists(lists, order[i])
  {
    if order == [] || Less(lt, lists, e, order[0]) then [e] + order
    else [order[0]] + Inserted(lt, lists, order[1..], e)
  }

  lemma {:induction false} InsertedHas(lt: KeyLess, lists: seq<seq<Entry>>, order: seq<Element>, e: Element, x: Element)
    requires Exists(lists, e) && forall i :: 0 <= i < |order| ==> Exists(lists, order[i])
    ensures x in Inserted(lt, lists, order, e) <==> x == e || x in order
  {
    if order != [] && !Less(lt, lists, e, order[0]) {
      InsertedHas(lt, lists, order[1..], e, x);
      assert order == [order[0]] + order[1..];
    }
  }

  lemma {:induction false} InsertedSorted(lt: KeyLess, lists: seq<seq<Entry>>, order: seq<Element>, e: Element)
    requires SortedLists(lt, lists) && Exists(lists, e) && e !in order
    requires Increasing(lt, lists, order)
    ensures Increasing(lt, lists, Inserted(lt, lists, order, e))
  {
    if order == [] {
    } else if Less(lt, lists, e, order[0]) {
      forall j | 1 <= j < |order|
        ensures Less(lt, lists, e, order[j])
      {
        LessTransitive(lt, lists, e, order[0], order[j]);
      }
    } else {
      var tail := Inserted(lt, lists, order[1..], e);
      InsertedSorted(lt, lists, order[1..], e);
      LessTotal(lt, lists, e, order[0]);
      forall j | 0 <= j < |tail|
        ensures Less(lt, lists, order[0], tail[j])
      {
        InsertedHas(lt, lists, order[1..], e, tail[j]);
      }
    }
  }

  lemma {:induction false} LinesExist(lt: KeyLess, lists: seq<seq<Entry>>, n: nat, k: nat) returns (order: seq<Element>)
    requires SortedLists(lt, lists) && n <= |lists| && (if n < |lists| then k <= |lists[n]| else k == 0)
    ensures LinesUpTo(lt, lists, order, n, k)
    decreases n, k
  {
    if k > 0 {
      var before := LinesExist(lt, lists, n, k - 1);
      InsertedSorted(lt, lists, before, At(n, k - 1));
      order := Inserted(lt, lists, before, At(n, k - 1));
      forall x
        ensures x in order <==> Exists(lists, x) && (x.child < n || (x.child == n && x.index < k))
      {
        InsertedHas(lt, lists, before, At(n, k - 1), x);
      }
    } else if n > 0 {
      order := LinesExist(lt, lists, n - 1, |lists[n - 1]|);
      forall x
        ensures x in order <==> Exists(lists, x) && x.child < n
      {
      }
    } else {
      order := [];
    }
  }

  /** Marks where the definition of the union is used, so that the verifier uses it nowhere else. */
  ghost predicate UseUnion(m: int) { true }

  ghost predicate IsUnion(lt: KeyLess, lists: seq<seq<Entry>>, order: seq<Element>) {
    forall m {:trigger UseUnion(m)} :: UseUnion(m) ==> Lines(lt, lists, order)
  }

  lemma UnionExists(lt: KeyLess, lists: seq<seq<Entry>>)
    requires SortedLists(lt, lists)
    ensures exists order :: IsUnion(lt, lists, order)
  {
    var order := LinesExist(lt, lists, |lists|, 0);
    assert Lines(lt, lists, order);
    assert IsUnion(lt, lists, order);
  }

  /** The sorted union of the children. */
  ghost function Union(lt: KeyLess, lists: seq<seq<Entry>>): (order: seq<Element>)
    requires SortedLists(lt, lists)
    ensures IsUnion(lt, lists, order)
  {
    UnionExists(lt, lists);
    var order :| IsUnion(lt, lists, order);
    order
  }

  ghost function EntriesOf(lists: seq<seq<Entry>>, order: seq<Element>): seq<Entry> {
    seq(|order|, i requires 0 <= i < |order| =>
      if Exists(lists, order[i]) then lists[order[i].child][order[i].index] else Entry([], []))
  }

  /** Where the element is in the union; none is one past its end. */
  ghost function Place(order: seq<Element>, e: Option<Element>): nat {
    if e.Some? && e.value in order then
      var i :| 0 <= i < |order| && order[i] == e.value;
      i
    else |order|
  }

  lemma PlaceIs(lt: KeyLess, lists: seq<seq<Entry>>, order: seq<Element>, i: nat)
    requires SortedLists(lt, lists) && Lines(lt, lists, order) && i < |order|
    ensures Place(order, Some(order[i])) == i
  {
    var j := Place(order, Some(order[i]));
    if j < i {
      LessImplies(lt, lists, order[j], order[i]);
    } else if i < j {
      LessImplies(lt, lists, order[i], order[j]);
    }
  }

  /** The first element of an upper part is where that part begins in the union. */
  lemma FirstLands(lt: KeyLess, lists: seq<seq<Entry>>, order: seq<Element>, p: Element -> bool, e: Option<Element>, n: nat)
    requires SortedLists(lt, lists) && Lines(lt, lists, order) && IsFirst(lt, lists, p, e)
    requires n <= |order| && forall i :: 0 <= i < |order| ==> (p(order[i]) <==> n <= i)
    ensures Place(order, e) == n
  {
    if n < |order| {
      assert Exists(lists, order[n]) && p(order[n]);
      assert e.Some? && Exists(lists, e.value);
      var j :| 0 <= j < |order| && order[j] == e.value;
      if n < j {
        LessImplies(lt, lists, order[n], order[j]);
      }
      PlaceIs(lt, lists, order, n);
    }
  }

  lemma LastLands(lt: KeyLess, lists: seq<seq<Entry>>, order: seq<Element>, p: Element -> bool, e: Option<Element>, n: nat)
    requires SortedLists(lt, lists) && Lines(lt, lists, order) && IsLast(lt, lists, p, e)
    requires n <= |order| && forall i :: 0 <= i < |order| ==> (p(order[i]) <==> i < n)
    ensures Place(order, e) == if n == 0 then |order| else n - 1
  {
    if 0 < n {
      assert Exists(lists, order[n - 1]) && p(order[n - 1]);
      assert e.Some? && Exists(lists, e.value);
      var j :| 0 <= j < |order| && order[j] == e.value;
      if j < n - 1 {
        LessImplies(lt, lists, order[j], order[n - 1]);
      }
      PlaceIs(lt, lists, order, n - 1);
    }
  }

  /** The cursor over the sorted union that rests on the element. */
  ghost function CursorAt(lt: KeyLess, lists: seq<seq<Entry>>, e: Option<Element>): Cursor
    requires SortedLists(lt, lists)
  {
    var order := Union(lt, lists);
    Cursors.Cursor(EntriesOf(lists, order), Place(order, e))
  }

  lemma FirstIsCursor(lt: KeyLess, lists: seq<seq<Entry>>, was: Option<Element>, e: Option<Element>)
    requires SortedLists(lt, lists) && IsFirst(lt, lists, Everything(lists), e)
    ensures CursorAt(lt, lists, e) == CursorAt(lt, lists, was).SeekToFirst()
  {
    assert UseUnion(0);
    FirstLands(lt, lists, Union(lt, lists), Everything(lists), e, 0);
  }

  lemma LastIsCursor(lt: KeyLess, lists: seq<seq<Entry>>, was: Option<Element>, e: Option<Element>)
    requires SortedLists(lt, lists) && IsLast(lt, lists, Everything(lists), e)
    ensures CursorAt(lt, lists, e) == CursorAt(lt, lists, was).SeekToLast()
  {
    assert UseUnion(0);
    var order := Union(lt, lists);
    LastLands(lt, lists, order, Everything(lists), e, |order|);
  }

  lemma SeekIsCursor(lt: KeyLess, lists: seq<seq<Entry>>, was: Option<Element>, target: bytes, e: Option<Element>)
    requires SortedLists(lt, lists) && IsFirst(lt, lists, KeyAtLeast(lt, lists, target), e)
    ensures CursorAt(lt, lists, e) == CursorAt(lt, lists, was).Seek(lt, target)
  {
    assert UseUnion(0);
    var order := Union(lt, lists);
    var entries := EntriesOf(lists, order);
    var n := FirstAtLeast(lt, entries, target);
    forall i | 0 <= i < |order|
      ensures KeyAtLeast(lt, lists, target)(order[i]) <==> n <= i
    {
      assert entries[i].key == KeyOf(lists, order[i]);
      if n < i {
        assert entries[n].key == KeyOf(lists, order[n]);
        LessImplies(lt, lists, order[n], order[i]);
        if lt(entries[i].key, target) {
          Between(lt, entries[i].key, target, entries[n].key);
        }
      }
    }
    FirstLands(lt, lists, order, KeyAtLeast(lt, lists, target), e, n);
  }

  lemma NextIsCursor(lt: KeyLess, lists: seq<seq<Entry>>, was: Element, e: Option<Element>)
    requires SortedLists(lt, lists) && Exists(lists, was) && IsFirst(lt, lists, Beyond(lt, lists, was), e)
    ensures CursorAt(lt, lists, Some(was)).Valid() && CursorAt(lt, lists, e) == CursorAt(lt, lists, Some(was)).Next()
  {
    assert UseUnion(0);
    var order := Union(lt, lists);
    var k :| 0 <= k < |order| && order[k] == was;
    PlaceIs(lt, lists, order, k);
    forall i | 0 <= i < |order|
      ensures Beyond(lt, lists, was)(order[i]) <==> k + 1 <= i
    {
      if i < k {
        LessImplies(lt, lists, order[i], order[k]);
      }
    }
    FirstLands(lt, lists, order, Beyond(lt, lists, was), e, k + 1);
  }

  lemma PrevIsCursor(lt: KeyLess, lists: seq<seq<Entry>>, was: Element, e: Option<Element>)
    requires SortedLists(lt, lists) && Exists(lists, was) && IsLast(lt, lists, Ahead(lt, lists, was), e)
    ensures CursorAt(lt, lists, Some(was)).Valid() && CursorAt(lt, lists, e) == CursorAt(lt, lists, Some(was)).Prev()
  {
    assert UseUnion(0);
    var order := Union(lt, lists);
    var k :| 0 <= k < |order| && order[k] == was;
    PlaceIs(lt, lists, order, k);
    forall i | 0 <= i < |order|
      ensures Ahead(lt, lists, was)(order[i]) <==> i < k
    {
      if k < i {
        LessImplies(lt, lists, order[k], order[i]);
      }
    }
    LastLands(lt, lists, order, Ahead(lt, lists, was), e, k);
  }

  /** A valid iterator rests on the entry the cursor names. */
  lemma CurrentIsCursor(lt: KeyLess, lists: seq<seq<Entry>>, e: Element)
    requires SortedLists(lt, lists) && Exists(lists, e)
    ensures CursorAt(lt, lists, Some(e)).Valid()
    ensures CursorAt(lt, lists, Some(e)).Current() == lists[e.child][e.index]
  {
    assert UseUnion(0);
    var order := Union(lt, lists);
    var k :| 0 <= k < |order| && order[k] == e;
    PlaceIs(lt, lists, order, k);
  }

  // ---- children and the child that is current -------------------------------------------

  ghost predicate Children(lists: seq<seq<Entry>>, children: seq<Cursor>) {
    |children| == |lists| && forall i :: 0 <= i < |lists| ==> children[i].entries == lists[i] && children[i].pos <= |lists[i]|
  }

  function Head(children: seq<Cursor>, i: nat): Element
    requires i < |children|
  {
    At(i, children[i].pos)
  }

  /** Every child stands on its first element in p. */
  ghost predicate OnFirst(lists: seq<seq<Entry>>, children: seq<Cursor>, p: Element -> bool)
    requires Children(lists, children)
  {
    forall x :: Exists(lists, x) ==> (children[x.child].pos <= x.index <==> p(x))
  }

  /** Every child stands on its last element in p, or is invalid when it has none. */
  ghost predicate OnLast(lists: seq<seq<Entry>>, children: seq<Cursor>, p: Element -> bool)
    requires Children(lists, children)
  {
    forall x :: Exists(lists, x) ==> (x.index <= children[x.child].pos < |lists[x.child]| <==> p(x))
  }

  /** c is the valid child (if any) whose element comes first. */
  ghost predicate Smallest(lt: KeyLess, lists: seq<seq<Entry>>, children: seq<Cursor>, c: Option<nat>)
    requires Children(lists, children)
  {
    match c
    case None => forall i :: 0 <= i < |children| ==> !children[i].Valid()
    case Some(m) =>
      && m < |children| && children[m].Valid()
      && forall i :: 0 <= i < |children| && children[i].Valid() && i != m ==> Less(lt, lists, Head(children, m), Head(children, i))
  }

  ghost predicate Largest(lt: KeyLess, lists: seq<seq<Entry>>, children: seq<Cursor>, c: Option<nat>)
    requires Children(lists, children)
  {
    match c
    case None => forall i :: 0 <= i < |children| ==> !children[i].Valid()
    case Some(m) =>
      && m < |children| && children[m].Valid()
      && forall i :: 0 <= i < |children| && children[i].Valid() && i != m ==> Less(lt, lists, Head(children, i), Head(children, m))
  }

  function Here(children: seq<Cursor>, c: Option<nat>): Option<Element>
    requires c.Some? ==> c.value < |children|
  {
    if c.None? then None else Some(Head(children, c.value))
  }

  lemma SmallestIsFirst(lt: KeyLess, lists: seq<seq<Entry>>, children: seq<Cursor>, c: Option<nat>, p: Element -> bool)
    requires SortedLists(lt, lists) && Children(lists, children) && OnFirst(lists, children, p)
    requires Smallest(lt, lists, children, c)
    ensures IsFirst(lt, lists, p, Here(children, c))
  {
    forall x | Exists(lists, x) && p(x)
      ensures c.Some? && (x == Head(children, c.value) || Less(lt, lists, Head(children, c.value), x))
    {
      var h := Head(children, x.child);
      assert children[x.child].Valid();
      if c.Some? && h != Head(children, c.value) && h != x {
        LessTransitive(lt, lists, Head(children, c.value), h, x);
      }
    }
  }

  lemma LargestIsLast(lt: KeyLess, lists: seq<seq<Entry>>, children: seq<Cursor>, c: Option<nat>, p: Element -> bool)
    requires SortedLists(lt, lists) && Children(lists, children) && OnLast(lists, children, p)
    requires Largest(lt, lists, children, c)
    ensures IsLast(lt, lists, p, Here(children, c))
  {
    forall x | Exists(lists, x) && p(x)
      ensures c.Some? && (x == Head(children, c.value) || Less(lt, lists, x, Head(children, c.value)))
    {
      var h := Head(children, x.child);
      assert children[x.child].Valid();
      if c.Some? && h != Head(children, c.value) && h != x {
        LessTransitive(lt, lists, x, h, Head(children, c.value));
      }
    }
  }

  // ---- the invariant while the iterator is valid ----------------------------------------

  /** Moving forward, every child stands on its first element not before the current one. */
  ghost predicate InForward(lt: KeyLess, lists: seq<seq<Entry>>, children: seq<Cursor>, c: nat)
    requires Children(lists, children)
  {
    && c < |children| && children[c].Valid()
    && forall x :: Exists(lists, x) ==>
         (children[x.child].pos <= x.index <==> x == Head(children, c) || Less(lt, lists, Head(children, c), x))
  }

  /** Moving backward, every child stands on its last element not after the current one. */
  ghost predicate InReverse(lt: KeyLess, lists: seq<seq<Entry>>, children: seq<Cursor>, c: nat)
    requires Children(lists, children)
  {
    && c < |children| && children[c].Valid()
    && forall x :: Exists(lists, x) ==>
         (x.index <= children[x.child].pos < |lists[x.child]| <==> x == Head(children, c) || Less(lt, lists, x, Head(children, c)))
  }

  lemma SmallestInForward(lt: KeyLess, lists: seq<seq<Entry>>, children: seq<Cursor>, c: nat, p: Element -> bool)
    requires SortedLists(lt, lists) && Children(lists, children) && OnFirst(lists, children, p) && UpClosed(lt, lists, p)
    requires Smallest(lt, lists, children, Some(c))
    ensures InForward(lt, lists, children, c)
  {
    SmallestIsFirst(lt, lists, children, Some(c), p);
  }

  lemma LargestInReverse(lt: KeyLess, lists: seq<seq<Entry>>, children: seq<Cursor>, c: nat, p: Element -> bool)
    requires SortedLists(lt, lists) && Children(lists, children) && OnLast(lists, children, p) && DownClosed(lt, lists, p)
    requires Largest(lt, lists, children, Some(c))
    ensures InReverse(lt, lists, children, c)
  {
    LargestIsLast(lt, lists, children, Some(c), p);
  }

  // ---- where the child operations leave a child -----------------------------------------

  lemma SeekLands(lt: KeyLess, list: seq<Entry>, pos: nat, k: bytes, q: nat)
    requires Ordered(lt) && Sorted(lt, list) && q < |list|
    ensures Cursor(list, pos).Seek(lt, k).pos <= q <==> !lt(list[q].key, k)
  {
    var f := FirstAtLeast(lt, list, k);
    if f <= q {
      if f < q && lt(list[q].key, k) {
        Transitive(lt, list[f].key, list[q].key, k);
      }
    }
  }

  /** Seek to key k and step over an equal key: the first key after k. */
  function SeekPast(lt: KeyLess, c: Cursor, k: bytes): Cursor {
    var s := c.Seek(lt, k);
    if s.Valid() && !lt(k, s.Current().key) && !lt(s.Current().key, k) then s.Next() else s
  }

  lemma SeekPastLands(lt: KeyLess, list: seq<Entry>, pos: nat, k: bytes, q: nat)
    requires Ordered(lt) && Sorted(lt, list) && q < |list|
    ensures SeekPast(lt, Cursor(list, pos), k).pos <= q <==> lt(k, list[q].key)
    ensures SeekPast(lt, Cursor(list, pos), k).pos <= |list| && SeekPast(lt, Cursor(list, pos), k).entries == list
  {
    SeekLands(lt, list, pos, k, q);
    var f := FirstAtLeast(lt, list, k);
    if f < q {
      Between(lt, list[f].key, list[q].key, k);
    }
  }

  /** Seek to key k and step back: the last key before k. */
  function SeekBack(lt: KeyLess, c: Cursor, k: bytes): Cursor {
    var s := c.Seek(lt, k);
    if s.Valid() then s.Prev() else s.SeekToLast()
  }

  lemma SeekBackLands(lt: KeyLess, list: seq<Entry>, pos: nat, k: bytes, q: nat)
    requires Ordered(lt) && Sorted(lt, list) && q < |list|
    ensures q <= SeekBack(lt, Cursor(list, pos), k).pos < |list| <==> lt(list[q].key, k)
    ensures SeekBack(lt, Cursor(list, pos), k).pos <= |list| && SeekBack(lt, Cursor(list, pos), k).entries == list
  {
    SeekLands(lt, list, pos, k, q);
  }

  /** Within one child, the order is that of the keys. */
  lemma SameChild(lt: KeyLess, lists: seq<seq<Entry>>, a: Element, b: Element)
    requires SortedLists(lt, lists) && Exists(lists, a) && Exists(lists, b) && a.child == b.child
    ensures lt(KeyOf(lists, a), KeyOf(lists, b)) <==> a.index < b.index
  {
    assert Sorted(lt, lists[a.child]);
    if b.index < a.index {
      assert lt(KeyOf(lists, b), KeyOf(lists, a));
    }
  }

  /** Once the current child has moved on, every child stands on its first element in p. */
  lemma SteppedForward(lt: KeyLess, lists: seq<seq<Entry>>, children: seq<Cursor>, c: nat, keyed: bool)
    requires SortedLists(lt, lists) && Children(lists, children) && c < |children| && children[c].Valid()
    requires keyed ==> var k := KeyOf(lists, Head(children, c));
               forall x :: Exists(lists, x) && x.child != c ==> (children[x.child].pos <= x.index <==> lt(k, KeyOf(lists, x)))
    requires !keyed ==> InForward(lt, lists, children, c)
    ensures var was, moved := Head(children, c), children[c := children[c].Next()];
            && Children(lists, moved)
            && OnFirst(lists, moved, if keyed then KeyAbove(lt, lists, KeyOf(lists, was)) else Beyond(lt, lists, was))
  {
    var was, moved := Head(children, c), children[c := children[c].Next()];
    forall x | Exists(lists, x)
      ensures moved[x.child].pos <= x.index <==>
              if keyed then KeyAbove(lt, lists, KeyOf(lists, was))(x) else Beyond(lt, lists, was)(x)
    {
      if x.child == c {
        SameChild(lt, lists, was, x);
      } else if !keyed && Less(lt, lists, was, x) {
        LessImplies(lt, lists, was, x);
      }
    }
  }

  lemma SteppedBackward(lt: KeyLess, lists: seq<seq<Entry>>, children: seq<Cursor>, c: nat, keyed: bool)
    requires SortedLists(lt, lists) && Children(lists, children) && c < |children| && children[c].Valid()
    requires keyed ==> var k := KeyOf(lists, Head(children, c));
               forall x :: Exists(lists, x) && x.child != c ==>
                 (x.index <= children[x.child].pos < |lists[x.child]| <==> lt(KeyOf(lists, x), k))
    requires !keyed ==> InReverse(lt, lists, children, c)
    ensures var was, moved := Head(children, c), children[c := children[c].Prev()];
            && Children(lists, moved)
            && OnLast(lists, moved, if keyed then KeyBelow(lt, lists, KeyOf(lists, was)) else Ahead(lt, lists, was))
  {
    var was, moved := Head(children, c), children[c := children[c].Prev()];
    forall x | Exists(lists, x)
      ensures x.index <= moved[x.child].pos < |lists[x.child]| <==>
              if keyed then KeyBelow(lt, lists, KeyOf(lists, was))(x) else Ahead(lt, lists, was)(x)
    {
      if x.child == c {
        SameChild(lt, lists, x, was);
      } else if !keyed && Less(lt, lists, x, was) {
        LessImplies(lt, lists, x, was);
      }
    }
  }

  class MergingIterator {
    const lt: KeyLess
    ghost const lists: seq<seq<Entry>>
    var children: seq<Cursor>
    var current: Option<nat>
    var forward: bool

    ghost predicate Valid()
      reads this
    {
      && SortedLists(lt, lists)
      && Children(lists, children)
      && (current.Some? ==> if forward then InForward(lt, lists, children, current.value)
                            else InReverse(lt, lists, children, current.value))
    }

    /** The element the iterator rests on; None is !Valid(). */
    ghost function Position(): Option<Element>
      requires Valid()
      reads this
    {
      Here(children, current)
    }

    ghost function Cursor(): Cursor
      requires Valid()
      reads this
    {
      CursorAt(lt, lists, Position())
    }

    constructor (lt: KeyLess, children: seq<Cursor>, ghost lists: seq<seq<Entry>>)
      requires SortedLists(lt, lists) && Children(lists, children)
      ensures Valid() && Position() == None && this.lt == lt && this.lists == lists
    {
      this.lt, this.lists, this.children, current, forward := lt, lists, children, None, true;
    }

    method FindSmallest()
      requires SortedLists(lt, lists) && Children(lists, children)
      modifies this`current
      ensures Smallest(lt, lists, children, current)
    {
      var smallest: Option<nat> := None;
      for i := 0 to |children|
        invariant smallest.None? ==> forall j :: 0 <= j < i ==> !children[j].Valid()
        invariant smallest.Some? ==>
                    && smallest.value < i && children[smallest.value].Valid()
                    && forall j :: 0 <= j < i && children[j].Valid() && j != smallest.value ==>
                                     Less(lt, lists, Head(children, smallest.value), Head(children, j))
      {
        if children[i].Valid() {
          if smallest.None? {
            smallest := Some(i);
          } else if lt(children[i].Current().key, children[smallest.value].Current().key) {
            ghost var s := smallest.value;
            forall j | 0 <= j < i && children[j].Valid()
              ensures Less(lt, lists, Head(children, i), Head(children, j))
            {
              if j != s { LessTransitive(lt, lists, Head(children, i), Head(children, s), Head(children, j)); }
            }
            smallest := Some(i);
          }
        }
      }
      current := smallest;
    }

    method FindLargest()
      requires SortedLists(lt, lists) && Children(lists, children)
      modifies this`current
      ensures Largest(lt, lists, children, current)
    {
      var largest: Option<nat> := None;
      for i := |children| downto 0
        invariant largest.None? ==> forall j :: i <= j < |children| ==> !children[j].Valid()
        invariant largest.Some? ==>
                    && i <= largest.value < |children| && children[largest.value].Valid()
                    && forall j :: i <= j < |children| && children[j].Valid() && j != largest.value ==>
                                     Less(lt, lists, Head(children, j), Head(children, largest.value))
      {
        if children[i].Valid() {
          if largest.None? {
            largest := Some(i);
          } else if lt(children[largest.value].Current().key, children[i].Current().key) {
            ghost var s := largest.value;
            forall j | i < j < |children| && children[j].Valid()
              ensures Less(lt, lists, Head(children, j), Head(children, i))
            {
              if j != s { LessTransitive(lt, lists, Head(children, j), Head(children, s), Head(children, i)); }
            }
            largest := Some(i);
          }
        }
      }
      current := largest;
    }

    /** Settle on the first element of an upper part the children stand at. */
    method SettleForward(ghost p: Element -> bool)
      requires SortedLists(lt, lists) && Children(lists, children)
      requires OnFirst(lists, children, p) && UpClosed(lt, lists, p)
      modifies this`current, this`forward
      ensures Valid() && forward && IsFirst(lt, lists, p, Position())
    {
      FindSmallest();
      forward := true;
      SmallestIsFirst(lt, lists, children, current, p);
      if current.Some? {
        SmallestInForward(lt, lists, children, current.value, p);
      }
    }

    method SettleReverse(ghost p: Element -> bool)
      requires SortedLists(lt, lists) && Children(lists, children)
      requires OnLast(lists, children, p) && DownClosed(lt, lists, p)
      modifies this`current, this`forward
      ensures Valid() && !forward && IsLast(lt, lists, p, Position())
    {
      FindLargest();
      forward := false;
      LargestIsLast(lt, lists, children, current, p);
      if current.Some? {
        LargestInReverse(lt, lists, children, current.value, p);
      }
    }

    method SeekToFirst()
      requires Valid()
      modifies this
      ensures Valid() && forward && IsFirst(lt, lists, Everything(lists), Position())
      ensures Cursor() == old(Cursor()).SeekToFirst()
    {
      ghost var was := Position();
      for i := 0 to |children|
        invariant Children(lists, children)
        invariant forall j :: 0 <= j < i ==> children[j].pos == 0
      {
        children := children[i := children[i].SeekToFirst()];
      }
      PartsAreClosed(lt, lists, At(0, 0), []);
      SettleForward(Everything(lists));
      FirstIsCursor(lt, lists, was, Position());
    }

    method SeekToLast()
      requires Valid()
      modifies this
      ensures Valid() && !forward && IsLast(lt, lists, Everything(lists), Position())
      ensures Cursor() == old(Cursor()).SeekToLast()
    {
      ghost var was := Position();
      for i := 0 to |children|
        invariant Children(lists, children)
        invariant forall j :: 0 <= j < i ==> children[j].pos == if |lists[j]| == 0 then 0 else |lists[j]| - 1
      {
        children := children[i := children[i].SeekToLast()];
      }
      PartsAreClosed(lt, lists, At(0, 0), []);
      SettleReverse(Everything(lists));
      LastIsCursor(lt, lists, was, Position());
    }

    method Seek(target: bytes)
      requires Valid()
      modifies this
      ensures Valid() && forward && IsFirst(lt, lists, KeyAtLeast(lt, lists, target), Position())
      ensures Cursor() == old(Cursor()).Seek(lt, target)
    {
      ghost var was := Position();
      for i := 0 to |children|
        invariant Children(lists, children)
        invariant forall x :: Exists(lists, x) && x.child < i ==>
                    (children[x.child].pos <= x.index <==> !lt(KeyOf(lists, x), target))
      {
        ghost var pos := children[i].pos;
        children := children[i := children[i].Seek(lt, target)];
        forall q | 0 <= q < |lists[i]|
          ensures children[i].pos <= q <==> !lt(lists[i][q].key, target)
        {
          SeekLands(lt, lists[i], pos, target, q);
        }
      }
      PartsAreClosed(lt, lists, At(0, 0), target);
      SettleForward(KeyAtLeast(lt, lists, target));
      SeekIsCursor(lt, lists, was, target, Position());
    }

    /** Reposition every child but the current one behind the current key. */
    method TurnForward()
      requires Valid() && current.Some?
      modifies this`children
      ensures Children(lists, children) && Head(children, current.value) == old(Head(children, current.value))
      ensures var k := KeyOf(lists, Head(children, current.value));
              forall x :: Exists(lists, x) && x.child != current.value ==>
                (children[x.child].pos <= x.index <==> lt(k, KeyOf(lists, x)))
    {
      var c := current.value;
      var k := children[c].Current().key;
      for i := 0 to |children|
        invariant Children(lists, children) && children[c] == old(children[c])
        invariant forall x :: Exists(lists, x) && x.child < i && x.child != c ==>
                    (children[x.child].pos <= x.index <==> lt(k, KeyOf(lists, x)))
      {
        if i != c {
          ghost var pos := children[i].pos;
          children := children[i := SeekPast(lt, children[i], k)];
          forall q | 0 <= q < |lists[i]|
            ensures children[i].pos <= q <==> lt(k, lists[i][q].key)
          {
            SeekPastLands(lt, lists[i], pos, k, q);
          }
        }
      }
    }

    method TurnBackward()
      requires Valid() && current.Some?
      modifies this`children
      ensures Children(lists, children) && Head(children, current.value) == old(Head(children, current.value))
      ensures var k := KeyOf(lists, Head(children, current.value));
              forall x :: Exists(lists, x) && x.child != current.value ==>
                (x.index <= children[x.child].pos < |lists[x.child]| <==> lt(KeyOf(lists, x), k))
    {
      var c := current.value;
      var k := children[c].Current().key;
      for i := 0 to |children|
        invariant Children(lists, children) && children[c] == old(children[c])
        invariant forall x :: Exists(lists, x) && x.child < i && x.child != c ==>
                    (x.index <= children[x.child].pos < |lists[x.child]| <==> lt(KeyOf(lists, x), k))
      {
        if i != c {
          ghost var pos := children[i].pos;
          children := children[i := SeekBack(lt, children[i], k)];
          forall q | 0 <= q < |lists[i]|
            ensures q <= children[i].pos < |lists[i]| <==> lt(lists[i][q].key, k)
          {
            SeekBackLands(lt, lists[i], pos, k, q);
          }
        }
      }
    }

    /** Going on forward rests on the next element; turning around, on the first element with
        a key after the current one. */
    method Next()
      requires Valid() && Position().Some?
      modifies this
      ensures Valid() && forward
      ensures var was := old(Position()).value;
              IsFirst(lt, lists, if old(forward) then Beyond(lt, lists, was) else KeyAbove(lt, lists, KeyOf(lists, was)), Position())
      ensures old(Cursor()).Valid()
      ensures Cursor() == old(Cursor()).Next() <==> old(forward) || NoneLater(lt, lists, old(Position()).value)
      ensures DistinctKeys(lt, lists) ==> Cursor() == old(Cursor()).Next()
    {
      ghost var was := Position().value;
      ghost var p := if forward then Beyond(lt, lists, was) else KeyAbove(lt, lists, KeyOf(lists, was));
      PartsAreClosed(lt, lists, was, KeyOf(lists, was));
      ghost var keyed := !forward;
      if !forward {
        TurnForward();
      }
      SteppedForward(lt, lists, children, current.value, keyed);
      children := children[current.value := children[current.value].Next()];
      SettleForward(p);
      StepIsCursor(lt, lists, was, Position(), keyed);
      if DistinctKeys(lt, lists) {
        DistinctTurns(lt, lists, was, Position());
      }
    }

    method Prev()
      requires Valid() && Position().Some?
      modifies this
      ensures Valid() && !forward
      ensures var was := old(Position()).value;
              IsLast(lt, lists, if old(forward) then KeyBelow(lt, lists, KeyOf(lists, was)) else Ahead(lt, lists, was), Position())
      ensures old(Cursor()).Valid()
      ensures Cursor() == old(Cursor()).Prev() <==> !old(forward) || NoneEarlier(lt, lists, old(Position()).value)
      ensures DistinctKeys(lt, lists) ==> Cursor() == old(Cursor()).Prev()
    {
      ghost var was := Position().value;
      ghost var p := if forward then KeyBelow(lt, lists, KeyOf(lists, was)) else Ahead(lt, lists, was);
      PartsAreClosed(lt, lists, was, KeyOf(lists, was));
      ghost var keyed := forward;
      if forward {
        TurnBackward();
      }
      SteppedBackward(lt, lists, children, current.value, keyed);
      children := children[current.value := children[current.value].Prev()];
      SettleReverse(p);
      StepBackIsCursor(lt, lists, was, Position(), keyed);
      if DistinctKeys(lt, lists) {
        DistinctTurns(lt, lists, was, Position());
      }
    }
  }

  /** Going forward, or turning when no later child holds the key, is the cursor's Next; and
      turning when one does is not. */
  lemma StepIsCursor(lt: KeyLess, lists: seq<seq<Entry>>, was: Element, e: Option<Element>, turned: bool)
    requires SortedLists(lt, lists) && Exists(lists, was)
    requires IsFirst(lt, lists, if turned then KeyAbove(lt, lists, KeyOf(lists, was)) else Beyond(lt, lists, was), e)
    ensures CursorAt(lt, lists, Some(was)).Valid()
    ensures CursorAt(lt, lists, e) == CursorAt(lt, lists, Some(was)).Next() <==> !turned || NoneLater(lt, lists, was)
  {
    CurrentIsCursor(lt, lists, was);
    TurnForwardExact(lt, lists, was);
    if !turned || NoneLater(lt, lists, was) {
      NextIsCursor(lt, lists, was, e);
    } else {
      var x :| Exists(lists, x) && was.child < x.child && SameKey(lt, KeyOf(lists, was), KeyOf(lists, x));
      TurnPasses(lt, lists, was, e, x);
    }
  }

  lemma TurnPasses(lt: KeyLess, lists: seq<seq<Entry>>, was: Element, e: Option<Element>, x: Element)
    requires SortedLists(lt, lists) && Exists(lists, was) && Exists(lists, x)
    requires was.child < x.child && SameKey(lt, KeyOf(lists, was), KeyOf(lists, x))
    requires IsFirst(lt, lists, KeyAbove(lt, lists, KeyOf(lists, was)), e)
    ensures CursorAt(lt, lists, e).pos != CursorAt(lt, lists, Some(was)).pos + 1
  {
    assert UseUnion(0);
    var order := Union(lt, lists);
    var k :| 0 <= k < |order| && order[k] == was;
    var j :| 0 <= j < |order| && order[j] == x;
    PlaceIs(lt, lists, order, k);
    if j < k {
      LessImplies(lt, lists, order[j], order[k]);
    }
    var next := order[k + 1];
    var kw, kn, kx := KeyOf(lists, was), KeyOf(lists, next), KeyOf(lists, x);
    if k + 1 < j {
      LessImplies(lt, lists, next, x);
    }
    if lt(kw, kn) {
      Between(lt, kw, kn, kx);
    }
    assert e != Some(next);
  }

  lemma StepBackIsCursor(lt: KeyLess, lists: seq<seq<Entry>>, was: Element, e: Option<Element>, turned: bool)
    requires SortedLists(lt, lists) && Exists(lists, was)
    requires IsLast(lt, lists, if turned then KeyBelow(lt, lists, KeyOf(lists, was)) else Ahead(lt, lists, was), e)
    ensures CursorAt(lt, lists, Some(was)).Valid()
    ensures CursorAt(lt, lists, e) == CursorAt(lt, lists, Some(was)).Prev() <==> !turned || NoneEarlier(lt, lists, was)
  {
    CurrentIsCursor(lt, lists, was);
    TurnBackwardExact(lt, lists, was);
    if !turned || NoneEarlier(lt, lists, was) {
      PrevIsCursor(lt, lists, was, e);
    } else {
      var x :| Exists(lists, x) && x.child < was.child && SameKey(lt, KeyOf(lists, was), KeyOf(lists, x));
      TurnBackPasses(lt, lists, was, e, x);
    }
  }

  lemma TurnBackPasses(lt: KeyLess, lists: seq<seq<Entry>>, was: Element, e: Option<Element>, x: Element)
    requires SortedLists(lt, lists) && Exists(lists, was) && Exists(lists, x)
    requires x.child < was.child && SameKey(lt, KeyOf(lists, was), KeyOf(lists, x))
    requires IsLast(lt, lists, KeyBelow(lt, lists, KeyOf(lists, was)), e)
    ensures CursorAt(lt, lists, Some(was)).Valid()
    ensures CursorAt(lt, lists, e) != CursorAt(lt, lists, Some(was)).Prev()
  {
    assert UseUnion(0);
    var order := Union(lt, lists);
    var k :| 0 <= k < |order| && order[k] == was;
    var j :| 0 <= j < |order| && order[j] == x;
    PlaceIs(lt, lists, order, k);
    if k < j {
      LessImplies(lt, lists, order[k], order[j]);
    }
    var before := order[k - 1];
    var kw, kb, kx := KeyOf(lists, was), KeyOf(lists, before), KeyOf(lists, x);
    if j < k - 1 {
      LessImplies(lt, lists, x, before);
    }
    if lt(kb, kw) {
      Between(lt, kb, kw, kx);
    }
    assert e != Some(before);
  }

  // ---- when a direction switch is exact -------------------------------------------------

  predicate SameKey(lt: KeyLess, a: bytes, b: bytes) { !lt(a, b) && !lt(b, a) }

  /** No later child holds the element's key. */
  ghost predicate NoneLater(lt: KeyLess, lists: seq<seq<Entry>>, c: Element)
    requires Exists(lists, c)
  {
    forall x :: Exists(lists, x) && c.child < x.child ==> !SameKey(lt, KeyOf(lists, c), KeyOf(lists, x))
  }

  ghost predicate NoneEarlier(lt: KeyLess, lists: seq<seq<Entry>>, c: Element)
    requires Exists(lists, c)
  {
    forall x :: Exists(lists, x) && x.child < c.child ==> !SameKey(lt, KeyOf(lists, c), KeyOf(lists, x))
  }

  /** Turning forward at c skips no element exactly when no later child holds c's key. */
  lemma TurnForwardExact(lt: KeyLess, lists: seq<seq<Entry>>, c: Element)
    requires SortedLists(lt, lists) && Exists(lists, c)
    ensures (forall x :: Exists(lists, x) ==> (Beyond(lt, lists, c)(x) <==> KeyAbove(lt, lists, KeyOf(lists, c))(x)))
            <==> NoneLater(lt, lists, c)
  {
    forall x | Exists(lists, x)
      ensures (Beyond(lt, lists, c)(x) <==> KeyAbove(lt, lists, KeyOf(lists, c))(x))
              <==> !(c.child < x.child && SameKey(lt, KeyOf(lists, c), KeyOf(lists, x)))
    {
      if x.child == c.child {
        SameChild(lt, lists, c, x);
      }
      assert lt(KeyOf(lists, c), KeyOf(lists, x)) ==> !lt(KeyOf(lists, x), KeyOf(lists, c));
    }
  }

  /** Two children with one entry each, under the same key. */
  ghost function Twins(e: Entry): seq<seq<Entry>> { [[e], [e]] }

  lemma TwinsAre(lt: KeyLess, e: Entry)
    requires Ordered(lt)
    ensures SortedLists(lt, Twins(e))
    ensures forall x :: Exists(Twins(e), x) <==> x == At(0, 0) || x == At(1, 0)
    ensures Less(lt, Twins(e), At(0, 0), At(1, 0)) && !lt(e.key, e.key)
  {
    assert !lt(e.key, e.key);
    forall x | Exists(Twins(e), x)
      ensures x == At(0, 0) || x == At(1, 0)
    {
      assert x.index == 0;
    }
  }

  lemma TwinsMoves(lt: KeyLess, e: Entry, m: Option<Element>)
    requires Ordered(lt)
    ensures IsFirst(lt, Twins(e), Everything(Twins(e)), m) ==> m == Some(At(0, 0))
    ensures IsLast(lt, Twins(e), Everything(Twins(e)), m) ==> m == Some(At(1, 0))
    ensures IsFirst(lt, Twins(e), Beyond(lt, Twins(e), At(0, 0)), m) ==> m == Some(At(1, 0))
    ensures IsLast(lt, Twins(e), Ahead(lt, Twins(e), At(1, 0)), m) ==> m == Some(At(0, 0))
    ensures IsFirst(lt, Twins(e), KeyAbove(lt, Twins(e), e.key), m) ==> m == None
    ensures IsLast(lt, Twins(e), KeyBelow(lt, Twins(e), e.key), m) ==> m == None
  {
    TwinsAre(lt, e);
    LessImplies(lt, Twins(e), At(0, 0), At(1, 0));
    assert Everything(Twins(e))(At(0, 0)) && Everything(Twins(e))(At(1, 0));
    assert Beyond(lt, Twins(e), At(0, 0))(At(1, 0)) && Ahead(lt, Twins(e), At(1, 0))(At(0, 0));
  }

  /** SeekToLast, Prev and Next: the turn ends the iteration although the element it came from
      lies ahead. */
  method TurnForwardSkips(lt: KeyLess, e: Entry) returns (it: MergingIterator, valid: bool)
    requires Ordered(lt)
    ensures fresh(it) && it.Valid() && it.lists == Twins(e) && it.Position() == None && !valid
  {
    TwinsAre(lt, e);
    it := new MergingIterator(lt, [Cursors.Cursor([e], 1), Cursors.Cursor([e], 1)], Twins(e));
    it.SeekToLast();
    TwinsMoves(lt, e, it.Position());
    it.Prev();
    TwinsMoves(lt, e, it.Position());
    it.Next();
    TwinsMoves(lt, e, it.Position());
    valid := it.current.Some?;
  }

  /** SeekToFirst, Next and Prev: the same backwards. */
  method TurnBackwardSkips(lt: KeyLess, e: Entry) returns (it: MergingIterator, valid: bool)
    requires Ordered(lt)
    ensures fresh(it) && it.Valid() && it.lists == Twins(e) && it.Position() == None && !valid
  {
    TwinsAre(lt, e);
    it := new MergingIterator(lt, [Cursors.Cursor([e], 1), Cursors.Cursor([e], 1)], Twins(e));
    it.SeekToFirst();
    TwinsMoves(lt, e, it.Position());
    it.Next();
    TwinsMoves(lt, e, it.Position());
    it.Prev();
    TwinsMoves(lt, e, it.Position());
    valid := it.current.Some?;
  }

  /** Turning backward at c skips no element exactly when no earlier child holds c's key. */
  lemma TurnBackwardExact(lt: KeyLess, lists: seq<seq<Entry>>, c: Element)
    requires SortedLists(lt, lists) && Exists(lists, c)
    ensures (forall x :: Exists(lists, x) ==> (Ahead(lt, lists, c)(x) <==> KeyBelow(lt, lists, KeyOf(lists, c))(x)))
            <==> NoneEarlier(lt, lists, c)
  {
    forall x | Exists(lists, x)
      ensures (Ahead(lt, lists, c)(x) <==> KeyBelow(lt, lists, KeyOf(lists, c))(x))
              <==> !(x.child < c.child && SameKey(lt, KeyOf(lists, c), KeyOf(lists, x)))
    {
      if x.child == c.child {
        SameChild(lt, lists, x, c);
      }
      assert lt(KeyOf(lists, x), KeyOf(lists, c)) ==> !lt(KeyOf(lists, c), KeyOf(lists, x));
    }
  }

  /** No key is in two children. */
  ghost predicate DistinctKeys(lt: KeyLess, lists: seq<seq<Entry>>) {
    forall x, y {:trigger KeyOf(lists, x), KeyOf(lists, y)} ::
      Exists(lists, x) && Exists(lists, y) && x.child != y.child ==> !SameKey(lt, KeyOf(lists, x), KeyOf(lists, y))
  }

  /** With distinct keys a turn is exact: Next always rests on the successor in the sorted
      union and Prev on the predecessor, whichever way the iterator moved before. */
  lemma DistinctTurns(lt: KeyLess, lists: seq<seq<Entry>>, c: Element, e: Option<Element>)
    requires SortedLists(lt, lists) && Exists(lists, c) && DistinctKeys(lt, lists)
    ensures IsFirst(lt, lists, KeyAbove(lt, lists, KeyOf(lists, c)), e) <==> IsFirst(lt, lists, Beyond(lt, lists, c), e)
    ensures IsLast(lt, lists, KeyBelow(lt, lists, KeyOf(lists, c)), e) <==> IsLast(lt, lists, Ahead(lt, lists, c), e)
    ensures NoneLater(lt, lists, c) && NoneEarlier(lt, lists, c)
  {
    TurnForwardExact(lt, lists, c);
    TurnBackwardExact(lt, lists, c);
  }

  // ---- whole scans ----------------------------------------------------------------------

  ghost function Elements(lists: seq<seq<Entry>>): set<Element> {
    set i: nat, q: nat | i < |lists| && q < |lists[i]| :: At(i, q)
  }

  ghost function ToSet(out: seq<Element>): set<Element> { set x | x in out }

  /** The elements before e; all of them when e is absent. */
  ghost predicate BeforeIn(lt: KeyLess, lists: seq<seq<Entry>>, e: Option<Element>, x: Element) {
    Exists(lists, x) && (e.Some? ==> Exists(lists, e.value) && Less(lt, lists, x, e.value))
  }

  /** Stepping from an element to its successor passes exactly that element. */
  lemma StepPasses(lt: KeyLess, lists: seq<seq<Entry>>, here: Element, next: Option<Element>, x: Element)
    requires SortedLists(lt, lists) && Exists(lists, here) && IsFirst(lt, lists, Beyond(lt, lists, here), next)
    ensures BeforeIn(lt, lists, next, x) <==> x == here || BeforeIn(lt, lists, Some(here), x)
  {
    if Exists(lists, x) {
      if x != here {
        LessTotal(lt, lists, x, here);
        if next.Some? && Less(lt, lists, x, here) {
          LessTransitive(lt, lists, x, here, next.value);
        }
        if Less(lt, lists, here, x) {
          LessImplies(lt, lists, here, x);
          if next.Some? && x != next.value {
            LessImplies(lt, lists, next.value, x);
          }
        }
      }
    }
  }

  /** SeekToFirst and then Next to the end: every element of every child exactly once, in
      order; so a key is yielded once per child that holds it. */
  method ScanForward(it: MergingIterator) returns (out: seq<Element>)
    requires it.Valid()
    modifies it
    ensures it.Valid()
    ensures forall x :: x in out <==> Exists(it.lists, x)
    ensures forall i, j :: 0 <= i < j < |out| ==> Beyond(it.lt, it.lists, out[i])(out[j])
  {
    out := [];
    it.SeekToFirst();
    FirstHasNoneBefore(it.lt, it.lists, it.Position());
    while it.current.Some?
      invariant it.Valid() && it.forward
      invariant forall x :: x in out <==> BeforeIn(it.lt, it.lists, it.Position(), x)
      invariant forall i, j :: 0 <= i < j < |out| ==> Beyond(it.lt, it.lists, out[i])(out[j])
      decreases Elements(it.lists) - ToSet(out)
    {
      var here := At(it.current.value, it.children[it.current.value].pos);
      assert here in Elements(it.lists) - ToSet(out);
      forall i | 0 <= i < |out|
        ensures Beyond(it.lt, it.lists, out[i])(here)
      {
        assert out[i] in out;
      }
      it.Next();
      forall x
        ensures BeforeIn(it.lt, it.lists, it.Position(), x) <==> x == here || x in out
      {
        StepPasses(it.lt, it.lists, here, it.Position(), x);
      }
      out := out + [here];
    }
  }

  lemma FirstHasNoneBefore(lt: KeyLess, lists: seq<seq<Entry>>, e: Option<Element>)
    requires SortedLists(lt, lists) && IsFirst(lt, lists, Everything(lists), e)
    ensures forall x :: !BeforeIn(lt, lists, e, x)
  {
    forall x | Exists(lists, x) && e.Some? && x != e.value
      ensures !Less(lt, lists, x, e.value)
    {
      LessImplies(lt, lists, e.value, x);
    }
  }

  // ---- and the same backwards -----------------------------------------------------------

  ghost predicate BeyondIn(lt: KeyLess, lists: seq<seq<Entry>>, e: Option<Element>, x: Element) {
    Exists(lists, x) && (e.Some? ==> Exists(lists, e.value) && Less(lt, lists, e.value, x))
  }

  lemma StepBackPasses(lt: KeyLess, lists: seq<seq<Entry>>, here: Element, prev: Option<Element>, x: Element)
    requires SortedLists(lt, lists) && Exists(lists, here) && IsLast(lt, lists, Ahead(lt, lists, here), prev)
    ensures BeyondIn(lt, lists, prev, x) <==> x == here || BeyondIn(lt, lists, Some(here), x)
  {
    if Exists(lists, x) {
      if x != here {
        LessTotal(lt, lists, x, here);
        if prev.Some? && Less(lt, lists, here, x) {
          LessTransitive(lt, lists, prev.value, here, x);
        }
        if Less(lt, lists, x, here) {
          LessImplies(lt, lists, x, here);
          if prev.Some? && x != prev.value {
            LessImplies(lt, lists, x, prev.value);
          }
        }
      }
    }
  }

  lemma LastHasNoneBeyond(lt: KeyLess, lists: seq<seq<Entry>>, e: Option<Element>)
    requires SortedLists(lt, lists) && IsLast(lt, lists, Everything(lists), e)
    ensures forall x :: !BeyondIn(lt, lists, e, x)
  {
    forall x | Exists(lists, x) && e.Some? && x != e.value
      ensures !Less(lt, lists, e.value, x)
    {
      LessImplies(lt, lists, x, e.value);
    }
  }

  /** SeekToLast and then Prev to the beginning: the reverse of ScanForward. */
  method ScanBackward(it: MergingIterator) returns (out: seq<Element>)
    requires it.Valid()
    modifies it
    ensures it.Valid()
    ensures forall x :: x in out <==> Exists(it.lists, x)
    ensures forall i, j :: 0 <= i < j < |out| ==> Ahead(it.lt, it.lists, out[i])(out[j])
  {
    out := [];
    it.SeekToLast();
    LastHasNoneBeyond(it.lt, it.lists, it.Position());
    while it.current.Some?
      invariant it.Valid() && !it.forward
      invariant forall x :: x in out <==> BeyondIn(it.lt, it.lists, it.Position(), x)
      invariant forall i, j :: 0 <= i < j < |out| ==> Ahead(it.lt, it.lists, out[i])(out[j])
      decreases Elements(it.lists) - ToSet(out)
    {
      var here := At(it.current.value, it.children[it.current.value].pos);
      assert here in Elements(it.lists) - ToSet(out);
      forall i | 0 <= i < |out|
        ensures Ahead(it.lt, it.lists, out[i])(here)
      {
        assert out[i] in out;
      }
      it.Prev();
      forall x
        ensures BeyondIn(it.lt, it.lists, it.Position(), x) <==> x == here || x in out
      {
        StepBackPasses(it.lt, it.lists, here, it.Position(), x);
      }
      out := out + [here];
    }
  }
}
