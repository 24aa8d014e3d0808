/** The shared memory of a skip list (db/skiplist.h) and what every store to it keeps.

    A node is an index into an append-only sequence, as the arena hands out addresses and
    never frees them; node 0 is the sentinel `head_`.  `done` says at how many levels the
    most recently allocated node has been linked so far, so a node is published at a level
    once the store that links it there has been performed.  The invariant is stated on the
    pointers themselves: at every level, the next pointer of a published node designates
    its immediate successor among the nodes published at that level. */
module SkipListMemory {

  const MAX_HEIGHT: nat := 12

  /** The content of one `next_[level]` cell; a cell is unset until first stored to. */
  datatype Link = Unset | Null | To(node: nat)

  datatype Node<K> =
    | Head(next: seq<Link>)
    | Item(key: K, next: seq<Link>)

  datatype Memory<K> = Memory(nodes: seq<Node<K>>, maxHeight: nat)

  /** `lt(a, b)` is `compare_(a, b) < 0`; keys that compare equal need not be identical. */
  ghost predicate StrictWeakOrder<K(!new)>(lt: (K, K) -> bool) {
    && (forall a, b :: lt(a, b) ==> !lt(b, a))
    && (forall a, b, c :: lt(a, b) ==> lt(a, c) || lt(c, b))
  }

  predicate Equal<K>(lt: (K, K) -> bool, a: K, b: K) {
    !lt(a, b) && !lt(b, a)
  }

  /** Node b comes strictly after node a; the head precedes every item. */
  predicate Before<K>(lt: (K, K) -> bool, a: Node<K>, b: Node<K>) {
    b.Item? && (a.Head? || lt(a.key, b.key))
  }

  /** Node n lies strictly before key k. */
  predicate Below<K>(lt: (K, K) -> bool, n: Node<K>, k: K) {
    n.Head? || lt(n.key, k)
  }

  ghost predicate Published<K>(m: Memory<K>, done: nat, n: int, l: int) {
    && 0 <= n < |m.nodes|
    && 0 <= l < |m.nodes[n].next|
    && (n + 1 == |m.nodes| ==> l < done)
  }

  ghost predicate Shape<K>(m: Memory<K>) {
    && 0 < |m.nodes|
    && m.nodes[0].Head?
    && |m.nodes[0].next| == MAX_HEIGHT
    && 1 <= m.maxHeight <= MAX_HEIGHT
    && forall n :: 0 < n < |m.nodes| ==> m.nodes[n].Item? && 1 <= |m.nodes[n].next| <= m.maxHeight
  }

  ghost predicate Distinct<K>(lt: (K, K) -> bool, m: Memory<K>)
    requires Shape(m)
  {
    forall i, j :: 0 < i < j < |m.nodes| ==> !Equal(lt, m.nodes[i].key, m.nodes[j].key)
  }

  /** The next pointer of n at level l is the least published node after n at that level,
      or null when there is none; in particular it has been set. */
  ghost predicate Successor<K>(lt: (K, K) -> bool, m: Memory<K>, done: nat, n: int, l: int)
    requires 0 <= n < |m.nodes| && 0 <= l < |m.nodes[n].next|
  {
    match m.nodes[n].next[l]
    case Unset => false
    case Null => forall o :: Published(m, done, o, l) ==> !Before(lt, m.nodes[n], m.nodes[o])
    case To(s) =>
      && Published(m, done, s, l)
      && Before(lt, m.nodes[n], m.nodes[s])
      && forall o :: Published(m, done, o, l) && Before(lt, m.nodes[n], m.nodes[o])
                     ==> o == s || Before(lt, m.nodes[s], m.nodes[o])
  }

  ghost predicate Inv<K>(lt: (K, K) -> bool, m: Memory<K>, done: nat) {
    && Shape(m)
    && Distinct(lt, m)
    && (|m.nodes| == 1 ==> done == MAX_HEIGHT)
    && forall n, l {:trigger Successor(lt, m, done, n, l)} ::
         Published(m, done, n, l) ==> Successor(lt, m, done, n, l)
  }

  /** The keys a reader of level 0 can reach. */
  ghost function Keys<K>(m: Memory<K>, done: nat): set<K>
    requires Shape(m)
  {
    set n | 0 <= n < |m.nodes| && 0 < n && Published(m, done, n, 0) :: m.nodes[n].key
  }

  // ---- the stores of Insert -------------------------------------------------------------

  function Empty<K>(): Memory<K> {
    Memory([Head(seq(MAX_HEIGHT, _ => Null))], 1)
  }

  function RaiseHeight<K>(m: Memory<K>, h: nat): Memory<K> {
    m.(maxHeight := if h > m.maxHeight then h else m.maxHeight)
  }

  function NewNode<K>(m: Memory<K>, k: K, height: nat): Memory<K> {
    m.(nodes := m.nodes + [Item(k, seq(height, _ => Unset))])
  }

  function SetNext<K>(m: Memory<K>, n: nat, l: nat, v: Link): Memory<K>
    requires n < |m.nodes| && l < |m.nodes[n].next|
  {
    m.(nodes := m.nodes[n := m.nodes[n].(next := m.nodes[n].next[l := v])])
  }

  /** p is the last node published at level l that lies before key k. */
  ghost predicate LastBelow<K>(lt: (K, K) -> bool, m: Memory<K>, done: nat, p: int, l: int, k: K) {
    && Published(m, done, p, l)
    && Below(lt, m.nodes[p], k)
    && match m.nodes[p].next[l]
       case Unset => false
       case Null => true
       case To(s) => s < |m.nodes| && m.nodes[s].Item? && !lt(m.nodes[s].key, k)
  }

  // ---- what the stores keep -------------------------------------------------------------

  lemma EmptyInv<K(!new)>(lt: (K, K) -> bool)
    ensures Inv(lt, Empty<K>(), MAX_HEIGHT)
    ensures Keys(Empty<K>(), MAX_HEIGHT) == {}
  {
    var m := Empty<K>();
    forall n, l | Published(m, MAX_HEIGHT, n, l)
      ensures Successor(lt, m, MAX_HEIGHT, n, l)
    {
      assert n == 0 && m.nodes[0].next[l] == Null;
    }
  }

  lemma RaiseHeightKeeps<K(!new)>(lt: (K, K) -> bool, m: Memory<K>, done: nat, h: nat)
    requires Inv(lt, m, done) && h <= MAX_HEIGHT
    ensures Inv(lt, RaiseHeight(m, h), done)
    ensures Keys(RaiseHeight(m, h), done) == Keys(m, done)
  {
    var m' := RaiseHeight(m, h);
    assert forall n, l :: Published(m', done, n, l) <==> Published(m, done, n, l);
    forall n, l | Published(m', done, n, l)
      ensures Successor(lt, m', done, n, l)
    {
      assert Successor(lt, m, done, n, l);
    }
  }

  ghost predicate Fresh<K>(lt: (K, K) -> bool, m: Memory<K>, k: K)
    requires Shape(m)
  {
    forall n :: 0 < n < |m.nodes| ==> !Equal(lt, m.nodes[n].key, k)
  }

  /** Allocating a node publishes nothing. */
  lemma NewNodeKeeps<K(!new)>(lt: (K, K) -> bool, m: Memory<K>, k: K, height: nat)
    requires Inv(lt, m, MAX_HEIGHT) && Fresh(lt, m, k) && 1 <= height <= m.maxHeight
    ensures Inv(lt, NewNode(m, k, height), 0)
    ensures Keys(NewNode(m, k, height), 0) == Keys(m, MAX_HEIGHT)
    ensures forall n, l :: Published(NewNode(m, k, height), 0, n, l) <==> Published(m, MAX_HEIGHT, n, l)
  {
    var m' := NewNode(m, k, height);
    assert forall n, l :: Published(m', 0, n, l) <==> Published(m, MAX_HEIGHT, n, l);
    forall n, l | Published(m', 0, n, l)
      ensures Successor(lt, m', 0, n, l)
    {
      assert Successor(lt, m, MAX_HEIGHT, n, l);
      assert m'.nodes[n] == m.nodes[n];
      assert forall o :: Published(m', 0, o, l) ==> m'.nodes[o] == m.nodes[o];
    }
  }

  /** Storing to a cell of the new node at a level where it is not linked yet is invisible. */
  lemma OwnNextKeeps<K(!new)>(lt: (K, K) -> bool, m: Memory<K>, l: nat, v: Link)
    requires Inv(lt, m, l) && 1 < |m.nodes| && l < |m.nodes[|m.nodes| - 1].next|
    ensures Inv(lt, SetNext(m, |m.nodes| - 1, l, v), l)
    ensures Keys(SetNext(m, |m.nodes| - 1, l, v), l) == Keys(m, l)
    ensures forall n, i :: Published(SetNext(m, |m.nodes| - 1, l, v), l, n, i) <==> Published(m, l, n, i)
  {
    var m' := SetNext(m, |m.nodes| - 1, l, v);
    assert forall n, i :: Published(m', l, n, i) <==> Published(m, l, n, i);
    forall n, i | Published(m', l, n, i)
      ensures Successor(lt, m', l, n, i)
    {
      assert Successor(lt, m, l, n, i);
      assert m'.nodes[n].next[i] == m.nodes[n].next[i];
    }
  }

  /** x may be published at level l after p: it holds p's successor and sorts between the two. */
  ghost predicate Linkable<K(!new)>(lt: (K, K) -> bool, m: Memory<K>, p: nat, l: nat) {
    && Inv(lt, m, l)
    && p + 1 < |m.nodes|
    && l < |m.nodes[|m.nodes| - 1].next|
    && LastBelow(lt, m, l, p, l, m.nodes[|m.nodes| - 1].key)
    && m.nodes[|m.nodes| - 1].next[l] == m.nodes[p].next[l]
  }

  /** The release store `prev[l]->SetNext(l, x)`. */
  function Publish<K>(m: Memory<K>, p: nat, l: nat): Memory<K>
    requires p + 1 < |m.nodes| && l < |m.nodes[p].next|
  {
    SetNext(m, p, l, To(|m.nodes| - 1))
  }

  lemma PublishedBy<K(!new)>(lt: (K, K) -> bool, m: Memory<K>, p: nat, l: nat, n: int, i: int)
    requires Linkable(lt, m, p, l)
    ensures Published(Publish(m, p, l), l + 1, n, i)
            <==> Published(m, l, n, i) || (n == |m.nodes| - 1 && i == l)
  {
  }

  /** Among the nodes published at level l, none lies strictly between p and x, nor between
      x and p's old successor. */
  lemma NoneBetween<K(!new)>(lt: (K, K) -> bool, m: Memory<K>, p: nat, l: nat, o: int)
    requires StrictWeakOrder(lt) && Linkable(lt, m, p, l) && Published(m, l, o, l)
    ensures var x := |m.nodes| - 1;
            && (Before(lt, m.nodes[p], m.nodes[o]) ==> Before(lt, m.nodes[x], m.nodes[o]))
            && (Before(lt, m.nodes[o], m.nodes[x]) ==> !Before(lt, m.nodes[p], m.nodes[o]))
  {
    var x := |m.nodes| - 1;
    assert Successor(lt, m, l, p, l);
    if Before(lt, m.nodes[p], m.nodes[o]) {
      var s := m.nodes[p].next[l].node;
      assert !lt(m.nodes[s].key, m.nodes[x].key);
      assert s != x;
      assert !Equal(lt, m.nodes[s].key, m.nodes[x].key);
      assert lt(m.nodes[x].key, m.nodes[s].key);
    }
  }

  lemma OrderTwo<K(!new)>(lt: (K, K) -> bool, m: Memory<K>, a: nat, b: nat)
    requires Shape(m) && Distinct(lt, m) && a < |m.nodes| && b < |m.nodes| && a != b
    ensures Before(lt, m.nodes[a], m.nodes[b]) || Before(lt, m.nodes[b], m.nodes[a])
  {
    if 0 < a && 0 < b {
      var i, j := if a < b then a else b, if a < b then b else a;
      assert !Equal(lt, m.nodes[i].key, m.nodes[j].key);
    }
  }

  /** A node other than p that lies before x has its successor before x as well: it cannot
      have skipped p. */
  lemma SuccessorStaysBelow<K(!new)>(lt: (K, K) -> bool, m: Memory<K>, p: nat, l: nat, n: int)
    requires StrictWeakOrder(lt) && Linkable(lt, m, p, l) && Published(m, l, n, l) && n != p
    requires Before(lt, m.nodes[n], m.nodes[|m.nodes| - 1])
    ensures m.nodes[n].next[l].To? && m.nodes[n].next[l].node < |m.nodes|
    ensures Before(lt, m.nodes[m.nodes[n].next[l].node], m.nodes[|m.nodes| - 1])
  {
    var x := |m.nodes| - 1;
    NoneBetween(lt, m, p, l, n);
    OrderTwo(lt, m, n, p);
    assert Before(lt, m.nodes[n], m.nodes[p]);
    assert Successor(lt, m, l, n, l);
    var s := m.nodes[n].next[l].node;
    assert s == p || Before(lt, m.nodes[s], m.nodes[p]);
  }

  /** A successor stays the successor when the only nodes published since lie beyond it. */
  lemma SuccessorTransfers<K(!new)>(lt: (K, K) -> bool, m: Memory<K>, d: nat, m': Memory<K>, d': nat,
                                    n: int, i: int)
    requires |m.nodes| == |m'.nodes|
    requires forall a :: 0 <= a < |m.nodes| ==>
               && m.nodes[a].Item? == m'.nodes[a].Item?
               && (m.nodes[a].Item? ==> m.nodes[a].key == m'.nodes[a].key)
    requires 0 <= n < |m.nodes| && 0 <= i < |m.nodes[n].next| == |m'.nodes[n].next|
    requires m'.nodes[n].next[i] == m.nodes[n].next[i]
    requires Successor(lt, m, d, n, i)
    requires forall o :: Published(m, d, o, i) ==> Published(m', d', o, i)
    requires forall o :: Published(m', d', o, i) && !Published(m, d, o, i) && Before(lt, m.nodes[n], m.nodes[o]) ==>
               m.nodes[n].next[i].To? && Before(lt, m.nodes[m.nodes[n].next[i].node], m.nodes[o])
    ensures Successor(lt, m', d', n, i)
  {
  }

  lemma PublishOther<K(!new)>(lt: (K, K) -> bool, m: Memory<K>, p: nat, l: nat, n: int, i: int)
    requires StrictWeakOrder(lt) && Linkable(lt, m, p, l) && Published(m, l, n, i)
    requires n != p || i != l
    ensures Successor(lt, Publish(m, p, l), l + 1, n, i)
  {
    var m', x := Publish(m, p, l), |m.nodes| - 1;
    if i == l && Before(lt, m.nodes[n], m.nodes[x]) {
      SuccessorStaysBelow(lt, m, p, l, n);
    }
    forall o
      ensures Published(m', l + 1, o, i) <==> Published(m, l, o, i) || (o == x && i == l)
    {
      PublishedBy(lt, m, p, l, o, i);
    }
    assert Successor(lt, m, l, n, i);
    SuccessorTransfers(lt, m, l, m', l + 1, n, i);
  }

  lemma PublishPredecessor<K(!new)>(lt: (K, K) -> bool, m: Memory<K>, p: nat, l: nat)
    requires StrictWeakOrder(lt) && Linkable(lt, m, p, l)
    ensures Successor(lt, Publish(m, p, l), l + 1, p, l)
  {
    var m', x := Publish(m, p, l), |m.nodes| - 1;
    PublishedBy(lt, m, p, l, x, l);
    forall o | Published(m', l + 1, o, l) && Before(lt, m'.nodes[p], m'.nodes[o])
      ensures o == x || Before(lt, m'.nodes[x], m'.nodes[o])
    {
      PublishedBy(lt, m, p, l, o, l);
      if o != x {
        NoneBetween(lt, m, p, l, o);
      }
    }
  }

  lemma PublishNew<K(!new)>(lt: (K, K) -> bool, m: Memory<K>, p: nat, l: nat)
    requires StrictWeakOrder(lt) && Linkable(lt, m, p, l)
    ensures Published(Publish(m, p, l), l + 1, |m.nodes| - 1, l)
    ensures Successor(lt, Publish(m, p, l), l + 1, |m.nodes| - 1, l)
  {
    var m', x := Publish(m, p, l), |m.nodes| - 1;
    assert Successor(lt, m, l, p, l);
    assert m'.nodes[x] == m.nodes[x];
    forall o | Published(m', l + 1, o, l) && Before(lt, m'.nodes[x], m'.nodes[o])
      ensures Published(m, l, o, l) && Before(lt, m.nodes[p], m.nodes[o])
    {
      PublishedBy(lt, m, p, l, o, l);
    }
    if m.nodes[p].next[l].To? {
      var s := m.nodes[p].next[l].node;
      NoneBetween(lt, m, p, l, s);
      PublishedBy(lt, m, p, l, s, l);
    }
  }

  /** Publishing keeps the invariant and makes exactly one more (node, level) pair visible. */
  lemma PublishKeeps<K(!new)>(lt: (K, K) -> bool, m: Memory<K>, p: nat, l: nat)
    requires StrictWeakOrder(lt) && Linkable(lt, m, p, l)
    ensures Inv(lt, Publish(m, p, l), l + 1)
    ensures Keys(Publish(m, p, l), l + 1)
            == Keys(m, l) + if l == 0 then {m.nodes[|m.nodes| - 1].key} else {}
  {
    var m', d, x := Publish(m, p, l), l + 1, |m.nodes| - 1;
    assert forall n :: 0 < n < |m.nodes| ==> m'.nodes[n].key == m.nodes[n].key;
    forall n, i | Published(m', d, n, i)
      ensures Successor(lt, m', d, n, i)
    {
      PublishedBy(lt, m, p, l, n, i);
      if n == x && i == l {
        PublishNew(lt, m, p, l);
      } else if n == p && i == l {
        PublishPredecessor(lt, m, p, l);
      } else {
        PublishOther(lt, m, p, l, n, i);
      }
    }
    forall n
      ensures Published(m', d, n, 0) <==> Published(m, l, n, 0) || (n == x && l == 0)
    {
      PublishedBy(lt, m, p, l, n, 0);
    }
  }

  // ---- the list at one level, as the pointers spell it ----------------------------------

  ghost function After<K(!new)>(lt: (K, K) -> bool, m: Memory<K>, n: nat): set<nat>
    requires n < |m.nodes|
  {
    set o: nat | o < |m.nodes| && Before(lt, m.nodes[n], m.nodes[o])
  }

  lemma AfterShrinks<K(!new)>(lt: (K, K) -> bool, m: Memory<K>, n: nat, s: nat)
    requires StrictWeakOrder(lt) && n < |m.nodes| && s < |m.nodes| && Before(lt, m.nodes[n], m.nodes[s])
    ensures After(lt, m, s) < After(lt, m, n)
    ensures |After(lt, m, s)| < |After(lt, m, n)|
  {
    assert s in After(lt, m, n) && s !in After(lt, m, s);
    assert After(lt, m, s) < After(lt, m, n);
    SmallerSet(After(lt, m, s), After(lt, m, n));
  }

  lemma {:induction false} SmallerSet(a: set<nat>, b: set<nat>)
    requires a < b
    ensures |a| < |b|
  {
    assert b == a + (b - a);
    assert |b| == |a| + |b - a|;
  }

  /** The nodes met by following the level-l pointers from node n. */
  ghost function Follow<K(!new)>(lt: (K, K) -> bool, m: Memory<K>, done: nat, n: nat, l: nat): seq<nat>
    requires StrictWeakOrder(lt) && Inv(lt, m, done) && Published(m, done, n, l)
    ensures forall i :: 0 <= i < |Follow(lt, m, done, n, l)| ==> Follow(lt, m, done, n, l)[i] < |m.nodes|
    decreases |After(lt, m, n)|
  {
    assert Successor(lt, m, done, n, l);
    match m.nodes[n].next[l]
    case To(s) =>
      AfterShrinks(lt, m, n, s);
      [s] + Follow(lt, m, done, s, l)
    case _ => []
  }

  /** Following the pointers of level l from n visits, in strictly increasing order, exactly
      the nodes published at that level that lie after n. */
  lemma {:induction false} FollowIsSorted<K(!new)>(lt: (K, K) -> bool, m: Memory<K>, done: nat, n: nat, l: nat)
    requires StrictWeakOrder(lt) && Inv(lt, m, done) && Published(m, done, n, l)
    ensures var f := Follow(lt, m, done, n, l);
            && (forall o :: o in f <==> Published(m, done, o, l) && Before(lt, m.nodes[n], m.nodes[o]))
            && (forall i, j :: 0 <= i < j < |f| ==> Before(lt, m.nodes[f[i]], m.nodes[f[j]]))
    decreases |After(lt, m, n)|
  {
    assert Successor(lt, m, done, n, l);
    if m.nodes[n].next[l].To? {
      var s := m.nodes[n].next[l].node;
      AfterShrinks(lt, m, n, s);
      FollowIsSorted(lt, m, done, s, l);
    }
  }

  /** Level l + 1 is a sublist of level l: both are sorted, and every node of the upper list
      is in the lower one. */
  lemma LevelsNest<K(!new)>(lt: (K, K) -> bool, m: Memory<K>, done: nat, l: nat)
    requires StrictWeakOrder(lt) && Inv(lt, m, done) && l + 1 < MAX_HEIGHT
    ensures Published(m, done, 0, l) && Published(m, done, 0, l + 1)
    ensures forall o :: o in Follow(lt, m, done, 0, l + 1) ==> o in Follow(lt, m, done, 0, l)
  {
    FollowIsSorted(lt, m, done, 0, l);
    FollowIsSorted(lt, m, done, 0, l + 1);
  }
}
