/** One writer and any number of lock-free readers over a skip list (db/skiplist.h).

    Every load and every store of a shared cell is one atomic step, and the steps of the
    writer and of all readers interleave freely.  A reader starts from any height between 1
    and the current one, so from every value `max_height_` has held so far. */
module SkipListConcurrent {
  import opened SkipListMemory

  /** What a reader walks towards: FindGreaterOrEqual, FindLessThan or FindLast. */
  datatype Query<K> =
    | AtOrAfter(target: K)
    | LastBefore(target: K)
    | LastOfAll

  datatype Reader<K> =
    | Idle
    | Walking(query: Query<K>, x: nat, level: nat)
    | Done(query: Query<K>, result: Link)

  /** The program counter of Insert with its locals. */
  datatype Writer<K> =
    | Resting
    | Searching(key: K, x: nat, level: nat, prev: seq<nat>)
    | Searched(key: K, prev: seq<nat>)
    | Raised(key: K, height: nat, prev: seq<nat>)
    | Linking(level: nat, prev: seq<nat>)
    | Publishing(level: nat, prev: seq<nat>)

  datatype State<K> = State(mem: Memory<K>, writer: Writer<K>, readers: seq<Reader<K>>)

  datatype Action<K> =
    | BeginInsert(key: K)
    | WriterStep(height: nat)
    | BeginRead(r: nat, query: Query<K>, height: nat)
    | ReaderStep(r: nat)

  /** The number of levels at which the last allocated node is linked. */
  function Linked<K>(w: Writer<K>): nat {
    match w
    case Linking(l, _) => l
    case Publishing(l, _) => l
    case _ => MAX_HEIGHT
  }

  // ---- the invariant of every reachable state -------------------------------------------

  /** prev[i] is the last node before key at every level i in [from, to). */
  ghost predicate PrevFound<K>(lt: (K, K) -> bool, m: Memory<K>, done: nat, prev: seq<nat>, key: K,
                               from: nat, to: nat) {
    && |prev| == MAX_HEIGHT
    && to <= MAX_HEIGHT
    && forall i :: from <= i < to ==> LastBelow(lt, m, done, prev[i], i, key)
  }

  ghost predicate WriterInv<K(!new)>(lt: (K, K) -> bool, m: Memory<K>, w: Writer<K>)
    requires Shape(m)
  {
    var x := |m.nodes| - 1;
    var height := |m.nodes[x].next|;
    match w
    case Resting => true
    case Searching(key, n, level, prev) =>
      && Fresh(lt, m, key)
      && level < m.maxHeight
      && Published(m, MAX_HEIGHT, n, level)
      && Below(lt, m.nodes[n], key)
      && PrevFound(lt, m, MAX_HEIGHT, prev, key, level + 1, m.maxHeight)
    case Searched(key, prev) =>
      Fresh(lt, m, key) && PrevFound(lt, m, MAX_HEIGHT, prev, key, 0, m.maxHeight)
    case Raised(key, h, prev) =>
      Fresh(lt, m, key) && 1 <= h <= m.maxHeight && PrevFound(lt, m, MAX_HEIGHT, prev, key, 0, h)
    case Linking(l, prev) =>
      0 < x && l < height && PrevFound(lt, m, l, prev, m.nodes[x].key, l, height)
    case Publishing(l, prev) =>
      && 0 < x && l < height && PrevFound(lt, m, l, prev, m.nodes[x].key, l, height)
      && m.nodes[x].next[l] == m.nodes[prev[l]].next[l]
  }

  /** A walking reader stands on a node published at its level and not past its target. */
  ghost predicate ReaderInv<K>(lt: (K, K) -> bool, m: Memory<K>, done: nat, r: Reader<K>) {
    r.Walking? ==>
      && Published(m, done, r.x, r.level)
      && (!r.query.LastOfAll? ==> Below(lt, m.nodes[r.x], r.query.target))
  }

  ghost predicate StateInv<K(!new)>(lt: (K, K) -> bool, s: State<K>) {
    && Inv(lt, s.mem, Linked(s.writer))
    && WriterInv(lt, s.mem, s.writer)
    && forall r :: 0 <= r < |s.readers| ==> ReaderInv(lt, s.mem, Linked(s.writer), s.readers[r])
  }

  // ---- the steps ------------------------------------------------------------------------

  ghost predicate Enabled<K(!new)>(lt: (K, K) -> bool, s: State<K>, a: Action<K>)
    requires Shape(s.mem)
  {
    match a
    case BeginInsert(key) => s.writer.Resting? && Fresh(lt, s.mem, key)
    case WriterStep(height) => !s.writer.Resting? && 1 <= height <= MAX_HEIGHT
    case BeginRead(r, q, height) => r < |s.readers| && !s.readers[r].Walking? && 1 <= height <= s.mem.maxHeight
    case ReaderStep(r) => r < |s.readers| && s.readers[r].Walking?
  }

  /** `KeyIsAfterNode(k, next)`: null is considered infinite. */
  predicate KeyIsAfter<K>(lt: (K, K) -> bool, m: Memory<K>, k: K, next: Link)
    requires next.To? ==> next.node < |m.nodes| && m.nodes[next.node].Item?
  {
    next.To? && lt(m.nodes[next.node].key, k)
  }

  predicate Advances<K>(lt: (K, K) -> bool, m: Memory<K>, q: Query<K>, next: Link)
    requires next.To? ==> next.node < |m.nodes| && m.nodes[next.node].Item?
  {
    if q.LastOfAll? then next.To? else KeyIsAfter(lt, m, q.target, next)
  }

  /** One turn of a search loop: load a next pointer, then move right, down or out. */
  function ReadOne<K(!new)>(lt: (K, K) -> bool, m: Memory<K>, ghost done: nat, q: Query<K>, x: nat, level: nat): Reader<K>
    requires Inv(lt, m, done) && Published(m, done, x, level)
  {
    LoadIsSet(lt, m, done, x, level);
    var next := m.nodes[x].next[level];
    if Advances(lt, m, q, next) then
      Walking(q, next.node, level)
    else if level == 0 then
      Done(q, if q.AtOrAfter? then next else To(x))
    else
      Walking(q, x, level - 1)
  }

  function SearchOne<K(!new)>(lt: (K, K) -> bool, m: Memory<K>, w: Writer<K>): Writer<K>
    requires Inv(lt, m, MAX_HEIGHT) && w.Searching? && WriterInv(lt, m, w)
  {
    LoadIsSet(lt, m, MAX_HEIGHT, w.x, w.level);
    var next := m.nodes[w.x].next[w.level];
    if KeyIsAfter(lt, m, w.key, next) then
      w.(x := next.node)
    else if w.level == 0 then
      Searched(w.key, w.prev[0 := w.x])
    else
      Searching(w.key, w.x, w.level - 1, w.prev[w.level := w.x])
  }

  /** `prev[i] = head_` for the levels the list did not use before. */
  function HeadFrom(prev: seq<nat>, from: nat, height: nat): seq<nat>
    requires |prev| == MAX_HEIGHT
  {
    seq(MAX_HEIGHT, i requires 0 <= i < MAX_HEIGHT => if from <= i < height then 0 else prev[i])
  }

  /** The next step of Insert; `height` is what RandomHeight draws. */
  function WriteOne<K(!new)>(lt: (K, K) -> bool, s: State<K>, height: nat): State<K>
    requires StateInv(lt, s) && Enabled(lt, s, WriterStep(height))
  {
    var m := s.mem;
    match s.writer
    case Searching(_, _, _, _) => s.(writer := SearchOne(lt, m, s.writer))
    case Searched(key, prev) =>
      s.(mem := RaiseHeight(m, height), writer := Raised(key, height, HeadFrom(prev, m.maxHeight, height)))
    case Raised(key, h, prev) =>
      s.(mem := NewNode(m, key, h), writer := Linking(0, prev))
    case Linking(l, prev) =>
      s.(mem := SetNext(m, |m.nodes| - 1, l, m.nodes[prev[l]].next[l]), writer := Publishing(l, prev))
    case Publishing(l, prev) =>
      s.(mem := Publish(m, prev[l], l),
         writer := if l + 1 < |m.nodes[|m.nodes| - 1].next| then Linking(l + 1, prev) else Resting)
  }

  function Step<K(!new)>(lt: (K, K) -> bool, s: State<K>, a: Action<K>): State<K>
    requires StateInv(lt, s) && Enabled(lt, s, a)
  {
    match a
    case BeginInsert(key) =>
      s.(writer := Searching(key, 0, s.mem.maxHeight - 1, seq(MAX_HEIGHT, _ => 0)))
    case WriterStep(height) => WriteOne(lt, s, height)
    case BeginRead(r, q, height) => s.(readers := s.readers[r := Walking(q, 0, height - 1)])
    case ReaderStep(r) =>
      var t := s.readers[r];
      s.(readers := s.readers[r := ReadOne(lt, s.mem, Linked(s.writer), t.query, t.x, t.level)])
  }

  // ---- no thread ever loads an unset cell -----------------------------------------------

  lemma LoadIsSet<K(!new)>(lt: (K, K) -> bool, m: Memory<K>, done: nat, x: nat, level: nat)
    requires Inv(lt, m, done) && Published(m, done, x, level)
    ensures !m.nodes[x].next[level].Unset?
    ensures m.nodes[x].next[level].To? ==>
              var n := m.nodes[x].next[level].node;
              n < |m.nodes| && m.nodes[n].Item? && Published(m, done, n, level) && Before(lt, m.nodes[x], m.nodes[n])
  {
    assert Successor(lt, m, done, x, level);
  }

  // ---- every step keeps the invariant ---------------------------------------------------

  /** A reader keeps its footing when the memory changes only by publishing more. */
  lemma ReaderSurvives<K(!new)>(lt: (K, K) -> bool, m: Memory<K>, done: nat, m': Memory<K>, done': nat, r: Reader<K>)
    requires ReaderInv(lt, m, done, r)
    requires |m.nodes| <= |m'.nodes|
    requires forall n :: 0 <= n < |m.nodes| ==>
               && m.nodes[n].Item? == m'.nodes[n].Item?
               && (m.nodes[n].Item? ==> m.nodes[n].key == m'.nodes[n].key)
    requires forall n, l :: Published(m, done, n, l) ==> Published(m', done', n, l)
    ensures ReaderInv(lt, m', done', r)
  {
  }

  lemma ReadKeeps<K(!new)>(lt: (K, K) -> bool, m: Memory<K>, done: nat, r: Reader<K>)
    requires Inv(lt, m, done) && r.Walking? && ReaderInv(lt, m, done, r)
    ensures ReaderInv(lt, m, done, ReadOne(lt, m, done, r.query, r.x, r.level))
  {
    LoadIsSet(lt, m, done, r.x, r.level);
  }

  lemma SearchKeeps<K(!new)>(lt: (K, K) -> bool, m: Memory<K>, w: Writer<K>)
    requires Inv(lt, m, MAX_HEIGHT) && w.Searching? && WriterInv(lt, m, w)
    ensures WriterInv(lt, m, SearchOne(lt, m, w)) && Linked(SearchOne(lt, m, w)) == MAX_HEIGHT
  {
    LoadIsSet(lt, m, MAX_HEIGHT, w.x, w.level);
  }

  /** Levels the list has not used hold only the head. */
  lemma RaisedKeeps<K(!new)>(lt: (K, K) -> bool, m: Memory<K>, key: K, prev: seq<nat>, h: nat)
    requires Inv(lt, m, MAX_HEIGHT) && 1 <= h <= MAX_HEIGHT && WriterInv(lt, m, Searched(key, prev))
    ensures Inv(lt, RaiseHeight(m, h), MAX_HEIGHT)
    ensures WriterInv(lt, RaiseHeight(m, h), Raised(key, h, HeadFrom(prev, m.maxHeight, h)))
  {
    RaiseHeightKeeps(lt, m, MAX_HEIGHT, h);
    var m', prev' := RaiseHeight(m, h), HeadFrom(prev, m.maxHeight, h);
    forall i | 0 <= i < h
      ensures LastBelow(lt, m', MAX_HEIGHT, prev'[i], i, key)
    {
      if i < m.maxHeight {
        assert LastBelow(lt, m, MAX_HEIGHT, prev[i], i, key);
      } else {
        assert Published(m, MAX_HEIGHT, 0, i);
        LoadIsSet(lt, m, MAX_HEIGHT, 0, i);
      }
    }
  }

  lemma AllocationKeeps<K(!new)>(lt: (K, K) -> bool, m: Memory<K>, key: K, h: nat, prev: seq<nat>)
    requires Inv(lt, m, MAX_HEIGHT) && WriterInv(lt, m, Raised(key, h, prev))
    ensures Inv(lt, NewNode(m, key, h), 0)
    ensures WriterInv(lt, NewNode(m, key, h), Linking(0, prev))
  {
    NewNodeKeeps(lt, m, key, h);
    var m' := NewNode(m, key, h);
    forall i | 0 <= i < h
      ensures LastBelow(lt, m', 0, prev[i], i, key)
    {
      assert LastBelow(lt, m, MAX_HEIGHT, prev[i], i, key);
      assert Published(m', 0, prev[i], i);
    }
  }

  lemma PrevIsOlder<K(!new)>(lt: (K, K) -> bool, m: Memory<K>, l: nat, p: nat)
    requires StrictWeakOrder(lt) && Inv(lt, m, l) && 1 < |m.nodes|
    requires LastBelow(lt, m, l, p, l, m.nodes[|m.nodes| - 1].key)
    ensures p + 1 < |m.nodes|
  {
  }

  lemma OwnStoreKeeps<K(!new)>(lt: (K, K) -> bool, m: Memory<K>, l: nat, prev: seq<nat>)
    requires StrictWeakOrder(lt) && Inv(lt, m, l) && WriterInv(lt, m, Linking(l, prev))
    ensures Inv(lt, SetNext(m, |m.nodes| - 1, l, m.nodes[prev[l]].next[l]), l)
    ensures WriterInv(lt, SetNext(m, |m.nodes| - 1, l, m.nodes[prev[l]].next[l]), Publishing(l, prev))
  {
    var x, v := |m.nodes| - 1, m.nodes[prev[l]].next[l];
    OwnNextKeeps(lt, m, l, v);
    PrevIsOlder(lt, m, l, prev[l]);
    var m' := SetNext(m, x, l, v);
    forall i | l <= i < |m.nodes[x].next|
      ensures LastBelow(lt, m', l, prev[i], i, m'.nodes[x].key)
    {
      assert LastBelow(lt, m, l, prev[i], i, m.nodes[x].key);
      assert Published(m', l, prev[i], i);
    }
  }

  /** The node is fully linked once it is linked at its own height. */
  lemma FullyLinked<K(!new)>(lt: (K, K) -> bool, m: Memory<K>, done: nat)
    requires Inv(lt, m, done) && |m.nodes[|m.nodes| - 1].next| <= done
    ensures Inv(lt, m, MAX_HEIGHT)
    ensures forall n, l :: Published(m, MAX_HEIGHT, n, l) <==> Published(m, done, n, l)
  {
    assert forall n, l :: Published(m, MAX_HEIGHT, n, l) <==> Published(m, done, n, l);
    forall n, l | Published(m, MAX_HEIGHT, n, l)
      ensures Successor(lt, m, MAX_HEIGHT, n, l)
    {
      assert Successor(lt, m, done, n, l);
    }
  }

  lemma PublishStoreKeeps<K(!new)>(lt: (K, K) -> bool, m: Memory<K>, l: nat, prev: seq<nat>)
    requires StrictWeakOrder(lt) && Inv(lt, m, l) && WriterInv(lt, m, Publishing(l, prev))
    ensures prev[l] + 1 < |m.nodes| && l < |m.nodes[prev[l]].next|
    ensures var m', h := Publish(m, prev[l], l), |m.nodes[|m.nodes| - 1].next|;
            var w' := if l + 1 < h then Linking(l + 1, prev) else Resting;
            && Inv(lt, m', Linked(w')) && WriterInv(lt, m', w')
            && (forall n, i :: Published(m, l, n, i) ==> Published(m', Linked(w'), n, i))
            && Keys(m', Linked(w')) == Keys(m, l) + if l == 0 then {m.nodes[|m.nodes| - 1].key} else {}
  {
    var x, p := |m.nodes| - 1, prev[l];
    PrevIsOlder(lt, m, l, p);
    assert Linkable(lt, m, p, l);
    PublishKeeps(lt, m, p, l);
    var m', h := Publish(m, p, l), |m.nodes[x].next|;
    assert forall n, i :: Published(m, l, n, i) ==> Published(m', l + 1, n, i);
    if l + 1 < h {
      PrevStays(lt, m, l, prev);
    } else {
      FullyLinked(lt, m', l + 1);
    }
  }

  /** Above the level just linked, prev still holds the last nodes before the key. */
  lemma PrevStays<K(!new)>(lt: (K, K) -> bool, m: Memory<K>, l: nat, prev: seq<nat>)
    requires Shape(m) && WriterInv(lt, m, Publishing(l, prev)) && prev[l] + 1 < |m.nodes| && l < |m.nodes[prev[l]].next|
    requires forall n, i :: Published(m, l, n, i) ==> Published(Publish(m, prev[l], l), l + 1, n, i)
    ensures var m', x := Publish(m, prev[l], l), |m.nodes| - 1;
            PrevFound(lt, m', l + 1, prev, m.nodes[x].key, l + 1, |m.nodes[x].next|)
  {
    var m', x := Publish(m, prev[l], l), |m.nodes| - 1;
    forall i | l + 1 <= i < |m.nodes[x].next|
      ensures LastBelow(lt, m', l + 1, prev[i], i, m.nodes[x].key)
    {
      assert LastBelow(lt, m, l, prev[i], i, m.nodes[x].key);
      assert Published(m', l + 1, prev[i], i);
    }
  }

  ghost function Visible<K(!new)>(s: State<K>): set<K>
    requires Shape(s.mem)
  {
    Keys(s.mem, Linked(s.writer))
  }

  /** Nodes are never moved, changed or unpublished. */
  ghost predicate Grows<K(!new)>(s: State<K>, s': State<K>) {
    && |s.mem.nodes| <= |s'.mem.nodes|
    && (forall n :: 0 <= n < |s.mem.nodes| ==>
          && s.mem.nodes[n].Item? == s'.mem.nodes[n].Item?
          && (s.mem.nodes[n].Item? ==> s.mem.nodes[n].key == s'.mem.nodes[n].key))
    && (forall n, l :: Published(s.mem, Linked(s.writer), n, l) ==> Published(s'.mem, Linked(s'.writer), n, l))
  }

  /** A writer step keeps its invariant, and changes the visible keys by exactly `added`. */
  ghost predicate WriteGood<K(!new)>(lt: (K, K) -> bool, s: State<K>, s': State<K>, added: set<K>)
    requires Shape(s.mem)
  {
    && Inv(lt, s'.mem, Linked(s'.writer))
    && WriterInv(lt, s'.mem, s'.writer)
    && Grows(s, s')
    && s'.readers == s.readers
    && Visible(s') == Visible(s) + added
  }

  lemma SearchGood<K(!new)>(lt: (K, K) -> bool, s: State<K>, h: nat)
    requires StateInv(lt, s) && Enabled(lt, s, WriterStep(h)) && s.writer.Searching?
    ensures WriteGood(lt, s, WriteOne(lt, s, h), {})
  {
    SearchKeeps(lt, s.mem, s.writer);
  }

  lemma RaiseGood<K(!new)>(lt: (K, K) -> bool, s: State<K>, h: nat)
    requires StateInv(lt, s) && Enabled(lt, s, WriterStep(h)) && s.writer.Searched?
    ensures WriteGood(lt, s, WriteOne(lt, s, h), {})
  {
    RaisedKeeps(lt, s.mem, s.writer.key, s.writer.prev, h);
    RaiseHeightKeeps(lt, s.mem, MAX_HEIGHT, h);
  }

  lemma AllocateGood<K(!new)>(lt: (K, K) -> bool, s: State<K>, h: nat)
    requires StateInv(lt, s) && Enabled(lt, s, WriterStep(h)) && s.writer.Raised?
    ensures WriteGood(lt, s, WriteOne(lt, s, h), {})
  {
    AllocationKeeps(lt, s.mem, s.writer.key, s.writer.height, s.writer.prev);
    NewNodeKeeps(lt, s.mem, s.writer.key, s.writer.height);
  }

  lemma OwnStoreGood<K(!new)>(lt: (K, K) -> bool, s: State<K>, h: nat)
    requires StrictWeakOrder(lt) && StateInv(lt, s) && Enabled(lt, s, WriterStep(h)) && s.writer.Linking?
    ensures WriteGood(lt, s, WriteOne(lt, s, h), {})
  {
    var m, l := s.mem, s.writer.level;
    OwnStoreKeeps(lt, m, l, s.writer.prev);
    OwnNextKeeps(lt, m, l, m.nodes[s.writer.prev[l]].next[l]);
  }

  lemma PublishGood<K(!new)>(lt: (K, K) -> bool, s: State<K>, h: nat)
    requires StrictWeakOrder(lt) && StateInv(lt, s) && Enabled(lt, s, WriterStep(h)) && s.writer.Publishing?
    ensures WriteGood(lt, s, WriteOne(lt, s, h), Inserted(s))
  {
    var m, l, prev := s.mem, s.writer.level, s.writer.prev;
    PublishStoreKeeps(lt, m, l, prev);
    var w' := if l + 1 < |m.nodes[|m.nodes| - 1].next| then Linking(l + 1, prev) else Resting;
    assert WriteOne(lt, s, h) == s.(mem := Publish(m, prev[l], l), writer := w');
    PublishGrows(s, prev[l], l, w');
  }

  lemma PublishGrows<K(!new)>(s: State<K>, p: nat, l: nat, w': Writer<K>)
    requires Shape(s.mem) && Linked(s.writer) == l && p + 1 < |s.mem.nodes| && l < |s.mem.nodes[p].next|
    requires forall n, i :: Published(s.mem, l, n, i) ==> Published(Publish(s.mem, p, l), Linked(w'), n, i)
    ensures Grows(s, s.(mem := Publish(s.mem, p, l), writer := w'))
  {
  }

  /** What the next writer step adds to the visible keys: the key being inserted, when that
      step is the store linking the new node at level 0, and nothing otherwise. */
  ghost function Inserted<K(!new)>(s: State<K>): set<K>
    requires Shape(s.mem)
  {
    if s.writer.Publishing? && s.writer.level == 0 && 1 < |s.mem.nodes|
    then {s.mem.nodes[|s.mem.nodes| - 1].key} else {}
  }

  lemma WriteKeeps<K(!new)>(lt: (K, K) -> bool, s: State<K>, h: nat)
    requires StrictWeakOrder(lt) && StateInv(lt, s) && Enabled(lt, s, WriterStep(h))
    ensures WriteGood(lt, s, WriteOne(lt, s, h), Inserted(s))
  {
    match s.writer {
      case Searching(_, _, _, _) => SearchGood(lt, s, h);
      case Searched(_, _) => RaiseGood(lt, s, h);
      case Raised(_, _, _) => AllocateGood(lt, s, h);
      case Linking(_, _) => OwnStoreGood(lt, s, h);
      case Publishing(_, _) => PublishGood(lt, s, h);
    }
  }

  lemma StepKeeps<K(!new)>(lt: (K, K) -> bool, s: State<K>, a: Action<K>)
    requires StrictWeakOrder(lt) && StateInv(lt, s) && Enabled(lt, s, a)
    ensures StateInv(lt, Step(lt, s, a)) && Grows(s, Step(lt, s, a))
  {
    var s' := Step(lt, s, a);
    match a {
      case BeginInsert(_) =>
      case WriterStep(h) =>
        WriteKeeps(lt, s, h);
        forall r | 0 <= r < |s'.readers|
          ensures ReaderInv(lt, s'.mem, Linked(s'.writer), s'.readers[r])
        {
          ReaderSurvives(lt, s.mem, Linked(s.writer), s'.mem, Linked(s'.writer), s.readers[r]);
        }
      case BeginRead(_, _, _) =>
      case ReaderStep(r) => ReadKeeps(lt, s.mem, Linked(s.writer), s.readers[r]);
    }
  }

  // ---- what a finished read means -------------------------------------------------------

  /** The answer of a query over the level-0 list: the least key at or after the target (null
      when there is none), or the last key before it (the head when there is none). */
  ghost predicate Answers<K(!new)>(lt: (K, K) -> bool, m: Memory<K>, done: nat, q: Query<K>, result: Link)
    requires Shape(m)
  {
    match q
    case AtOrAfter(t) =>
      (match result
       case Unset => false
       case Null => forall o :: 0 < o && Published(m, done, o, 0) ==> lt(m.nodes[o].key, t)
       case To(s) =>
         && 0 < s && Published(m, done, s, 0) && !lt(m.nodes[s].key, t)
         && forall o :: 0 < o && Published(m, done, o, 0) && !lt(m.nodes[o].key, t) ==>
                          o == s || lt(m.nodes[s].key, m.nodes[o].key))
    case LastBefore(t) =>
      && result.To? && Published(m, done, result.node, 0) && Below(lt, m.nodes[result.node], t)
      && forall o :: Published(m, done, o, 0) && Below(lt, m.nodes[o], t) ==>
                       o == result.node || Before(lt, m.nodes[o], m.nodes[result.node])
    case LastOfAll =>
      && result.To? && Published(m, done, result.node, 0)
      && forall o :: Published(m, done, o, 0) ==>
                       o == result.node || Before(lt, m.nodes[o], m.nodes[result.node])
  }

  /** Whatever happened before, the load that ends a search answers it exactly. */
  lemma FinalLoadAnswers<K(!new)>(lt: (K, K) -> bool, m: Memory<K>, done: nat, r: Reader<K>)
    requires StrictWeakOrder(lt) && Inv(lt, m, done) && r.Walking? && ReaderInv(lt, m, done, r)
    requires ReadOne(lt, m, done, r.query, r.x, r.level).Done?
    ensures Answers(lt, m, done, r.query, ReadOne(lt, m, done, r.query, r.x, r.level).result)
  {
    LoadIsSet(lt, m, done, r.x, 0);
    assert Successor(lt, m, done, r.x, 0);
    forall o | Published(m, done, o, 0)
      ensures o == r.x || Before(lt, m.nodes[o], m.nodes[r.x]) || Before(lt, m.nodes[r.x], m.nodes[o])
    {
      if o != r.x { OrderTwo(lt, m, o, r.x); }
    }
  }

  // ---- whole runs -----------------------------------------------------------------------

  function Initial<K>(readers: nat): State<K> {
    State(Empty(), Resting, seq(readers, _ => Idle))
  }

  /** A run from the empty list: any interleaving of enabled steps.  Nothing is asked of a
      step taken from a state outside the invariant; RunKeepsInv shows there is none. */
  ghost predicate IsRun<K(!new)>(lt: (K, K) -> bool, trace: seq<State<K>>, acts: seq<Action<K>>) {
    && |trace| == |acts| + 1
    && trace[0] == Initial(|trace[0].readers|)
    && forall i {:trigger IsStep(lt, trace, acts, i)} :: 0 <= i < |acts| ==> IsStep(lt, trace, acts, i)
  }

  ghost predicate IsStep<K(!new)>(lt: (K, K) -> bool, trace: seq<State<K>>, acts: seq<Action<K>>, i: nat)
    requires i < |acts| && |trace| == |acts| + 1
  {
    StateInv(lt, trace[i]) ==> Enabled(lt, trace[i], acts[i]) && trace[i + 1] == Step(lt, trace[i], acts[i])
  }

  lemma {:induction false} RunKeepsInv<K(!new)>(lt: (K, K) -> bool, trace: seq<State<K>>, acts: seq<Action<K>>, i: nat)
    requires StrictWeakOrder(lt) && IsRun(lt, trace, acts) && i < |trace|
    ensures StateInv(lt, trace[i])
  {
    if i == 0 {
      EmptyInv(lt);
    } else {
      RunKeepsInv(lt, trace, acts, i - 1);
      assert IsStep(lt, trace, acts, i - 1);
      StepKeeps(lt, trace[i - 1], acts[i - 1]);
    }
  }

  lemma {:induction false} RunGrows<K(!new)>(lt: (K, K) -> bool, trace: seq<State<K>>, acts: seq<Action<K>>, i: nat, j: nat)
    requires StrictWeakOrder(lt) && IsRun(lt, trace, acts) && i <= j < |trace|
    ensures Grows(trace[i], trace[j])
  {
    if i < j {
      RunGrows(lt, trace, acts, i, j - 1);
      RunKeepsInv(lt, trace, acts, j - 1);
      assert IsStep(lt, trace, acts, j - 1);
      StepKeeps(lt, trace[j - 1], acts[j - 1]);
    }
  }

  /** Reader r starts the query at step i and is still walking up to state j. */
  ghost predicate WalksFrom<K(!new)>(trace: seq<State<K>>, acts: seq<Action<K>>, i: nat, j: nat, r: nat, q: Query<K>) {
    && i < j < |trace| == |acts| + 1
    && acts[i].BeginRead? && acts[i].r == r && acts[i].query == q
    && forall n :: i < n <= j ==> r < |trace[n].readers| && trace[n].readers[r].Walking?
  }

  lemma StepKeepsQuery<K(!new)>(lt: (K, K) -> bool, s: State<K>, a: Action<K>, r: nat)
    requires StateInv(lt, s) && Enabled(lt, s, a) && r < |s.readers| && s.readers[r].Walking?
    requires var after := Step(lt, s, a).readers; r < |after| && after[r].Walking?
    ensures Step(lt, s, a).readers[r].query == s.readers[r].query
  {
  }

  lemma {:induction false} QueryStays<K(!new)>(lt: (K, K) -> bool, trace: seq<State<K>>, acts: seq<Action<K>>,
                                               i: nat, j: nat, r: nat, q: Query<K>)
    requires StrictWeakOrder(lt) && IsRun(lt, trace, acts) && WalksFrom(trace, acts, i, j, r, q)
    ensures trace[j].readers[r].query == q
  {
    RunKeepsInv(lt, trace, acts, j - 1);
    assert IsStep(lt, trace, acts, j - 1);
    if i + 1 < j {
      QueryStays(lt, trace, acts, i, j - 1, r, q);
      StepKeepsQuery(lt, trace[j - 1], acts[j - 1], r);
    }
  }

  /** Linearizability of reads: in every run, a search that reader r began at step i and that
      ends at step j answers its query on the level-0 list of state j, the state of its last
      load; and that list still holds every node the list held when the search began. */
  lemma ReadIsLinearizable<K(!new)>(lt: (K, K) -> bool, trace: seq<State<K>>, acts: seq<Action<K>>,
                                    i: nat, j: nat, r: nat, q: Query<K>)
    requires StrictWeakOrder(lt) && IsRun(lt, trace, acts) && WalksFrom(trace, acts, i, j, r, q)
    requires j + 1 < |trace| && acts[j] == ReaderStep(r)
    requires r < |trace[j + 1].readers| && trace[j + 1].readers[r].Done?
    ensures StateInv(lt, trace[j])
    ensures Answers(lt, trace[j].mem, Linked(trace[j].writer), q, trace[j + 1].readers[r].result)
    ensures Grows(trace[i], trace[j])
  {
    RunKeepsInv(lt, trace, acts, j);
    assert IsStep(lt, trace, acts, j);
    QueryStays(lt, trace, acts, i, j, r, q);
    FinalLoadAnswers(lt, trace[j].mem, Linked(trace[j].writer), trace[j].readers[r]);
    RunGrows(lt, trace, acts, i, j);
  }

  /** No lost keys: a Seek never overshoots a key that was visible when it began. */
  lemma SeekNeverMisses<K(!new)>(lt: (K, K) -> bool, trace: seq<State<K>>, acts: seq<Action<K>>,
                                 i: nat, j: nat, r: nat, target: K, k: K)
    requires StrictWeakOrder(lt) && IsRun(lt, trace, acts)
    requires WalksFrom(trace, acts, i, j, r, AtOrAfter(target))
    requires j + 1 < |trace| && acts[j] == ReaderStep(r)
    requires r < |trace[j + 1].readers| && trace[j + 1].readers[r].Done?
    requires StateInv(lt, trace[i]) && k in Visible(trace[i]) && !lt(k, target)
    ensures var result := trace[j + 1].readers[r].result;
            && result.To? && 0 < result.node < |trace[j].mem.nodes|
            && trace[j].mem.nodes[result.node].Item?
            && !lt(trace[j].mem.nodes[result.node].key, target)
            && !lt(k, trace[j].mem.nodes[result.node].key)
  {
    ReadIsLinearizable(lt, trace, acts, i, j, r, AtOrAfter(target));
    var n :| 0 < n < |trace[i].mem.nodes| && Published(trace[i].mem, Linked(trace[i].writer), n, 0)
             && trace[i].mem.nodes[n].key == k;
    assert Published(trace[j].mem, Linked(trace[j].writer), n, 0);
  }

  /** Inserts are atomic: a step changes the set of visible keys only when it is the level-0
      store of an Insert, and then by adding exactly the inserted key. */
  lemma KeysChangeAtomically<K(!new)>(lt: (K, K) -> bool, trace: seq<State<K>>, acts: seq<Action<K>>, i: nat)
    requires StrictWeakOrder(lt) && IsRun(lt, trace, acts) && i < |acts|
    ensures StateInv(lt, trace[i]) && StateInv(lt, trace[i + 1])
    ensures Visible(trace[i + 1]) == Visible(trace[i]) + if acts[i].WriterStep? then Inserted(trace[i]) else {}
  {
    RunKeepsInv(lt, trace, acts, i);
    RunKeepsInv(lt, trace, acts, i + 1);
    assert IsStep(lt, trace, acts, i);
    if acts[i].WriterStep? {
      WriteKeeps(lt, trace[i], acts[i].height);
    }
  }

  // ---- the keys of a run, and scans over it ---------------------------------------------

  /** All keys in memory, and the one being inserted, satisfy p. */
  ghost predicate KeysSatisfy<K(!new)>(p: K -> bool, s: State<K>) {
    && (forall n :: 0 <= n < |s.mem.nodes| && s.mem.nodes[n].Item? ==> p(s.mem.nodes[n].key))
    && match s.writer
       case Searching(key, _, _, _) => p(key)
       case Searched(key, _) => p(key)
       case Raised(key, _, _) => p(key)
       case _ => true
  }

  lemma StepSatisfies<K(!new)>(lt: (K, K) -> bool, p: K -> bool, s: State<K>, a: Action<K>)
    requires StateInv(lt, s) && Enabled(lt, s, a) && KeysSatisfy(p, s) && (a.BeginInsert? ==> p(a.key))
    ensures KeysSatisfy(p, Step(lt, s, a))
  {
  }

  /** No key is in memory that was not inserted. */
  lemma {:induction false} OnlyInserted<K(!new)>(lt: (K, K) -> bool, trace: seq<State<K>>, acts: seq<Action<K>>, p: K -> bool, i: nat)
    requires StrictWeakOrder(lt) && IsRun(lt, trace, acts) && i < |trace|
    requires forall n :: 0 <= n < |acts| && acts[n].BeginInsert? ==> p(acts[n].key)
    ensures KeysSatisfy(p, trace[i])
  {
    if i > 0 {
      OnlyInserted(lt, trace, acts, p, i - 1);
      RunKeepsInv(lt, trace, acts, i - 1);
      assert IsStep(lt, trace, acts, i - 1);
      StepSatisfies(lt, p, trace[i - 1], acts[i - 1]);
    }
  }

  /** Iterator::Next over and over: at times[k + 1] the level-0 pointer of nodes[k] is loaded and
      leads to nodes[k + 1]; the writer may do anything in between. */
  ghost predicate Scans<K>(trace: seq<State<K>>, times: seq<nat>, nodes: seq<nat>) {
    && 0 < |nodes| == |times|
    && (forall k :: 0 <= k < |times| ==> times[k] < |trace|)
    && Published(trace[times[0]].mem, Linked(trace[times[0]].writer), nodes[0], 0)
    && forall k {:trigger LoadsNext(trace, times, nodes, k)} :: 0 <= k < |nodes| - 1 ==> LoadsNext(trace, times, nodes, k)
  }

  ghost predicate LoadsNext<K>(trace: seq<State<K>>, times: seq<nat>, nodes: seq<nat>, k: nat)
    requires k + 1 < |times| == |nodes| && times[k + 1] < |trace|
  {
    && times[k] <= times[k + 1]
    && var m := trace[times[k + 1]].mem;
    nodes[k] < |m.nodes| && 0 < |m.nodes[nodes[k]].next| && m.nodes[nodes[k]].next[0] == To(nodes[k + 1])
  }

  /** Node n was visible when the scan began, and lies after its first node. */
  ghost predicate Due<K>(lt: (K, K) -> bool, s: State<K>, first: nat, n: nat) {
    Published(s.mem, Linked(s.writer), n, 0) && first < |s.mem.nodes| && Before(lt, s.mem.nodes[first], s.mem.nodes[n])
  }

  lemma SameBefore<K(!new)>(lt: (K, K) -> bool, s: State<K>, t: State<K>, a: nat, b: nat)
    requires Grows(s, t) && a < |s.mem.nodes| && b < |s.mem.nodes|
    ensures b < |t.mem.nodes| && (Before(lt, s.mem.nodes[a], s.mem.nodes[b]) <==> Before(lt, t.mem.nodes[a], t.mem.nodes[b]))
  {
  }

  /** A level-0 load passes no node that was visible earlier. */
  lemma NextPasses<K(!new)>(lt: (K, K) -> bool, s0: State<K>, s: State<K>, cur: nat, next: nat)
    requires StateInv(lt, s) && Grows(s0, s) && Published(s.mem, Linked(s.writer), cur, 0)
    requires s.mem.nodes[cur].next[0] == To(next)
    ensures Published(s.mem, Linked(s.writer), next, 0) && Before(lt, s.mem.nodes[cur], s.mem.nodes[next])
    ensures forall n: nat :: Published(s0.mem, Linked(s0.writer), n, 0) && Before(lt, s.mem.nodes[cur], s.mem.nodes[n]) ==>
              n == next || Before(lt, s.mem.nodes[next], s.mem.nodes[n])
  {
    assert Successor(lt, s.mem, Linked(s.writer), cur, 0);
    forall n: nat | Published(s0.mem, Linked(s0.writer), n, 0)
      ensures Published(s.mem, Linked(s.writer), n, 0)
    {
    }
  }

  /** A scan goes strictly upwards, and has met every node due up to where it stands. */
  lemma {:induction false} ScanMissesNothing<K(!new)>(lt: (K, K) -> bool, trace: seq<State<K>>, acts: seq<Action<K>>,
                                                      times: seq<nat>, nodes: seq<nat>)
    requires StrictWeakOrder(lt) && IsRun(lt, trace, acts) && Scans(trace, times, nodes)
    ensures var last := |nodes| - 1;
            var s := trace[times[last]];
            && StateInv(lt, s) && times[0] <= times[last] && Published(s.mem, Linked(s.writer), nodes[last], 0)
            && (forall n: nat :: Due(lt, trace[times[0]], nodes[0], n) ==>
                  n < |s.mem.nodes| && (n in nodes || Before(lt, s.mem.nodes[nodes[last]], s.mem.nodes[n])))
            && (0 < last ==> nodes[last - 1] < |s.mem.nodes| && Before(lt, s.mem.nodes[nodes[last - 1]], s.mem.nodes[nodes[last]]))
    decreases |nodes|
  {
    RunKeepsInv(lt, trace, acts, times[|nodes| - 1]);
    if |nodes| > 1 {
      var k := |nodes| - 2;
      var before, at := nodes[..k + 1], times[..k + 1];
      forall i | 0 <= i < k
        ensures LoadsNext(trace, at, before, i)
      {
        assert LoadsNext(trace, times, nodes, i);
      }
      ScanMissesNothing(lt, trace, acts, at, before);
      assert LoadsNext(trace, times, nodes, k);
      RunGrows(lt, trace, acts, times[k], times[k + 1]);
      RunGrows(lt, trace, acts, times[0], times[k + 1]);
      var s0, sk, s := trace[times[0]], trace[times[k]], trace[times[k + 1]];
      assert Published(s.mem, Linked(s.writer), nodes[k], 0);
      NextPasses(lt, s0, s, nodes[k], nodes[k + 1]);
      forall n: nat | Due(lt, s0, nodes[0], n)
        ensures n < |s.mem.nodes| && (n in nodes || Before(lt, s.mem.nodes[nodes[k + 1]], s.mem.nodes[n]))
      {
        assert n in before ==> n in nodes;
        SameBefore(lt, sk, s, nodes[k], n);
      }
    }
  }

  /** A scan that reaches the end has met every node that was visible when it began and lies
      after its first node. */
  lemma FullScanMissesNothing<K(!new)>(lt: (K, K) -> bool, trace: seq<State<K>>, acts: seq<Action<K>>,
                                       times: seq<nat>, nodes: seq<nat>, end: nat, n: nat)
    requires StrictWeakOrder(lt) && IsRun(lt, trace, acts) && Scans(trace, times, nodes)
    requires times[|times| - 1] <= end < |trace|
    requires var m, x := trace[end].mem, nodes[|nodes| - 1];
             x < |m.nodes| && 0 < |m.nodes[x].next| && m.nodes[x].next[0] == Null
    requires Due(lt, trace[times[0]], nodes[0], n)
    ensures n in nodes
  {
    ScanMissesNothing(lt, trace, acts, times, nodes);
    var last, s := |nodes| - 1, trace[end];
    RunKeepsInv(lt, trace, acts, end);
    RunGrows(lt, trace, acts, times[last], end);
    RunGrows(lt, trace, acts, times[0], end);
    assert Successor(lt, s.mem, Linked(s.writer), nodes[last], 0);
    assert Published(s.mem, Linked(s.writer), n, 0);
  }
}
