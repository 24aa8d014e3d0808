/** Block::Iter (table/block.cpp) is a cursor over the entries that were added to the block:
    keys rebuilt from shared prefixes, backward steps through the restart points, and a
    binary search over them. */
module BlockIterators {
  import opened Coding
  import opened Cursors
  import opened EntryCodec
  import opened BlockFormat
  import opened BlockReading

  class Iter {
    const cd: Codec
    const lt: KeyLess
    const data: bytes
    const restarts: nat
    const numRestarts: nat
    ghost const b: Layout
    ghost const offs: seq<nat>
    var current: nat
    var restartIndex: nat
    var key: bytes
    var valueStart: nat
    var valueLength: nat
    var corrupt: bool
    ghost var pos: nat

    ghost predicate Block() {
      Readable(cd, data, restarts, numRestarts, b, offs)
    }

    /** The keys were added in increasing order. */
    ghost predicate InOrder() {
      Ordered(lt) && Sorted(lt, b.entries)
    }

    /** Entry i is the current one. */
    ghost predicate At(i: nat)
      requires Block()
      reads this
    {
      && i < |b.entries|
      && current == offs[i]
      && key == b.entries[i].key
      && valueStart + valueLength == offs[i + 1]
      && valueLength == |b.entries[i].value|
      && restartIndex < numRestarts && b.starts[restartIndex] <= i
    }

    ghost predicate Valid()
      reads this
    {
      && Block()
      && !corrupt
      && pos <= |b.entries|
      && (if pos < |b.entries| then At(pos) else current == restarts)
    }

    ghost function Cursor(): Cursor
      requires Valid()
      reads this
    {
      Cursors.Cursor(b.entries, pos)
    }

    /** Valid() of the Iterator interface. */
    method IsValid() returns (v: bool)
      requires Valid()
      ensures v == Cursor().Valid()
    {
      v := current < restarts;
    }

    method Value() returns (v: bytes)
      requires Valid() && Cursor().Valid()
      ensures v == Cursor().Current().value && key == Cursor().Current().key
    {
      assert ReadsAt(cd, data, restarts, b, offs, pos);
      v := data[valueStart..valueStart + valueLength];
    }

    constructor (cd: Codec, lt: KeyLess, data: bytes, restarts: nat, numRestarts: nat, ghost b: Layout, ghost offs: seq<nat>)
      requires Readable(cd, data, restarts, numRestarts, b, offs)
      ensures Valid() && Cursor() == Cursors.Cursor(b.entries, |b.entries|)
      ensures this.lt == lt && this.b == b && this.cd == cd
    {
      this.cd, this.lt, this.data, this.restarts, this.numRestarts := cd, lt, data, restarts, numRestarts;
      this.b, this.offs := b, offs;
      current, restartIndex := restarts, numRestarts;
      key, valueStart, valueLength, corrupt := [], 0, 0, false;
      pos := |b.entries|;
    }

    /** Parsing may continue with entry i: the key holds what entry i shares. */
    ghost predicate Before(i: nat)
      requires Block()
      reads this
    {
      && i <= |b.entries|
      && !corrupt
      && valueStart + valueLength == offs[i]
      && restartIndex < numRestarts && b.starts[restartIndex] <= i
      && (i < |b.entries| ==> b.shared[i] <= |key| && key[..b.shared[i]] == b.entries[i].key[..b.shared[i]])
    }

    method SeekToRestartPoint(index: nat)
      requires Block() && index < numRestarts && !corrupt
      modifies this`key, this`restartIndex, this`valueStart, this`valueLength
      ensures Before(b.starts[index]) && restartIndex == index
    {
      key := [];
      restartIndex := index;
      valueStart := RestartAt(data, restarts, index);
      valueLength := 0;
    }

    /** Decodes the entry at `current` behind the key of its predecessor.  A header that
        cannot be decoded, or that shares more than that key, is a corruption. */
    method ParseEntry() returns (ok: bool)
      requires current < restarts <= |data|
      requires var d := cd.decode(data[current..restarts]);
               d.Some? ==> current + d.value.size + d.value.nonShared + d.value.valueLength <= restarts
      modifies this`current, this`restartIndex, this`key, this`valueStart, this`valueLength, this`corrupt
      ensures var d := cd.decode(data[old(current)..restarts]);
              if d.Some? && d.value.shared <= |old(key)| then
                && ok && current == old(current) && restartIndex == old(restartIndex) && corrupt == old(corrupt)
                && valueStart == current + d.value.size + d.value.nonShared && valueLength == d.value.valueLength
                && key == old(key)[..d.value.shared] + data[current + d.value.size..valueStart]
              else
                !ok && corrupt && current == restarts && restartIndex == numRestarts && key == []
    {
      var d := cd.decode(data[current..restarts]);
      if d.None? || |key| < d.value.shared {
        current, restartIndex, corrupt, key, valueStart, valueLength := restarts, numRestarts, true, [], 0, 0;
        return false;
      }
      var p := current + d.value.size;
      key := key[..d.value.shared] + data[p..p + d.value.nonShared];
      valueStart, valueLength := p + d.value.nonShared, d.value.valueLength;
      ok := true;
    }

    method ParseNextKey(ghost i: nat) returns (ok: bool)
      requires Block() && Before(i)
      modifies this
      ensures Valid() && pos == i && ok == (i < |b.entries|)
    {
      current := valueStart + valueLength;
      pos := i;
      if current >= restarts {
        current := restarts;
        restartIndex := numRestarts;
        return false;
      }
      assert ReadsAt(cd, data, restarts, b, offs, i);
      ok := ParseEntry();
      assert ok && key == b.entries[i].key;
      AdvanceRestart();
    }

    /** Keep restartIndex at the last restart point before the current entry. */
    method AdvanceRestart()
      requires Block() && restartIndex < numRestarts && pos < |b.entries| && current == offs[pos]
      requires b.starts[restartIndex] <= pos
      modifies this`restartIndex
      ensures restartIndex < numRestarts && b.starts[restartIndex] <= pos
    {
      while restartIndex + 1 < numRestarts && RestartAt(data, restarts, restartIndex + 1) < current
        invariant restartIndex < numRestarts && b.starts[restartIndex] <= pos
        decreases numRestarts - restartIndex
      {
        restartIndex := restartIndex + 1;
      }
    }

    /** The current entry's successor may be parsed next. */
    lemma NextBefore()
      requires Valid() && pos < |b.entries|
      ensures Before(pos + 1)
    {
      if pos + 1 < |b.entries| {
        assert SharesPrefix(b, pos + 1);
      }
    }

    /** Parse on from the current entry. */
    method Step() returns (ok: bool)
      requires Valid() && pos < |b.entries|
      modifies this
      ensures Valid() && pos == old(pos) + 1 && ok == (pos < |b.entries|)
      ensures ok ==> valueStart + valueLength == offs[pos + 1] && key == b.entries[pos].key
    {
      NextBefore();
      ok := ParseNextKey(pos + 1);
    }

    /** Parse the entry at a restart point. */
    method StartAt(index: nat) returns (ok: bool)
      requires Block() && index < numRestarts && !corrupt
      modifies this
      ensures Valid() && pos == b.starts[index] && ok == (pos < |b.entries|)
      ensures ok ==> valueStart + valueLength == offs[pos + 1] && key == b.entries[pos].key
    {
      SeekToRestartPoint(index);
      ok := ParseNextKey(b.starts[index]);
    }

    method Next()
      requires Valid() && Cursor().Valid()
      modifies this
      ensures Valid() && Cursor() == old(Cursor()).Next()
    {
      var _ := Step();
    }

    method SeekToFirst()
      requires Valid()
      modifies this
      ensures Valid() && Cursor() == old(Cursor()).SeekToFirst()
    {
      var _ := StartAt(0);
    }

    method SeekToLast()
      requires Valid()
      modifies this
      ensures Valid() && Cursor() == old(Cursor()).SeekToLast()
    {
      var ok := StartAt(numRestarts - 1);
      while ok && valueStart + valueLength < restarts
        invariant Valid() && ok == (0 < |b.entries|)
        invariant ok ==> pos < |b.entries| && valueStart + valueLength == offs[pos + 1]
        invariant !ok ==> pos == 0
        decreases |b.entries| - pos
      {
        ok := Step();
      }
    }

    /** Scan backwards to a restart point before the current entry. */
    method RestartBefore() returns (found: bool)
      requires Valid() && pos < |b.entries|
      modifies this`restartIndex
      ensures restartIndex < numRestarts
      ensures found ==> b.starts[restartIndex] < pos
      ensures !found ==> pos == 0
    {
      while RestartAt(data, restarts, restartIndex) >= current
        invariant restartIndex < numRestarts
        decreases restartIndex
      {
        if restartIndex == 0 {
          return false;
        }
        restartIndex := restartIndex - 1;
      }
      found := true;
    }

    method Prev()
      requires Valid() && Cursor().Valid()
      modifies this
      ensures Valid() && Cursor() == old(Cursor()).Prev()
    {
      var original := current;
      ghost var was := pos;
      var found := RestartBefore();
      if !found {
        current, restartIndex := restarts, numRestarts;
        pos := |b.entries|;
        return;
      }
      var ok := StartAt(restartIndex);
      while ok && valueStart + valueLength < original
        invariant Valid() && ok && pos < was < |b.entries| && original == offs[was]
        invariant valueStart + valueLength == offs[pos + 1]
        decreases was - pos
      {
        ok := Step();
      }
    }

    /** The key at a restart point; in a finished block, that of the entry there.  None is a
        corruption: a bad header, or a key that is not stored in full. */
    method RestartKey(index: nat) returns (k: Option<bytes>)
      requires restarts + 4 * index + 4 <= |data|
      requires var off := RestartAt(data, restarts, index);
               off <= restarts && var d := cd.decode(data[off..restarts]);
               d.Some? ==> off + d.value.size + d.value.nonShared <= restarts
      ensures Block() && index < numRestarts && b.entries != [] ==> k == Some(b.entries[b.starts[index]].key)
    {
      var off := RestartAt(data, restarts, index);
      var d := cd.decode(data[off..restarts]);
      if Block() && index < numRestarts && b.entries != [] {
        assert ReadsAt(cd, data, restarts, b, offs, b.starts[index]);
      }
      if d.None? || d.value.shared != 0 {
        return None;
      }
      k := Some(data[off + d.value.size..off + d.value.size + d.value.nonShared]);
    }

    /** The last restart point whose key is before the target, or the first one. */
    method SearchRestarts(target: bytes) returns (left: nat)
      requires Block() && InOrder()
      ensures left < numRestarts
      ensures forall i :: 0 <= i < b.starts[left] ==> lt(b.entries[i].key, target)
    {
      left := 0;
      var right := numRestarts - 1;
      while left < right
        invariant 0 <= left <= right < numRestarts
        invariant 0 < left ==> b.entries != [] && lt(b.entries[b.starts[left]].key, target)
      {
        var mid := (left + right + 1) / 2;
        ghost var i := b.starts[mid];
        assert b.starts[0] < i;
        assert ReadsAt(cd, data, restarts, b, offs, i);
        var k := RestartKey(mid);
        assert k == Some(b.entries[i].key);
        if lt(k.value, target) {
          left := mid;
        } else {
          right := mid - 1;
        }
      }
      forall i | 0 <= i < b.starts[left]
        ensures lt(b.entries[i].key, target)
      {
        Transitive(lt, b.entries[i].key, b.entries[b.starts[left]].key, target);
      }
    }

    method Seek(target: bytes)
      requires Valid() && InOrder()
      modifies this
      ensures Valid() && Cursor() == old(Cursor()).Seek(lt, target)
    {
      var left := SearchRestarts(target);
      ScanFrom(left, target);
    }

    /** Linear search from a restart point for the first key not before the target. */
    method ScanFrom(left: nat, target: bytes)
      requires Valid() && left < numRestarts
      requires forall i :: 0 <= i < b.starts[left] ==> lt(b.entries[i].key, target)
      modifies this
      ensures Valid() && Cursor() == old(Cursor()).Seek(lt, target)
    {
      var ok := StartAt(left);
      while ok && lt(key, target)
        invariant Valid() && ok == (pos < |b.entries|) && (ok ==> key == b.entries[pos].key)
        invariant forall i :: 0 <= i < pos ==> lt(b.entries[i].key, target)
        decreases |b.entries| - pos
      {
        ok := Step();
      }
      FirstAtLeastIs(lt, b.entries, target, pos);
    }
  }

  /** Block::Block and NewIterator on the bytes of a finished block. */
  method NewIterator(cd: Codec, lt: KeyLess, data: bytes, ghost b: Layout) returns (it: Iter)
    requires Sound(cd) && WellFormed(b) && data == Contents(cd, b) && |data| < TWO32
    requires Ordered(lt) && Sorted(lt, b.entries)
    ensures fresh(it) && it.Valid() && it.InOrder() && it.lt == lt && it.Cursor() == Cursor(b.entries, |b.entries|)
  {
    ContentsReadable(cd, b);
    var num := DecodeFixed32(data[|data| - 4..]);
    var restarts := |data| - (1 + num) * 4;
    it := new Iter(cd, lt, data, restarts, num, b, Offsets(cd, b));
  }
}
