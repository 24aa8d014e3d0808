/** The arena (util/arena.h, util/arena.cpp).  Addresses are numbers; the base of a new block is
    chosen by the system's allocator and comes in as a parameter. */
module Arenas {
  const STANDARD: nat := 4096
  const ALIGN: nat := 8

  /** The addresses from start up to start + size. */
  datatype Range = Range(start: nat, size: nat) {
    function End(): nat { start + size }
  }

  predicate Disjoint(a: Range, b: Range) { a.size == 0 || b.size == 0 || a.End() <= b.start || b.End() <= a.start }

  predicate Within(a: Range, b: Range) { b.start <= a.start && a.End() <= b.End() }

  /** What the allocator promises of a new block: it is aligned and overlaps no other. */
  predicate Fresh(base: nat, size: nat, blocks: seq<Range>) {
    base % 8 == 0 && forall i :: 0 <= i < |blocks| ==> Disjoint(Range(base, size), blocks[i])
  }

  function Total(blocks: seq<Range>): nat {
    if blocks == [] then 0 else Total(blocks[..|blocks| - 1]) + blocks[|blocks| - 1].size
  }

  /** An allocation lies in one block. */
  ghost predicate Housed(r: Range, blocks: seq<Range>) {
    r.size == 0 || exists b :: b in blocks && Within(r, b)
  }

  lemma HousedMore(r: Range, blocks: seq<Range>, more: Range)
    requires Housed(r, blocks)
    ensures Housed(r, blocks + [more])
  {
    if r.size > 0 {
      var b :| b in blocks && Within(r, b);
      assert b in blocks + [more];
    }
  }

  /** A range in an old block does not meet a new block. */
  lemma NewBlockApart(r: Range, blocks: seq<Range>, base: nat, size: nat)
    requires Housed(r, blocks) && Fresh(base, size, blocks)
    ensures Disjoint(r, Range(base, size))
  {
    if r.size > 0 {
      var b :| b in blocks && Within(r, b);
      var i :| 0 <= i < |blocks| && blocks[i] == b;
      assert Disjoint(Range(base, size), blocks[i]);
    }
  }

  /** The part of a larger range keeps apart from what the larger one does. */
  lemma PartApart(r: Range, whole: Range, part: Range)
    requires Disjoint(r, whole) && Within(part, whole)
    ensures Disjoint(r, part)
  {
  }

  class Arena {
    var allocPtr: nat
    var remaining: nat
    var blocks: seq<Range>
    var blocksMemory: nat
    /** Every range handed out so far, and the unused tails of standard blocks given up. */
    ghost var handed: seq<Range>
    ghost var tails: seq<nat>

    ghost predicate Valid()
      reads this
    {
      && blocksMemory == Total(blocks)
      && Housed(Range(allocPtr, remaining), blocks)
      && (forall i :: 0 <= i < |handed| ==> Housed(handed[i], blocks) && Disjoint(handed[i], Range(allocPtr, remaining)))
      && (forall i, j :: 0 <= i < j < |handed| ==> Disjoint(handed[i], handed[j]))
      && (forall i :: 0 <= i < |tails| ==> tails[i] <= 1030)
    }

    constructor ()
      ensures Valid() && handed == [] && tails == []
    {
      allocPtr, remaining, blocks, blocksMemory := 0, 0, [], 0;
      handed, tails := [], [];
    }

    method AllocateNewBlock(size: nat, base: nat) returns (result: nat)
      requires Valid() && Fresh(base, size, blocks)
      modifies this`blocks, this`blocksMemory
      ensures Valid() && result == base && blocks == old(blocks) + [Range(base, size)]
    {
      ghost var before := blocks;
      result := base;
      blocksMemory := blocksMemory + size;
      blocks := blocks + [Range(base, size)];
      assert blocks[..|blocks| - 1] == before;
      HousedMore(Range(allocPtr, remaining), before, Range(base, size));
      forall i | 0 <= i < |handed|
        ensures Housed(handed[i], blocks)
      {
        HousedMore(handed[i], before, Range(base, size));
      }
    }

    /** The unused range loses its front: `slop` bytes go unused and `bytes` are handed out. */
    method Bump(slop: nat, bytes: nat) returns (result: nat)
      requires Valid() && slop + bytes <= remaining
      modifies this`allocPtr, this`remaining, this`handed
      ensures Valid() && result == old(allocPtr) + slop && handed == old(handed) + [Range(result, bytes)]
    {
      ghost var free := Range(allocPtr, remaining);
      result := allocPtr + slop;
      allocPtr := allocPtr + slop + bytes;
      remaining := remaining - (slop + bytes);
      forall i | 0 <= i < |handed|
        ensures Disjoint(handed[i], Range(result, bytes)) && Disjoint(handed[i], Range(allocPtr, remaining))
      {
        PartApart(handed[i], free, Range(result, bytes));
        PartApart(handed[i], free, Range(allocPtr, remaining));
      }
      if free.size > 0 {
        ghost var b :| b in blocks && Within(free, b);
        assert Within(Range(result, bytes), b) && Within(Range(allocPtr, remaining), b);
      }
      handed := handed + [Range(result, bytes)];
    }

    /** A large request gets a block of its own; a small one a new standard block, and what was
        left of the current one, less than the request and its slop, is given up. */
    method AllocateFallback(bytes: nat, base: nat) returns (result: nat)
      requires Valid() && Fresh(base, if bytes > STANDARD / 4 then bytes else STANDARD, blocks)
      requires bytes <= STANDARD / 4 ==> remaining <= 1030
      modifies this
      ensures Valid() && result == base && handed == old(handed) + [Range(result, bytes)]
      ensures blocks == old(blocks) + [Range(base, if bytes > STANDARD / 4 then bytes else STANDARD)]
      ensures if bytes > STANDARD / 4 then allocPtr == old(allocPtr) && remaining == old(remaining) && tails == old(tails)
              else tails == old(tails) + [old(remaining)]
    {
      if bytes > STANDARD / 4 {
        result := AllocateLarge(bytes, base);
      } else {
        StartBlock(base);
        result := Bump(0, bytes);
      }
    }

    method AllocateLarge(bytes: nat, base: nat) returns (result: nat)
      requires Valid() && Fresh(base, bytes, blocks)
      modifies this`blocks, this`blocksMemory, this`handed
      ensures Valid() && result == base && handed == old(handed) + [Range(result, bytes)]
      ensures blocks == old(blocks) + [Range(base, bytes)]
    {
      HandedApart(base, bytes);
      NewBlockApart(Range(allocPtr, remaining), blocks, base, bytes);
      result := AllocateNewBlock(bytes, base);
      assert Housed(Range(base, bytes), blocks) by {
        assert Within(Range(base, bytes), blocks[|blocks| - 1]);
      }
      handed := handed + [Range(base, bytes)];
    }

    method StartBlock(base: nat)
      requires Valid() && Fresh(base, STANDARD, blocks) && remaining <= 1030
      modifies this`blocks, this`blocksMemory, this`allocPtr, this`remaining, this`tails
      ensures Valid() && allocPtr == base && remaining == STANDARD && tails == old(tails) + [old(remaining)]
      ensures blocks == old(blocks) + [Range(base, STANDARD)]
    {
      HandedApart(base, STANDARD);
      ghost var tail := remaining;
      allocPtr := AllocateNewBlock(STANDARD, base);
      remaining := STANDARD;
      assert Housed(Range(base, STANDARD), blocks) by {
        assert Within(Range(base, STANDARD), blocks[|blocks| - 1]);
      }
      tails := tails + [tail];
    }

    lemma HandedApart(base: nat, size: nat)
      requires Valid() && Fresh(base, size, blocks)
      ensures forall i :: 0 <= i < |handed| ==> Disjoint(handed[i], Range(base, size))
    {
      forall i | 0 <= i < |handed|
        ensures Disjoint(handed[i], Range(base, size))
      {
        NewBlockApart(handed[i], blocks, base, size);
      }
    }

    method Allocate(bytes: nat, base: nat) returns (result: nat)
      requires Valid() && bytes > 0 && Fresh(base, if bytes > STANDARD / 4 then bytes else STANDARD, blocks)
      modifies this
      ensures Valid() && handed == old(handed) + [Range(result, bytes)]
      ensures bytes <= old(remaining) ==> blocks == old(blocks) && tails == old(tails) && result == old(allocPtr)
    {
      if bytes <= remaining {
        result := Bump(0, bytes);
      } else {
        result := AllocateFallback(bytes, base);
      }
    }

    method AllocateAligned(bytes: nat, base: nat) returns (result: nat)
      requires Valid() && Fresh(base, if bytes > STANDARD / 4 then bytes else STANDARD, blocks)
      modifies this
      ensures Valid() && handed == old(handed) + [Range(result, bytes)] && result % 8 == 0
    {
      var mod := allocPtr % 8;
      var slop := if mod == 0 then 0 else ALIGN - mod;
      if bytes + slop <= remaining {
        result := Bump(slop, bytes);
      } else {
        result := AllocateFallback(bytes, base);
      }
    }
  }
}
