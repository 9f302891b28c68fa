/** The allocator itself: its globals as the fields of one object, and the
    placement searches and the public operations as methods that walk and
    update the chain in place. FirstFit changes nothing and is proved to
    return what Chain.FirstFitIn picks; the constructor is proved to start
    from the empty heap; every other method is proved to do what the
    matching function of HeapSpec says. */
module Allocator {
  import opened Layout
  import opened Chain
  import opened HeapSpec

  class Allocator {
    /** Where the heap begins: the break before the first growth, and where
        resetHeap moves it back to. */
    const base: nat
    /** The program break, the address sbrk(0) reports. */
    var brk: nat
    /** The chain from heapStart to top; block i's next is block i + 1. */
    var blocks: seq<Block>
    /** searchStart; None is nullptr. */
    var cursor: Option<nat>
    var mode: SearchMode

    ghost function Model(): Heap
      reads this
    {
      Heap(base, blocks, cursor, mode)
    }

    /** The chain ends exactly at the break. */
    ghost predicate Valid()
      reads this
    {
      WellFormed(Model()) && brk == Break(Model())
    }

    /** The globals as the program starts: no heap, FirstFit. */
    constructor (base: nat)
      ensures Valid()
      ensures Model() == Heap(base, [], None, SearchMode.FirstFit)
    {
      this.base := base;
      brk := base;
      blocks := [];
      cursor := None;
      mode := SearchMode.FirstFit;
    }

    /** firstFit: walk from heapStart and stop at the first free block that
        is large enough. It marks nothing and leaves searchStart alone. */
    method FirstFit(size: nat) returns (r: Option<nat>)
      ensures r == FirstFitIn(blocks, size, 0, |blocks|)
    {
      var block := 0;
      while block != |blocks|
        invariant block <= |blocks|
        invariant FirstFitIn(blocks, size, block, |blocks|) == FirstFitIn(blocks, size, 0, |blocks|)
        decreases |blocks| - block
      {
        if blocks[block].used || blocks[block].size < size {
          block := block + 1;
        } else {
          return Some(block);
        }
      }
      return None;
    }

    /** nextFit: walk from searchStart to the tail, then from heapStart up to
        searchStart; the block found is marked used and becomes searchStart. */
    method NextFit(size: nat) returns (r: Option<nat>)
      requires Valid()
      modifies this
      ensures Valid()
      ensures Step(Model(), r) == NextFitStep(old(Model()), size)
    {
      var block := if cursor.Some? then cursor.value else |blocks|;
      while block != |blocks|
        invariant block <= |blocks|
        invariant cursor.None? ==> block == |blocks|
        invariant cursor.Some? ==>
                    FirstFitIn(blocks, size, block, |blocks|) == FirstFitIn(blocks, size, cursor.value, |blocks|)
        decreases |blocks| - block
      {
        if blocks[block].used || blocks[block].size < size {
          block := block + 1;
        } else {
          FlagKeepsAddresses(Model(), block, true, |blocks|);
          cursor := Some(block);
          blocks := SetUsed(blocks, block, true);
          return Some(block);
        }
      }

      var stop := if cursor.Some? then cursor.value else |blocks|;
      block := 0;
      while block != stop
        invariant block <= stop <= |blocks|
        invariant FirstFitIn(blocks, size, block, stop) == FirstFitIn(blocks, size, 0, stop)
        decreases stop - block
      {
        if blocks[block].used || blocks[block].size < size {
          block := block + 1;
        } else {
          FlagKeepsAddresses(Model(), block, true, |blocks|);
          cursor := Some(block);
          blocks := SetUsed(blocks, block, true);
          return Some(block);
        }
      }
      return None;
    }

    /** bestFit: one walk over the whole chain keeping the tightest block
        seen; an exact fit is taken at once. The source never advances
        `block` in its last branch and so never ends once it gets there; here
        `block` advances in every branch (see BestScanAsWritten). */
    method BestFit(size: nat) returns (r: Option<nat>)
      requires Valid()
      modifies this
      ensures Valid()
      ensures Step(Model(), r) == BestFitStep(old(Model()), size)
    {
      var block := 0;
      var best := 0;
      var found := false;
      while block != |blocks|
        invariant block <= |blocks|
        invariant found ==> best < block
        invariant !found ==> best == 0
        invariant BestScan(blocks, size, block, best, found) == BestFitIn(blocks, size)
        decreases |blocks| - block
      {
        if blocks[block].used || blocks[block].size < size {
          block := block + 1;
        } else {
          found := true;
          var diff := blocks[block].size - size;
          if diff == 0 {
            FlagKeepsAddresses(Model(), block, true, |blocks|);
            blocks := SetUsed(blocks, block, true);
            return Some(block);
          } else if best == 0 {
            best := block;
            block := block + 1;
          } else {
            var bestDiff := blocks[best].size - size;
            if diff < bestDiff {
              best := block;
            }
            block := block + 1;
          }
        }
      }
      if found {
        FlagKeepsAddresses(Model(), best, true, |blocks|);
        blocks := SetUsed(blocks, best, true);
        return Some(best);
      }
      return None;
    }

    /** findBlock: the search of the mode chosen at init. The source's
        fallback for an unknown mode cannot arise: the enum has three values. */
    method FindBlock(size: nat) returns (r: Option<nat>)
      requires Valid()
      modifies this
      ensures Valid()
      ensures Step(Model(), r) == FindStep(old(Model()), size)
    {
      match mode
      case FirstFit =>
        r := FirstFit(size);
      case NextFit =>
        r := NextFit(size);
      case BestFit =>
        r := BestFit(size);
    }

    /** alloc: reuse a block if the search finds one, else grow the heap by
        allocSize(align(n)) at the break and append a used block there. The
        growth is `granted` by the system or refused; when it is refused the
        source writes through the null pointer, the model returns None. */
    method Alloc(n: nat, granted: bool) returns (p: Option<nat>)
      requires Valid()
      modifies this
      ensures Valid()
      ensures var s := AllocStep(old(Model()), n, granted);
              Model() == s.heap
              && p == (if s.block.Some? then Some(PayloadAt(s.heap, s.block.value)) else None)
    {
      var size := Align(n);
      var block := FindBlock(size);
      if block.Some? {
        return Some(PayloadOf(base + Offset(blocks, block.value)));
      }
      if !granted {
        return None;
      }
      ghost var before := Model();
      var header := brk;
      brk := brk + AllocSize(size);
      blocks := blocks + [Block(size, true)];
      AllocKeepsAddresses(before, n, granted, |before.blocks|);
      return Some(PayloadOf(header));
    }

    /** free: getHeader(data), then clear the used flag. `i` names the block
        whose payload `data` is: freeing anything else is undefined in the
        source. The header is found here by its address in the chain, where
        the source reaches it directly. */
    method Free(data: nat, ghost i: nat)
      requires Valid()
      requires i < |blocks| && data == PayloadAt(Model(), i)
      modifies this
      ensures Valid()
      ensures Model() == FreeStep(old(Model()), i)
    {
      BlockOfPayload(Model(), i);
      FlagKeepsAddresses(Model(), i, false, |blocks|);
      var block := IndexFrom(blocks, GetHeader(data) - base, 0);
      blocks := SetUsed(blocks, block.value, false);
    }

    /** resetHeap: nothing to do on an empty heap; otherwise move the break
        back to heapStart and forget the chain and searchStart. */
    method ResetHeap()
      requires Valid()
      modifies this
      ensures Valid()
      ensures Model() == ResetStep(old(Model()))
    {
      if |blocks| == 0 {
        return;
      }
      brk := base;
      blocks := [];
      cursor := None;
    }

    /** init: select the search mode, then reset the heap. */
    method Init(m: SearchMode)
      requires Valid()
      modifies this
      ensures Valid()
      ensures Model() == InitStep(old(Model()), m)
    {
      mode := m;
      ResetHeap();
    }
  }
}
