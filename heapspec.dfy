/** The allocator's global state as a value, and each public operation as a
    function from the old state to the new one. The class in allocator.dfy
    is proved to follow these functions step for step. */
module HeapSpec {
  import opened Layout
  import opened Chain

  /** The globals: the address at which the heap begins (the break before
      the first growth, and where resetHeap puts it back), the chain from
      heapStart to top, searchStart as a position in the chain, and
      searchMode. heapStart is position 0 and top the last position. */
  datatype Heap = Heap(base: nat, blocks: seq<Block>, cursor: Option<nat>, mode: SearchMode)

  /** The outcome of one operation: the new globals and the position of the
      block handed back, if any. */
  datatype Step = Step(heap: Heap, block: Option<nat>)

  /** searchStart is null or names a block of the chain, and every payload
      size is a whole number of words. */
  ghost predicate WellFormed(h: Heap)
  {
    (h.cursor.Some? ==> h.cursor.value < |h.blocks|)
    && forall i :: 0 <= i < |h.blocks| ==> h.blocks[i].size % WordSize == 0
  }

  /** Address of the header of block i; for i == |h.blocks| it is the
      current break, where the next block will go. */
  function HeaderAt(h: Heap, i: nat): nat
    requires i <= |h.blocks|
  {
    h.base + Offset(h.blocks, i)
  }

  function Break(h: Heap): nat
  {
    HeaderAt(h, |h.blocks|)
  }

  function PayloadAt(h: Heap, i: nat): nat
    requires i <= |h.blocks|
  {
    PayloadOf(HeaderAt(h, i))
  }

  function SetUsed(bs: seq<Block>, i: nat, used: bool): seq<Block>
    requires i < |bs|
  {
    bs[i := Block(bs[i].size, used)]
  }

  /** nextFit: mark the chosen block used and make it searchStart. */
  function NextFitStep(h: Heap, size: nat): (s: Step)
    requires h.cursor.Some? ==> h.cursor.value < |h.blocks|
    ensures |s.heap.blocks| == |h.blocks| && s.heap.base == h.base && s.heap.mode == h.mode
    ensures s.block.None? ==> s.heap == h
    ensures s.block.Some? ==> s.block.value < |h.blocks| && Fits(h.blocks[s.block.value], size)
                              && s.heap.cursor == s.block && s.heap.blocks[s.block.value].used
    ensures forall j :: 0 <= j < |h.blocks| && s.block != Some(j) ==> s.heap.blocks[j] == h.blocks[j]
  {
    var r := NextFitPick(h.blocks, h.cursor, size);
    if r.None? then Step(h, None)
    else Step(h.(blocks := SetUsed(h.blocks, r.value, true), cursor := r), r)
  }

  /** bestFit: mark the chosen block used; searchStart is not touched. */
  function BestFitStep(h: Heap, size: nat): (s: Step)
    ensures |s.heap.blocks| == |h.blocks| && s.heap.cursor == h.cursor
            && s.heap.base == h.base && s.heap.mode == h.mode
    ensures s.block.None? ==> s.heap == h
    ensures s.block.Some? ==> s.block.value < |h.blocks| && Fits(h.blocks[s.block.value], size)
                              && s.heap.blocks[s.block.value].used
    ensures forall j :: 0 <= j < |h.blocks| && s.block != Some(j) ==> s.heap.blocks[j] == h.blocks[j]
  {
    var r := BestFitIn(h.blocks, size);
    BestFitChoice(h.blocks, size);
    if r.None? then Step(h, None)
    else Step(h.(blocks := SetUsed(h.blocks, r.value, true)), r)
  }

  /** findBlock: the search of the current mode. Whatever the mode, nothing
      is found only when no free block is large enough, and then nothing
      changes; what is found qualifies; no size moves and no other block
      changes; the found block is marked used by nextFit and bestFit but not
      by firstFit; only nextFit moves searchStart. */
  function FindStep(h: Heap, size: nat): (s: Step)
    requires h.cursor.Some? ==> h.cursor.value < |h.blocks|
    ensures s.block.None? <==> forall j :: 0 <= j < |h.blocks| ==> !Fits(h.blocks[j], size)
    ensures s.block.None? ==> s.heap == h
    ensures s.block.Some? ==> s.block.value < |h.blocks| && Fits(h.blocks[s.block.value], size)
    ensures |s.heap.blocks| == |h.blocks|
    ensures forall j :: 0 <= j < |h.blocks| ==> s.heap.blocks[j].size == h.blocks[j].size
    ensures forall j :: 0 <= j < |h.blocks| && s.block != Some(j) ==> s.heap.blocks[j] == h.blocks[j]
    ensures s.block.Some? ==> s.heap.blocks[s.block.value].used == (h.mode != FirstFit)
    ensures s.heap.cursor == (if h.mode == NextFit && s.block.Some? then s.block else h.cursor)
    ensures s.heap.base == h.base && s.heap.mode == h.mode
  {
    match h.mode
    case FirstFit => Step(h, FirstFitIn(h.blocks, size, 0, |h.blocks|))
    case NextFit => NextFitStep(h, size)
    case BestFit =>
      BestFitChoice(h.blocks, size);
      BestFitStep(h, size)
  }

  /** alloc(n): reuse what findBlock finds for align(n); otherwise, if the
      system grants the growth, append a used block of align(n) bytes at the
      break. The source does not look at a refused growth and writes through
      the null pointer; the model reports the failure and changes nothing. */
  function AllocStep(h: Heap, n: nat, granted: bool): (s: Step)
    requires h.cursor.Some? ==> h.cursor.value < |h.blocks|
    ensures WellFormed(h) ==> WellFormed(s.heap)
    ensures s.heap.base == h.base && s.heap.mode == h.mode
    ensures s.block.None? <==> !granted && forall j :: 0 <= j < |h.blocks| ==> !Fits(h.blocks[j], Align(n))
    ensures s.block.None? ==> s.heap == h
    ensures s.block.Some? ==> s.block.value <= |h.blocks| && s.block.value < |s.heap.blocks|
    ensures s.block.Some? ==> Align(n) <= s.heap.blocks[s.block.value].size
    ensures s.block.Some? && s.block.value < |h.blocks| ==>
              s == FindStep(h, Align(n)) && !h.blocks[s.block.value].used
    ensures s.block == Some(|h.blocks|) ==>
              s.heap == h.(blocks := h.blocks + [Block(Align(n), true)])
              && forall j :: 0 <= j < |h.blocks| ==> !Fits(h.blocks[j], Align(n))
  {
    var size := Align(n);
    var f := FindStep(h, size);
    if f.block.Some? then f
    else if !granted then Step(h, None)
    else Step(h.(blocks := h.blocks + [Block(size, true)]), Some(|h.blocks|))
  }

  /** free(p) for the block at position i: clear its used flag. Block i
      keeps its size and reads free; every other block, searchStart and the
      mode are untouched. */
  function FreeStep(h: Heap, i: nat): (r: Heap)
    requires i < |h.blocks|
    ensures |r.blocks| == |h.blocks| && r.blocks[i] == Block(h.blocks[i].size, false)
    ensures forall j :: 0 <= j < |h.blocks| && j != i ==> r.blocks[j] == h.blocks[j]
    ensures r.base == h.base && r.cursor == h.cursor && r.mode == h.mode
  {
    h.(blocks := SetUsed(h.blocks, i, false))
  }

  /** The position of the block whose payload is at `data`, found through
      getHeader. */
  function BlockOf(h: Heap, data: nat): Option<nat>
  {
    IndexFrom(h.blocks, GetHeader(data) - h.base, 0)
  }

  /** resetHeap: an empty heap is left alone; otherwise the chain and
      searchStart are dropped. Either way the heap ends up empty. */
  function ResetStep(h: Heap): (r: Heap)
    ensures WellFormed(h) ==> r == Heap(h.base, [], None, h.mode)
  {
    if |h.blocks| == 0 then h else h.(blocks := [], cursor := None)
  }

  /** init(mode): select the mode, then reset. */
  function InitStep(h: Heap, mode: SearchMode): (r: Heap)
    ensures WellFormed(h) ==> r == Heap(h.base, [], None, mode)
  {
    ResetStep(h.(mode := mode))
  }

  /** getHeader on a payload handed out by alloc leads back to its block. */
  lemma BlockOfPayload(h: Heap, i: nat)
    requires i < |h.blocks|
    ensures BlockOf(h, PayloadAt(h, i)) == Some(i)
  {
    HeaderPayloadInverse(HeaderAt(h, i), 0, 0);
    IndexOfOffset(h.blocks, i);
  }

  /** No operation moves a header: block i lies at the same address before
      and after alloc and free. A grown block starts at the old break, and
      the break moves by exactly allocSize(align(n)). */
  lemma AllocKeepsAddresses(h: Heap, n: nat, granted: bool, i: nat)
    requires h.cursor.Some? ==> h.cursor.value < |h.blocks|
    requires i <= |h.blocks|
    ensures var s := AllocStep(h, n, granted);
            i <= |s.heap.blocks| && HeaderAt(s.heap, i) == HeaderAt(h, i)
    ensures var s := AllocStep(h, n, granted);
            s.block == Some(|h.blocks|) ==>
              HeaderAt(s.heap, |h.blocks|) == Break(h)
              && Break(s.heap) == Break(h) + AllocSize(Align(n))
  {
    var s := AllocStep(h, n, granted);
    OffsetFrame(h.blocks, s.heap.blocks, i);
    if s.block == Some(|h.blocks|) {
      OffsetFrame(h.blocks, s.heap.blocks, |h.blocks|);
    }
  }

  /** Marking a block used or free, as the searches and free do, moves no
      header and keeps the heap well formed. */
  lemma FlagKeepsAddresses(h: Heap, k: nat, used: bool, i: nat)
    requires k < |h.blocks| && i <= |h.blocks|
    ensures var h' := h.(blocks := SetUsed(h.blocks, k, used));
            HeaderAt(h', i) == HeaderAt(h, i) && (WellFormed(h) ==> WellFormed(h'))
  {
    OffsetFrame(h.blocks, SetUsed(h.blocks, k, used), i);
  }

  /** Allocate n, free it, allocate n again: in every mode the second alloc
      hands back the same block, at the same address, without growing the
      heap. */
  lemma AllocFreeAlloc(h: Heap, n: nat, g1: bool, g2: bool)
    requires WellFormed(h)
    requires AllocStep(h, n, g1).block.Some?
    ensures var a := AllocStep(h, n, g1);
            var f := FreeStep(a.heap, a.block.value);
            var b := AllocStep(f, n, g2);
            b.block == a.block && |b.heap.blocks| == |f.blocks|
            && PayloadAt(b.heap, b.block.value) == PayloadAt(a.heap, a.block.value)
  {
    var size := Align(n);
    var a := AllocStep(h, n, g1);
    var k := a.block.value;
    var f := FreeStep(a.heap, k);
    assert Fits(f.blocks[k], size);
    assert forall j :: 0 <= j < |f.blocks| && j != k ==> f.blocks[j] == a.heap.blocks[j];
    if k < |h.blocks| {
      // a reused block k: f is h with block k free, as it was before
      assert f.blocks == h.blocks;
      assert f.cursor == a.heap.cursor;
      match h.mode
      case FirstFit =>
        assert f == h;
      case BestFit =>
        assert f == h;
      case NextFit =>
        assert f.cursor == Some(k);
        var r := NextFitPick(f.blocks, f.cursor, size);
        assert Ahead(k, k, |f.blocks|) == 0;
        assert r == Some(k);
    } else {
      // a grown block k: nothing before k fits
      assert k == |h.blocks|;
      assert forall j :: 0 <= j < k ==> !Fits(f.blocks[j], size);
      match h.mode
      case FirstFit =>
      case BestFit =>
        BestFitChoice(f.blocks, size);
        assert f.blocks[k].size == size;
      case NextFit =>
        var r := NextFitPick(f.blocks, f.cursor, size);
        assert r.Some?;
    }
    var b := AllocStep(f, n, g2);
    OffsetFrame(a.heap.blocks, b.heap.blocks, k);
  }

  /** firstFit never marks its block used, so after an alloc that reuses a
      block the block still reads free, and the next alloc of the same size
      hands out the very same block again. */
  lemma FirstFitHandsOutTwice(h: Heap, n: nat, g: bool)
    requires WellFormed(h) && h.mode == FirstFit
    requires exists j :: 0 <= j < |h.blocks| && Fits(h.blocks[j], Align(n))
    ensures var a := AllocStep(h, n, g);
            a.block.Some? && a.block.value < |a.heap.blocks| && !a.heap.blocks[a.block.value].used
            && AllocStep(a.heap, n, g) == a
  {
  }
}
