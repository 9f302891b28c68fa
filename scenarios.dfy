/** The assertions of allocator_tests.cpp, replayed against the model. Each
    test starts right after init, from an empty heap at an arbitrary base
    address; every alloc is granted its growth. */
module Scenarios {
  import opened Layout
  import opened Chain
  import opened HeapSpec

  /** On a chain whose blocks are all in use, alloc grows the heap. */
  lemma Grows(h: Heap, n: nat)
    requires h.cursor.Some? ==> h.cursor.value < |h.blocks|
    requires forall j :: 0 <= j < |h.blocks| ==> h.blocks[j].used
    ensures AllocStep(h, n, true) == Step(h.(blocks := h.blocks + [Block(Align(n), true)]), Some(|h.blocks|))
  {
  }

  /** alloc(3) gets one word; alloc(8), free, alloc(8) under first fit hands
      back the same header, still of eight bytes, without growing the heap. */
  lemma BasicAllocationFirstFit(base: nat)
    ensures var h0 := Heap(base, [], None, FirstFit);
            var p1 := AllocStep(h0, 3, true);
            var p2 := AllocStep(p1.heap, 8, true);
            p1.block == Some(0) && p1.heap.blocks[0].size == WordSize
            && p2.block == Some(1) && p2.heap.blocks[1].size == 8
            && var h3 := FreeStep(p2.heap, 1);
               var p3 := AllocStep(h3, 8, true);
               !h3.blocks[1].used
               && p3.block == Some(1) && p3.heap.blocks[1].size == 8
               && |p3.heap.blocks| == 2
               && PayloadAt(p3.heap, 1) == PayloadAt(p2.heap, 1)
  {
    var h0 := Heap(base, [], None, FirstFit);
    Grows(h0, 3);
    var p1 := AllocStep(h0, 3, true);
    assert p1.heap.blocks == [Block(8, true)];
    Grows(p1.heap, 8);
    var p2 := AllocStep(p1.heap, 8, true);
    assert p2.heap.blocks == [Block(8, true), Block(8, true)];
    var h3 := FreeStep(p2.heap, 1);
    assert h3.blocks == [Block(8, true), Block(8, false)];
    assert FirstFitIn(h3.blocks, 8, 0, 2) == Some(1);
    var p3 := AllocStep(h3, 8, true);
    assert p3 == Step(h3, Some(1));
    FlagKeepsAddresses(p2.heap, 1, false, 1);
  }

  /** The heap after five blocks of 8, 8, 8, 16 and 16 bytes are allocated
      under next fit and the two 16-byte blocks are freed. */
  function NextFitFreed(base: nat): Heap
  {
    Heap(base, [Block(8, true), Block(8, true), Block(8, true), Block(16, false), Block(16, false)], None, NextFit)
  }

  /** Growth never touches searchStart: each of the five allocs appends a
      used block at the end and leaves searchStart null, and freeing the
      last two blocks gives NextFitFreed. */
  lemma NextFitSetup(base: nat)
    ensures var u8, u16 := Block(8, true), Block(16, true);
            var h1 := Heap(base, [u8], None, NextFit);
            var h2 := Heap(base, [u8, u8], None, NextFit);
            var h3 := Heap(base, [u8, u8, u8], None, NextFit);
            var h4 := Heap(base, [u8, u8, u8, u16], None, NextFit);
            var h5 := Heap(base, [u8, u8, u8, u16, u16], None, NextFit);
            AllocStep(Heap(base, [], None, NextFit), 8, true) == Step(h1, Some(0))
            && AllocStep(h1, 8, true) == Step(h2, Some(1))
            && AllocStep(h2, 8, true) == Step(h3, Some(2))
            && AllocStep(h3, 16, true) == Step(h4, Some(3))
            && AllocStep(h4, 16, true) == Step(h5, Some(4))
            && FreeStep(FreeStep(h5, 3), 4) == NextFitFreed(base)
  {
    var u8, u16 := Block(8, true), Block(16, true);
    Grows(Heap(base, [], None, NextFit), 8);
    Grows(Heap(base, [u8], None, NextFit), 8);
    Grows(Heap(base, [u8, u8], None, NextFit), 8);
    Grows(Heap(base, [u8, u8, u8], None, NextFit), 16);
    Grows(Heap(base, [u8, u8, u8, u16], None, NextFit), 16);
  }

  /** With searchStart still null, the next 16-byte alloc scans from
      heapStart, reuses the first freed block and makes it searchStart. */
  lemma NextFitReusesFirstFreed(base: nat)
    ensures var o6 := AllocStep(NextFitFreed(base), 16, true);
            o6.block == Some(3) && o6.heap.cursor == Some(3) && |o6.heap.blocks| == 5
  {
    assert FirstFitIn(NextFitFreed(base).blocks, 16, 0, 5) == Some(3);
  }

  /** The next 16-byte alloc resumes at searchStart and takes the second
      freed block; then a 32-byte and a 1000-byte request find nothing and
      grow the heap with used blocks of align(32) and align(1000) bytes. */
  lemma NextFitAdvancesCursor(base: nat)
    ensures var a6 := AllocStep(NextFitFreed(base), 16, true);
            var a7 := AllocStep(a6.heap, 16, true);
            a6.block == Some(3) && a6.heap.cursor == Some(3)
            && a7.block == Some(4) && a7.heap.cursor == Some(4)
            && var a8 := AllocStep(a7.heap, 32, true);
               a8.block == Some(5) && a8.heap.blocks[5] == Block(Align(32), true)
               && var a9 := AllocStep(a8.heap, 1000, true);
                  a9.block == Some(6) && a9.heap.blocks[6] == Block(Align(1000), true)
  {
    var u8, u16, f16 := Block(8, true), Block(16, true), Block(16, false);
    var h := NextFitFreed(base);
    assert FirstFitIn(h.blocks, 16, 0, 5) == Some(3);
    var h6 := Heap(base, [u8, u8, u8, u16, f16], Some(3), NextFit);
    assert AllocStep(h, 16, true) == Step(h6, Some(3));
    assert FirstFitIn(h6.blocks, 16, 3, 5) == Some(4);
    var h7 := Heap(base, [u8, u8, u8, u16, u16], Some(4), NextFit);
    assert AllocStep(h6, 16, true) == Step(h7, Some(4));
    Grows(h7, 32);
    var h8 := Heap(base, [u8, u8, u8, u16, u16, Block(32, true)], Some(4), NextFit);
    Grows(h8, 1000);
  }

  /** Blocks of 8, 64, 8 and 16 bytes under best fit, the 16 and the 64
      freed: a 16-byte request takes the exact 16-byte block although the
      64-byte one comes first, and the next 16-byte request, with only the
      64-byte block left, takes that one. */
  lemma BestFitPrefersExact(base: nat)
    ensures var h := Heap(base, [Block(8, true), Block(64, false), Block(8, true), Block(16, false)], None, BestFit);
            var z3 := AllocStep(h, 16, true);
            z3.block == Some(3)
            && var z3b := AllocStep(z3.heap, 16, true);
               z3b.block == Some(1) && |z3b.heap.blocks| == 4
  {
  }

  /** The heap the best-fit test builds before its first reuse: four
      growths, then the 16-byte and the 64-byte blocks freed. */
  lemma BestFitSetup(base: nat)
    ensures var u8, u64, u16 := Block(8, true), Block(64, true), Block(16, true);
            var h1 := Heap(base, [u8], None, BestFit);
            var h2 := Heap(base, [u8, u64], None, BestFit);
            var h3 := Heap(base, [u8, u64, u8], None, BestFit);
            var h4 := Heap(base, [u8, u64, u8, u16], None, BestFit);
            AllocStep(Heap(base, [], None, BestFit), 8, true) == Step(h1, Some(0))
            && AllocStep(h1, 64, true) == Step(h2, Some(1))
            && AllocStep(h2, 8, true) == Step(h3, Some(2))
            && AllocStep(h3, 16, true) == Step(h4, Some(3))
            && FreeStep(FreeStep(h4, 3), 1)
               == Heap(base, [Block(8, true), Block(64, false), Block(8, true), Block(16, false)], None, BestFit)
  {
    var u8, u64, u16 := Block(8, true), Block(64, true), Block(16, true);
    Grows(Heap(base, [], None, BestFit), 8);
    Grows(Heap(base, [u8], None, BestFit), 64);
    Grows(Heap(base, [u8, u64], None, BestFit), 8);
    Grows(Heap(base, [u8, u64, u8], None, BestFit), 16);
  }
}
