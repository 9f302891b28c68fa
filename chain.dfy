/** The chain of block headers and the three placement searches over it,
    as functions of the chain. Block i is followed by block i + 1, so chain
    order is address order; index |bs| plays the part of nullptr. */
module Chain {
  import opened Layout

  datatype Option<T> = None | Some(value: T)

  /** One header: the payload size in bytes and the in-use flag. The next
      link is implicit in the position of the block in the chain. */
  datatype Block = Block(size: nat, used: bool)

  datatype SearchMode = FirstFit | NextFit | BestFit

  /** The test every search applies: a block qualifies when it is free and
      its payload holds `size` bytes. */
  predicate Fits(b: Block, size: nat)
  {
    !b.used && size <= b.size
  }

  /** Distance in bytes from the first header to the header of block i: the
      chain has no gaps, so it is the heap cost of the blocks before i. */
  function Offset(bs: seq<Block>, i: nat): nat
    requires i <= |bs|
  {
    if i == 0 then 0 else Offset(bs, i - 1) + AllocSize(bs[i - 1].size)
  }

  /** A later header lies beyond the whole of every earlier block. */
  lemma {:induction false} OffsetIncreasing(bs: seq<Block>, i: nat, j: nat)
    requires i < j <= |bs|
    ensures Offset(bs, i) + AllocSize(bs[i].size) <= Offset(bs, j)
  {
    if j > i + 1 {
      OffsetIncreasing(bs, i, j - 1);
    }
  }

  /** Where a header lies depends only on the sizes of the blocks before it,
      so changing used flags or appending moves no header. */
  lemma {:induction false} OffsetFrame(a: seq<Block>, b: seq<Block>, i: nat)
    requires i <= |a| && i <= |b|
    requires forall k :: 0 <= k < i ==> a[k].size == b[k].size
    ensures Offset(a, i) == Offset(b, i)
  {
    if i > 0 {
      OffsetFrame(a, b, i - 1);
    }
  }

  /** The position, from i on, of the block whose header lies at `off`. */
  function IndexFrom(bs: seq<Block>, off: int, i: nat): (r: Option<nat>)
    requires i <= |bs|
    ensures r.Some? ==> i <= r.value < |bs| && Offset(bs, r.value) == off
    ensures r.None? ==> forall j :: i <= j < |bs| ==> Offset(bs, j) != off
    decreases |bs| - i
  {
    if i == |bs| then None
    else if Offset(bs, i) == off then Some(i)
    else IndexFrom(bs, off, i + 1)
  }

  /** Every header is found again from its offset, and at its own position. */
  lemma IndexOfOffset(bs: seq<Block>, i: nat)
    requires i < |bs|
    ensures IndexFrom(bs, Offset(bs, i), 0) == Some(i)
  {
    var r := IndexFrom(bs, Offset(bs, i), 0);
    if r.value < i {
      OffsetIncreasing(bs, r.value, i);
    } else if r.value > i {
      OffsetIncreasing(bs, i, r.value);
    }
  }

  /** First fit over the blocks lo .. hi - 1, in chain order. */
  function FirstFitIn(bs: seq<Block>, size: nat, lo: nat, hi: nat): (r: Option<nat>)
    requires lo <= hi <= |bs|
    ensures r.Some? ==> lo <= r.value < hi && Fits(bs[r.value], size)
    ensures r.Some? ==> forall j :: lo <= j < r.value ==> !Fits(bs[j], size)
    ensures r.None? <==> forall j :: lo <= j < hi ==> !Fits(bs[j], size)
    decreases hi - lo
  {
    if lo == hi then None
    else if Fits(bs[lo], size) then Some(lo)
    else FirstFitIn(bs, size, lo + 1, hi)
  }

  /** Where next fit starts: at searchStart, or at heapStart when it is null. */
  function Start(cursor: Option<nat>): nat
  {
    if cursor.Some? then cursor.value else 0
  }

  /** How many blocks a circular scan of n blocks starting at c visits
      before block j. */
  function Ahead(c: nat, j: nat, n: nat): nat
    requires c <= n && j < n
  {
    if c <= j then j - c else j + n - c
  }

  /** Next fit: the first qualifying block from searchStart to the tail,
      else the first from heapStart up to, not including, searchStart. When
      searchStart is null the first part is empty and the second part runs
      to the end of the chain. */
  function NextFitPick(bs: seq<Block>, cursor: Option<nat>, size: nat): (r: Option<nat>)
    requires cursor.Some? ==> cursor.value < |bs|
    ensures r.Some? ==> r.value < |bs| && Fits(bs[r.value], size)
    ensures r.None? <==> forall j :: 0 <= j < |bs| ==> !Fits(bs[j], size)
    ensures r.Some? ==> forall j :: 0 <= j < |bs| && Ahead(Start(cursor), j, |bs|) < Ahead(Start(cursor), r.value, |bs|)
                          ==> !Fits(bs[j], size)
  {
    match cursor
    case None => FirstFitIn(bs, size, 0, |bs|)
    case Some(c) =>
      var tail := FirstFitIn(bs, size, c, |bs|);
      if tail.Some? then tail else FirstFitIn(bs, size, 0, c)
  }

  /** Block a fits at least as tightly as block b, and comes no later when
      the two fit equally. */
  predicate Tighter(bs: seq<Block>, a: nat, b: nat)
    requires a < |bs| && b < |bs|
  {
    bs[a].size < bs[b].size || (bs[a].size == bs[b].size && a <= b)
  }

  /** Best fit as the model runs it: the loop of the source with `block`
      advanced in every branch. `best` is currentBestBlock; index 0, which is
      heapStart, doubles as "no candidate yet", so a qualifying heapStart is
      displaced by the next qualifying block whatever its size. An exact fit
      ends the scan at once. */
  function BestScan(bs: seq<Block>, size: nat, i: nat, best: nat, found: bool): (r: Option<nat>)
    requires i <= |bs|
    requires found ==> best < i
    requires !found ==> best == 0
    ensures r.Some? ==> r.value < |bs|
    ensures r.None? <==> !found && forall j :: i <= j < |bs| ==> !Fits(bs[j], size)
    decreases |bs| - i
  {
    if i == |bs| then (if found then Some(best) else None)
    else if !Fits(bs[i], size) then BestScan(bs, size, i + 1, best, found)
    else if bs[i].size - size == 0 then Some(i)
    else if best == 0 then BestScan(bs, size, i + 1, i, true)
    else if bs[i].size - size < bs[best].size - size then BestScan(bs, size, i + 1, i, true)
    else BestScan(bs, size, i + 1, best, true)
  }

  /** Best fit over the whole chain, from heapStart with no candidate yet:
      it chooses nothing exactly when no block qualifies. */
  function BestFitIn(bs: seq<Block>, size: nat): (r: Option<nat>)
    ensures r.Some? ==> r.value < |bs|
    ensures r.None? <==> forall j :: 0 <= j < |bs| ==> !Fits(bs[j], size)
  {
    BestScan(bs, size, 0, 0, false)
  }

  /** What best fit promises of its answer r: nothing is chosen exactly when
      nothing qualifies; the choice qualifies; if some block fits exactly,
      the choice is the first exact fit; and no block other than heapStart
      fits more tightly than the choice, or as tightly and earlier. */
  ghost predicate IsBestFit(bs: seq<Block>, size: nat, r: Option<nat>)
  {
    (r.None? <==> forall j :: 0 <= j < |bs| ==> !Fits(bs[j], size))
    && (r.Some? ==> r.value < |bs| && Fits(bs[r.value], size))
    && (r.Some? && r.value < |bs| ==>
          forall j :: 0 < j < |bs| && Fits(bs[j], size) ==> Tighter(bs, r.value, j))
    && (forall e :: 0 <= e < |bs| && Fits(bs[e], size) && bs[e].size == size ==>
          r.Some? && r.value <= e && r.value < |bs| && bs[r.value].size == size)
  }

  /** What the scan knows after looking at blocks 0 .. i - 1. */
  ghost predicate BestSoFar(bs: seq<Block>, size: nat, i: nat, best: nat, found: bool)
    requires i <= |bs|
  {
    (!found ==> forall j :: 0 <= j < i ==> !Fits(bs[j], size))
    && (found ==> best < i && Fits(bs[best], size))
    && (forall j :: 0 <= j < i && Fits(bs[j], size) ==> bs[j].size != size)
    && (best == 0 ==> forall j :: 0 < j < i ==> !Fits(bs[j], size))
    && (best != 0 && best < |bs| ==>
          forall j :: 0 < j < i && Fits(bs[j], size) ==> Tighter(bs, best, j))
  }

  lemma {:induction false} BestScanChoice(bs: seq<Block>, size: nat, i: nat, best: nat, found: bool)
    requires i <= |bs|
    requires found ==> best < i
    requires !found ==> best == 0
    requires BestSoFar(bs, size, i, best, found)
    ensures IsBestFit(bs, size, BestScan(bs, size, i, best, found))
    decreases |bs| - i
  {
    if i == |bs| {
    } else if !Fits(bs[i], size) {
      BestScanChoice(bs, size, i + 1, best, found);
    } else if bs[i].size - size == 0 {
    } else if best == 0 {
      BestScanChoice(bs, size, i + 1, i, true);
    } else if bs[i].size - size < bs[best].size - size {
      BestScanChoice(bs, size, i + 1, i, true);
    } else {
      BestScanChoice(bs, size, i + 1, best, true);
    }
  }

  lemma BestFitChoice(bs: seq<Block>, size: nat)
    ensures IsBestFit(bs, size, BestFitIn(bs, size))
  {
    BestScanChoice(bs, size, 0, 0, false);
  }

  /** Once the scan is past heapStart, it never answers heapStart: either it
      already holds a candidate other than heapStart, or a qualifying block
      lies ahead and displaces the sentinel. */
  lemma {:induction false} BestScanAvoidsHeapStart(bs: seq<Block>, size: nat, i: nat, best: nat, found: bool)
    requires 0 < i <= |bs|
    requires found ==> best < i
    requires !found ==> best == 0
    requires (found && best > 0) || exists j :: i <= j < |bs| && Fits(bs[j], size)
    ensures BestScan(bs, size, i, best, found) != Some(0)
    decreases |bs| - i
  {
    if i == |bs| {
    } else if !Fits(bs[i], size) {
      if !(found && best > 0) {
        var j :| i <= j < |bs| && Fits(bs[j], size);
        assert i + 1 <= j;
      }
      BestScanAvoidsHeapStart(bs, size, i + 1, best, found);
    } else if bs[i].size - size == 0 {
    } else if best == 0 {
      BestScanAvoidsHeapStart(bs, size, i + 1, i, true);
    } else if bs[i].size - size < bs[best].size - size {
      BestScanAvoidsHeapStart(bs, size, i + 1, i, true);
    } else {
      BestScanAvoidsHeapStart(bs, size, i + 1, best, true);
    }
  }

  /** heapStart doubles as "no candidate yet", so a qualifying heapStart
      that is not an exact fit is never chosen when any later block
      qualifies, however much more tightly heapStart fits. */
  lemma BestFitNeverKeepsHeapStart(bs: seq<Block>, size: nat)
    requires |bs| > 0 && Fits(bs[0], size) && bs[0].size != size
    requires exists j :: 0 < j < |bs| && Fits(bs[j], size)
    ensures BestFitIn(bs, size).Some? && BestFitIn(bs, size) != Some(0)
  {
    BestScanAvoidsHeapStart(bs, size, 1, 0, true);
  }

  /** The sentinel at work: heapStart fits a 16-byte request more tightly
      than the third block, yet the third block is chosen. */
  lemma BestFitSkipsHeapStart()
    ensures var bs := [Block(24, false), Block(8, true), Block(64, false)];
            Fits(bs[0], 16) && bs[0].size < bs[2].size && BestFitIn(bs, 16) == Some(2)
  {
  }

  /** How the source's best-fit loop ends. */
  datatype Outcome = Found(index: nat) | NotFound | Spins

  /** Best fit exactly as the source writes it. Once currentBestBlock is a
      block other than heapStart, the next qualifying block that is not an
      exact fit takes the last branch, which never moves `block`: the loop
      examines that block again and again and never ends. */
  function BestScanAsWritten(bs: seq<Block>, size: nat, i: nat, best: nat, found: bool): (r: Outcome)
    requires i <= |bs|
    requires found ==> best < i
    requires !found ==> best == 0
    ensures r.Found? ==> r.index < |bs|
    ensures r.NotFound? <==> !found && forall j :: i <= j < |bs| ==> !Fits(bs[j], size)
    decreases |bs| - i
  {
    if i == |bs| then (if found then Found(best) else NotFound)
    else if !Fits(bs[i], size) then BestScanAsWritten(bs, size, i + 1, best, found)
    else if bs[i].size - size == 0 then Found(i)
    else if best == 0 then BestScanAsWritten(bs, size, i + 1, i, true)
    else Spins
  }

  /** The source's bestFit over the whole chain: it reports nothing exactly
      when no block qualifies. */
  function BestFitAsWritten(bs: seq<Block>, size: nat): (r: Outcome)
    ensures r.Found? ==> r.index < |bs|
    ensures r.NotFound? <==> forall j :: 0 <= j < |bs| ==> !Fits(bs[j], size)
  {
    BestScanAsWritten(bs, size, 0, 0, false)
  }

  /** Two free blocks too large for a 16-byte request after a used
      heapStart: the source never returns. */
  lemma BestFitAsWrittenSpins()
    ensures BestFitAsWritten([Block(8, true), Block(64, false), Block(32, false)], 16) == Spins
  {
  }

  /** Advancing in every branch changes only the runs that never ended:
      wherever the source's loop returns, the model returns the same block. */
  lemma {:induction false} BestScanRepairAgrees(bs: seq<Block>, size: nat, i: nat, best: nat, found: bool)
    requires i <= |bs|
    requires found ==> best < i
    requires !found ==> best == 0
    ensures BestScanAsWritten(bs, size, i, best, found).NotFound? ==> BestScan(bs, size, i, best, found) == None
    ensures BestScanAsWritten(bs, size, i, best, found).Found? ==>
              BestScan(bs, size, i, best, found) == Some(BestScanAsWritten(bs, size, i, best, found).index)
    decreases |bs| - i
  {
    if i == |bs| {
    } else if !Fits(bs[i], size) {
      BestScanRepairAgrees(bs, size, i + 1, best, found);
    } else if bs[i].size - size == 0 {
    } else if best == 0 {
      BestScanRepairAgrees(bs, size, i + 1, i, true);
    }
  }
}
