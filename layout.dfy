/** Sizes and offsets of the block header on an LP64 target, and the
    arithmetic the allocator does with them: rounding a request up to the
    machine word, the number of bytes a block takes from the heap, and the
    fixed distance between a header and its payload. */
module Layout {

  /** sizeof(word_t); word_t is intptr_t, eight bytes wide. */
  const WordSize: nat := 8

  /** sizeof(Block): size_t size (8), bool used padded to 8, Block *next (8),
      word_t data[1] (8). */
  const SizeofBlock: nat := 32

  /** sizeof(Block::data): the one-word stub that stands for the payload. */
  const SizeofData: nat := 8

  /** offsetof(Block, data): data is the last field and follows size, the
      padded used flag and next. */
  const OffsetofData: nat := 24

  /** Rounds a request up to a whole number of words. The source computes
      (n + 7) & ~7; clearing the low three bits of m is m - m % 8. */
  function Align(n: nat): (r: nat)
    ensures r % WordSize == 0
    ensures n <= r < n + WordSize
  {
    var m := n + WordSize - 1;
    m - m % WordSize
  }

  /** Bytes a block with a payload of `size` bytes takes from the heap:
      the header plus the payload, less the stub already counted in it. */
  function AllocSize(size: nat): (r: nat)
    ensures r == OffsetofData + size
  {
    size + SizeofBlock - SizeofData
  }

  /** The payload address of the header at `header` (block->data);
      getHeader leads back from it to the header. */
  function PayloadOf(header: nat): (r: nat)
    ensures GetHeader(r) == header
  {
    header + OffsetofData
  }

  /** The header of the payload at `data`, by a fixed negative offset: the
      header begins offsetof(Block, data) bytes before its payload. */
  function GetHeader(data: int): (r: int)
    ensures r == data - OffsetofData
  {
    data + SizeofData - SizeofBlock
  }

  /** Rounding is the least multiple of the word size at or above n, and
      rounding twice changes nothing. */
  lemma AlignIsLeast(n: nat, k: nat)
    requires k % WordSize == 0 && n <= k
    ensures Align(n) <= k
    ensures Align(Align(n)) == Align(n)
  {
  }

  /** getHeader undoes block->data and block->data undoes getHeader; the
      distance between the two is the heap cost of an empty block,
      allocSize(0), and a payload of s bytes costs s more than that. */
  lemma HeaderPayloadInverse(header: nat, data: nat, s: nat)
    ensures GetHeader(PayloadOf(header)) == header
    ensures PayloadOf(header) - header == AllocSize(0)
    ensures data >= OffsetofData ==> GetHeader(data) >= 0 && PayloadOf(GetHeader(data)) == data
    ensures AllocSize(s) == s + AllocSize(0)
  {
  }
}
