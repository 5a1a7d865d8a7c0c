/** Files as blocks: byte ranges, their numbering, and the ranges that have been processed. */
module ByteRanges {
  import opened Arithmetic
  import opened Bitmap
  import opened Common

  /** Inclusive at both ends, as in the HTTP `Range` header. */
  datatype ByteRange = ByteRange(from: int, to: int) {
    function Size(): int {
      if from < 0 || to < from then 0 else to - from + 1
    }
  }

  function NumBlocks(contentSize: nat, blockSize: int): (n: nat)
    requires blockSize > 0
    ensures (n - 1) * blockSize < contentSize || n == 0
    ensures contentSize <= n * blockSize
  {
    var nb := contentSize / blockSize;
    if contentSize % blockSize != 0 then nb + 1 else nb
  }

  function RangeForIndex(index: int, contentSize: int, blockSize: int): ByteRange {
    if index < 0 || contentSize <= 0 || blockSize <= 0 then ByteRange(-1, -1)
    else
      var from := index * blockSize;
      ByteRange(from, Min(from + blockSize, contentSize) - 1)
  }

  /** The block that holds the byte at `pos`, or -1. */
  function Block(pos: int, contentSize: nat, blockSize: int): int
    requires blockSize > 0
  {
    if pos < 0 || pos >= contentSize then -1
    else
      var blockIndex := pos / blockSize;
      if blockIndex < 0 || blockIndex >= NumBlocks(contentSize, blockSize) then -1 else blockIndex
  }

  ghost predicate Holds(r: ByteRange, pos: int) {
    r.from <= pos <= r.to
  }

  // ---------- the blocks tile the file ----------

  /** A block index is below the number of blocks exactly when the block starts inside the file. */
  lemma IndexInFile(i: int, contentSize: nat, blockSize: int)
    requires blockSize > 0
    ensures i < NumBlocks(contentSize, blockSize) <==> i * blockSize < contentSize
  {
    var n: int := NumBlocks(contentSize, blockSize);
    if i < n {
      ProductMonotone(i, n - 1, blockSize);
    } else {
      ProductMonotone(n, i, blockSize);
    }
  }

  lemma BlockInFile(pos: int, contentSize: nat, blockSize: int)
    requires blockSize > 0
    ensures Block(pos, contentSize, blockSize) == if 0 <= pos < contentSize then pos / blockSize else -1
  {
    hide NumBlocks;
    if 0 <= pos < contentSize {
      Quotient(pos, 0, blockSize);
      QuotientIs(pos, pos / blockSize, blockSize);
      IndexInFile(pos / blockSize, contentSize, blockSize);
    }
  }

  lemma BlockHolds(pos: int, i: nat, contentSize: nat, blockSize: int)
    requires blockSize > 0 && contentSize > 0
    ensures Holds(RangeForIndex(i, contentSize, blockSize), pos)
            <==> i * blockSize <= pos < (i + 1) * blockSize && pos < contentSize
    ensures i * blockSize >= 0
  {
    ProductMonotone(0, i, blockSize);
    assert (i + 1) * blockSize == i * blockSize + blockSize;
  }

  /** Every byte of the file lies in exactly one block, the one that `Block` names. */
  lemma BlocksTile(pos: int, i: int, contentSize: nat, blockSize: int)
    requires blockSize > 0 && 0 <= i < NumBlocks(contentSize, blockSize)
    ensures Holds(RangeForIndex(i, contentSize, blockSize), pos) <==> Block(pos, contentSize, blockSize) == i
  {
    hide NumBlocks, Block, RangeForIndex, Holds;
    IndexInFile(i, contentSize, blockSize);
    QuotientIs(pos, i, blockSize);
    BlockInFile(pos, contentSize, blockSize);
    ProductMonotone(0, i, blockSize);
    BlockHolds(pos, i, contentSize, blockSize);
  }

  /** Blocks follow each other without gap from the first byte to the last. */
  lemma BlocksAdjoin(i: int, contentSize: nat, blockSize: int)
    requires blockSize > 0 && 0 <= i < NumBlocks(contentSize, blockSize)
    ensures var r := RangeForIndex(i, contentSize, blockSize);
            && 0 <= r.from <= r.to < contentSize && 0 < r.Size() <= blockSize
            && (i == 0 ==> r.from == 0)
            && r.to + 1 == (if i + 1 == NumBlocks(contentSize, blockSize) then contentSize
                            else RangeForIndex(i + 1, contentSize, blockSize).from)
            && Block(r.from, contentSize, blockSize) == i == Block(r.to, contentSize, blockSize)
  {
    IndexInFile(i, contentSize, blockSize);
    IndexInFile(i + 1, contentSize, blockSize);
    ProductMonotone(0, i, blockSize);
    assert (i + 1) * blockSize == i * blockSize + blockSize;
    var r := RangeForIndex(i, contentSize, blockSize);
    BlocksTile(r.from, i, contentSize, blockSize);
    BlocksTile(r.to, i, contentSize, blockSize);
  }

  /** An index past the last block is not reported as invalid: the range is reversed, and empty. */
  lemma IndexPastEnd(i: int, contentSize: nat, blockSize: int)
    requires blockSize > 0 && contentSize > 0 && i >= 0
    ensures RangeForIndex(i, contentSize, blockSize) != ByteRange(-1, -1)
    ensures RangeForIndex(i, contentSize, blockSize).Size() == 0 <==> i >= NumBlocks(contentSize, blockSize)
  {
    IndexInFile(i, contentSize, blockSize);
    ProductMonotone(0, i, blockSize);
  }

  // ---------- totals ----------

  /** The bytes in those of the first `n` blocks that are set, or clear. */
  function TotalBytes(b: seq<Word>, value: bool, n: nat, contentSize: nat, blockSize: int): int
    requires n <= 64 * |b|
  {
    if n == 0 then 0
    else
      TotalBytes(b, value, n - 1, contentSize, blockSize)
      + if Bit(b, n - 1) == value then RangeForIndex(n - 1, contentSize, blockSize).Size() else 0
  }

  function TotalBlocks(b: seq<Word>, value: bool, n: nat): nat
    requires n <= 64 * |b|
  {
    if n == 0 then 0 else TotalBlocks(b, value, n - 1) + if Bit(b, n - 1) == value then 1 else 0
  }

  /** Processed and outstanding bytes of the first `n` blocks always add up to the bytes up to block `n`. */
  lemma {:induction false} TotalsConserved(b: seq<Word>, n: nat, contentSize: nat, blockSize: int)
    requires blockSize > 0 && n <= NumBlocks(contentSize, blockSize) && n <= 64 * |b|
    ensures TotalBytes(b, true, n, contentSize, blockSize) + TotalBytes(b, false, n, contentSize, blockSize)
            == Min(n * blockSize, contentSize)
    ensures TotalBlocks(b, true, n) + TotalBlocks(b, false, n) == n
    decreases n
  {
    if n > 0 {
      TotalsConserved(b, n - 1, contentSize, blockSize);
      BlocksAdjoin(n - 1, contentSize, blockSize);
      IndexInFile(n - 1, contentSize, blockSize);
      IndexInFile(n, contentSize, blockSize);
      assert n * blockSize == (n - 1) * blockSize + blockSize;
    }
  }

  /** Over the whole file they add up to its size. */
  lemma CachedPlusOutstanding(b: seq<Word>, contentSize: nat, blockSize: int)
    requires blockSize > 0 && NumBlocks(contentSize, blockSize) <= 64 * |b|
    ensures var n := NumBlocks(contentSize, blockSize);
            && TotalBytes(b, true, n, contentSize, blockSize) + TotalBytes(b, false, n, contentSize, blockSize) == contentSize
            && TotalBlocks(b, true, n) + TotalBlocks(b, false, n) == n
  {
    TotalsConserved(b, NumBlocks(contentSize, blockSize), contentSize, blockSize);
  }

  lemma {:induction false} NoneInBetween(b: seq<Word>, value: bool, m: nat, n: nat, contentSize: nat, blockSize: int)
    requires m <= n <= 64 * |b|
    requires forall i | m <= i < n :: Bit(b, i) != value
    ensures TotalBytes(b, value, m, contentSize, blockSize) == TotalBytes(b, value, n, contentSize, blockSize)
    ensures TotalBlocks(b, value, m) == TotalBlocks(b, value, n)
    decreases n
  {
    if m < n {
      NoneInBetween(b, value, m, n - 1, contentSize, blockSize);
    }
  }

  // ---------- the ranges of one file ----------

  class Ranges {
    const contentSize: nat
    const blockSize: int
    const bitmapSize: nat
    const contiguous: Contiguous

    ghost predicate Valid()
      reads this, contiguous
    {
      && blockSize > 0 && contentSize > 0
      && bitmapSize == NumBlocks(contentSize, blockSize)
      && contiguous.Valid() && contiguous.start == 0 && contiguous.last == bitmapSize - 1
    }

    /** A file without content has no tracker; a call on it makes the program stop. */
    constructor (contentSize: nat, blockSize: int)
      requires contentSize > 0 && blockSize > 0
      ensures Valid() && fresh(contiguous)
      ensures this.contentSize == contentSize && this.blockSize == blockSize
      ensures contiguous.firstClear == 0 && forall i :: 0 <= i < bitmapSize ==> !Bit(contiguous.bits, i)
    {
      this.contentSize, this.blockSize := contentSize, blockSize;
      var n := NumBlocks(contentSize, blockSize);
      bitmapSize := n;
      IndexInFile(0, contentSize, blockSize);
      contiguous := new Contiguous(New(n), 0, n);
      new;
      assert !Bit(contiguous.bits, 0);
    }

    /** The tracker of a saved index. */
    constructor FromBitmap(bitmap: seq<Word>, contentSize: nat, blockSize: int)
      requires contentSize > 0 && blockSize > 0 && NumBlocks(contentSize, blockSize) <= 64 * |bitmap|
      ensures Valid() && fresh(contiguous)
      ensures this.contentSize == contentSize && this.blockSize == blockSize && contiguous.bits == bitmap
    {
      this.contentSize, this.blockSize := contentSize, blockSize;
      var n := NumBlocks(contentSize, blockSize);
      bitmapSize := n;
      IndexInFile(0, contentSize, blockSize);
      contiguous := new Contiguous(bitmap, 0, n);
    }

    method Set(pos: int)
      requires Valid()
      modifies contiguous
      ensures Valid()
      ensures var i := Block(pos, contentSize, blockSize);
              contiguous.bits == if i >= 0 then Put(old(contiguous.bits), i, true) else old(contiguous.bits)
    {
      var blockIndex := Block(pos, contentSize, blockSize);
      if blockIndex >= 0 {
        contiguous.Set(blockIndex);
      }
    }

    /** The next clear block from `start` on: its range, and the index to continue from. */
    method NextClear(start: int) returns (next: int, br: ByteRange)
      requires Valid() && 0 <= start
      ensures next == -1 ==> forall i | start <= i < bitmapSize :: Bit(contiguous.bits, i)
      ensures next != -1 ==>
                && start < next <= bitmapSize && !Bit(contiguous.bits, next - 1)
                && (forall i | start <= i < next - 1 :: Bit(contiguous.bits, i))
                && br == RangeForIndex(next - 1, contentSize, blockSize)
    {
      br := ByteRange(0, 0);
      var i := Bitmap.NextClear(contiguous.bits, start, bitmapSize);
      if i < 0 {
        return -1, br;
      }
      return i + 1, RangeForIndex(i, contentSize, blockSize);
    }

    method NextSet(start: int) returns (next: int, br: ByteRange)
      requires Valid() && 0 <= start
      ensures next == -1 ==> forall i | start <= i < bitmapSize :: !Bit(contiguous.bits, i)
      ensures next != -1 ==>
                && start < next <= bitmapSize && Bit(contiguous.bits, next - 1)
                && (forall i | start <= i < next - 1 :: !Bit(contiguous.bits, i))
                && br == RangeForIndex(next - 1, contentSize, blockSize)
    {
      br := ByteRange(0, 0);
      var i := Bitmap.NextSet(contiguous.bits, start, bitmapSize);
      if i < 0 {
        return -1, br;
      }
      return i + 1, RangeForIndex(i, contentSize, blockSize);
    }

    /** The contiguous processed prefix of the file, if any. */
    method Tail() returns (br: ByteRange, ok: bool)
      requires Valid()
      ensures ok <==> Bit(contiguous.bits, 0)
      ensures ok ==> br == ByteRange(0, Min(contiguous.firstClear * blockSize, contentSize) - 1)
      ensures !ok ==> contiguous.firstClear == 0
    {
      IndexInFile(0, contentSize, blockSize);
      var blk := contiguous.Tail();
      if blk < 0 {
        return ByteRange(0, 0), false;
      }
      return ByteRange(0, Min((blk + 1) * blockSize, contentSize) - 1), true;
    }

    /** The number of processed bytes and blocks. */
    method CachedBytesAndBlocks() returns (bytes: int, blocks: int)
      requires Valid()
      ensures bytes == TotalBytes(contiguous.bits, true, bitmapSize, contentSize, blockSize)
      ensures blocks == TotalBlocks(contiguous.bits, true, bitmapSize)
    {
      bytes, blocks := 0, 0;
      var n, br := NextSet(0);
      ghost var done := 0;
      NoneInBetween(contiguous.bits, true, 0, if n == -1 then bitmapSize else n - 1, contentSize, blockSize);
      while n != -1
        invariant n != -1 ==> 0 < n <= bitmapSize && Bit(contiguous.bits, n - 1) && br == RangeForIndex(n - 1, contentSize, blockSize)
        invariant var upTo := if n == -1 then bitmapSize else n - 1;
                  && bytes == TotalBytes(contiguous.bits, true, upTo, contentSize, blockSize)
                  && blocks == TotalBlocks(contiguous.bits, true, upTo)
        decreases if n == -1 then 0 else bitmapSize + 1 - n
      {
        bytes := bytes + br.Size();
        blocks := blocks + 1;
        ghost var before := n;
        n, br := NextSet(n);
        NoneInBetween(contiguous.bits, true, before, if n == -1 then bitmapSize else n - 1, contentSize, blockSize);
      }
    }

    /** True when no clear block is left. */
    method Complete() returns (complete: bool)
      requires Valid()
      ensures complete <==> forall i | 0 <= i < bitmapSize :: Bit(contiguous.bits, i)
      ensures complete <==> contiguous.firstClear == bitmapSize
    {
      var i, br := NextClear(0);
      complete := i == -1;
      assert i != -1 ==> !Bit(contiguous.bits, i - 1);
    }
  }
}
