/** The local download cache: validation, writing and reading at offsets, and the index in memory. */
module LocalCache {
  import opened Arithmetic
  import opened Bitmap
  import opened ByteRanges
  import opened Common
  import CS = CacheSteps

  datatype Error = NoError | InvalidOffset | InvalidBlockSize | UncachedRange | WriteFailed | ShortWrite | SyncFailed | SaveFailed
                 | ReadFailed | ShortRead

  /** What the files do to a `WriteAt`: a failing or short write transfers some bytes only. */
  datatype Fault = NoFault | WriteFails(n: nat) | WritesShort(n: nat) | SyncFails | SaveFails

  /** What the data file does to a `ReadAt`. */
  datatype ReadFault = NoReadFault | ReadFails | ReadsShort(n: nat)

  function LastBlockSize(contentSize: nat, blockSize: int): int
    requires blockSize > 0
  {
    if contentSize % blockSize == 0 then blockSize else contentSize % blockSize
  }

  function LastBlockOffset(contentSize: nat, blockSize: int): int
    requires blockSize > 0
  {
    if contentSize % blockSize == 0 then contentSize - blockSize else contentSize - contentSize % blockSize
  }

  function ValidateOffsetAndSize(off: int, size: int, contentSize: nat, blockSize: int): Error
    requires blockSize > 0
  {
    if off < 0 || off > LastBlockOffset(contentSize, blockSize) then InvalidOffset
    else if off % blockSize != 0 then InvalidOffset
    else if size > blockSize then InvalidBlockSize
    else if off == LastBlockOffset(contentSize, blockSize) then
      if size != LastBlockSize(contentSize, blockSize) then InvalidBlockSize else NoError
    else if size != blockSize then InvalidBlockSize
    else NoError
  }

  /** The last block is the one numbered `NumBlocks - 1`. */
  lemma LastBlockIsLast(contentSize: nat, blockSize: int)
    requires blockSize > 0 && contentSize > 0
    ensures var n := NumBlocks(contentSize, blockSize);
            var r := RangeForIndex(n - 1, contentSize, blockSize);
            && n > 0 && r.from == LastBlockOffset(contentSize, blockSize)
            && r.Size() == LastBlockSize(contentSize, blockSize)
  {
    var n, q := NumBlocks(contentSize, blockSize), contentSize / blockSize;
    DivisionParts(contentSize, blockSize);
    IndexInFile(0, contentSize, blockSize);
    assert (q - 1) * blockSize == q * blockSize - blockSize;
    BlocksAdjoin(n - 1, contentSize, blockSize);
  }

  /** An offset and a size are accepted exactly when they are those of one of the file's blocks. */
  lemma AcceptsExactlyTheBlocks(off: int, size: int, contentSize: nat, blockSize: int)
    requires blockSize > 0 && contentSize > 0
    ensures ValidateOffsetAndSize(off, size, contentSize, blockSize) == NoError <==>
              exists i :: 0 <= i < NumBlocks(contentSize, blockSize) && IsBlock(i, off, size, contentSize, blockSize)
  {
    var n: int := NumBlocks(contentSize, blockSize);
    LastBlockIsLast(contentSize, blockSize);
    if ValidateOffsetAndSize(off, size, contentSize, blockSize) == NoError {
      var i := off / blockSize;
      DivisionParts(off, blockSize);
      AcceptedIsBlock(i, off, size, contentSize, blockSize);
    }
    if i :| 0 <= i < n && IsBlock(i, off, size, contentSize, blockSize) {
      BlockIsAccepted(i, off, size, contentSize, blockSize);
    }
  }

  /** An offset is refused exactly when no block starts there; a size only when one does. */
  lemma RefusedOffsetIff(off: int, size: int, contentSize: nat, blockSize: int)
    requires blockSize > 0 && contentSize > 0
    ensures var err := ValidateOffsetAndSize(off, size, contentSize, blockSize);
            && err in {NoError, InvalidOffset, InvalidBlockSize}
            && (err == InvalidOffset <==>
                  forall i | 0 <= i < NumBlocks(contentSize, blockSize) :: RangeForIndex(i, contentSize, blockSize).from != off)
  {
    hide NumBlocks, RangeForIndex;
    var whole := if off == LastBlockOffset(contentSize, blockSize) then LastBlockSize(contentSize, blockSize) else blockSize;
    DivisionParts(contentSize, blockSize);
    AcceptsExactlyTheBlocks(off, whole, contentSize, blockSize);
    forall i | 0 <= i < NumBlocks(contentSize, blockSize) && RangeForIndex(i, contentSize, blockSize).from == off
      ensures ValidateOffsetAndSize(off, size, contentSize, blockSize) != InvalidOffset
    {
      BlockIsAccepted(i, off, RangeForIndex(i, contentSize, blockSize).Size(), contentSize, blockSize);
    }
  }

  ghost predicate IsBlock(i: int, off: int, size: int, contentSize: nat, blockSize: int) {
    var r := RangeForIndex(i, contentSize, blockSize);
    off == r.from && size == r.Size()
  }

  lemma AcceptedIsBlock(i: int, off: int, size: int, contentSize: nat, blockSize: int)
    requires blockSize > 0 && contentSize > 0 && off == i * blockSize
    requires ValidateOffsetAndSize(off, size, contentSize, blockSize) == NoError
    ensures 0 <= i < NumBlocks(contentSize, blockSize) && IsBlock(i, off, size, contentSize, blockSize)
  {
    var n: int := NumBlocks(contentSize, blockSize);
    LastBlockIsLast(contentSize, blockSize);
    IndexInFile(i, contentSize, blockSize);
    if i < 0 {
      ProductMonotone(i, -1, blockSize);
    }
    BlocksAdjoin(i, contentSize, blockSize);
    if i < n - 1 {
      FullBlock(i, contentSize, blockSize);
    }
  }

  /** Every block but the last is of full size. */
  lemma FullBlock(i: int, contentSize: nat, blockSize: int)
    requires blockSize > 0 && 0 <= i < NumBlocks(contentSize, blockSize) - 1
    ensures RangeForIndex(i, contentSize, blockSize).Size() == blockSize
    ensures RangeForIndex(i, contentSize, blockSize).from
            < RangeForIndex(NumBlocks(contentSize, blockSize) - 1, contentSize, blockSize).from
  {
    var n: int := NumBlocks(contentSize, blockSize);
    IndexInFile(i + 1, contentSize, blockSize);
    ProductMonotone(0, i, blockSize);
    ProductMonotone(i + 1, n - 1, blockSize);
    assert (i + 1) * blockSize == i * blockSize + blockSize;
  }

  lemma BlockIsAccepted(i: int, off: int, size: int, contentSize: nat, blockSize: int)
    requires blockSize > 0 && contentSize > 0 && 0 <= i < NumBlocks(contentSize, blockSize)
    requires IsBlock(i, off, size, contentSize, blockSize)
    ensures ValidateOffsetAndSize(off, size, contentSize, blockSize) == NoError
  {
    LastBlockIsLast(contentSize, blockSize);
    BlocksAdjoin(i, contentSize, blockSize);
    MultipleOf(i, blockSize);
    if i < NumBlocks(contentSize, blockSize) - 1 {
      FullBlock(i, contentSize, blockSize);
    }
  }

  // ---------- the data file, byte by byte and block by block ----------

  function BlockOf(file: seq<Byte>, i: nat, blockSize: int): (b: CS.Block)
    requires blockSize > 0 && i < NumBlocks(|file|, blockSize)
    ensures |b| == RangeForIndex(i, |file|, blockSize).Size()
  {
    BlocksAdjoin(i, |file|, blockSize);
    var r := RangeForIndex(i, |file|, blockSize);
    file[r.from..r.to + 1]
  }

  function BlocksOf(file: seq<Byte>, blockSize: int): (bs: seq<CS.Block>)
    requires blockSize > 0
    ensures |bs| == NumBlocks(|file|, blockSize)
  {
    seq(NumBlocks(|file|, blockSize), i requires 0 <= i < NumBlocks(|file|, blockSize) => BlockOf(file, i, blockSize))
  }

  function Sizes(contentSize: nat, blockSize: int): (sizes: seq<nat>)
    requires blockSize > 0
    ensures |sizes| == NumBlocks(contentSize, blockSize)
  {
    seq(NumBlocks(contentSize, blockSize), i requires 0 <= i < NumBlocks(contentSize, blockSize) =>
      BlocksAdjoin(i, contentSize, blockSize);
      RangeForIndex(i, contentSize, blockSize).Size())
  }

  function Overwrite(file: seq<Byte>, at: nat, bytes: seq<Byte>): (r: seq<Byte>)
    requires at + |bytes| <= |file|
    ensures |r| == |file|
    ensures forall p :: 0 <= p < |file| ==> r[p] == if at <= p < at + |bytes| then bytes[p - at] else file[p]
  {
    file[..at] + bytes + file[at + |bytes|..]
  }

  /** Writing the first `n` bytes of a block changes that block, and no other. */
  lemma WriteInBlock(file: seq<Byte>, i: nat, bytes: seq<Byte>, n: nat, blockSize: int)
    requires blockSize > 0 && i < NumBlocks(|file|, blockSize)
    requires n <= |bytes| == RangeForIndex(i, |file|, blockSize).Size()
    ensures var at := RangeForIndex(i, |file|, blockSize).from;
            && 0 <= at && at + n <= |file|
            && BlocksOf(file, blockSize)[i] == BlockOf(file, i, blockSize)
            && BlocksOf(Overwrite(file, at, bytes[..n]), blockSize)
               == BlocksOf(file, blockSize)[i := CS.Overwritten(BlockOf(file, i, blockSize), bytes, n)]
  {
    BlocksAdjoin(i, |file|, blockSize);
    var r := RangeForIndex(i, |file|, blockSize);
    var after := Overwrite(file, r.from, bytes[..n]);
    forall j | 0 <= j < NumBlocks(|file|, blockSize)
      ensures BlockOf(after, j, blockSize)
              == if j == i then CS.Overwritten(BlockOf(file, i, blockSize), bytes, n) else BlockOf(file, j, blockSize)
    {
      OtherBlock(file, after, i, j, blockSize);
    }
  }

  lemma OtherBlock(file: seq<Byte>, after: seq<Byte>, i: nat, j: nat, blockSize: int)
    requires blockSize > 0 && |after| == |file| && i < NumBlocks(|file|, blockSize) && j < NumBlocks(|file|, blockSize)
    requires forall p | 0 <= p < |file| && !Holds(RangeForIndex(i, |file|, blockSize), p) :: after[p] == file[p]
    ensures j != i ==> BlockOf(after, j, blockSize) == BlockOf(file, j, blockSize)
  {
    BlocksAdjoin(j, |file|, blockSize);
    var r := RangeForIndex(j, |file|, blockSize);
    forall p | r.from <= p <= r.to && j != i
      ensures after[p] == file[p]
    {
      BlocksTile(p, i, |file|, blockSize);
      BlocksTile(p, j, |file|, blockSize);
    }
  }

  lemma RunExtended(sizes: seq<nat>, run: seq<CS.State>, steps: seq<CS.Step>, step: CS.Step)
    requires CS.IsRun(sizes, run, steps) && CS.Enabled(sizes, run[|run| - 1], step)
    ensures CS.IsRun(sizes, run + [CS.Apply(sizes, run[|run| - 1], step)], steps + [step])
  {
  }

  lemma CurrentShape(sizes: seq<nat>, run: seq<CS.State>, steps: seq<CS.Step>)
    requires CS.IsRun(sizes, run, steps)
    ensures |run| > 0 && CS.Inv(sizes, run[|run| - 1]) && CS.Shaped(sizes, run[|run| - 1])
  {
    CS.RunInv(sizes, run, steps, |run| - 1);
  }

  /** `now` goes on from `was`, and the only bytes put since then are `data`, in block `i`. */
  ghost predicate OnlyPuts(was: seq<CS.Step>, now: seq<CS.Step>, i: int, data: CS.Block) {
    was <= now && forall k | |was| <= k < |now| && now[k].PutBytes? :: now[k].block == i && now[k].bytes == data
  }

  lemma OnlyPutsJoin(was: seq<CS.Step>, mid: seq<CS.Step>, now: seq<CS.Step>, i: int, data: CS.Block)
    requires OnlyPuts(was, mid, i, data) && OnlyPuts(mid, now, i, data)
    ensures OnlyPuts(was, now, i, data)
  {
  }

  // ---------- the cache ----------

  ghost function BitsOf(bits: seq<Word>, n: nat): (s: set<nat>)
    requires n <= 64 * |bits|
    ensures forall i :: i in s <==> 0 <= i < n && Bit(bits, i)
  {
    set i: nat | i < n && Bit(bits, i)
  }

  lemma BitsOfPut(bits: seq<Word>, i: nat, n: nat)
    requires i < n <= 64 * |bits|
    ensures BitsOf(Put(bits, i, true), n) == BitsOf(bits, n) + {i}
  {
    hide Put;
  }

  class Cache {
    const contentSize: nat
    const blockSize: int
    const ranges: Ranges
    var file: seq<Byte>
    ghost var run: seq<CS.State>
    ghost var steps: seq<CS.Step>

    ghost function Marked(): set<nat>
      reads ranges, ranges.contiguous
      requires ranges.Valid()
    {
      BitsOf(ranges.contiguous.bits, ranges.bitmapSize)
    }

    /** The cache has come to its state by the steps of a run. */
    ghost predicate Consistent()
      reads this, ranges, ranges.contiguous
    {
      && ranges.Valid() && contentSize == ranges.contentSize == |file| && blockSize == ranges.blockSize
      && CS.IsRun(Sizes(contentSize, blockSize), run, steps)
      && var s := run[|run| - 1];
      && s.data == BlocksOf(file, blockSize) && s.bits == Marked()
    }

    /** No write is in progress. */
    ghost predicate Valid()
      reads this, ranges, ranges.contiguous
    {
      Consistent() && Now().stage == CS.Ready
    }

    ghost function Now(): CS.State
      requires Consistent()
      reads this, ranges, ranges.contiguous
    {
      run[|run| - 1]
    }

    /** A new cache over a reserved data file and an empty index. */
    constructor (reserved: seq<Byte>, blockSize: int)
      requires |reserved| > 0 && blockSize > 0
      ensures Valid() && file == reserved && this.blockSize == blockSize && Marked() == {} && steps == []
      ensures fresh(ranges) && fresh(ranges.contiguous)
    {
      this.contentSize, this.blockSize := |reserved|, blockSize;
      file := reserved;
      ranges := new Ranges(|reserved|, blockSize);
      var data := BlocksOf(reserved, blockSize);
      run := [CS.State(data, CS.AllOnly(data), {}, {{}}, CS.Ready, map[], {}, {})];
      steps := [];
    }

    /** The cache that is opened after a crash, or after the program has ended, over what it left: the data file
        and the bits of the saved index. */
    constructor Reopen(found: seq<Byte>, index: seq<Word>, blockSize: int, ghost before: seq<CS.State>, ghost taken: seq<CS.Step>)
      requires |found| > 0 && blockSize > 0 && NumBlocks(|found|, blockSize) <= 64 * |index|
      requires CS.IsRun(Sizes(|found|, blockSize), before, taken)
      requires CS.Leaves(before[|before| - 1], BlocksOf(found, blockSize), BitsOf(index, NumBlocks(|found|, blockSize)))
      ensures Valid() && file == found && this.blockSize == blockSize
      ensures Marked() == BitsOf(index, NumBlocks(|found|, blockSize)) && before <= run
      ensures steps == taken + [CS.CrashAndReload(BlocksOf(found, blockSize), Marked())]
      ensures fresh(ranges) && fresh(ranges.contiguous)
    {
      hide BlocksOf, Sizes, NumBlocks, CS.IsRun, CS.Inv, CS.Leaves;
      this.contentSize, this.blockSize := |found|, blockSize;
      file := found;
      ranges := new Ranges.FromBitmap(index, |found|, blockSize);
      var sizes := Sizes(|found|, blockSize);
      var step := CS.CrashAndReload(BlocksOf(found, blockSize), BitsOf(index, NumBlocks(|found|, blockSize)));
      CurrentShape(sizes, before, taken);
      RunExtended(sizes, before, taken, step);
      run := before + [CS.Apply(sizes, before[|before| - 1], step)];
      steps := taken + [step];
    }

    /** Records one step of the run. */
    ghost method Take(step: CS.Step)
      requires blockSize > 0
      requires CS.IsRun(Sizes(contentSize, blockSize), run, steps)
      requires CS.Enabled(Sizes(contentSize, blockSize), run[|run| - 1], step)
      modifies this`run, this`steps
      ensures CS.IsRun(Sizes(contentSize, blockSize), run, steps)
      ensures run == old(run) + [CS.Apply(Sizes(contentSize, blockSize), old(run)[|old(run)| - 1], step)]
      ensures steps == old(steps) + [step]
    {
      RunExtended(Sizes(contentSize, blockSize), run, steps, step);
      run := run + [CS.Apply(Sizes(contentSize, blockSize), run[|run| - 1], step)];
      steps := steps + [step];
    }

    /** Writes the bytes of block `i` and syncs the data file. */
    method PutAndSync(data: seq<Byte>, off: int, fault: Fault, ghost i: nat) returns (n: int, err: Error)
      requires Valid() && i < ranges.bitmapSize
      requires off == RangeForIndex(i, contentSize, blockSize).from && 0 <= off && off + |data| <= contentSize
      requires |data| == RangeForIndex(i, contentSize, blockSize).Size() == Sizes(contentSize, blockSize)[i]
      modifies this
      ensures Consistent() && old(run) <= run && OnlyPuts(old(steps), steps, i, data) && Marked() == old(Marked())
      ensures Now().last == old(Now()).last && Now().touched == old(Now()).touched + {i}
      ensures file == Overwrite(old(file), off, data[..Transferred(fault, |data|)])
      ensures fault.WriteFails? ==>
                && err == WriteFailed && n == 0
                && steps == old(steps) + [CS.PutBytes(i, data, Min(fault.n, |data|), false)]
      ensures fault.WritesShort? && fault.n < |data| ==>
                err == ShortWrite && n == fault.n && steps == old(steps) + [CS.PutBytes(i, data, fault.n, true)]
      ensures fault == SyncFails ==>
                && err == SyncFailed && n == 0
                && steps == old(steps) + [CS.PutBytes(i, data, |data|, true), CS.Sync(false)]
      ensures fault in {NoFault, SaveFails} || (fault.WritesShort? && fault.n >= |data|) ==>
                && err == NoError && n == |data|
                && steps == old(steps) + [CS.PutBytes(i, data, |data|, true), CS.Sync(true)]
      ensures Now().stage == if err == NoError then CS.Synced(i, data) else CS.Ready
    {
      hide BlocksOf, Sizes, RangeForIndex, NumBlocks, CS.IsRun, CS.Inv;
      ghost var sizes := Sizes(contentSize, blockSize);
      CurrentShape(sizes, run, steps);
      var k := Transferred(fault, |data|);
      WriteInBlock(file, i, data, k, blockSize);
      file := Overwrite(file, off, data[..k]);
      Take(CS.PutBytes(i, data, k, !fault.WriteFails?));
      if fault.WriteFails? {
        return 0, WriteFailed;
      }
      if k != |data| {
        return k, ShortWrite;
      }
      Take(CS.Sync(fault != SyncFails));
      if fault == SyncFails {
        return 0, SyncFailed;
      }
      return |data|, NoError;
    }

    /** Marks the block just synced, in memory and in the index file. */
    method MarkAndSave(off: int, fault: Fault, ghost i: nat, ghost data: seq<Byte>) returns (err: Error)
      requires Consistent() && Now().stage == CS.Synced(i, data) && i < ranges.bitmapSize
      requires Block(off, contentSize, blockSize) == i
      modifies this, ranges.contiguous
      ensures Valid() && old(run) <= run && OnlyPuts(old(steps), steps, i, data) && file == old(file)
      ensures Marked() == old(Marked()) + {i}
      ensures Now().last == old(Now()).last[i := data] && Now().touched == old(Now()).touched - {i}
      ensures err == if fault == SaveFails then SaveFailed else NoError
      ensures steps == old(steps) + [CS.SetBit, CS.Save(err == NoError)]
    {
      hide BlocksOf, Sizes, RangeForIndex, NumBlocks, Block, BitsOf, Bit, Put, CS.IsRun, CS.Inv;
      CurrentShape(Sizes(contentSize, blockSize), run, steps);
      ghost var bits := ranges.contiguous.bits;
      ranges.Set(off);
      BitsOfPut(bits, i, ranges.bitmapSize);
      Take(CS.SetBit);
      Take(CS.Save(fault != SaveFails));
      err := if fault == SaveFails then SaveFailed else NoError;
    }

    /** Writes a block, syncs it, and only then marks it in the index, in memory and on disk. */
    method WriteAt(data: seq<Byte>, off: int, fault: Fault) returns (n: int, err: Error)
      requires Valid()
      modifies this, ranges.contiguous
      ensures Valid() && old(run) <= run
      ensures ValidateOffsetAndSize(off, |data|, contentSize, blockSize) != NoError ==>
                && n == 0 && err == ValidateOffsetAndSize(off, |data|, contentSize, blockSize)
                && file == old(file) && Marked() == old(Marked()) && run == old(run) && steps == old(steps)
      ensures ValidateOffsetAndSize(off, |data|, contentSize, blockSize) == NoError ==>
                && 0 <= off && off + |data| <= |file| && 0 <= off / blockSize
                && file == Overwrite(old(file), off, data[..Transferred(fault, |data|)])
                && OnlyPuts(old(steps), steps, off / blockSize, data)
      ensures ValidateOffsetAndSize(off, |data|, contentSize, blockSize) == NoError ==>
                var i := off / blockSize;
                && (fault.WriteFails? ==>
                      && err == WriteFailed && n == 0
                      && steps == old(steps) + [CS.PutBytes(i, data, Min(fault.n, |data|), false)])
                && (fault.WritesShort? && fault.n < |data| ==>
                      err == ShortWrite && n == fault.n && steps == old(steps) + [CS.PutBytes(i, data, fault.n, true)])
                && (fault == SyncFails ==>
                      && err == SyncFailed && n == 0
                      && steps == old(steps) + [CS.PutBytes(i, data, |data|, true), CS.Sync(false)])
                && (fault == SaveFails ==>
                      && err == SaveFailed && n == 0
                      && steps == old(steps) + [CS.PutBytes(i, data, |data|, true), CS.Sync(true), CS.SetBit, CS.Save(false)])
                && (fault == NoFault || (fault.WritesShort? && fault.n >= |data|) ==>
                      && err == NoError && n == |data|
                      && steps == old(steps) + [CS.PutBytes(i, data, |data|, true), CS.Sync(true), CS.SetBit, CS.Save(true)])
      ensures ValidateOffsetAndSize(off, |data|, contentSize, blockSize) == NoError ==>
                var i := off / blockSize;
                if err in {NoError, SaveFailed} then
                  && Marked() == old(Marked()) + {i}
                  && Now().last == old(Now()).last[i := data] && Now().touched == old(Now()).touched - {i}
                else
                  && Marked() == old(Marked())
                  && Now().last == old(Now()).last && Now().touched == old(Now()).touched + {i}
    {
      hide BlocksOf, Sizes, RangeForIndex, NumBlocks, Block, CS.IsRun, ValidateOffsetAndSize;
      err := ValidateOffsetAndSize(off, |data|, contentSize, blockSize);
      if err != NoError {
        return 0, err;
      }
      ghost var i := off / blockSize;
      AcceptedOffset(off, |data|, contentSize, blockSize);
      n, err := PutAndSync(data, off, fault, i);
      if err != NoError {
        return n, err;
      }
      ghost var was := steps;
      err := MarkAndSave(off, fault, i, data);
      OnlyPutsJoin(old(steps), was, steps, i, data);
      n := if err == NoError then n else 0;
    }

    /** Looks at one offset per block size, starting from `off`. */
    method ValidateCached(off: int, size: int) returns (err: Error)
      requires Valid() && 0 <= off && 0 <= size && off + size <= contentSize
      ensures err in {NoError, UncachedRange}
      ensures err == NoError <==> ChecksPass(Marked(), off, size, blockSize)
    {
      hide NumBlocks, Block, CS.IsRun, BlocksOf, Sizes;
      var i := off;
      ghost var j := 0;
      while i < off + size
        invariant 0 <= j && i == off + j * blockSize
        invariant j > 0 ==> (j - 1) * blockSize < size
        invariant forall b | off / blockSize <= b < off / blockSize + j :: b in Marked()
        decreases off + size - i
      {
        BlocksOn(off, j, contentSize, blockSize);
        Quotient(size - 1, j, blockSize);
        var block := Block(i, contentSize, blockSize);
        if block >= 0 && !Bit(ranges.contiguous.bits, block) {
          assert off / blockSize + j !in Marked();
          return UncachedRange;
        }
        assert off / blockSize + j in Marked();
        assert (j + 1) * blockSize == j * blockSize + blockSize;
        i := i + blockSize;
        j := j + 1;
      }
      if size > 0 {
        Quotient(size - 1, j, blockSize);
        Quotient(size - 1, j - 1, blockSize);
      }
      return NoError;
    }

    /** Reads bytes that are cached.  When the last byte lies in a block that was looked at, as it does from an
        aligned offset, every byte comes from a marked block, and from one that nobody is overwriting it is the
        byte last written there. */
    method ReadAt(size: nat, off: int, fault: ReadFault) returns (data: seq<Byte>, err: Error)
      requires Valid()
      ensures err == (if off < 0 || off >= contentSize then InvalidOffset
                      else if off + size > contentSize then InvalidBlockSize
                      else if !ChecksPass(Marked(), off, size, blockSize) then UncachedRange
                      else if fault == ReadFails then ReadFailed
                      else if fault.ReadsShort? && fault.n < size then ShortRead
                      else NoError)
      ensures err in {NoError, ShortRead} ==>
                && 0 <= off && off + size <= |file|
                && data == file[off..off + if err == NoError then size else fault.n]
                && (off % blockSize + (size - 1) % blockSize < blockSize ==>
                      forall p | off <= p < off + |data| :: ReadsMarked(p, file[p]))
    {
      hide CS.IsRun, BlocksOf, Sizes;
      if off < 0 || off >= contentSize {
        return [], InvalidOffset;
      }
      if off + size > contentSize {
        return [], InvalidBlockSize;
      }
      err := ValidateCached(off, size);
      if err != NoError {
        return [], err;
      }
      if fault == ReadFails {
        return [], ReadFailed;
      }
      if size > 0 {
        ReadIsCheckedIff(off, size, blockSize);
      }
      forall p | off <= p < off + size && off % blockSize + (size - 1) % blockSize < blockSize
        ensures ReadsMarked(p, file[p])
      {
        assert AllTouchedMarked(Marked(), off, size, blockSize);
        LastWriteAt(p);
      }
      if fault.ReadsShort? && fault.n < size {
        return file[off..off + fault.n], ShortRead;
      }
      data := file[off..off + size];
    }

    ghost predicate ReadsMarked(p: int, byte: Byte)
      requires Valid()
      reads this, ranges, ranges.contiguous
    {
      && 0 <= p / blockSize && p / blockSize in Marked()
      && (p / blockSize !in Now().touched ==>
            && p / blockSize in Now().last && p % blockSize < |Now().last[p / blockSize]|
            && byte == Now().last[p / blockSize][p % blockSize])
    }

    lemma LastWriteAt(p: int)
      requires Valid() && 0 <= p < contentSize && p / blockSize in Marked()
      ensures ReadsMarked(p, file[p])
    {
      hide NumBlocks;
      var i := p / blockSize;
      DivisionParts(p, blockSize);
      BlocksTile(p, i, contentSize, blockSize);
      QuotientIs(p, i, blockSize);
      if i !in Now().touched {
        CS.ReadsLastWrite(Sizes(contentSize, blockSize), run, steps, |run| - 1, i);
        assert Now().data[i] == BlockOf(file, i, blockSize);
      }
    }
  }

  /** A cache that has only ever written the blocks of one file, through failures, crashes and reopening, holds
      the bytes of that file in every marked block. */
  lemma MarkedIsDownloaded(c: Cache, content: seq<Byte>, p: int)
    requires c.Valid() && |content| == c.contentSize && CS.WritesFile(BlocksOf(content, c.blockSize), c.steps)
    requires 0 <= p < c.contentSize && p / c.blockSize in c.Marked()
    ensures c.file[p] == content[p]
  {
    hide NumBlocks, CS.IsRun, CS.WritesFile;
    var bs, i := c.blockSize, p / c.blockSize;
    DivisionParts(p, bs);
    QuotientIs(p, i, bs);
    BlocksTile(p, i, |content|, bs);
    CurrentShape(Sizes(c.contentSize, bs), c.run, c.steps);
    CS.DownloadIsCrashSafe(Sizes(c.contentSize, bs), BlocksOf(content, bs), c.run, c.steps, |c.run| - 1, [], {});
    assert BlockOf(c.file, i, bs) == BlockOf(content, i, bs);
    var from := RangeForIndex(i, |content|, bs).from;
    assert c.file[p] == BlockOf(c.file, i, bs)[p - from] && content[p] == BlockOf(content, i, bs)[p - from];
  }

  /** Once every block of it is marked, the cache holds that file. */
  lemma CompleteIsDownloaded(c: Cache, content: seq<Byte>)
    requires c.Valid() && |content| == c.contentSize && CS.WritesFile(BlocksOf(content, c.blockSize), c.steps)
    requires forall i | 0 <= i < c.ranges.bitmapSize :: Bit(c.ranges.contiguous.bits, i)
    ensures c.file == content
  {
    hide NumBlocks, CS.IsRun, CS.WritesFile, BlocksOf, Bit;
    forall p | 0 <= p < c.contentSize
      ensures c.file[p] == content[p]
    {
      var i := p / c.blockSize;
      DivisionParts(p, c.blockSize);
      Quotient(p, 0, c.blockSize);
      ProductMonotone(0, i, c.blockSize);
      IndexInFile(i, c.contentSize, c.blockSize);
      MarkedIsDownloaded(c, content, p);
    }
  }

  lemma PutOfFile(file: seq<CS.Block>, was: seq<CS.Step>, now: seq<CS.Step>, i: nat)
    requires i < |file| && CS.WritesFile(file, was) && OnlyPuts(was, now, i, file[i])
    ensures CS.WritesFile(file, now)
  {
    forall k | 0 <= k < |now| && now[k].PutBytes?
      ensures now[k].block < |file| && now[k].bytes == file[now[k].block]
    {
      assert k < |was| ==> now[k] == was[k];
    }
  }

  /** The response of the caching downloader for block `i`: the cache goes on holding blocks of the file only,
      whatever the fault, and without one it holds this block. */
  method StoreResponse(c: Cache, content: seq<Byte>, i: nat, fault: Fault) returns (n: int, err: Error)
    requires c.Valid() && |content| == c.contentSize && CS.WritesFile(BlocksOf(content, c.blockSize), c.steps)
    requires i < c.ranges.bitmapSize
    modifies c, c.ranges.contiguous
    ensures c.Valid() && CS.WritesFile(BlocksOf(content, c.blockSize), c.steps)
    ensures var size := RangeForIndex(i, c.contentSize, c.blockSize).Size();
            && (fault.WriteFails? ==> err == WriteFailed && c.Marked() == old(c.Marked()))
            && (fault.WritesShort? && fault.n < size ==> err == ShortWrite && c.Marked() == old(c.Marked()))
            && (fault == SyncFails ==> err == SyncFailed && c.Marked() == old(c.Marked()))
            && (fault == SaveFails ==> err == SaveFailed && c.Marked() == old(c.Marked()) + {i})
            && (fault == NoFault || (fault.WritesShort? && fault.n >= size) ==>
                  err == NoError && c.Marked() == old(c.Marked()) + {i})
    ensures forall p | 0 <= p < c.contentSize && p / c.blockSize in c.Marked() :: c.file[p] == content[p]
  {
    hide BlocksOf, Sizes, NumBlocks, RangeForIndex, CS.IsRun, CS.WritesFile, ValidateOffsetAndSize, Overwrite;
    var data, off := ResponseAt(content, i, c.blockSize);
    n, err := c.WriteAt(data, off, fault);
    PutOfFile(BlocksOf(content, c.blockSize), old(c.steps), c.steps, i);
    forall p | 0 <= p < c.contentSize && p / c.blockSize in c.Marked()
      ensures c.file[p] == content[p]
    {
      MarkedIsDownloaded(c, content, p);
    }
  }

  method ResponseAt(content: seq<Byte>, i: nat, blockSize: int) returns (data: seq<Byte>, off: int)
    requires blockSize > 0 && |content| > 0 && i < NumBlocks(|content|, blockSize)
    ensures data == BlocksOf(content, blockSize)[i] && off / blockSize == i
    ensures |data| == RangeForIndex(i, |content|, blockSize).Size()
    ensures ValidateOffsetAndSize(off, |data|, |content|, blockSize) == NoError
  {
    var r := RangeForIndex(i, |content|, blockSize);
    BlocksAdjoin(i, |content|, blockSize);
    data, off := BlockOf(content, i, blockSize), r.from;
    BlockIsAccepted(i, off, |data|, |content|, blockSize);
    MultipleOf(i, blockSize);
  }

  /** The blocks at `off`, `off + blockSize`, .. below `off + size` are marked. */
  ghost predicate ChecksPass(marked: set<nat>, off: int, size: int, blockSize: int)
    requires blockSize > 0 && 0 <= off
  {
    size > 0 ==> forall b | off / blockSize <= b <= off / blockSize + (size - 1) / blockSize :: b in marked
  }

  lemma BlocksOn(off: int, j: int, contentSize: nat, blockSize: int)
    requires blockSize > 0 && 0 <= off && 0 <= j
    ensures (off + j * blockSize) / blockSize == off / blockSize + j
    ensures off + j * blockSize < contentSize ==> Block(off + j * blockSize, contentSize, blockSize) == off / blockSize + j
    ensures off + j * blockSize < contentSize ==> 0 <= off / blockSize + j < NumBlocks(contentSize, blockSize)
  {
    var q := off / blockSize;
    QuotientOfSum(off, j, blockSize);
    DivisionParts(off + j * blockSize, blockSize);
    IndexInFile(q + j, contentSize, blockSize);
    ProductMonotone(0, j, blockSize);
    Quotient(off, 0, blockSize);
  }

  /** The block of the last byte read is the last one checked exactly when the remainders fit one block. */
  lemma LastTouched(off: int, size: int, blockSize: int)
    requires blockSize > 0 && 0 <= off && 0 < size
    ensures var last := off / blockSize + (size - 1) / blockSize;
            (off + size - 1) / blockSize
            == if off % blockSize + (size - 1) % blockSize < blockSize then last else last + 1
  {
    var q, m := off / blockSize, (size - 1) / blockSize;
    DivisionParts(off, blockSize);
    DivisionParts(size - 1, blockSize);
    assert (q + m) * blockSize == q * blockSize + m * blockSize;
    assert (q + m + 1) * blockSize == (q + m) * blockSize + blockSize;
    assert (q + m + 2) * blockSize == (q + m + 1) * blockSize + blockSize;
    QuotientIs(off + size - 1, q + m, blockSize);
    QuotientIs(off + size - 1, q + m + 1, blockSize);
  }

  /** Every block that a read touches is marked. */
  ghost predicate AllTouchedMarked(marked: set<nat>, off: int, size: int, blockSize: int)
    requires blockSize > 0 && 0 <= off
  {
    forall p | off <= p < off + size :: p / blockSize in marked
  }

  lemma TouchedIsChecked(off: int, size: int, blockSize: int, p: int)
    requires blockSize > 0 && 0 <= off <= p < off + size
    requires off % blockSize + (size - 1) % blockSize < blockSize
    ensures 0 <= off / blockSize <= p / blockSize <= off / blockSize + (size - 1) / blockSize
  {
    LastTouched(off, size, blockSize);
    DivisionParts(off, blockSize);
    DivisionParts(p, blockSize);
    Quotient(off, 0, blockSize);
    Quotient(p, off / blockSize, blockSize);
    Quotient(off + size - 1, p / blockSize, blockSize);
  }

  lemma CheckedOnly(off: int, size: int, blockSize: int, checked: set<nat>)
    requires blockSize > 0 && 0 <= off && 0 < size
    requires off % blockSize + (size - 1) % blockSize >= blockSize
    requires forall b :: b in checked <==> off / blockSize <= b <= off / blockSize + (size - 1) / blockSize
    ensures ChecksPass(checked, off, size, blockSize) && !AllTouchedMarked(checked, off, size, blockSize)
  {
    LastTouched(off, size, blockSize);
    assert (off + size - 1) / blockSize !in checked;
  }

  /** A read that passes the check is sure to touch marked blocks only, whatever is marked, if and only if
      its offset and its size leave the last byte in a block that is looked at.  Reads from aligned offsets
      always do; others may return bytes that were never cached. */
  lemma ReadIsCheckedIff(off: int, size: int, blockSize: int)
    requires blockSize > 0 && 0 <= off && 0 < size
    ensures (forall marked: set<nat> :: ChecksPass(marked, off, size, blockSize) ==> AllTouchedMarked(marked, off, size, blockSize))
            <==> off % blockSize + (size - 1) % blockSize < blockSize
  {
    if off % blockSize + (size - 1) % blockSize < blockSize {
      forall marked: set<nat> | ChecksPass(marked, off, size, blockSize)
        ensures AllTouchedMarked(marked, off, size, blockSize)
      {
        forall p | off <= p < off + size
          ensures p / blockSize in marked
        {
          TouchedIsChecked(off, size, blockSize, p);
        }
      }
    } else {
      Quotient(off, 0, blockSize);
      Quotient(size - 1, 0, blockSize);
      var checked := Interval(off / blockSize, off / blockSize + (size - 1) / blockSize + 1);
      CheckedOnly(off, size, blockSize, checked);
    }
  }

  ghost function Interval(low: int, high: int): (s: set<nat>)
    requires 0 <= low <= high
    ensures forall b :: b in s <==> low <= b < high
    decreases high - low
  {
    if low == high then {} else {low} + Interval(low + 1, high)
  }

  /** How many bytes of `size` reach the file. */
  function Transferred(fault: Fault, size: nat): (n: nat)
    ensures n <= size
    ensures n < size ==> fault in {WriteFails(n), WritesShort(n)}
    ensures fault.WriteFails? || fault.WritesShort? ==> n <= fault.n
  {
    match fault
    case WriteFails(n) => if n < size then n else size
    case WritesShort(n) => if n < size then n else size
    case _ => size
  }

  /** An accepted offset is where its block starts. */
  lemma AcceptedOffset(off: int, size: int, contentSize: nat, blockSize: int)
    requires blockSize > 0 && contentSize > 0
    requires ValidateOffsetAndSize(off, size, contentSize, blockSize) == NoError
    ensures var i := off / blockSize;
            && 0 <= i < NumBlocks(contentSize, blockSize) && off == RangeForIndex(i, contentSize, blockSize).from
            && size == RangeForIndex(i, contentSize, blockSize).Size() == Sizes(contentSize, blockSize)[i]
            && Block(off, contentSize, blockSize) == i
            && 0 <= off && off + size <= contentSize
  {
    var i := off / blockSize;
    DivisionParts(off, blockSize);
    AcceptedIsBlock(i, off, size, contentSize, blockSize);
    BlocksAdjoin(i, contentSize, blockSize);
  }
}
