/** The downloader's data structures under its mutex: the heap of early responses, the written ranges, and
    the pipe, byte for byte. */
module StreamingDownloader {
  import opened Arithmetic
  import opened Bitmap
  import opened ByteRanges
  import opened Common
  import opened MinHeap
  import SC = StreamingCore
  import SP = StreamingProtocol

  datatype Response = Response(range: ByteRange, data: seq<Byte>)

  datatype Error = FirstNotAtZero | OutOfOrder | PipeClosed

  datatype Result = Ok | Err(error: Error)

  /** The offset of the first byte after the first `k` blocks. */
  function Offset(k: nat, contentSize: nat, blockSize: int): nat
    requires blockSize > 0
  {
    ProductMonotone(0, k, blockSize);
    Min(k * blockSize, contentSize)
  }

  /** The response that a successful fetch of block `i` delivers. */
  function ResponseFor(content: seq<Byte>, i: nat, blockSize: int): Response
    requires blockSize > 0 && i < NumBlocks(|content|, blockSize)
  {
    BlocksAdjoin(i, |content|, blockSize);
    var r := RangeForIndex(i, |content|, blockSize);
    Response(r, content[r.from..r.to + 1])
  }

  function EntryFor(content: seq<Byte>, i: nat, blockSize: int): Entry<Response>
    requires blockSize > 0 && i < NumBlocks(|content|, blockSize)
  {
    var resp := ResponseFor(content, i, blockSize);
    Entry(resp.range.from, resp)
  }

  /** The heap holds exactly one response for each of the blocks in `early`. */
  ghost predicate HoldsExactly(m: multiset<Entry<Response>>, early: set<nat>, content: seq<Byte>, blockSize: int)
    requires blockSize > 0
  {
    && (forall i | i in early :: i < NumBlocks(|content|, blockSize) && EntryFor(content, i, blockSize) in m)
    && (forall e | e in m ::
          && m[e] == 1
          && 0 <= Block(e.key, |content|, blockSize) && Block(e.key, |content|, blockSize) in early
          && e == EntryFor(content, Block(e.key, |content|, blockSize), blockSize))
  }

  lemma EntryOfBlock(content: seq<Byte>, i: nat, blockSize: int)
    requires blockSize > 0 && i < NumBlocks(|content|, blockSize)
    ensures Block(EntryFor(content, i, blockSize).key, |content|, blockSize) == i
    ensures EntryFor(content, i, blockSize).key == i * blockSize
  {
    BlocksAdjoin(i, |content|, blockSize);
  }

  lemma EntriesOrdered(content: seq<Byte>, i: nat, j: nat, blockSize: int)
    requires blockSize > 0 && i < NumBlocks(|content|, blockSize) && j < NumBlocks(|content|, blockSize)
    ensures EntryFor(content, i, blockSize).key <= EntryFor(content, j, blockSize).key <==> i <= j
  {
    hide EntryFor, NumBlocks;
    EntryOfBlock(content, i, blockSize);
    EntryOfBlock(content, j, blockSize);
    if i < j {
      ProductMonotone(i + 1, j, blockSize);
    } else {
      ProductMonotone(j, i, blockSize);
      if j < i {
        ProductMonotone(j + 1, i, blockSize);
      }
    }
  }

  lemma PushHolds(m: multiset<Entry<Response>>, early: set<nat>, content: seq<Byte>, i: nat, blockSize: int)
    requires blockSize > 0 && i < NumBlocks(|content|, blockSize) && i !in early
    requires HoldsExactly(m, early, content, blockSize)
    ensures HoldsExactly(m + multiset{EntryFor(content, i, blockSize)}, early + {i}, content, blockSize)
  {
    EntryOfBlock(content, i, blockSize);
  }

  lemma NothingHeld(m: multiset<Entry<Response>>, early: set<nat>, content: seq<Byte>, blockSize: int)
    requires blockSize > 0 && HoldsExactly(m, early, content, blockSize) && m == multiset{}
    ensures early == {}
  {
  }

  lemma PopHolds(m: multiset<Entry<Response>>, early: set<nat>, content: seq<Byte>, e: Entry<Response>, blockSize: int)
    returns (i: nat)
    requires blockSize > 0 && HoldsExactly(m, early, content, blockSize) && e in m
    requires forall f | f in m :: e.key <= f.key
    ensures i in early && i == SC.Least(early) && i < NumBlocks(|content|, blockSize)
    ensures e == EntryFor(content, i, blockSize)
    ensures HoldsExactly(m - multiset{e}, early - {i}, content, blockSize)
  {
    i := Block(e.key, |content|, blockSize);
    forall j | j in early
      ensures i <= j
    {
      assert EntryFor(content, j, blockSize) in m;
      EntriesOrdered(content, i, j, blockSize);
    }
    forall j | j in early - {i}
      ensures EntryFor(content, j, blockSize) in m - multiset{e}
    {
      EntryOfBlock(content, j, blockSize);
      assert EntryFor(content, j, blockSize) in m;
    }
    assert forall f | f in m - multiset{e} :: f in m && f != e;
  }

  /** The protocol's view: the blocks in `early` are held back, the first `k` are written. */
  ghost function CoreAt(early: set<nat>, k: nat): SC.Core {
    SC.Core(early, SC.UpTo(k), k - 1, seq(k, i => i))
  }

  lemma CoreWritten(early: set<nat>, k: nat)
    ensures SC.WriteToPipe(CoreAt(early, k), k) == SC.Ok(CoreAt(early, k + 1))
  {
    assert seq(k + 1, i => i) == seq(k, i => i) + [k];
  }

  lemma DrainStep(early: set<nat>, k: nat)
    requires early != {} && SC.Least(early) == k
    ensures SC.DrainCache(CoreAt(early, k), k) == SC.DrainCache(CoreAt(early - {k}, k + 1), k + 1)
  {
    CoreWritten(early - {k}, k);
  }

  lemma DrainStops(early: set<nat>, k: nat)
    requires early != {} ==> SC.Least(early) != k
    ensures SC.DrainCache(CoreAt(early, k), k) == SC.Ok(CoreAt(early, k))
  {
  }

  lemma ResponseHandled(early: set<nat>, k: nat, i: nat, n: nat)
    requires k <= i < n
    ensures i != k ==> SC.HandleResponse(CoreAt(early, k), i, n) == SC.Ok(CoreAt(early + {i}, k))
    ensures i == k ==> SC.HandleResponse(CoreAt(early, k), i, n) == SC.DrainCache(CoreAt(early, k + 1), k + 1)
  {
    var t := SC.FirstClear(SC.UpTo(k), 0, n);
    assert k !in SC.UpTo(k) && (t < n ==> t !in SC.UpTo(k));
    CoreWritten(early, k);
  }

  class Downloader {
    ghost const content: seq<Byte>
    const outstanding: Ranges
    const heap: Heap<Response>
    var tracking: ByteRange
    var pipe: seq<Byte>
    var pipeOpen: bool
    ghost var early: set<nat>

    ghost function Written(): int
      reads outstanding.contiguous
    {
      outstanding.contiguous.firstClear
    }

    /** The ranges marked as written are the first blocks, the range tracked is the last of them, and the pipe
        has received exactly their bytes. */
    ghost predicate Valid()
      reads this, heap, outstanding, outstanding.contiguous
    {
      && outstanding.Valid() && heap.Valid()
      && |content| == outstanding.contentSize
      && var k, n, bs := Written(), outstanding.bitmapSize, outstanding.blockSize;
      && (forall i | k <= i < n :: !Bit(outstanding.contiguous.bits, i))
      && tracking == (if k == 0 then ByteRange(-1, -1) else RangeForIndex(k - 1, |content|, bs))
      && pipe == content[..Offset(k, |content|, bs)]
      && HoldsExactly(heap.Contents(), early, content, bs)
      && (forall i | i in early :: k <= i)
    }

    /** The protocol's view of this state. */
    ghost function Abs(): SC.Core
      requires Valid()
      reads this, heap, outstanding, outstanding.contiguous
    {
      CoreAt(early, Written())
    }

    constructor (ghost content: seq<Byte>, contentSize: nat, blockSize: int)
      requires |content| == contentSize > 0 && blockSize > 0
      ensures Valid() && pipeOpen && Abs() == SC.EMPTY
      ensures fresh(heap) && fresh(outstanding) && fresh(outstanding.contiguous)
    {
      this.content := content;
      outstanding := new Ranges(contentSize, blockSize);
      heap := new Heap();
      tracking := ByteRange(-1, -1);
      pipe := [];
      pipeOpen := true;
      early := {};
    }

    /** Sends one response; `i` is its block. */
    method WriteToPipe(resp: Response, ghost i: nat) returns (r: Result)
      requires Valid() && i < outstanding.bitmapSize && i !in early
      requires resp == ResponseFor(content, i, outstanding.blockSize)
      modifies this, outstanding.contiguous
      ensures early == old(early) && pipeOpen == old(pipeOpen)
      ensures i == old(Written()) && pipeOpen ==> r == Ok && Valid() && Written() == i + 1
      ensures i == old(Written()) && !pipeOpen ==>
                r == Err(PipeClosed) && pipe == old(pipe) && Written() == i && tracking == resp.range
      ensures i != old(Written()) ==> r.Err? && r.error != PipeClosed && Valid() && Abs() == old(Abs())
    {
      hide HoldsExactly, ResponseFor, RangeForIndex, Offset, NumBlocks, Block;
      ghost var k := Written();
      SentBytes(content, i, outstanding.blockSize);
      LastTracked(content, k, i, tracking, outstanding.blockSize);
      if tracking.from == -1 && resp.range.from != 0 {
        return Err(FirstNotAtZero);
      }
      if resp.range.from != tracking.to + 1 {
        return Err(OutOfOrder);
      }
      tracking := resp.range;
      if !pipeOpen {
        return Err(PipeClosed);
      }
      pipe := pipe + resp.data;
      ghost var before := outstanding.contiguous.bits;
      outstanding.Set(resp.range.from);
      RunExtends(before, outstanding.contiguous.bits, k, Written(), outstanding.bitmapSize);
      r := Ok;
    }

    /** Keeps a response that cannot be written yet. */
    method Push(resp: Response, ghost i: nat)
      requires Valid() && Written() <= i < outstanding.bitmapSize && i !in early
      requires resp == ResponseFor(content, i, outstanding.blockSize)
      modifies this, heap
      ensures Valid() && early == old(early) + {i} && pipe == old(pipe) && pipeOpen == old(pipeOpen)
    {
      hide RangeForIndex, Offset, NumBlocks, Block;
      PushHolds(heap.Contents(), early, content, i, outstanding.blockSize);
      heap.Push(Entry(resp.range.from, resp));
      early := early + {i};
    }

    /** Takes the earliest response that is held back. */
    method Pop() returns (resp: Response, ghost i: nat)
      requires Valid() && |heap.items| > 0
      modifies this, heap
      ensures Valid() && |heap.items| == old(|heap.items|) - 1
      ensures old(early) != {} && i == SC.Least(old(early)) && early == old(early) - {i}
      ensures i < outstanding.bitmapSize && resp == ResponseFor(content, i, outstanding.blockSize)
      ensures pipe == old(pipe) && pipeOpen == old(pipeOpen)
    {
      hide RangeForIndex, Offset, NumBlocks, Block, HoldsExactly, ResponseFor;
      var e := heap.Pop();
      i := PopHolds(old(heap.Contents()), early, content, e, outstanding.blockSize);
      early := early - {i};
      resp := e.val;
    }

    method DrainCache(nextOffset: int) returns (r: Result)
      requires Valid() && pipeOpen
      requires nextOffset == Offset(Written(), |content|, outstanding.blockSize)
      modifies this, heap, outstanding.contiguous
      ensures r == Ok && Valid() && pipeOpen
      ensures SC.DrainCache(old(Abs()), old(Written())) == SC.Ok(Abs())
    {
      hide RangeForIndex, Offset, NumBlocks, Block, HoldsExactly, ResponseFor, CoreAt, SC.Least;
      var next := nextOffset;
      ghost var start := SC.DrainCache(CoreAt(early, Written()), Written());
      while |heap.items| > 0
        invariant Valid() && pipeOpen
        invariant next == Offset(Written(), |content|, outstanding.blockSize)
        invariant start == SC.DrainCache(CoreAt(early, Written()), Written())
        decreases |heap.items|
      {
        ghost var k, before := Written(), early;
        var head, i := Pop();
        SentBytes(content, i, outstanding.blockSize);
        OffsetInjective(i, k, |content|, outstanding.blockSize);
        if next == head.range.from {
          r := WriteToPipe(head, i);
          if r.Err? {
            return r;
          }
          DrainStep(before, k);
          next := head.range.to + 1;
          continue;
        }
        DrainStops(before, k);
        Push(head, i);
        assert early == before;
        return Ok;
      }
      NothingHeld(heap.Contents(), early, content, outstanding.blockSize);
      DrainStops(early, Written());
      r := Ok;
    }

    /** Handles the response for block `i` as the protocol does, and sends its bytes, and those of the blocks
        that waited for it. */
    method HandleResponse(resp: Response, ghost i: nat) returns (r: Result)
      requires Valid() && Written() <= i < outstanding.bitmapSize && i !in early
      requires resp == ResponseFor(content, i, outstanding.blockSize)
      modifies this, heap, outstanding.contiguous
      ensures pipeOpen == old(pipeOpen)
      ensures pipeOpen || i != old(Written()) ==>
                && r == Ok && Valid()
                && SC.HandleResponse(old(Abs()), i, outstanding.bitmapSize) == SC.Ok(Abs())
      ensures !pipeOpen && i == old(Written()) ==>
                r == Err(PipeClosed) && pipe == old(pipe) && Written() == i && tracking == resp.range
    {
      hide RangeForIndex, NumBlocks, Block, HoldsExactly, ResponseFor, CoreAt, SC.HandleResponse, SC.DrainCache;
      ghost var k, before := Written(), early;
      ResponseHandled(before, k, i, outstanding.bitmapSize);
      var lastWritten, ok := outstanding.Tail();
      var lastTo := lastWritten.to;
      if !ok {
        lastTo := -1;
      }
      SentBytes(content, i, outstanding.blockSize);
      OffsetInjective(i, k, |content|, outstanding.blockSize);
      if resp.range.from != lastTo + 1 {
        Push(resp, i);
        return Ok;
      }
      r := WriteToPipe(resp, i);
      if r.Err? {
        return r;
      }
      r := DrainCache(resp.range.to + 1);
    }
  }

  /** After `k` blocks the tracked range ends where block `k` starts, and only block `k` starts there. */
  lemma LastTracked(content: seq<Byte>, k: nat, i: nat, tracking: ByteRange, blockSize: int)
    requires blockSize > 0 && i < NumBlocks(|content|, blockSize) && k <= NumBlocks(|content|, blockSize)
    requires tracking == if k == 0 then ByteRange(-1, -1) else RangeForIndex(k - 1, |content|, blockSize)
    ensures tracking.to + 1 == Offset(k, |content|, blockSize)
    ensures tracking.from == -1 <==> k == 0
    ensures Offset(i, |content|, blockSize) == Offset(k, |content|, blockSize) <==> i == k
  {
    if k > 0 {
      SentBytes(content, k - 1, blockSize);
      BlocksAdjoin(k - 1, |content|, blockSize);
    }
    OffsetInjective(i, k, |content|, blockSize);
  }

  lemma OffsetInjective(i: nat, k: nat, contentSize: nat, blockSize: int)
    requires blockSize > 0 && i < NumBlocks(contentSize, blockSize)
    ensures Offset(i, contentSize, blockSize) == Offset(k, contentSize, blockSize) <==> i == k
  {
    IndexInFile(i, contentSize, blockSize);
    if i < k {
      ProductMonotone(i + 1, k, blockSize);
      assert (i + 1) * blockSize == i * blockSize + blockSize;
    } else if k < i {
      ProductMonotone(k + 1, i, blockSize);
      assert (k + 1) * blockSize == k * blockSize + blockSize;
    }
  }

  /** Setting the first clear bit, with none set after it, moves the first clear bit on by one. */
  lemma RunExtends(before: seq<Word>, after: seq<Word>, k: int, f: int, n: int)
    requires 0 <= k < n <= 64 * |before| && after == Put(before, k, true)
    requires forall j | 0 <= j < k :: Bit(before, j)
    requires forall j | k <= j < n :: !Bit(before, j)
    requires 0 <= f <= n && (forall j | 0 <= j < f :: Bit(after, j)) && (f < n ==> !Bit(after, f))
    ensures f == k + 1
    ensures forall j | k + 1 <= j < n :: !Bit(after, j)
  {
    assert k + 1 < n ==> !Bit(after, k + 1);
    assert Bit(after, k);
  }

  /** Block `i` continues where the blocks before it end. */
  lemma SentBytes(content: seq<Byte>, i: nat, blockSize: int)
    requires blockSize > 0 && i < NumBlocks(|content|, blockSize)
    ensures var resp := ResponseFor(content, i, blockSize);
            && resp.range == RangeForIndex(i, |content|, blockSize)
            && resp.range.from == Offset(i, |content|, blockSize) == i * blockSize
            && resp.range.to + 1 == Offset(i + 1, |content|, blockSize)
            && (resp.range.from == 0 <==> i == 0)
            && Block(resp.range.from, |content|, blockSize) == i
            && content[..Offset(i, |content|, blockSize)] + resp.data == content[..Offset(i + 1, |content|, blockSize)]
  {
    BlocksAdjoin(i, |content|, blockSize);
    IndexInFile(i, |content|, blockSize);
    if i > 0 {
      ProductMonotone(1, i, blockSize);
    }
    assert (i + 1) * blockSize == i * blockSize + blockSize;
  }

  /** The bytes sent are the file up to the end of the tracked range, which is the end of the contiguous
      written prefix; once every block is written they are the whole file. */
  lemma PipeIsFilePrefix(d: Downloader)
    requires d.Valid()
    ensures 0 <= d.tracking.to + 1 <= |d.content| && d.pipe == d.content[..d.tracking.to + 1]
    ensures d.tracking.to + 1 == Min(d.Written() * d.outstanding.blockSize, d.outstanding.contentSize)
    ensures d.Written() == d.outstanding.bitmapSize <==> d.pipe == d.content
  {
    var n, bs := d.outstanding.bitmapSize, d.outstanding.blockSize;
    IndexInFile(0, |d.content|, bs);
    LastTracked(d.content, d.Written(), 0, d.tracking, bs);
    IndexInFile(d.Written(), |d.content|, bs);
    assert d.Written() < n ==> |d.pipe| < |d.content|;
    assert d.content[..|d.content|] == d.content;
  }

  // ---------- the protocol and the bytes ----------

  /** The downloader holds what the protocol holds in state `s`. */
  ghost predicate Carries(d: Downloader, c: SP.Config, s: SP.State)
    reads d, d.heap, d.outstanding, d.outstanding.contiguous
  {
    d.Valid() && d.pipeOpen && c.blocks == d.outstanding.bitmapSize && d.Abs() == s.core
  }

  lemma InUpTo(k: nat, i: nat)
    ensures i in SC.UpTo(k) <==> i < k
  {
  }

  /** In every state of every run, the block that a fetcher delivers is one that `HandleResponse` takes, and
      handling it leads to the downloader that carries the next state. */
  lemma DeliveryIsHandled(d: Downloader, c: SP.Config, run: seq<SP.State>, i: nat, w: nat)
    requires SP.IsRun(c, run) && i < |run| && Carries(d, c, run[i]) && SP.Enabled(c, run[i], SP.Deliver(w))
    ensures var b := run[i].fetchers[w].job.block;
            && d.Written() <= b < d.outstanding.bitmapSize && b !in d.early
            && SC.HandleResponse(d.Abs(), b, d.outstanding.bitmapSize)
               == SC.Ok(SP.Apply(c, run[i], SP.Deliver(w)).core)
  {
    hide SC.HandleResponse, SC.UpTo, SP.Places;
    SP.RunInv(c, run, i);
    SP.StreamIsPrefix(c, run, i);
    SP.FetchedBlockIsNew(c, run[i], w);
    InUpTo(d.Written(), run[i].fetchers[w].job.block);
  }

  /** No other step touches what the downloader holds. */
  lemma OthersKeepCarrying(d: Downloader, c: SP.Config, s: SP.State, step: SP.Step)
    requires Carries(d, c, s) && SP.Enabled(c, s, step) && !step.Deliver?
    ensures Carries(d, c, SP.Apply(c, s, step))
  {
  }

  lemma RunGoesOn(c: SP.Config, run: seq<SP.State>, step: SP.Step)
    requires SP.IsRun(c, run) && SP.Enabled(c, run[|run| - 1], step)
    ensures SP.IsRun(c, run + [SP.Apply(c, run[|run| - 1], step)])
  {
    var s' := SP.Apply(c, run[|run| - 1], step);
    var more := run + [s'];
    forall i | 0 <= i < |more| - 1
      ensures SP.Next(c, more[i], more[i + 1])
    {
      if i < |run| - 1 {
        assert SP.Next(c, run[i], run[i + 1]);
      } else {
        assert SP.Next(c, run[i], s');
      }
    }
  }

  /** The delivery of fetcher `w`: the downloader goes on carrying the run, by the step that the protocol takes. */
  method Deliver(d: Downloader, c: SP.Config, resp: Response, ghost run: seq<SP.State>, ghost w: nat)
    returns (r: Result, ghost after: seq<SP.State>)
    requires SP.IsRun(c, run) && Carries(d, c, run[|run| - 1]) && SP.Enabled(c, run[|run| - 1], SP.Deliver(w))
    requires var i := run[|run| - 1].fetchers[w].job.block;
             i < d.outstanding.bitmapSize ==> resp == ResponseFor(d.content, i, d.outstanding.blockSize)
    modifies d, d.heap, d.outstanding.contiguous
    ensures r == Ok && after == run + [SP.Apply(c, run[|run| - 1], SP.Deliver(w))]
    ensures SP.IsRun(c, after) && Carries(d, c, after[|after| - 1])
  {
    assert run != [];
    hide SC.HandleResponse, SP.IsRun, SP.Apply, ResponseFor;
    DeliveryIsHandled(d, c, run, |run| - 1, w);
    RunGoesOn(c, run, SP.Deliver(w));
    after := run + [SP.Apply(c, run[|run| - 1], SP.Deliver(w))];
    r := d.HandleResponse(resp, run[|run| - 1].fetchers[w].job.block);
  }

  /** In every state of every run the pipe has received a prefix of the file, as long as the stream of blocks;
      when the run ends without an error, it has received the file, and nothing is held back. */
  lemma RunSendsFile(d: Downloader, c: SP.Config, run: seq<SP.State>, i: nat)
    requires SP.IsRun(c, run) && i < |run| && Carries(d, c, run[i]) && c.concurrency > 0
    ensures d.pipe == d.content[..Offset(|run[i].core.stream|, |d.content|, d.outstanding.blockSize)]
    ensures SP.ReturnsNil(run[i]) ==> d.pipe == d.content && d.early == {}
  {
    hide SC.UpTo, SP.IsRun;
    PipeIsFilePrefix(d);
    if SP.ReturnsNil(run[i]) {
      SP.NilErrorMeansComplete(c, run, i);
      assert |run[i].core.stream| == c.blocks;
    }
  }
}
