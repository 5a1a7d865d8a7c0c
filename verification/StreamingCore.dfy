/** How the streaming downloader puts blocks that arrive in any order back into one stream.

    Blocks stand for the byte ranges that carry them.  The functions are the bodies that run under the
    downloader's mutex, with the errors they can return. */
module StreamingCore {

  /** `heap`: responses that arrived too early.  `bits`: blocks marked as written.  `tracking`: the last block
      written, -1 before the first.  `stream`: the blocks sent to the pipe, in order. */
  datatype Core = Core(heap: set<nat>, bits: set<nat>, tracking: int, stream: seq<nat>)

  datatype Outcome = Ok(core: Core) | OutOfOrder

  const EMPTY := Core({}, {}, -1, [])

  /** The first block from `i` on that is not in `bits`; `n` when there is none. */
  function FirstClear(bits: set<nat>, i: nat, n: nat): (r: nat)
    requires i <= n
    ensures i <= r <= n && (r < n ==> r !in bits)
    ensures forall j | i <= j < r :: j in bits
    decreases n - i
  {
    if i == n || i !in bits then i else FirstClear(bits, i + 1, n)
  }

  /** The first block from `i` on that is in `bits`; `n` when there is none. */
  function FirstSet(bits: set<nat>, i: nat, n: nat): (r: nat)
    requires i <= n
    ensures i <= r <= n && (r < n ==> r in bits)
    ensures forall j | i <= j < r :: j !in bits
    decreases n - i
  {
    if i == n || i in bits then i else FirstSet(bits, i + 1, n)
  }

  lemma {:induction false} LeastExists(s: set<nat>) returns (m: nat)
    requires s != {}
    ensures m in s && forall x | x in s :: m <= x
    decreases s
  {
    var y: nat :| y in s;
    m := y;
    var rest := s - {y};
    if rest != {} {
      var other := LeastExists(rest);
      m := if other < y then other else y;
    }
    assert forall x | x in s :: x == y || x in rest;
  }

  ghost function Least(s: set<nat>): (m: nat)
    requires s != {}
    ensures m in s && forall x | x in s :: m <= x
  {
    assert exists m :: m in s && forall x | x in s :: m <= x by {
      var m := LeastExists(s);
    }
    var m :| m in s && forall x | x in s :: m <= x;
    m
  }

  /** Sends a block to the pipe, unless it is not the one that comes next. */
  function WriteToPipe(c: Core, i: nat): Outcome {
    if c.tracking == -1 && i != 0 then OutOfOrder
    else if i != c.tracking + 1 then OutOfOrder
    else Ok(c.(tracking := i, stream := c.stream + [i], bits := c.bits + {i}))
  }

  /** Writes the early responses for as long as the least of them is the next one expected. */
  ghost function DrainCache(c: Core, next: nat): Outcome
    decreases c.heap
  {
    if c.heap == {} then Ok(c)
    else
      var head := Least(c.heap);
      if next == head then
        match WriteToPipe(c.(heap := c.heap - {head}), head)
        case OutOfOrder => OutOfOrder
        case Ok(written) => DrainCache(written, head + 1)
      else Ok(c)
  }

  /** A response arrives: it is written if it extends the contiguous prefix, and kept for later otherwise. */
  ghost function HandleResponse(c: Core, i: nat, n: nat): Outcome {
    if i != FirstClear(c.bits, 0, n) then Ok(c.(heap := c.heap + {i}))
    else
      match WriteToPipe(c, i)
      case OutOfOrder => OutOfOrder
      case Ok(written) => DrainCache(written, i + 1)
  }

  // ---------- order ----------

  /** The first `k` blocks. */
  ghost function UpTo(k: nat): (s: set<nat>)
    ensures forall i :: i in s <==> 0 <= i < k
  {
    if k == 0 then {} else UpTo(k - 1) + {k - 1}
  }

  /** The stream is the blocks from 0 on; it is what is marked, and what `tracking` says. */
  ghost predicate Prefix(c: Core) {
    && (forall i | 0 <= i < |c.stream| :: c.stream[i] == i)
    && c.bits == UpTo(|c.stream|)
    && c.tracking == |c.stream| - 1
    && c.heap !! c.bits
  }

  /** Moreover, the block that the stream waits for is not held back. */
  ghost predicate InOrder(c: Core) {
    Prefix(c) && |c.stream| !in c.heap
  }

  lemma WriteKeepsPrefix(c: Core, i: nat)
    requires Prefix(c) && i == |c.stream| && i !in c.heap
    ensures WriteToPipe(c, i).Ok? && Prefix(WriteToPipe(c, i).core)
    ensures var w := WriteToPipe(c, i).core; w.heap == c.heap && w.bits == c.bits + {i} && |w.stream| == i + 1
  {
  }

  /** Draining never meets an out-of-order block, and ends with the awaited block not held back. */
  lemma {:induction false} DrainInOrder(c: Core)
    requires Prefix(c)
    ensures var r := DrainCache(c, |c.stream|);
            && r.Ok? && InOrder(r.core)
            && r.core.heap + r.core.bits == c.heap + c.bits
            && c.bits <= r.core.bits
    decreases c.heap
  {
    if c.heap != {} {
      var head := Least(c.heap);
      if head == |c.stream| {
        var popped := c.(heap := c.heap - {head});
        WriteKeepsPrefix(popped, head);
        DrainInOrder(WriteToPipe(popped, head).core);
      } else {
        assert |c.stream| !in c.bits;
      }
    }
  }

  /** A response for a block that is neither written nor held keeps the order, and no block is lost. */
  lemma HandleInOrder(c: Core, i: nat, n: nat)
    requires InOrder(c) && |c.stream| <= n
    requires i < n && i !in c.heap && i !in c.bits
    ensures var r := HandleResponse(c, i, n);
            && r.Ok? && InOrder(r.core)
            && r.core.heap + r.core.bits == c.heap + c.bits + {i}
            && c.bits <= r.core.bits && |c.stream| <= |r.core.stream|
  {
    var t := FirstClear(c.bits, 0, n);
    assert |c.stream| !in c.bits && (t < n ==> t !in c.bits);
    if i == t {
      WriteKeepsPrefix(c, i);
      DrainInOrder(WriteToPipe(c, i).core);
      assert i in c.bits + {i};
    }
    UpToMonotone(|c.stream|, |HandleResponse(c, i, n).core.stream|);
  }

  lemma UpToMonotone(j: nat, k: nat)
    ensures UpTo(j) <= UpTo(k) <==> j <= k
  {
    if j > k {
      assert k in UpTo(j) && k !in UpTo(k);
    }
  }
}
