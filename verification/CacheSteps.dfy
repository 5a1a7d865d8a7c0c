/** The download cache on disk: the steps of writing a block, and what a crash between any two of them
    leaves behind.  The data file is given block by block. */
module CacheSteps {
  import opened Common

  type Block = seq<Byte>

  /** The call of `WriteAt` in progress, by what it has done. */
  datatype Stage =
    | Ready
    | Written(block: nat, data: Block)
    | Synced(block: nat, data: Block)
    | Marked

  /** `data`: the blocks of the data file as the program reads it.  `disk`: for every byte, the values that a
      crash may leave.  `bits`: the index in memory.  `saved`: the versions of the index that a crash may
      leave, since the index file is written but not synced.  `last`: the bytes of the last completed write of
      a block.  `touched`: blocks overwritten, in part or in whole, since their last completed write.
      `synced`: blocks that have been written and synced in full at some time. */
  datatype State = State(
    data: seq<Block>,
    disk: seq<seq<set<Byte>>>,
    bits: set<nat>,
    saved: set<set<nat>>,
    stage: Stage,
    last: map<nat, Block>,
    touched: set<nat>,
    synced: set<nat>)

  datatype Step =
    | PutBytes(block: nat, bytes: Block, n: nat, ok: bool) // `n` bytes get written; `ok` unless an error came back
    | Sync(ok: bool)
    | SetBit
    | Save(ok: bool)
    | CrashAndReload(found: seq<Block>, index: set<nat>)

  /** Block `was` with its first `n` bytes overwritten. */
  function Overwritten(was: Block, bytes: Block, n: nat): (r: Block)
    requires n <= |bytes| == |was|
    ensures |r| == |was| && forall p :: 0 <= p < |r| ==> r[p] == if p < n then bytes[p] else was[p]
  {
    bytes[..n] + was[n..]
  }

  /** What may be on disk once the first `n` bytes are on their way to it. */
  function MayHold(before: seq<set<Byte>>, bytes: Block, n: nat): (r: seq<set<Byte>>)
    requires n <= |bytes| == |before|
    ensures |r| == |before| && forall p :: 0 <= p < |r| ==> r[p] == if p < n then before[p] + {bytes[p]} else before[p]
  {
    seq(|before|, p requires 0 <= p < |before| => if p < n then before[p] + {bytes[p]} else before[p])
  }

  function Only(block: Block): (r: seq<set<Byte>>)
    ensures |r| == |block| && forall p :: 0 <= p < |r| ==> r[p] == {block[p]}
  {
    seq(|block|, p requires 0 <= p < |block| => {block[p]})
  }

  function AllOnly(data: seq<Block>): (r: seq<seq<set<Byte>>>)
    ensures |r| == |data| && forall i :: 0 <= i < |r| ==> r[i] == Only(data[i])
  {
    seq(|data|, i requires 0 <= i < |data| => Only(data[i]))
  }

  /** `block` is one of the blocks that `disk` may hold. */
  ghost predicate Possible(block: Block, disk: seq<set<Byte>>) {
    |block| == |disk| && forall p :: 0 <= p < |block| ==> block[p] in disk[p]
  }

  /** What a crash in state `s` can leave: the data file and the index. */
  ghost predicate Leaves(s: State, found: seq<Block>, index: set<nat>) {
    && |found| == |s.disk| && (forall i :: 0 <= i < |found| ==> Possible(found[i], s.disk[i]))
    && index in s.saved
  }

  /** The files fit: as many blocks as the content needs, each of its size. */
  ghost predicate Shaped(sizes: seq<nat>, s: State) {
    && |s.data| == |s.disk| == |sizes|
    && (forall i :: 0 <= i < |sizes| ==> |s.data[i]| == |s.disk[i]| == sizes[i])
    && (forall v | v in s.saved :: forall i | i in v :: i < |sizes|)
    && (s.stage.Written? || s.stage.Synced? ==> s.stage.block < |sizes|)
  }

  ghost predicate Enabled(sizes: seq<nat>, s: State, step: Step) {
    && Shaped(sizes, s)
    && match step
       case PutBytes(i, bytes, n, ok) => s.stage == Ready && i < |sizes| && n <= |bytes| == sizes[i]
       case Sync(ok) => s.stage.Written?
       case SetBit => s.stage.Synced?
       case Save(ok) => s.stage == Marked
       case CrashAndReload(found, index) => Leaves(s, found, index)
  }

  ghost function Apply(sizes: seq<nat>, s: State, step: Step): State
    requires Enabled(sizes, s, step)
  {
    match step
    case PutBytes(i, bytes, n, ok) =>
      s.(data := s.data[i := Overwritten(s.data[i], bytes, n)],
         disk := s.disk[i := MayHold(s.disk[i], bytes, n)],
         touched := s.touched + {i},
         stage := if ok && n == |bytes| then Written(i, bytes) else Ready)
    case Sync(ok) =>
      if ok then
        s.(disk := AllOnly(s.data), stage := Synced(s.stage.block, s.stage.data), synced := s.synced + {s.stage.block})
      else s.(stage := Ready)
    case SetBit =>
      var i := s.stage.block;
      s.(bits := s.bits + {i}, last := s.last[i := s.stage.data], touched := s.touched - {i}, stage := Marked)
    case Save(ok) => // an index write that reports an error may have reached the disk all the same
      s.(saved := s.saved + {s.bits}, stage := Ready)
    case CrashAndReload(found, index) =>
      State(found, AllOnly(found), index, {index}, Ready, s.last, s.touched, s.synced)
  }

  ghost predicate Init(sizes: seq<nat>, s: State) {
    && Shaped(sizes, s) && s.disk == AllOnly(s.data)
    && s.bits == {} && s.saved == {{}} && s.stage == Ready && s.last == map[] && s.touched == {} && s.synced == {}
  }

  /** A run over any number of calls, failures, crashes and reloads. */
  ghost predicate IsRun(sizes: seq<nat>, run: seq<State>, steps: seq<Step>) {
    && |run| == |steps| + 1 && Init(sizes, run[0])
    && forall k | 0 <= k < |steps| :: Enabled(sizes, run[k], steps[k]) && run[k + 1] == Apply(sizes, run[k], steps[k])
  }

  // ---------- the invariant ----------

  /** The block being written has its bytes in place. */
  ghost predicate InPlace(sizes: seq<nat>, s: State)
    requires Shaped(sizes, s)
  {
    s.stage.Written? || s.stage.Synced? ==>
      var i := s.stage.block;
      && i in s.touched && s.data[i] == s.stage.data
      && (s.stage.Synced? ==> i in s.synced && s.disk[i] == Only(s.data[i]))
  }

  /** A marked block that nobody has started to overwrite is on disk exactly as it was last written. */
  ghost predicate Settled(sizes: seq<nat>, s: State, i: nat)
    requires Shaped(sizes, s)
  {
    i in s.bits && i !in s.touched ==>
      i < |sizes| && i in s.last && s.data[i] == s.last[i] && s.disk[i] == Only(s.data[i])
  }

  ghost predicate Inv(sizes: seq<nat>, s: State) {
    && Shaped(sizes, s)
    && (forall i :: 0 <= i < |sizes| ==> Possible(s.data[i], s.disk[i]))
    && (forall v | v in s.saved :: v <= s.bits)
    && s.bits <= s.synced && (forall i | i in s.bits :: i < |sizes|)
    && InPlace(sizes, s)
    && forall i: nat :: Settled(sizes, s, i)
  }

  lemma StepInv(sizes: seq<nat>, s: State, step: Step)
    requires Inv(sizes, s) && Enabled(sizes, s, step)
    ensures Inv(sizes, Apply(sizes, s, step))
  {
    var s' := Apply(sizes, s, step);
    forall i: nat
      ensures Settled(sizes, s', i)
    {
      assert Settled(sizes, s, i);
    }
  }

  lemma InitInv(sizes: seq<nat>, s: State)
    requires Init(sizes, s)
    ensures Inv(sizes, s)
  {
  }

  lemma {:induction false} RunInv(sizes: seq<nat>, run: seq<State>, steps: seq<Step>, k: nat)
    requires IsRun(sizes, run, steps) && k < |run|
    ensures Inv(sizes, run[k])
    decreases k
  {
    if k == 0 {
      InitInv(sizes, run[0]);
    } else {
      RunInv(sizes, run, steps, k - 1);
      StepInv(sizes, run[k - 1], steps[k - 1]);
      assert run[k - 1 + 1] == Apply(sizes, run[k - 1], steps[k - 1]);
    }
  }

  lemma PossibleOnly(found: Block, block: Block)
    requires Possible(found, Only(block))
    ensures found == block
  {
    forall p | 0 <= p < |found|
      ensures found[p] == block[p]
    {
      assert found[p] in Only(block)[p];
    }
  }

  lemma RewritingSame(block: Block, n: nat)
    ensures n <= |block| ==> MayHold(Only(block), block, n) == Only(block)
  {
    if n <= |block| {
      forall p | 0 <= p < |block|
        ensures MayHold(Only(block), block, n)[p] == Only(block)[p]
      {
        assert {block[p]} + {block[p]} == {block[p]};
      }
    }
  }

  /** At every crash point of every run, the index that is found marks only blocks that were written and
      synced in full, and each of them that was not being overwritten holds its last completed write. */
  lemma CrashKeepsCompletedWrites(sizes: seq<nat>, run: seq<State>, steps: seq<Step>, k: nat,
                                  found: seq<Block>, index: set<nat>)
    requires IsRun(sizes, run, steps) && k < |run|
    requires Leaves(run[k], found, index)
    ensures index <= run[k].synced && index <= run[k].bits
    ensures forall i | i in index && i !in run[k].touched ::
              i < |found| && i in run[k].last && found[i] == run[k].last[i]
  {
    RunInv(sizes, run, steps, k);
    var s := run[k];
    forall i | i in index && i !in s.touched
      ensures i < |found| && i in s.last && found[i] == s.last[i]
    {
      assert Settled(sizes, s, i);
      PossibleOnly(found[i], s.last[i]);
    }
  }

  /** A failing sync promises nothing: a crash can leave what it could leave before, and nothing is marked. */
  lemma FailedSyncPromisesNothing(sizes: seq<nat>, s: State, found: seq<Block>, index: set<nat>)
    requires Inv(sizes, s) && Enabled(sizes, s, Sync(false))
    ensures var s' := Apply(sizes, s, Sync(false));
            && (Leaves(s', found, index) <==> Leaves(s, found, index))
            && s'.bits == s.bits && s'.synced == s.synced && s'.stage == Ready
  {
  }

  /** Without a crash, a marked block that was not touched since reads as it was last written. */
  lemma ReadsLastWrite(sizes: seq<nat>, run: seq<State>, steps: seq<Step>, k: nat, i: nat)
    requires IsRun(sizes, run, steps) && k < |run|
    requires i in run[k].bits && i !in run[k].touched
    ensures i < |run[k].data| && i in run[k].last && run[k].data[i] == run[k].last[i]
  {
    RunInv(sizes, run, steps, k);
    assert Settled(sizes, run[k], i);
  }

  // ---------- one file, downloaded in any number of attempts ----------

  /** Every write carries the bytes of `file`. */
  ghost predicate WritesFile(file: seq<Block>, steps: seq<Step>) {
    forall k | 0 <= k < |steps| && steps[k].PutBytes? :: steps[k].block < |file| && steps[k].bytes == file[steps[k].block]
  }

  ghost predicate HoldsFile(sizes: seq<nat>, file: seq<Block>, s: State) {
    && Shaped(sizes, s) && |file| == |sizes|
    && (s.stage.Written? || s.stage.Synced? ==> s.stage.data == file[s.stage.block])
    && forall i: nat | i in s.bits :: i < |file| && s.disk[i] == Only(file[i])
  }

  lemma StepHoldsFile(sizes: seq<nat>, file: seq<Block>, s: State, step: Step)
    requires Inv(sizes, s) && HoldsFile(sizes, file, s) && Enabled(sizes, s, step)
    requires step.PutBytes? ==> step.block < |file| && step.bytes == file[step.block]
    ensures HoldsFile(sizes, file, Apply(sizes, s, step))
  {
    StepInv(sizes, s, step);
    var s' := Apply(sizes, s, step);
    forall i: nat | i in s'.bits
      ensures i < |file| && s'.disk[i] == Only(file[i])
    {
      match step
      case PutBytes(j, bytes, n, ok) =>
        RewritingSame(file[i], n);
      case Sync(ok) =>
        PossibleOnly(s.data[i], file[i]);
      case SetBit =>
      case Save(ok) =>
      case CrashAndReload(found, index) =>
        assert Possible(found[i], s.disk[i]);
        PossibleOnly(found[i], file[i]);
    }
  }

  lemma {:induction false} RunHoldsFile(sizes: seq<nat>, file: seq<Block>, run: seq<State>, steps: seq<Step>, k: nat)
    requires IsRun(sizes, run, steps) && k < |run|
    requires |file| == |sizes| && WritesFile(file, steps)
    ensures HoldsFile(sizes, file, run[k])
    decreases k
  {
    if k > 0 {
      RunHoldsFile(sizes, file, run, steps, k - 1);
      RunInv(sizes, run, steps, k - 1);
      StepHoldsFile(sizes, file, run[k - 1], steps[k - 1]);
      assert run[k - 1 + 1] == Apply(sizes, run[k - 1], steps[k - 1]);
    }
  }

  /** When one file is downloaded, with failures and crashes at any point, every block that the index marks
      holds the bytes of the file: while the program runs, and after any crash. */
  lemma DownloadIsCrashSafe(sizes: seq<nat>, file: seq<Block>, run: seq<State>, steps: seq<Step>, k: nat,
                            found: seq<Block>, index: set<nat>)
    requires IsRun(sizes, run, steps) && k < |run|
    requires |file| == |sizes| && WritesFile(file, steps)
    ensures forall i | i in run[k].bits :: i < |file| == |run[k].data| && run[k].data[i] == file[i]
    ensures Leaves(run[k], found, index) ==> forall i | i in index :: i < |file| == |found| && found[i] == file[i]
  {
    RunInv(sizes, run, steps, k);
    RunHoldsFile(sizes, file, run, steps, k);
    var s := run[k];
    forall i | i in s.bits
      ensures i < |file| == |s.data| && s.data[i] == file[i]
      ensures Leaves(s, found, index) ==> found[i] == file[i]
    {
      PossibleOnly(s.data[i], file[i]);
      if Leaves(s, found, index) {
        PossibleOnly(found[i], file[i]);
      }
    }
  }

  // ---------- overwriting a cached block ----------

  /** The blocks differ in two bytes or more. */
  ghost predicate DifferTwice(was: Block, now: Block)
    requires |was| == |now|
  {
    exists p, q :: 0 <= p < q < |was| && was[p] != now[p] && was[q] != now[q]
  }

  /** An untouched block that is marked and about to be overwritten in full. */
  ghost predicate Overwrites(sizes: seq<nat>, s: State, i: nat, bytes: Block, index: set<nat>) {
    && Inv(sizes, s) && Enabled(sizes, s, PutBytes(i, bytes, |bytes|, true))
    && i in s.bits && i !in s.touched && index in s.saved && i in index
  }

  /** A crash while a block is overwritten can leave any mixture of its old and its new bytes, and nothing else,
      with the block still marked. */
  lemma CrashLeavesMixture(sizes: seq<nat>, s: State, i: nat, bytes: Block, index: set<nat>, block: Block)
    requires Overwrites(sizes, s, i, bytes, index)
    ensures i < |sizes| && i in s.last && |s.last[i]| == |bytes|
    ensures var s' := Apply(sizes, s, PutBytes(i, bytes, |bytes|, true));
            |s'.disk| == |sizes|
            && ((exists found :: Leaves(s', found, index) && found[i] == block)
                <==> |block| == |bytes| && forall p | 0 <= p < |bytes| :: block[p] == s.last[i][p] || block[p] == bytes[p])
  {
    var s' := Apply(sizes, s, PutBytes(i, bytes, |bytes|, true));
    assert Settled(sizes, s, i);
    var was := s.last[i];
    assert s'.disk[i] == MayHold(Only(was), bytes, |bytes|);
    assert forall p | 0 <= p < |bytes| :: s'.disk[i][p] == {was[p]} + {bytes[p]};
    if |block| == |bytes| && forall p | 0 <= p < |bytes| :: block[p] == was[p] || block[p] == bytes[p] {
      var found := s.data[i := block];
      assert Possible(block, s'.disk[i]);
      assert Leaves(s', found, index) && found[i] == block;
    }
    if found :| Leaves(s', found, index) && found[i] == block {
      assert Possible(found[i], s'.disk[i]);
    }
  }

  /** Two different bytes are enough for a block that is neither the old one nor the new one. */
  lemma TornOverwrite(sizes: seq<nat>, s: State, i: nat, bytes: Block, index: set<nat>)
    requires Overwrites(sizes, s, i, bytes, index)
    requires i in s.last && |s.last[i]| == |bytes| && DifferTwice(s.last[i], bytes)
    ensures var s' := Apply(sizes, s, PutBytes(i, bytes, |bytes|, true));
            |s'.disk| == |sizes| && exists found :: Leaves(s', found, index) && found[i] != s.last[i] && found[i] != bytes
  {
    hide Leaves, Inv, Enabled, Apply;
    var p, q :| 0 <= p < q < |bytes| && s.last[i][p] != bytes[p] && s.last[i][q] != bytes[q];
    var torn := s.last[i][p := bytes[p]];
    CrashLeavesMixture(sizes, s, i, bytes, index, torn);
  }

  /** A crash while a cached block is overwritten leaves the old or the new block in every case if and only if
      they differ in one byte at most. */
  lemma OverwriteIsSafeIff(sizes: seq<nat>, s: State, i: nat, bytes: Block, index: set<nat>)
    requires Overwrites(sizes, s, i, bytes, index)
    ensures i in s.last && |s.last[i]| == |bytes|
    ensures var s' := Apply(sizes, s, PutBytes(i, bytes, |bytes|, true));
            |s'.disk| == |sizes|
            && ((forall found | Leaves(s', found, index) :: found[i] == s.last[i] || found[i] == bytes)
                <==> !DifferTwice(s.last[i], bytes))
  {
    hide Inv, Enabled, Apply, Possible;
    CrashLeavesMixture(sizes, s, i, bytes, index, bytes);
    if DifferTwice(s.last[i], bytes) {
      TornOverwrite(sizes, s, i, bytes, index);
    } else {
      var s' := Apply(sizes, s, PutBytes(i, bytes, |bytes|, true));
      forall found | Leaves(s', found, index)
        ensures found[i] == s.last[i] || found[i] == bytes
      {
        CrashLeavesMixture(sizes, s, i, bytes, index, found[i]);
        MixtureOfTwo(s.last[i], bytes, found[i]);
      }
    }
  }

  lemma MixtureOfTwo(was: Block, now: Block, mixed: Block)
    requires |was| == |now| == |mixed| && !DifferTwice(was, now)
    requires forall p | 0 <= p < |was| :: mixed[p] == was[p] || mixed[p] == now[p]
    ensures mixed == was || mixed == now
  {
    if mixed != was {
      var p :| 0 <= p < |was| && mixed[p] != was[p];
      forall q | 0 <= q < |was|
        ensures mixed[q] == now[q]
      {
      }
    }
  }

  /** The old block is certain to be found again if and only if the new bytes are the old ones. */
  lemma OverwriteIsUnseenIff(sizes: seq<nat>, s: State, i: nat, bytes: Block, index: set<nat>)
    requires Overwrites(sizes, s, i, bytes, index)
    ensures i in s.last && |s.last[i]| == |bytes|
    ensures var s' := Apply(sizes, s, PutBytes(i, bytes, |bytes|, true));
            |s'.disk| == |sizes|
            && ((forall found | Leaves(s', found, index) :: found[i] == s.last[i]) <==> bytes == s.last[i])
  {
    hide Inv, Enabled, Apply, Possible;
    CrashLeavesMixture(sizes, s, i, bytes, index, bytes);
    var s' := Apply(sizes, s, PutBytes(i, bytes, |bytes|, true));
    forall found | Leaves(s', found, index) && bytes == s.last[i]
      ensures found[i] == bytes
    {
      CrashLeavesMixture(sizes, s, i, bytes, index, found[i]);
    }
  }

  /** The steps that cache the block [1, 2], and are caught by a crash while overwriting it with [3, 4]. */
  function TornSteps(): seq<Step> {
    [PutBytes(0, [1, 2], 2, true), Sync(true), SetBit, Save(true), PutBytes(0, [3, 4], 2, true),
     CrashAndReload([[3, 2]], {0})]
  }

  ghost function Cached(data: Block, disk: seq<set<Byte>>, stage: Stage, bits: set<nat>, saved: set<set<nat>>,
                        touched: set<nat>): State {
    State([data], [disk], bits, saved, stage, if bits == {} then map[] else map[0 := [1, 2]], touched, {0})
  }

  /** The states between those steps. */
  ghost function TornRun(): seq<State> {
    [State([[0, 0]], AllOnly([[0, 0]]), {}, {{}}, Ready, map[], {}, {}),
     State([[1, 2]], [[{0, 1}, {0, 2}]], {}, {{}}, Written(0, [1, 2]), map[], {0}, {}),
     Cached([1, 2], [{1}, {2}], Synced(0, [1, 2]), {}, {{}}, {0}),
     Cached([1, 2], [{1}, {2}], Marked, {0}, {{}}, {}),
     Cached([1, 2], [{1}, {2}], Ready, {0}, {{}, {0}}, {}),
     Cached([3, 4], [{1, 3}, {2, 4}], Written(0, [3, 4]), {0}, {{}, {0}}, {0}),
     Cached([3, 2], [{3}, {2}], Ready, {0}, {{0}}, {0})]
  }

  /** A run of the program that ends with a block marked as cached that nobody ever wrote. */
  lemma TornRunIsReachable()
    ensures IsRun([2], TornRun(), TornSteps())
    ensures var s := TornRun()[6];
            0 in s.bits && 0 in s.touched && s.last[0] == [1, 2] && s.data[0] == [3, 2]
  {
    var run, steps := TornRun(), TornSteps();
    forall k | 0 <= k < 6
      ensures Enabled([2], run[k], steps[k]) && run[k + 1] == Apply([2], run[k], steps[k])
    {
      TornStep(k);
    }
  }

  lemma TwoBytes(was: Block, now: Block)
    requires |was| == |now| == 2
    ensures Only(was) == [{was[0]}, {was[1]}]
    ensures MayHold(Only(was), now, 2) == [{was[0], now[0]}, {was[1], now[1]}] && Overwritten(was, now, 2) == now
  {
    assert {was[0]} + {now[0]} == {was[0], now[0]} && {was[1]} + {now[1]} == {was[1], now[1]};
  }

  lemma TornStep(k: nat)
    requires k < 6
    ensures Enabled([2], TornRun()[k], TornSteps()[k])
    ensures TornRun()[k + 1] == Apply([2], TornRun()[k], TornSteps()[k])
  {
    var s, step := TornRun()[k], TornSteps()[k];
    assert Shaped([2], s);
    if k == 0 {
      TwoBytes([0, 0], [1, 2]);
      assert s.disk[0] == Only([0, 0]);
      assert Apply([2], s, step).disk == [[{0, 1}, {0, 2}]] && Apply([2], s, step).data == [[1, 2]];
    } else if k == 1 {
      TwoBytes([1, 2], [1, 2]);
      assert Apply([2], s, step).disk == [[{1}, {2}]];
    } else if k == 4 {
      TwoBytes([1, 2], [3, 4]);
      assert Apply([2], s, step).disk == [[{1, 3}, {2, 4}]] && Apply([2], s, step).data == [[3, 4]];
    } else if k == 5 {
      TwoBytes([3, 2], [3, 2]);
      assert Possible([3, 2], s.disk[0]);
      assert Apply([2], s, step).disk == [[{3}, {2}]];
    }
  }
}
