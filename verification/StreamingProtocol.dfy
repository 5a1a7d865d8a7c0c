/** The streaming downloader as a state machine: one generator of requests, a bounded request channel, and
    several fetchers, interleaved in any order. */
module StreamingProtocol {
  import opened Common
  import opened StreamingCore

  /** `blocks` of one file, fetched by `concurrency` fetchers; with `wait`, failed blocks are requested again. */
  datatype Config = Config(blocks: nat, concurrency: nat, wait: bool)

  /** Where the generator is: sending the initial requests, waiting for failures or completion, requesting
      failed blocks again, or returned, with the request channel closed. */
  datatype Phase = Priming(next: nat) | Waiting | Reissuing(next: nat) | Closed

  datatype Job = Idle | Fetching(block: nat) | Exited

  /** `errs`: the fetcher has collected an error that it will return. */
  datatype Fetcher = Fetcher(job: Job, errs: bool)

  /** `held`: the request that the generator is about to send.  `failed`: blocks given up on because failures
      are not retried.  `lost`: blocks dropped by goroutines that returned early.  `runErr`: some goroutine
      has returned an error. */
  datatype State = State(
    core: Core,
    phase: Phase,
    held: Option<nat>,
    queue: seq<nat>,
    fetchers: seq<Fetcher>,
    retry: set<nat>,
    failed: set<nat>,
    lost: set<nat>,
    cancelled: bool,
    runErr: bool)

  ghost predicate Init(c: Config, s: State) {
    && s.core == EMPTY && s.phase == Priming(0) && s.held == None && s.queue == []
    && |s.fetchers| == c.concurrency
    && (forall w | 0 <= w < |s.fetchers| :: s.fetchers[w] == Fetcher(Idle, false))
    && s.retry == {} && s.failed == {} && s.lost == {} && !s.cancelled && !s.runErr
  }

  /** The atomic steps; `w` is the fetcher that takes the step. */
  datatype Step =
    | PrimeNext           // the generator looks for the next block that is not written
    | SendRequest         // it sends the request into the channel
    | StartReissue        // it is told of failed blocks
    | ReissueNext         // it takes the next failed block
    | ReissueAborts       // it notices the cancellation, drops the request it holds, and goes back to waiting
    | Finish              // it finds the whole file written
    | TakeRequest(w: nat) // a fetcher receives a request
    | Deliver(w: nat)     // its fetch succeeds, and the response is handled under the mutex
    | Fail(w: nat)        // its fetch fails
    | FetcherReturns(w: nat)
    | Cancel              // the context is cancelled from outside
    | GeneratorAborts     // goroutines that notice the cancellation return its error
    | FetcherAborts(w: nat)

  function SetFetcher(s: State, w: nat, job: Job): seq<Fetcher>
    requires w < |s.fetchers|
  {
    s.fetchers[w := s.fetchers[w].(job := job)]
  }

  /** The generator has not yet asked for block `b`. */
  ghost predicate Unrequested(c: Config, s: State, b: nat) {
    s.phase.Priming? && s.phase.next <= b < c.blocks
  }

  ghost function HeldOrUnrequested(c: Config, s: State): set<nat> {
    set b | b in UpTo(c.blocks) + (if s.held.Some? then {s.held.value} else {}) && (s.held == Some(b) || Unrequested(c, s, b))
  }

  ghost predicate Enabled(c: Config, s: State, step: Step) {
    match step
    case PrimeNext => s.phase.Priming? && s.phase.next <= c.blocks && s.held == None
    case SendRequest => s.held.Some? && !s.phase.Closed? && |s.queue| < c.concurrency
    case StartReissue => s.phase == Waiting
    case ReissueNext => s.phase.Reissuing? && s.phase.next <= c.blocks && s.held == None
    case Finish => s.phase == Waiting && FirstClear(s.core.bits, 0, c.blocks) == c.blocks
    case TakeRequest(w) => w < |s.fetchers| && s.fetchers[w].job == Idle && s.queue != []
    case Deliver(w) => w < |s.fetchers| && s.fetchers[w].job.Fetching?
    case Fail(w) => w < |s.fetchers| && s.fetchers[w].job.Fetching?
    case FetcherReturns(w) => w < |s.fetchers| && s.fetchers[w].job == Idle && s.phase == Closed && s.queue == []
    case Cancel => true
    case ReissueAborts => s.cancelled && s.phase.Reissuing? && s.held.Some?
    case GeneratorAborts => s.cancelled && (s.phase.Priming? || s.phase == Waiting)
    case FetcherAborts(w) => w < |s.fetchers| && s.cancelled && s.fetchers[w].job != Exited
  }

  /** The block at which a reissue starts scanning: the one that was written last. */
  function ReissueFrom(core: Core): nat {
    if core.tracking < 0 then 0 else core.tracking
  }

  ghost function Apply(c: Config, s: State, step: Step): State
    requires Enabled(c, s, step)
  {
    match step
    case PrimeNext =>
      var i := FirstClear(s.core.bits, s.phase.next, c.blocks);
      if i == c.blocks then s.(phase := if c.wait then Waiting else Closed)
      else s.(phase := Priming(i + 1), held := Some(i))
    case SendRequest => s.(queue := s.queue + [s.held.value], held := None)
    case StartReissue => s.(phase := Reissuing(ReissueFrom(s.core)))
    case ReissueNext =>
      var i := FirstSet(s.retry, s.phase.next, c.blocks);
      if i == c.blocks then s.(phase := Waiting)
      else s.(phase := Reissuing(i + 1), held := Some(i), retry := s.retry - {i})
    case ReissueAborts => s.(phase := Waiting, held := None, lost := s.lost + {s.held.value})
    case Finish => s.(phase := Closed)
    case TakeRequest(w) => s.(queue := s.queue[1..], fetchers := SetFetcher(s, w, Fetching(s.queue[0])))
    case Deliver(w) =>
      var i := s.fetchers[w].job.block;
      (match HandleResponse(s.core, i, c.blocks)
       case Ok(core) => s.(core := core, fetchers := SetFetcher(s, w, Idle))
       case OutOfOrder => // an internal error ends the fetcher
         s.(fetchers := SetFetcher(s, w, Exited), lost := s.lost + {i}, cancelled := true, runErr := true))
    case Fail(w) =>
      var i := s.fetchers[w].job.block;
      if c.wait then s.(retry := s.retry + {i}, fetchers := SetFetcher(s, w, Idle))
      else s.(failed := s.failed + {i}, fetchers := s.fetchers[w := Fetcher(Idle, true)])
    case FetcherReturns(w) =>
      s.(fetchers := SetFetcher(s, w, Exited),
         cancelled := s.cancelled || s.fetchers[w].errs,
         runErr := s.runErr || s.fetchers[w].errs)
    case Cancel => s.(cancelled := true)
    case GeneratorAborts =>
      s.(phase := Closed, held := None, lost := s.lost + HeldOrUnrequested(c, s), runErr := true)
    case FetcherAborts(w) =>
      var job := s.fetchers[w].job;
      s.(fetchers := SetFetcher(s, w, Exited), runErr := true,
         lost := if job.Fetching? then s.lost + {job.block} else s.lost)
  }

  ghost predicate Next(c: Config, s: State, s': State) {
    exists step :: Enabled(c, s, step) && s' == Apply(c, s, step)
  }

  /** A run: a state that the program can start from, followed by any number of steps. */
  ghost predicate IsRun(c: Config, run: seq<State>) {
    && run != [] && Init(c, run[0])
    && forall i | 0 <= i < |run| - 1 :: Next(c, run[i], run[i + 1])
  }

  // ---------- conservation ----------

  ghost function Has(x: bool): nat {
    if x then 1 else 0
  }

  /** How many fetchers are fetching block `b`. */
  ghost function InFlight(fs: seq<Fetcher>, b: nat): nat {
    if fs == [] then 0 else Has(fs[0].job == Fetching(b)) + InFlight(fs[1..], b)
  }

  lemma {:induction false} InFlightUpdate(fs: seq<Fetcher>, w: nat, f: Fetcher, b: nat)
    requires w < |fs|
    ensures InFlight(fs[w := f], b) == InFlight(fs, b) - Has(fs[w].job == Fetching(b)) + Has(f.job == Fetching(b))
    decreases |fs|
  {
    var gs := fs[w := f];
    if w == 0 {
      assert gs[1..] == fs[1..];
    } else {
      InFlightUpdate(fs[1..], w - 1, f, b);
      assert gs[1..] == fs[1..][w - 1 := f];
    }
  }

  lemma {:induction false} InFlightNone(fs: seq<Fetcher>, b: nat)
    requires forall w | 0 <= w < |fs| :: fs[w].job != Fetching(b)
    ensures InFlight(fs, b) == 0
    decreases |fs|
  {
    if fs != [] {
      assert forall w | 0 <= w < |fs[1..]| :: fs[1..][w] == fs[w + 1];
      InFlightNone(fs[1..], b);
    }
  }

  /** The number of places that block `b` is in. */
  ghost function Places(c: Config, s: State, b: nat): nat {
    Has(b in s.core.bits) + Has(b in s.core.heap) + multiset(s.queue)[b] + InFlight(s.fetchers, b)
    + Has(b in s.retry) + Has(s.held == Some(b)) + Has(Unrequested(c, s, b))
    + Has(b in s.failed) + Has(b in s.lost)
  }

  /** Every block of the file is in exactly one place, and no other block is anywhere. */
  ghost predicate Conserved(c: Config, s: State) {
    forall b: nat :: Places(c, s, b) == Has(b < c.blocks)
  }

  /** The phases fit the configuration, and nobody returns early without an error. */
  ghost predicate Orderly(c: Config, s: State) {
    && |s.fetchers| == c.concurrency
    && (s.phase.Priming? || s.phase.Reissuing? ==> s.phase.next <= c.blocks)
    && (!c.wait ==> s.retry == {} && (s.phase.Priming? || s.phase.Closed?))
    && (c.wait ==> s.failed == {})
    && (s.lost != {} ==> s.runErr || (c.wait && s.phase != Closed && s.cancelled))
    && (s.phase == Closed || s.phase == Waiting ==> s.held == None)
    && (s.phase == Closed && !s.runErr && c.wait ==> FirstClear(s.core.bits, 0, c.blocks) == c.blocks)
  }

  /** A block is given up on only by a fetcher that will report it. */
  ghost predicate FailuresRecorded(s: State) {
    s.failed != {} ==> exists w :: 0 <= w < |s.fetchers| && s.fetchers[w].errs
  }

  /** A fetcher that has returned without an error has seen the channel closed and empty. */
  ghost predicate Returned(s: State) {
    forall w | 0 <= w < |s.fetchers| && s.fetchers[w].job == Exited ::
      && (s.fetchers[w].errs ==> s.runErr)
      && (!s.runErr ==> s.phase == Closed && s.queue == [])
  }

  ghost predicate Inv(c: Config, s: State) {
    InOrder(s.core) && Conserved(c, s) && Orderly(c, s) && FailuresRecorded(s) && Returned(s)
  }

  lemma InitInv(c: Config, s: State)
    requires Init(c, s)
    ensures Inv(c, s)
  {
    forall b: nat
      ensures Places(c, s, b) == Has(b < c.blocks)
    {
      InFlightNone(s.fetchers, b);
    }
  }

  // ---------- every step keeps the invariant ----------

  lemma StreamFits(c: Config, s: State)
    requires InOrder(s.core) && Conserved(c, s)
    ensures |s.core.stream| <= c.blocks
  {
    assert Places(c, s, c.blocks) == Has(c.blocks < c.blocks);
    assert c.blocks !in s.core.bits;
  }

  /** A block being fetched is in the file, and neither written nor held back. */
  lemma FetchedBlockIsNew(c: Config, s: State, w: nat)
    requires Conserved(c, s) && w < |s.fetchers| && s.fetchers[w].job.Fetching?
    ensures var i := s.fetchers[w].job.block; i < c.blocks && i !in s.core.heap && i !in s.core.bits
  {
    var i := s.fetchers[w].job.block;
    InFlightUpdate(s.fetchers, w, Fetcher(Idle, false), i);
    assert Places(c, s, i) == Has(i < c.blocks);
  }

  /** While the initial requests go out, nothing from the next one on has been written. */
  lemma NextIsClear(c: Config, s: State)
    requires Conserved(c, s) && s.phase.Priming? && s.phase.next <= c.blocks
    ensures FirstClear(s.core.bits, s.phase.next, c.blocks) == s.phase.next
  {
    assert Places(c, s, s.phase.next) == Has(s.phase.next < c.blocks);
  }

  /** `s'` is what `s` becomes by a step that keeps the order of the stream and every block's whereabouts. */
  ghost predicate Moves(c: Config, s: State, s': State, b: nat) {
    && InOrder(s'.core)
    && s.core.bits <= s'.core.bits && |s.core.stream| <= |s'.core.stream|
    && Places(c, s', b) == Places(c, s, b)
  }

  lemma PrimeMoves(c: Config, s: State, b: nat)
    requires InOrder(s.core) && Conserved(c, s) && Enabled(c, s, PrimeNext)
    ensures Moves(c, s, Apply(c, s, PrimeNext), b)
  {
    hide InOrder, InFlight, UpTo, FirstClear, HandleResponse;
    NextIsClear(c, s);
  }

  lemma QueueGrows(q: seq<nat>, x: nat, b: nat)
    ensures multiset(q + [x])[b] == multiset(q)[b] + Has(x == b)
  {
    assert multiset(q + [x])[b] == multiset(q)[b] + multiset([x])[b];
  }

  lemma SendMoves(c: Config, s: State, b: nat)
    requires InOrder(s.core) && Conserved(c, s) && Enabled(c, s, SendRequest)
    ensures Moves(c, s, Apply(c, s, SendRequest), b)
  {
    hide InOrder, InFlight, UpTo, FirstClear, HandleResponse;
    QueueGrows(s.queue, s.held.value, b);
  }

  lemma ReissueMoves(c: Config, s: State, b: nat)
    requires InOrder(s.core) && Conserved(c, s) && Enabled(c, s, ReissueNext)
    ensures Moves(c, s, Apply(c, s, ReissueNext), b)
  {
    hide InOrder, InFlight, UpTo, HandleResponse;
  }

  lemma DropMoves(c: Config, s: State, b: nat)
    requires InOrder(s.core) && Conserved(c, s) && Enabled(c, s, ReissueAborts)
    ensures Moves(c, s, Apply(c, s, ReissueAborts), b)
  {
    hide InOrder, InFlight, UpTo, FirstClear, HandleResponse;
    assert Places(c, s, s.held.value) == Has(s.held.value < c.blocks);
  }

  lemma AbortMoves(c: Config, s: State, b: nat)
    requires InOrder(s.core) && Conserved(c, s) && Orderly(c, s) && Enabled(c, s, GeneratorAborts)
    ensures Moves(c, s, Apply(c, s, GeneratorAborts), b)
  {
    hide InFlight, FirstClear, HandleResponse;
    assert Places(c, s, b) == Has(b < c.blocks);
    assert b in HeldOrUnrequested(c, s) <==> s.held == Some(b) || Unrequested(c, s, b);
  }

  lemma TakeMoves(c: Config, s: State, w: nat, b: nat)
    requires InOrder(s.core) && Conserved(c, s) && Enabled(c, s, TakeRequest(w))
    ensures Moves(c, s, Apply(c, s, TakeRequest(w)), b)
  {
    hide InOrder, InFlight, UpTo, FirstClear, HandleResponse;
    var x := s.queue[0];
    assert s.queue == [x] + s.queue[1..];
    assert multiset(s.queue)[b] == Has(x == b) + multiset(s.queue[1..])[b];
    InFlightUpdate(s.fetchers, w, s.fetchers[w].(job := Fetching(x)), b);
  }

  lemma FailMoves(c: Config, s: State, w: nat, b: nat)
    requires InOrder(s.core) && Conserved(c, s) && Enabled(c, s, Fail(w))
    ensures Moves(c, s, Apply(c, s, Fail(w)), b)
  {
    hide InOrder, InFlight, UpTo, FirstClear, HandleResponse;
    assert Places(c, s, b) == Has(b < c.blocks);
    InFlightUpdate(s.fetchers, w, if c.wait then s.fetchers[w].(job := Idle) else Fetcher(Idle, true), b);
  }

  lemma FetcherEndMoves(c: Config, s: State, w: nat, b: nat)
    requires InOrder(s.core) && Conserved(c, s) && w < |s.fetchers|
    ensures Enabled(c, s, FetcherReturns(w)) ==> Moves(c, s, Apply(c, s, FetcherReturns(w)), b)
    ensures Enabled(c, s, FetcherAborts(w)) ==> Moves(c, s, Apply(c, s, FetcherAborts(w)), b)
  {
    hide InOrder, InFlight, UpTo, FirstClear, HandleResponse;
    assert Places(c, s, b) == Has(b < c.blocks);
    InFlightUpdate(s.fetchers, w, s.fetchers[w].(job := Exited), b);
  }

  /** A response is never out of order: the internal errors of the downloader cannot occur. */
  lemma DeliverMoves(c: Config, s: State, w: nat, b: nat)
    requires InOrder(s.core) && Conserved(c, s) && Orderly(c, s) && Enabled(c, s, Deliver(w))
    ensures HandleResponse(s.core, s.fetchers[w].job.block, c.blocks).Ok?
    ensures Moves(c, s, Apply(c, s, Deliver(w)), b)
  {
    hide InFlight, UpTo, FirstClear, FirstSet, HandleResponse;
    assert Places(c, s, b) == Has(b < c.blocks);
    FetchedBlockIsNew(c, s, w);
    StreamFits(c, s);
    var i := s.fetchers[w].job.block;
    HandleInOrder(s.core, i, c.blocks);
    InFlightUpdate(s.fetchers, w, s.fetchers[w].(job := Idle), b);
    var core := HandleResponse(s.core, i, c.blocks).core;
    assert b in core.heap + core.bits <==> b in s.core.heap + s.core.bits + {i};
  }

  /** Blocks only ever move from one place to another. */
  lemma StepMoves(c: Config, s: State, step: Step, b: nat)
    requires InOrder(s.core) && Conserved(c, s) && Orderly(c, s) && Enabled(c, s, step)
    ensures Moves(c, s, Apply(c, s, step), b)
  {
    hide Moves, InOrder, Conserved, Orderly;
    match step
    case PrimeNext => PrimeMoves(c, s, b);
    case SendRequest => SendMoves(c, s, b);
    case ReissueNext => ReissueMoves(c, s, b);
    case TakeRequest(w) => TakeMoves(c, s, w, b);
    case Deliver(w) => DeliverMoves(c, s, w, b);
    case Fail(w) => FailMoves(c, s, w, b);
    case FetcherReturns(w) => FetcherEndMoves(c, s, w, b);
    case FetcherAborts(w) => FetcherEndMoves(c, s, w, b);
    case ReissueAborts => DropMoves(c, s, b);
    case GeneratorAborts => AbortMoves(c, s, b);
    case _ => OtherMoves(c, s, step, b);
  }

  lemma OtherMoves(c: Config, s: State, step: Step, b: nat)
    requires InOrder(s.core) && Enabled(c, s, step)
    requires step in {StartReissue, Finish, Cancel}
    ensures Moves(c, s, Apply(c, s, step), b)
  {
    hide InOrder, InFlight, UpTo, FirstClear, HandleResponse;
  }

  /** Once every block is written, none can have been dropped. */
  lemma NothingLost(c: Config, s: State)
    requires Conserved(c, s) && FirstClear(s.core.bits, 0, c.blocks) == c.blocks
    ensures s.lost == {}
  {
    hide InFlight;
    forall b: nat
      ensures b !in s.lost
    {
      assert Places(c, s, b) == Has(b < c.blocks);
      assert b < c.blocks ==> b in s.core.bits;
    }
  }

  lemma StepOrderly(c: Config, s: State, step: Step)
    requires Inv(c, s) && Enabled(c, s, step)
    requires s.core.bits <= Apply(c, s, step).core.bits
    requires |s.core.stream| <= c.blocks
    ensures Orderly(c, Apply(c, s, step))
  {
    hide Conserved, HandleResponse, Returned, FailuresRecorded;
    if step == Finish {
      NothingLost(c, s);
    }
  }

  lemma StepFailuresRecorded(c: Config, s: State, step: Step)
    requires FailuresRecorded(s) && Enabled(c, s, step)
    ensures FailuresRecorded(Apply(c, s, step))
  {
    hide HandleResponse, FirstClear, FirstSet;
    var s' := Apply(c, s, step);
    if step.Fail? && !c.wait {
      assert s'.fetchers[step.w].errs;
    } else if s'.failed != {} {
      var w :| 0 <= w < |s.fetchers| && s.fetchers[w].errs;
      assert s'.fetchers[w].errs;
    }
  }

  lemma StepReturned(c: Config, s: State, step: Step)
    requires Orderly(c, s) && Returned(s) && Enabled(c, s, step)
    ensures Returned(Apply(c, s, step))
  {
    hide HandleResponse, FirstClear, FirstSet;
  }

  lemma StepInv(c: Config, s: State, step: Step)
    requires Inv(c, s) && Enabled(c, s, step)
    ensures Inv(c, Apply(c, s, step))
  {
    hide Places, Orderly, FailuresRecorded, Returned, InOrder, Apply;
    var s' := Apply(c, s, step);
    forall b: nat
      ensures Places(c, s', b) == Has(b < c.blocks)
    {
      StepMoves(c, s, step, b);
      assert Places(c, s, b) == Has(b < c.blocks);
    }
    StepMoves(c, s, step, 0);
    StreamFits(c, s);
    StepOrderly(c, s, step);
    StepFailuresRecorded(c, s, step);
    StepReturned(c, s, step);
  }

  // ---------- whole runs ----------

  /** The invariant holds in every state of every run. */
  lemma {:induction false} RunInv(c: Config, run: seq<State>, i: nat)
    requires IsRun(c, run) && i < |run|
    ensures Inv(c, run[i])
    decreases i
  {
    if i == 0 {
      InitInv(c, run[0]);
    } else {
      RunInv(c, run, i - 1);
      assert Next(c, run[i - 1], run[i - 1 + 1]);
      var step :| Enabled(c, run[i - 1], step) && run[i] == Apply(c, run[i - 1], step);
      StepInv(c, run[i - 1], step);
    }
  }

  /** In every reachable state the stream is exactly the blocks before the first one not marked as written,
      in order and without repetition; every block is in one place; and no response is out of order. */
  lemma StreamIsPrefix(c: Config, run: seq<State>, i: nat)
    requires IsRun(c, run) && i < |run|
    ensures var core := run[i].core;
            && |core.stream| == FirstClear(core.bits, 0, c.blocks) == core.tracking + 1
            && (forall k | 0 <= k < |core.stream| :: core.stream[k] == k)
    ensures forall b: nat :: Places(c, run[i], b) == Has(b < c.blocks)
    ensures forall w: nat | Enabled(c, run[i], Deliver(w)) ::
              HandleResponse(run[i].core, run[i].fetchers[w].job.block, c.blocks).Ok?
  {
    RunInv(c, run, i);
    var s := run[i];
    StreamFits(c, s);
    var t := FirstClear(s.core.bits, 0, c.blocks);
    assert |s.core.stream| !in s.core.bits && (t < c.blocks ==> t !in s.core.bits);
    forall w: nat | Enabled(c, s, Deliver(w))
      ensures HandleResponse(s.core, s.fetchers[w].job.block, c.blocks).Ok?
    {
      DeliverMoves(c, s, w, 0);
    }
  }

  /** What was sent stays sent: the stream of a state is a prefix of the stream of every later one. */
  lemma {:induction false} StreamOnlyGrows(c: Config, run: seq<State>, i: nat, j: nat)
    requires IsRun(c, run) && i <= j < |run|
    ensures run[i].core.stream <= run[j].core.stream
    decreases j
  {
    if i < j {
      StreamOnlyGrows(c, run, i, j - 1);
      RunInv(c, run, j - 1);
      RunInv(c, run, j);
      assert Next(c, run[j - 1], run[j - 1 + 1]);
      var step :| Enabled(c, run[j - 1], step) && run[j] == Apply(c, run[j - 1], step);
      StepMoves(c, run[j - 1], step, 0);
    }
  }

  /** Every block waiting to be requested again lies at or after the point where a reissue starts. */
  lemma RetryAheadOfReissue(c: Config, run: seq<State>, i: nat, b: nat)
    requires IsRun(c, run) && i < |run| && b in run[i].retry
    ensures ReissueFrom(run[i].core) <= b < c.blocks
    ensures var stream := run[i].core.stream; ReissueFrom(run[i].core) == if stream == [] then 0 else stream[|stream| - 1]
    ensures Enabled(c, run[i], StartReissue) ==> Apply(c, run[i], StartReissue).phase == Reissuing(ReissueFrom(run[i].core))
  {
    RunInv(c, run, i);
    assert Places(c, run[i], b) == Has(b < c.blocks);
  }

  /** All goroutines have returned, none of them with an error. */
  ghost predicate ReturnsNil(s: State) {
    && s.phase == Closed && !s.runErr
    && forall w | 0 <= w < |s.fetchers| :: s.fetchers[w].job == Exited
  }

  /** When `Run` returns no error, the stream is the whole file and nothing is held back, whether or not
      failed blocks are requested again. */
  lemma NilErrorMeansComplete(c: Config, run: seq<State>, i: nat)
    requires c.concurrency > 0
    requires IsRun(c, run) && i < |run| && ReturnsNil(run[i])
    ensures run[i].core.stream == seq(c.blocks, k => k)
    ensures run[i].core.heap == {} && run[i].retry == {} && run[i].failed == {} && run[i].lost == {}
  {
    RunInv(c, run, i);
    var s := run[i];
    StreamFits(c, s);
    assert s.fetchers[0].job == Exited;
    var k := |s.core.stream|;
    assert Places(c, s, k) == Has(k < c.blocks);
    InFlightNone(s.fetchers, k);
    assert k == c.blocks by {
      assert s.queue == [] && s.failed == {} && s.lost == {};
      if c.wait {
        assert k !in s.core.bits;
      }
    }
    forall b: nat
      ensures b !in s.core.heap && b !in s.retry
    {
      assert Places(c, s, b) == Has(b < c.blocks);
    }
  }
}
