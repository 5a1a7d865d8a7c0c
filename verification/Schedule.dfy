/** The scheduler of a day: actions fire at their due time and repeat until their count or the day runs out.
    Times are whole seconds; days have a fixed length; intervals are in nanoseconds. */
module Schedule {
  import opened Arithmetic
  import opened Common
  import opened MinHeap

  const NANOS: int := 1_000_000_000
  const DAY: int := 86_400

  /** `repeats` 0 means without limit, as far as the day goes. */
  datatype RepeatSpec = RepeatSpec(interval: int, repeats: int)

  datatype ActionSpec = ActionSpec(due: int, repeat: RepeatSpec)

  /** What the heap remembers of an action besides its next time. */
  datatype HeapEntry = HeapEntry(action: nat, repeat: int, bounded: bool, numRepeats: int)

  /** An action becoming active: its number and the time. */
  datatype Active = Active(action: nat, when: int)

  function NewEntry(specs: seq<ActionSpec>, i: nat): Entry<HeapEntry>
    requires i < |specs|
  {
    var r := specs[i].repeat;
    Entry(specs[i].due, HeapEntry(i, r.interval, r.interval != 0 && r.repeats != 0, r.repeats))
  }

  function Repeated(he: HeapEntry): HeapEntry {
    if he.bounded then he.(numRepeats := he.numRepeats - 1) else he
  }

  /** The entry pushed back after an action has fired, if any. */
  function Again(e: Entry<HeapEntry>): Option<Entry<HeapEntry>> {
    var he := e.val;
    if he.repeat == 0 || (he.bounded && he.numRepeats == 0) then None
    else
      var nextNanos := e.key * NANOS + he.repeat;
      if nextNanos / (DAY * NANOS) != e.key * NANOS / (DAY * NANOS) then None
      else Some(Entry(nextNanos / NANOS, Repeated(he)))
  }

  /** Whole seconds from one firing to the next; the part of a second is lost. */
  function Stride(he: HeapEntry): int {
    he.repeat / NANOS
  }

  predicate SameDay(x: int, y: int) {
    x / DAY == y / DAY
  }

  lemma AgainIs(e: Entry<HeapEntry>)
    ensures Again(e) ==
            if e.val.repeat == 0 || (e.val.bounded && e.val.numRepeats == 0) || !SameDay(e.key + Stride(e.val), e.key) then None
            else Some(Entry(e.key + Stride(e.val), Repeated(e.val)))
  {
    var nextNanos := e.key * NANOS + e.val.repeat;
    assert nextNanos / NANOS == e.key + e.val.repeat / NANOS;
    DayOfNanos(nextNanos);
    DayOfNanos(e.key * NANOS);
    assert e.key * NANOS / NANOS == e.key;
  }

  lemma DayOfNanos(x: int)
    ensures x / (DAY * NANOS) == x / NANOS / DAY
  {
  }

  // ---------- how often an action fires ----------

  /** The entry after `n` firings. */
  function After(e: Entry<HeapEntry>, n: nat): Option<Entry<HeapEntry>> {
    if n == 0 then Some(e)
    else
      match After(e, n - 1)
      case None => None
      case Some(f) => Again(f)
  }

  /** The action fires finitely often: it does not repeat, or moves on, or its count runs out. */
  predicate Ends(he: HeapEntry) {
    he.repeat == 0 || Stride(he) != 0 || (he.bounded && he.numRepeats >= 0)
  }

  /** An upper bound on the firings still to come. */
  function Remaining(e: Entry<HeapEntry>): nat {
    if Stride(e.val) > 0 then DAY - e.key % DAY
    else if Stride(e.val) < 0 then e.key % DAY + 1
    else if e.val.repeat != 0 && e.val.bounded && e.val.numRepeats >= 0 then e.val.numRepeats + 1
    else 1
  }

  /** Within a day, seconds add up. */
  lemma SecondsOfDay(x: int, d: int)
    ensures SameDay(x + d, x) <==> 0 <= x % DAY + d < DAY
    ensures SameDay(x + d, x) ==> (x + d) % DAY == x % DAY + d
  {
  }

  lemma AgainEnds(e: Entry<HeapEntry>)
    requires Ends(e.val) && Again(e).Some?
    ensures Ends(Again(e).value.val) && Remaining(Again(e).value) < Remaining(e)
  {
    AgainIs(e);
    SecondsOfDay(e.key, Stride(e.val));
  }

  /** The times at which an entry fires. */
  function Firings(e: Entry<HeapEntry>): (times: seq<int>)
    requires Ends(e.val)
    ensures |times| > 0
    decreases Remaining(e)
  {
    if Again(e).None? then [e.key]
    else
      AgainEnds(e);
      [e.key] + Firings(Again(e).value)
  }

  /** How many steps from `key` on stay within its day. */
  function StepsThatFit(key: int, stride: int): int
    requires stride != 0
  {
    if stride > 0 then (DAY - 1 - key % DAY) / stride else key % DAY / -stride
  }

  function ExpectedCount(e: Entry<HeapEntry>): int
    requires Ends(e.val)
  {
    var he := e.val;
    if he.repeat == 0 then 1
    else if Stride(he) == 0 then 1 + he.numRepeats
    else if he.bounded && he.numRepeats >= 0 then 1 + Min(he.numRepeats, StepsThatFit(e.key, Stride(he)))
    else 1 + StepsThatFit(e.key, Stride(he))
  }

  lemma OneMoreFits(x: int, step: int)
    requires step > 0 && x >= 0
    ensures x < step ==> x / step == 0
    ensures x >= step ==> x / step == 1 + (x - step) / step && x / step >= 1
  {
    QuotientOfSum(x - step, 1, step);
    Quotient(x, 1, step);
    Quotient(x, 0, step);
    assert (x - step) + 1 * step == x;
  }

  lemma FitStep(key: int, stride: int)
    requires stride != 0
    ensures !SameDay(key + stride, key) ==> StepsThatFit(key, stride) == 0
    ensures SameDay(key + stride, key) ==>
              StepsThatFit(key, stride) == 1 + StepsThatFit(key + stride, stride) && StepsThatFit(key, stride) >= 1
  {
    SecondsOfDay(key, stride);
    var o := key % DAY;
    if stride > 0 {
      OneMoreFits(DAY - 1 - o, stride);
    } else {
      OneMoreFits(o, -stride);
    }
  }

  /** An entry fires at its time and then at equal distances within the day, as often as its count and the day
      allow. */
  lemma {:induction false} FiringTimes(e: Entry<HeapEntry>)
    requires Ends(e.val)
    ensures |Firings(e)| == ExpectedCount(e)
    ensures forall j :: 0 <= j < |Firings(e)| ==> Firings(e)[j] == e.key + j * Stride(e.val) && SameDay(Firings(e)[j], e.key)
    decreases Remaining(e)
  {
    hide Again, StepsThatFit, SameDay, Remaining, Stride;
    AgainIs(e);
    if Stride(e.val) != 0 {
      FitStep(e.key, Stride(e.val));
    }
    if Again(e).Some? {
      var f := Again(e).value;
      AgainEnds(e);
      SameStride(e);
      FiringTimes(f);
      forall j | 0 <= j < |Firings(e)|
        ensures Firings(e)[j] == e.key + j * Stride(e.val) && SameDay(Firings(e)[j], e.key)
      {
        if j > 0 {
          assert Firings(e)[j] == Firings(f)[j - 1];
          assert (j - 1) * Stride(e.val) + Stride(e.val) == j * Stride(e.val);
          DayIsShared(Firings(e)[j], f.key, e.key);
        } else {
          DayIsShared(e.key, e.key, e.key);
        }
      }
    } else {
      DayIsShared(e.key, e.key, e.key);
    }
  }

  lemma DayIsShared(x: int, y: int, z: int)
    ensures SameDay(x, x) && (SameDay(x, y) && SameDay(y, z) ==> SameDay(x, z))
  {
  }

  lemma SameStride(e: Entry<HeapEntry>)
    requires Again(e).Some?
    ensures Stride(Again(e).value.val) == Stride(e.val) && Again(e).value.val.repeat == e.val.repeat
    ensures Again(e).value.val.action == e.val.action
  {
  }

  /** An action stops being scheduled at some time if and only if its interval is zero, negative, or at least a
      second, or its repetitions are counted. */
  lemma StopsIff(e: Entry<HeapEntry>)
    requires e.val.bounded == (e.val.repeat != 0 && e.val.numRepeats != 0)
    ensures (exists n: nat :: After(e, n).None?) <==> Ends(e.val)
    ensures Ends(e.val) <==> !(0 < e.val.repeat < NANOS) || e.val.numRepeats > 0
  {
    if Ends(e.val) {
      var n := StopsAfter(e, 0);
    } else {
      forall n: nat
        ensures After(e, n).Some?
      {
        NeverStops(e, n);
      }
    }
  }

  lemma {:induction false} StopsAfter(e: Entry<HeapEntry>, k: nat) returns (n: nat)
    requires After(e, k).Some? && Ends(After(e, k).value.val)
    ensures After(e, n).None?
    decreases Remaining(After(e, k).value)
  {
    var f := After(e, k).value;
    assert After(e, k + 1) == Again(f);
    if Again(f).None? {
      n := k + 1;
    } else {
      AgainEnds(f);
      n := StopsAfter(e, k + 1);
    }
  }

  lemma {:induction false} NeverStops(e: Entry<HeapEntry>, n: nat)
    requires !Ends(e.val)
    ensures After(e, n).Some? && !Ends(After(e, n).value.val)
  {
    if n > 0 {
      NeverStops(e, n - 1);
      AgainIs(After(e, n - 1).value);
    }
  }

  // ---------- the repeat manager ----------

  /** The heap holds exactly the next entry of every action that is still scheduled. */
  ghost predicate HoldsPending(m: multiset<Entry<HeapEntry>>, pending: seq<Option<Entry<HeapEntry>>>) {
    && (forall i | 0 <= i < |pending| && pending[i].Some? :: pending[i].value in m && pending[i].value.val.action == i)
    && (forall e | e in m :: m[e] == 1 && e.val.action < |pending| && pending[e.val.action] == Some(e))
  }

  lemma PopPending(m: multiset<Entry<HeapEntry>>, pending: seq<Option<Entry<HeapEntry>>>, e: Entry<HeapEntry>)
    requires HoldsPending(m, pending) && e in m
    ensures e.val.action < |pending| && pending[e.val.action] == Some(e)
    ensures HoldsPending(m - multiset{e}, pending[e.val.action := None])
  {
    assert forall f | f in m - multiset{e} :: f in m && f != e;
  }

  lemma PushPending(m: multiset<Entry<HeapEntry>>, pending: seq<Option<Entry<HeapEntry>>>, e: Entry<HeapEntry>)
    requires HoldsPending(m, pending) && e.val.action < |pending| && pending[e.val.action] == None
    ensures HoldsPending(m + multiset{e}, pending[e.val.action := Some(e)])
  {
  }

  lemma EntryAction(specs: seq<ActionSpec>, i: nat)
    requires i < |specs|
    ensures NewEntry(specs, i).val.action == i
  {
  }

  lemma EntriesAre(specs: seq<ActionSpec>)
    ensures forall i | 0 <= i < |specs| ::
              var r := specs[i].repeat;
              NewEntry(specs, i) == Entry(specs[i].due, HeapEntry(i, r.interval, r.interval != 0 && r.repeats != 0, r.repeats))
  {
  }

  lemma NothingPending(m: multiset<Entry<HeapEntry>>, pending: seq<Option<Entry<HeapEntry>>>)
    requires m == multiset{} && forall i | 0 <= i < |pending| :: pending[i].None?
    ensures HoldsPending(m, pending)
  {
  }

  lemma PendingIsHeld(m: multiset<Entry<HeapEntry>>, pending: seq<Option<Entry<HeapEntry>>>)
    requires HoldsPending(m, pending)
    ensures forall i | 0 <= i < |pending| && pending[i].Some? :: pending[i].value in m
  {
  }

  class RepeatManager {
    const heap: Heap<HeapEntry>
    ghost var pending: seq<Option<Entry<HeapEntry>>>

    ghost predicate Valid()
      reads this, heap
    {
      heap.Valid() && HoldsPending(heap.Contents(), pending)
    }

    constructor (specs: seq<ActionSpec>)
      ensures Valid() && fresh(heap) && |pending| == |specs|
      ensures forall i | 0 <= i < |specs| ::
                var r := specs[i].repeat;
                pending[i] == Some(Entry(specs[i].due, HeapEntry(i, r.interval, r.interval != 0 && r.repeats != 0, r.repeats)))
    {
      heap := new Heap();
      pending := seq(|specs|, i => None);
      new;
      hide HoldsPending, IsHeap, OrderedAt, NewEntry;
      NothingPending(heap.Contents(), pending);
      for k := 0 to |specs|
        invariant Valid() && fresh(heap) && |pending| == |specs|
        invariant forall i | 0 <= i < |specs| :: pending[i] == if i < k then Some(NewEntry(specs, i)) else None
      {
        var e := NewEntry(specs, k);
        EntryAction(specs, k);
        PushPending(heap.Contents(), pending, e);
        heap.Push(e);
        pending := pending[k := Some(e)];
      }
      EntriesAre(specs);
    }

    method HasActions() returns (b: bool)
      requires Valid()
      ensures b <==> |heap.items| > 0
      ensures b <==> exists i :: 0 <= i < |pending| && pending[i].Some?
    {
      b := |heap.items| > 0;
      if b {
        assert heap.items[0] in heap.Contents();
      }
    }

    /** Takes the action that is due first, and schedules its next time. */
    method Manage() returns (active: Active)
      requires Valid() && |heap.items| > 0
      modifies this, heap
      ensures Valid() && active.action < |old(pending)|
      ensures old(pending)[active.action].Some? && active.when == old(pending)[active.action].value.key
      ensures pending == old(pending)[active.action := Again(old(pending)[active.action].value)]
      ensures forall i | 0 <= i < |old(pending)| && old(pending)[i].Some? :: active.when <= old(pending)[i].value.key
    {
      hide HoldsPending, IsHeap, OrderedAt;
      PendingIsHeld(heap.Contents(), pending);
      var e := heap.Pop();
      PopPending(old(heap.Contents()), pending, e);
      pending := pending[e.val.action := None];
      active := Active(e.val.action, e.key);
      var he := e.val;
      if he.repeat == 0 || (he.bounded && he.numRepeats == 0) {
        return;
      }
      var nextNanos := e.key * NANOS + he.repeat;
      if nextNanos / (DAY * NANOS) != e.key * NANOS / (DAY * NANOS) {
        return;
      }
      if he.bounded {
        he := he.(numRepeats := he.numRepeats - 1);
      }
      var next := Entry(nextNanos / NANOS, he);
      PushPending(heap.Contents(), pending, next);
      heap.Push(next);
      pending := pending[he.action := Some(next)];
    }
  }

  // ---------- the actions of a day ----------

  /** When action `a` becomes active. */
  function TimesOf(actives: seq<Active>, a: nat): seq<int> {
    if actives == [] then []
    else
      var last := actives[|actives| - 1];
      TimesOf(actives[..|actives| - 1], a) + if last.action == a then [last.when] else []
  }

  ghost predicate InOrder(actives: seq<Active>) {
    forall i, j :: 0 <= i < j < |actives| ==> actives[i].when <= actives[j].when
  }

  ghost function Future(p: Option<Entry<HeapEntry>>): seq<int>
    requires p.Some? ==> Ends(p.value.val)
  {
    if p.Some? then Firings(p.value) else []
  }

  ghost function Total(pending: seq<Option<Entry<HeapEntry>>>): nat {
    if pending == [] then 0
    else (if pending[0].Some? then Remaining(pending[0].value) else 0) + Total(pending[1..])
  }

  lemma {:induction false} TotalUpdate(pending: seq<Option<Entry<HeapEntry>>>, i: nat, p: Option<Entry<HeapEntry>>)
    requires i < |pending|
    ensures Total(pending[i := p]) - (if p.Some? then Remaining(p.value) else 0)
            == Total(pending) - (if pending[i].Some? then Remaining(pending[i].value) else 0)
    decreases |pending|
  {
    hide Remaining;
    if i == 0 {
      assert pending[0 := p][1..] == pending[1..];
    } else {
      TotalUpdate(pending[1..], i - 1, p);
      assert pending[i := p][1..] == pending[1..][i - 1 := p];
    }
  }

  /** What has become active so far, and what is still to come, is what the specifications ask for. */
  ghost predicate OnSchedule(specs: seq<ActionSpec>, pending: seq<Option<Entry<HeapEntry>>>, actives: seq<Active>, i: nat)
    requires i < |specs| == |pending| && Ends(NewEntry(specs, i).val)
  {
    && (pending[i].Some? ==> Ends(pending[i].value.val) && pending[i].value.val.repeat == specs[i].repeat.interval)
    && TimesOf(actives, i) + Future(pending[i]) == Firings(NewEntry(specs, i))
  }

  lemma TimesAppend(actives: seq<Active>, active: Active, i: nat)
    ensures TimesOf(actives + [active], i) == TimesOf(actives, i) + if active.action == i then [active.when] else []
  {
    assert (actives + [active])[..|actives|] == actives;
  }

  lemma FirstFiring(e: Entry<HeapEntry>)
    requires Ends(e.val)
    ensures Again(e).Some? ==> Ends(Again(e).value.val)
    ensures Firings(e) == [e.key] + Future(Again(e))
  {
    if Again(e).Some? {
      AgainEnds(e);
    }
  }

  lemma ManagedOnSchedule(specs: seq<ActionSpec>, pending: seq<Option<Entry<HeapEntry>>>, actives: seq<Active>,
                          active: Active, i: nat)
    requires i < |specs| == |pending| && Ends(NewEntry(specs, i).val)
    requires OnSchedule(specs, pending, actives, i)
    requires active.action < |pending| && pending[active.action].Some? && active.when == pending[active.action].value.key
    ensures OnSchedule(specs, pending[active.action := Again(pending[active.action].value)], actives + [active], i)
  {
    hide Again, Ends, Firings, TimesOf;
    TimesAppend(actives, active, i);
    if i == active.action {
      var e := pending[i].value;
      FirstFiring(e);
      if Again(e).Some? {
        SameStride(e);
      }
      assert TimesOf(actives, i) + [e.key] + Future(Again(e)) == TimesOf(actives, i) + ([e.key] + Future(Again(e)));
    }
  }

  lemma AtFirst(specs: seq<ActionSpec>, pending: seq<Option<Entry<HeapEntry>>>, i: nat)
    requires i < |specs| == |pending| && Ends(NewEntry(specs, i).val)
    requires pending[i] == Some(NewEntry(specs, i))
    ensures OnSchedule(specs, pending, [], i)
  {
  }

  lemma AtLast(specs: seq<ActionSpec>, pending: seq<Option<Entry<HeapEntry>>>, actives: seq<Active>, i: nat)
    requires i < |specs| == |pending| && Ends(NewEntry(specs, i).val)
    requires OnSchedule(specs, pending, actives, i) && pending[i] == None
    ensures TimesOf(actives, i) == Firings(NewEntry(specs, i))
  {
  }

  /** No action goes back in time. */
  ghost predicate Forward(specs: seq<ActionSpec>)
    requires forall i | 0 <= i < |specs| :: Ends(NewEntry(specs, i).val)
  {
    forall i | 0 <= i < |specs| :: specs[i].repeat.interval >= 0 || |Firings(NewEntry(specs, i))| == 1
  }

  lemma NextIsSmaller(specs: seq<ActionSpec>, pending: seq<Option<Entry<HeapEntry>>>, actives: seq<Active>, a: nat)
    requires forall i | 0 <= i < |specs| :: Ends(NewEntry(specs, i).val)
    requires a < |specs| == |pending| && OnSchedule(specs, pending, actives, a) && pending[a].Some?
    ensures var e := pending[a].value;
            && Remaining(e) > 0
            && (Again(e).Some? ==> Remaining(Again(e).value) < Remaining(e))
            && (Again(e).Some? && Forward(specs) ==> e.key <= Again(e).value.key)
  {
    var e := pending[a].value;
    AgainIs(e);
    if Again(e).Some? {
      AgainEnds(e);
      assert |Firings(e)| > 1;
    }
  }

  lemma {:induction false} TimesInOrder(actives: seq<Active>, a: nat)
    requires InOrder(actives)
    ensures forall j | 0 <= j < |TimesOf(actives, a)| :: TimesOf(actives, a)[j] <= actives[|actives| - 1].when
    ensures forall j, k | 0 <= j < k < |TimesOf(actives, a)| :: TimesOf(actives, a)[j] <= TimesOf(actives, a)[k]
    decreases |actives|
  {
    if |actives| > 1 {
      TimesInOrder(actives[..|actives| - 1], a);
    }
  }

  lemma BackwardIsSeen(specs: seq<ActionSpec>, actives: seq<Active>, i: nat)
    requires i < |specs| && Ends(NewEntry(specs, i).val) && TimesOf(actives, i) == Firings(NewEntry(specs, i))
    requires specs[i].repeat.interval < 0 && |Firings(NewEntry(specs, i))| > 1
    ensures !InOrder(actives)
  {
    hide Ends, Firings, TimesOf, InOrder;
    FiringTimes(NewEntry(specs, i));
    assert TimesOf(actives, i)[1] < TimesOf(actives, i)[0];
    if InOrder(actives) {
      TimesInOrder(actives, i);
    }
  }

  lemma ForwardOrNot(specs: seq<ActionSpec>, actives: seq<Active>)
    requires forall i | 0 <= i < |specs| :: Ends(NewEntry(specs, i).val)
    requires forall i | 0 <= i < |specs| :: TimesOf(actives, i) == Firings(NewEntry(specs, i))
    ensures InOrder(actives) ==> Forward(specs)
  {
    hide Ends, TimesOf, Firings, InOrder;
    if !Forward(specs) {
      var i :| 0 <= i < |specs| && !(specs[i].repeat.interval >= 0 || |Firings(NewEntry(specs, i))| == 1);
      BackwardIsSeen(specs, actives, i);
    }
  }

  lemma StepsFitIff(key: int, stride: int, m: nat)
    requires stride != 0
    ensures m <= StepsThatFit(key, stride) <==> SameDay(key + m * stride, key)
  {
    hide SameDay;
    SecondsOfDay(key, m * stride);
    var o := key % DAY;
    if stride > 0 {
      ProductMonotone(0, m, stride);
      Quotient(DAY - 1 - o, m, stride);
    } else {
      ProductMonotone(0, m, -stride);
      assert m * -stride == -(m * stride);
      Quotient(o, m, -stride);
    }
  }

  lemma SpecEnds(specs: seq<ActionSpec>, i: nat)
    requires i < |specs|
    ensures Ends(NewEntry(specs, i).val) <==>
              specs[i].repeat.interval <= 0 || specs[i].repeat.interval >= 1_000_000_000 || specs[i].repeat.repeats > 0
  {
  }

  /** The firings of an action, from its specification. */
  lemma SpecFirings(specs: seq<ActionSpec>, i: nat)
    requires i < |specs| && Ends(NewEntry(specs, i).val)
    ensures var due, interval, repeats := specs[i].due, specs[i].repeat.interval, specs[i].repeat.repeats;
            var times, stride := Firings(NewEntry(specs, i)), interval / 1_000_000_000;
            && (forall j | 0 <= j < |times| :: times[j] == due + j * stride)
            && (interval == 0 ==> |times| == 1)
            && (interval != 0 && stride == 0 ==> |times| == 1 + repeats)
            && (stride != 0 ==>
                  var fit := if stride > 0 then (86_399 - due % 86_400) / stride else due % 86_400 / -stride;
                  |times| == 1 + if repeats > 0 && repeats < fit then repeats else fit)
  {
    hide Firings;
    FiringTimes(NewEntry(specs, i));
  }

  /** The `m`th repetition of an action takes place if and only if it has an interval, its count allows for it,
      and it falls on the day on which the action is due. */
  lemma RepetitionIff(specs: seq<ActionSpec>, i: nat, m: nat)
    requires i < |specs| && Ends(NewEntry(specs, i).val)
    ensures var due, interval, repeats := specs[i].due, specs[i].repeat.interval, specs[i].repeat.repeats;
            m < |Firings(NewEntry(specs, i))| <==>
              m == 0 || (interval != 0 && (repeats <= 0 || m <= repeats)
                         && (due + m * (interval / 1_000_000_000)) / 86_400 == due / 86_400)
  {
    hide Firings;
    var stride := specs[i].repeat.interval / 1_000_000_000;
    SpecFirings(specs, i);
    if stride != 0 {
      StepsFitIff(specs[i].due, stride, m);
    }
  }

  lemma AsSpecified(specs: seq<ActionSpec>, actives: seq<Active>)
    requires forall i | 0 <= i < |specs| :: Ends(NewEntry(specs, i).val)
    requires forall i | 0 <= i < |specs| :: TimesOf(actives, i) == Firings(NewEntry(specs, i))
    requires InOrder(actives) <==> Forward(specs)
    ensures forall i, j | 0 <= i < |specs| && 0 <= j < |TimesOf(actives, i)| ::
              TimesOf(actives, i)[j] == specs[i].due + j * (specs[i].repeat.interval / 1_000_000_000)
    ensures forall i | 0 <= i < |specs| ::
              var due, interval, repeats := specs[i].due, specs[i].repeat.interval, specs[i].repeat.repeats;
              var times, stride := TimesOf(actives, i), interval / 1_000_000_000;
              && (interval == 0 ==> |times| == 1)
              && (interval != 0 && stride == 0 ==> |times| == 1 + repeats)
              && (stride != 0 ==>
                    var fit := if stride > 0 then (86_399 - due % 86_400) / stride else due % 86_400 / -stride;
                    |times| == 1 + if repeats > 0 && repeats < fit then repeats else fit)
    ensures InOrder(actives) <==>
              forall i | 0 <= i < |specs| :: specs[i].repeat.interval >= 0 || |TimesOf(actives, i)| == 1
  {
    hide Ends, TimesOf, Firings, InOrder, NewEntry;
    forall i | 0 <= i < |specs| {
      SpecFirings(specs, i);
    }
  }

  /** All the times of all the actions, in order if and only if none of them goes back in time. */
  method AllActive(specs: seq<ActionSpec>) returns (actives: seq<Active>)
    requires forall i | 0 <= i < |specs| ::
               var r := specs[i].repeat; r.interval <= 0 || r.interval >= 1_000_000_000 || r.repeats > 0
    ensures forall k | 0 <= k < |actives| :: actives[k].action < |specs|
    ensures forall i, j | 0 <= i < |specs| && 0 <= j < |TimesOf(actives, i)| ::
              TimesOf(actives, i)[j] == specs[i].due + j * (specs[i].repeat.interval / 1_000_000_000)
    ensures forall i | 0 <= i < |specs| ::
              var due, interval, repeats := specs[i].due, specs[i].repeat.interval, specs[i].repeat.repeats;
              var times, stride := TimesOf(actives, i), interval / 1_000_000_000;
              && (interval == 0 ==> |times| == 1)
              && (interval != 0 && stride == 0 ==> |times| == 1 + repeats)
              && (stride != 0 ==>
                    var fit := if stride > 0 then (86_399 - due % 86_400) / stride else due % 86_400 / -stride;
                    |times| == 1 + if repeats > 0 && repeats < fit then repeats else fit)
    ensures InOrder(actives) <==>
              forall i | 0 <= i < |specs| :: specs[i].repeat.interval >= 0 || |TimesOf(actives, i)| == 1
  {
    hide Again, Firings, Remaining, TimesOf, Total, OnSchedule, HoldsPending, IsHeap, OrderedAt, Ends, Forward,
      NewEntry;
    forall i | 0 <= i < |specs|
      ensures Ends(NewEntry(specs, i).val)
    {
      SpecEnds(specs, i);
    }
    EntriesAre(specs);
    var rm := new RepeatManager(specs);
    actives := [];
    forall i | 0 <= i < |specs|
      ensures OnSchedule(specs, rm.pending, actives, i)
    {
      AtFirst(specs, rm.pending, i);
    }
    var more := rm.HasActions();
    while more
      invariant rm.Valid() && fresh(rm) && fresh(rm.heap) && |rm.pending| == |specs|
      invariant more <==> |rm.heap.items| > 0
      invariant more <==> exists i :: 0 <= i < |rm.pending| && rm.pending[i].Some?
      invariant forall i | 0 <= i < |specs| :: OnSchedule(specs, rm.pending, actives, i)
      invariant forall k | 0 <= k < |actives| :: actives[k].action < |specs|
      invariant Forward(specs) ==> InOrder(actives)
      invariant Forward(specs) && actives != [] ==>
                  forall i | 0 <= i < |specs| && rm.pending[i].Some? ::
                    actives[|actives| - 1].when <= rm.pending[i].value.key
      decreases Total(rm.pending)
    {
      ghost var before := rm.pending;
      var active := rm.Manage();
      forall i | 0 <= i < |specs|
        ensures OnSchedule(specs, rm.pending, actives + [active], i)
      {
        ManagedOnSchedule(specs, before, actives, active, i);
      }
      NextIsSmaller(specs, before, actives, active.action);
      TotalUpdate(before, active.action, rm.pending[active.action]);
      actives := actives + [active];
      more := rm.HasActions();
    }
    forall i | 0 <= i < |specs|
      ensures TimesOf(actives, i) == Firings(NewEntry(specs, i))
    {
      AtLast(specs, rm.pending, actives, i);
    }
    ForwardOrNot(specs, actives);
    AsSpecified(specs, actives);
  }
}
