/** Edit scripts: what a script from `a` to `b` is, what applying and reversing one does. */
module LcsEditScript {
  import opened LcsGrid
  import opened LcsSubsequence

  datatype EditOp = Insert | Delete | Identical

  /** `posA` and `posB` are the positions in the original and in the new sequence. */
  datatype Edit<T> = Edit(op: EditOp, posA: int, posB: int, val: T)

  /** The script walks `a` and `b` side by side, from the offsets `cx` and `cy`, to both their ends. */
  ghost predicate Walks<T>(es: seq<Edit<T>>, a: seq<T>, b: seq<T>, cx: int, cy: int) {
    if es == [] then a == [] && b == []
    else
      var e := es[0];
      match e.op
      case Identical =>
        && a != [] && b != [] && e.posA == cx && e.posB == cy && e.val == a[0] == b[0]
        && Walks(es[1..], a[1..], b[1..], cx + 1, cy + 1)
      case Delete =>
        a != [] && e.posA == cx && e.val == a[0] && Walks(es[1..], a[1..], b, cx + 1, cy)
      case Insert =>
        b != [] && e.posA == cx && e.posB == cy && e.val == b[0] && Walks(es[1..], a, b[1..], cx, cy + 1)
  }

  /** A script that transforms `a` to `b`. */
  ghost predicate IsScript<T>(es: seq<Edit<T>>, a: seq<T>, b: seq<T>) {
    Walks(es, a, b, 0, 0)
  }

  lemma {:induction false} WalksConcat<T>(es: seq<Edit<T>>, a: seq<T>, b: seq<T>, fs: seq<Edit<T>>, c: seq<T>, d: seq<T>,
                                          cx: int, cy: int)
    requires Walks(es, a, b, cx, cy)
    requires Walks(fs, c, d, cx + |a|, cy + |b|)
    ensures Walks(es + fs, a + c, b + d, cx, cy)
    decreases |es|
  {
    if es == [] {
      assert es + fs == fs && a + c == c && b + d == d;
    } else {
      assert (es + fs)[0] == es[0] && (es + fs)[1..] == es[1..] + fs;
      match es[0].op
      case Identical =>
        WalksConcat(es[1..], a[1..], b[1..], fs, c, d, cx + 1, cy + 1);
        assert (a + c)[1..] == a[1..] + c && (b + d)[1..] == b[1..] + d;
      case Delete =>
        WalksConcat(es[1..], a[1..], b, fs, c, d, cx + 1, cy);
        assert (a + c)[1..] == a[1..] + c;
      case Insert =>
        WalksConcat(es[1..], a, b[1..], fs, c, d, cx, cy + 1);
        assert (b + d)[1..] == b[1..] + d;
    }
  }

  // ---------- the positions that a script visits ----------

  /** The positions in the original sequence of the elements that are kept or deleted. */
  function PositionsA<T>(es: seq<Edit<T>>): seq<int> {
    if es == [] then []
    else if es[0].op.Insert? then PositionsA(es[1..])
    else [es[0].posA] + PositionsA(es[1..])
  }

  /** The positions in the new sequence of the elements that are kept or inserted. */
  function PositionsB<T>(es: seq<Edit<T>>): seq<int> {
    if es == [] then []
    else if es[0].op.Delete? then PositionsB(es[1..])
    else [es[0].posB] + PositionsB(es[1..])
  }

  function Range(from: int, n: nat): (r: seq<int>)
    ensures |r| == n && forall i :: 0 <= i < n ==> r[i] == from + i
  {
    seq(n, i => from + i)
  }

  /** Kept and deleted edits enumerate `a` in order, kept and inserted ones enumerate `b` in order, every
      value is the one found there, and an insertion is placed after the elements consumed so far. */
  ghost predicate Enumerates<T>(es: seq<Edit<T>>, a: seq<T>, b: seq<T>, cx: int, cy: int) {
    && PositionsA(es) == Range(cx, |a|)
    && PositionsB(es) == Range(cy, |b|)
    && (forall k :: 0 <= k < |es| ==> ValueFound(es[k], a, b, cx, cy))
    && (forall k :: 0 <= k < |es| && es[k].op.Insert? ==> es[k].posA == cx + |PositionsA(es[..k])|)
  }

  ghost predicate ValueFound<T>(e: Edit<T>, a: seq<T>, b: seq<T>, cx: int, cy: int) {
    && (!e.op.Insert? ==> 0 <= e.posA - cx < |a| && e.val == a[e.posA - cx])
    && (!e.op.Delete? ==> 0 <= e.posB - cy < |b| && e.val == b[e.posB - cy])
  }

  /** Adding a first edit to an enumeration, and the elements it visits, gives an enumeration. */
  lemma EnumerationHead<T>(es: seq<Edit<T>>, a: seq<T>, b: seq<T>, cx: int, cy: int,
                           a': seq<T>, b': seq<T>, cx': int, cy': int)
    requires es != [] && Enumerates(es[1..], a', b', cx', cy') && ValueFound(es[0], a, b, cx, cy) && es[0].posA == cx
    requires if es[0].op.Insert? then a' == a && cx' == cx else a != [] && a' == a[1..] && cx' == cx + 1
    requires if es[0].op.Delete? then b' == b && cy' == cy
             else b != [] && b' == b[1..] && cy' == cy + 1 && es[0].posB == cy
    ensures Enumerates(es, a, b, cx, cy)
  {
    var rest := es[1..];
    assert Range(cx, |a|) == if es[0].op.Insert? then Range(cx', |a'|) else [cx] + Range(cx', |a'|);
    assert Range(cy, |b|) == if es[0].op.Delete? then Range(cy', |b'|) else [cy] + Range(cy', |b'|);
    forall k | 0 <= k < |es|
      ensures ValueFound(es[k], a, b, cx, cy)
      ensures es[k].op.Insert? ==> es[k].posA == cx + |PositionsA(es[..k])|
    {
      hide Range;
      if k > 0 {
        hide PositionsA, PositionsB;
        assert es[k] == rest[k - 1] && ValueFound(rest[k - 1], a', b', cx', cy');
        PositionsOfPrefix(es, k);
      }
    }
  }

  lemma {:induction false} WalksEnumerates<T>(es: seq<Edit<T>>, a: seq<T>, b: seq<T>, cx: int, cy: int)
    requires Walks(es, a, b, cx, cy)
    ensures Enumerates(es, a, b, cx, cy)
    decreases |es|
  {
    if es != [] {
      hide Enumerates;
      var e := es[0];
      var a' := if e.op.Insert? then a else a[1..];
      var b' := if e.op.Delete? then b else b[1..];
      var cx' := if e.op.Insert? then cx else cx + 1;
      var cy' := if e.op.Delete? then cy else cy + 1;
      WalksEnumerates(es[1..], a', b', cx', cy');
      EnumerationHead(es, a, b, cx, cy, a', b', cx', cy');
    }
  }

  lemma PositionsOfPrefix<T>(es: seq<Edit<T>>, k: nat)
    requires 0 < k <= |es|
    ensures PositionsA(es[..k]) == (if es[0].op.Insert? then [] else [es[0].posA]) + PositionsA(es[1..][..k - 1])
  {
    assert es[..k][1..] == es[1..][..k - 1];
  }

  /** Dropping the first edit of an enumeration, and the elements it visits, leaves an enumeration. */
  lemma EnumerationTail<T>(es: seq<Edit<T>>, a: seq<T>, b: seq<T>, cx: int, cy: int,
                           a': seq<T>, b': seq<T>, cx': int, cy': int)
    requires es != [] && Enumerates(es, a, b, cx, cy)
    requires if es[0].op.Insert? then a' == a && cx' == cx else a != [] && a' == a[1..] && cx' == cx + 1
    requires if es[0].op.Delete? then b' == b && cy' == cy else b != [] && b' == b[1..] && cy' == cy + 1
    ensures Enumerates(es[1..], a', b', cx', cy')
  {
    var rest := es[1..];
    assert es[0].op.Insert? || PositionsA(rest) == PositionsA(es)[1..];
    assert es[0].op.Delete? || PositionsB(rest) == PositionsB(es)[1..];
    forall k | 0 <= k < |rest|
      ensures ValueFound(rest[k], a', b', cx', cy')
      ensures rest[k].op.Insert? ==> rest[k].posA == cx' + |PositionsA(rest[..k])|
    {
      hide PositionsA, PositionsB, Range;
      assert rest[k] == es[k + 1] && ValueFound(es[k + 1], a, b, cx, cy);
      PositionsOfPrefix(es, k + 1);
      LaterPositions(es, a, b, cx, cy, k + 1);
    }
  }

  lemma {:induction false} EnumeratesWalks<T>(es: seq<Edit<T>>, a: seq<T>, b: seq<T>, cx: int, cy: int)
    requires Enumerates(es, a, b, cx, cy)
    ensures Walks(es, a, b, cx, cy)
    decreases |es|
  {
    if es == [] {
      assert |Range(cx, |a|)| == 0 && |Range(cy, |b|)| == 0;
    } else {
      var e := es[0];
      assert ValueFound(e, a, b, cx, cy) && es[..0] == [];
      assert e.op.Insert? || PositionsA(es)[0] == e.posA == cx;
      assert e.op.Delete? || PositionsB(es)[0] == e.posB == cy;
      var a' := if e.op.Insert? then a else a[1..];
      var b' := if e.op.Delete? then b else b[1..];
      var cx' := if e.op.Insert? then cx else cx + 1;
      var cy' := if e.op.Delete? then cy else cy + 1;
      EnumerationTail(es, a, b, cx, cy, a', b', cx', cy');
      EnumeratesWalks(es[1..], a', b', cx', cy');
    }
  }

  /** Only the first edit can visit the first positions. */
  lemma {:induction false} LaterPositions<T>(es: seq<Edit<T>>, a: seq<T>, b: seq<T>, cx: int, cy: int, k: nat)
    requires 0 < k < |es|
    requires PositionsA(es) == Range(cx, |a|) && PositionsB(es) == Range(cy, |b|)
    ensures !es[0].op.Insert? && !es[k].op.Insert? ==> es[k].posA > cx
    ensures !es[0].op.Delete? && !es[k].op.Delete? ==> es[k].posB > cy
  {
    if !es[0].op.Insert? && !es[k].op.Insert? {
      var i := PositionOfA(es[1..], k - 1);
      assert PositionsA(es)[i + 1] == es[k].posA;
    }
    if !es[0].op.Delete? && !es[k].op.Delete? {
      var i := PositionOfB(es[1..], k - 1);
      assert PositionsB(es)[i + 1] == es[k].posB;
    }
  }

  lemma {:induction false} PositionOfA<T>(es: seq<Edit<T>>, k: nat) returns (i: nat)
    requires k < |es| && !es[k].op.Insert?
    ensures i < |PositionsA(es)| && PositionsA(es)[i] == es[k].posA
    decreases |es|
  {
    if k == 0 {
      i := 0;
    } else {
      i := PositionOfA(es[1..], k - 1);
      i := if es[0].op.Insert? then i else i + 1;
    }
  }

  lemma {:induction false} PositionOfB<T>(es: seq<Edit<T>>, k: nat) returns (i: nat)
    requires k < |es| && !es[k].op.Delete?
    ensures i < |PositionsB(es)| && PositionsB(es)[i] == es[k].posB
    decreases |es|
  {
    if k == 0 {
      i := 0;
    } else {
      i := PositionOfB(es[1..], k - 1);
      i := if es[0].op.Delete? then i else i + 1;
    }
  }

  /** A script is exactly a list of edits whose positions enumerate both sequences. */
  lemma ScriptIffEnumerates<T>(es: seq<Edit<T>>, a: seq<T>, b: seq<T>)
    ensures IsScript(es, a, b) <==> Enumerates(es, a, b, 0, 0)
  {
    if IsScript(es, a, b) {
      WalksEnumerates(es, a, b, 0, 0);
    }
    if Enumerates(es, a, b, 0, 0) {
      EnumeratesWalks(es, a, b, 0, 0);
    }
  }

  /** Every deletion records how many elements of `b` are written before it. */
  ghost predicate DeletionsPlaced<T>(es: seq<Edit<T>>) {
    forall k :: 0 <= k < |es| && es[k].op.Delete? ==> es[k].posB == |PositionsB(es[..k])|
  }

  // ---------- the size of a script ----------

  /** The elements that a script keeps. */
  function Kept<T>(es: seq<Edit<T>>): seq<T> {
    if es == [] then []
    else if es[0].op.Identical? then [es[0].val] + Kept(es[1..])
    else Kept(es[1..])
  }

  /** The number of insertions and deletions. */
  function Cost<T>(es: seq<Edit<T>>): nat {
    if es == [] then 0 else (if es[0].op.Identical? then 0 else 1) + Cost(es[1..])
  }

  lemma {:induction false} CostConcat<T>(es: seq<Edit<T>>, fs: seq<Edit<T>>)
    ensures Cost(es + fs) == Cost(es) + Cost(fs)
    ensures Kept(es + fs) == Kept(es) + Kept(fs)
    decreases |es|
  {
    if es == [] {
      assert es + fs == fs;
    } else {
      assert (es + fs)[0] == es[0] && (es + fs)[1..] == es[1..] + fs;
      CostConcat(es[1..], fs);
    }
  }

  /** What a script keeps is a common subsequence; everything else costs one edit. */
  lemma {:induction false} KeptIsCommon<T>(es: seq<Edit<T>>, a: seq<T>, b: seq<T>, cx: int, cy: int)
    requires Walks(es, a, b, cx, cy)
    ensures IsCommon(Kept(es), a, b)
    ensures Cost(es) + 2 * |Kept(es)| == |a| + |b|
    decreases |es|
  {
    if es == [] {
      EmptySubsequence(a);
      EmptySubsequence(b);
    } else {
      match es[0].op
      case Identical =>
        KeptIsCommon(es[1..], a[1..], b[1..], cx + 1, cy + 1);
        WholeSubsequence([a[0]]);
        ConcatCommon([a[0]], [a[0]], [b[0]], Kept(es[1..]), a[1..], b[1..]);
        assert [a[0]] + a[1..] == a && [b[0]] + b[1..] == b;
      case Delete =>
        KeptIsCommon(es[1..], a[1..], b, cx + 1, cy);
        SubsequenceAfter(Kept(es[1..]), a);
      case Insert =>
        KeptIsCommon(es[1..], a, b[1..], cx, cy + 1);
        SubsequenceAfter(Kept(es[1..]), b);
    }
  }

  lemma SubsequenceAfter<T>(s: seq<T>, a: seq<T>)
    requires a != [] && IsSubsequence(s, a[1..])
    ensures IsSubsequence(s, a)
  {
    EmptySubsequence([a[0]]);
    ConcatSubsequence([], [a[0]], s, a[1..]);
    assert [] + s == s && [a[0]] + a[1..] == a;
  }

  /** No script is cheaper than the edit distance. */
  lemma ScriptCostsAtLeast<T>(es: seq<Edit<T>>, a: seq<T>, b: seq<T>)
    requires IsScript(es, a, b)
    ensures Cost(es) >= EditDistance(a, b)
  {
    KeptIsCommon(es, a, b, 0, 0);
    assert a[..|a|] == a && b[..|b|] == b;
    CommonIsBounded(Kept(es), a, b, |a|, |b|);
  }

  /** A shortest edit script. */
  ghost predicate IsShortestScript<T(!new)>(es: seq<Edit<T>>, a: seq<T>, b: seq<T>) {
    IsScript(es, a, b) && forall fs :: IsScript(fs, a, b) ==> Cost(es) <= Cost(fs)
  }

  /** A script that costs the edit distance is a shortest one, and keeps a longest common subsequence. */
  lemma ShortestScript<T(!new)>(es: seq<Edit<T>>, a: seq<T>, b: seq<T>)
    requires IsScript(es, a, b) && Cost(es) == EditDistance(a, b)
    ensures IsShortestScript(es, a, b)
    ensures IsLongestCommon(Kept(es), a, b)
  {
    forall fs | IsScript(fs, a, b)
      ensures Cost(es) <= Cost(fs)
    {
      ScriptCostsAtLeast(fs, a, b);
    }
    KeptIsCommon(es, a, b, 0, 0);
    LongestIffLength(Kept(es), a, b);
  }

  // ---------- applying a script ----------

  /** What the edits of a non-empty script append to the new sequence. */
  function Produced<T>(es: seq<Edit<T>>, a: seq<T>): seq<T>
    requires IndexesFit(es, a)
  {
    if es == [] then [] else ProducedBy(es[0], a) + Produced(es[1..], a)
  }

  function ProducedBy<T>(e: Edit<T>, a: seq<T>): seq<T>
    requires e.op.Identical? ==> 0 <= e.posA < |a|
  {
    match e.op
    case Insert => [e.val]
    case Identical => [a[e.posA]]
    case Delete => []
  }

  /** The kept elements are indexed inside `a`; anything else makes the program stop. */
  ghost predicate IndexesFit<T>(es: seq<Edit<T>>, a: seq<T>) {
    forall e | e in es && e.op.Identical? :: 0 <= e.posA < |a|
  }

  function Applied<T>(es: seq<Edit<T>>, a: seq<T>): seq<T>
    requires IndexesFit(es, a)
  {
    if es == [] then a else Produced(es, a)
  }

  lemma IndexesFitConcat<T>(es: seq<Edit<T>>, e: Edit<T>, a: seq<T>)
    ensures IndexesFit(es + [e], a) <==> IndexesFit(es, a) && (e.op.Identical? ==> 0 <= e.posA < |a|)
  {
    var more := es + [e];
    assert e in more && forall f | f in es :: f in more;
  }

  lemma {:induction false} ProducedConcat<T>(es: seq<Edit<T>>, e: Edit<T>, a: seq<T>)
    requires IndexesFit(es, a) && (e.op.Identical? ==> 0 <= e.posA < |a|)
    ensures IndexesFit(es + [e], a) && Produced(es + [e], a) == Produced(es, a) + ProducedBy(e, a)
    decreases |es|
  {
    hide ProducedBy;
    IndexesFitConcat(es, e, a);
    if es == [] {
      assert es + [e] == [e];
    } else {
      assert (es + [e])[0] == es[0] && (es + [e])[1..] == es[1..] + [e];
      ProducedConcat(es[1..], e, a);
      assert ProducedBy(es[0], a) + (Produced(es[1..], a) + ProducedBy(e, a))
             == ProducedBy(es[0], a) + Produced(es[1..], a) + ProducedBy(e, a);
    }
  }

  method Apply<T>(es: seq<Edit<T>>, a: seq<T>) returns (b: seq<T>)
    requires IndexesFit(es, a)
    ensures b == Applied(es, a)
  {
    if |es| == 0 {
      return a;
    }
    b := [];
    for i := 0 to |es|
      invariant IndexesFit(es[..i], a) && b == Produced(es[..i], a)
    {
      var action := es[i];
      assert es[..i + 1] == es[..i] + [action];
      assert action in es;
      ProducedConcat(es[..i], action, a);
      match action.op
      case Insert => b := b + [action.val];
      case Identical => b := b + [a[action.posA]];
      case Delete =>
    }
    assert es[..|es|] == es;
  }

  lemma {:induction false} WalkProduces<T>(es: seq<Edit<T>>, a: seq<T>, b: seq<T>, cx: int, cy: int, whole: seq<T>)
    requires Walks(es, a, b, cx, cy)
    requires 0 <= cx <= |whole| && a == whole[cx..]
    ensures IndexesFit(es, whole) && Produced(es, whole) == b
    decreases |es|
  {
    if es != [] {
      match es[0].op
      case Identical => WalkProduces(es[1..], a[1..], b[1..], cx + 1, cy + 1, whole);
      case Delete => WalkProduces(es[1..], a[1..], b, cx + 1, cy, whole);
      case Insert => WalkProduces(es[1..], a, b[1..], cx, cy + 1, whole);
    }
  }

  /** Applying a script from `a` to `b` turns `a` into `b`. */
  lemma ApplyScript<T>(es: seq<Edit<T>>, a: seq<T>, b: seq<T>)
    requires IsScript(es, a, b)
    ensures IndexesFit(es, a) && Applied(es, a) == b
  {
    WalkProduces(es, a, b, 0, 0, a);
  }

  // ---------- reversing a script ----------

  function ReversedEdit<T>(e: Edit<T>): Edit<T> {
    match e.op
    case Identical => Edit(Insert, e.posB, e.posA, e.val)
    case Delete => Edit(Insert, e.posB, e.posA, e.val)
    case Insert => Edit(Delete, e.posB, e.posA, e.val)
  }

  function ReversedScript<T>(es: seq<Edit<T>>): (r: seq<Edit<T>>)
    ensures |r| == |es|
  {
    if es == [] then [] else [ReversedEdit(es[0])] + ReversedScript(es[1..])
  }

  lemma {:induction false} ReversedScriptConcat<T>(es: seq<Edit<T>>, e: Edit<T>)
    ensures ReversedScript(es + [e]) == ReversedScript(es) + [ReversedEdit(e)]
    decreases |es|
  {
    if es == [] {
      assert es + [e] == [e];
    } else {
      assert (es + [e])[0] == es[0] && (es + [e])[1..] == es[1..] + [e];
      ReversedScriptConcat(es[1..], e);
    }
  }

  method Reverse<T>(es: seq<Edit<T>>) returns (rev: seq<Edit<T>>)
    ensures rev == ReversedScript(es)
  {
    rev := [];
    for i := 0 to |es|
      invariant rev == ReversedScript(es[..i])
    {
      var e := es[i];
      assert es[..i + 1] == es[..i] + [e];
      ReversedScriptConcat(es[..i], e);
      match e.op
      case Identical => rev := rev + [Edit(Insert, e.posB, e.posA, e.val)];
      case Delete => rev := rev + [Edit(Insert, e.posB, e.posA, e.val)];
      case Insert => rev := rev + [Edit(Delete, e.posB, e.posA, e.val)];
    }
    assert es[..|es|] == es;
  }

  /** The positions in the new sequence of what a script inserts. */
  function Inserted<T>(es: seq<Edit<T>>): seq<int> {
    if es == [] then []
    else (if es[0].op.Insert? then [es[0].posB] else []) + Inserted(es[1..])
  }

  lemma {:induction false} ReversedPositions<T>(es: seq<Edit<T>>)
    ensures PositionsA(ReversedScript(es)) == Inserted(es)
    ensures PositionsB(ReversedScript(es)) == PositionsA(es)
    ensures forall k | 0 <= k < |es| :: ReversedScript(es)[k] == ReversedEdit(es[k])
    decreases |es|
  {
    if es != [] {
      ReversedPositions(es[1..]);
      assert ReversedScript(es)[1..] == ReversedScript(es[1..]);
    }
  }

  /** The reversed script deletes from `b` exactly what the script inserts, at its positions, and inserts `a`,
      element by element; what was kept is inserted where `b` has it. */
  lemma ReversedPlaces<T>(es: seq<Edit<T>>, a: seq<T>, b: seq<T>)
    requires IsScript(es, a, b)
    ensures var rev := ReversedScript(es);
            && PositionsA(rev) == Inserted(es) && PositionsB(rev) == Range(0, |a|)
            && (forall k | 0 <= k < |rev| && rev[k].op.Delete? :: 0 <= rev[k].posA < |b| && b[rev[k].posA] == rev[k].val)
            && (forall k | 0 <= k < |rev| && rev[k].op.Insert? :: 0 <= rev[k].posB < |a| && a[rev[k].posB] == rev[k].val)
            && (forall k | 0 <= k < |rev| && es[k].op.Identical? :: 0 <= rev[k].posA < |b| && b[rev[k].posA] == rev[k].val)
            && (forall k | 0 <= k < |rev| :: !rev[k].op.Identical?)
  {
    hide Walks, PositionsA, PositionsB, Inserted;
    WalksEnumerates(es, a, b, 0, 0);
    ReversedPositions(es);
    forall k | 0 <= k < |es|
      ensures ValueFound(es[k], a, b, 0, 0) && ReversedScript(es)[k] == ReversedEdit(es[k])
    {
    }
  }

  lemma {:induction false} ReversedProduces<T>(es: seq<Edit<T>>, a: seq<T>, b: seq<T>, cx: int, cy: int, other: seq<T>)
    requires Walks(es, a, b, cx, cy)
    ensures IndexesFit(ReversedScript(es), other) && Produced(ReversedScript(es), other) == a
    decreases |es|
  {
    if es != [] {
      match es[0].op
      case Identical => ReversedProduces(es[1..], a[1..], b[1..], cx + 1, cy + 1, other);
      case Delete => ReversedProduces(es[1..], a[1..], b, cx + 1, cy, other);
      case Insert => ReversedProduces(es[1..], a, b[1..], cx, cy + 1, other);
    }
  }

  /** The reversed script turns `b` back into `a`, although it inserts what the script kept. */
  lemma ApplyReversedScript<T>(es: seq<Edit<T>>, a: seq<T>, b: seq<T>)
    requires IsScript(es, a, b)
    ensures IndexesFit(ReversedScript(es), b) && Applied(ReversedScript(es), b) == a
  {
    ReversedProduces(es, a, b, 0, 0, b);
  }

  lemma ReversedTwiceFirst<T>(es: seq<Edit<T>>)
    requires es != []
    ensures ReversedScript(ReversedScript(es))
            == [ReversedEdit(ReversedEdit(es[0]))] + ReversedScript(ReversedScript(es[1..]))
  {
    assert ReversedScript(es)[1..] == ReversedScript(es[1..]);
  }

  lemma {:induction false} ReversedTwiceProduces<T>(es: seq<Edit<T>>, a: seq<T>, b: seq<T>, cx: int, cy: int, other: seq<T>)
    requires Walks(es, a, b, cx, cy)
    ensures var rr := ReversedScript(ReversedScript(es));
            && IndexesFit(rr, other)
            && |Produced(rr, other)| == |b| - |Kept(es)|
            && (Kept(es) == [] ==> Produced(rr, other) == b)
    decreases |es|
  {
    if es != [] {
      ReversedTwiceFirst(es);
      hide ReversedScript;
      match es[0].op
      case Identical => ReversedTwiceProduces(es[1..], a[1..], b[1..], cx + 1, cy + 1, other);
      case Delete => ReversedTwiceProduces(es[1..], a[1..], b, cx + 1, cy, other);
      case Insert => ReversedTwiceProduces(es[1..], a, b[1..], cx, cy + 1, other);
    }
  }

  /** Reversing forgets what was kept: reversing twice gives a script to `b` again exactly when the
      original script keeps nothing. */
  lemma ReversedTwiceIff<T>(es: seq<Edit<T>>, a: seq<T>, b: seq<T>)
    requires IsScript(es, a, b)
    ensures var rr := ReversedScript(ReversedScript(es));
            && IndexesFit(rr, a)
            && (Applied(rr, a) == b <==> Kept(es) == [])
  {
    ReversedTwiceProduces(es, a, b, 0, 0, a);
  }
}
