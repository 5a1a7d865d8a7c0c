/** The divide-and-conquer recursions on top of the middle snake. */
module LcsMyersDiff {
  import opened LcsGrid
  import opened LcsSubsequence
  import opened LcsEditScript
  import opened LcsMyers

  // ---------- distances zero and one ----------

  lemma {:induction false} ZeroDistance<T>(a: seq<T>, b: seq<T>, x: nat, y: nat)
    requires x <= |a| && y <= |b|
    requires Dist(a, b, x, y) == 0
    ensures x == y && a[..x] == b[..y]
    decreases x
  {
    DistAtLeastDiagonal(a, b, x, y);
    if x > 0 {
      DistSteps(a, b, x - 1, y - 1);
      DistAtLeastDiagonal(a, b, x, y - 1);
      DistAtLeastDiagonal(a, b, x - 1, y);
      ZeroDistance(a, b, x - 1, y - 1);
      assert a[..x] == a[..x - 1] + [a[x - 1]] && b[..y] == b[..y - 1] + [b[y - 1]];
    }
  }

  lemma EqualIfDistanceZero<T>(a: seq<T>, b: seq<T>)
    requires EditDistance(a, b) == 0
    ensures a == b
  {
    ZeroDistance(a, b, |a|, |b|);
    assert a[..|a|] == a && b[..|b|] == b;
  }

  lemma {:induction false} FullLengthSubsequence<T>(s: seq<T>, a: seq<T>, n: nat)
    requires n <= |a| && |s| == n && IsSubsequence(s, a[..n])
    ensures s == a[..n]
    decreases n
  {
    if n > 0 {
      SubsequenceLast(s, a, n);
      if s[n - 1] != a[n - 1] {
        SubsequenceNoLonger(s, a[..n - 1]);
      }
      FullLengthSubsequence(s[..n - 1], a, n - 1);
      assert s == s[..n - 1] + [s[n - 1]] && a[..n] == a[..n - 1] + [a[n - 1]];
    }
  }

  /** At most one edit apart, the shorter sequence is a longest common subsequence. */
  lemma ShorterIsLongestCommon<T(!new)>(a: seq<T>, b: seq<T>)
    requires EditDistance(a, b) <= 1
    ensures IsLongestCommon(if |b| > |a| then a else b, a, b)
  {
    DistAtLeastDiagonal(a, b, |a|, |b|);
    assert a[..|a|] == a && b[..|b|] == b;
    var s := CommonIsAttained(a, b, |a|, |b|);
    if |b| > |a| {
      FullLengthSubsequence(s, a, |a|);
    } else {
      FullLengthSubsequence(s, b, |b|);
    }
    LongestIffLength(s, a, b);
  }

  // ---------- the longest common subsequence ----------

  /** Both parts beside a middle snake of more than one edit, or beside a non-empty snake, are smaller. */
  lemma PartsAreSmaller<T>(a: seq<T>, b: seq<T>, d: int, x: int, y: int, u: int, v: int)
    requires IsMiddleSnake(a, b, d, x, y, u, v)
    requires d > 1 || x != u
    ensures x + y < |a| + |b|
    ensures (|a| - u) + (|b| - v) < |a| + |b|
  {
    hide CommonLen, Dist;
    DistanceBounds(a[..x], b[..y]);
    DistanceBounds(a[u..], b[v..]);
  }

  lemma SnakeLengths<T>(a: seq<T>, b: seq<T>, d: int, x: int, y: int, u: int, v: int)
    requires IsMiddleSnake(a, b, d, x, y, u, v)
    ensures CommonLen(a, b, |a|, |b|) ==
              CommonLen(a[..x], b[..y], x, y) + (u - x) + CommonLen(a[u..], b[v..], |a| - u, |b| - v)
  {
    hide CommonLen;
  }

  lemma SnakeJoins<T(!new)>(a: seq<T>, b: seq<T>, d: int, x: int, y: int, u: int, v: int, l: seq<T>, r: seq<T>)
    requires IsMiddleSnake(a, b, d, x, y, u, v)
    requires IsLongestCommon(l, a[..x], b[..y])
    requires IsLongestCommon(r, a[u..], b[v..])
    ensures IsLongestCommon(l + a[x..u] + r, a, b)
  {
    hide CommonLen, Dist, IsLongestCommon, IsSubsequence;
    LongestIffLength(l, a[..x], b[..y]);
    LongestIffLength(r, a[u..], b[v..]);
    SnakeLengths(a, b, d, x, y, u, v);
    WholeSubsequence(a[x..u]);
    ConcatCommon(l, a[..x], b[..y], a[x..u], a[x..u], b[y..v]);
    assert a[..x] + a[x..u] == a[..u] && b[..y] + b[y..v] == b[..v];
    ConcatCommon(l + a[x..u], a[..u], b[..v], r, a[u..], b[v..]);
    assert a[..u] + a[u..] == a && b[..v] + b[v..] == b;
    LongestIffLength(l + a[x..u] + r, a, b);
  }

  method Lcs<T(==, !new)>(a: seq<T>, b: seq<T>) returns (r: seq<T>)
    ensures IsLongestCommon(r, a, b)
    decreases |a| + |b|
  {
    hide CommonLen, Dist, IsMiddleSnake, IsLongestCommon;
    if |a| == 0 || |b| == 0 {
      NothingInCommon(a, b);
      return [];
    }
    var d, x, y, u, v := MiddleSnake(a, b);
    SnakeInGrid(a, b, d, x, y, u, v);
    if d > 1 {
      PartsAreSmaller(a, b, d, x, y, u, v);
      r := Lcs(a[..x], b[..y]);
      ghost var l := r;
      r := r + a[x..u];
      var tail := Lcs(a[u..], b[v..]);
      r := r + tail;
      SnakeJoins(a, b, d, x, y, u, v, l, tail);
      return r;
    }
    ShorterIsLongestCommon(a, b);
    if |b| > |a| {
      return a;
    }
    return b;
  }

  lemma SnakeInGrid<T>(a: seq<T>, b: seq<T>, d: int, x: int, y: int, u: int, v: int)
    requires IsMiddleSnake(a, b, d, x, y, u, v)
    ensures 0 <= x <= u <= |a| && 0 <= y <= v <= |b| && u - x == v - y && d == EditDistance(a, b)
  {
  }

  lemma NothingInCommon<T(!new)>(a: seq<T>, b: seq<T>)
    requires a == [] || b == []
    ensures IsLongestCommon([], a, b)
  {
    EmptySubsequence(a);
    EmptySubsequence(b);
    LongestIffLength([], a, b);
  }

  // ---------- the shortest edit script ----------

  /** A run of edits of one kind for consecutive values.  The position in `a` stays put for insertions; the
      position in `b` moves on for all three kinds. */
  function EditRun<T>(vals: seq<T>, op: EditOp, cx: int, cy: int): (r: seq<Edit<T>>)
    ensures |r| == |vals|
  {
    seq(|vals|, i requires 0 <= i < |vals| => Edit(op, if op == Insert then cx else cx + i, cy + i, vals[i]))
  }

  method Edits<T>(vals: seq<T>, op: EditOp, cx: int, cy: int) returns (edits: seq<Edit<T>>)
    ensures edits == EditRun(vals, op, cx, cy)
  {
    edits := [];
    for i := 0 to |vals|
      invariant edits == EditRun(vals, op, cx, cy)[..i]
    {
      var atx := cx + i;
      if op == Insert {
        atx := cx;
      }
      edits := edits + [Edit(op, atx, cy + i, vals[i])];
    }
  }

  lemma EditRunTail<T>(vals: seq<T>, op: EditOp, cx: int, cy: int)
    requires vals != []
    ensures EditRun(vals, op, cx, cy)[1..] == EditRun(vals[1..], op, if op == Insert then cx else cx + 1, cy + 1)
  {
  }

  lemma {:induction false} IdenticalRun<T>(vals: seq<T>, cx: int, cy: int)
    ensures Walks(EditRun(vals, Identical, cx, cy), vals, vals, cx, cy)
    ensures Cost(EditRun(vals, Identical, cx, cy)) == 0
    decreases |vals|
  {
    if vals != [] {
      EditRunTail(vals, Identical, cx, cy);
      IdenticalRun(vals[1..], cx + 1, cy + 1);
    }
  }

  lemma {:induction false} InsertRun<T>(vals: seq<T>, cx: int, cy: int)
    ensures Walks(EditRun(vals, Insert, cx, cy), [], vals, cx, cy)
    ensures Cost(EditRun(vals, Insert, cx, cy)) == |vals|
    decreases |vals|
  {
    if vals != [] {
      EditRunTail(vals, Insert, cx, cy);
      InsertRun(vals[1..], cx, cy + 1);
    }
  }

  lemma {:induction false} DeleteRun<T>(vals: seq<T>, cx: int, cy: int, cy': int)
    ensures Walks(EditRun(vals, Delete, cx, cy), vals, [], cx, cy')
    ensures Cost(EditRun(vals, Delete, cx, cy)) == |vals|
    decreases |vals|
  {
    if vals != [] {
      EditRunTail(vals, Delete, cx, cy);
      DeleteRun(vals[1..], cx + 1, cy + 1, cy');
    }
  }

  // ---------- where deletions are placed ----------

  /** Deletion `k` is placed one after the deletion just before it. */
  ghost predicate Continues<T>(es: seq<Edit<T>>, k: int) {
    0 < k < |es| && es[k].op.Delete? && es[k - 1].op.Delete? && es[k].posB == es[k - 1].posB + 1
  }

  /** Every deletion records how many elements of `b` are written before it, counted from `cy`, or continues
      the deletion before it. */
  ghost predicate DeletionsDrift<T>(es: seq<Edit<T>>, cy: int) {
    forall k :: 0 <= k < |es| && es[k].op.Delete? ==> es[k].posB == cy + |PositionsB(es[..k])| || Continues(es, k)
  }

  lemma {:induction false} PositionsBConcat<T>(es: seq<Edit<T>>, fs: seq<Edit<T>>)
    ensures PositionsB(es + fs) == PositionsB(es) + PositionsB(fs)
    decreases |es|
  {
    if es == [] {
      assert es + fs == fs;
    } else {
      PositionsBConcat(es[1..], fs);
      assert (es + fs)[1..] == es[1..] + fs;
    }
  }

  lemma DriftConcat<T>(es: seq<Edit<T>>, fs: seq<Edit<T>>, cy: int, n: nat)
    requires DeletionsDrift(es, cy) && |PositionsB(es)| == n && DeletionsDrift(fs, cy + n)
    ensures DeletionsDrift(es + fs, cy)
  {
    hide PositionsB;
    var all := es + fs;
    forall k | 0 <= k < |all| && all[k].op.Delete?
      ensures all[k].posB == cy + |PositionsB(all[..k])| || Continues(all, k)
    {
      if k < |es| {
        assert all[..k] == es[..k];
        assert Continues(es, k) ==> Continues(all, k);
      } else {
        var j := k - |es|;
        PositionsBConcat(es, fs[..j]);
        assert all[..k] == es + fs[..j];
        assert Continues(fs, j) ==> Continues(all, k);
      }
    }
  }

  lemma {:induction false} DeletionsWriteNothing<T>(es: seq<Edit<T>>)
    requires forall e | e in es :: e.op.Delete?
    ensures PositionsB(es) == []
    decreases |es|
  {
    if es != [] {
      DeletionsWriteNothing(es[1..]);
    }
  }

  /** In a run of deletions the position in `b` drifts: it is the number of elements of `b` written so far
      only for the first edit of the run, and undoing the run inserts at drifting positions. */
  lemma DeletionRunDrifts<T>(vals: seq<T>, cx: int, cy: int, i: nat)
    requires i < |vals|
    ensures var run := EditRun(vals, Delete, cx, cy);
            && PositionsB(run[..i]) == []
            && (run[i].posB == cy + |PositionsB(run[..i])| <==> i == 0)
            && (Continues(run, i) <==> i > 0)
            && (ReversedScript(run[i..i + 1])[0].posA == cy <==> i == 0)
  {
    DeletionsWriteNothing(EditRun(vals, Delete, cx, cy)[..i]);
  }

  lemma RunDrifts<T>(vals: seq<T>, op: EditOp, cx: int, cy: int)
    ensures DeletionsDrift(EditRun(vals, op, cx, cy), cy)
  {
    var run := EditRun(vals, op, cx, cy);
    forall k | 0 <= k < |run| && run[k].op.Delete?
      ensures run[k].posB == cy + |PositionsB(run[..k])| || Continues(run, k)
    {
      DeletionRunDrifts(vals, cx, cy, k);
    }
  }

  /** A script writes as many positions as there are elements of `b`. */
  lemma PositionsWritten<T>(es: seq<Edit<T>>, a: seq<T>, b: seq<T>, cx: int, cy: int)
    requires Walks(es, a, b, cx, cy)
    ensures |PositionsB(es)| == |b|
  {
    WalksEnumerates(es, a, b, cx, cy);
  }

  /** The deletions of a script are placed where they occur if and only if none of them continues the one
      before it. */
  lemma DeletionPositionDrifts<T>(es: seq<Edit<T>>)
    requires DeletionsDrift(es, 0)
    ensures DeletionsPlaced(es) <==> forall k :: !Continues(es, k)
  {
    forall k | Continues(es, k)
      ensures !DeletionsPlaced(es)
    {
      assert es[..k] == es[..k - 1] + [es[k - 1]];
      PositionsBConcat(es[..k - 1], [es[k - 1]]);
    }
  }

  function Deletions<T>(es: seq<Edit<T>>): nat {
    if es == [] then 0 else (if es[0].op.Delete? then 1 else 0) + Deletions(es[1..])
  }

  lemma {:induction false} DeletionsConcat<T>(es: seq<Edit<T>>, fs: seq<Edit<T>>)
    ensures Deletions(es + fs) == Deletions(es) + Deletions(fs)
    decreases |es|
  {
    if es == [] {
      assert es + fs == fs;
    } else {
      DeletionsConcat(es[1..], fs);
      assert (es + fs)[1..] == es[1..] + fs;
    }
  }

  /** What is not deleted of `a` is kept. */
  lemma {:induction false} DeletedOrKept<T>(es: seq<Edit<T>>, a: seq<T>, b: seq<T>, cx: int, cy: int)
    requires Walks(es, a, b, cx, cy)
    ensures |a| == |Kept(es)| + Deletions(es)
    decreases |es|
  {
    if es != [] {
      match es[0].op
      case Identical => DeletedOrKept(es[1..], a[1..], b[1..], cx + 1, cy + 1);
      case Delete => DeletedOrKept(es[1..], a[1..], b, cx + 1, cy);
      case Insert => DeletedOrKept(es[1..], a, b[1..], cx, cy + 1);
    }
  }

  /** A deletion that continues another makes two. */
  lemma ContinuesIsTwo<T>(es: seq<Edit<T>>, k: int)
    requires Continues(es, k)
    ensures Deletions(es) >= 2
  {
    var two := [es[k - 1], es[k]];
    assert es == es[..k - 1] + (two + es[k + 1..]);
    DeletionsConcat(es[..k - 1], two + es[k + 1..]);
    DeletionsConcat(two, es[k + 1..]);
    assert two[1..] == [es[k]] && two[1..][1..] == [];
  }

  /** A script between `a` and `b`, at the offsets `cx` and `cy`, of the least possible cost, with its
      deletions placed or drifting. */
  ghost predicate IsSesOf<T>(es: seq<Edit<T>>, a: seq<T>, b: seq<T>, cx: int, cy: int) {
    Walks(es, a, b, cx, cy) && Cost(es) == EditDistance(a, b) && DeletionsDrift(es, cy)
  }

  lemma PartsConcat<T>(es: seq<Edit<T>>, a: seq<T>, b: seq<T>, fs: seq<Edit<T>>, c: seq<T>, d: seq<T>, cx: int, cy: int)
    requires Walks(es, a, b, cx, cy) && DeletionsDrift(es, cy)
    requires Walks(fs, c, d, cx + |a|, cy + |b|) && DeletionsDrift(fs, cy + |b|)
    ensures Walks(es + fs, a + c, b + d, cx, cy) && DeletionsDrift(es + fs, cy)
    ensures Cost(es + fs) == Cost(es) + Cost(fs)
  {
    hide Walks, DeletionsDrift, Cost, PositionsB;
    WalksConcat(es, a, b, fs, c, d, cx, cy);
    CostConcat(es, fs);
    PositionsWritten(es, a, b, cx, cy);
    DriftConcat(es, fs, cy, |b|);
  }

  /** Cheapest scripts for both sides of a middle snake join to a cheapest script. */
  lemma ScriptsJoin<T>(a: seq<T>, b: seq<T>, d: int, x: int, y: int, u: int, v: int, cx: int, cy: int,
                       l: seq<Edit<T>>, r: seq<Edit<T>>)
    requires IsMiddleSnake(a, b, d, x, y, u, v)
    requires IsSesOf(l, a[..x], b[..y], cx, cy)
    requires IsSesOf(r, a[u..], b[v..], cx + u, cy + v)
    ensures IsSesOf(l + EditRun(a[x..u], Identical, cx + x, cy + y) + r, a, b, cx, cy)
    ensures x == u ==> IsSesOf(l + r, a, b, cx, cy)
  {
    hide CommonLen, Dist, Walks, DeletionsDrift;
    var snake := EditRun(a[x..u], Identical, cx + x, cy + y);
    IdenticalRun(a[x..u], cx + x, cy + y);
    RunDrifts(a[x..u], Identical, cx + x, cy + y);
    PartsConcat(l, a[..x], b[..y], snake, a[x..u], b[y..v], cx, cy);
    assert a[..x] + a[x..u] == a[..u] && b[..y] + b[y..v] == b[..v];
    PartsConcat(l + snake, a[..u], b[..v], r, a[u..], b[v..], cx, cy);
    assert a[..u] + a[u..] == a && b[..v] + b[v..] == b;
    assert x == u ==> l + snake == l;
  }

  lemma EqualPrefixesMatch<T>(a: seq<T>, b: seq<T>, n: nat)
    requires 0 < n <= |a| && n <= |b| && a[..n] == b[..n]
    ensures Matches(a, b, n - 1, n - 1)
  {
    assert a[..n][n - 1] == b[..n][n - 1];
  }

  lemma EqualSuffixesMatch<T>(a: seq<T>, b: seq<T>, u: nat, v: nat)
    requires u < |a| && v <= |b| && a[u..] == b[v..]
    ensures Matches(a, b, u, v)
  {
    assert |a[u..]| == |b[v..]|;
    assert a[u..][0] == b[v..][0];
  }

  /** An empty middle snake of at most one edit: one sequence is a proper prefix of the other. */
  lemma EmptySnakeIsPrefix<T>(a: seq<T>, b: seq<T>, d: int, x: int, y: int, u: int, v: int)
    requires a != [] && b != []
    requires IsMiddleSnake(a, b, d, x, y, u, v)
    requires d <= 1 && x == u
    ensures d == 1
    ensures (|b| == |a| + 1 && a == b[..|a|]) || (|a| == |b| + 1 && b == a[..|b|])
  {
    hide CommonLen, Dist;
    DistanceBounds(a, b);
    EqualIfDistanceZero(a[u..], b[v..]);
    if d == 0 {
      EqualIfDistanceZero(a[..x], b[..y]);
      if x > 0 {
        EqualPrefixesMatch(a, b, x);
      }
    } else {
      if u < |a| {
        EqualSuffixesMatch(a, b, u, v);
      }
      if x > 0 && Dist(a, b, x - 1, y) == 0 {
        ZeroDistance(a, b, x - 1, y);
      } else {
        ZeroDistance(a, b, x, y - 1);
      }
      assert a[..|a|] == a && b[..|b|] == b;
    }
  }

  /** A prefix, kept as it is, and a cheapest script for the one element that is left. */
  lemma PrefixScript<T>(a: seq<T>, b: seq<T>, n: nat, cx: int, cy: int, r: seq<Edit<T>>)
    requires n <= |a| && n <= |b| && (n == |a| || n == |b|) && a[..n] == b[..n]
    requires EditDistance(a, b) == |a| - n + |b| - n
    requires IsSesOf(r, a[n..], b[n..], cx + n, cy + n)
    ensures IsSesOf(EditRun(a[..n], Identical, cx, cy) + r, a, b, cx, cy)
  {
    var kept := EditRun(a[..n], Identical, cx, cy);
    IdenticalRun(a[..n], cx, cy);
    RunDrifts(a[..n], Identical, cx, cy);
    PartsConcat(kept, a[..n], b[..n], r, a[n..], b[n..], cx, cy);
    assert a[..n] + a[n..] == a && b[..n] + b[n..] == b;
  }

  /** With one sequence exhausted, the other is deleted or inserted as a whole. */
  lemma LastRunIsSes<T>(a: seq<T>, b: seq<T>, cx: int, cy: int)
    requires a == [] || b == []
    ensures a != [] ==> IsSesOf(EditRun(a, Delete, cx, cy), a, b, cx, cy)
    ensures a == [] ==> IsSesOf(EditRun(b, Insert, cx, cy), a, b, cx, cy)
  {
    DeleteRun(a, cx, cy, cy);
    InsertRun(b, cx, cy);
    RunDrifts(a, Delete, cx, cy);
    RunDrifts(b, Insert, cx, cy);
  }

  method Ses<T(==)>(a: seq<T>, b: seq<T>, na: int, nb: int, cx: int, cy: int) returns (ses: seq<Edit<T>>)
    requires na == |a| && nb == |b|
    ensures IsSesOf(ses, a, b, cx, cy)
    ensures b == [] ==> ses == EditRun(a, Delete, cx, cy)
    decreases |a| + |b|
  {
    hide CommonLen, Dist, IsMiddleSnake, IsSesOf, Walks, EditRun;
    ses := [];
    if na > 0 && nb > 0 {
      var d, x, y, u, v := MiddleSnake(a, b);
      SnakeInGrid(a, b, d, x, y, u, v);
      if d > 1 || (x != u && y != v) {
        PartsAreSmaller(a, b, d, x, y, u, v);
        assert a[0..x] == a[..x] && b[0..y] == b[..y] && a[u..na] == a[u..] && b[v..nb] == b[v..];
        var left := Ses(a[0..x], b[0..y], x, y, cx, cy);
        ses := ses + left;
        assert ses == left;
        if x != u && y != v {
          var snake := Edits(a[x..u], Identical, cx + x, cy + y);
          ses := ses + snake;
        }
        var right := Ses(a[u..na], b[v..nb], na - u, nb - v, cx + u, cy + v);
        ScriptsJoin(a, b, d, x, y, u, v, cx, cy, left, right);
        return ses + right;
      }
      EmptySnakeIsPrefix(a, b, d, x, y, u, v);
      if nb > na {
        var kept := Edits(a[0..na], Identical, cx, cy);
        ses := ses + kept;
        var rest := Ses([], b[na..nb], 0, nb - na, cx + na, cy + na);
        assert a[0..na] == a[..na] && ses == EditRun(a[..na], Identical, cx, cy);
        assert a[na..] == [] && b[na..nb] == b[na..];
        PrefixScript(a, b, na, cx, cy, rest);
        return ses + rest;
      }
      if na > nb {
        var kept := Edits(b[0..nb], Identical, cx, cy);
        ses := ses + kept;
        var rest := Ses(a[nb..na], [], na - nb, 0, cx + nb, cy + nb);
        assert b[0..nb] == a[..nb] && ses == EditRun(a[..nb], Identical, cx, cy);
        assert b[..nb] == a[..nb] && b[nb..] == [] && a[nb..na] == a[nb..];
        PrefixScript(a, b, nb, cx, cy, rest);
        return ses + rest;
      }
      assert false;
      return ses;
    }
    LastRunIsSes(a, b, cx, cy);
    if na > 0 {
      ses := Edits(a, Delete, cx, cy);
      return ses;
    }
    ses := Edits(b, Insert, cx, cy);
  }

  /** The shortest edit script, and with it a longest common subsequence.  Its deletions are placed where they
      occur exactly if none continues the one before; deleting everything goes wrong from the second on. */
  method ShortestEditScript<T(==, !new)>(a: seq<T>, b: seq<T>) returns (es: seq<Edit<T>>)
    ensures IsShortestScript(es, a, b)
    ensures Cost(es) == |a| + |b| - 2 * CommonLen(a, b, |a|, |b|)
    ensures IsLongestCommon(Kept(es), a, b)
    ensures DeletionsDrift(es, 0) && (DeletionsPlaced(es) <==> forall k :: !Continues(es, k))
    ensures |a| - CommonLen(a, b, |a|, |b|) <= 1 ==> DeletionsPlaced(es)
    ensures b == [] ==> (DeletionsPlaced(es) <==> |a| <= 1)
  {
    hide CommonLen, Walks;
    es := Ses(a, b, |a|, |b|, 0, 0);
    ShortestScript(es, a, b);
    DeletionPositionDrifts(es);
    LongestIffLength(Kept(es), a, b);
    DeletedOrKept(es, a, b, 0, 0);
    forall k | Continues(es, k)
      ensures |a| - CommonLen(a, b, |a|, |b|) > 1
    {
      ContinuesIsTwo(es, k);
    }
    if b == [] && |a| > 1 {
      DeletionRunDrifts(a, 0, 0, 1);
    }
  }
}
