/** Myers' linear-space search for a middle snake. */
module LcsMyers {
  import opened LcsGrid

  // ---------- furthest reaching points ----------

  /** Paths with exactly `d` edits end on the diagonals `-d`, `-d + 2`, .. `d`; this is the `i`-th of them. */
  function Diagonal(d: int, i: int): int {
    2 * i - d
  }

  /** `x` is the furthest point on diagonal `k` that `d` edits reach. */
  ghost predicate Furthest<T>(a: seq<T>, b: seq<T>, d: int, k: int, x: int) {
    x >= 0 && x >= k && Dist(a, b, x, x - k) <= d < Dist(a, b, x + 1, x + 1 - k)
  }

  /** `v` holds the furthest point on the `i`-th diagonal of stage `d`. */
  ghost predicate FurthestAt<T>(a: seq<T>, b: seq<T>, d: int, v: seq<int>, offset: int, i: int) {
    var k := Diagonal(d, i);
    0 <= offset + k < |v| && Furthest(a, b, d, k, v[offset + k])
  }

  /** After stage `d` the array `v` holds the furthest reaching points of that stage; before stage 0 it
      holds the zero that the search starts from. */
  ghost predicate Frontier<T>(a: seq<T>, b: seq<T>, d: int, v: seq<int>, offset: int) {
    && (d < 0 ==> 0 <= offset + 1 < |v| && v[offset + 1] == 0)
    && forall i | 0 <= i <= d :: FurthestAt(a, b, d, v, offset, i)
  }

  lemma FurthestCovers<T>(a: seq<T>, b: seq<T>, d: int, k: int, f: int, x: int)
    requires Furthest(a, b, d, k, f)
    requires x >= 0 && x >= k
    ensures x <= f <==> Dist(a, b, x, x - k) <= d
  {
    hide CommonLen, Dist;
    if x <= f {
      DistDiagonalMonotone(a, b, x, x - k, f - x);
    } else {
      DistDiagonalMonotone(a, b, f + 1, f + 1 - k, x - f - 1);
    }
  }

  /** Where the search enters diagonal `k` in stage `d`: one edit down or to the right. */
  function EntryPoint(v: seq<int>, offset: int, d: int, k: int): int
    requires -d <= k <= d
    requires 0 <= offset - d && offset + d < |v| && offset + 1 < |v|
  {
    if k == -d || (k != d && v[offset + k - 1] < v[offset + k + 1]) then v[offset + k + 1]
    else v[offset + k - 1] + 1
  }

  /** `(x, y)` lies one edit after a point at distance `c`. */
  ghost predicate OneEditAfter<T>(a: seq<T>, b: seq<T>, c: int, x: nat, y: nat) {
    (x > 0 && Dist(a, b, x - 1, y) == c) || (y > 0 && Dist(a, b, x, y - 1) == c)
  }

  lemma EnteredDown<T>(a: seq<T>, b: seq<T>, d: int, k: int, x: int)
    requires d > 0 && Furthest(a, b, d - 1, k + 1, x)
    ensures x >= 0 && x >= k && Dist(a, b, x, x - k) <= d
    ensures Dist(a, b, x, x - k) == d ==> OneEditAfter(a, b, d - 1, x, x - k)
  {
    hide CommonLen, Dist;
    DistSteps(a, b, x, x - k - 1);
    assert Dist(a, b, x, x - k) == d ==> Dist(a, b, x, x - k - 1) == d - 1;
  }

  lemma EnteredRight<T>(a: seq<T>, b: seq<T>, d: int, k: int, x: int)
    requires d > 0 && Furthest(a, b, d - 1, k - 1, x - 1)
    ensures x >= 0 && x >= k && Dist(a, b, x, x - k) <= d
    ensures Dist(a, b, x, x - k) == d ==> OneEditAfter(a, b, d - 1, x, x - k)
  {
    hide CommonLen, Dist;
    DistSteps(a, b, x - 1, x - k);
    assert Dist(a, b, x, x - k) == d ==> Dist(a, b, x - 1, x - k) == d - 1;
  }

  /** The entry point takes at most `d` edits. */
  lemma EntryPointReached<T>(a: seq<T>, b: seq<T>, d: int, v: seq<int>, offset: int, i: int)
    requires 0 <= i <= d
    requires 0 <= offset - d && offset + d < |v| && offset + 1 < |v|
    requires Frontier(a, b, d - 1, v, offset)
    ensures var k := Diagonal(d, i);
            var x := EntryPoint(v, offset, d, k);
            && x >= 0 && x >= k && Dist(a, b, x, x - k) <= d
            && (d == 0 ==> x == 0)
            && (Dist(a, b, x, x - k) == d && d > 0 ==> OneEditAfter(a, b, d - 1, x, x - k))
  {
    hide CommonLen, Dist, Furthest, OneEditAfter;
    var k := Diagonal(d, i);
    var x := EntryPoint(v, offset, d, k);
    if d == 0 {
      assert x == 0;
      DistAtOrigin(a, b);
    } else if k == -d || (k != d && v[offset + k - 1] < v[offset + k + 1]) {
      assert k + 1 == Diagonal(d - 1, i);
      assert FurthestAt(a, b, d - 1, v, offset, i);
      EnteredDown(a, b, d, k, x);
    } else {
      assert k - 1 == Diagonal(d - 1, i - 1);
      assert FurthestAt(a, b, d - 1, v, offset, i - 1);
      EnteredRight(a, b, d, k, x);
    }
  }

  /** One more insertion after `x` on the `i`-th diagonal is out of reach of `d - 1` edits. */
  lemma InsertionOutOfReach<T>(a: seq<T>, b: seq<T>, d: int, v: seq<int>, offset: int, i: int, x: int)
    requires 0 <= i <= d && d > 0
    requires 0 <= offset - d && offset + d < |v|
    requires Frontier(a, b, d - 1, v, offset)
    requires x >= 0 && x >= Diagonal(d, i)
    requires i > 0 ==> x > v[offset + Diagonal(d, i) - 1]
    ensures Dist(a, b, x, x - Diagonal(d, i) + 1) >= d
  {
    hide CommonLen, Dist;
    var k := Diagonal(d, i);
    if i > 0 {
      assert FurthestAt(a, b, d - 1, v, offset, i - 1);
      FurthestCovers(a, b, d - 1, k - 1, v[offset + k - 1], x);
    } else {
      DistAtLeastDiagonal(a, b, x, x - k + 1);
    }
  }

  /** Nor is one more deletion. */
  lemma DeletionOutOfReach<T>(a: seq<T>, b: seq<T>, d: int, v: seq<int>, offset: int, i: int, x: int)
    requires 0 <= i <= d && d > 0
    requires 0 <= offset - d && offset + d < |v|
    requires Frontier(a, b, d - 1, v, offset)
    requires x >= 0 && x >= Diagonal(d, i)
    requires i < d ==> x >= v[offset + Diagonal(d, i) + 1]
    ensures Dist(a, b, x + 1, x - Diagonal(d, i)) >= d
  {
    hide CommonLen, Dist;
    var k := Diagonal(d, i);
    if i < d {
      assert FurthestAt(a, b, d - 1, v, offset, i);
      FurthestCovers(a, b, d - 1, k + 1, v[offset + k + 1], x + 1);
    } else {
      DistAtLeastDiagonal(a, b, x + 1, x - k);
    }
  }

  /** Following the snake from the entry point to its end gives the furthest point of stage `d`. */
  lemma SnakeEndIsFurthest<T>(a: seq<T>, b: seq<T>, d: int, v: seq<int>, offset: int, i: int, x: int)
    requires 0 <= i <= d
    requires 0 <= offset - d && offset + d < |v| && offset + 1 < |v|
    requires Frontier(a, b, d - 1, v, offset)
    requires var k := Diagonal(d, i);
             && x >= k && x >= 0 && x >= EntryPoint(v, offset, d, k)
             && Dist(a, b, x, x - k) <= d && !Matches(a, b, x, x - k)
    ensures Furthest(a, b, d, Diagonal(d, i), x)
  {
    hide CommonLen, Dist;
    var y := x - Diagonal(d, i);
    if d > 0 {
      InsertionOutOfReach(a, b, d, v, offset, i, x);
      DeletionOutOfReach(a, b, d, v, offset, i, x);
    } else {
      DistAtLeastDiagonal(a, b, x, y + 1);
      DistAtLeastDiagonal(a, b, x + 1, y);
    }
    DistSteps(a, b, x, y);
  }

  // ---------- overlaps ----------

  /** A point past the grid that is still close enough to the far corner betrays a shorter way. */
  lemma PastGridIsShorter<T>(a: seq<T>, b: seq<T>, d: int, e: int, x: nat, y: nat)
    requires Dist(a, b, x, y) <= d
    requires x > |a| || y > |b|
    requires e >= 0 && -e <= (x - y) - (|a| - |b|) <= e
    ensures EditDistance(a, b) < d + e
  {
    hide CommonLen, Dist;
    if x > |a| && y > |b| {
      BeyondRight(a, b, x, y);
      BeyondBottom(a, b, |a|, y);
    } else if x > |a| {
      BeyondRight(a, b, x, y);
      DistColumn(a, b, |a|, y, |b| - y);
    } else {
      BeyondBottom(a, b, x, y);
      DistRow(a, b, x, |b|, |a| - x);
    }
  }

  /** The first overlap of a forward point (`d` edits) with a backward point (`e` edits) lies inside the
      grid, on a shortest way, and splits its cost into `d` and `e`. */
  lemma FirstOverlap<T>(a: seq<T>, b: seq<T>, d: int, e: int, k: int, f: int, r: int)
    requires Furthest(a, b, d, k, f)
    requires Furthest(Reversed(a), Reversed(b), e, |a| - |b| - k, r)
    requires e >= 0 && -e <= |a| - |b| - k <= e
    requires f + r >= |a|
    requires EditDistance(a, b) >= d + e
    ensures f <= |a| && f - k <= |b|
    ensures Dist(a, b, f, f - k) == d && DistBack(a, b, f, f - k) == e && EditDistance(a, b) == d + e
  {
    hide CommonLen, Dist;
    if f > |a| || f - k > |b| {
      PastGridIsShorter(a, b, d, e, f, f - k);
    }
    FurthestCovers(Reversed(a), Reversed(b), e, |a| - |b| - k, r, |a| - f);
    ThroughCostsAtLeast(a, b, f, f - k);
  }

  /** Stage `d` of the one search and stage `e` of the other share diagonals exactly when their parities
      fit; then the `i`-th diagonal of the one is the `(h - i)`-th of the other. */
  ghost predicate Meet(delta: int, d: int, e: int, h: int) {
    2 * h == delta + d + e
  }

  ghost predicate Halfway(delta: int, d: int, e: int, h: int) {
    h == (delta + d + e) / 2
  }

  /** The point `x` on the `i`-th diagonal of stage `d` overlaps the one that stage `e` from the other end
      has reached on the same diagonal. */
  ghost predicate Overlap(na: int, nb: int, d: int, e: int, h: int, rv: seq<int>, offset: int, i: int, x: int) {
    && Meet(na - nb, d, e, h) && 0 <= h - i <= e
    && 0 <= offset + Diagonal(e, h - i) < |rv|
    && x + rv[offset + Diagonal(e, h - i)] >= na
  }

  ghost predicate Apart(na: int, nb: int, d: int, e: int, h: int, fv: seq<int>, rv: seq<int>, offset: int, i: int) {
    0 <= offset + Diagonal(d, i) < |fv| && !Overlap(na, nb, d, e, h, rv, offset, i, fv[offset + Diagonal(d, i)])
  }

  /** If no pair of furthest points overlaps, the distance is not `d + e`. */
  lemma NoOverlapIsLonger<T>(a: seq<T>, b: seq<T>, d: nat, e: nat, h: int, fv: seq<int>, rv: seq<int>, offset: int)
    requires Meet(|a| - |b|, d, e, h)
    requires Frontier(a, b, d, fv, offset)
    requires Frontier(Reversed(a), Reversed(b), e, rv, offset)
    requires forall i | 0 <= i <= d :: Apart(|a|, |b|, d, e, h, fv, rv, offset, i)
    ensures EditDistance(a, b) != d + e
  {
    hide CommonLen;
    if EditDistance(a, b) == d + e {
      DistBackSteps(a, b, |a|, |b|);
      var x, y := PointAtDistance(a, b, |a|, |b|, d);
      var i := x - CommonLen(a, b, x, y);
      var j := |a| - x - CommonLen(Reversed(a), Reversed(b), |a| - x, |b| - y);
      DistAtLeastDiagonal(a, b, x, y);
      DistAtLeastDiagonal(Reversed(a), Reversed(b), |a| - x, |b| - y);
      assert j == h - i;
      assert FurthestAt(a, b, d, fv, offset, i);
      assert FurthestAt(Reversed(a), Reversed(b), e, rv, offset, j);
      assert Apart(|a|, |b|, d, e, h, fv, rv, offset, i);
      FurthestCovers(a, b, d, Diagonal(d, i), fv[offset + Diagonal(d, i)], x);
      FurthestCovers(Reversed(a), Reversed(b), e, Diagonal(e, j), rv[offset + Diagonal(e, j)], |a| - x);
    }
  }

  // ---------- the two searches ----------

  /** `(x, y)` to `(u, v)` is a snake in the middle of a shortest way of `d` edits: the edits before and
      after it differ by at most one.  An odd snake was found forwards, so it starts right after an edit and
      ends where nothing matches any more; an even one was found backwards. */
  ghost predicate IsMiddleSnake<T>(a: seq<T>, b: seq<T>, d: int, x: int, y: int, u: int, v: int) {
    && 0 <= x <= u <= |a| && 0 <= y <= v <= |b|
    && u - x == v - y && a[x..u] == b[y..v]
    && d == EditDistance(a, b)
    && EditDistance(a[..x], b[..y]) == (d + 1) / 2
    && EditDistance(a[u..], b[v..]) == d / 2
    && (d % 2 == 1 ==> !Matches(a, b, u, v) && OneEditAfter(a, b, d / 2, x, y))
    && (d % 2 == 0 ==> !(x > 0 && y > 0 && Matches(a, b, x - 1, y - 1)))
    && (d == 0 ==> u == |a| && v == |b|)
  }

  /** The arrays of the search: one entry per diagonal, diagonal `k` at `offset + k`. */
  ghost predicate Layout<T>(a: seq<T>, b: seq<T>, forward: array<int>, reverse: array<int>, offset: int) {
    && |a| + |b| > 0
    && forward != reverse
    && forward.Length == |a| + |b| + 2 == reverse.Length
    && offset == forward.Length / 2
  }

  /** The first `i` diagonals of stage `d` have been searched, without meeting stage `e` from the other end. */
  ghost predicate Searched<T>(a: seq<T>, b: seq<T>, d: int, e: int, h: int, fv: seq<int>, rv: seq<int>, offset: int,
                              i: int) {
    && Frontier(a, b, d - 1, fv, offset)
    && (forall j | 0 <= j < i :: FurthestAt(a, b, d, fv, offset, j))
    && (forall j | 0 <= j < i :: Apart(|a|, |b|, d, e, h, fv, rv, offset, j))
  }

  /** Writing the `i`-th diagonal leaves the other diagonals of stages `d` and `d - 1` alone. */
  lemma SearchDiagonal<T>(a: seq<T>, b: seq<T>, d: int, e: int, h: int, fv: seq<int>, rv: seq<int>, offset: int,
                          i: int, x: int)
    requires 0 <= i <= d && 0 <= offset + Diagonal(d, i) < |fv|
    requires Searched(a, b, d, e, h, fv, rv, offset, i)
    requires Furthest(a, b, d, Diagonal(d, i), x)
    requires !Overlap(|a|, |b|, d, e, h, rv, offset, i, x)
    ensures Searched(a, b, d, e, h, fv[offset + Diagonal(d, i) := x], rv, offset, i + 1)
  {
    hide CommonLen, Dist;
    var w := fv[offset + Diagonal(d, i) := x];
    var c := d - 1;
    forall j | 0 <= j <= c
      ensures FurthestAt(a, b, c, w, offset, j)
    {
      assert FurthestAt(a, b, c, fv, offset, j);
    }
    forall j | 0 <= j < i + 1
      ensures FurthestAt(a, b, d, w, offset, j)
      ensures Apart(|a|, |b|, d, e, h, w, rv, offset, j)
    {
      assert j < i ==> FurthestAt(a, b, d, fv, offset, j) && Apart(|a|, |b|, d, e, h, fv, rv, offset, j);
    }
  }

  ghost predicate SnakeSoFar<T>(a: seq<T>, b: seq<T>, k: int, mx: int, x: int) {
    && 0 <= mx <= x && k <= mx
    && (x > mx ==> x <= |a| && x - k <= |b| && a[mx..x] == b[mx - k..x - k])
    && Dist(a, b, x, x - k) == Dist(a, b, mx, mx - k)
  }

  lemma SliceGrows<T>(s: seq<T>, i: int, j: int)
    requires 0 <= i <= j < |s|
    ensures s[i..j + 1] == s[i..j] + [s[j]]
  {
  }

  lemma SnakeGrows<T>(a: seq<T>, b: seq<T>, k: int, mx: int, x: int)
    requires SnakeSoFar(a, b, k, mx, x) && Matches(a, b, x, x - k)
    ensures SnakeSoFar(a, b, k, mx, x + 1)
  {
    hide CommonLen, Dist;
    DistSteps(a, b, x, x - k);
    SliceGrows(a, mx, x);
    SliceGrows(b, mx - k, x - k);
    assert x == mx ==> a[mx..x] == b[mx - k..x - k];
  }

  /** An overlap in a forward stage: the snake just followed is a middle snake. */
  lemma ForwardHit<T>(a: seq<T>, b: seq<T>, d: int, h: int, rv: seq<int>, offset: int, i: int, mx: int, x: int)
    requires Overlap(|a|, |b|, d, d - 1, h, rv, offset, i, x)
    requires EditDistance(a, b) >= 2 * d - 1
    requires Frontier(Reversed(a), Reversed(b), d - 1, rv, offset)
    requires var k := Diagonal(d, i);
             && Furthest(a, b, d, k, x) && !Matches(a, b, x, x - k)
             && SnakeSoFar(a, b, k, mx, x)
             && (Dist(a, b, mx, mx - k) == d ==> OneEditAfter(a, b, d - 1, mx, mx - k))
    ensures IsMiddleSnake(a, b, 2 * d - 1, mx, mx - Diagonal(d, i), x, x - Diagonal(d, i))
  {
    hide CommonLen, Dist;
    var e, k := d - 1, Diagonal(d, i);
    assert FurthestAt(Reversed(a), Reversed(b), e, rv, offset, h - i);
    FirstOverlap(a, b, d, e, k, x, rv[offset + Diagonal(e, h - i)]);
    assert EditDistance(a[..mx], b[..mx - k]) == d by { PointSplits(a, b, mx, mx - k); }
    assert EditDistance(a[x..], b[x - k..]) == e by { PointSplits(a, b, x, x - k); }
    assert (2 * d - 1) / 2 == e;
  }

  /** The search of the `i`-th diagonal has followed the snake from the entry point `mx` to `x`. */
  ghost predicate Followed<T>(a: seq<T>, b: seq<T>, d: int, fv: seq<int>, offset: int, i: int, mx: int, x: int) {
    var k := Diagonal(d, i);
    && 0 <= i <= d && 0 <= offset - d && offset + d < |fv| && offset + 1 < |fv|
    && mx == EntryPoint(fv, offset, d, k)
    && SnakeSoFar(a, b, k, mx, x)
    && !Matches(a, b, x, x - k)
  }

  /** The code's test for an overlap on diagonal `k`, by parity, range and position. */
  ghost predicate OverlapTest(parity: bool, na: int, nb: int, e: int, rv: seq<int>, offset: int, k: int, x: int) {
    var delta := na - nb;
    && parity
    && -(k - delta) >= -e && -(k - delta) <= e
    && 0 <= offset - (k - delta) < |rv| && x + rv[offset - (k - delta)] >= na
  }

  /** The snake just followed ends at the furthest point, and starts one edit after the stage before. */
  lemma SnakeFollowed<T>(a: seq<T>, b: seq<T>, d: int, e: int, h: int, fv: seq<int>, rv: seq<int>, offset: int,
                         i: int, mx: int, x: int)
    requires Searched(a, b, d, e, h, fv, rv, offset, i)
    requires Followed(a, b, d, fv, offset, i, mx, x)
    ensures var k := Diagonal(d, i);
            && 0 <= i <= d && 0 <= offset + k < |fv| && 0 <= mx <= x && k <= mx
            && Furthest(a, b, d, k, x) && !Matches(a, b, x, x - k) && SnakeSoFar(a, b, k, mx, x)
            && (d == 0 ==> mx == 0)
            && (Dist(a, b, mx, mx - k) == d && d > 0 ==> OneEditAfter(a, b, d - 1, mx, mx - k))
  {
    hide CommonLen, Dist, Frontier, FurthestAt, Furthest, Apart, EntryPoint, OneEditAfter, Matches;
    EntryPointReached(a, b, d, fv, offset, i);
    SnakeEndIsFurthest(a, b, d, fv, offset, i, x);
  }

  lemma HitIsLater(na: int, nb: int, d: int, h: int, rv: seq<int>, offset: int, i: int, x: int)
    requires Overlap(na, nb, d, d - 1, h, rv, offset, i, x)
    ensures d > 0
  {
  }

  /** What following one snake achieves: a middle snake on an overlap, one more diagonal otherwise. */
  lemma ForwardFollowed<T>(a: seq<T>, b: seq<T>, d: int, h: int, fv: seq<int>, rv: seq<int>, offset: int,
                           i: int, mx: int, my: int, x: int, y: int, odd: bool)
    requires odd <==> (|a| - |b|) % 2 != 0
    requires Searched(a, b, d, d - 1, h, fv, rv, offset, i)
    requires Followed(a, b, d, fv, offset, i, mx, x)
    requires my == mx - Diagonal(d, i) && y == x - Diagonal(d, i)
    requires Frontier(Reversed(a), Reversed(b), d - 1, rv, offset)
    requires EditDistance(a, b) >= 2 * d - 1
    requires Halfway(|a| - |b|, d, d - 1, h)
    requires |rv| == |fv|
    ensures if OverlapTest(odd, |a|, |b|, d - 1, rv, offset, Diagonal(d, i), x)
            then IsMiddleSnake(a, b, 2 * d - 1, mx, my, x, y)
            else Searched(a, b, d, d - 1, h, fv[offset + Diagonal(d, i) := x], rv, offset, i + 1)
  {
    hide *;
    SnakeFollowed(a, b, d, d - 1, h, fv, rv, offset, i, mx, x);
    OverlapTested(odd, |a|, |b|, d, d - 1, h, rv, offset, i, x);
    if Overlap(|a|, |b|, d, d - 1, h, rv, offset, i, x) {
      HitIsLater(|a|, |b|, d, h, rv, offset, i, x);
      ForwardHit(a, b, d, h, rv, offset, i, mx, x);
    } else {
      SearchDiagonal(a, b, d, d - 1, h, fv, rv, offset, i, x);
    }
  }

  lemma OverlapTested(parity: bool, na: int, nb: int, d: int, e: int, h: int, rv: seq<int>, offset: int, i: int, x: int)
    requires e == d || e == d - 1
    requires parity <==> ((na - nb) % 2 == 0 <==> d == e)
    requires Halfway(na - nb, d, e, h)
    ensures OverlapTest(parity, na, nb, e, rv, offset, Diagonal(d, i), x) <==> Overlap(na, nb, d, e, h, rv, offset, i, x)
  {
    hide CommonLen, Dist;
    if Meet(na - nb, d, e, h) {
      assert offset - (Diagonal(d, i) - (na - nb)) == offset + Diagonal(e, h - i);
    }
  }

  lemma SearchStarts<T>(a: seq<T>, b: seq<T>, d: int, e: int, h: int, fv: seq<int>, rv: seq<int>, offset: int)
    requires Frontier(a, b, d - 1, fv, offset)
    ensures Searched(a, b, d, e, h, fv, rv, offset, 0)
  {
    hide CommonLen, Dist;
  }

  lemma EntryPointOnGrid<T>(a: seq<T>, b: seq<T>, d: int, e: int, h: int, fv: seq<int>, rv: seq<int>, offset: int,
                            i: int)
    requires 0 <= i <= d
    requires 0 <= offset - d && offset + d < |fv| && offset + 1 < |fv|
    requires Searched(a, b, d, e, h, fv, rv, offset, i)
    ensures var x := EntryPoint(fv, offset, d, Diagonal(d, i)); x >= 0 && x >= Diagonal(d, i)
  {
    hide CommonLen, Dist;
    EntryPointReached(a, b, d, fv, offset, i);
  }

  lemma StageSearched<T>(a: seq<T>, b: seq<T>, d: int, e: int, h: int, fv: seq<int>, rv: seq<int>, offset: int)
    requires d >= 0 && (e == d || e == d - 1)
    requires Halfway(|a| - |b|, d, e, h)
    requires Searched(a, b, d, e, h, fv, rv, offset, d + 1)
    requires Frontier(Reversed(a), Reversed(b), e, rv, offset)
    requires EditDistance(a, b) >= d + e
    ensures Frontier(a, b, d, fv, offset)
    ensures EditDistance(a, b) >= d + e + 1
  {
    hide CommonLen;
    DistAtLeastDiagonal(a, b, |a|, |b|);
    if e >= 0 && EditDistance(a, b) == d + e {
      assert |a| - |b| + d + e == 2 * (|a| - CommonLen(a, b, |a|, |b|));
      NoOverlapIsLonger(a, b, d, e, h, fv, rv, offset);
    }
  }

  /** Enters the `i`-th diagonal, `k`, one edit after stage `d - 1`, and follows the snake found there. */
  method ForwardSnake<T(==)>(a: seq<T>, b: seq<T>, d: int, forward: array<int>, offset: int, ghost i: int, k: int)
    returns (mx: int, my: int, x: int, y: int)
    requires 0 <= i <= d && k == Diagonal(d, i)
    requires 0 <= offset - d && offset + d < forward.Length && offset + 1 < forward.Length
    requires var entry := EntryPoint(forward[..], offset, d, k); entry >= 0 && entry >= k
    ensures Followed(a, b, d, forward[..], offset, i, mx, x)
    ensures my == mx - k && y == x - k
  {
    hide CommonLen, Dist;
    var na, nb := |a|, |b|;
    if k == -d || (k != d && forward[offset + k - 1] < forward[offset + k + 1]) {
      x := forward[offset + k + 1];
    } else {
      x := forward[offset + k - 1] + 1;
    }
    y := x - k;
    mx, my := x, y;
    while x < na && y < nb && a[x] == b[y]
      invariant y == x - k && SnakeSoFar(a, b, k, mx, x)
    {
      SnakeGrows(a, b, k, mx, x);
      x := x + 1;
      y := y + 1;
    }
  }

  /** Stage `d` of the search from the origin. */
  method ForwardSearch<T(==)>(a: seq<T>, b: seq<T>, d: int, forward: array<int>, reverse: array<int>, offset: int)
    returns (nd: int, mx: int, my: int, x: int, y: int, ok: bool)
    requires Layout(a, b, forward, reverse, offset)
    requires 0 <= d <= (|a| + |b| + 1) / 2
    requires Frontier(a, b, d - 1, forward[..], offset)
    requires Frontier(Reversed(a), Reversed(b), d - 1, reverse[..], offset)
    requires EditDistance(a, b) >= 2 * d - 1
    modifies forward
    ensures ok ==> nd == 2 * d - 1 && IsMiddleSnake(a, b, nd, mx, my, x, y)
    ensures !ok ==> Frontier(a, b, d, forward[..], offset)
    ensures !ok ==> EditDistance(a, b) >= 2 * d
  {
    hide CommonLen, Dist, IsMiddleSnake, Searched, Frontier, FurthestAt, Furthest, Followed, SnakeSoFar, EntryPoint, Matches,
      Apart, Overlap, Reversed;
    var na, nb := |a|, |b|;
    var delta := na - nb;
    var odd := delta % 2 != 0;
    ghost var h := (delta + d + (d - 1)) / 2;
    ghost var rv := reverse[..];
    ghost var i := 0;
    SearchStarts(a, b, d, d - 1, h, forward[..], rv, offset);
    var k := -d;
    while k <= d
      invariant 0 <= i <= d + 1 && k == Diagonal(d, i)
      invariant reverse[..] == rv
      invariant Searched(a, b, d, d - 1, h, forward[..], rv, offset, i)
    {
      ghost var fv := forward[..];
      EntryPointOnGrid(a, b, d, d - 1, h, fv, rv, offset, i);
      mx, my, x, y := ForwardSnake(a, b, d, forward, offset, i, k);
      ForwardFollowed(a, b, d, h, fv, rv, offset, i, mx, my, x, y, odd);
      forward[offset + k] := x;
      assert forward[..] == fv[offset + k := x];
      if odd && -(k - delta) >= -(d - 1) && -(k - delta) <= d - 1 {
        if forward[offset + k] + reverse[offset - (k - delta)] >= na {
          assert OverlapTest(odd, na, nb, d - 1, rv, offset, Diagonal(d, i), x);
          assert IsMiddleSnake(a, b, 2 * d - 1, mx, my, x, y);
          return 2 * d - 1, mx, my, x, y, true;
        }
      }
      assert !OverlapTest(odd, na, nb, d - 1, rv, offset, k, x);
      k := k + 2;
      i := i + 1;
    }
    StageSearched(a, b, d, d - 1, h, forward[..], rv, offset);
    return 0, 0, 0, 0, 0, false;
  }

  /** An overlap in a backward stage lies on a shortest way, too. */
  lemma ReverseOverlap<T>(a: seq<T>, b: seq<T>, d: int, h: int, fv: seq<int>, offset: int, i: int, x: int)
    requires Overlap(|a|, |b|, d, d, h, fv, offset, i, x)
    requires EditDistance(a, b) >= 2 * d
    requires Frontier(a, b, d, fv, offset)
    requires Furthest(Reversed(a), Reversed(b), d, Diagonal(d, i), x)
    ensures var y := x - Diagonal(d, i);
            && x <= |a| && y <= |b| && EditDistance(a, b) == 2 * d
            && Dist(Reversed(a), Reversed(b), x, y) == d && Dist(a, b, |a| - x, |b| - y) == d
  {
    hide CommonLen, Dist;
    ReversedTwice(a);
    ReversedTwice(b);
    ReversedDistance(a, b);
    assert FurthestAt(a, b, d, fv, offset, h - i);
    FirstOverlap(Reversed(a), Reversed(b), d, d, Diagonal(d, i), x, fv[offset + Diagonal(d, h - i)]);
  }

  /** The snake just followed, read forwards, is a middle snake. */
  lemma ReverseHit<T>(a: seq<T>, b: seq<T>, d: int, k: int, mx: int, x: int)
    requires var y := x - k;
             && 0 <= x <= |a| && 0 <= y <= |b| && EditDistance(a, b) == 2 * d
             && Dist(Reversed(a), Reversed(b), x, y) == d && Dist(a, b, |a| - x, |b| - y) == d
             && !Matches(Reversed(a), Reversed(b), x, y)
    requires d == 0 ==> mx == 0 == k
    requires SnakeSoFar(Reversed(a), Reversed(b), k, mx, x)
    ensures IsMiddleSnake(a, b, 2 * d, |a| - x, |b| - (x - k), |a| - mx, |b| - (mx - k))
  {
    hide CommonLen, Dist, Matches;
    var u, v := |a| - mx, |b| - (mx - k);
    var x', y' := |a| - x, |b| - (x - k);
    assert EditDistance(a[..x'], b[..y']) == d by { PointSplits(a, b, x', y'); }
    assert EditDistance(a[u..], b[v..]) == d by { PointSplits(a, b, u, v); }
    ReversedSlices(a, b, x', u, y', v);
    ReversedMatch(a, b, x', y');
  }

  lemma ReversedMatch<T>(a: seq<T>, b: seq<T>, x: nat, y: nat)
    requires x <= |a| && y <= |b|
    ensures x > 0 && y > 0 ==> (Matches(a, b, x - 1, y - 1) <==> Matches(Reversed(a), Reversed(b), |a| - x, |b| - y))
  {
  }

  lemma ReversedSlices<T>(a: seq<T>, b: seq<T>, x: nat, u: nat, y: nat, v: nat)
    requires x <= u <= |a| && y <= v <= |b|
    requires u > x ==> Reversed(a)[|a| - u..|a| - x] == Reversed(b)[|b| - v..|b| - y]
    requires u - x == v - y
    ensures a[x..u] == b[y..v]
  {
    var n := u - x;
    forall i | 0 <= i < n
      ensures a[x..u][i] == b[y..v][i]
    {
      assert a[x + i] == Reversed(a)[|a| - u..|a| - x][n - 1 - i];
      assert b[y + i] == Reversed(b)[|b| - v..|b| - y][n - 1 - i];
    }
  }

  /** What following one snake backwards achieves. */
  lemma ReverseFollowed<T>(a: seq<T>, b: seq<T>, d: int, h: int, fv: seq<int>, rv: seq<int>, offset: int,
                           i: int, mx: int, my: int, x: int, y: int, even: bool)
    requires even <==> (|a| - |b|) % 2 == 0
    requires Searched(Reversed(a), Reversed(b), d, d, h, rv, fv, offset, i)
    requires Followed(Reversed(a), Reversed(b), d, rv, offset, i, mx, x)
    requires my == mx - Diagonal(d, i) && y == x - Diagonal(d, i)
    requires Frontier(a, b, d, fv, offset)
    requires EditDistance(a, b) >= 2 * d
    requires Halfway(|a| - |b|, d, d, h)
    requires |rv| == |fv|
    ensures if OverlapTest(even, |a|, |b|, d, fv, offset, Diagonal(d, i), x)
            then IsMiddleSnake(a, b, 2 * d, |a| - x, |b| - y, |a| - mx, |b| - my)
            else Searched(Reversed(a), Reversed(b), d, d, h, rv[offset + Diagonal(d, i) := x], fv, offset, i + 1)
  {
    hide CommonLen, Dist, IsMiddleSnake, OverlapTest, Overlap, Furthest, Halfway, Searched, Frontier, Followed, SnakeSoFar,
      Matches, OneEditAfter, Reversed;
    var ra, rb := Reversed(a), Reversed(b);
    SnakeFollowed(ra, rb, d, d, h, rv, fv, offset, i, mx, x);
    OverlapTested(even, |a|, |b|, d, d, h, fv, offset, i, x);
    if Overlap(|a|, |b|, d, d, h, fv, offset, i, x) {
      ReverseOverlap(a, b, d, h, fv, offset, i, x);
      ReverseHit(a, b, d, Diagonal(d, i), mx, x);
    } else {
      SearchDiagonal(ra, rb, d, d, h, rv, fv, offset, i, x);
    }
  }

  /** As `ForwardSnake`, from the far corner. */
  method ReverseSnake<T(==)>(a: seq<T>, b: seq<T>, d: int, reverse: array<int>, offset: int, ghost i: int, k: int)
    returns (mx: int, my: int, x: int, y: int)
    requires 0 <= i <= d && k == Diagonal(d, i)
    requires 0 <= offset - d && offset + d < reverse.Length && offset + 1 < reverse.Length
    requires var entry := EntryPoint(reverse[..], offset, d, k); entry >= 0 && entry >= k
    ensures Followed(Reversed(a), Reversed(b), d, reverse[..], offset, i, mx, x)
    ensures my == mx - k && y == x - k
  {
    hide CommonLen, Dist;
    var na, nb := |a|, |b|;
    if k == -d || (k != d && reverse[offset + k - 1] < reverse[offset + k + 1]) {
      x := reverse[offset + k + 1];
    } else {
      x := reverse[offset + k - 1] + 1;
    }
    y := x - k;
    mx, my := x, y;
    while x < na && y < nb && a[na - x - 1] == b[nb - y - 1]
      invariant y == x - k && SnakeSoFar(Reversed(a), Reversed(b), k, mx, x)
    {
      SnakeGrows(Reversed(a), Reversed(b), k, mx, x);
      x := x + 1;
      y := y + 1;
    }
  }

  /** Stage `d` of the search from the far corner. */
  method ReverseSearch<T(==)>(a: seq<T>, b: seq<T>, d: int, forward: array<int>, reverse: array<int>, offset: int)
    returns (nd: int, mx: int, my: int, x: int, y: int, ok: bool)
    requires Layout(a, b, forward, reverse, offset)
    requires 0 <= d <= (|a| + |b| + 1) / 2
    requires Frontier(a, b, d, forward[..], offset)
    requires Frontier(Reversed(a), Reversed(b), d - 1, reverse[..], offset)
    requires EditDistance(a, b) >= 2 * d
    modifies reverse
    ensures ok ==> nd == 2 * d && IsMiddleSnake(a, b, nd, mx, my, x, y)
    ensures !ok ==> Frontier(Reversed(a), Reversed(b), d, reverse[..], offset)
    ensures !ok ==> EditDistance(a, b) >= 2 * d + 1
  {
    hide CommonLen, Dist, IsMiddleSnake, Searched, Frontier, FurthestAt, Furthest, Followed, SnakeSoFar, EntryPoint, Matches,
      Apart, Overlap, Reversed;
    var na, nb := |a|, |b|;
    var delta := na - nb;
    var even := delta % 2 == 0;
    ghost var ra, rb := Reversed(a), Reversed(b);
    ghost var h := (delta + d + d) / 2;
    ghost var fv := forward[..];
    ghost var i := 0;
    SearchStarts(ra, rb, d, d, h, reverse[..], fv, offset);
    var k := -d;
    while k <= d
      invariant 0 <= i <= d + 1 && k == Diagonal(d, i)
      invariant forward[..] == fv
      invariant Searched(ra, rb, d, d, h, reverse[..], fv, offset, i)
    {
      ghost var rv := reverse[..];
      EntryPointOnGrid(ra, rb, d, d, h, rv, fv, offset, i);
      mx, my, x, y := ReverseSnake(a, b, d, reverse, offset, i, k);
      ReverseFollowed(a, b, d, h, fv, rv, offset, i, mx, my, x, y, even);
      reverse[offset + k] := x;
      assert reverse[..] == rv[offset + k := x];
      if even && -(k - delta) >= -d && -(k - delta) <= d {
        if reverse[offset + k] + forward[offset - (k - delta)] >= na {
          assert OverlapTest(even, na, nb, d, fv, offset, Diagonal(d, i), x);
          assert IsMiddleSnake(a, b, 2 * d, na - x, nb - y, na - mx, nb - my);
          return 2 * d, na - x, nb - y, na - mx, nb - my, true;
        }
      }
      assert !OverlapTest(even, na, nb, d, fv, offset, k, x);
      k := k + 2;
      i := i + 1;
    }
    ReversedTwice(a);
    ReversedTwice(b);
    ReversedDistance(a, b);
    StageSearched(ra, rb, d, d, h, reverse[..], fv, offset);
    return 0, 0, 0, 0, 0, false;
  }

  /** Finds a middle snake: the search never leaves its arrays and always meets. */
  method MiddleSnake<T(==)>(a: seq<T>, b: seq<T>) returns (d: int, x: int, y: int, u: int, v: int)
    requires |a| + |b| > 0
    ensures IsMiddleSnake(a, b, d, x, y, u, v)
  {
    hide CommonLen, Dist, IsMiddleSnake;
    var maxe := |a| + |b|;
    var forward := new int[maxe + 2](_ => 0);
    var reverse := new int[maxe + 2](_ => 0);
    var offset := forward.Length / 2;
    var halfway := maxe / 2;
    if maxe % 2 != 0 {
      halfway := halfway + 1;
    }
    DistanceBounds(a, b);
    d := 0;
    while d <= halfway
      invariant 0 <= d <= halfway + 1
      invariant Frontier(a, b, d - 1, forward[..], offset)
      invariant Frontier(Reversed(a), Reversed(b), d - 1, reverse[..], offset)
      invariant EditDistance(a, b) >= 2 * d - 1
    {
      var nd, mx, my, px, py, ok := ForwardSearch(a, b, d, forward, reverse, offset);
      if ok {
        return nd, mx, my, px, py;
      }
      nd, mx, my, px, py, ok := ReverseSearch(a, b, d, forward, reverse, offset);
      if ok {
        return nd, mx, my, px, py;
      }
      d := d + 1;
    }
    assert false;
  }

  lemma DistanceBounds<T>(a: seq<T>, b: seq<T>)
    ensures 0 <= EditDistance(a, b) <= |a| + |b|
  {
    DistAtLeastDiagonal(a, b, |a|, |b|);
  }
}
