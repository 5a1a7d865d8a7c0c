/** The edit grid shared by the dynamic-programming and the Myers algorithms.

    `CommonLen(a, b, x, y)` is the length of a longest common subsequence of the first `x` elements of
    `a` and the first `y` elements of `b`.  Both arguments may run past the ends of the sequences, as
    the `x` and `y` values of Myers' search do: outside the grid nothing matches.  `Dist` is the number
    of insertions and deletions that lead from the origin to the grid point `(x, y)`. */
module LcsGrid {
  import opened Common

  function CommonLen<T(==)>(a: seq<T>, b: seq<T>, x: nat, y: nat): nat {
    if x == 0 || y == 0 then 0
    else if Matches(a, b, x - 1, y - 1) then CommonLen(a, b, x - 1, y - 1) + 1
    else Max(CommonLen(a, b, x - 1, y), CommonLen(a, b, x, y - 1))
  }

  /** There is a diagonal step from `(x, y)` to `(x + 1, y + 1)`. */
  predicate Matches<T(==)>(a: seq<T>, b: seq<T>, x: nat, y: nat) {
    x < |a| && y < |b| && a[x] == b[y]
  }

  function Dist<T(==)>(a: seq<T>, b: seq<T>, x: nat, y: nat): int {
    x + y - 2 * CommonLen(a, b, x, y)
  }

  /** The edit distance between two whole sequences, counting insertions and deletions. */
  function EditDistance<T(==)>(a: seq<T>, b: seq<T>): int {
    Dist(a, b, |a|, |b|)
  }

  function Reversed<T>(s: seq<T>): (r: seq<T>)
    ensures |r| == |s|
    ensures forall i :: 0 <= i < |s| ==> r[i] == s[|s| - 1 - i]
  {
    seq(|s|, i requires 0 <= i < |s| => s[|s| - 1 - i])
  }

  lemma ReversedTwice<T>(s: seq<T>)
    ensures Reversed(Reversed(s)) == s
  {
  }

  // ---------- one step in the grid ----------

  lemma {:induction false} StepBounds<T>(a: seq<T>, b: seq<T>, x: nat, y: nat)
    ensures CommonLen(a, b, x, y) <= CommonLen(a, b, x + 1, y) <= CommonLen(a, b, x, y) + 1
    ensures CommonLen(a, b, x, y) <= CommonLen(a, b, x, y + 1) <= CommonLen(a, b, x, y) + 1
    decreases x + y
  {
    if y > 0 {
      StepBounds(a, b, x, y - 1);
    }
    if x > 0 {
      StepBounds(a, b, x - 1, y);
    }
  }

  /** A single insertion or deletion changes the distance by exactly one; a diagonal never lowers it. */
  lemma DistSteps<T>(a: seq<T>, b: seq<T>, x: nat, y: nat)
    ensures Dist(a, b, x + 1, y) in {Dist(a, b, x, y) - 1, Dist(a, b, x, y) + 1}
    ensures Dist(a, b, x, y + 1) in {Dist(a, b, x, y) - 1, Dist(a, b, x, y) + 1}
    ensures Dist(a, b, x, y) <= Dist(a, b, x + 1, y + 1)
    ensures Matches(a, b, x, y) ==> Dist(a, b, x + 1, y + 1) == Dist(a, b, x, y)
    ensures !Matches(a, b, x, y) ==>
              Dist(a, b, x + 1, y + 1) == 1 + Min(Dist(a, b, x, y + 1), Dist(a, b, x + 1, y))
  {
    StepBounds(a, b, x, y);
    DistParity(a, b, x, y);
    DistParity(a, b, x + 1, y);
    DistParity(a, b, x, y + 1);
  }

  lemma DistAtOrigin<T>(a: seq<T>, b: seq<T>)
    ensures Dist(a, b, 0, 0) == 0
  {
  }

  lemma DistParity<T>(a: seq<T>, b: seq<T>, x: nat, y: nat)
    ensures (Dist(a, b, x, y) - (x - y)) % 2 == 0
  {
    assert Dist(a, b, x, y) - (x - y) == 2 * (y - CommonLen(a, b, x, y));
  }

  /** At least as many edits are needed as the point is away from the main diagonal. */
  lemma {:induction false} DistAtLeastDiagonal<T>(a: seq<T>, b: seq<T>, x: nat, y: nat)
    ensures CommonLen(a, b, x, y) <= x && CommonLen(a, b, x, y) <= y
    ensures Dist(a, b, x, y) >= x - y && Dist(a, b, x, y) >= y - x
    decreases x + y
  {
    if x > 0 && y > 0 {
      DistAtLeastDiagonal(a, b, x - 1, y - 1);
      DistAtLeastDiagonal(a, b, x - 1, y);
      DistAtLeastDiagonal(a, b, x, y - 1);
    }
  }

  /** Along a diagonal the distance never decreases. */
  lemma {:induction false} DistDiagonalMonotone<T>(a: seq<T>, b: seq<T>, x: nat, y: nat, n: nat)
    ensures Dist(a, b, x, y) <= Dist(a, b, x + n, y + n)
    decreases n
  {
    if n > 0 {
      DistDiagonalMonotone(a, b, x, y, n - 1);
      DistSteps(a, b, x + n - 1, y + n - 1);
    }
  }

  /** Nothing matches to the right of the grid, so the distance there grows with every step. */
  lemma {:induction false} BeyondRight<T>(a: seq<T>, b: seq<T>, x: nat, y: nat)
    requires x >= |a|
    ensures Dist(a, b, x, y) == Dist(a, b, |a|, y) + x - |a|
    decreases x + y
  {
    if x > |a| && y > 0 {
      BeyondRight(a, b, x - 1, y);
      BeyondRight(a, b, x, y - 1);
      StepBounds(a, b, |a|, y - 1);
    }
  }

  /** Nothing matches below the grid either. */
  lemma {:induction false} BeyondBottom<T>(a: seq<T>, b: seq<T>, x: nat, y: nat)
    requires y >= |b|
    ensures Dist(a, b, x, y) == Dist(a, b, x, |b|) + y - |b|
    decreases x + y
  {
    if y > |b| && x > 0 {
      BeyondBottom(a, b, x - 1, y);
      BeyondBottom(a, b, x, y - 1);
      StepBounds(a, b, x - 1, |b|);
    }
  }

  /** Moving by `n` insertions changes the distance by at most `n`. */
  lemma {:induction false} DistColumn<T>(a: seq<T>, b: seq<T>, x: nat, y: nat, n: nat)
    ensures Dist(a, b, x, y + n) <= Dist(a, b, x, y) + n
    decreases n
  {
    if n > 0 {
      DistColumn(a, b, x, y, n - 1);
      StepBounds(a, b, x, y + n - 1);
    }
  }

  lemma {:induction false} DistRow<T>(a: seq<T>, b: seq<T>, x: nat, y: nat, n: nat)
    ensures Dist(a, b, x + n, y) <= Dist(a, b, x, y) + n
    decreases n
  {
    if n > 0 {
      DistRow(a, b, x, y, n - 1);
      StepBounds(a, b, x + n - 1, y);
    }
  }

  // ---------- both ends of the grid ----------

  /** The distance from the far corner back to `(x, y)`: the forward distance of the reversed sequences. */
  function DistBack<T(==)>(a: seq<T>, b: seq<T>, x: nat, y: nat): int
    requires x <= |a| && y <= |b|
  {
    Dist(Reversed(a), Reversed(b), |a| - x, |b| - y)
  }

  /** One step of the forward distance, read from the far corner. */
  lemma DistBackSteps<T>(a: seq<T>, b: seq<T>, x: nat, y: nat)
    requires x <= |a| && y <= |b|
    ensures x == |a| && y == |b| ==> DistBack(a, b, x, y) == 0
    ensures x < |a| && y == |b| ==> DistBack(a, b, x, y) == DistBack(a, b, x + 1, y) + 1
    ensures x == |a| && y < |b| ==> DistBack(a, b, x, y) == DistBack(a, b, x, y + 1) + 1
    ensures x < |a| && y < |b| && a[x] == b[y] ==> DistBack(a, b, x, y) == DistBack(a, b, x + 1, y + 1)
    ensures x < |a| && y < |b| && a[x] != b[y] ==>
              DistBack(a, b, x, y) == 1 + Min(DistBack(a, b, x + 1, y), DistBack(a, b, x, y + 1))
  {
    if x < |a| && y < |b| {
      var ra, rb := Reversed(a), Reversed(b);
      var i, j := |a| - x - 1, |b| - y - 1;
      assert ra[i] == a[x] && rb[j] == b[y];
      DistSteps(ra, rb, i, j);
    }
  }

  /** Every way through `(x, y)` costs at least the whole distance. */
  lemma {:induction false} ThroughCostsAtLeast<T>(a: seq<T>, b: seq<T>, x: nat, y: nat)
    requires x <= |a| && y <= |b|
    ensures Dist(a, b, x, y) + DistBack(a, b, x, y) >= EditDistance(a, b)
    decreases |a| - x + |b| - y
  {
    DistBackSteps(a, b, x, y);
    DistSteps(a, b, x, y);
    if x < |a| {
      ThroughCostsAtLeast(a, b, x + 1, y);
    }
    if y < |b| {
      ThroughCostsAtLeast(a, b, x, y + 1);
    }
    if x < |a| && y < |b| {
      ThroughCostsAtLeast(a, b, x + 1, y + 1);
    }
  }

  /** The two directions measure the same distance. */
  lemma ReversedDistance<T>(a: seq<T>, b: seq<T>)
    ensures EditDistance(Reversed(a), Reversed(b)) == EditDistance(a, b)
  {
    ThroughCostsAtLeast(a, b, 0, 0);
    ThroughCostsAtLeast(Reversed(a), Reversed(b), 0, 0);
    ReversedTwice(a);
    ReversedTwice(b);
  }

  /** On some shortest way there is a point at every distance `c` from the origin. */
  lemma {:induction false} PointAtDistance<T>(a: seq<T>, b: seq<T>, x: nat, y: nat, c: nat) returns (px: nat, py: nat)
    requires x <= |a| && y <= |b|
    requires Dist(a, b, x, y) + DistBack(a, b, x, y) == EditDistance(a, b)
    requires c <= Dist(a, b, x, y)
    ensures px <= |a| && py <= |b|
    ensures Dist(a, b, px, py) == c && DistBack(a, b, px, py) == EditDistance(a, b) - c
    decreases x + y
  {
    if c == Dist(a, b, x, y) {
      return x, y;
    }
    DistAtLeastDiagonal(a, b, x, y);
    if x > 0 && y > 0 && a[x - 1] == b[y - 1] {
      DistBackSteps(a, b, x - 1, y - 1);
      px, py := PointAtDistance(a, b, x - 1, y - 1, c);
    } else if x > 0 && Dist(a, b, x - 1, y) == Dist(a, b, x, y) - 1 {
      BackOneDeletion(a, b, x - 1, y);
      px, py := PointAtDistance(a, b, x - 1, y, c);
    } else {
      BackOneInsertion(a, b, x, y - 1);
      px, py := PointAtDistance(a, b, x, y - 1, c);
    }
  }

  lemma BackOneDeletion<T>(a: seq<T>, b: seq<T>, x: nat, y: nat)
    requires x < |a| && y <= |b|
    requires Dist(a, b, x + 1, y) + DistBack(a, b, x + 1, y) == EditDistance(a, b)
    requires Dist(a, b, x + 1, y) == Dist(a, b, x, y) + 1
    ensures Dist(a, b, x, y) + DistBack(a, b, x, y) == EditDistance(a, b)
  {
    ThroughCostsAtLeast(a, b, x, y);
    StepBounds(Reversed(a), Reversed(b), |a| - x - 1, |b| - y);
  }

  lemma BackOneInsertion<T>(a: seq<T>, b: seq<T>, x: nat, y: nat)
    requires x <= |a| && y < |b|
    requires Dist(a, b, x, y + 1) + DistBack(a, b, x, y + 1) == EditDistance(a, b)
    requires Dist(a, b, x, y + 1) == Dist(a, b, x, y) + 1
    ensures Dist(a, b, x, y) + DistBack(a, b, x, y) == EditDistance(a, b)
  {
    ThroughCostsAtLeast(a, b, x, y);
    StepBounds(Reversed(a), Reversed(b), |a| - x, |b| - y - 1);
  }

  // ---------- grid points as pairs of prefixes and suffixes ----------

  lemma {:induction false} PrefixLen<T>(a: seq<T>, b: seq<T>, m: nat, n: nat, x: nat, y: nat)
    requires x <= m <= |a| && y <= n <= |b|
    ensures CommonLen(a[..m], b[..n], x, y) == CommonLen(a, b, x, y)
    decreases x + y
  {
    if x > 0 && y > 0 {
      PrefixLen(a, b, m, n, x - 1, y - 1);
      PrefixLen(a, b, m, n, x - 1, y);
      PrefixLen(a, b, m, n, x, y - 1);
    }
  }

  /** Forward distance is the distance of the prefixes, backward distance that of the suffixes. */
  lemma PointSplits<T>(a: seq<T>, b: seq<T>, x: nat, y: nat)
    requires x <= |a| && y <= |b|
    ensures Dist(a, b, x, y) == EditDistance(a[..x], b[..y])
    ensures DistBack(a, b, x, y) == EditDistance(a[x..], b[y..])
  {
    PrefixLen(a, b, x, y, x, y);
    var ra, rb := Reversed(a), Reversed(b);
    PrefixLen(ra, rb, |a| - x, |b| - y, |a| - x, |b| - y);
    assert ra[..|a| - x] == Reversed(a[x..]);
    assert rb[..|b| - y] == Reversed(b[y..]);
    ReversedDistance(a[x..], b[y..]);
  }
}
