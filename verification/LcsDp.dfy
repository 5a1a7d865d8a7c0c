/** The dynamic-programming algorithm: one table of directions for one, or all, longest common
    subsequences and for the edit script. */
module LcsDp {
  import opened Common
  import opened LcsGrid
  import opened LcsSubsequence
  import opened LcsEditScript

  datatype Direction = Diagonal | Up | Left | UpAndLeft

  /** The direction in which a longest common subsequence of the prefixes of length `x` and `y` is found. */
  function DirectionAt<T(==)>(a: seq<T>, b: seq<T>, x: nat, y: nat): Direction
    requires 0 < x <= |a| && 0 < y <= |b|
  {
    if a[x - 1] == b[y - 1] then Diagonal
    else if CommonLen(a, b, x, y - 1) > CommonLen(a, b, x - 1, y) then Up
    else if CommonLen(a, b, x - 1, y) > CommonLen(a, b, x, y - 1) then Left
    else UpAndLeft
  }

  lemma TableBorder<T>(a: seq<T>, b: seq<T>)
    ensures forall x: nat :: CommonLen(a, b, x, 0) == 0
    ensures forall y: nat :: CommonLen(a, b, 0, y) == 0
  {
  }

  lemma DirectionCell<T>(a: seq<T>, b: seq<T>, x: nat, y: nat)
    requires 0 < x <= |a| && 0 < y <= |b|
    ensures var up, left := CommonLen(a, b, x, y - 1), CommonLen(a, b, x - 1, y);
            DirectionAt(a, b, x, y) == if a[x - 1] == b[y - 1] then Diagonal
                                       else if up > left then Up else if left > up then Left else UpAndLeft
  {
  }

  lemma TableCell<T>(a: seq<T>, b: seq<T>, x: nat, y: nat)
    requires 0 < x <= |a| && 0 < y <= |b|
    ensures CommonLen(a, b, x, y) ==
              if a[x - 1] == b[y - 1] then CommonLen(a, b, x - 1, y - 1) + 1
              else Max(CommonLen(a, b, x - 1, y), CommonLen(a, b, x, y - 1))
  {
  }

  /** `s` is a longest common subsequence of the prefixes of length `x` and `y`. */
  ghost predicate LongestAt<T>(s: seq<T>, a: seq<T>, b: seq<T>, x: nat, y: nat)
    requires x <= |a| && y <= |b|
  {
    IsCommon(s, a[..x], b[..y]) && |s| == CommonLen(a, b, x, y)
  }

  lemma LongestAtBorder<T>(s: seq<T>, a: seq<T>, b: seq<T>, x: nat, y: nat)
    requires x <= |a| && y <= |b| && (x == 0 || y == 0)
    ensures LongestAt(s, a, b, x, y) <==> s == []
  {
    EmptySubsequence(a[..x]);
    EmptySubsequence(b[..y]);
  }

  /** With equal last elements, the longest common subsequences are those of the shorter prefixes, each
      extended by that element. */
  lemma LongestAtDiagonal<T>(s: seq<T>, a: seq<T>, b: seq<T>, x: nat, y: nat)
    requires 0 < x <= |a| && 0 < y <= |b| && a[x - 1] == b[y - 1]
    ensures LongestAt(s, a, b, x, y) <==>
              s != [] && s[|s| - 1] == a[x - 1] && LongestAt(s[..|s| - 1], a, b, x - 1, y - 1)
  {
    if LongestAt(s, a, b, x, y) {
      SubsequenceLast(s, a, x);
      SubsequenceLast(s, b, y);
      if s[|s| - 1] != a[x - 1] {
        CommonIsBounded(s, a, b, x - 1, y - 1);
      }
    } else if s != [] && s[|s| - 1] == a[x - 1] && LongestAt(s[..|s| - 1], a, b, x - 1, y - 1) {
      assert s == s[..|s| - 1] + [a[x - 1]];
      SubsequenceExtended(s[..|s| - 1], a, x);
      SubsequenceExtended(s[..|s| - 1], b, y);
    }
  }

  /** With different last elements, they are those found in the better, or in both, of the two directions. */
  lemma LongestAtSides<T>(s: seq<T>, a: seq<T>, b: seq<T>, x: nat, y: nat)
    requires 0 < x <= |a| && 0 < y <= |b| && a[x - 1] != b[y - 1]
    ensures LongestAt(s, a, b, x, y) <==>
              || (DirectionAt(a, b, x, y) in {Up, UpAndLeft} && LongestAt(s, a, b, x, y - 1))
              || (DirectionAt(a, b, x, y) in {Left, UpAndLeft} && LongestAt(s, a, b, x - 1, y))
  {
    if LongestAt(s, a, b, x, y) {
      if s == [] {
        EmptySubsequence(a[..x - 1]);
        EmptySubsequence(b[..y - 1]);
      } else {
        SubsequenceLast(s, a, x);
        SubsequenceLast(s, b, y);
        if s[|s| - 1] != a[x - 1] {
          CommonIsBounded(s, a, b, x - 1, y);
        } else {
          CommonIsBounded(s, a, b, x, y - 1);
        }
      }
    } else {
      if LongestAt(s, a, b, x, y - 1) {
        SubsequenceExtended(s, b, y);
      }
      if LongestAt(s, a, b, x - 1, y) {
        SubsequenceExtended(s, a, x);
      }
    }
  }

  lemma LongestAtWhole<T(!new)>(s: seq<T>, a: seq<T>, b: seq<T>)
    ensures LongestAt(s, a, b, |a|, |b|) <==> IsLongestCommon(s, a, b)
  {
    assert a[..|a|] == a && b[..|b|] == b;
    LongestIffLength(s, a, b);
  }

  /** A script for the prefixes of length `x` and `y`, of the least possible cost. */
  ghost predicate ScriptAt<T>(es: seq<Edit<T>>, a: seq<T>, b: seq<T>, x: nat, y: nat)
    requires x <= |a| && y <= |b|
  {
    Walks(es, a[..x], b[..y], 0, 0) && Cost(es) == Dist(a, b, x, y) && DeletionsPlaced(es)
  }

  lemma AppendEdit<T>(es: seq<Edit<T>>, e: Edit<T>, a: seq<T>, b: seq<T>, x: nat, y: nat, x': nat, y': nat)
    requires x <= x' <= |a| && y <= y' <= |b|
    requires ScriptAt(es, a, b, x, y)
    requires Walks([e], a[x..x'], b[y..y'], x, y)
    requires e.op.Delete? ==> e.posB == y
    requires Cost([e]) == Dist(a, b, x', y') - Dist(a, b, x, y)
    ensures ScriptAt(es + [e], a, b, x', y')
  {
    hide Dist, Walks, Cost;
    WalksConcat(es, a[..x], b[..y], [e], a[x..x'], b[y..y'], 0, 0);
    CostConcat(es, [e]);
    WalksEnumerates(es, a[..x], b[..y], 0, 0);
    assert a[..x] + a[x..x'] == a[..x'] && b[..y] + b[y..y'] == b[..y'];
    forall k | 0 <= k < |es + [e]| && (es + [e])[k].op.Delete?
      ensures (es + [e])[k].posB == |PositionsB((es + [e])[..k])|
    {
      assert (es + [e])[..k] == es[..k];
      assert es[..|es|] == es;
    }
  }

  lemma AppendKept<T>(es: seq<Edit<T>>, a: seq<T>, b: seq<T>, i: nat, j: nat)
    requires 0 < i <= |a| && 0 < j <= |b| && DirectionAt(a, b, i, j) == Diagonal
    requires ScriptAt(es, a, b, i - 1, j - 1)
    ensures ScriptAt(es + [Edit(Identical, i - 1, j - 1, b[j - 1])], a, b, i, j)
  {
    hide ScriptAt;
    TableCell(a, b, i, j);
    AppendEdit(es, Edit(Identical, i - 1, j - 1, b[j - 1]), a, b, i - 1, j - 1, i, j);
  }

  lemma AppendInsertion<T>(es: seq<Edit<T>>, a: seq<T>, b: seq<T>, i: nat, j: nat)
    requires i <= |a| && 0 < j <= |b| && (i == 0 || DirectionAt(a, b, i, j) in {Up, UpAndLeft})
    requires ScriptAt(es, a, b, i, j - 1)
    ensures ScriptAt(es + [Edit(Insert, i, j - 1, b[j - 1])], a, b, i, j)
  {
    hide ScriptAt;
    if i > 0 {
      TableCell(a, b, i, j);
    }
    AppendEdit(es, Edit(Insert, i, j - 1, b[j - 1]), a, b, i, j - 1, i, j);
  }

  lemma AppendDeletion<T>(es: seq<Edit<T>>, a: seq<T>, b: seq<T>, i: nat, j: nat)
    requires 0 < i <= |a| && j <= |b| && (j == 0 || DirectionAt(a, b, i, j) == Left)
    requires ScriptAt(es, a, b, i - 1, j)
    ensures ScriptAt(es + [Edit(Delete, i - 1, j, a[i - 1])], a, b, i, j)
  {
    hide ScriptAt;
    if j > 0 {
      TableCell(a, b, i, j);
    }
    AppendEdit(es, Edit(Delete, i - 1, j, a[i - 1]), a, b, i - 1, j, i, j);
  }

  class DP<T(==, !new)> {
    const a: seq<T>
    const b: seq<T>
    var filled: bool
    const directions: array2<Direction>

    ghost predicate Valid()
      reads this, directions
    {
      && directions.Length0 == |a| + 1 && directions.Length1 == |b| + 1
      && (filled ==> forall x, y | 0 < x <= |a| && 0 < y <= |b| :: directions[x, y] == DirectionAt(a, b, x, y))
    }

    constructor (a: seq<T>, b: seq<T>)
      ensures Valid() && !filled && this.a == a && this.b == b && fresh(directions)
    {
      this.a, this.b := a, b;
      filled := false;
      directions := new Direction[|a| + 1, |b| + 1]((x, y) => Diagonal);
    }

    method Fill()
      requires Valid()
      modifies this, directions
      ensures Valid() && filled
    {
      hide CommonLen, DirectionAt;
      if filled {
        return;
      }
      filled := true;
      TableBorder(a, b);
      var table := new int[|a| + 1, |b| + 1]((x, y) => 0);
      for y := 1 to |b| + 1
        invariant filled
        invariant forall i, j | 0 <= i <= |a| && 0 <= j <= |b| ::
                    table[i, j] == if j < y then CommonLen(a, b, i, j) else 0
        invariant forall i, j | 0 < i <= |a| && 0 < j < y :: directions[i, j] == DirectionAt(a, b, i, j)
      {
        for x := 1 to |a| + 1
          invariant filled
          invariant forall i, j | 0 <= i <= |a| && 0 <= j <= |b| ::
                      table[i, j] == if j < y || (j == y && i < x) then CommonLen(a, b, i, j) else 0
          invariant forall i, j | 0 < i <= |a| && 0 < j && (j < y || (j == y && i < x)) ::
                      directions[i, j] == DirectionAt(a, b, i, j)
        {
          TableCell(a, b, x, y);
          DirectionCell(a, b, x, y);
          if a[x - 1] == b[y - 1] {
            table[x, y] := table[x - 1, y - 1] + 1;
            directions[x, y] := Diagonal;
            continue;
          }
          var prevLeft := table[x - 1, y];
          var prevUp := table[x, y - 1];
          if prevUp > prevLeft {
            directions[x, y] := Up;
            table[x, y] := prevUp;
          } else if prevLeft > prevUp {
            directions[x, y] := Left;
            table[x, y] := prevLeft;
          } else {
            directions[x, y] := UpAndLeft;
            table[x, y] := prevLeft;
          }
        }
      }
    }

    function Backtrack(i: nat, j: nat): (r: seq<T>)
      requires Valid() && filled && i <= |a| && j <= |b|
      reads this, directions
      ensures LongestAt(r, a, b, i, j)
      decreases i + j
    {
      if i == 0 || j == 0 then
        LongestAtBorder([], a, b, i, j);
        []
      else
        match directions[i, j]
        case Diagonal =>
          var p := Backtrack(i - 1, j - 1);
          LongestAtDiagonal(p + [a[i - 1]], a, b, i, j);
          assert (p + [a[i - 1]])[..|p|] == p;
          p + [a[i - 1]]
        case Up =>
          var p := Backtrack(i, j - 1);
          LongestAtSides(p, a, b, i, j);
          p
        case UpAndLeft =>
          var p := Backtrack(i, j - 1);
          LongestAtSides(p, a, b, i, j);
          p
        case Left =>
          var p := Backtrack(i - 1, j);
          LongestAtSides(p, a, b, i, j);
          p
    }

    /** Appends the element at `i` to every path; no path at all counts as the empty one. */
    method Extend(i: nat, bt: seq<seq<T>>) returns (r: seq<seq<T>>)
      requires i < |a|
      ensures bt == [] ==> r == [[a[i]]]
      ensures bt != [] ==> |r| == |bt| && forall k :: 0 <= k < |bt| ==> r[k] == bt[k] + [a[i]]
    {
      if |bt| == 0 {
        return [[a[i]]];
      }
      var v := a[i];
      r := bt;
      for k := 0 to |bt|
        invariant |r| == |bt|
        invariant forall m :: 0 <= m < |bt| ==> r[m] == if m < k then bt[m] + [v] else bt[m]
      {
        r := r[k := r[k] + [v]];
      }
    }

    /** All longest common subsequences of the prefixes, none at all when nothing is common. */
    method BacktrackAll(i: nat, j: nat) returns (paths: seq<seq<T>>)
      requires Valid() && filled && i <= |a| && j <= |b|
      ensures forall s :: s in paths <==> s != [] && LongestAt(s, a, b, i, j)
      decreases i + j
    {
      hide CommonLen, IsCommon;
      if i == 0 || j == 0 {
        forall s: seq<T> {
          LongestAtBorder(s, a, b, i, j);
        }
        return [];
      }
      var dir := directions[i, j];
      if dir == Diagonal {
        var shorter := BacktrackAll(i - 1, j - 1);
        paths := Extend(i - 1, shorter);
        ExtendedPaths(shorter, paths, i, j);
        return;
      }
      forall s: seq<T> {
        LongestAtSides(s, a, b, i, j);
      }
      paths := [];
      if dir == Up || dir == UpAndLeft {
        paths := BacktrackAll(i, j - 1);
      }
      if dir == Left || dir == UpAndLeft {
        var lefts := BacktrackAll(i - 1, j);
        paths := paths + lefts;
      }
    }

    lemma ExtendedPaths(bt: seq<seq<T>>, r: seq<seq<T>>, i: nat, j: nat)
      requires 0 < i <= |a| && 0 < j <= |b| && a[i - 1] == b[j - 1]
      requires forall s :: s in bt <==> s != [] && LongestAt(s, a, b, i - 1, j - 1)
      requires bt == [] ==> r == [[a[i - 1]]]
      requires bt != [] ==> |r| == |bt| && forall k :: 0 <= k < |bt| ==> r[k] == bt[k] + [a[i - 1]]
      ensures forall s :: s in r <==> s != [] && LongestAt(s, a, b, i, j)
    {
      hide CommonLen;
      var v := a[i - 1];
      var w := CommonIsAttained(a, b, i - 1, j - 1);
      assert LongestAt(w, a, b, i - 1, j - 1);
      forall s: seq<T>
        ensures s in r <==> s != [] && LongestAt(s, a, b, i, j)
      {
        LongestAtDiagonal(s, a, b, i, j);
        if s in r {
          var k :| 0 <= k < |r| && r[k] == s;
          if bt == [] {
            assert w !in bt;
            assert s[..|s| - 1] == w;
          } else {
            assert bt[k] in bt && s[..|s| - 1] == bt[k];
          }
        }
        if s != [] && LongestAt(s, a, b, i, j) {
          var p := s[..|s| - 1];
          assert s == p + [v];
          if bt == [] {
            assert p !in bt;
            assert s == [v] && s in r;
          } else {
            assert bt[0] in bt;
            assert p in bt;
            var k :| 0 <= k < |bt| && bt[k] == p;
            assert r[k] == s;
          }
        }
      }
    }

    function Diff(i: nat, j: nat): (es: seq<Edit<T>>)
      requires Valid() && filled && i <= |a| && j <= |b|
      reads this, directions
      ensures ScriptAt(es, a, b, i, j)
      decreases i + j
    {
      var dir := directions[i, j];
      if i > 0 && j > 0 && dir == Diagonal then
        AppendKept(Diff(i - 1, j - 1), a, b, i, j);
        Diff(i - 1, j - 1) + [Edit(Identical, i - 1, j - 1, b[j - 1])]
      else if j > 0 && (i == 0 || dir == Up || dir == UpAndLeft) then
        AppendInsertion(Diff(i, j - 1), a, b, i, j);
        Diff(i, j - 1) + [Edit(Insert, i, j - 1, b[j - 1])]
      else if i > 0 && (j == 0 || dir == Left) then
        AppendDeletion(Diff(i - 1, j), a, b, i, j);
        Diff(i - 1, j) + [Edit(Delete, i - 1, j, a[i - 1])]
      else
        []
    }

    method Lcs() returns (r: seq<T>)
      requires Valid()
      modifies this, directions
      ensures Valid() && filled
      ensures IsLongestCommon(r, a, b)
    {
      Fill();
      r := Backtrack(|a|, |b|);
      LongestAtWhole(r, a, b);
    }

    method AllLcs() returns (all: seq<seq<T>>)
      requires Valid()
      modifies this, directions
      ensures Valid() && filled
      ensures if CommonLen(a, b, |a|, |b|) == 0 then all == []
              else forall s :: s in all <==> IsLongestCommon(s, a, b)
    {
      Fill();
      all := BacktrackAll(|a|, |b|);
      forall s: seq<T> {
        LongestAtWhole(s, a, b);
      }
      assert all != [] ==> all[0] in all;
    }

    method Ses() returns (es: seq<Edit<T>>)
      requires Valid()
      modifies this, directions
      ensures Valid() && filled
      ensures IsShortestScript(es, a, b) && DeletionsPlaced(es)
      ensures Cost(es) == |a| + |b| - 2 * CommonLen(a, b, |a|, |b|)
      ensures IsLongestCommon(Kept(es), a, b)
    {
      Fill();
      es := Diff(|a|, |b|);
      assert a[..|a|] == a && b[..|b|] == b;
      ShortestScript(es, a, b);
    }
  }
}
