/** Subsequences, by their embeddings, and longest common subsequences. */
module LcsSubsequence {
  import opened LcsGrid

  /** `idx` picks the elements of `s` out of `a`, in order. */
  ghost predicate Embeds<T>(idx: seq<nat>, s: seq<T>, a: seq<T>) {
    && |idx| == |s|
    && (forall i :: 0 <= i < |idx| ==> idx[i] < |a| && a[idx[i]] == s[i])
    && (forall i, j :: 0 <= i < j < |idx| ==> idx[i] < idx[j])
  }

  ghost predicate IsSubsequence<T>(s: seq<T>, a: seq<T>) {
    exists idx :: Embeds(idx, s, a)
  }

  ghost predicate IsCommon<T>(s: seq<T>, a: seq<T>, b: seq<T>) {
    IsSubsequence(s, a) && IsSubsequence(s, b)
  }

  ghost predicate IsLongestCommon<T(!new)>(s: seq<T>, a: seq<T>, b: seq<T>) {
    IsCommon(s, a, b) && forall t :: IsCommon(t, a, b) ==> |t| <= |s|
  }

  lemma EmptySubsequence<T>(a: seq<T>)
    ensures IsSubsequence([], a)
  {
    assert Embeds([], [], a);
  }

  lemma WholeSubsequence<T>(a: seq<T>)
    ensures IsSubsequence(a, a)
  {
    assert Embeds(seq(|a|, i requires 0 <= i < |a| => i), a, a);
  }

  lemma ConcatSubsequence<T>(s1: seq<T>, a1: seq<T>, s2: seq<T>, a2: seq<T>)
    requires IsSubsequence(s1, a1) && IsSubsequence(s2, a2)
    ensures IsSubsequence(s1 + s2, a1 + a2)
  {
    var i1 :| Embeds(i1, s1, a1);
    var i2 :| Embeds(i2, s2, a2);
    var idx: seq<nat> := i1 + seq(|i2|, i requires 0 <= i < |i2| => i2[i] + |a1|);
    forall i, j | 0 <= i < j < |idx|
      ensures idx[i] < idx[j]
    {
      assert i >= |i1| ==> i2[i - |i1|] < i2[j - |i1|];
    }
    assert Embeds(idx, s1 + s2, a1 + a2);
  }

  lemma ConcatCommon<T>(s1: seq<T>, a1: seq<T>, b1: seq<T>, s2: seq<T>, a2: seq<T>, b2: seq<T>)
    requires IsCommon(s1, a1, b1) && IsCommon(s2, a2, b2)
    ensures IsCommon(s1 + s2, a1 + a2, b1 + b2)
  {
    ConcatSubsequence(s1, a1, s2, a2);
    ConcatSubsequence(s1, b1, s2, b2);
  }

  lemma SubsequenceOfLonger<T>(s: seq<T>, a: seq<T>, n: nat)
    requires n <= |a| && IsSubsequence(s, a[..n])
    ensures IsSubsequence(s, a)
  {
    EmptySubsequence(a[n..]);
    ConcatSubsequence(s, a[..n], [], a[n..]);
    assert s + [] == s && a[..n] + a[n..] == a;
  }

  lemma SubsequenceExtended<T>(s: seq<T>, a: seq<T>, x: nat)
    requires 0 < x <= |a| && IsSubsequence(s, a[..x - 1])
    ensures IsSubsequence(s + [a[x - 1]], a[..x])
    ensures IsSubsequence(s, a[..x])
  {
    WholeSubsequence([a[x - 1]]);
    ConcatSubsequence(s, a[..x - 1], [a[x - 1]], [a[x - 1]]);
    assert a[..x - 1] + [a[x - 1]] == a[..x];
    assert a[..x][..x - 1] == a[..x - 1];
    SubsequenceOfLonger(s, a[..x], x - 1);
  }

  /** The last element of a subsequence either is the last element of the prefix, or is found before it. */
  lemma SubsequenceLast<T>(s: seq<T>, a: seq<T>, x: nat)
    requires 0 < x <= |a| && s != [] && IsSubsequence(s, a[..x])
    ensures IsSubsequence(s[..|s| - 1], a[..x - 1])
    ensures s[|s| - 1] == a[x - 1] || IsSubsequence(s, a[..x - 1])
  {
    var idx :| Embeds(idx, s, a[..x]);
    var n := |s| - 1;
    assert forall i :: 0 <= i < n ==> idx[i] < idx[n];
    assert Embeds(idx[..n], s[..n], a[..x - 1]);
    if idx[|s| - 1] != x - 1 {
      assert Embeds(idx, s, a[..x - 1]);
    }
  }

  lemma {:induction false} IndexAtLeastPosition<T>(idx: seq<nat>, s: seq<T>, a: seq<T>, i: nat)
    requires Embeds(idx, s, a) && i < |idx|
    ensures i <= idx[i] < |a|
  {
    if i > 0 {
      IndexAtLeastPosition(idx, s, a, i - 1);
      assert idx[i - 1] < idx[i];
    }
  }

  lemma SubsequenceNoLonger<T>(s: seq<T>, a: seq<T>)
    requires IsSubsequence(s, a)
    ensures |s| <= |a|
  {
    var idx :| Embeds(idx, s, a);
    if s != [] {
      IndexAtLeastPosition(idx, s, a, |s| - 1);
    }
  }

  /** No common subsequence is longer than the table entry. */
  lemma {:induction false} CommonIsBounded<T>(s: seq<T>, a: seq<T>, b: seq<T>, x: nat, y: nat)
    requires x <= |a| && y <= |b|
    requires IsCommon(s, a[..x], b[..y])
    ensures |s| <= CommonLen(a, b, x, y)
    decreases x + y
  {
    if x == 0 {
      SubsequenceNoLonger(s, a[..x]);
    } else if y == 0 {
      SubsequenceNoLonger(s, b[..y]);
    } else if s != [] {
      SubsequenceLast(s, a, x);
      SubsequenceLast(s, b, y);
      if a[x - 1] == b[y - 1] {
        CommonIsBounded(s[..|s| - 1], a, b, x - 1, y - 1);
      } else if s[|s| - 1] != a[x - 1] {
        CommonIsBounded(s, a, b, x - 1, y);
      } else {
        CommonIsBounded(s, a, b, x, y - 1);
      }
    }
  }

  /** The table entry is attained. */
  lemma {:induction false} CommonIsAttained<T>(a: seq<T>, b: seq<T>, x: nat, y: nat) returns (s: seq<T>)
    requires x <= |a| && y <= |b|
    ensures IsCommon(s, a[..x], b[..y])
    ensures |s| == CommonLen(a, b, x, y)
    decreases x + y
  {
    if x == 0 || y == 0 {
      s := [];
      EmptySubsequence(a[..x]);
      EmptySubsequence(b[..y]);
    } else if a[x - 1] == b[y - 1] {
      s := CommonIsAttained(a, b, x - 1, y - 1);
      SubsequenceExtended(s, a, x);
      SubsequenceExtended(s, b, y);
      s := s + [a[x - 1]];
    } else if CommonLen(a, b, x - 1, y) >= CommonLen(a, b, x, y - 1) {
      s := CommonIsAttained(a, b, x - 1, y);
      SubsequenceExtended(s, a, x);
    } else {
      s := CommonIsAttained(a, b, x, y - 1);
      SubsequenceExtended(s, b, y);
    }
  }

  /** The longest common subsequences are exactly the common subsequences as long as the table entry. */
  lemma LongestIffLength<T(!new)>(s: seq<T>, a: seq<T>, b: seq<T>)
    ensures IsLongestCommon(s, a, b) <==> IsCommon(s, a, b) && |s| == CommonLen(a, b, |a|, |b|)
  {
    assert a[..|a|] == a && b[..|b|] == b;
    var w := CommonIsAttained(a, b, |a|, |b|);
    forall t | IsCommon(t, a, b)
      ensures |t| <= CommonLen(a, b, |a|, |b|)
    {
      CommonIsBounded(t, a, b, |a|, |b|);
    }
  }
}
