/** The binary min-heap that orders out-of-order responses and scheduled actions. */
module MinHeap {

  datatype Entry<V> = Entry(key: int, val: V)

  function Parent(i: int): int
    requires i > 0
  {
    (i - 1) / 2
  }

  ghost predicate OrderedAt<V>(s: seq<Entry<V>>, i: int) {
    0 < i < |s| ==> s[Parent(i)].key <= s[i].key
  }

  /** No entry among the first `n` is smaller than its parent. */
  ghost predicate IsHeap<V>(s: seq<Entry<V>>, n: int) {
    n <= |s| && forall i :: 0 < i < n ==> OrderedAt(s, i)
  }

  lemma {:induction false} RootIsLeast<V>(s: seq<Entry<V>>, n: int, i: int)
    requires IsHeap(s, n) && 0 <= i < n
    ensures s[0].key <= s[i].key
    decreases i
  {
    if i > 0 {
      assert OrderedAt(s, i);
      RootIsLeast(s, n, Parent(i));
    }
  }

  function Swapped<T>(s: seq<T>, i: int, j: int): (r: seq<T>)
    requires 0 <= i < |s| && 0 <= j < |s|
    ensures |r| == |s| && r[i] == s[j] && r[j] == s[i]
    ensures forall k :: 0 <= k < |s| && k != i && k != j ==> r[k] == s[k]
  {
    s[i := s[j]][j := s[i]]
  }

  lemma SwappedMultiset<T>(s: seq<T>, i: int, j: int)
    requires 0 <= i < |s| && 0 <= j < |s|
    ensures multiset(Swapped(s, i, j)) == multiset(s)
  {
  }

  /** A heap but for the entry at `j`, which may be smaller than its ancestors. */
  ghost predicate SmallAt<V>(s: seq<Entry<V>>, n: int, j: int) {
    && n <= |s|
    && (forall i :: 0 < i < n && i != j ==> OrderedAt(s, i))
    && (forall i :: 0 < i < n && j > 0 && Parent(i) == j ==> s[Parent(j)].key <= s[i].key)
  }

  /** A heap but for the entry at `j`, which may be larger than its descendants. */
  ghost predicate LargeAt<V>(s: seq<Entry<V>>, n: int, j: int) {
    && n <= |s|
    && (forall i :: 0 < i < n && Parent(i) != j ==> OrderedAt(s, i))
    && (forall i :: 0 < i < n && j > 0 && Parent(i) == j ==> s[Parent(j)].key <= s[i].key)
  }

  lemma SmallMovesUp<V>(s: seq<Entry<V>>, n: int, j: int)
    requires SmallAt(s, n, j) && 0 < j < n && s[j].key < s[Parent(j)].key
    ensures SmallAt(Swapped(s, Parent(j), j), n, Parent(j))
  {
    var p := Parent(j);
    var r := Swapped(s, p, j);
    forall i | 0 < i < n && i != p
      ensures OrderedAt(r, i)
    {
      assert i != j ==> OrderedAt(s, i);
    }
    forall i | 0 < i < n && p > 0 && Parent(i) == p
      ensures r[Parent(p)].key <= r[i].key
    {
      assert OrderedAt(s, p);
      assert i != j ==> OrderedAt(s, i);
    }
  }

  /** `c` is a child of `i`, and none of its children is smaller. */
  ghost predicate LeastChild<V>(s: seq<Entry<V>>, n: int, i: int, c: int) {
    && 0 <= i < c < n <= |s| && Parent(c) == i
    && forall k :: 0 < k < n && Parent(k) == i ==> s[c].key <= s[k].key
  }

  lemma ChosenChild<V>(s: seq<Entry<V>>, n: int, i: int)
    requires 0 <= i && 2 * i + 1 < n <= |s|
    ensures var c := 2 * i + 1;
            LeastChild(s, n, i, if c + 1 < n && s[c + 1].key < s[c].key then c + 1 else c)
  {
  }

  lemma LargeAtPlace<V>(s: seq<Entry<V>>, n: int, i: int, c: int)
    requires LargeAt(s, n, i)
    requires 2 * i + 1 >= n || (LeastChild(s, n, i, c) && s[c].key >= s[i].key)
    ensures IsHeap(s, n)
  {
  }

  lemma LargeMovesDown<V>(s: seq<Entry<V>>, n: int, i: int, c: int)
    requires LargeAt(s, n, i) && LeastChild(s, n, i, c)
    requires s[c].key < s[i].key
    ensures LargeAt(Swapped(s, i, c), n, c)
  {
    var r := Swapped(s, i, c);
    forall k | 0 < k < n && Parent(k) != c
      ensures OrderedAt(r, k)
    {
      assert Parent(k) != i ==> OrderedAt(s, k);
    }
    forall k | 0 < k < n && c > 0 && Parent(k) == c
      ensures r[Parent(c)].key <= r[k].key
    {
      assert OrderedAt(s, k);
    }
  }

  class Heap<V> {
    var items: seq<Entry<V>>

    ghost predicate Valid()
      reads this
    {
      IsHeap(items, |items|)
    }

    ghost function Contents(): multiset<Entry<V>>
      reads this
    {
      multiset(items)
    }

    constructor ()
      ensures Valid() && items == []
    {
      items := [];
    }

    /** Moves the entry at `from` up to its place. */
    method SiftUp(from: int)
      requires 0 <= from < |items| && SmallAt(items, |items|, from)
      modifies this
      ensures Valid() && Contents() == old(Contents()) && |items| == old(|items|)
    {
      var j := from;
      ghost var all := multiset(items);
      while j > 0 && items[j].key < items[Parent(j)].key
        invariant 0 <= j < |items| && |items| == old(|items|)
        invariant SmallAt(items, |items|, j)
        invariant multiset(items) == all
        decreases j
      {
        SmallMovesUp(items, |items|, j);
        SwappedMultiset(items, Parent(j), j);
        items := Swapped(items, Parent(j), j);
        j := Parent(j);
      }
    }

    /** Moves the root down to its place among the first `n` entries. */
    method SiftDown(n: int)
      requires 0 <= n <= |items| && LargeAt(items, n, 0)
      modifies this
      ensures IsHeap(items, n) && Contents() == old(Contents()) && |items| == old(|items|)
      ensures items[n..] == old(items)[n..]
    {
      hide LargeAt, IsHeap;
      var i := 0;
      ghost var start := items;
      while 2 * i + 1 < n
        invariant 0 <= i && |items| == |start| && items[n..] == start[n..]
        invariant LargeAt(items, n, i)
        invariant multiset(items) == multiset(start)
        decreases n - i
      {
        ChosenChild(items, n, i);
        var c := 2 * i + 1;
        if c + 1 < n && items[c + 1].key < items[c].key {
          c := c + 1;
        }
        if items[c].key >= items[i].key {
          LargeAtPlace(items, n, i, c);
          return;
        }
        LargeMovesDown(items, n, i, c);
        SwappedMultiset(items, i, c);
        items := Swapped(items, i, c);
        i := c;
      }
      LargeAtPlace(items, n, i, 0);
    }

    method Push(e: Entry<V>)
      requires Valid()
      modifies this
      ensures Valid()
      ensures Contents() == old(Contents()) + multiset{e}
      ensures |items| == old(|items|) + 1
    {
      items := items + [e];
      forall i | 0 < i < |items| && i != |items| - 1
        ensures OrderedAt(items, i)
      {
        assert OrderedAt(old(items), i);
      }
      SiftUp(|items| - 1);
    }

    /** Removes and returns an entry with the least key. */
    method Pop() returns (e: Entry<V>)
      requires Valid() && |items| > 0
      modifies this
      ensures Valid()
      ensures e in old(Contents()) && Contents() == old(Contents()) - multiset{e}
      ensures |items| == old(|items|) - 1
      ensures forall f | f in old(Contents()) :: e.key <= f.key
    {
      hide LargeAt, IsHeap, Swapped;
      var n := |items| - 1;
      ghost var whole := items;
      RootIsLeastOfAll(whole);
      SwappedMultiset(items, 0, n);
      RootSwappedOut(items, n);
      items := Swapped(items, 0, n);
      SiftDown(n);
      e := items[n];
      LastIsRoot(whole, items);
      PrefixIsHeap(items, n);
      items := items[..n];
    }
  }

  lemma RootIsLeastOfAll<V>(s: seq<Entry<V>>)
    requires IsHeap(s, |s|) && s != []
    ensures forall f | f in multiset(s) :: s[0].key <= f.key
  {
    forall f | f in multiset(s)
      ensures s[0].key <= f.key
    {
      var i :| 0 <= i < |s| && s[i] == f;
      RootIsLeast(s, |s|, i);
    }
  }

  lemma RootSwappedOut<V>(s: seq<Entry<V>>, n: int)
    requires IsHeap(s, |s|) && 0 <= n == |s| - 1
    ensures LargeAt(Swapped(s, 0, n), n, 0)
  {
    forall i | 0 < i < n && Parent(i) != 0
      ensures OrderedAt(Swapped(s, 0, n), i)
    {
      assert OrderedAt(s, i);
    }
  }

  /** The root, exchanged with the last entry, is last. */
  lemma LastIsRoot<V>(whole: seq<Entry<V>>, items: seq<Entry<V>>)
    requires whole != [] && multiset(items) == multiset(whole)
    requires |items| == |whole| && items[|whole| - 1..] == Swapped(whole, 0, |whole| - 1)[|whole| - 1..]
    ensures items[|whole| - 1] == whole[0]
    ensures multiset(items[..|whole| - 1]) == multiset(whole) - multiset{whole[0]}
  {
    var n := |whole| - 1;
    assert items[n] == items[n..][0] == Swapped(whole, 0, n)[n];
    assert items == items[..n] + [items[n]];
  }

  lemma PrefixIsHeap<V>(s: seq<Entry<V>>, n: nat)
    requires n <= |s| && IsHeap(s, n)
    ensures IsHeap(s[..n], n)
  {
    forall i | 0 < i < n
      ensures OrderedAt(s[..n], i)
    {
      assert OrderedAt(s, i);
    }
  }
}
