/** Bitmaps made of 64-bit words, and the contiguous run of set bits at their start. */
module Bitmap {

  /** The bits of one word, least significant first. */
  type Word = w: seq<bool> | |w| == 64 witness seq(64, i => false)

  const ZERO: Word := seq(64, i => false)
  const ONES: Word := seq(64, i => true)

  predicate Bit(b: seq<Word>, i: int)
    requires 0 <= i < 64 * |b|
  {
    b[i / 64][i % 64]
  }

  function New(size: int): (b: seq<Word>)
    ensures size <= 64 * |b|
    ensures forall i :: 0 <= i < 64 * |b| ==> !Bit(b, i)
  {
    if size <= 0 then [] else seq((size + 63) / 64, i => ZERO)
  }

  /** Setting or clearing a bit; out of range nothing happens. */
  function Put(b: seq<Word>, i: int, value: bool): (r: seq<Word>)
    ensures |r| == |b|
    ensures forall j :: 0 <= j < 64 * |b| ==> Bit(r, j) == if j == i then value else Bit(b, j)
  {
    if i < 0 || i >= 64 * |b| then b
    else
      var w: Word := b[i / 64][i % 64 := value];
      var r := b[i / 64 := w];
      PutOthers(b, i, value);
      r
  }

  lemma PutOthers(b: seq<Word>, i: int, value: bool)
    requires 0 <= i < 64 * |b|
    ensures var w: Word := b[i / 64][i % 64 := value];
            forall j :: 0 <= j < 64 * |b| ==> Bit(b[i / 64 := w], j) == if j == i then value else Bit(b, j)
  {
    var w: Word := b[i / 64][i % 64 := value];
    forall j | 0 <= j < 64 * |b|
      ensures Bit(b[i / 64 := w], j) == if j == i then value else Bit(b, j)
    {
      if j / 64 == i / 64 && j % 64 == i % 64 {
        assert j == i;
      }
    }
  }

  function Limit(b: seq<Word>, size: int): int {
    if 64 * |b| < size then 64 * |b| else size
  }

  lemma EqualWord(b: seq<Word>, from: int, value: bool)
    requires 0 <= from < 64 * |b| && from % 64 == 0
    requires b[from / 64] == if value then ONES else ZERO
    ensures forall i | from <= i < from + 64 :: Bit(b, i) == value
  {
    forall i | from <= i < from + 64
      ensures Bit(b, i) == value
    {
      assert i / 64 == from / 64;
    }
  }

  /** The first set bit from `start` on, below `size`; words without one are skipped at once. */
  method NextSet(b: seq<Word>, start: int, size: int) returns (n: int)
    ensures n == -1 || (start <= n < Limit(b, size) && 0 <= n && Bit(b, n))
    ensures 0 <= start ==> forall i | start <= i < if n == -1 then Limit(b, size) else n :: !Bit(b, i)
    ensures start < 0 ==> n == -1
  {
    var last := Limit(b, size);
    if start < 0 || start >= last {
      return -1;
    }
    var nb := start;
    while nb < last
      invariant start <= nb
      invariant forall i | start <= i < nb && i < last :: !Bit(b, i)
    {
      if nb % 64 == 0 && b[nb / 64] == ZERO {
        EqualWord(b, nb, false);
        nb := nb + 64;
        continue;
      }
      if Bit(b, nb) {
        return nb;
      }
      nb := nb + 1;
    }
    return -1;
  }

  /** The first clear bit from `start` on, below `size`. */
  method NextClear(b: seq<Word>, start: int, size: int) returns (n: int)
    ensures n == -1 || (start <= n < Limit(b, size) && 0 <= n && !Bit(b, n))
    ensures 0 <= start ==> forall i | start <= i < if n == -1 then Limit(b, size) else n :: Bit(b, i)
    ensures start < 0 ==> n == -1
  {
    var last := Limit(b, size);
    if start < 0 || start >= last {
      return -1;
    }
    var nb := start;
    while nb < last
      invariant start <= nb
      invariant forall i | start <= i < nb && i < last :: Bit(b, i)
    {
      if nb % 64 == 0 && b[nb / 64] == ONES {
        EqualWord(b, nb, true);
        nb := nb + 64;
        continue;
      }
      if !Bit(b, nb) {
        return nb;
      }
      nb := nb + 1;
    }
    return -1;
  }

  /** Follows the contiguous run of set bits from `start` on while bits are set in any order. */
  class Contiguous {
    var bits: seq<Word>
    const last: int
    const start: int
    var firstClear: int

    ghost predicate Valid()
      reads this
    {
      && 0 <= start <= firstClear <= last + 1 <= 64 * |bits|
      && (forall i | start <= i < firstClear :: Bit(bits, i))
      && (firstClear <= last ==> !Bit(bits, firstClear))
    }

    /** A non-positive size, or a start past it, makes the program return no tracker. */
    constructor (bm: seq<Word>, start: int, size: int)
      requires 0 < size <= 64 * |bm| && 0 <= start <= size
      ensures Valid() && bits == bm && last == size - 1 && this.start == start
    {
      bits := bm;
      last := size - 1;
      this.start := start;
      firstClear := start;
      new;
      Extend(start);
    }

    method Extend(from: int)
      requires 0 <= start <= from == firstClear <= last + 1 <= 64 * |bits|
      requires forall i | start <= i < firstClear :: Bit(bits, i)
      modifies this`firstClear
      ensures Valid()
    {
      var nb := from;
      while nb <= last
        invariant from <= nb == firstClear <= last + 1
        invariant forall i | start <= i < nb :: Bit(bits, i)
      {
        if Bit(bits, nb) {
          firstClear := firstClear + 1;
        } else {
          break;
        }
        nb := nb + 1;
      }
    }

    method Set(i: int)
      requires Valid()
      modifies this
      ensures Valid()
      ensures bits == if 0 <= i <= last then Put(old(bits), i, true) else old(bits)
    {
      if i < 0 || i > last {
        return;
      }
      bits := Put(bits, i, true);
      if i != firstClear {
        return;
      }
      Extend(firstClear);
    }

    /** The last bit of the run of set bits at the start, or -1 when there is no such run. */
    method Tail() returns (t: int)
      requires Valid()
      ensures t == -1 <==> start > last || !Bit(bits, start)
      ensures t != -1 ==>
                && start <= t <= last
                && (forall i | start <= i <= t :: Bit(bits, i))
                && (t == last || !Bit(bits, t + 1))
    {
      if firstClear <= start {
        return -1;
      }
      return firstClear - 1;
    }
  }
}
