/** A writer that keeps the last bytes written to it in a ring buffer. */
module TailWriter {
  import opened Common

  function Last<T>(s: seq<T>, n: nat): seq<T> {
    if |s| <= n then s else s[|s| - n..]
  }

  lemma LastIgnores<T>(s: seq<T>, t: seq<T>, n: nat)
    requires |t| >= n
    ensures Last(s + t, n) == Last(t, n)
  {
    assert (s + t)[|s| + |t| - n..] == t[|t| - n..];
  }

  /** Keeping the last of what was kept and of what is added keeps the last of all. */
  lemma LastOfLasts<T>(s: seq<T>, t: seq<T>, n: nat)
    ensures Last(Last(s, n) + Last(t, n), n) == Last(s + t, n)
  {
    if |t| >= n {
      LastIgnores(Last(s, n), Last(t, n), n);
      LastIgnores(s, t, n);
    } else if |s| > n {
      LastIgnores(s[..|s| - n], s[|s| - n..] + t, n);
      assert s[..|s| - n] + (s[|s| - n..] + t) == s + t;
    }
  }

  /** What a ring holds, oldest first. */
  function Contents<T>(buf: seq<T>, pos: nat, full: bool): seq<T>
    requires pos <= |buf|
  {
    if full then buf[pos..] + buf[..pos] else buf[..pos]
  }

  lemma LastDrops<T>(dropped: seq<T>, kept: seq<T>)
    ensures Last(dropped + kept, |kept|) == kept
  {
  }

  /** Copying a chunk that fits before the end of the buffer adds it to what the ring holds.
      The chunk replaces `out` between `left` and `right`. */
  lemma CopyAdds<T>(left: seq<T>, out: seq<T>, right: seq<T>, full: bool, chunk: seq<T>)
    requires |chunk| == |out|
    ensures var n := |left| + |out| + |right|;
            var kept := Contents(left + out + right, |left|, full);
            var after := left + chunk + right;
            && (right != [] ==> Contents(after, |left| + |chunk|, full) == Last(kept + chunk, n))
            && (right == [] ==> Contents(after, 0, true) == Last(kept + chunk, n))
  {
    hide Last;
    var before, after := left + out + right, left + chunk + right;
    assert before[..|left|] == left && before[|left|..] == out + right;
    assert after[..|left| + |chunk|] == left + chunk && after[|left| + |chunk|..] == right;
    if full {
      assert out + right + left + chunk == out + (right + left + chunk);
      LastDrops(out, right + left + chunk);
      assert after[0..] + after[..0] == after;
      assert right + left + chunk == right + (left + chunk);
      assert right == [] ==> right + left + chunk == left + chunk;
    } else {
      ShortIsKept(left + chunk, |left| + |out| + |right|);
      assert after[0..] + after[..0] == after;
    }
  }

  lemma ShortIsKept<T>(s: seq<T>, n: nat)
    requires |s| <= n
    ensures Last(s, n) == s
  {
  }

  lemma LastIs<T>(s: seq<T>, n: nat)
    ensures Last(s, n) == if |s| > n then s[|s| - n..] else s
  {
  }

  lemma LastTwice<T>(s: seq<T>, n: nat)
    ensures Last(Last(s, n), n) == Last(s, n)
  {
  }

  lemma NothingKept<T>(s: seq<T>, buf: seq<T>)
    requires buf == []
    ensures Last(s, 0) == [] == Contents(buf, 0, false)
  {
  }

  lemma Joined<T>(kept: seq<T>, all: seq<T>, i: nat, chunk: nat, n: nat)
    requires i + chunk <= |all| && chunk <= n
    ensures Last(Last(kept + all[..i], n) + all[i..][..chunk], n) == Last(kept + all[..i + chunk], n)
  {
    hide Last;
    var more := all[i..][..chunk];
    ShortIsKept(more, n);
    LastOfLasts(kept + all[..i], more, n);
    assert all[..i + chunk] == all[..i] + more;
    assert kept + all[..i] + more == kept + (all[..i] + more);
  }

  class TailWriter {
    const size: nat
    const buf: array<Byte>
    var pos: nat
    var full: bool
    /** All the bytes ever written. */
    ghost var written: seq<Byte>

    ghost predicate Valid()
      reads this, buf
    {
      && buf.Length == size
      && (if size == 0 then pos == 0 && !full else pos < size)
      && Contents(buf[..], pos, full) == Last(written, size)
    }

    constructor (n: nat)
      ensures Valid() && fresh(buf) && size == n && written == []
    {
      size := n;
      buf := new Byte[n];
      pos, full := 0, false;
      written := [];
    }

    /** Copies what fits before the end of the buffer. */
    method Copy(p: seq<Byte>) returns (chunk: nat)
      requires buf.Length == size && pos < size
      modifies buf, `pos, `full
      ensures chunk == (if |p| < size - old(pos) then |p| else size - old(pos))
      ensures pos < size && Contents(buf[..], pos, full) == Last(old(Contents(buf[..], pos, full)) + p[..chunk], size)
    {
      hide Last, Contents;
      chunk := if |p| < size - pos then |p| else size - pos;
      ghost var before, was := buf[..], pos;
      forall k | 0 <= k < chunk {
        buf[pos + k] := p[k];
      }
      assert before == before[..was] + before[was..was + chunk] + before[was + chunk..];
      assert buf[..] == before[..was] + p[..chunk] + before[was + chunk..];
      CopyAdds(before[..was], before[was..was + chunk], before[was + chunk..], full, p[..chunk]);
      pos := pos + chunk;
      if pos == size {
        pos := 0;
        full := true;
      }
    }

    method Write(p: seq<Byte>) returns (n: nat)
      requires Valid()
      modifies this, buf
      ensures Valid() && written == old(written) + p && n == |p|
    {
      hide Last, Contents;
      n := |p|;
      ghost var kept := Last(written, size);
      LastOfLasts(written, p, size);
      LastTwice(written, size);
      written := written + p;
      if size == 0 {
        NothingKept(written, buf[..]);
        return;
      }
      var rest := if |p| > size then p[|p| - size..] else p;
      ghost var all, i := rest, 0;
      assert all == Last(p, size) && kept + all[..0] == kept && all == all[..|all|] by {
        LastIs(p, size);
      }
      while |rest| > 0
        invariant buf.Length == size && pos < size && 0 <= i <= |all| && rest == all[i..]
        invariant written == old(written) + p
        invariant Contents(buf[..], pos, full) == Last(kept + all[..i], size)
        decreases |rest|
      {
        var chunk := Copy(rest);
        Joined(kept, all, i, chunk, size);
        i := i + chunk;
        rest := rest[chunk..];
      }
    }

    /** The last bytes of all that was written. */
    method Bytes() returns (r: seq<Byte>)
      requires Valid()
      ensures r == Last(written, size)
    {
      hide Last;
      if !full {
        return buf[..pos];
      }
      if size == 0 {
        return [];
      }
      var result := new Byte[size];
      forall k | 0 <= k < size - pos {
        result[k] := buf[pos + k];
      }
      forall k | 0 <= k < pos {
        result[size - pos + k] := buf[k];
      }
      r := result[..];
    }
  }
}
