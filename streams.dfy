/**
 * The two stream handles the handler talks to: `rfile`, a buffered socket
 * file read with `readline(limit)` and `read(n)`, and `wfile`, to which
 * `write` appends. An input stream is the whole byte string the peer sends
 * with a cursor into it; an output stream is everything written so far.
 * Reads are described by where they leave the cursor, as positions in the
 * byte string.
 */
module Streams {
  import opened Bytes

  /**
   * Where `readline(limit)` leaves a cursor that stands at `pos`: after the
   * first LF, but never more than `limit` bytes on; where it stood at end of
   * stream. A line longer than `limit` is cut, not refused.
   */
  function LineEnd(s: seq<byte>, pos: nat, limit: nat): (e: nat)
    requires pos <= |s|
    ensures pos <= e <= |s| && e - pos <= limit
    decreases |s| - pos
  {
    if pos == |s| || limit == 0 then pos
    else if s[pos] == LF then pos + 1
    else LineEnd(s, pos + 1, limit - 1)
  }

  /**
   * A line holds no LF except possibly as its last byte, and it stops for one
   * of three reasons: the LF, the limit, or the end of the stream. It is empty
   * exactly at end of stream (or under a zero limit).
   */
  lemma {:induction false} LineEndStops(s: seq<byte>, pos: nat, limit: nat)
    requires pos <= |s|
    ensures var e := LineEnd(s, pos, limit);
      && (forall i :: pos <= i < e - 1 ==> s[i] != LF)
      && (e == |s| || e - pos == limit || (pos < e && s[e - 1] == LF))
      && (e == pos <==> pos == |s| || limit == 0)
    decreases |s| - pos
  {
    if pos < |s| && limit != 0 && s[pos] != LF {
      LineEndStops(s, pos + 1, limit - 1);
    }
  }

  /**
   * `s[lo:hi]`, the bytes between two cursor positions, built byte by byte
   * (equal to the slice, see `BetweenIsSlice`).
   */
  function Between(s: seq<byte>, lo: nat, hi: nat): (r: seq<byte>)
    requires lo <= hi <= |s|
    ensures |r| == hi - lo
    decreases hi - lo
  {
    if lo == hi then [] else [s[lo]] + Between(s, lo + 1, hi)
  }

  /** Byte `i` between two cursors is byte `lo + i` of the stream. */
  lemma {:induction false} BetweenIndex(s: seq<byte>, lo: nat, hi: nat)
    requires lo <= hi <= |s|
    ensures forall i :: 0 <= i < hi - lo ==> Between(s, lo, hi)[i] == s[lo + i]
    decreases hi - lo
  {
    if lo < hi {
      BetweenIndex(s, lo + 1, hi);
    }
  }

  lemma {:induction false} BetweenIsSlice(s: seq<byte>, lo: nat, hi: nat)
    requires lo <= hi <= |s|
    ensures Between(s, lo, hi) == s[lo..hi]
  {
    BetweenIndex(s, lo, hi);
    assert forall i :: 0 <= i < hi - lo ==> Between(s, lo, hi)[i] == s[lo..hi][i];
  }

  /** `w` stands in `s` at `pos`. */
  predicate HasAt(s: seq<byte>, pos: nat, w: seq<byte>)
  {
    pos + |w| <= |s| && forall i :: 0 <= i < |w| ==> s[pos + i] == w[i]
  }

  /** Where two words stand one after the other, each stands at its own place. */
  lemma HasAtSplit(s: seq<byte>, pos: nat, a: seq<byte>, b: seq<byte>)
    requires HasAt(s, pos, a + b)
    ensures HasAt(s, pos, a) && HasAt(s, pos + |a|, b)
  {
    forall i | 0 <= i < |a| ensures s[pos + i] == a[i] {
      assert s[pos + i] == (a + b)[i];
    }
    forall i | 0 <= i < |b| ensures s[pos + |a| + i] == b[i] {
      assert s[pos + (|a| + i)] == (a + b)[|a| + i];
    }
  }

  /** A word standing at `pos` is what lies between `pos` and its end. */
  lemma {:induction false} HasAtBetween(s: seq<byte>, pos: nat, w: seq<byte>)
    requires HasAt(s, pos, w)
    ensures Between(s, pos, pos + |w|) == w
  {
    BetweenIndex(s, pos, pos + |w|);
    assert forall i :: 0 <= i < |w| ==> Between(s, pos, pos + |w|)[i] == w[i];
  }

  /** The two halves of a concatenation stand at its start and right after the first. */
  lemma HasAtConcat(a: seq<byte>, b: seq<byte>)
    ensures HasAt(a + b, 0, a) && HasAt(a + b, |a|, b)
  {
    assert forall i :: 0 <= i < |b| ==> (a + b)[|a| + i] == b[i];
  }

  /** A line whose first LF is at `e - 1`, within the limit, is read up to and including that LF. */
  lemma {:induction false} LineEndAt(s: seq<byte>, pos: nat, e: nat, limit: nat)
    requires pos < e <= |s| && e - pos <= limit && s[e - 1] == LF
    requires forall i :: pos <= i < e - 1 ==> s[i] != LF
    ensures LineEnd(s, pos, limit) == e
    decreases e - pos
  {
    if s[pos] != LF {
      LineEndAt(s, pos + 1, e, limit - 1);
    }
  }

  /** The bytes from `p1` on in `s1` are the bytes from `p2` on in `s2`. */
  predicate SameFrom(s1: seq<byte>, p1: nat, s2: seq<byte>, p2: nat)
  {
    && p1 <= |s1| && p2 <= |s2| && |s1| - p1 == |s2| - p2
    && forall i :: p1 <= i < |s1| ==> s1[i] == s2[i - p1 + p2]
  }

  /** Two streams that agree from their cursors on agree from any later common offset too. */
  lemma SameFromLater(s1: seq<byte>, p1: nat, s2: seq<byte>, p2: nat, k: nat)
    requires SameFrom(s1, p1, s2, p2) && p1 + k <= |s1|
    ensures SameFrom(s1, p1 + k, s2, p2 + k)
  {
  }

  /** A line depends only on the bytes from the cursor on. */
  lemma {:induction false} LineEndShift(s1: seq<byte>, p1: nat, s2: seq<byte>, p2: nat, limit: nat)
    requires SameFrom(s1, p1, s2, p2)
    ensures LineEnd(s1, p1, limit) - p1 == LineEnd(s2, p2, limit) - p2
    decreases |s1| - p1
  {
    if p1 < |s1| && limit != 0 {
      if s1[p1] != LF {
        SameFromLater(s1, p1, s2, p2, 1);
        LineEndShift(s1, p1 + 1, s2, p2 + 1, limit - 1);
      }
    }
  }

  /**
   * Where `read(n)` leaves a cursor that stands at `pos`: `n` bytes on, or at
   * the end when fewer remain (a short read is not an error), and at the end
   * when `n` is negative.
   */
  function ReadEnd(s: seq<byte>, pos: nat, n: int): (e: nat)
    requires pos <= |s|
    ensures pos <= e <= |s|
  {
    if n < 0 || pos + n >= |s| then |s| else pos + n
  }

  /** A read returns all it was asked for, or it stops at the end of the stream. */
  lemma ReadEndShort(s: seq<byte>, pos: nat, n: int)
    requires pos <= |s|
    ensures var e := ReadEnd(s, pos, n); e == pos + n || (e == |s| && (n < 0 || |s| - pos <= n))
  {
  }

  class InputStream {
    const data: seq<byte>
    var pos: nat

    ghost predicate Valid()
      reads this
    {
      pos <= |data|
    }

    constructor (data: seq<byte>)
      ensures Valid() && this.data == data && pos == 0
    {
      this.data := data;
      pos := 0;
    }

    /** `readline(limit)`: the bytes from the cursor to where the line ends. */
    method ReadLine(limit: nat) returns (line: seq<byte>)
      requires Valid()
      modifies this
      ensures Valid()
      ensures pos == LineEnd(data, old(pos), limit)
      ensures line == Between(data, old(pos), pos)
    {
      var end := LineEnd(data, pos, limit);
      BetweenIsSlice(data, pos, end);
      line := data[pos..end];
      pos := end;
    }

    /** `read(n)`: the bytes from the cursor to where the read ends. */
    method Read(n: int) returns (chunk: seq<byte>)
      requires Valid()
      modifies this
      ensures Valid()
      ensures pos == ReadEnd(data, old(pos), n)
      ensures chunk == Between(data, old(pos), pos)
    {
      var end := if n < 0 || pos + n >= |data| then |data| else pos + n;
      BetweenIsSlice(data, pos, end);
      chunk := data[pos..end];
      pos := end;
    }
  }

  class OutputStream {
    var written: seq<byte>

    constructor ()
      ensures written == []
    {
      written := [];
    }

    method Write(b: seq<byte>)
      modifies this
      ensures written == old(written) + b
    {
      written := written + b;
    }
  }
}
