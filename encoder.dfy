/**
 * The chunk encoder, the body loop of `send_chunked`: each payload buffer is
 * cut into fragments of at most `chunk_max_size` bytes, each fragment is
 * framed as `hex(len) CRLF data CRLF`, and the body ends with the last-chunk
 * `0 CRLF` and the empty trailer's CRLF.
 */
module ChunkEncoder {
  import opened Bytes
  import opened Hex

  /** `len(c) / s + (1 if len(c) % s else 0)`, with Python 2's integer division. */
  function FragmentCount(len: nat, size: nat): nat
    requires size > 0
  {
    len / size + (if len % size != 0 then 1 else 0)
  }

  /** The count is the ceiling of `len / size`: just enough fragments of `size` bytes to cover `len`. */
  lemma FragmentCountIsCeiling(len: nat, size: nat)
    requires size > 0
    ensures var n := FragmentCount(len, size);
      n * size >= len && (n == 0 || (n - 1) * size < len) && (n == 0 <==> len == 0)
  {
    var q, r := len / size, len % size;
    assert len == q * size + r;
    if r != 0 {
      assert (q + 1) * size == q * size + size;
    }
  }

  /** Python's `c[lo:hi]` for `0 <= lo <= hi`: bounds past the end are clamped. */
  function Slice(c: seq<byte>, lo: nat, hi: nat): seq<byte>
    requires lo <= hi
  {
    if lo >= |c| then [] else if hi >= |c| then c[lo..] else c[lo..hi]
  }

  /** `[c[x * s : x * s + s] for x in range(bl)]`: the fragments of one buffer, in order. */
  function Fragments(c: seq<byte>, size: nat): seq<seq<byte>>
    requires size > 0
  {
    seq(FragmentCount(|c|, size), x requires 0 <= x => Slice(c, x * size, x * size + size))
  }

  /**
   * A buffer of `L` bytes becomes ceil(L / size) fragments: every one but the
   * last holds `size` bytes, the last holds between 1 and `size`, and laid
   * end to end they are the buffer. An empty buffer has no fragments.
   */
  lemma {:induction false} FragmentsCover(c: seq<byte>, size: nat)
    requires size > 0
    ensures var fs := Fragments(c, size);
      && |fs| * size >= |c| && (fs == [] || (|fs| - 1) * size < |c|)
      && (fs == [] <==> c == [])
      && (forall i :: 0 <= i < |fs| - 1 ==> |fs[i]| == size)
      && (fs != [] ==> 0 < |fs[|fs| - 1]| <= size)
      && Flatten(fs) == c
  {
    var fs := Fragments(c, size);
    FragmentCountIsCeiling(|c|, size);
    FragmentSizes(c, size);
    FlattenFragments(c, size, |fs|);
    assert fs[..|fs|] == fs;
    assert Prefix(c, |fs| * size) == c;
  }

  /** Every fragment but the last is full; the last holds between 1 and `size` bytes. */
  lemma {:induction false} FragmentSizes(c: seq<byte>, size: nat)
    requires size > 0
    ensures var fs := Fragments(c, size);
      && (forall i :: 0 <= i < |fs| - 1 ==> |fs[i]| == size)
      && (fs != [] ==> 0 < |fs[|fs| - 1]| <= size)
  {
    var fs := Fragments(c, size);
    forall i | 0 <= i < |fs| - 1 ensures |fs[i]| == size {
      FragmentAt(c, size, i);
    }
    if fs != [] {
      FragmentAt(c, size, |fs| - 1);
    }
  }

  /** Fragment `i` starts inside the buffer; it is full unless it is the last. */
  lemma {:induction false} FragmentAt(c: seq<byte>, size: nat, i: nat)
    requires size > 0 && i < FragmentCount(|c|, size)
    ensures var f := Fragments(c, size)[i];
      && 0 < |f| <= size
      && (i < FragmentCount(|c|, size) - 1 ==> |f| == size)
  {
    FragmentStart(|c|, size, i);
    FragmentIs(c, size, i);
  }

  lemma FragmentIs(c: seq<byte>, size: nat, i: nat)
    requires size > 0 && i < FragmentCount(|c|, size)
    ensures Fragments(c, size)[i] == Slice(c, i * size, i * size + size)
  {
  }

  /** Fragment `i` of a `len`-byte buffer starts before its end, and ends before it unless it is the last. */
  lemma {:induction false} FragmentStart(len: nat, size: nat, i: nat)
    requires size > 0 && i < FragmentCount(len, size)
    ensures i * size < len && (i + 1) * size == i * size + size
    ensures i < FragmentCount(len, size) - 1 ==> i * size + size < len
  {
    var n := FragmentCount(len, size);
    FragmentCountIsCeiling(len, size);
    MulMonotone(i, n - 1, size);
    if i < n - 1 {
      MulMonotone(i + 1, n - 1, size);
    }
  }

  lemma MulMonotone(a: nat, b: nat, k: nat)
    requires a <= b
    ensures a * k <= b * k && (a + 1) * k == a * k + k
  {
    assert b * k == a * k + (b - a) * k;
  }

  /** Python's `c[:n]` for `n >= 0`. */
  function Prefix(c: seq<byte>, n: nat): seq<byte>
  {
    if n >= |c| then c else c[..n]
  }

  /** The first `k` fragments laid end to end are the first `k * size` bytes of the buffer. */
  lemma {:induction false} FlattenFragments(c: seq<byte>, size: nat, k: nat)
    requires size > 0 && k <= FragmentCount(|c|, size)
    ensures Flatten(Fragments(c, size)[..k]) == Prefix(c, k * size)
  {
    if k == 0 {
      assert Fragments(c, size)[..0] == [];
    } else {
      FlattenFragments(c, size, k - 1);
      FlattenFragmentsStep(c, size, k);
    }
  }

  /** One more fragment extends the prefix it covers by `size` bytes, or to the end. */
  lemma FlattenFragmentsStep(c: seq<byte>, size: nat, k: nat)
    requires size > 0 && 0 < k <= FragmentCount(|c|, size)
    requires Flatten(Fragments(c, size)[..k - 1]) == Prefix(c, (k - 1) * size)
    ensures Flatten(Fragments(c, size)[..k]) == Prefix(c, k * size)
  {
    var fs := Fragments(c, size);
    var m := (k - 1) * size;
    FragmentStart(|c|, size, k - 1);
    assert Flatten(fs[..k]) == c[..m] + Slice(c, m, m + size) by {
      FlattenPrefixStep(fs, k);
      FragmentIs(c, size, k - 1);
    }
    SliceJoin(c, m, m + size);
  }

  /** The first `k` buffers laid end to end are the first `k - 1` and then buffer `k - 1`. */
  lemma FlattenPrefixStep(bs: seq<seq<byte>>, k: nat)
    requires 0 < k <= |bs|
    ensures Flatten(bs[..k]) == Flatten(bs[..k - 1]) + bs[k - 1]
  {
    assert bs[..k][..k - 1] == bs[..k - 1];
  }

  /** The bytes before `m`, then Python's `c[m:hi]`, are `c[:hi]`. */
  lemma SliceJoin(c: seq<byte>, m: nat, hi: nat)
    requires m < |c| && m <= hi
    ensures c[..m] + Slice(c, m, hi) == Prefix(c, hi)
  {
    if hi >= |c| {
      assert c[..m] + c[m..] == c;
    } else {
      assert c[..m] + c[m..hi] == c[..hi];
    }
  }

  /** One fragment on the wire: its length in lower-case hex, CRLF, the bytes, CRLF. */
  function Frame(fragment: seq<byte>): seq<byte>
  {
    ToHex(|fragment|) + CRLF + fragment + CRLF
  }

  /** Fragments framed one after another. */
  function Frames(fs: seq<seq<byte>>): seq<byte>
  {
    if fs == [] then [] else Frames(fs[..|fs| - 1]) + Frame(fs[|fs| - 1])
  }

  lemma FramesSingle(f: seq<byte>)
    ensures Frames([f]) == Frame(f)
  {
    var fs := [f];
    assert fs[..0] == [];
  }

  /** Framing a list whose last fragment is `x` frames the rest, then `x`. */
  lemma FramesLast(a: seq<seq<byte>>, b: seq<seq<byte>>)
    requires b != []
    ensures Frames(a + b) == Frames(a + b[..|b| - 1]) + Frame(b[|b| - 1])
  {
    assert (a + b)[..|a + b| - 1] == a + b[..|b| - 1];
    assert (a + b)[|a + b| - 1] == b[|b| - 1];
  }

  /** Framing two lists one after the other is framing them together. */
  lemma {:induction false} FramesAppend(a: seq<seq<byte>>, b: seq<seq<byte>>)
    ensures Frames(a + b) == Frames(a) + Frames(b)
    decreases |b|
  {
    if b == [] {
      assert a + b == a;
    } else {
      var b', x := b[..|b| - 1], b[|b| - 1];
      FramesLast(a, b);
      FramesAppend(a, b');
      AppendAssoc(Frames(a), Frames(b'), Frame(x));
    }
  }

  /** The fragments of every payload buffer, buffer after buffer. */
  function AllFragments(msgs: seq<seq<byte>>, size: nat): seq<seq<byte>>
    requires size > 0
  {
    if msgs == [] then [] else AllFragments(msgs[..|msgs| - 1], size) + Fragments(msgs[|msgs| - 1], size)
  }

  /**
   * Fragment boundaries never cross buffers and lose nothing: the fragments of
   * all buffers laid end to end are the buffers laid end to end, and each
   * fragment holds between 1 and `size` bytes.
   */
  lemma AllFragmentsCover(msgs: seq<seq<byte>>, size: nat)
    requires size > 0
    ensures Flatten(AllFragments(msgs, size)) == Flatten(msgs)
    ensures forall i :: 0 <= i < |AllFragments(msgs, size)| ==>
      0 < |AllFragments(msgs, size)[i]| <= size
  {
    AllFragmentsFlatten(msgs, size);
    AllFragmentsSizes(msgs, size);
  }

  lemma {:induction false} AllFragmentsFlatten(msgs: seq<seq<byte>>, size: nat)
    requires size > 0
    ensures Flatten(AllFragments(msgs, size)) == Flatten(msgs)
  {
    if msgs != [] {
      var init, last := msgs[..|msgs| - 1], msgs[|msgs| - 1];
      AllFragmentsFlatten(init, size);
      FragmentsCover(last, size);
      FlattenAppend(AllFragments(init, size), Fragments(last, size));
    }
  }

  lemma {:induction false} AllFragmentsSizes(msgs: seq<seq<byte>>, size: nat)
    requires size > 0
    ensures forall i :: 0 <= i < |AllFragments(msgs, size)| ==>
      0 < |AllFragments(msgs, size)[i]| <= size
  {
    if msgs != [] {
      var init, last := msgs[..|msgs| - 1], msgs[|msgs| - 1];
      var a, fs := AllFragments(init, size), Fragments(last, size);
      var all := a + fs;
      AllFragmentsSizes(init, size);
      FragmentSizes(last, size);
      forall i | 0 <= i < |all| ensures 0 < |all[i]| <= size {
        if i >= |a| {
          assert all[i] == fs[i - |a|];
        } else {
          assert all[i] == a[i];
        }
      }
    }
  }

  /** Framing one more fragment appends its frame. */
  lemma FramesPrefixStep(fs: seq<seq<byte>>, j: nat)
    requires j < |fs|
    ensures Frames(fs[..j + 1]) == Frames(fs[..j]) + Frame(fs[j])
  {
    assert fs[..j + 1][..j] == fs[..j];
  }

  /** One more buffer adds its fragments after those of the buffers before it. */
  lemma {:induction false} AllFragmentsPrefixStep(msgs: seq<seq<byte>>, i: nat, size: nat)
    requires size > 0 && i < |msgs|
    ensures Frames(AllFragments(msgs[..i + 1], size))
         == Frames(AllFragments(msgs[..i], size)) + Frames(Fragments(msgs[i], size))
  {
    assert msgs[..i + 1][..i] == msgs[..i];
    FramesAppend(AllFragments(msgs[..i], size), Fragments(msgs[i], size));
  }

  /** What the body loop writes for a payload, with the closing `0 CRLF` and CRLF. */
  function EncodeBody(msgs: seq<seq<byte>>, size: nat): seq<byte>
    requires size > 0
  {
    Frames(AllFragments(msgs, size)) + LastChunk + CRLF
  }

  /**
   * What `send_chunked` writes as the code stands. Right after the first
   * frame, the DEBUG3 log line builds its message with `" ".join(list, '\n')`;
   * Python evaluates that argument whatever the log level, and `str.join`
   * takes exactly one argument, so it raises TypeError. The body therefore
   * stops after the first frame, unless there is no fragment at all.
   */
  function EncodeBodyAsWritten(msgs: seq<seq<byte>>, size: nat): seq<byte>
    requires size > 0
  {
    var fs := AllFragments(msgs, size);
    if fs == [] then LastChunk + CRLF else Frame(fs[0])
  }

  /** The first frame is where a framed list starts. */
  lemma FramesFirst(fs: seq<seq<byte>>)
    requires fs != []
    ensures |Frames(fs)| >= |Frame(fs[0])|
  {
    assert fs == [fs[0]] + fs[1..];
    FramesAppend([fs[0]], fs[1..]);
    FramesSingle(fs[0]);
  }
}
