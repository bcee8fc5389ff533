/**
 * What the encoder and the decoder promise each other: the decoder reads
 * back what the encoder writes, and refuses it when it is larger than
 * allowed. The reading lemmas hold for any size reader that reads back the
 * size lines the encoder writes; the `Decode` lemmas instantiate them with the
 * handler's own `HeaderSize`, where `maxContent` and `limit` are its
 * `max_content_size` and `chunk_header_length`.
 */
module ChunkCodec {
  import opened Bytes
  import opened Wrappers
  import opened Hex
  import opened Streams
  import opened ChunkDecoder
  import opened ChunkEncoder

  /**
   * Fragments the decoder `cfg` can read back one by one: none is empty, each
   * size line fits the line limit, and the size reader reads each size line
   * as the fragment's length.
   */
  predicate Framable(fs: seq<seq<byte>>, cfg: Settings)
  {
    forall i :: 0 <= i < |fs| ==>
      && fs[i] != [] && |ToHex(|fs[i]|)| + 2 <= cfg.lineLimit
      && cfg.sizeOf(ToHex(|fs[i]|) + CRLF) == Some(|fs[i]|)
  }

  /** The handler's size reader reads every size line the encoder writes as its size. */
  lemma {:induction false} HandlerReadsSizeLines(n: nat, maxContent: int, limit: nat)
    ensures HandlerSettings(maxContent, limit).sizeOf(ToHex(n) + CRLF) == Some(n)
  {
    ToHexForm(n);
    PlainHeaderSize(ToHex(n));
    HexValueOfToHex(n);
  }

  /** A frame standing at `pos` is its size line, then the fragment, then two more bytes. */
  lemma {:induction false} FrameParts(s: seq<byte>, pos: nat, f: seq<byte>)
    requires HasAt(s, pos, Frame(f))
    ensures var hlen := |ToHex(|f|)| + 2;
      && HasAt(s, pos, ToHex(|f|) + CRLF) && HasAt(s, pos + hlen, f)
      && pos + hlen + |f| + 2 == pos + |Frame(f)| <= |s|
  {
    var h := ToHex(|f|);
    assert Frame(f) == (h + CRLF) + (f + CRLF);
    HasAtSplit(s, pos, h + CRLF, f + CRLF);
    HasAtSplit(s, pos + |h| + 2, f, CRLF);
  }

  /**
   * A frame standing at `pos`, as the decoder sees it: a size line `readline`
   * reads whole, then the fragment's bytes, then two more bytes.
   */
  lemma {:induction false} FrameLayout(s: seq<byte>, pos: nat, f: seq<byte>, limit: nat)
    requires |ToHex(|f|)| + 2 <= limit && HasAt(s, pos, Frame(f))
    ensures var hlen := |ToHex(|f|)| + 2;
      && LineEnd(s, pos, limit) == pos + hlen
      && Between(s, pos, pos + hlen) == ToHex(|f|) + CRLF
      && Between(s, pos + hlen, pos + hlen + |f|) == f
      && pos + hlen + |f| + 2 == pos + |Frame(f)| <= |s|
  {
    FrameParts(s, pos, f);
    ToHexNotDelimiters(|f|);
    CrlfLine(s, pos, ToHex(|f|), limit, pos + (|ToHex(|f|)| + 2));
    HasAtBetween(s, pos + |ToHex(|f|)| + 2, f);
  }

  /**
   * The decoder reads one framed fragment standing at `pos` as one chunk: it
   * fails with TooLarge when the fragment takes the total past `maxContent`,
   * and otherwise appends the fragment and goes on right after the frame.
   */
  lemma FrameStep(s: seq<byte>, pos: nat, f: seq<byte>, cfg: Settings, contents: seq<seq<byte>>, total: int)
    requires f != [] && |ToHex(|f|)| + 2 <= cfg.lineLimit && cfg.sizeOf(ToHex(|f|) + CRLF) == Some(|f|)
    requires HasAt(s, pos, Frame(f))
    ensures ChunkLoop(s, pos, cfg, contents, total)
         == if total + |f| > cfg.maxContent then Decoded(TooLarge, pos + |Frame(f)|)
            else ChunkLoop(s, pos + |Frame(f)|, cfg, contents + [f], total + |f|)
  {
    FrameLayout(s, pos, f, cfg.lineLimit);
    DataChunkPass(s, pos, |ToHex(|f|)| + 2, f, cfg, contents, total);
  }

  /** `FrameStep` within the size limit, with the state after the frame named by the caller. */
  lemma {:induction false} FrameRead(s: seq<byte>, pos: nat, f: seq<byte>, cfg: Settings, contents: seq<seq<byte>>, total: int,
                  next: nat, contents': seq<seq<byte>>, total': int)
    requires f != [] && |ToHex(|f|)| + 2 <= cfg.lineLimit && cfg.sizeOf(ToHex(|f|) + CRLF) == Some(|f|)
    requires HasAt(s, pos, Frame(f)) && total + |f| <= cfg.maxContent
    requires next == pos + |Frame(f)| && contents' == contents + [f] && total' == total + |f|
    ensures ChunkLoop(s, pos, cfg, contents, total) == ChunkLoop(s, next, cfg, contents', total')
  {
    FrameStep(s, pos, f, cfg, contents, total);
  }

  /** A prefix of framable fragments is framable. */
  lemma FramablePrefix(fs: seq<seq<byte>>, k: nat, cfg: Settings)
    requires Framable(fs, cfg) && k <= |fs|
    ensures Framable(fs[..k], cfg)
  {
    assert forall i :: 0 <= i < k ==> fs[..k][i] == fs[i];
  }

  /**
   * Framed fragments are the frames of all but the last, then the frame of
   * the last, each framable, standing one after the other.
   */
  lemma FramesSnoc(s: seq<byte>, pos: nat, fs: seq<seq<byte>>, cfg: Settings)
    requires fs != [] && Framable(fs, cfg) && HasAt(s, pos, Frames(fs))
    ensures var init, f := fs[..|fs| - 1], fs[|fs| - 1];
      && Framable(init, cfg) && HasAt(s, pos, Frames(init))
      && f != [] && |ToHex(|f|)| + 2 <= cfg.lineLimit && cfg.sizeOf(ToHex(|f|) + CRLF) == Some(|f|)
      && HasAt(s, pos + |Frames(init)|, Frame(f))
      && pos + |Frames(init)| + |Frame(f)| == pos + |Frames(fs)|
      && |Flatten(init)| + |f| == |Flatten(fs)|
      && fs == init + [f]
  {
    var init, f := fs[..|fs| - 1], fs[|fs| - 1];
    assert Frames(fs) == Frames(init) + Frame(f);
    HasAtSplit(s, pos, Frames(init), Frame(f));
    FramablePrefix(fs, |fs| - 1, cfg);
  }

  /**
   * Framed fragments within the size limit are read back one chunk each, in
   * order, and the loop goes on right after the last frame.
   */
  lemma ChunkLoopFrames(s: seq<byte>, pos: nat, fs: seq<seq<byte>>, cfg: Settings,
                        contents: seq<seq<byte>>, total: int)
    requires Framable(fs, cfg) && total + |Flatten(fs)| <= cfg.maxContent
    requires HasAt(s, pos, Frames(fs))
    ensures ChunkLoop(s, pos, cfg, contents, total)
         == ChunkLoop(s, pos + |Frames(fs)|, cfg, contents + fs, total + |Flatten(fs)|)
  {
    FramesRead(s, pos, fs, cfg, contents, total, pos + |Frames(fs)|, contents + fs, total + |Flatten(fs)|);
  }

  /** `ChunkLoopFrames`, with the state after the frames named by the caller. */
  lemma {:induction false} FramesRead(s: seq<byte>, pos: nat, fs: seq<seq<byte>>, cfg: Settings,
                                      contents: seq<seq<byte>>, total: int,
                                      next: nat, contents': seq<seq<byte>>, total': int)
    requires Framable(fs, cfg) && total + |Flatten(fs)| <= cfg.maxContent
    requires HasAt(s, pos, Frames(fs))
    requires next == pos + |Frames(fs)| && contents' == contents + fs && total' == total + |Flatten(fs)|
    ensures ChunkLoop(s, pos, cfg, contents, total) == ChunkLoop(s, next, cfg, contents', total')
    decreases |fs|
  {
    if fs == [] {
      assert contents + fs == contents;
    } else {
      var init, f := fs[..|fs| - 1], fs[|fs| - 1];
      var mid := pos + |Frames(init)|;
      FramesSnoc(s, pos, fs, cfg);
      FramesRead(s, pos, init, cfg, contents, total, mid, contents + init, total + |Flatten(init)|);
      FrameRead(s, mid, f, cfg, contents + init, total + |Flatten(init)|, next, contents', total');
    }
  }

  /**
   * Framed fragments whose sizes add up to more than `maxContent` are
   * refused with TooLarge, whatever follows them on the stream: the decoder
   * stops at the chunk that crosses the limit.
   */
  lemma {:induction false} ChunkLoopFramesTooLarge(s: seq<byte>, pos: nat, fs: seq<seq<byte>>, cfg: Settings,
                                                   contents: seq<seq<byte>>, total: int)
    requires Framable(fs, cfg) && HasAt(s, pos, Frames(fs))
    requires total <= cfg.maxContent < total + |Flatten(fs)|
    ensures ChunkLoop(s, pos, cfg, contents, total).outcome == TooLarge
    decreases |fs|
  {
    var init, f := fs[..|fs| - 1], fs[|fs| - 1];
    FramesSnoc(s, pos, fs, cfg);
    if total + |Flatten(init)| > cfg.maxContent {
      ChunkLoopFramesTooLarge(s, pos, init, cfg, contents, total);
    } else {
      ChunkLoopFrames(s, pos, init, cfg, contents, total);
      FrameStep(s, pos + |Frames(init)|, f, cfg, contents + init, total + |Flatten(init)|);
    }
  }

  /** A stream opening with framed chunks adding up to more than `maxContent` (at least 0) decodes to TooLarge. */
  lemma {:induction false} DecodeTooLarge(s: seq<byte>, fs: seq<seq<byte>>, maxContent: int, limit: nat)
    requires Framable(fs, HandlerSettings(maxContent, limit)) && HasAt(s, 0, Frames(fs))
    requires 0 <= maxContent < |Flatten(fs)|
    ensures Decode(s, maxContent, limit).outcome == TooLarge
  {
    ChunkLoopFramesTooLarge(s, 0, fs, HandlerSettings(maxContent, limit), [], 0);
  }

  /** Every fragment the encoder makes has a size line that fits, when `size`'s does. */
  lemma {:induction false} EncodedFramable(msgs: seq<seq<byte>>, size: nat, maxContent: int, limit: nat)
    requires size > 0 && |ToHex(size)| + 2 <= limit
    ensures Framable(AllFragments(msgs, size), HandlerSettings(maxContent, limit))
  {
    var fs := AllFragments(msgs, size);
    var cfg := HandlerSettings(maxContent, limit);
    AllFragmentsCover(msgs, size);
    forall i | 0 <= i < |fs|
      ensures fs[i] != [] && |ToHex(|fs[i]|)| + 2 <= limit && cfg.sizeOf(ToHex(|fs[i]|) + CRLF) == Some(|fs[i]|)
    {
      ToHexLengthMonotone(|fs[i]|, size);
      HandlerReadsSizeLines(|fs[i]|, maxContent, limit);
    }
  }

  /** The last-chunk `0` and the empty trailer, ending the stream, complete the decode with the chunks gathered. */
  lemma {:induction false} LastChunkEnds(s: seq<byte>, pos: nat, cfg: Settings, contents: seq<seq<byte>>, total: int, end: nat)
    requires cfg.lineLimit >= 3 && cfg.sizeOf(LastChunk) == Some(0) && HasAt(s, pos, LastChunk + CRLF)
    requires end == pos + 5
    ensures ChunkLoop(s, pos, cfg, contents, total) == Decoded(Ok(contents), end)
  {
    HasAtSplit(s, pos, LastChunk, CRLF);
    ZeroSizeEndsChunks(s, pos, cfg, contents, total);
    assert [] + CRLF == CRLF;
    CrlfLine(s, pos + 3, [], cfg.lineLimit, pos + 3 + 2);
  }

  /**
   * Framed fragments within the size limit, the last-chunk `0` and the empty
   * trailer decode to exactly those fragments, and the decode reads the
   * stream to its end, with any size reader that reads `0` as 0.
   */
  lemma {:induction false} DecodeFramed(s: seq<byte>, fs: seq<seq<byte>>, cfg: Settings)
    requires Framable(fs, cfg) && |Flatten(fs)| <= cfg.maxContent
    requires cfg.lineLimit >= 3 && cfg.sizeOf(LastChunk) == Some(0)
    requires s == Frames(fs) + (LastChunk + CRLF)
    ensures ChunkLoop(s, 0, cfg, [], 0) == Decoded(Ok(fs), |s|)
  {
    var p := |Frames(fs)|;
    HasAtConcat(Frames(fs), LastChunk + CRLF);
    assert [] + fs == fs;
    FramesRead(s, 0, fs, cfg, [], 0, p, fs, |Flatten(fs)|);
    LastChunkEnds(s, p, cfg, fs, |Flatten(fs)|, |s|);
  }

  /**
   * Round trip: decoding what the encoder writes, with a header limit that
   * fits the largest size line and a size limit no smaller than the payload,
   * gives back the encoder's fragments, which laid end to end are the payload
   * buffers laid end to end, and reads the stream to its end.
   */
  lemma {:induction false} RoundTrip(msgs: seq<seq<byte>>, size: nat, maxContent: int, limit: nat)
    requires size > 0 && |ToHex(size)| + 2 <= limit
    requires |Flatten(msgs)| <= maxContent
    ensures var body := EncodeBody(msgs, size);
      Decode(body, maxContent, limit) == Decoded(Ok(AllFragments(msgs, size)), |body|)
    ensures Flatten(AllFragments(msgs, size)) == Flatten(msgs)
  {
    var fs := AllFragments(msgs, size);
    AllFragmentsCover(msgs, size);
    EncodedFramable(msgs, size, maxContent, limit);
    assert EncodeBody(msgs, size) == Frames(fs) + (LastChunk + CRLF);
    HandlerReadsLastChunk(maxContent, limit);
    DecodeFramed(EncodeBody(msgs, size), fs, HandlerSettings(maxContent, limit));
  }

  /** One frame, then the end of the stream where the next header is due: ConnReset. */
  lemma {:induction false} OneFrameThenEof(f: seq<byte>, cfg: Settings)
    requires f != [] && |ToHex(|f|)| + 2 <= cfg.lineLimit && cfg.sizeOf(ToHex(|f|) + CRLF) == Some(|f|)
    requires |f| <= cfg.maxContent
    ensures ChunkLoop(Frame(f), 0, cfg, [], 0) == Decoded(ConnReset, |Frame(f)|)
  {
    var s := Frame(f);
    assert [] + [f] == [f];
    FrameRead(s, 0, f, cfg, [], 0, |s|, [f], |f|);
    ChunkLoopAtEof(s, cfg, [f], |f|);
  }

  /**
   * The body `send_chunked` writes as the code stands differs from the
   * intended one whenever the payload holds a byte, and the decoder, with
   * limits that fit the encoder's sizes, reads it as a connection reset:
   * one chunk, then the end of the stream where the next header is due.
   */
  lemma {:induction false} AsWrittenBodyIsCut(msgs: seq<seq<byte>>, size: nat, maxContent: int, limit: nat)
    requires size > 0 && |ToHex(size)| + 2 <= limit && size <= maxContent
    requires Flatten(msgs) != []
    ensures EncodeBodyAsWritten(msgs, size) != EncodeBody(msgs, size)
    ensures Decode(EncodeBodyAsWritten(msgs, size), maxContent, limit).outcome == ConnReset
  {
    var fs := AllFragments(msgs, size);
    var cfg := HandlerSettings(maxContent, limit);
    AllFragmentsCover(msgs, size);
    assert fs != [];
    var f := fs[0];
    assert |f| <= size;
    EncodedFramable(msgs, size, maxContent, limit);
    FramesFirst(fs);
    OneFrameThenEof(f, cfg);
  }
}

