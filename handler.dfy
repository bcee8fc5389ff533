/**
 * `ChunkableHTTPRequestHandler`: its options, the validation of the keyword
 * arguments its constructor takes, the chunk reader `__read_chunked` and
 * the body loop of `send_chunked`. Each method is proved against the
 * functions of `ChunkDecoder` and `ChunkEncoder`.
 */
module Handler {
  import opened Bytes
  import opened Wrappers
  import opened Hex
  import opened Streams
  import opened ChunkDecoder
  import opened ChunkEncoder

  /**
   * A keyword argument's value. Python's `bool` is a subclass of `int`:
   * `True == 1` and `False == 0`, and `True > 0`.
   */
  datatype Value = Bool(b: bool) | Int(i: int)

  /** `v in [True, False]`: a bool, or an int equal to one of them. */
  predicate IsBoolLike(v: Value)
  {
    v.Bool? || v.i == 0 || v.i == 1
  }

  /** `v > 0`. */
  predicate IsPositive(v: Value)
  {
    if v.Bool? then v.b else v.i > 0
  }

  /** The number a value stands for, `True` as 1 and `False` as 0. */
  function AsInt(v: Value): int
  {
    if v.Bool? then (if v.b then 1 else 0) else v.i
  }

  /** The exceptions `__init__` raises, one per option. */
  datatype InitError =
    | BadForceChunked      // ValueError('invalid value of force_chunked')
    | BadChunkMaxSize      // ValueError('invalid value of chunk_max_size')
    | BadChunkReadTimeout  // ValueError('invalid value of chunk_read_timeout')

  class ChunkableHandler {
    /** Class attributes the constructor never changes. */
    const maxContentSize: int := 512 * 1024
    const chunkHeaderLength: nat := 128
    const chunkTailBuffer: nat := 16

    /** Options the constructor may set from its keyword arguments. */
    var forceChunked: bool
    var chunkMaxSize: int
    var chunkReadTimeout: int

    /** The two numeric options stay positive: they are only ever set to positive values. */
    ghost predicate Valid()
      reads this
    {
      chunkMaxSize > 0 && chunkReadTimeout > 0
    }

    /** The class defaults. */
    constructor ()
      ensures Valid()
      ensures !forceChunked && chunkMaxSize == 512 && chunkReadTimeout == 5
    {
      forceChunked := false;
      chunkMaxSize := 512;
      chunkReadTimeout := 5;
    }

    /**
     * The keyword-argument checks of `__init__`, in order: each option given
     * with a valid value replaces the default; the first invalid one raises,
     * and the options after it are left alone. Keywords other than these
     * three are ignored.
     */
    method Init(kwargs: map<string, Value>) returns (err: Option<InitError>)
      requires Valid()
      modifies this
      ensures Valid()
      ensures var fcOk := "force_chunked" !in kwargs || IsBoolLike(kwargs["force_chunked"]);
        var cmsOk := "chunk_max_size" !in kwargs || IsPositive(kwargs["chunk_max_size"]);
        var crtOk := "chunk_read_timeout" !in kwargs || IsPositive(kwargs["chunk_read_timeout"]);
        && (err == Some(BadForceChunked) <==> !fcOk)
        && (err == Some(BadChunkMaxSize) <==> fcOk && !cmsOk)
        && (err == Some(BadChunkReadTimeout) <==> fcOk && cmsOk && !crtOk)
        && (err == None <==> fcOk && cmsOk && crtOk)
      ensures forceChunked == if "force_chunked" in kwargs && IsBoolLike(kwargs["force_chunked"])
                              then AsInt(kwargs["force_chunked"]) == 1 else old(forceChunked)
      ensures chunkMaxSize == if err != Some(BadForceChunked) && "chunk_max_size" in kwargs
                                 && IsPositive(kwargs["chunk_max_size"])
                              then AsInt(kwargs["chunk_max_size"]) else old(chunkMaxSize)
      ensures chunkReadTimeout == if err == None && "chunk_read_timeout" in kwargs
                                  then AsInt(kwargs["chunk_read_timeout"]) else old(chunkReadTimeout)
    {
      if "force_chunked" in kwargs {
        var v := kwargs["force_chunked"];
        if IsBoolLike(v) {
          forceChunked := AsInt(v) == 1;
        } else {
          return Some(BadForceChunked);
        }
      }
      if "chunk_max_size" in kwargs {
        var v := kwargs["chunk_max_size"];
        if IsPositive(v) {
          chunkMaxSize := AsInt(v);
        } else {
          return Some(BadChunkMaxSize);
        }
      }
      if "chunk_read_timeout" in kwargs {
        var v := kwargs["chunk_read_timeout"];
        if IsPositive(v) {
          chunkReadTimeout := AsInt(v);
        } else {
          return Some(BadChunkReadTimeout);
        }
      }
      return None;
    }

    /** What the decoder runs with in this handler. */
    function DecoderSettings(): Settings
    {
      HandlerSettings(maxContentSize, chunkHeaderLength)
    }

    /**
     * `__read_chunked`: the chunk loop, then the trailer loop, reading from
     * `rfile`. The outcome and where the cursor stops are those of the
     * chunk loop from where the cursor stood; a successful read is whole,
     * non-empty chunks that together fit `max_content_size`.
     */
    method ReadChunked(rfile: InputStream) returns (outcome: Outcome)
      requires rfile.Valid()
      modifies rfile
      ensures rfile.Valid()
      ensures var r := ChunkLoop(rfile.data, old(rfile.pos), DecoderSettings(), [], 0);
        outcome == r.outcome && rfile.pos == r.next
      ensures outcome.Ok? ==>
        && |Flatten(outcome.chunks)| <= maxContentSize
        && forall i :: 0 <= i < |outcome.chunks| ==> outcome.chunks[i] != []
    {
      ghost var cfg := DecoderSettings();
      ghost var goal := ChunkLoop(rfile.data, rfile.pos, cfg, [], 0);
      ChunkLoopOk(rfile.data, rfile.pos, cfg, [], 0);
      var total := 0;
      var contents: seq<seq<byte>> := [];
      while true
        invariant rfile.Valid()
        invariant ChunkLoop(rfile.data, rfile.pos, cfg, contents, total) == goal
        decreases |rfile.data| - rfile.pos
      {
        ghost var start := rfile.pos;
        var header := rfile.ReadLine(chunkHeaderLength);
        assert goal == HeaderStep(rfile.data, start, rfile.pos, cfg, contents, total);
        if header == CRLF {
          break;
        }
        if header == [] {
          return ConnReset;
        }
        var size := ParseHex(BeforeSemicolon(header));
        if size.None? {
          return BadSize;
        }
        if size.value == 0 {
          break;
        }
        ghost var at := rfile.pos;
        assert goal == DataStep(rfile.data, at, size.value, cfg, contents, total);
        var chunk := rfile.Read(size.value);
        var tail := rfile.Read(2);
        contents := contents + [chunk];
        total := total + size.value;
        if total > maxContentSize {
          return TooLarge;
        }
      }
      assert goal == TrailerLoop(rfile.data, rfile.pos, chunkHeaderLength, contents);
      while true
        invariant rfile.Valid()
        invariant TrailerLoop(rfile.data, rfile.pos, chunkHeaderLength, contents) == goal
        decreases |rfile.data| - rfile.pos
      {
        var footer := rfile.ReadLine(chunkHeaderLength);
        if footer == CRLF {
          break;
        } else if footer == [] {
          return ConnReset;
        }
      }
      return Ok(contents);
    }

    /**
     * The body loop of `send_chunked`, corrected: every buffer of `msgList` is
     * cut into fragments of at most `chunk_max_size` bytes, each written
     * framed, and the last-chunk and the empty trailer close the body. What
     * reaches `wfile` is `EncodeBody`, which `ChunkCodec.RoundTrip` reads back.
     * The source's debug log line after each write raises TypeError after the
     * first frame; this method leaves that line out. The body the source
     * writes is `EncodeBodyAsWritten` (see `ChunkCodec.AsWrittenBodyIsCut`).
     */
    method SendChunked(wfile: OutputStream, msgList: seq<seq<byte>>)
      requires Valid()
      modifies wfile
      ensures wfile.written == old(wfile.written) + EncodeBody(msgList, chunkMaxSize)
    {
      var s := chunkMaxSize;
      ghost var w0 := wfile.written;
      var i := 0;
      while i < |msgList|
        invariant 0 <= i <= |msgList|
        invariant wfile.written == w0 + Frames(AllFragments(msgList[..i], s))
      {
        var c := msgList[i];
        var cFrag := Fragments(c, s);
        WriteFrames(wfile, cFrag);
        AllFragmentsPrefixStep(msgList, i, s);
        AppendAssoc(w0, Frames(AllFragments(msgList[..i], s)), Frames(cFrag));
        i := i + 1;
      }
      assert msgList[..i] == msgList;
      ghost var body := Frames(AllFragments(msgList, s));
      wfile.Write(LastChunk);
      wfile.Write(CRLF);
      AppendAssoc(w0, body, LastChunk);
      AppendAssoc(w0, body + LastChunk, CRLF);
    }

    /** The inner loop of `send_chunked`: each fragment of one buffer, written framed, in order. */
    method WriteFrames(wfile: OutputStream, cFrag: seq<seq<byte>>)
      modifies wfile
      ensures wfile.written == old(wfile.written) + Frames(cFrag)
    {
      var j := 0;
      while j < |cFrag|
        invariant 0 <= j <= |cFrag|
        invariant wfile.written == old(wfile.written) + Frames(cFrag[..j])
      {
        var frag := cFrag[j];
        var chunkSize := ToHex(|frag|);
        wfile.Write(chunkSize + CRLF + frag + CRLF);
        FramesPrefixStep(cFrag, j);
        j := j + 1;
      }
      assert cFrag[..j] == cFrag;
    }
  }
}
