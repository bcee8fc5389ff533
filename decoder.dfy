/**
 * The chunk decoder, `__read_chunked`: a loop over chunk headers, then a loop
 * over trailer lines. Each loop is a function of the whole input stream, of
 * where the cursor stands and of what has been gathered so far; each result
 * names the outcome and where the decoder left the cursor.
 */
module ChunkDecoder {
  import opened Bytes
  import opened Wrappers
  import opened Hex
  import opened Streams

  /** What a decode ends with: the chunks in arrival order, or the exception it raises. */
  datatype Outcome =
    | Ok(chunks: seq<seq<byte>>)
    | ConnReset   // RuntimeError('Connection reset by peer'): end of stream where a line was due
    | BadSize     // ValueError from int(): the chunk-size field is not base-16 text
    | TooLarge    // ValueError('too large content'): the running total passed max_content_size

  /** An outcome and the cursor position the decoder stopped at. */
  datatype Decoded = Decoded(outcome: Outcome, next: nat)

  /** `line.split(';', 1)[0]`: the header line up to its first `;`, the chunk-extension dropped. */
  function BeforeSemicolon(line: seq<byte>): (field: seq<byte>)
  {
    if line == [] || line[0] == ';' then [] else [line[0]] + BeforeSemicolon(line[1..])
  }

  /** The size field is the start of the line, holds no `;`, and ends at the first `;` or at the end. */
  lemma {:induction false} BeforeSemicolonPrefix(line: seq<byte>)
    ensures var field := BeforeSemicolon(line);
      && |field| <= |line| && field == line[..|field|] && ';' !in field
      && (|field| < |line| ==> line[|field|] == ';')
  {
    if line != [] && line[0] != ';' {
      BeforeSemicolonPrefix(line[1..]);
    }
  }

  /** The chunk size a header line announces: `int(line.split(';', 1)[0], 16)`. */
  function HeaderSize(header: seq<byte>): Option<int>
  {
    ParseHex(BeforeSemicolon(header))
  }

  /**
   * What a decode is run with: the reader of the size a header line
   * announces (`HeaderSize` in the handler, see `HandlerSettings`),
   * `max_content_size` and the line limit `chunk_header_length`. The loops
   * and most lemmas are stated for any size reader; only the lemmas about
   * particular header lines need `HeaderSize` itself.
   */
  datatype Settings = Settings(sizeOf: seq<byte> -> Option<int>, maxContent: int, lineLimit: nat)

  /**
   * The chunk loop from cursor `pos`, with the chunks gathered so far and
   * `total`, the sum of the sizes announced so far. Each pass reads a header
   * line first.
   */
  function ChunkLoop(s: seq<byte>, pos: nat, cfg: Settings, contents: seq<seq<byte>>, total: int): (r: Decoded)
    requires pos <= |s|
    ensures pos <= r.next <= |s|
    decreases |s| - pos, 2
  {
    HeaderStep(s, pos, LineEnd(s, pos, cfg.lineLimit), cfg, contents, total)
  }

  /**
   * The rest of a pass once the header line, from `pos` to `lineEnd`, is
   * read: a bare CRLF or a zero size ends the chunk loop and starts the
   * trailer loop, the end of the stream or a malformed size fails the
   * decode, any other size is read as a chunk.
   */
  function HeaderStep(s: seq<byte>, pos: nat, lineEnd: nat, cfg: Settings,
                      contents: seq<seq<byte>>, total: int): (r: Decoded)
    requires pos <= lineEnd <= |s|
    ensures lineEnd <= r.next <= |s|
    decreases |s| - pos, 1
  {
    var header := Between(s, pos, lineEnd);
    if header == CRLF then TrailerLoop(s, lineEnd, cfg.lineLimit, contents)
    else if header == [] then Decoded(ConnReset, lineEnd)
    else
      var size := cfg.sizeOf(header);
      if size.None? then Decoded(BadSize, lineEnd)
      else if size.value == 0 then TrailerLoop(s, lineEnd, cfg.lineLimit, contents)
      else DataStep(s, lineEnd, size.value, cfg, contents, total)
  }

  /**
   * The data part of a pass from cursor `at`: `read(size)` is the chunk
   * (short at the end of the stream, everything left when `size` is
   * negative), `read(2)` drops the next two bytes unchecked, the chunk is
   * appended and the running total, with `size` added, is checked against
   * `maxContent`; then the next pass.
   */
  function DataStep(s: seq<byte>, at: nat, size: int, cfg: Settings,
                    contents: seq<seq<byte>>, total: int): (r: Decoded)
    requires at <= |s|
    ensures at <= r.next <= |s|
    decreases |s| - at + 1, 0
  {
    var chunkEnd := ReadEnd(s, at, size);
    var next := ReadEnd(s, chunkEnd, 2);
    if total + size > cfg.maxContent then Decoded(TooLarge, next)
    else ChunkLoop(s, next, cfg, contents + [Between(s, at, chunkEnd)], total + size)
  }

  /** The trailer loop: lines are read and dropped until a bare CRLF. */
  function TrailerLoop(s: seq<byte>, pos: nat, limit: nat, contents: seq<seq<byte>>): (r: Decoded)
    requires pos <= |s|
    ensures pos <= r.next <= |s|
    decreases |s| - pos
  {
    var e := LineEnd(s, pos, limit);
    var footer := Between(s, pos, e);
    if footer == CRLF then Decoded(Ok(contents), e)
    else if footer == [] then Decoded(ConnReset, e)
    else TrailerLoop(s, e, limit, contents)
  }

  /** The handler's settings: its size reader, size limit and line limit. */
  function HandlerSettings(maxContent: int, limit: nat): Settings
  {
    Settings(HeaderSize, maxContent, limit)
  }

  /** A whole decode from the start of the stream, from an empty list and a zero total. */
  function Decode(s: seq<byte>, maxContent: int, limit: nat): (r: Decoded)
    ensures r.next <= |s|
  {
    ChunkLoop(s, 0, HandlerSettings(maxContent, limit), [], 0)
  }

  // ---------------------------------------------------------------- header lines

  /** The size field stops at the first `;`. */
  lemma {:induction false} BeforeSemicolonSplit(a: seq<byte>, b: seq<byte>)
    requires ';' !in a
    ensures BeforeSemicolon(a + [';'] + b) == a
  {
    if a != [] {
      assert (a + [';'] + b)[1..] == a[1..] + [';'] + b;
      BeforeSemicolonSplit(a[1..], b);
    }
  }

  /** A header line without `;` is its own size field. */
  lemma {:induction false} BeforeSemicolonNone(line: seq<byte>)
    requires ';' !in line
    ensures BeforeSemicolon(line) == line
  {
    if line != [] {
      BeforeSemicolonNone(line[1..]);
    }
  }

  /** A header `d CRLF` announces the value of `d`: the CRLF is white space to `int`. */
  lemma {:induction false} PlainHeaderSize(d: seq<byte>)
    requires d != [] && AllHexDigits(d)
    ensures HeaderSize(d + CRLF) == Some(HexValue(d))
  {
    HexDigitsAreNotDelimiters(d);
    assert ';' !in d + CRLF;
    BeforeSemicolonNone(d + CRLF);
    ParseHexDigits(d, CRLF);
  }

  /** A header `d;ext CRLF` announces the value of `d`: the chunk-extension is cut off. */
  lemma {:induction false} ExtensionHeaderSize(d: seq<byte>, ext: seq<byte>)
    requires d != [] && AllHexDigits(d)
    ensures HeaderSize(d + ";" + ext + CRLF) == Some(HexValue(d))
  {
    HexDigitsAreNotDelimiters(d);
    assert d + ";" + ext + CRLF == d + [';'] + (ext + CRLF);
    BeforeSemicolonSplit(d, ext + CRLF);
    ParseHexDigits(d, []);
    assert d + [] == d;
  }

  /** A complete line `a CR LF` standing at `pos` is what `readline` returns there, if it fits. */
  lemma {:induction false} CrlfLine(s: seq<byte>, pos: nat, a: seq<byte>, limit: nat, e: nat)
    requires HasAt(s, pos, a + CRLF) && LF !in a && |a| + 2 <= limit && e == pos + |a| + 2
    ensures LineEnd(s, pos, limit) == e
    ensures Between(s, pos, e) == a + CRLF
  {
    var w := a + CRLF;
    assert s[pos + |a| + 1] == LF by {
      assert w[|a| + 1] == LF;
    }
    forall i | pos <= i < pos + |a| + 1
      ensures s[i] != LF
    {
      assert s[i] == w[i - pos];
      if i - pos < |a| {
        assert w[i - pos] == a[i - pos];
      }
    }
    LineEndAt(s, pos, pos + |a| + 2, limit);
    HasAtBetween(s, pos, w);
  }

  // ---------------------------------------------------------------- loop steps

  /** The trailer loop either succeeds with the chunks it was given or meets the end of the stream. */
  lemma {:induction false} TrailerLoopOutcome(s: seq<byte>, pos: nat, limit: nat, contents: seq<seq<byte>>)
    requires pos <= |s|
    ensures TrailerLoop(s, pos, limit, contents).outcome in {Ok(contents), ConnReset}
    decreases |s| - pos
  {
    var e := LineEnd(s, pos, limit);
    var footer := Between(s, pos, e);
    if footer != CRLF && footer != [] {
      TrailerLoopOutcome(s, e, limit, contents);
    }
  }

  /** At the end of the stream the chunk loop fails with ConnReset and the cursor stays put. */
  lemma {:induction false} ChunkLoopAtEof(s: seq<byte>, cfg: Settings, contents: seq<seq<byte>>, total: int)
    ensures ChunkLoop(s, |s|, cfg, contents, total) == Decoded(ConnReset, |s|)
  {
    assert LineEnd(s, |s|, cfg.lineLimit) == |s|;
  }

  /** At the end of the stream the trailer loop fails with ConnReset and the cursor stays put. */
  lemma {:induction false} TrailerLoopAtEof(s: seq<byte>, limit: nat, contents: seq<seq<byte>>)
    ensures TrailerLoop(s, |s|, limit, contents) == Decoded(ConnReset, |s|)
  {
    assert LineEnd(s, |s|, limit) == |s|;
  }

  /** The invariant of the chunk loop's state: the total counts the gathered bytes, none of them empty. */
  predicate Gathered(contents: seq<seq<byte>>, total: int, maxContent: int)
  {
    && total == |Flatten(contents)| <= maxContent
    && forall i :: 0 <= i < |contents| ==> contents[i] != []
  }

  /** Appending a non-empty chunk within the limit keeps the invariant. */
  lemma GatheredAppend(contents: seq<seq<byte>>, total: int, maxContent: int, chunk: seq<byte>)
    requires Gathered(contents, total, maxContent)
    requires chunk != [] && total + |chunk| <= maxContent
    ensures Gathered(contents + [chunk], total + |chunk|, maxContent)
  {
    FlattenAppend(contents, [chunk]);
    FlattenSingle(chunk);
    var contents' := contents + [chunk];
    forall i | 0 <= i < |contents'| ensures contents'[i] != [] {
      if i < |contents| { assert contents'[i] == contents[i]; }
    }
  }

  /**
   * A successful decode returns what arrived and nothing short: no chunk is
   * empty, the chunks gathered before are kept in front, and the bytes
   * returned add up to at most `maxContent`. A short read at the end of the
   * stream therefore never reaches the caller: it leads to ConnReset.
   */
  lemma {:induction false} ChunkLoopOk(s: seq<byte>, pos: nat, cfg: Settings, contents: seq<seq<byte>>, total: int)
    requires pos <= |s| && Gathered(contents, total, cfg.maxContent)
    ensures var r := ChunkLoop(s, pos, cfg, contents, total).outcome;
      r.Ok? ==> contents <= r.chunks && Gathered(r.chunks, |Flatten(r.chunks)|, cfg.maxContent)
    decreases |s| - pos, 1
  {
    var lineEnd := LineEnd(s, pos, cfg.lineLimit);
    var header := Between(s, pos, lineEnd);
    assert ChunkLoop(s, pos, cfg, contents, total) == HeaderStep(s, pos, lineEnd, cfg, contents, total);
    if header == CRLF || (header != [] && cfg.sizeOf(header) == Some(0)) {
      TrailerLoopOutcome(s, lineEnd, cfg.lineLimit, contents);
    } else if header != [] && cfg.sizeOf(header).Some? {
      DataStepOk(s, lineEnd, cfg.sizeOf(header).value, cfg, contents, total);
    }
  }

  /** The data part of a pass keeps what `ChunkLoopOk` promises. */
  lemma {:induction false} DataStepOk(s: seq<byte>, at: nat, size: int, cfg: Settings,
                                      contents: seq<seq<byte>>, total: int)
    requires at <= |s| && size != 0 && Gathered(contents, total, cfg.maxContent)
    ensures var r := DataStep(s, at, size, cfg, contents, total).outcome;
      r.Ok? ==> contents <= r.chunks && Gathered(r.chunks, |Flatten(r.chunks)|, cfg.maxContent)
    decreases |s| - at + 1, 0
  {
    var chunkEnd := ReadEnd(s, at, size);
    var next := ReadEnd(s, chunkEnd, 2);
    var chunk := Between(s, at, chunkEnd);
    if total + size <= cfg.maxContent {
      assert DataStep(s, at, size, cfg, contents, total) == ChunkLoop(s, next, cfg, contents + [chunk], total + size);
      if next == |s| {
        ChunkLoopAtEof(s, cfg, contents + [chunk], total + size);
      } else {
        assert |chunk| == size;
        GatheredAppend(contents, total, cfg.maxContent, chunk);
        ChunkLoopOk(s, next, cfg, contents + [chunk], total + size);
        var r := ChunkLoop(s, next, cfg, contents + [chunk], total + size).outcome;
        if r.Ok? {
          assert contents <= contents + [chunk] <= r.chunks;
        }
      }
    }
  }

  /** The decoder's promise: a successful body is whole chunks and fits the limit. */
  lemma DecodeOk(s: seq<byte>, maxContent: int, limit: nat)
    requires maxContent >= 0
    ensures var r := Decode(s, maxContent, limit).outcome;
      r.Ok? ==>
        && |Flatten(r.chunks)| <= maxContent
        && (forall i :: 0 <= i < |r.chunks| ==> r.chunks[i] != [])
  {
    ChunkLoopOk(s, 0, HandlerSettings(maxContent, limit), [], 0);
  }

  // ---------------------------------------------------------------- particular headers

  /**
   * A bare CRLF where a chunk header is due ends the chunk loop with no
   * error, on any pass: the chunks gathered so far go on to the trailer loop.
   */
  lemma {:induction false} BareCrlfEndsChunks(s: seq<byte>, pos: nat, cfg: Settings, contents: seq<seq<byte>>, total: int)
    requires HasAt(s, pos, CRLF) && cfg.lineLimit >= 2
    ensures ChunkLoop(s, pos, cfg, contents, total) == TrailerLoop(s, pos + 2, cfg.lineLimit, contents)
  {
    assert [] + CRLF == CRLF;
    CrlfLine(s, pos, [], cfg.lineLimit, pos + 2);
  }

  /** The handler reads the last-chunk header `0` as size 0. */
  lemma HandlerReadsLastChunk(maxContent: int, limit: nat)
    ensures HandlerSettings(maxContent, limit).sizeOf(LastChunk) == Some(0)
  {
    assert HexValue("0") == 0;
    assert "0" + CRLF == LastChunk;
    PlainHeaderSize("0");
  }

  /** A last-chunk header, one its size reader reads as 0, ends the chunk loop the same way. */
  lemma {:induction false} ZeroSizeEndsChunks(s: seq<byte>, pos: nat, cfg: Settings, contents: seq<seq<byte>>, total: int)
    requires HasAt(s, pos, LastChunk) && cfg.lineLimit >= 3 && cfg.sizeOf(LastChunk) == Some(0)
    ensures ChunkLoop(s, pos, cfg, contents, total) == TrailerLoop(s, pos + 3, cfg.lineLimit, contents)
  {
    assert "0" + CRLF == LastChunk;
    CrlfLine(s, pos, "0", cfg.lineLimit, pos + 3);
  }

  /**
   * A header line whose size field holds a byte that cannot appear in a
   * base-16 literal fails the decode with BadSize, with the cursor after the
   * line: the field is refused, never read up to that byte.
   */
  lemma {:induction false} StrayByteFails(s: seq<byte>, pos: nat, maxContent: int, limit: nat,
                       contents: seq<seq<byte>>, total: int, k: nat)
    requires pos <= |s|
    requires var header := Between(s, pos, LineEnd(s, pos, limit));
      header != CRLF && k < |BeforeSemicolon(header)| && !MayAppearInHexLiteral(BeforeSemicolon(header)[k])
    ensures ChunkLoop(s, pos, HandlerSettings(maxContent, limit), contents, total)
         == Decoded(BadSize, LineEnd(s, pos, limit))
  {
    var header := Between(s, pos, LineEnd(s, pos, limit));
    StrayByteRejected(BeforeSemicolon(header), k);
  }

  /**
   * A pass over a non-empty header line of `hlen` bytes, other than a bare
   * CRLF, announcing `|f|` (an LF-terminated `5 LF` counts), followed by
   * `f` and two more bytes: the two bytes are dropped whatever they are, and
   * the decode fails with TooLarge exactly when the new total passes
   * `maxContent`; otherwise `f` is appended and the loop goes on after it.
   */
  lemma DataChunkPass(s: seq<byte>, pos: nat, hlen: nat, f: seq<byte>, cfg: Settings,
                      contents: seq<seq<byte>>, total: int)
    requires pos + hlen <= |s| && LineEnd(s, pos, cfg.lineLimit) == pos + hlen
    requires hlen > 0 && Between(s, pos, pos + hlen) != CRLF
    requires cfg.sizeOf(Between(s, pos, pos + hlen)) == Some(|f|) && f != []
    requires pos + hlen + |f| + 2 <= |s| && Between(s, pos + hlen, pos + hlen + |f|) == f
    ensures ChunkLoop(s, pos, cfg, contents, total)
         == if total + |f| > cfg.maxContent then Decoded(TooLarge, pos + hlen + |f| + 2)
            else ChunkLoop(s, pos + hlen + |f| + 2, cfg, contents + [f], total + |f|)
  {
    var at := pos + hlen;
    assert ReadEnd(s, at, |f|) == at + |f| && ReadEnd(s, at + |f|, 2) == at + |f| + 2;
    assert ChunkLoop(s, pos, cfg, contents, total) == HeaderStep(s, pos, at, cfg, contents, total);
    assert HeaderStep(s, pos, at, cfg, contents, total) == DataStep(s, at, |f|, cfg, contents, total);
  }

  /**
   * A chunk the stream cannot supply together with its two tail bytes and
   * something after them (a negative size, or data running into the end of
   * the stream) never leads to success: the pass fails with TooLarge, or the
   * next header read meets the end of the stream. Either way the cursor is at
   * the end of the stream.
   */
  lemma {:induction false} ShortChunkNotOk(s: seq<byte>, at: nat, size: int, cfg: Settings,
                                           contents: seq<seq<byte>>, total: int)
    requires at <= |s| && (size < 0 || at + size + 2 >= |s|)
    ensures var r := DataStep(s, at, size, cfg, contents, total);
      (r.outcome == ConnReset || r.outcome == TooLarge) && r.next == |s|
  {
    var chunkEnd := ReadEnd(s, at, size);
    assert ReadEnd(s, chunkEnd, 2) == |s|;
    if total + size <= cfg.maxContent {
      ChunkLoopAtEof(s, cfg, contents + [Between(s, at, chunkEnd)], total + size);
    }
  }

  // ---------------------------------------------------------------- the unread bytes decide

  /** What lies between two cursors depends only on the bytes from the first on. */
  lemma {:induction false} BetweenShift(s1: seq<byte>, a1: nat, e1: nat, s2: seq<byte>, a2: nat, e2: nat)
    requires SameFrom(s1, a1, s2, a2) && a1 <= e1 <= |s1| && e1 - a1 == e2 - a2
    ensures Between(s1, a1, e1) == Between(s2, a2, e2)
  {
    BetweenIndex(s1, a1, e1);
    BetweenIndex(s2, a2, e2);
    forall i | 0 <= i < e1 - a1 ensures Between(s1, a1, e1)[i] == Between(s2, a2, e2)[i] {
      assert s1[a1 + i] == s2[a1 + i - a1 + a2];
    }
  }

  /** The trailer loop depends only on the bytes from the cursor on. */
  lemma {:induction false} TrailerLoopShift(s1: seq<byte>, p1: nat, s2: seq<byte>, p2: nat,
                                            limit: nat, contents: seq<seq<byte>>)
    requires SameFrom(s1, p1, s2, p2)
    ensures var r1, r2 := TrailerLoop(s1, p1, limit, contents), TrailerLoop(s2, p2, limit, contents);
      r1.outcome == r2.outcome && r1.next - p1 == r2.next - p2
    decreases |s1| - p1
  {
    var e1, e2 := LineEnd(s1, p1, limit), LineEnd(s2, p2, limit);
    LineEndShift(s1, p1, s2, p2, limit);
    BetweenShift(s1, p1, e1, s2, p2, e2);
    if Between(s1, p1, e1) != CRLF && Between(s1, p1, e1) != [] {
      SameFromLater(s1, p1, s2, p2, e1 - p1);
      TrailerLoopShift(s1, e1, s2, e2, limit, contents);
    }
  }

  /** The chunk loop depends only on the bytes from the cursor on. */
  lemma {:induction false} ChunkLoopShift(s1: seq<byte>, p1: nat, s2: seq<byte>, p2: nat, cfg: Settings,
                                          contents: seq<seq<byte>>, total: int)
    requires SameFrom(s1, p1, s2, p2)
    ensures var r1, r2 := ChunkLoop(s1, p1, cfg, contents, total), ChunkLoop(s2, p2, cfg, contents, total);
      r1.outcome == r2.outcome && r1.next - p1 == r2.next - p2
    decreases |s1| - p1, 1
  {
    var e1, e2 := LineEnd(s1, p1, cfg.lineLimit), LineEnd(s2, p2, cfg.lineLimit);
    LineEndShift(s1, p1, s2, p2, cfg.lineLimit);
    BetweenShift(s1, p1, e1, s2, p2, e2);
    SameFromLater(s1, p1, s2, p2, e1 - p1);
    assert ChunkLoop(s1, p1, cfg, contents, total) == HeaderStep(s1, p1, e1, cfg, contents, total);
    assert ChunkLoop(s2, p2, cfg, contents, total) == HeaderStep(s2, p2, e2, cfg, contents, total);
    var header := Between(s1, p1, e1);
    if header == CRLF || (header != [] && cfg.sizeOf(header) == Some(0)) {
      TrailerLoopShift(s1, e1, s2, e2, cfg.lineLimit, contents);
    } else if header != [] && cfg.sizeOf(header).Some? {
      DataStepShift(s1, e1, s2, e2, cfg.sizeOf(header).value, cfg, contents, total);
    }
  }

  /** The data part of a pass depends only on the bytes from the cursor on. */
  lemma {:induction false} DataStepShift(s1: seq<byte>, a1: nat, s2: seq<byte>, a2: nat, size: int, cfg: Settings,
                                         contents: seq<seq<byte>>, total: int)
    requires SameFrom(s1, a1, s2, a2)
    ensures var r1, r2 := DataStep(s1, a1, size, cfg, contents, total), DataStep(s2, a2, size, cfg, contents, total);
      r1.outcome == r2.outcome && r1.next - a1 == r2.next - a2
    decreases |s1| - a1 + 1, 0
  {
    var c1, c2 := ReadEnd(s1, a1, size), ReadEnd(s2, a2, size);
    var n1, n2 := ReadEnd(s1, c1, 2), ReadEnd(s2, c2, 2);
    BetweenShift(s1, a1, c1, s2, a2, c2);
    if total + size <= cfg.maxContent {
      var chunk := Between(s1, a1, c1);
      assert DataStep(s1, a1, size, cfg, contents, total) == ChunkLoop(s1, n1, cfg, contents + [chunk], total + size);
      assert DataStep(s2, a2, size, cfg, contents, total) == ChunkLoop(s2, n2, cfg, contents + [chunk], total + size);
      SameFromLater(s1, a1, s2, a2, n1 - a1);
      ChunkLoopShift(s1, n1, s2, n2, cfg, contents + [chunk], total + size);
    }
  }

  /**
   * Two non-empty header lines that are not bare CRLFs and announce the same size lead
   * to the same outcome, when the same bytes follow them; the cursors end
   * equally far past the two lines.
   */
  lemma {:induction false} SameSizeSameLoop(s1: seq<byte>, p1: nat, e1: nat, s2: seq<byte>, p2: nat, e2: nat,
                         cfg: Settings, contents: seq<seq<byte>>, total: int)
    requires p1 <= |s1| && p2 <= |s2|
    requires LineEnd(s1, p1, cfg.lineLimit) == e1 && LineEnd(s2, p2, cfg.lineLimit) == e2
    requires e1 > p1 && Between(s1, p1, e1) != CRLF && e2 > p2 && Between(s2, p2, e2) != CRLF
    requires cfg.sizeOf(Between(s1, p1, e1)) == cfg.sizeOf(Between(s2, p2, e2))
    requires SameFrom(s1, e1, s2, e2)
    ensures var r1, r2 := ChunkLoop(s1, p1, cfg, contents, total), ChunkLoop(s2, p2, cfg, contents, total);
      r1.outcome == r2.outcome && r1.next - e1 == r2.next - e2
  {
    assert ChunkLoop(s1, p1, cfg, contents, total) == HeaderStep(s1, p1, e1, cfg, contents, total);
    assert ChunkLoop(s2, p2, cfg, contents, total) == HeaderStep(s2, p2, e2, cfg, contents, total);
    var size := cfg.sizeOf(Between(s1, p1, e1));
    if size.Some? && size.value != 0 {
      DataStepShift(s1, e1, s2, e2, size.value, cfg, contents, total);
    } else if size.Some? {
      TrailerLoopShift(s1, e1, s2, e2, cfg.lineLimit, contents);
    }
  }

  /** The bytes of `d;ext` hold no LF when those of `ext` hold none, and number `|d| + 1 + |ext|`. */
  lemma ExtensionHasNoLF(d: seq<byte>, ext: seq<byte>)
    requires AllHexDigits(d) && LF !in ext
    ensures LF !in d + ";" + ext && |d + ";" + ext| == |d| + |ext| + 1
  {
    HexDigitsAreNotDelimiters(d);
    var a := d + ";" + ext;
    forall i | 0 <= i < |a| ensures a[i] != LF {
      if i < |d| {
        assert a[i] == d[i];
      } else if i > |d| {
        assert a[i] == ext[i - |d| - 1];
      }
    }
  }

  /** A header line `d;ext CRLF` that fits the limit is read whole. */
  lemma {:induction false} ExtensionLine(s: seq<byte>, pos: nat, d: seq<byte>, ext: seq<byte>, limit: nat)
    requires AllHexDigits(d) && LF !in ext && |d| + 1 + |ext| + 2 <= limit
    requires HasAt(s, pos, d + ";" + ext + CRLF)
    ensures LineEnd(s, pos, limit) == pos + |d| + 1 + |ext| + 2
    ensures Between(s, pos, pos + |d| + 1 + |ext| + 2) == d + ";" + ext + CRLF
  {
    ExtensionHasNoLF(d, ext);
    CrlfLine(s, pos, d + ";" + ext, limit, pos + |d| + 1 + |ext| + 2);
  }

  /** A header line `d CRLF` that fits the limit is read whole. */
  lemma {:induction false} PlainLine(s: seq<byte>, pos: nat, d: seq<byte>, limit: nat)
    requires AllHexDigits(d) && |d| + 2 <= limit
    requires HasAt(s, pos, d + CRLF)
    ensures LineEnd(s, pos, limit) == pos + |d| + 2
    ensures Between(s, pos, pos + |d| + 2) == d + CRLF
  {
    HexDigitsAreNotDelimiters(d);
    CrlfLine(s, pos, d, limit, pos + |d| + 2);
  }

  /** The header with the extension and the one without announce the same size. */
  lemma ExtensionSameSize(h1: seq<byte>, h2: seq<byte>, d: seq<byte>, ext: seq<byte>, cfg: Settings)
    requires d != [] && AllHexDigits(d) && cfg.sizeOf == HeaderSize
    requires h1 == d + ";" + ext + CRLF && h2 == d + CRLF
    ensures cfg.sizeOf(h1) == cfg.sizeOf(h2)
  {
    ExtensionHeaderSize(d, ext);
    PlainHeaderSize(d);
  }

  /**
   * The chunk-extension is ignored: a header `d;ext CRLF` decodes exactly as
   * the bare `d CRLF` followed by the same bytes, as long as the whole line
   * fits the header limit; the cursor ends `1 + |ext|` bytes further on.
   */
  lemma {:induction false} ExtensionIgnored(s1: seq<byte>, p1: nat, s2: seq<byte>, p2: nat, d: seq<byte>, ext: seq<byte>,
                         maxContent: int, limit: nat, contents: seq<seq<byte>>, total: int)
    requires d != [] && AllHexDigits(d) && LF !in ext
    requires |d| + 1 + |ext| + 2 <= limit
    requires HasAt(s1, p1, d + ";" + ext + CRLF) && HasAt(s2, p2, d + CRLF)
    requires SameFrom(s1, p1 + |d| + 1 + |ext| + 2, s2, p2 + |d| + 2)
    ensures var cfg := HandlerSettings(maxContent, limit);
      var r1, r2 := ChunkLoop(s1, p1, cfg, contents, total), ChunkLoop(s2, p2, cfg, contents, total);
      r1.outcome == r2.outcome && r1.next - p1 == r2.next - p2 + 1 + |ext|
  {
    var cfg := HandlerSettings(maxContent, limit);
    var e1, e2 := p1 + |d| + 1 + |ext| + 2, p2 + |d| + 2;
    ExtensionLine(s1, p1, d, ext, limit);
    PlainLine(s2, p2, d, limit);
    ExtensionSameSize(Between(s1, p1, e1), Between(s2, p2, e2), d, ext, cfg);
    SameSizeSameLoop(s1, p1, e1, s2, p2, e2, cfg, contents, total);
  }

  // ---------------------------------------------------------------- trailer

  /** Trailer fields, each closed by CRLF. */
  function TrailerLines(fields: seq<seq<byte>>): seq<byte>
  {
    if fields == [] then [] else fields[0] + CRLF + TrailerLines(fields[1..])
  }

  /**
   * After the last chunk, trailer fields (non-empty lines without LF) that
   * fit the header limit are read and dropped, and the blank line after them
   * completes the decode with the chunks gathered.
   */
  lemma {:induction false} TrailerSkipped(s: seq<byte>, pos: nat, fields: seq<seq<byte>>, limit: nat,
                                          contents: seq<seq<byte>>)
    requires limit >= 2
    requires forall i :: 0 <= i < |fields| ==> fields[i] != [] && LF !in fields[i] && |fields[i]| + 2 <= limit
    requires HasAt(s, pos, TrailerLines(fields) + CRLF)
    ensures TrailerLoop(s, pos, limit, contents) == Decoded(Ok(contents), pos + |TrailerLines(fields)| + 2)
    decreases |fields|
  {
    if fields == [] {
      assert [] + CRLF == CRLF;
      CrlfLine(s, pos, [], limit, pos + 2);
    } else {
      var f := fields[0];
      var more := TrailerLines(fields[1..]) + CRLF;
      assert TrailerLines(fields) + CRLF == (f + CRLF) + more;
      HasAtSplit(s, pos, f + CRLF, more);
      CrlfLine(s, pos, f, limit, pos + |f| + 2);
      assert f + CRLF != CRLF;
      TrailerSkipped(s, pos + |f| + 2, fields[1..], limit, contents);
    }
  }
}
