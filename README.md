# Chunked transfer coding of `ChunkableHTTPRequestHandler`

`ChunkableHTTPRequestHandler` is a Python 2 HTTP request handler. It reads
request bodies sent in the chunked transfer coding of section 4.1 of
RFC 7230, and it writes response bodies in the same coding. This project
models its chunk codec in Dafny and proves properties of the model:

- the keyword-argument checks of the handler's constructor;
- the chunk reader `__read_chunked`, which reads chunk headers and chunk data
  from `rfile`, then skips the trailer;
- the body loop of `send_chunked`, which cuts each buffer of `msg_list` into
  fragments of at most `chunk_max_size` bytes and writes each one framed to
  `wfile`, then writes the last-chunk and the empty trailer. This is the
  intended body loop: as written, the source stops after the first frame
  (see Findings), and the model holds both bodies.

Modules, one per file:

- `Wrappers` holds `Option`.
- `Bytes` holds a byte as a character below 256, because a Python 2 `str` is a
  byte string. It also holds CRLF, the last-chunk line `0 CRLF`, and `Flatten`,
  the concatenation of a list of buffers.
- `Hex` models base-16 text. `ToHex` is `hex(n)[2:]`, the size field the
  encoder writes. `ParseHex` is Python 2's `int(s, 16)`, which the decoder
  calls. It is an automaton that accepts white space, a sign and a `0x` prefix
  around the digits, as `int` does.
- `Streams` models the two stream handles. `InputStream` is the bytes the
  peer sends, with a cursor; `ReadLine` is `readline(limit)` and `Read` is
  `read(n)`. `OutputStream` is everything written so far.
- `ChunkDecoder` describes `__read_chunked` as functions:
  - `ChunkLoop` is its first loop and `TrailerLoop` its second.
  - Each function takes the whole input, the cursor, and what has been gathered
    so far.
  - Each result is the outcome plus where the cursor stops. The outcome is the
    chunks, or the exception raised.
  - The loops take a `Settings` value: the size reader, `max_content_size` and
    the line limit. `HandlerSettings` is the handler's own: `HeaderSize`
    (`int(line.split(';', 1)[0], 16)`), and its limits.
- `ChunkEncoder` describes `send_chunked`'s loop as functions: `Fragments`,
  `Frame`, `Frames`, `AllFragments` and `EncodeBody`.
- `ChunkCodec` holds the lemmas that connect the two sides. The decoder reads
  back what the intended body loop writes (`EncodeBody`), and refuses an encoded body larger than
  `max_content_size`.
- `Handler` holds the class `ChunkableHandler`: its class attributes, the
  constructor's checks (`Init`), and the methods `ReadChunked` and
  `SendChunked`. These two methods have the loops of the source and are proved
  against `ChunkLoop` and `EncodeBody`. `SendChunked` is the corrected loop:
  it leaves out the debug log line that, in the source, raises an exception
  after the first frame (see Findings).
- `ChunkSamples` holds worked wire samples, each proved from the general
  lemmas.

### Behaviour the model follows

The model follows the code wherever it departs from a strict reading of
RFC 7230 or from the handler's own description of itself:

- An over-long header or trailer line is not an error. `readline(128)` cuts it,
  and the rest of it is read as the next line or as chunk data.
- A bare CRLF header line ends the chunk loop on any pass, not only on the
  first, and the trailer is read next.
- The size field is parsed by `int(s, 16)`. It accepts surrounding white
  space, a sign and a `0x` prefix. A negative size makes `read` consume the
  rest of the stream, so the next header read ends with a connection reset.
  Every such literal is accepted (`ParseHexComplete`), and everything `int`
  accepts is such a literal and nothing more (`ParseHexSound`). A byte that can never appear in one is a certain failure
  (`StrayByteFails`).
- The two bytes after the chunk data are read and not checked.
- A chunk cut short by the end of the stream is kept. The next header read
  then fails with a connection reset, so a successful result never holds it
  (`ShortChunkNotOk`).
- The size limit is checked after the chunk has been appended and its tail
  read. It is checked against the announced sizes, not the bytes received.
- `force_chunked` is accepted when it equals `True` or `False`, so 0 and 1 are
  accepted too.

## Model

| member | source | states |
|---|---|---|
| Handler.ChunkableHandler.constructor | chunkable_http_server.py:42-47 | The options start at the class defaults: `force_chunked` false, `chunk_max_size` 512, `chunk_read_timeout` 5. |
| Handler.ChunkableHandler.Init | chunkable_http_server.py:49-64 | Each of the three error results occurs exactly when its option is present and invalid and all earlier options are valid. No error occurs exactly when all present options are valid. A valid option replaces the default, and the options after the first invalid one are left unchanged. The numeric options stay positive. |
| Handler.ChunkableHandler.ReadChunked | chunkable_http_server.py:95-153 | The method's two loops return the outcome `ChunkLoop` gives, and leave `rfile`'s cursor where `ChunkLoop` stops. A successful read is non-empty chunks whose total fits `max_content_size`. |
| Handler.ChunkableHandler.SendChunked | chunkable_http_server.py:170-184 | The corrected loop, without the log line of lines 179-181. What the method appends to `wfile` is exactly `EncodeBody(msg_list, chunk_max_size)`, which `ChunkCodec.RoundTrip` decodes back to the payload. The source as written produces `EncodeBodyAsWritten` instead (`ChunkCodec.AsWrittenBodyIsCut`). |
| Handler.IsBoolLike | chunkable_http_server.py:51 | `v in [True, False]`, with `True == 1` and `False == 0`. `Init`'s contract accepts `force_chunked` exactly when it holds. |
| Handler.AsInt | chunkable_http_server.py:52-62 | The number an option value stands for, with `True` as 1 and `False` as 0. `Init`'s contract stores it. |
| Handler.IsPositive | chunkable_http_server.py:56-61 | `v > 0`, with `True` as 1. `Init`'s contract accepts `chunk_max_size` and `chunk_read_timeout` exactly when it holds. |
| Handler.ChunkableHandler.WriteFrames | chunkable_http_server.py:174-176 | Writing the fragments of one buffer appends their frames, in order. |
| Streams.InputStream.ReadLine | chunkable_http_server.py:105 | `readline(limit)` returns the bytes between the old cursor and `LineEnd`, and moves the cursor there. |
| Streams.InputStream.Read | chunkable_http_server.py:125 | `read(n)` returns the bytes between the old cursor and `ReadEnd`, and moves the cursor there. |
| Streams.OutputStream.Write | chunkable_http_server.py:176 | `write` appends its argument to what was written. |
| Streams.LineEnd | chunkable_http_server.py:105 | A line ends within the stream, at most `limit` bytes on from the cursor. |
| Streams.LineEndStops | chunkable_http_server.py:105 | A line holds no LF before its last byte. It stops at an LF, at the limit, or at the end of the stream. It is empty exactly at the end of the stream or under a zero limit. |
| Streams.ReadEnd | chunkable_http_server.py:125 | Where `read(n)` leaves the cursor: never before it and never past the end of the stream. `Streams.ReadEndShort` pins it down. |
| Streams.ReadEndShort | chunkable_http_server.py:125 | A read returns the `n` bytes asked for, or stops at the end of the stream when fewer remain or `n` is negative. |
| Hex.DigitValue | chunkable_http_server.py:115 | Each base-16 digit of either case has its value below 16. |
| Hex.ToHex | chunkable_http_server.py:175 | `hex(n)[2:]` is never empty. |
| Hex.ToHexForm | chunkable_http_server.py:175 | `hex(n)[2:]` is lower-case base-16 digits, with a leading `0` exactly when `n` is 0. |
| Hex.ToHexNotDelimiters | chunkable_http_server.py:175 | The size field written holds no LF, CR or `;`. |
| Hex.HexValueOfToHex | chunkable_http_server.py:175 | The digits written for `n` have the value `n`. |
| Hex.ToHexLengthMonotone | chunkable_http_server.py:171-175 | A smaller fragment never has a longer size field, so `chunk_max_size` bounds every size line. |
| Hex.Scan | chunkable_http_server.py:115 | The automaton of `int(s, 16)`, one byte at a time. `Hex.ScanTrailingSound`, `Hex.ScanDigitsSound`, `Hex.ScanAfterSignSound` and `Hex.ScanLeadSound` state what each of its states accepts. |
| Hex.ScanLeadSound | chunkable_http_server.py:115 | What the scan accepts from any index splits into white space, a sign, white space, a base prefix, one or more digits and white space up to the end. Its value is that of the digits under the sign. |
| Hex.ParseHex | chunkable_http_server.py:115 | `int(s, 16)`. Its partners are `Hex.ParseHexComplete` (every literal is accepted), `Hex.ParseHexSound` (whatever it accepts is a whole literal) and `Hex.StrayByteRejected`. |
| Hex.ScanComplete | chunkable_http_server.py:115 | A literal laid out at five cut points of a field is accepted, with its digits' value under its sign. |
| Hex.ParseHexComplete | chunkable_http_server.py:115 | Every literal of white space, a sign, white space, a `0x`/`0X` prefix, one or more digits and white space is accepted. Its value is the digits' value under the sign, so ` 5`, `-5`, `- 5` and `0x1F` are read as `int` reads them. |
| Hex.ParseHexSound | chunkable_http_server.py:115 | Whatever `int(s, 16)` accepts is white space, a sign, white space, a `0x`/`0X` prefix, one or more digits and white space, and nothing else. The value is the digits' value under the sign. Misplaced bytes of the literal's own alphabet, as in `5x` or `0x`, are refused. |
| Hex.ParseHexDigits | chunkable_http_server.py:115 | `int(d + spaces, 16)` is the value of the digits `d`. |
| Hex.ParseHexOfToHexLine | chunkable_http_server.py:115 | `int(hex(n)[2:] + CRLF, 16)` is `n`. `int` reads back what the encoder writes, with its CRLF still attached. |
| Hex.StrayByteRejected | chunkable_http_server.py:115 | A field holding a byte that no base-16 literal can hold is refused by `int(s, 16)`. |
| ChunkDecoder.HandlerSettings | chunkable_http_server.py:42-45 | What the decoder runs with in the handler: `HeaderSize`, `max_content_size` and `chunk_header_length`. `ChunkDecoder.HandlerReadsLastChunk` and `ChunkCodec.HandlerReadsSizeLines` state how it reads size lines. |
| ChunkDecoder.BeforeSemicolon | chunkable_http_server.py:114 | `line.split(';', 1)[0]`. `ChunkDecoder.BeforeSemicolonPrefix` characterises it completely. |
| ChunkDecoder.HeaderSize | chunkable_http_server.py:114-115 | `int(line.split(';', 1)[0], 16)`. Its partners are `ChunkDecoder.PlainHeaderSize` and `ChunkDecoder.ExtensionHeaderSize` (digits with or without an extension announce their value), and `ChunkDecoder.StrayByteFails`. |
| ChunkDecoder.BeforeSemicolonPrefix | chunkable_http_server.py:114 | `split(';', 1)[0]` is a prefix of the line with no `;` in it, and it ends at the first `;` or at the end of the line. |
| ChunkDecoder.BeforeSemicolonSplit | chunkable_http_server.py:114 | A line `a;b` with no `;` in `a` gives `a`. |
| ChunkDecoder.BeforeSemicolonNone | chunkable_http_server.py:114 | A line with no `;` is kept whole. |
| ChunkDecoder.ChunkLoop | chunkable_http_server.py:98-140 | The chunk loop only moves the cursor forward, and never past the end of the stream. |
| ChunkDecoder.HeaderStep | chunkable_http_server.py:105-120 | Deciding on a header line leaves the cursor at or after the line's end. |
| ChunkDecoder.DataStep | chunkable_http_server.py:125-140 | Reading a chunk and its tail leaves the cursor at or after where the data starts. |
| ChunkDecoder.TrailerLoop | chunkable_http_server.py:143-153 | The trailer loop only moves the cursor forward, and never past the end of the stream. |
| ChunkDecoder.Decode | chunkable_http_server.py:95-153 | A decode from the start of the stream stops within it. |
| ChunkDecoder.PlainHeaderSize | chunkable_http_server.py:114-115 | The header line `digits CRLF` announces the value of the digits. |
| ChunkDecoder.ExtensionHeaderSize | chunkable_http_server.py:114-115 | The header line `digits ; ext CRLF` announces the value of the digits, whatever the extension. |
| ChunkDecoder.BareCrlfEndsChunks | chunkable_http_server.py:107-111 | A bare CRLF header line ends the chunk loop, and the trailer loop goes on right after it with what was gathered. |
| ChunkDecoder.HandlerReadsLastChunk | chunkable_http_server.py:114-118 | The handler reads the last-chunk line `0 CRLF` as size 0. |
| ChunkDecoder.ZeroSizeEndsChunks | chunkable_http_server.py:118-120 | A last-chunk line ends the chunk loop, and the trailer loop goes on right after it. |
| ChunkDecoder.ChunkLoopAtEof | chunkable_http_server.py:112-113 | Reaching the end of the stream where a chunk header is due is a connection reset. |
| ChunkDecoder.TrailerLoopAtEof | chunkable_http_server.py:150-151 | Reaching the end of the stream where a trailer line is due is a connection reset. |
| ChunkDecoder.TrailerLoopOutcome | chunkable_http_server.py:143-153 | The trailer loop either hands back the chunks gathered before it unchanged, or fails with a connection reset. |
| ChunkDecoder.TrailerSkipped | chunkable_http_server.py:143-153 | Any trailer lines followed by CRLF are skipped, and the chunks are returned with the cursor right after that CRLF. |
| ChunkDecoder.ChunkLoopOk | chunkable_http_server.py:136-140 | A successful chunk loop returns the chunks gathered before it followed by more. Every chunk is non-empty, and their total fits `max_content_size`. |
| ChunkDecoder.DecodeOk | chunkable_http_server.py:136-140 | A successful decode holds non-empty chunks whose total fits `max_content_size`. |
| ChunkDecoder.ShortChunkNotOk | chunkable_http_server.py:125-140 | A chunk that the stream cannot supply together with its two tail bytes and something after them never leads to success. This covers a negative size and data running into the end of the stream. The pass fails with TooLarge, or with a connection reset at the next header, and the cursor is at the end of the stream. |
| ChunkDecoder.StrayByteFails | chunkable_http_server.py:114-115 | A header line whose size field holds a byte no base-16 literal can hold fails with a bad size, with the cursor after that line. |
| ChunkDecoder.DataChunkPass | chunkable_http_server.py:125-140 | Any non-empty header line other than a bare CRLF that announces `n` bytes (`5 LF` as well as `5 CRLF`), followed by `n` bytes and two more, gives one of two results. If the running total goes past the limit, the result is TooLarge after the tail. Otherwise the loop goes on after the tail with the chunk appended. |
| ChunkDecoder.TrailerLoopShift | chunkable_http_server.py:143-153 | The trailer loop depends only on the bytes from the cursor on. |
| ChunkDecoder.ChunkLoopShift | chunkable_http_server.py:98-140 | The chunk loop depends only on the bytes from the cursor on. Its outcome is the same, and it stops the same distance on. |
| ChunkDecoder.ExtensionIgnored | chunkable_http_server.py:114-115 | A chunk-extension changes nothing but where the cursor stops, which is moved by the extension's length. |
| ChunkEncoder.FragmentCount | chunkable_http_server.py:172 | `bl`, with Python 2's integer division. `ChunkEncoder.FragmentCountIsCeiling` proves it is the ceiling of `len(c) / s`. |
| ChunkEncoder.Slice | chunkable_http_server.py:173 | `c[lo:hi]`, clamped at the end of the buffer as Python clamps it. `ChunkEncoder.FragmentsCover` proves the slices tile the buffer. |
| ChunkEncoder.Fragments | chunkable_http_server.py:173 | `c_frag`. `ChunkEncoder.FragmentsCover` states its sizes and that it joins back to the buffer. |
| ChunkEncoder.Frame | chunkable_http_server.py:175-176 | One write: the fragment's length in lower-case hex, CRLF, the fragment, CRLF. `ChunkCodec.FrameLayout` and `ChunkCodec.FrameStep` state that the decoder reads it as one chunk. |
| ChunkEncoder.Frames | chunkable_http_server.py:174-176 | The writes of the inner loop, in order. `ChunkEncoder.FramesAppend` and `ChunkCodec.ChunkLoopFrames` are its partners. |
| ChunkEncoder.AllFragments | chunkable_http_server.py:170-173 | The fragments of all buffers, in order. `ChunkEncoder.AllFragmentsCover` states that they join back to the payload, each holding 1 to `s` bytes. |
| ChunkEncoder.EncodeBody | chunkable_http_server.py:170-184 | The intended body: all frames, then `0 CRLF CRLF`. `ChunkCodec.RoundTrip` decodes it back to the payload. |
| ChunkEncoder.EncodeBodyAsWritten | chunkable_http_server.py:170-181 | The body the source writes: only the first frame, or `0 CRLF CRLF` when there is no fragment. `ChunkCodec.AsWrittenBodyIsCut` proves the decoder fails on it. |
| ChunkEncoder.FragmentCountIsCeiling | chunkable_http_server.py:172 | The number of fragments, `bl`, is the ceiling of `len(c) / s`, and it is 0 exactly for an empty buffer. |
| ChunkEncoder.FragmentsCover | chunkable_http_server.py:172-173 | The fragments of a buffer put back together are the buffer. Each fragment is `s` bytes long except the last, which has between 1 and `s` bytes. An empty buffer has none. |
| ChunkEncoder.FlattenFragments | chunkable_http_server.py:173 | The first `k` fragments put together are the first `k * s` bytes of the buffer. |
| ChunkEncoder.AllFragmentsCover | chunkable_http_server.py:170-173 | The fragments of all buffers put together are all the payload, and each has between 1 and `s` bytes. |
| ChunkEncoder.FramesAppend | chunkable_http_server.py:174-176 | Framing two lists of fragments one after the other is framing their concatenation. |
| ChunkCodec.HandlerReadsSizeLines | chunkable_http_server.py:114-115 | The handler reads every size line the encoder writes as the number written. |
| ChunkCodec.FrameLayout | chunkable_http_server.py:176 | A frame read at the cursor is a size line within the limit, then the fragment, then two bytes. |
| ChunkCodec.FrameStep | chunkable_http_server.py:125-140 | One frame is one pass of the chunk loop: TooLarge if it overruns the limit, otherwise the loop goes on after it with the fragment gathered. |
| ChunkCodec.ChunkLoopFrames | chunkable_http_server.py:98-140 | A run of frames within the limit is read as its fragments, in order, leaving the cursor after the run. |
| ChunkCodec.FramesRead | chunkable_http_server.py:98-140 | The same, with the cursor and the gathered state after the run named by the caller. |
| ChunkCodec.ChunkLoopFramesTooLarge | chunkable_http_server.py:136-140 | A run of frames whose total passes the limit fails with TooLarge. |
| ChunkCodec.DecodeTooLarge | chunkable_http_server.py:136-140 | A body of frames larger than `max_content_size` is refused with TooLarge. |
| ChunkCodec.EncodedFramable | chunkable_http_server.py:171-176 | Every fragment the encoder makes is non-empty, and its size line fits the limit and reads back as its length. |
| ChunkCodec.LastChunkEnds | chunkable_http_server.py:118-149 | `0 CRLF CRLF` ends a decode successfully with the chunks gathered so far, with the cursor after it. |
| ChunkCodec.DecodeFramed | chunkable_http_server.py:95-153 | Frames followed by `0 CRLF CRLF` decode to exactly those fragments, consuming the whole input. |
| ChunkCodec.RoundTrip | chunkable_http_server.py:170-184 | The decoder reads what the corrected `send_chunked` loop writes (`EncodeBody`) back as its fragments, consuming the whole body, when the payload fits `max_content_size` and the size lines fit `chunk_header_length`. The fragments put together are the payload. |
| ChunkCodec.OneFrameThenEof | chunkable_http_server.py:112-113 | A single frame with nothing after it ends in a connection reset. |
| ChunkCodec.AsWrittenBodyIsCut | chunkable_http_server.py:179-181 | The body as written, cut off by the exception after its first frame, differs from the intended body, and the decoder fails on it with a connection reset. |
| ChunkSamples.DecodeHello | chunkable_http_server.py:95-153 | `5 CRLF hello CRLF 0 CRLF CRLF` decodes to the one chunk `hello`. |
| ChunkSamples.DecodeLfHeader | chunkable_http_server.py:105-140 | `5 LF hello CRLF 0 CRLF CRLF` decodes to the one chunk `hello`: a size line ended by a bare LF is read like one ended by CRLF. |
| ChunkSamples.DecodeEmpty | chunkable_http_server.py:95-153 | `0 CRLF CRLF` decodes to no chunks. |
| ChunkSamples.EncodeHelloWorld | chunkable_http_server.py:170-184 | `hello` and `world` with `chunk_max_size` 3 are written as the frames `hel`, `lo`, `wor`, `ld`, then `0 CRLF CRLF`. |

## Left out

- The reader thread and its timeout in `read_chunked` (lines 85-93) are left out, because they involve concurrency and a wall clock. `chunk_read_timeout` is validated and stored, but nothing reads it. The file never imports `threading` (its imports are lines 8-13), so line 89 raises NameError before `__read_chunked` runs. The model describes `__read_chunked` as it would run once started.
- The header check in `read_chunked` (lines 86-88), `read_content` (lines 71-83), `read_somehow` (lines 156-160), `do_PUT` (lines 68-69) and the `__main__` block (lines 191-193) are left out. They dispatch to the codec and are not part of it.
- `post_read` (line 154), `send_response`, `send_header` and `end_headers` (lines 163-168 and 186) are left out. They belong to `TinyHTTPHandler`, and tiny_http_server.py is not part of this model. `ReadChunked` returns the outcome instead of calling `post_read`.
- Lines 65-66 call the base class constructor and `set_server_version`. tiny_http_server.py is not part of this model.
- Handler.ChunkableHandler.SendChunked: the method models the loop without the debug log line of lines 179-181, so it writes the whole body. The source raises TypeError there after the first frame. `ChunkEncoder.EncodeBodyAsWritten` is the body the source writes, and `ChunkCodec.AsWrittenBodyIsCut` states what the decoder makes of it.
- Logging is left out, except for the exception that the debug log at lines 179-181 raises, which is under Findings.
- Read and write errors of the socket other than the end of the stream are left out.
- Handler.ChunkableHandler.Init: only `bool` and `int` keyword values are modelled. A float, a string or any other object, which Python 2 also compares with `>` and `in`, is not modelled.
- Handler.ChunkableHandler.Init: `force_chunked` is stored as a boolean. The source stores the object given, so `1` stays `1`.
- A subclass overriding the class attributes is not modelled. `max_content_size` and `chunk_header_length` are the class defaults, and `chunk_tail_buffer` is declared but unused, as in the source.
- Python 2's switch from `int` to `long` is not modelled, because Dafny integers are unbounded.

## Findings

| source | as written | input that shows it | evidently intended | confidence | as-written member | corrected member |
|---|---|---|---|---|---|---|
| chunkable_http_server.py:179-181 | The debug log line is `" ".join(list, '\n')`. `str.join` takes one argument, so this raises TypeError after the first frame is written, whatever the log level. The rest of the fragments, the last-chunk and the trailer are never written. | `msg_list = ["hello"]` with `chunk_max_size` 512: `wfile` gets `5 CRLF hello CRLF` and the exception propagates. The peer's decoder then reaches the end of the stream where a header is due. | Every frame, then `0 CRLF CRLF`: the body `ChunkEncoder.EncodeBody`, which the handler's decoder reads back. | high; not executed | ChunkCodec.AsWrittenBodyIsCut | ChunkCodec.RoundTrip |
