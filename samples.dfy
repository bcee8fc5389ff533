/** Worked samples of the wire format, each proved from the general lemmas. */
module ChunkSamples {
  import opened Wrappers
  import opened Bytes
  import opened Hex
  import opened Streams
  import opened ChunkDecoder
  import opened ChunkEncoder
  import opened ChunkCodec

  const Hello: seq<byte> := "hello"
  const World: seq<byte> := "world"

  /** One chunk `hello`, the last-chunk and the empty trailer. */
  const HelloWire: seq<byte> := "5\r\nhello\r\n0\r\n\r\n"

  /** `hello` and `world` cut into fragments of 3 bytes and framed, then the last-chunk and the empty trailer. */
  const HelloFrames: seq<byte> := "3\r\nhel\r\n2\r\nlo\r\n"
  const WorldFrames: seq<byte> := "3\r\nwor\r\n2\r\nld\r\n"
  const HelloWorldWire: seq<byte> := HelloFrames + WorldFrames + LastChunk + CRLF

  /** A body of one chunk `hello` decodes to that chunk and is read to its end. */
  lemma DecodeHello(maxContent: int)
    requires maxContent >= 5
    ensures Decode(HelloWire, maxContent, 128) == Decoded(Ok([Hello]), |HelloWire|)
  {
    var fs := [Hello];
    HandlerReadsSizeLines(5, maxContent, 128);
    FlattenSingle(Hello);
    HelloWireFrames();
    HandlerReadsLastChunk(maxContent, 128);
    DecodeFramed(HelloWire, fs, HandlerSettings(maxContent, 128));
  }

  /** A body that is only the last-chunk and the empty trailer decodes to no chunks. */
  lemma DecodeEmpty(maxContent: int, limit: nat)
    requires limit >= 3
    ensures Decode(LastChunk + CRLF, maxContent, limit) == Decoded(Ok([]), 5)
  {
    assert HasAt(LastChunk + CRLF, 0, LastChunk + CRLF);
    HandlerReadsLastChunk(maxContent, limit);
    LastChunkEnds(LastChunk + CRLF, 0, HandlerSettings(maxContent, limit), [], 0, 5);
  }

  /** A size line for 5 ended by a bare LF. */
  const LfFive: seq<byte> := "5\n"

  /** The body of `DecodeHello` with its size line ended by a bare LF. */
  const LfHelloWire: seq<byte> := LfFive + (Hello + CRLF) + (LastChunk + CRLF)

  /** `int` reads `5 LF` as 5, since LF is white space to it. */
  lemma LfFiveSize()
    ensures HeaderSize(LfFive) == Some(5) && LfFive != CRLF
  {
    assert LfFive == "5" + "\n";
    assert ';' !in LfFive;
    BeforeSemicolonNone(LfFive);
    assert HexValue("5") == 5;
    ParseHexDigits("5", "\n");
  }

  /** `readline` takes `5 LF` as a whole line, and `hello` follows it. */
  lemma LfHelloLayout()
    ensures LineEnd(LfHelloWire, 0, 128) == 2 && Between(LfHelloWire, 0, 2) == LfFive
    ensures Between(LfHelloWire, 2, 7) == Hello && HasAt(LfHelloWire, 9, LastChunk + CRLF)
    ensures |LfHelloWire| == 14
  {
    var s := LfHelloWire;
    assert s[0] != LF && s[1] == LF;
    assert Between(s, 0, 2) == LfFive;
    assert Between(s, 2, 7) == Hello;
    assert s[9..] == LastChunk + CRLF;
  }

  /** The pass over `5 LF hello CRLF` gathers `hello` and goes on at the last-chunk. */
  lemma LfHelloPass(cfg: Settings)
    requires cfg.sizeOf == HeaderSize && cfg.lineLimit == 128 && cfg.maxContent >= 5
    ensures ChunkLoop(LfHelloWire, 0, cfg, [], 0) == ChunkLoop(LfHelloWire, 9, cfg, [Hello], 5)
  {
    LfFiveSize();
    LfHelloLayout();
    DataChunkPass(LfHelloWire, 0, 2, Hello, cfg, [], 0);
    assert [] + [Hello] == [Hello];
  }

  /** A size line `5 LF` announces 5 bytes just as `5 CRLF` does: the body decodes to `hello`. */
  lemma DecodeLfHeader(maxContent: int)
    requires maxContent >= 5
    ensures Decode(LfHelloWire, maxContent, 128) == Decoded(Ok([Hello]), |LfHelloWire|)
  {
    var cfg := HandlerSettings(maxContent, 128);
    LfHelloPass(cfg);
    LfHelloLayout();
    HandlerReadsLastChunk(maxContent, 128);
    LastChunkEnds(LfHelloWire, 9, cfg, [Hello], 5, 14);
  }

  lemma HelloWireFrames()
    ensures HelloWire == Frames([Hello]) + (LastChunk + CRLF)
  {
    assert ToHex(5) == "5";
    FramesSingle(Hello);
  }

  /** A five-byte buffer cut at 3 bytes: the first three, then the last two. */
  lemma FragmentsOfFive(c: seq<byte>)
    requires |c| == 5
    ensures Fragments(c, 3) == [c[..3], c[3..]]
  {
    assert FragmentCount(5, 3) == 2;
    var fs := Fragments(c, 3);
    assert fs[0] == c[..3];
    assert fs[1] == Slice(c, 3, 6) == c[3..];
  }

  lemma AllFragmentsOfTwo(a: seq<byte>, b: seq<byte>, size: nat)
    requires size > 0
    ensures AllFragments([a, b], size) == Fragments(a, size) + Fragments(b, size)
  {
    assert [a][..0] == [];
    assert [] + Fragments(a, size) == Fragments(a, size);
    assert AllFragments([a], size) == Fragments(a, size);
    assert [a, b][..1] == [a];
  }

  lemma FramesOfFour(a: seq<byte>, b: seq<byte>, c: seq<byte>, d: seq<byte>)
    ensures Frames([a, b] + [c, d]) == Frame(a) + Frame(b) + (Frame(c) + Frame(d))
  {
    FramesAppend([a, b], [c, d]);
    FramesAppend([a], [b]);
    FramesAppend([c], [d]);
    FramesSingle(a);
    FramesSingle(b);
    FramesSingle(c);
    FramesSingle(d);
  }

  /** The fragments of `hello`, `world` at 3 bytes. */
  lemma HelloWorldFragments(hel: seq<byte>, lo: seq<byte>, wor: seq<byte>, ld: seq<byte>)
    requires hel == "hel" && lo == "lo" && wor == "wor" && ld == "ld"
    ensures AllFragments([Hello, World], 3) == [hel, lo] + [wor, ld]
  {
    FragmentsOfFive(Hello);
    FragmentsOfFive(World);
    assert Hello[..3] == hel && Hello[3..] == lo && World[..3] == wor && World[3..] == ld;
    AllFragmentsOfTwo(Hello, World, 3);
  }

  /** Those fragments framed. */
  lemma HelloWorldFrames(hel: seq<byte>, lo: seq<byte>, wor: seq<byte>, ld: seq<byte>)
    requires hel == "hel" && lo == "lo" && wor == "wor" && ld == "ld"
    ensures Frames([hel, lo] + [wor, ld]) == HelloFrames + WorldFrames
  {
    FramesOfFour(hel, lo, wor, ld);
    assert ToHex(3) == "3" && ToHex(2) == "2";
    assert Frame(hel) + Frame(lo) == HelloFrames;
    assert Frame(wor) + Frame(ld) == WorldFrames;
  }

  /** The payload `hello`, `world` with fragments of at most 3 bytes goes on the wire as `HelloWorldWire`. */
  lemma EncodeHelloWorld()
    ensures EncodeBody([Hello, World], 3) == HelloWorldWire
  {
    var hel, lo, wor, ld: seq<byte> := "hel", "lo", "wor", "ld";
    HelloWorldFragments(hel, lo, wor, ld);
    HelloWorldFrames(hel, lo, wor, ld);
  }
}
