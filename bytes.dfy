/**
 * Octets and byte strings. The server runs on Python 2, where `str` is a
 * string of 8-bit characters; a byte is therefore a character below 256,
 * which lets byte strings be written as ordinary string literals.
 */
module Bytes {

  type byte = c: char | c as int < 256

  const CR: byte := '\r'
  const LF: byte := '\n'
  const CRLF: seq<byte> := "\r\n"

  /** The last-chunk line: a chunk size of 0 and no extension. */
  const LastChunk: seq<byte> := "0\r\n"

  /** Concatenation regroups freely. */
  lemma AppendAssoc(x: seq<byte>, y: seq<byte>, z: seq<byte>)
    ensures x + (y + z) == (x + y) + z
  {
  }

  /** The buffers of a list laid end to end, in order (Python's `''.join`). */
  function Flatten(bufs: seq<seq<byte>>): seq<byte>
  {
    if bufs == [] then [] else Flatten(bufs[..|bufs| - 1]) + bufs[|bufs| - 1]
  }

  lemma FlattenSingle(b: seq<byte>)
    ensures Flatten([b]) == b
  {
    assert [b][..0] == [];
  }

  /** Joining two lists of buffers is joining each and concatenating. */
  lemma {:induction false} FlattenAppend(a: seq<seq<byte>>, b: seq<seq<byte>>)
    ensures Flatten(a + b) == Flatten(a) + Flatten(b)
    decreases |b|
  {
    if b == [] {
      assert a + b == a;
    } else {
      var b' := b[..|b| - 1];
      assert (a + b)[..|a + b| - 1] == a + b';
      FlattenAppend(a, b');
    }
  }
}
