/**
 * Base-16 text: the chunk-size field of section 4.1 of RFC 7230.
 *
 * `ToHex` is what the encoder writes, `hex(n)[2:]`: lower-case digits, no
 * `0x` prefix, no leading zero. `ParseHex` is what the decoder accepts,
 * Python 2's `int(s, 16)`: optional white space, an optional sign, optional
 * white space, an optional `0x`/`0X` prefix (taken only when a digit follows
 * it), one or more digits of either case, optional white space, nothing else.
 */
module Hex {
  import opened Bytes
  import opened Wrappers

  predicate IsHexDigit(c: byte)
  {
    '0' <= c <= '9' || 'a' <= c <= 'f' || 'A' <= c <= 'F'
  }

  predicate AllHexDigits(d: seq<byte>)
  {
    forall i :: 0 <= i < |d| ==> IsHexDigit(d[i])
  }

  /** White space as C's `isspace` sees it: space, HT, LF, VT, FF, CR. */
  predicate IsSpace(c: byte)
  {
    c == ' ' || c == '\t' || c == '\n' || c == '\r' || c as int == 11 || c as int == 12
  }

  predicate AllSpaces(t: seq<byte>)
  {
    forall i :: 0 <= i < |t| ==> IsSpace(t[i])
  }

  /** The value of one digit; upper- and lower-case letters are worth the same. */
  function DigitValue(c: byte): (v: nat)
    requires IsHexDigit(c)
    ensures v < 16
    ensures '0' <= c <= '9' ==> v == c as int - '0' as int
    ensures 'a' <= c <= 'f' ==> v == c as int - 'a' as int + 10
    ensures 'A' <= c <= 'F' ==> v == c as int - 'A' as int + 10
  {
    if '0' <= c <= '9' then c as int - '0' as int
    else if 'a' <= c <= 'f' then c as int - 'a' as int + 10
    else c as int - 'A' as int + 10
  }

  /** Digits are neither line delimiters nor the `;` before a chunk-extension. */
  lemma HexDigitsAreNotDelimiters(d: seq<byte>)
    requires AllHexDigits(d)
    ensures LF !in d && CR !in d && ';' !in d
  {
    assert forall i :: 0 <= i < |d| ==> d[i] != LF && d[i] != CR && d[i] != ';';
  }

  /** The number a string of digits denotes, most significant digit first. */
  function HexValue(d: seq<byte>): nat
    requires AllHexDigits(d)
  {
    if d == [] then 0 else HexValue(d[..|d| - 1]) * 16 + DigitValue(d[|d| - 1])
  }

  /** The lower-case digit for a value below 16. */
  function LowerDigit(v: nat): byte
    requires v < 16
  {
    if v < 10 then ('0' as int + v) as char else ('a' as int + v - 10) as char
  }

  /** The lower-case digit is a digit, not an upper-case letter, and worth `v`. */
  lemma LowerDigitValue(v: nat)
    requires v < 16
    ensures var c := LowerDigit(v); IsHexDigit(c) && !('A' <= c <= 'F') && DigitValue(c) == v
  {
  }

  /** `hex(n)[2:]`: the lower-case base-16 text of `n`. */
  function ToHex(n: nat): (h: seq<byte>)
    ensures |h| >= 1
  {
    if n < 16 then [LowerDigit(n)] else ToHex(n / 16) + [LowerDigit(n % 16)]
  }

  /** `ToHex` writes lower-case digits only, and a leading `0` only for zero itself. */
  lemma {:induction false} ToHexForm(n: nat)
    ensures var h := ToHex(n);
      && AllHexDigits(h) && (forall i :: 0 <= i < |h| ==> !('A' <= h[i] <= 'F'))
      && (h[0] == '0' <==> n == 0)
  {
    if n < 16 {
      LowerDigitValue(n);
    } else {
      ToHexForm(n / 16);
      LowerDigitValue(n % 16);
      var h, h' := ToHex(n), ToHex(n / 16);
      assert h == h' + [LowerDigit(n % 16)];
      assert forall i :: 0 <= i < |h'| ==> h[i] == h'[i];
    }
  }

  /** The text `ToHex` writes holds neither line delimiters nor `;`. */
  lemma {:induction false} ToHexNotDelimiters(n: nat)
    ensures LF !in ToHex(n) && CR !in ToHex(n) && ';' !in ToHex(n)
  {
    ToHexForm(n);
    HexDigitsAreNotDelimiters(ToHex(n));
  }

  /** Reading back what `ToHex` writes gives the number. */
  lemma {:induction false} HexValueOfToHex(n: nat)
    ensures AllHexDigits(ToHex(n)) && HexValue(ToHex(n)) == n
  {
    ToHexForm(n);
    if n < 16 {
      LowerDigitValue(n);
    } else {
      LowerDigitValue(n % 16);
      var h := ToHex(n);
      assert h[..|h| - 1] == ToHex(n / 16);
      ToHexForm(n / 16);
      HexValueOfToHex(n / 16);
    }
  }

  /** A larger number never has a shorter text. */
  lemma {:induction false} ToHexLengthMonotone(a: nat, b: nat)
    requires a <= b
    ensures |ToHex(a)| <= |ToHex(b)|
  {
    if a >= 16 {
      ToHexLengthMonotone(a / 16, b / 16);
    }
  }

  /**
   * Where the scan of a size field stands: before the sign, after it (white
   * space is skipped in both), among the digits, or in the white space after
   * them.
   */
  datatype ScanState = Lead | AfterSign | InDigits | Trailing

  /** How many states the scan may still pass through without reading a byte. */
  function StatesLeft(st: ScanState): nat
  {
    match st
    case Lead => 3
    case AfterSign => 2
    case InDigits => 1
    case Trailing => 0
  }

  /** A `0x`/`0X` prefix at `i`, taken only when a digit follows it. */
  predicate PrefixAt(t: seq<byte>, i: nat)
  {
    i + 2 < |t| && t[i] == '0' && (t[i + 1] == 'x' || t[i + 1] == 'X') && IsHexDigit(t[i + 2])
  }

  /**
   * The scan of `int(t, 16)` from index `i`, one byte at a time: `neg` is the
   * sign read so far, `acc` the value of the digits read so far, `seen`
   * whether there was at least one. `None` where `int` raises ValueError:
   * no digit, or any byte out of place.
   */
  function Scan(t: seq<byte>, i: nat, st: ScanState, neg: bool, acc: nat, seen: bool): Option<int>
    requires i <= |t|
    decreases |t| - i, StatesLeft(st)
  {
    match st
    case Lead =>
      if i < |t| && IsSpace(t[i]) then Scan(t, i + 1, Lead, neg, acc, seen)
      else if i < |t| && (t[i] == '+' || t[i] == '-') then Scan(t, i + 1, AfterSign, t[i] == '-', acc, seen)
      else if PrefixAt(t, i) then Scan(t, i + 2, InDigits, neg, acc, seen)
      else Scan(t, i, InDigits, neg, acc, seen)
    case AfterSign =>
      if i < |t| && IsSpace(t[i]) then Scan(t, i + 1, AfterSign, neg, acc, seen)
      else if PrefixAt(t, i) then Scan(t, i + 2, InDigits, neg, acc, seen)
      else Scan(t, i, InDigits, neg, acc, seen)
    case InDigits =>
      if i < |t| && IsHexDigit(t[i]) then Scan(t, i + 1, InDigits, neg, acc * 16 + DigitValue(t[i]), true)
      else if !seen then None
      else Scan(t, i, Trailing, neg, acc, seen)
    case Trailing =>
      if i == |t| then Some(if neg then -(acc as int) else acc)
      else if IsSpace(t[i]) then Scan(t, i + 1, Trailing, neg, acc, seen)
      else None
  }

  /**
   * Python 2's `int(t, 16)`: white space, an optional sign, white space, an
   * optional `0x`/`0X` before a digit, one or more digits of either case,
   * white space; `None` where it raises ValueError. Values are unbounded, as
   * Python 2 turns an overflowing `int` into a `long`.
   */
  function ParseHex(t: seq<byte>): Option<int>
  {
    Scan(t, 0, Lead, false, 0, false)
  }

  /** Trailing white space up to the end is accepted and the value delivered. */
  lemma {:induction false} ScanTrailing(t: seq<byte>, i: nat, neg: bool, acc: nat, seen: bool)
    requires i <= |t| && forall j :: i <= j < |t| ==> IsSpace(t[j])
    ensures Scan(t, i, Trailing, neg, acc, seen) == Some(if neg then -(acc as int) else acc)
    decreases |t| - i
  {
    if i < |t| {
      ScanTrailing(t, i + 1, neg, acc, seen);
    }
  }

  /** The digits of `d` are read one by one, most significant first. */
  lemma {:induction false} ScanDigits(d: seq<byte>, tail: seq<byte>, j: nat)
    requires AllHexDigits(d) && 0 < j <= |d|
    requires tail != [] ==> !IsHexDigit(tail[0])
    ensures Scan(d + tail, j, InDigits, false, HexValue(d[..j]), true)
         == Scan(d + tail, |d|, Trailing, false, HexValue(d), true)
    decreases |d| - j
  {
    var t := d + tail;
    if j < |d| {
      assert t[j] == d[j];
      assert d[..j + 1][..j] == d[..j];
      ScanDigits(d, tail, j + 1);
    } else {
      assert d[..j] == d;
      if tail != [] { assert t[|d|] == tail[0]; }
    }
  }

  /** Digits of either case followed by white space (such as the line's CRLF) parse to their value. */
  lemma {:induction false} ParseHexDigits(d: seq<byte>, tail: seq<byte>)
    requires d != [] && AllHexDigits(d) && AllSpaces(tail)
    ensures ParseHex(d + tail) == Some(HexValue(d))
  {
    var t := d + tail;
    assert t[0] == d[0];
    assert !PrefixAt(t, 0) by {
      if |t| > 1 {
        if |d| > 1 { assert t[1] == d[1]; } else { assert t[1] == tail[0]; }
      }
    }
    assert HexValue(d[..1]) == DigitValue(d[0]) by {
      assert d[..1][..0] == [];
    }
    assert ParseHex(t) == Scan(t, 0, InDigits, false, 0, false);
    assert Scan(t, 0, InDigits, false, 0, false) == Scan(t, 1, InDigits, false, HexValue(d[..1]), true);
    ScanDigits(d, tail, 1);
    ScanTrailing(t, |d|, false, HexValue(d), true) by {
      forall j | |d| <= j < |t| ensures IsSpace(t[j]) {
        assert t[j] == tail[j - |d|];
      }
    }
  }

  /** The encoder's size field, as the decoder's header line carries it, reads back as the size. */
  lemma {:induction false} ParseHexOfToHexLine(n: nat)
    ensures ParseHex(ToHex(n) + CRLF) == Some(n)
  {
    ToHexForm(n);
    ParseHexDigits(ToHex(n), CRLF);
    HexValueOfToHex(n);
  }

  /** The sign `int` reads: none, `+` or `-`. */
  predicate IsSign(sg: seq<byte>)
  {
    sg == [] || sg == "+" || sg == "-"
  }

  /** The base prefix `int(s, 16)` skips: none, `0x` or `0X`. */
  predicate IsBasePrefix(p: seq<byte>)
  {
    p == [] || p == "0x" || p == "0X"
  }

  /** The value of a field with sign `sg` and digits `d`. */
  function SignedValue(sg: seq<byte>, d: seq<byte>): int
    requires AllHexDigits(d)
  {
    if sg == "-" then -(HexValue(d) as int) else HexValue(d)
  }

  /** The bytes of `t` from `lo` up to `hi` are white space. */
  predicate SpacesIn(t: seq<byte>, lo: nat, hi: nat)
    requires lo <= hi <= |t|
  {
    forall k :: lo <= k < hi ==> IsSpace(t[k])
  }

  /** What the trailing white space scan accepts is white space up to the end. */
  lemma {:induction false} ScanTrailingSound(t: seq<byte>, i: nat, neg: bool, acc: nat, seen: bool, v: int)
    requires i <= |t| && Scan(t, i, Trailing, neg, acc, seen) == Some(v)
    ensures SpacesIn(t, i, |t|) && v == (if neg then -(acc as int) else acc)
    decreases |t| - i
  {
    if i < |t| {
      ScanTrailingSound(t, i + 1, neg, acc, seen, v);
    }
  }

  /** One more digit read: the digits so far grow by it and their value by a place. */
  lemma DigitsGrow(t: seq<byte>, j: nat, i: nat)
    requires j <= i < |t| && AllHexDigits(t[j..i]) && IsHexDigit(t[i])
    ensures AllHexDigits(t[j..i + 1])
    ensures HexValue(t[j..i + 1]) == HexValue(t[j..i]) * 16 + DigitValue(t[i])
  {
    assert t[j..i + 1][..i - j] == t[j..i];
    assert t[j..i + 1][i - j] == t[i];
  }

  /**
   * What the digit scan accepts, with the digits read so far starting at `j`:
   * more digits up to some `e`, at least one in all, then white space up to
   * the end; the value is that of all the digits.
   */
  lemma {:induction false} ScanDigitsSound(t: seq<byte>, j: nat, i: nat, neg: bool, acc: nat, seen: bool, v: int)
    returns (e: nat)
    requires j <= i <= |t| && AllHexDigits(t[j..i]) && acc == HexValue(t[j..i]) && (seen <==> j < i)
    requires Scan(t, i, InDigits, neg, acc, seen) == Some(v)
    ensures i <= e <= |t| && j < e && AllHexDigits(t[j..e]) && SpacesIn(t, e, |t|)
    ensures v == (if neg then -(HexValue(t[j..e]) as int) else HexValue(t[j..e]))
    decreases |t| - i
  {
    if i < |t| && IsHexDigit(t[i]) {
      DigitsGrow(t, j, i);
      e := ScanDigitsSound(t, j, i + 1, neg, acc * 16 + DigitValue(t[i]), true, v);
    } else {
      ScanTrailingSound(t, i, neg, acc, seen, v);
      e := i;
    }
  }

  /** What the scan accepts after the sign: white space, a prefix, the digits, white space. */
  lemma {:induction false} ScanAfterSignSound(t: seq<byte>, i: nat, neg: bool, v: int)
    returns (b: nat, p: nat, e: nat)
    requires i <= |t| && Scan(t, i, AfterSign, neg, 0, false) == Some(v)
    ensures i <= b <= p < e <= |t|
    ensures SpacesIn(t, i, b) && IsBasePrefix(t[b..p]) && AllHexDigits(t[p..e]) && SpacesIn(t, e, |t|)
    ensures v == (if neg then -(HexValue(t[p..e]) as int) else HexValue(t[p..e]))
    decreases |t| - i
  {
    if i < |t| && IsSpace(t[i]) {
      b, p, e := ScanAfterSignSound(t, i + 1, neg, v);
    } else if PrefixAt(t, i) {
      b, p := i, i + 2;
      assert t[b..p] == [t[i], t[i + 1]];
      assert t[p..p] == [];
      e := ScanDigitsSound(t, p, p, neg, 0, false, v);
    } else {
      b, p := i, i;
      assert t[p..p] == [];
      e := ScanDigitsSound(t, p, p, neg, 0, false, v);
    }
  }

  /** What the scan accepts from the start of a field, split at the ends of its parts. */
  lemma {:induction false} ScanLeadSound(t: seq<byte>, i: nat, v: int)
    returns (a: nat, sg: nat, b: nat, p: nat, e: nat)
    requires i <= |t| && Scan(t, i, Lead, false, 0, false) == Some(v)
    ensures i <= a <= sg <= b <= p < e <= |t|
    ensures SpacesIn(t, i, a) && IsSign(t[a..sg]) && SpacesIn(t, sg, b) && IsBasePrefix(t[b..p])
    ensures AllHexDigits(t[p..e]) && SpacesIn(t, e, |t|)
    ensures v == SignedValue(t[a..sg], t[p..e])
    decreases |t| - i
  {
    if i < |t| && IsSpace(t[i]) {
      a, sg, b, p, e := ScanLeadSound(t, i + 1, v);
    } else if i < |t| && (t[i] == '+' || t[i] == '-') {
      a, sg := i, i + 1;
      assert t[a..sg] == [t[i]];
      b, p, e := ScanAfterSignSound(t, i + 1, t[i] == '-', v);
    } else if PrefixAt(t, i) {
      a, sg, b, p := i, i, i, i + 2;
      assert t[b..p] == [t[i], t[i + 1]];
      assert t[p..p] == [];
      e := ScanDigitsSound(t, p, p, false, 0, false, v);
    } else {
      a, sg, b, p := i, i, i, i;
      assert t[p..p] == [];
      e := ScanDigitsSound(t, p, p, false, 0, false, v);
    }
  }

  /** White space between two indices is white space as a slice. */
  lemma SpacesInSlice(t: seq<byte>, lo: nat, hi: nat)
    requires lo <= hi <= |t| && SpacesIn(t, lo, hi)
    ensures AllSpaces(t[lo..hi])
  {
  }

  /** A sequence is the concatenation of its slices between five cut points. */
  lemma SliceSix(t: seq<byte>, i1: nat, i2: nat, i3: nat, i4: nat, i5: nat)
    requires i1 <= i2 <= i3 <= i4 <= i5 <= |t|
    ensures t == t[..i1] + t[i1..i2] + t[i2..i3] + t[i3..i4] + t[i4..i5] + t[i5..]
  {
    assert t[..i1] + t[i1..i2] == t[..i2];
    assert t[..i2] + t[i2..i3] == t[..i3];
    assert t[..i3] + t[i3..i4] == t[..i4];
    assert t[..i4] + t[i4..i5] == t[..i5];
    assert t[..i5] + t[i5..] == t;
  }

  /**
   * The parts of a base-16 literal as `int(s, 16)` accepts it: white space, a
   * sign, white space, a base prefix, one or more digits, white space.
   */
  predicate HexLiteral(a: seq<byte>, sg: seq<byte>, b: seq<byte>, p: seq<byte>, d: seq<byte>, c: seq<byte>)
  {
    AllSpaces(a) && IsSign(sg) && AllSpaces(b) && IsBasePrefix(p) && d != [] && AllHexDigits(d) && AllSpaces(c)
  }

  /**
   * Whatever `int(t, 16)` accepts is a whole literal, and nothing else; its
   * value is that of the digits under the sign. A misplaced byte of the
   * literal's own alphabet (`5x`, `5 5`, `1-2`, `0x`) is refused.
   */
  lemma {:induction false} ParseHexSound(t: seq<byte>, v: int)
    requires ParseHex(t) == Some(v)
    ensures exists a, sg, b, p, d, c ::
              && t == a + sg + b + p + d + c
              && HexLiteral(a, sg, b, p, d, c) && v == SignedValue(sg, d)
  {
    var ia, isg, ib, ip, ie := ScanLeadSound(t, 0, v);
    SpacesInSlice(t, 0, ia);
    SpacesInSlice(t, isg, ib);
    SpacesInSlice(t, ie, |t|);
    SliceSix(t, ia, isg, ib, ip, ie);
    var a, sg, b, p, d, c := t[..ia], t[ia..isg], t[isg..ib], t[ib..ip], t[ip..ie], t[ie..];
    assert HexLiteral(a, sg, b, p, d, c);
    assert t == a + sg + b + p + d + c && v == SignedValue(sg, d);
  }

  /** White space is never a digit. */
  lemma SpaceIsNotDigit(c: byte)
    requires IsSpace(c)
    ensures !IsHexDigit(c) && c != 'x' && c != 'X' && c != '+' && c != '-'
  {
  }

  /** Before the sign, white space is skipped. */
  lemma {:induction false} LeadSkip(t: seq<byte>, i: nat, j: nat, neg: bool, acc: nat, seen: bool)
    requires i <= j <= |t| && SpacesIn(t, i, j)
    ensures Scan(t, i, Lead, neg, acc, seen) == Scan(t, j, Lead, neg, acc, seen)
    decreases j - i
  {
    if i < j {
      LeadSkip(t, i + 1, j, neg, acc, seen);
    }
  }

  /** After the sign, white space is skipped. */
  lemma {:induction false} AfterSignSkip(t: seq<byte>, i: nat, j: nat, neg: bool, acc: nat, seen: bool)
    requires i <= j <= |t| && SpacesIn(t, i, j)
    ensures Scan(t, i, AfterSign, neg, acc, seen) == Scan(t, j, AfterSign, neg, acc, seen)
    decreases j - i
  {
    if i < j {
      AfterSignSkip(t, i + 1, j, neg, acc, seen);
    }
  }

  /** Inside a run of digits, each byte is a digit and the run up to it is digits. */
  lemma DigitAt(t: seq<byte>, p: nat, e: nat, i: nat)
    requires p <= i < e <= |t| && AllHexDigits(t[p..e])
    ensures IsHexDigit(t[i]) && AllHexDigits(t[p..i])
  {
    assert t[i] == t[p..e][i - p];
    assert forall k :: 0 <= k < i - p ==> t[p..i][k] == t[p..e][k];
  }

  /**
   * Digits from `p` to `e`, then white space to the end, read from any `i`
   * in between under either sign: the value is that of all the digits.
   */
  lemma {:induction false} DigitsFrom(t: seq<byte>, p: nat, i: nat, e: nat, neg: bool)
    requires p <= i <= e <= |t| && p < e && AllHexDigits(t[p..e]) && SpacesIn(t, e, |t|)
    ensures AllHexDigits(t[p..i])
    ensures Scan(t, i, InDigits, neg, HexValue(t[p..i]), p < i)
         == Some(if neg then -(HexValue(t[p..e]) as int) else HexValue(t[p..e]))
    decreases e - i
  {
    if i < e {
      DigitAt(t, p, e, i);
      DigitsGrow(t, p, i);
      DigitsFrom(t, p, i + 1, e, neg);
    } else {
      if e < |t| {
        SpaceIsNotDigit(t[e]);
      }
      ScanTrailing(t, e, neg, HexValue(t[p..e]), true);
    }
  }

  /** From where the base prefix may start, in state `st`: the prefix is skipped and the digits read. */
  lemma {:induction false} PrefixThenDigits(t: seq<byte>, b: nat, p: nat, e: nat, st: ScanState, neg: bool)
    requires st == Lead || st == AfterSign
    requires b <= p < e <= |t| && IsBasePrefix(t[b..p]) && AllHexDigits(t[p..e]) && SpacesIn(t, e, |t|)
    requires st == Lead ==> !neg
    ensures Scan(t, b, st, neg, 0, false) == Some(if neg then -(HexValue(t[p..e]) as int) else HexValue(t[p..e]))
  {
    assert IsHexDigit(t[p]) by { assert t[p] == t[p..e][0]; }
    if p == b {
      if p + 1 < |t| {
        if p + 1 < e {
          assert t[p + 1] == t[p..e][1];
        } else {
          SpaceIsNotDigit(t[p + 1]);
        }
      }
      assert !PrefixAt(t, b);
    } else {
      assert t[b] == t[b..p][0] && t[b + 1] == t[b..p][1];
      assert PrefixAt(t, b);
    }
    assert t[p..p] == [];
    DigitsFrom(t, p, p, e, neg);
  }

  /** A literal laid out at five cut points of `t` is accepted with the digits' signed value. */
  lemma {:induction false} ScanComplete(t: seq<byte>, ia: nat, isg: nat, ib: nat, ip: nat, ie: nat)
    requires ia <= isg <= ib <= ip < ie <= |t|
    requires SpacesIn(t, 0, ia) && IsSign(t[ia..isg]) && SpacesIn(t, isg, ib) && IsBasePrefix(t[ib..ip])
    requires AllHexDigits(t[ip..ie]) && SpacesIn(t, ie, |t|)
    ensures ParseHex(t) == Some(SignedValue(t[ia..isg], t[ip..ie]))
  {
    if ia == isg {
      assert t[ia..isg] == [];
      LeadSkip(t, 0, ib, false, 0, false);
      PrefixThenDigits(t, ib, ip, ie, Lead, false);
    } else {
      var neg := t[ia] == '-';
      assert t[ia..isg] == [t[ia]];
      assert neg <==> t[ia..isg] == "-";
      LeadSkip(t, 0, ia, false, 0, false);
      AfterSignSkip(t, isg, ib, neg, 0, false);
      PrefixThenDigits(t, ib, ip, ie, AfterSign, neg);
    }
  }

  /**
   * The converse of `ParseHexSound`: every literal of that shape is accepted,
   * with the digits' value under the sign. Leading white space (` 5`), a sign
   * (`-5`, `- 5`) and a base prefix (`0x1F`) are all read as `int` reads them.
   */
  lemma {:induction false} ParseHexComplete(a: seq<byte>, sg: seq<byte>, b: seq<byte>, p: seq<byte>,
                                            d: seq<byte>, c: seq<byte>)
    requires HexLiteral(a, sg, b, p, d, c)
    ensures ParseHex(a + sg + b + p + d + c) == Some(SignedValue(sg, d))
  {
    var t := a + sg + b + p + d + c;
    var ia, isg := |a|, |a| + |sg|;
    var ib := isg + |b|;
    var ip := ib + |p|;
    var ie := ip + |d|;
    assert t[ia..isg] == sg && t[ib..ip] == p && t[ip..ie] == d;
    assert SpacesIn(t, 0, ia) by {
      forall k | 0 <= k < ia ensures IsSpace(t[k]) { assert t[k] == a[k]; }
    }
    assert SpacesIn(t, isg, ib) by {
      forall k | isg <= k < ib ensures IsSpace(t[k]) { assert t[k] == b[k - isg]; }
    }
    assert SpacesIn(t, ie, |t|) by {
      forall k | ie <= k < |t| ensures IsSpace(t[k]) { assert t[k] == c[k - ie]; }
    }
    ScanComplete(t, ia, isg, ib, ip, ie);
  }

  /** Only white space, signs, the `x` of a prefix and digits can appear in a size field `int` accepts. */
  predicate MayAppearInHexLiteral(c: byte)
  {
    IsSpace(c) || IsHexDigit(c) || c == '+' || c == '-' || c == 'x' || c == 'X'
  }

  /** The scan stops with `None` at a byte that cannot appear, wherever it stands ahead. */
  lemma {:induction false} ScanStray(t: seq<byte>, i: nat, st: ScanState, neg: bool, acc: nat, seen: bool, k: nat)
    requires i <= k < |t| && !MayAppearInHexLiteral(t[k])
    ensures Scan(t, i, st, neg, acc, seen) == None
    decreases |t| - i, StatesLeft(st)
  {
    match st
    case Lead =>
      if IsSpace(t[i]) {
        ScanStray(t, i + 1, Lead, neg, acc, seen, k);
      } else if t[i] == '+' || t[i] == '-' {
        ScanStray(t, i + 1, AfterSign, t[i] == '-', acc, seen, k);
      } else if PrefixAt(t, i) {
        ScanStray(t, i + 2, InDigits, neg, acc, seen, k);
      } else {
        ScanStray(t, i, InDigits, neg, acc, seen, k);
      }
    case AfterSign =>
      if IsSpace(t[i]) {
        ScanStray(t, i + 1, AfterSign, neg, acc, seen, k);
      } else if PrefixAt(t, i) {
        ScanStray(t, i + 2, InDigits, neg, acc, seen, k);
      } else {
        ScanStray(t, i, InDigits, neg, acc, seen, k);
      }
    case InDigits =>
      if IsHexDigit(t[i]) {
        ScanStray(t, i + 1, InDigits, neg, acc * 16 + DigitValue(t[i]), true, k);
      } else if seen {
        ScanStray(t, i, Trailing, neg, acc, seen, k);
      }
    case Trailing =>
      if IsSpace(t[i]) {
        ScanStray(t, i + 1, Trailing, neg, acc, seen, k);
      }
  }

  /** A size field holding any other byte is rejected outright, never read up to that byte. */
  lemma StrayByteRejected(t: seq<byte>, k: nat)
    requires k < |t| && !MayAppearInHexLiteral(t[k])
    ensures ParseHex(t) == None
  {
    ScanStray(t, 0, Lead, false, 0, false, k);
  }
}
