/**
 Bytes, C strings and the hex digits shared by the text codecs (src/common.c). A C string is the
 sequence of its bytes before the terminator; reading at its end reads the terminator.
 */
module Bytes {

  type byte = x: int | 0 <= x < 256

  const NUL: byte := 0
  const TAB: byte := 9
  const LF: byte := 10
  const CR: byte := 13
  const ESC: byte := 27
  const SPACE: byte := 32
  const DQUOTE: byte := 34
  const SQUOTE: byte := 39
  const COMMA: byte := 44
  const MINUS: byte := 45
  const ZERO: byte := 48
  const UPPER_P: byte := 80
  const BACKSLASH: byte := 92
  const LOWER_E: byte := 101
  const LOWER_N: byte := 110
  const LOWER_R: byte := 114
  const LOWER_T: byte := 116
  const LOWER_X: byte := 120

  predicate NulFree(s: seq<byte>) {
    NUL !in s
  }

  /** The byte of a C string at i; the terminator is at |s|. */
  function At(s: seq<byte>, i: nat): byte {
    if i < |s| then s[i] else NUL
  }

  lemma SplitAt(s: seq<byte>, i: nat)
    requires i <= |s|
    ensures s == s[..i] + s[i..]
  {
  }

  lemma AppendNothing(s: seq<byte>)
    ensures s + [] == s
  {
  }

  lemma DropDrop(s: seq<byte>, i: nat, j: nat)
    requires i <= j <= |s|
    ensures s[i..][j - i..] == s[j..]
  {
  }

  /** hex2num */
  function HexToNum(c: byte): int {
    if 48 <= c <= 57 then c - 48
    else if 97 <= c <= 102 then c - 97 + 10
    else if 65 <= c <= 70 then c - 65 + 10
    else -1
  }

  /** hex2byte: the value of the two hex digits at i, or -1; the second is only read after a good first. */
  function HexToByte(s: seq<byte>, i: nat): int {
    var a := HexToNum(At(s, i));
    if a < 0 then -1
    else
      var b := HexToNum(At(s, i + 1));
      if b < 0 then -1 else a * 16 + b
  }

  /** One lower-case or upper-case hex digit. */
  function HexDigit(v: int, upper: bool): byte
    requires 0 <= v < 16
  {
    if v < 10 then 48 + v else if upper then 65 + v - 10 else 97 + v - 10
  }

  /** What "%02x" or "%02X" prints. */
  function HexPair(b: byte, upper: bool): (r: seq<byte>)
    ensures |r| == 2 && NulFree(r)
  {
    [HexDigit(b / 16 % 16, upper), HexDigit(b % 16, upper)]
  }

  /** Reading back a printed pair gives the byte, in either case, wherever it stands. */
  lemma HexPairReads(b: byte, upper: bool, before: seq<byte>, rest: seq<byte>)
    ensures HexToByte(before + HexPair(b, upper) + rest, |before|) == b
  {
    var s := before + HexPair(b, upper) + rest;
    assert s[|before|] == HexDigit(b / 16 % 16, upper) && s[|before| + 1] == HexDigit(b % 16, upper);
    assert HexToNum(s[|before|]) == b / 16;
    assert HexToNum(s[|before| + 1]) == b % 16;
  }

  /** The hex digits are those two sets of sixteen, and each has its place as its value. */
  lemma HexDigits(c: byte)
    ensures forall v | 0 <= v < 16 :: HexToNum(c) == v <==> c == HexDigit(v, false) || c == HexDigit(v, true)
    ensures -1 <= HexToNum(c) < 16
  {
  }

  /** A pair is read if and only if both are digits. */
  lemma HexToByteIff(s: seq<byte>, i: nat)
    ensures HexToByte(s, i) >= 0 <==> HexToNum(At(s, i)) >= 0 && HexToNum(At(s, i + 1)) >= 0
    ensures HexToByte(s, i) >= 0 ==> HexToByte(s, i) == HexToNum(At(s, i)) * 16 + HexToNum(At(s, i + 1))
  {
  }

  // ---------- writing into buffers ----------

  /** Puts a short text into the buffer at n, as a row of assignments through an advancing pointer does. */
  method Put(txt: array<byte>, n: nat, text: seq<byte>)
    requires n + |text| <= txt.Length
    modifies txt
    ensures txt[..n + |text|] == old(txt[..n]) + text
    ensures txt[n + |text|..] == old(txt[n + |text|..])
  {
    var i := 0;
    while i < |text|
      invariant i <= |text|
      invariant txt[..n + i] == old(txt[..n]) + text[..i]
      invariant txt[n + |text|..] == old(txt[n + |text|..])
    {
      txt[n + i] := text[i];
      i := i + 1;
    }
  }

  /** snprintf of an already formatted text into the size bytes at pos: what fits, and a terminator. */
  method Snprintf(buf: array<byte>, pos: nat, size: nat, text: seq<byte>) returns (res: nat)
    requires pos + size <= buf.Length
    modifies buf
    ensures res == |text|
    ensures size > 0 ==> var k := if |text| < size then |text| else size - 1;
      buf[..pos + k] == old(buf[..pos]) + text[..k] && buf[pos + k] == NUL
    ensures size == 0 ==> buf[..pos] == old(buf[..pos])
    ensures buf[pos + size..] == old(buf[pos + size..])
  {
    res := |text|;
    if size > 0 {
      ghost var beyond := buf[pos + size..];
      var k := if |text| < size then |text| else size - 1;
      Put(buf, pos, text[..k]);
      assert buf[pos + size..] == buf[pos + k..][size - k..];
      buf[pos + k] := NUL;
      assert buf[pos + size..] == beyond;
    }
  }

  /** os_snprintf_error */
  predicate SnprintfError(size: nat, res: nat) {
    res >= size
  }
}
