/**
 Configuration strings (src/common.c): hex text, the three written forms that wpa_config_parse_string
 reads, and ssid_parse, which cuts an SSID off the front of a command line.
 */
module ConfigString {
  import opened Bytes
  import opened Options
  import opened PrintfCodec

  // ---------- hex text ----------

  function HexText(d: seq<byte>, upper: bool): (r: seq<byte>)
    ensures |r| == 2 * |d|
  {
    if d == [] then [] else HexText(d[..|d| - 1], upper) + HexPair(d[|d| - 1], upper)
  }

  /** The bytes that the first 2n characters of s stand for, unless one of them is no hex digit. */
  function HexBin(s: seq<byte>, n: nat): (r: Option<seq<byte>>)
    ensures r.Some? ==> |r.value| == n
  {
    if n == 0 then Some([])
    else
      match HexBin(s, n - 1)
      case None => None
      case Some(front) =>
        var v := HexToByte(s, 2 * (n - 1));
        if v < 0 then None else Some(front + [v])
  }

  lemma {:induction false} HexBinFails(s: seq<byte>, i: nat, n: nat)
    requires i <= n && HexBin(s, i) == None
    ensures HexBin(s, n) == None
  {
    if i < n {
      HexBinFails(s, i, n - 1);
    }
  }

  /** The bytes can be read if and only if all the characters are hex digits. */
  lemma {:induction false} HexBinIff(s: seq<byte>, n: nat)
    requires 2 * n <= |s|
    ensures HexBin(s, n).Some? <==> forall i | 0 <= i < 2 * n :: HexToNum(s[i]) >= 0
  {
    if n > 0 {
      HexBinIff(s, n - 1);
      assert HexToByte(s, 2 * (n - 1)) >= 0 <==> HexToNum(s[2 * n - 2]) >= 0 && HexToNum(s[2 * n - 1]) >= 0;
    }
  }

  /** Hex text of either case reads back as the bytes it was printed from, whatever follows it. */
  lemma {:induction false} HexInverts(d: seq<byte>, upper: bool, rest: seq<byte>)
    ensures HexBin(HexText(d, upper) + rest, |d|) == Some(d)
  {
    if d != [] {
      var n := |d| - 1;
      var front, pair := HexText(d[..n], upper), HexPair(d[n], upper);
      assert HexText(d, upper) + rest == front + (pair + rest);
      HexInverts(d[..n], upper, pair + rest);
      HexPairReads(d[n], upper, front, rest);
      assert HexText(d, upper) + rest == front + pair + rest;
      assert d == d[..n] + [d[n]];
    }
  }

  /** Hex text has only hex digits. */
  lemma {:induction false} HexTextDigits(d: seq<byte>, upper: bool)
    ensures forall c | c in HexText(d, upper) :: HexToNum(c) >= 0
  {
    if d != [] {
      HexTextDigits(d[..|d| - 1], upper);
    }
  }

  /** _wpa_snprintf_hex: prints as many whole bytes as fit before the last position. */
  method SnprintfHex(buf: array<byte>, bufSize: nat, data: seq<byte>, upper: bool) returns (ret: nat)
    requires bufSize <= buf.Length
    modifies buf
    ensures var k := if 2 * |data| < bufSize then |data| else if bufSize == 0 then 0 else (bufSize - 1) / 2;
      ret == 2 * k && buf[..ret] == HexText(data[..k], upper)
    ensures bufSize > 0 ==> ret < bufSize && buf[bufSize - 1] == NUL
    ensures 0 < |data| && 2 * |data| < bufSize ==> buf[ret] == NUL
    ensures buf[bufSize..] == old(buf[bufSize..])
  {
    if bufSize == 0 {
      return 0;
    }
    ret := 0;
    var i := 0;
    while i < |data|
      invariant i <= |data| && ret == 2 * i < bufSize
      invariant buf[..ret] == HexText(data[..i], upper)
      invariant i > 0 ==> buf[ret] == NUL
      invariant buf[bufSize..] == old(buf[bufSize..])
    {
      var res := PrintPair(buf, ret, bufSize, data, i, upper);
      if SnprintfError(bufSize - ret, res) {
        break;
      }
      ret := ret + res;
      i := i + 1;
    }
    buf[bufSize - 1] := NUL;
  }

  /** The snprintf of the i-th byte: two more digits and a terminator, if there is room for them. */
  method PrintPair(buf: array<byte>, ret: nat, bufSize: nat, data: seq<byte>, i: nat, upper: bool) returns (res: nat)
    requires i < |data| && ret < bufSize <= buf.Length && buf[..ret] == HexText(data[..i], upper)
    modifies buf
    ensures res == 2 && buf[bufSize..] == old(buf[bufSize..])
    ensures if ret + 2 < bufSize then buf[..ret + 2] == HexText(data[..i + 1], upper) && buf[ret + 2] == NUL
            else buf[..ret] == HexText(data[..i], upper)
  {
    ghost var before := buf[..ret];
    var pair := HexPair(data[i], upper);
    assert data[..i + 1][..i] == data[..i];
    assert pair[..2] == pair;
    res := Snprintf(buf, ret, bufSize - ret, pair);
    assert buf[..ret] == before;
  }

  /** hexstr2bin */
  method HexStr2Bin(hex: seq<byte>, buf: array<byte>, len: nat) returns (ok: bool)
    requires len <= buf.Length
    modifies buf
    ensures ok <==> HexBin(hex, len).Some?
    ensures 2 * len <= |hex| ==> (ok <==> forall i | 0 <= i < 2 * len :: HexToNum(hex[i]) >= 0)
    ensures ok ==> buf[..len] == HexBin(hex, len).value
    ensures buf[len..] == old(buf[len..])
  {
    if 2 * len <= |hex| {
      HexBinIff(hex, len);
    }
    var i := 0;
    while i < len
      invariant i <= len
      invariant HexBin(hex, i).Some? && buf[..i] == HexBin(hex, i).value
      invariant buf[len..] == old(buf[len..])
    {
      var a := HexToByte(hex, 2 * i);
      if a < 0 {
        HexBinFails(hex, i + 1, len);
        return false;
      }
      ghost var front := buf[..i];
      buf[i] := a;
      assert buf[..i + 1] == front + [a];
      i := i + 1;
    }
    return true;
  }

  // ---------- the three written forms ----------

  /** The last position of c, or -1 (os_strrchr). */
  function LastIndexOf(s: seq<byte>, c: byte): (k: int)
    ensures -1 <= k < |s|
    ensures k >= 0 ==> s[k] == c
    ensures forall i | k < i < |s| :: s[i] != c
  {
    if s == [] then -1 else if s[|s| - 1] == c then |s| - 1 else LastIndexOf(s[..|s| - 1], c)
  }

  /** The first position of c, or |s| (os_strchr). */
  function IndexOf(s: seq<byte>, c: byte): (k: nat)
    ensures k <= |s|
    ensures k < |s| ==> s[k] == c
    ensures forall i | 0 <= i < k :: s[i] != c
  {
    if s == [] || s[0] == c then 0 else 1 + IndexOf(s[1..], c)
  }

  /** The text before a closing quote, which must be the last character. */
  function Unquote(s: seq<byte>): Option<seq<byte>> {
    var pos := LastIndexOf(s, DQUOTE);
    if pos < 0 || At(s, pos + 1) != NUL then None else Some(s[..pos])
  }

  /** What a configuration value stands for. */
  function ParseString(v: seq<byte>): Option<seq<byte>> {
    if At(v, 0) == DQUOTE then Unquote(v[1..])
    else if At(v, 0) == UPPER_P && At(v, 1) == DQUOTE then
      match Unquote(v[2..])
      case None => None
      case Some(t) => Some(Decode(t, |t|))
    else if |v| % 2 == 1 then None
    else HexBin(v, |v| / 2)
  }

  lemma UnquoteQuoted(t: seq<byte>)
    ensures Unquote(t + [DQUOTE]) == Some(t)
  {
    var s := t + [DQUOTE];
    assert s[|t|] == DQUOTE;
    assert LastIndexOf(s, DQUOTE) == |t|;
    assert s[..|t|] == t;
  }

  /** Quoted text stands for itself, even with quotes inside. */
  lemma TextFormInverts(t: seq<byte>)
    ensures ParseString([DQUOTE] + t + [DQUOTE]) == Some(t)
  {
    var v := [DQUOTE] + t + [DQUOTE];
    assert v[1..] == t + [DQUOTE];
    UnquoteQuoted(t);
  }

  /** Bytes as a P"..." value. */
  function PForm(d: seq<byte>): seq<byte> {
    [UPPER_P, DQUOTE] + Encode(d) + [DQUOTE]
  }

  /** The P form of any bytes stands for those bytes. */
  lemma EncodedFormInverts(d: seq<byte>)
    ensures ParseString(PForm(d)) == Some(d)
  {
    var v, e := PForm(d), Encode(d);
    assert v[2..] == e + [DQUOTE];
    UnquoteQuoted(e);
    EncodeLength(d);
    DecodeInverts(d, [], |e|);
    AppendNothing(e);
    assert UpTo(d, [], |e|) == d;
  }

  /** The hex form of any bytes stands for those bytes. */
  lemma HexFormInverts(d: seq<byte>, upper: bool)
    ensures ParseString(HexText(d, upper)) == Some(d)
  {
    HexInverts(d, upper, []);
    AppendNothing(HexText(d, upper));
    HexTextStart(d, upper);
    ParseHex(HexText(d, upper));
  }

  lemma HexTextStart(d: seq<byte>, upper: bool)
    ensures HexToNum(At(HexText(d, upper), 0)) >= 0 || d == []
    ensures At(HexText(d, upper), 0) != DQUOTE && At(HexText(d, upper), 0) != UPPER_P
  {
    HexTextDigits(d, upper);
    assert d != [] ==> HexText(d, upper)[0] in HexText(d, upper);
  }

  lemma ParseHex(v: seq<byte>)
    requires At(v, 0) != DQUOTE && At(v, 0) != UPPER_P && |v| % 2 == 0
    ensures ParseString(v) == HexBin(v, |v| / 2)
  {
  }

  // ---------- which values are accepted ----------

  /** A value that starts with a quote stands for a text if and only if it is that text in quotes. */
  lemma ParsedTextIff(v: seq<byte>, x: seq<byte>)
    requires NulFree(v) && At(v, 0) == DQUOTE
    ensures ParseString(v) == Some(x) <==> v == [DQUOTE] + x + [DQUOTE]
  {
    UnquoteIff(v[1..], x);
    assert v == [DQUOTE] + v[1..];
    assert [DQUOTE] + (x + [DQUOTE]) == [DQUOTE] + x + [DQUOTE];
    assert v[1..] == x + [DQUOTE] <==> v == [DQUOTE] + (x + [DQUOTE]) by {
      assert ([DQUOTE] + (x + [DQUOTE]))[1..] == x + [DQUOTE];
    }
  }

  lemma UnquoteIff(s: seq<byte>, x: seq<byte>)
    requires NulFree(s)
    ensures Unquote(s) == Some(x) <==> s == x + [DQUOTE]
    ensures Unquote(s) == None <==> s == [] || s[|s| - 1] != DQUOTE
  {
    var pos := LastIndexOf(s, DQUOTE);
    if s == x + [DQUOTE] {
      UnquoteQuoted(x);
    }
    if 0 <= pos < |s| - 1 {
      assert s[pos + 1] in s;
    } else if pos == |s| - 1 && pos >= 0 {
      assert s == s[..pos] + [s[pos]];
    }
  }

  /** A value that starts with P and a quote is accepted if and only if its last character is another quote, and stands for
      what the text between them decodes to. */
  lemma ParsedEncodedIff(v: seq<byte>, t: seq<byte>)
    requires NulFree(v) && At(v, 0) == UPPER_P && At(v, 1) == DQUOTE
    ensures ParseString(v).Some? <==> |v| >= 3 && v[|v| - 1] == DQUOTE
    ensures v == [UPPER_P, DQUOTE] + t + [DQUOTE] ==> ParseString(v) == Some(Decode(t, |t|))
  {
    assert forall c | c in v[2..] :: c in v;
    UnquoteIff(v[2..], t);
    if v == [UPPER_P, DQUOTE] + t + [DQUOTE] {
      assert v[2..] == t + [DQUOTE];
    }
  }

  /** Any other value stands for bytes if and only if it has two hex digits for each of them, and is refused otherwise. */
  lemma ParsedHexIff(v: seq<byte>, x: seq<byte>)
    requires At(v, 0) != DQUOTE && !(At(v, 0) == UPPER_P && At(v, 1) == DQUOTE)
    ensures ParseString(v).Some? <==> |v| % 2 == 0 && forall c | c in v :: HexToNum(c) >= 0
    ensures ParseString(v) == Some(x) <==> |v| == 2 * |x| && forall i | 0 <= i < |x| :: HexToByte(v, 2 * i) == x[i]
  {
    var n := |v| / 2;
    if |v| % 2 == 0 {
      HexBinIff(v, n);
      assert (forall c | c in v :: HexToNum(c) >= 0) <==> forall i | 0 <= i < |v| :: HexToNum(v[i]) >= 0;
      if |x| == n {
        HexBinIs(v, x);
      }
    }
  }

  lemma {:induction false} HexBinIs(v: seq<byte>, x: seq<byte>)
    ensures HexBin(v, |x|) == Some(x) <==> forall i | 0 <= i < |x| :: HexToByte(v, 2 * i) == x[i]
  {
    if x != [] {
      var n := |x| - 1;
      HexBinIs(v, x[..n]);
      Ends(x);
      if HexBin(v, |x|) == Some(x) {
        assert HexBin(v, n) == Some(HexBin(v, n).value);
        assert HexBin(v, |x|).value == HexBin(v, n).value + [HexToByte(v, 2 * n)];
        assert HexBin(v, n).value == x[..n];
        assert forall i | 0 <= i < n :: x[..n][i] == x[i];
      }
    }
  }

  lemma Ends(x: seq<byte>)
    requires x != []
    ensures x == x[..|x| - 1] + [x[|x| - 1]]
  {
  }

  /** os_strrchr */
  method StrRChr(s: seq<byte>, c: byte) returns (pos: int)
    ensures pos == LastIndexOf(s, c)
  {
    pos := |s| - 1;
    while pos >= 0 && s[pos] != c
      invariant -1 <= pos < |s|
      invariant forall i | pos < i < |s| :: s[i] != c
    {
      pos := pos - 1;
    }
  }

  /** wpa_config_parse_string */
  method WpaConfigParseString(value: seq<byte>) returns (r: Option<seq<byte>>)
    requires NulFree(value)
    ensures r == ParseString(value)
  {
    if At(value, 0) == DQUOTE {
      var text := value[1..];
      var pos := StrRChr(text, DQUOTE);
      if pos < 0 || At(text, pos + 1) != NUL {
        return None;
      }
      return Some(text[..pos]);
    } else if At(value, 0) == UPPER_P && At(value, 1) == DQUOTE {
      var text := value[2..];
      var pos := StrRChr(text, DQUOTE);
      if pos < 0 || At(text, pos + 1) != NUL {
        return None;
      }
      var tlen := pos;
      var str := new byte[tlen + 1];
      var len := PrintfDecode(str, tlen + 1, text[..pos]);
      return Some(str[..len]);
    } else {
      if |value| % 2 == 1 {
        return None;
      }
      var tlen := |value| / 2;
      var str := new byte[tlen + 1];
      var ok := HexStr2Bin(value, str, tlen);
      if !ok {
        return None;
      }
      str[tlen] := NUL;
      return Some(str[..tlen]);
    }
  }

  // ---------- ssid_parse ----------

  /** The SSID's part of a command line: up to the first space, or up to the second quote. */
  function CutSsid(buf: seq<byte>): Option<seq<byte>> {
    if At(buf, 0) != DQUOTE then Some(buf[..IndexOf(buf, SPACE)])
    else
      var end := 1 + IndexOf(buf[1..], DQUOTE);
      if end == |buf| then None else Some(buf[..end + 1])
  }

  /** The SSID a command line starts with: it must have 1 to 32 bytes. */
  function SsidParse(buf: seq<byte>): Option<seq<byte>> {
    match CutSsid(buf)
    case None => None
    case Some(t) =>
      match ParseString(t)
      case None => None
      case Some(s) => if 1 <= |s| <= SSID_MAX_LEN then Some(s) else None
  }

  /** What may follow an unquoted SSID: nothing, or a space and any arguments. */
  predicate IsArguments(rest: seq<byte>) {
    rest == [] || rest[0] == SPACE
  }

  lemma CutAtArguments(t: seq<byte>, rest: seq<byte>)
    requires SPACE !in t && IsArguments(rest) && At(t + rest, 0) != DQUOTE
    ensures CutSsid(t + rest) == Some(t)
  {
    assert IndexOf(t + rest, SPACE) == |t| by {
      assert rest != [] ==> (t + rest)[|t|] == SPACE;
      assert forall i | 0 <= i < |t| :: (t + rest)[i] in t;
    }
    assert (t + rest)[..|t|] == t;
  }

  /** The hex digits of bytes, with arguments behind them, are read as those bytes if there are 1 to 32
      of them and are refused otherwise. */
  lemma SsidHexInverts(d: seq<byte>, upper: bool, rest: seq<byte>)
    requires IsArguments(rest)
    ensures SsidParse(HexText(d, upper) + rest) == if 1 <= |d| <= SSID_MAX_LEN then Some(d) else None
  {
    var t := HexText(d, upper);
    HexTextDigits(d, upper);
    HexFormInverts(d, upper);
    assert t != [] ==> (t + rest)[0] in t;
    CutAtArguments(t, rest);
  }

  /** Quoted text, with anything behind it, is read up to its second quote. */
  lemma SsidTextCut(t: seq<byte>, rest: seq<byte>)
    requires DQUOTE !in t
    ensures SsidParse([DQUOTE] + t + [DQUOTE] + rest) == if 1 <= |t| <= SSID_MAX_LEN then Some(t) else None
  {
    var buf := [DQUOTE] + t + [DQUOTE] + rest;
    assert buf[1..] == t + [DQUOTE] + rest;
    assert IndexOf(buf[1..], DQUOTE) == |t| by {
      assert buf[1..][|t|] == DQUOTE;
      assert forall i | 0 <= i < |t| :: buf[1..][i] in t;
    }
    assert buf[..|t| + 2] == [DQUOTE] + t + [DQUOTE];
    TextFormInverts(t);
  }

  /** So it is read as itself if and only if it has 1 to 32 bytes and none is a quote. */
  lemma SsidTextInverts(t: seq<byte>, rest: seq<byte>)
    ensures SsidParse([DQUOTE] + t + [DQUOTE] + rest) == Some(t) <==> 1 <= |t| <= SSID_MAX_LEN && DQUOTE !in t
  {
    var k := IndexOf(t, DQUOTE);
    if k == |t| {
      SsidTextCut(t, rest);
    } else {
      SsidTextCut(t[..k], t[k + 1..] + [DQUOTE] + rest);
      CutAtQuote(t, k, rest);
    }
  }

  lemma CutAtQuote(t: seq<byte>, k: nat, rest: seq<byte>)
    requires k < |t| && t[k] == DQUOTE
    ensures [DQUOTE] + t[..k] + [DQUOTE] + (t[k + 1..] + [DQUOTE] + rest) == [DQUOTE] + t + [DQUOTE] + rest
  {
    assert t == t[..k] + [DQUOTE] + t[k + 1..];
  }

  lemma SsidEncodedSpaceFree(d: seq<byte>, rest: seq<byte>)
    requires IsArguments(rest) && SPACE !in d
    ensures SsidParse(PForm(d) + rest) == if 1 <= |d| <= SSID_MAX_LEN then Some(d) else None
  {
    EncodeSpaceFree(d);
    CutAtArguments(PForm(d), rest);
    EncodedFormInverts(d);
  }

  lemma EncodeSplit(a: seq<byte>, b: seq<byte>)
    ensures Encode(a + [SPACE] + b) == Encode(a) + ([SPACE] + Encode(b))
  {
    EncodeConcat(a + [SPACE], b);
    EncodeConcat(a, [SPACE]);
    assert Encode([SPACE]) == [SPACE];
    Associates(Encode(a), [SPACE], Encode(b));
  }

  lemma Associates(a: seq<byte>, b: seq<byte>, c: seq<byte>)
    ensures a + b + c == a + (b + c)
  {
  }

  /** Everything from the first space on is lost. */
  lemma SsidEncodedCut(a: seq<byte>, b: seq<byte>, rest: seq<byte>)
    requires SPACE !in a
    ensures var r := SsidParse(PForm(a + [SPACE] + b) + rest); r == None || |r.value| <= |a|
  {
    var cut, after := [UPPER_P, DQUOTE] + Encode(a), [SPACE] + Encode(b) + [DQUOTE] + rest;
    PFormSplit(a, b, rest);
    EncodeSpaceFree(a);
    CutAtArguments(cut, after);
    ShortParse(PForm(a + [SPACE] + b) + rest, cut);
    TruncatedIsShorter(a);
  }

  lemma PFormSplit(a: seq<byte>, b: seq<byte>, rest: seq<byte>)
    ensures PForm(a + [SPACE] + b) + rest == ([UPPER_P, DQUOTE] + Encode(a)) + ([SPACE] + Encode(b) + [DQUOTE] + rest)
  {
    EncodeSplit(a, b);
    Parts(Encode(a), Encode(b), rest);
  }

  lemma Parts(a: seq<byte>, b: seq<byte>, rest: seq<byte>)
    ensures [UPPER_P, DQUOTE] + (a + ([SPACE] + b)) + [DQUOTE] + rest == ([UPPER_P, DQUOTE] + a) + ([SPACE] + b + [DQUOTE] + rest)
  {
  }

  lemma ShortParse(buf: seq<byte>, t: seq<byte>)
    requires CutSsid(buf) == Some(t)
    ensures SsidParse(buf) == None || SsidParse(buf) == ParseString(t)
  {
  }

  /** The P form is cut at the first space too. It is read as the bytes it was made from if and only if
      there are 1 to 32 of them and none is a space. */
  lemma SsidEncodedInvertsIff(d: seq<byte>, rest: seq<byte>)
    requires IsArguments(rest)
    ensures SsidParse(PForm(d) + rest) == Some(d) <==> 1 <= |d| <= SSID_MAX_LEN && SPACE !in d
  {
    var k := IndexOf(d, SPACE);
    if k == |d| {
      SsidEncodedSpaceFree(d, rest);
    } else {
      assert d == d[..k] + [SPACE] + d[k + 1..];
      SsidEncodedCut(d[..k], d[k + 1..], rest);
    }
  }

  lemma {:induction false} EncodeSpaceFree(d: seq<byte>)
    requires SPACE !in d
    ensures SPACE !in Encode(d)
  {
    if d != [] {
      EncodeSpaceFree(d[1..]);
    }
  }

  /** An encoded string without its closing quote is refused, or read as no more bytes than it encodes. */
  lemma TruncatedIsShorter(d: seq<byte>)
    ensures var r := ParseString([UPPER_P, DQUOTE] + Encode(d)); r == None || |r.value| <= |d|
  {
    var v, e := [UPPER_P, DQUOTE] + Encode(d), Encode(d);
    assert v[2..] == e;
    EncodeLength(d);
    if Unquote(e).Some? {
      assert LastIndexOf(e, DQUOTE) == |e| - 1;
      var x := LastQuote(d);
      assert Unquote(e).value == Encode(d[..|d| - 1]) + [x];
      OneMoreByte(d[..|d| - 1], x);
    }
  }

  lemma OneMoreByte(d: seq<byte>, x: byte)
    ensures var t := Encode(d) + [x]; |Decode(t, |t|)| <= |d| + 1
  {
    var room := |Encode(d)| + 1;
    DecodeInverts(d, [x], room);
    UpToLength(d, [x], room);
  }

  lemma UpToLength(d: seq<byte>, rest: seq<byte>, room: nat)
    ensures |UpTo(d, rest, room)| <= |d| + |rest|
  {
    if room > |d| {
      DecodeNeverGrows(rest, room - |d|);
    }
  }

  /** An encoded string ends in a quote only as the second half of an escape. */
  lemma LastQuote(d: seq<byte>) returns (x: byte)
    requires d != [] && var e := Encode(d); e != [] && e[|e| - 1] == DQUOTE
    ensures var e := Encode(d); e[..|e| - 1] == Encode(d[..|d| - 1]) + [x]
  {
    var n := |d| - 1;
    var front, last := Encode(d[..n]), EncodeByte(d[n]);
    EncodeLast(d);
    LastOf(front, last);
    LastIsQuote(d[n]);
    x := last[0];
    DropLast(Encode(d), front, x, DQUOTE);
  }

  lemma EncodeLast(d: seq<byte>)
    requires d != []
    ensures Encode(d) == Encode(d[..|d| - 1]) + EncodeByte(d[|d| - 1])
  {
    EncodeNext(d, |d| - 1);
    assert d[..|d| - 1 + 1] == d;
  }

  lemma LastOf(a: seq<byte>, b: seq<byte>)
    requires b != []
    ensures (a + b)[|a + b| - 1] == b[|b| - 1]
  {
  }

  lemma DropLast(e: seq<byte>, a: seq<byte>, x: byte, y: byte)
    requires e == a + [x, y]
    ensures e[..|e| - 1] == a + [x]
  {
  }

  lemma LastIsQuote(b: byte)
    requires var e := EncodeByte(b); e[|e| - 1] == DQUOTE
    ensures EncodeByte(b) == [EncodeByte(b)[0], DQUOTE]
  {
  }

  /** What a command line that starts with a quote is read as: the text up to the next quote, if it has 1 to 32
      bytes; everything else is refused. */
  lemma SsidQuotedIff(buf: seq<byte>, d: seq<byte>)
    requires NulFree(buf) && At(buf, 0) == DQUOTE
    ensures SsidParse(buf) == Some(d) <==> 1 <= |d| <= SSID_MAX_LEN && DQUOTE !in d && [DQUOTE] + d + [DQUOTE] <= buf
  {
    var k := IndexOf(buf[1..], DQUOTE);
    if k < |buf| - 1 {
      var t, rest := buf[1..][..k], buf[k + 2..];
      assert buf == [DQUOTE] + t + [DQUOTE] + rest;
      SsidTextCut(t, rest);
      if DQUOTE !in d && [DQUOTE] + d + [DQUOTE] <= buf {
        assert buf[1 + |d|] == DQUOTE;
        assert forall i | 0 <= i < |d| :: buf[1 + i] == d[i];
        assert k == |d|;
        assert t == d;
      }
    } else {
      QuoteBehind(buf, d);
    }
  }

  lemma QuoteBehind(buf: seq<byte>, d: seq<byte>)
    ensures [DQUOTE] + d + [DQUOTE] <= buf ==> DQUOTE in buf[1..]
  {
    if [DQUOTE] + d + [DQUOTE] <= buf {
      assert buf[1..][|d|] == ([DQUOTE] + d + [DQUOTE])[1 + |d|];
    }
  }

  /** What any other command line is read as: what its part t before the first space stands for, if that has 1 to
      32 bytes. */
  lemma SsidUnquotedIff(buf: seq<byte>, t: seq<byte>, d: seq<byte>)
    requires At(buf, 0) != DQUOTE && t <= buf && SPACE !in t && (|t| == |buf| || buf[|t|] == SPACE)
    ensures SsidParse(buf) == Some(d) <==> 1 <= |d| <= SSID_MAX_LEN && ParseString(t) == Some(d)
  {
    var rest := buf[|t|..];
    assert buf == t + rest;
    CutAtArguments(t, rest);
  }

  /** struct wpa_ssid_value */
  class SsidValue {
    const ssid: array<byte>
    var ssidLen: nat

    constructor ()
      ensures ssid.Length == SSID_MAX_LEN && fresh(ssid)
    {
      ssid := new byte[SSID_MAX_LEN];
      ssidLen := 0;
    }
  }

  /** os_strchr */
  method StrChr(s: seq<byte>, c: byte) returns (pos: nat)
    ensures pos == IndexOf(s, c)
  {
    pos := 0;
    while pos < |s| && s[pos] != c
      invariant pos <= |s|
      invariant forall i | 0 <= i < pos :: s[i] != c
    {
      pos := pos + 1;
    }
  }

  /** ssid_parse */
  method WpaSsidParse(buf: seq<byte>, out: SsidValue) returns (ok: bool)
    requires NulFree(buf) && out.ssid.Length == SSID_MAX_LEN
    modifies out, out.ssid
    ensures ok <==> SsidParse(buf).Some?
    ensures ok ==> out.ssidLen <= SSID_MAX_LEN && out.ssid[..out.ssidLen] == SsidParse(buf).value
    ensures !ok ==> out.ssidLen == 0
  {
    out.ssidLen := 0;
    var tmp := buf;
    if At(tmp, 0) != DQUOTE {
      var end := StrChr(tmp, SPACE);
      tmp := tmp[..end];
    } else {
      var end := StrChr(tmp[1..], DQUOTE);
      if 1 + end == |tmp| {
        return false;
      }
      tmp := tmp[..end + 2];
    }
    var res := WpaConfigParseString(tmp);
    if res.Some? && |res.value| <= SSID_MAX_LEN {
      out.ssidLen := |res.value|;
      forall i | 0 <= i < |res.value| {
        out.ssid[i] := res.value[i];
      }
      assert out.ssid[..out.ssidLen] == res.value;
    }
    ok := out.ssidLen > 0;
  }
}
