/**
 The printable form of arbitrary bytes: printf_encode and printf_decode (src/common.c), writing into
 caller-supplied buffers of any size.
 */
module PrintfCodec {
  import opened Bytes
  import opened Options

  /** How one byte is written. */
  function EncodeByte(b: byte): (r: seq<byte>)
    ensures 1 <= |r| <= 4 && NulFree(r)
  {
    if b == DQUOTE then [BACKSLASH, DQUOTE]
    else if b == BACKSLASH then [BACKSLASH, BACKSLASH]
    else if b == ESC then [BACKSLASH, LOWER_E]
    else if b == LF then [BACKSLASH, LOWER_N]
    else if b == CR then [BACKSLASH, LOWER_R]
    else if b == TAB then [BACKSLASH, LOWER_T]
    else if 32 <= b <= 126 then [b]
    else [BACKSLASH, LOWER_X] + HexPair(b, false)
  }

  function Encode(d: seq<byte>): seq<byte> {
    if d == [] then [] else EncodeByte(d[0]) + Encode(d[1..])
  }

  /** What one step of the decoder makes of the front of a non-empty string: at most one byte, and how
      much of the string it uses. */
  datatype Step = Step(out: seq<byte>, used: nat)

  function DecodeStep(s: seq<byte>): (r: Step)
    requires s != []
    ensures 1 <= r.used <= |s| && |r.out| <= 1
  {
    if s[0] != BACKSLASH then Step([s[0]], 1)
    else
      var c := At(s, 1);
      if c == BACKSLASH || c == DQUOTE then Step([c], 2)
      else if c == LOWER_N then Step([LF], 2)
      else if c == LOWER_R then Step([CR], 2)
      else if c == LOWER_T then Step([TAB], 2)
      else if c == LOWER_E then Step([ESC], 2)
      else if c == LOWER_X then
        if HexToByte(s, 2) >= 0 then Step([HexToByte(s, 2)], 4)
        else if HexToNum(At(s, 2)) >= 0 then Step([HexToNum(At(s, 2))], 3)
        else Step([], 2)
      else if IsOctal(c) then
        if !IsOctal(At(s, 2)) then Step([c - ZERO], 2)
        else if !IsOctal(At(s, 3)) then Step([(c - ZERO) * 8 + (At(s, 2) - ZERO)], 3)
        else Step([((c - ZERO) * 64 + (At(s, 2) - ZERO) * 8 + (At(s, 3) - ZERO)) % 256], 4)
      else Step([], 1)
  }

  predicate IsOctal(c: byte) {
    48 <= c <= 55
  }

  /** At most room bytes of the decoded string. */
  function Decode(s: seq<byte>, room: nat): (r: seq<byte>)
    ensures |r| <= room
    decreases |s|
  {
    if s == [] || room == 0 then []
    else
      var st := DecodeStep(s);
      st.out + Decode(s[st.used..], room - |st.out|)
  }

  // ---------- laws ----------

  lemma {:induction false} EncodeConcat(a: seq<byte>, b: seq<byte>)
    ensures Encode(a + b) == Encode(a) + Encode(b)
  {
    if a == [] {
      assert a + b == b;
    } else {
      assert (a + b)[1..] == a[1..] + b;
      EncodeConcat(a[1..], b);
    }
  }

  lemma EncodeNext(d: seq<byte>, i: nat)
    requires i < |d|
    ensures Encode(d[..i + 1]) == Encode(d[..i]) + EncodeByte(d[i])
  {
    assert d[..i + 1] == d[..i] + [d[i]];
    EncodeConcat(d[..i], [d[i]]);
    assert Encode([d[i]]) == EncodeByte(d[i]);
  }

  lemma {:induction false} EncodeLength(d: seq<byte>)
    ensures |d| <= |Encode(d)| <= 4 * |d|
    ensures NulFree(Encode(d))
  {
    if d != [] {
      EncodeLength(d[1..]);
    }
  }

  /** The decoder reads any byte back from its written form, whatever follows. */
  lemma StepInverts(b: byte, rest: seq<byte>)
    ensures DecodeStep(EncodeByte(b) + rest) == Step([b], |EncodeByte(b)|)
  {
    var s := EncodeByte(b) + rest;
    if |EncodeByte(b)| == 4 {
      HexPairReads(b, false, [BACKSLASH, LOWER_X], rest);
      assert s == [BACKSLASH, LOWER_X] + HexPair(b, false) + rest;
    }
  }

  lemma DecodeOne(b: byte, tail: seq<byte>, room: nat)
    requires room > 0
    ensures Decode(EncodeByte(b) + tail, room) == [b] + Decode(tail, room - 1)
  {
    StepInverts(b, tail);
    assert (EncodeByte(b) + tail)[|EncodeByte(b)|..] == tail;
  }

  // ---------- what every written form stands for ----------

  lemma DecodeFirst(s: seq<byte>, st: Step, rest: seq<byte>, room: nat)
    requires room > 0 && s != [] && st == DecodeStep(s) && rest == s[st.used..]
    ensures |st.out| <= 1 && Decode(s, room) == st.out + Decode(rest, room - |st.out|)
  {
  }

  lemma Behind(t: seq<byte>, rest: seq<byte>)
    ensures (t + rest)[|t|..] == rest
  {
  }

  /** Anything but a backslash stands for itself. */
  lemma DecodePlain(c: byte, rest: seq<byte>, room: nat)
    requires room > 0 && c != BACKSLASH
    ensures Decode([c] + rest, room) == [c] + Decode(rest, room - 1)
  {
    Behind([c], rest);
    DecodeFirst([c] + rest, Step([c], 1), rest, room);
  }

  /** The escapes of one character. */
  lemma DecodeShort(rest: seq<byte>, room: nat)
    requires room > 0
    ensures forall p | p in SHORT_ESCAPES :: Decode([BACKSLASH, p.0] + rest, room) == [p.1] + Decode(rest, room - 1)
  {
    forall p | p in SHORT_ESCAPES ensures Decode([BACKSLASH, p.0] + rest, room) == [p.1] + Decode(rest, room - 1) {
      Behind([BACKSLASH, p.0], rest);
      DecodeFirst([BACKSLASH, p.0] + rest, Step([p.1], 2), rest, room);
    }
  }

  const SHORT_ESCAPES: seq<(byte, byte)> :=
    [(BACKSLASH, BACKSLASH), (DQUOTE, DQUOTE), (LOWER_N, LF), (LOWER_R, CR), (LOWER_T, TAB), (LOWER_E, ESC)]

  /** Two hex digits behind x. */
  lemma DecodeHex(h: byte, l: byte, rest: seq<byte>, room: nat)
    requires room > 0 && HexToNum(h) >= 0 && HexToNum(l) >= 0
    ensures Decode([BACKSLASH, LOWER_X, h, l] + rest, room) == [16 * HexToNum(h) + HexToNum(l)] + Decode(rest, room - 1)
  {
    var s := [BACKSLASH, LOWER_X, h, l] + rest;
    assert At(s, 2) == h && At(s, 3) == l;
    HexToByteIff(s, 2);
    Behind([BACKSLASH, LOWER_X, h, l], rest);
    DecodeFirst(s, Step([16 * HexToNum(h) + HexToNum(l)], 4), rest, room);
  }

  /** One hex digit, if what follows is no other. */
  lemma DecodeHexDigit(h: byte, rest: seq<byte>, room: nat)
    requires room > 0 && HexToNum(h) >= 0 && HexToNum(At(rest, 0)) < 0
    ensures Decode([BACKSLASH, LOWER_X, h] + rest, room) == [HexToNum(h)] + Decode(rest, room - 1)
  {
    var s := [BACKSLASH, LOWER_X, h] + rest;
    assert At(s, 2) == h && At(s, 3) == At(rest, 0);
    HexToByteIff(s, 2);
    Behind([BACKSLASH, LOWER_X, h], rest);
    DecodeFirst(s, Step([HexToNum(h)], 3), rest, room);
  }

  /** Without any digit the x is dropped with its backslash. */
  lemma DecodeNoHex(rest: seq<byte>, room: nat)
    requires room > 0 && HexToNum(At(rest, 0)) < 0
    ensures Decode([BACKSLASH, LOWER_X] + rest, room) == Decode(rest, room)
  {
    var s := [BACKSLASH, LOWER_X] + rest;
    assert At(s, 2) == At(rest, 0);
    HexToByteIff(s, 2);
    Behind([BACKSLASH, LOWER_X], rest);
    DecodeFirst(s, Step([], 2), rest, room);
  }

  /** Three octal digits; the number is cut to a byte. */
  lemma DecodeOctal(x: byte, y: byte, z: byte, rest: seq<byte>, room: nat)
    requires room > 0 && x < 8 && y < 8 && z < 8
    ensures Decode([BACKSLASH, ZERO + x, ZERO + y, ZERO + z] + rest, room)
         == [(64 * x + 8 * y + z) % 256] + Decode(rest, room - 1)
  {
    var s := [BACKSLASH, ZERO + x, ZERO + y, ZERO + z] + rest;
    assert At(s, 1) == ZERO + x && At(s, 2) == ZERO + y && At(s, 3) == ZERO + z;
    Behind([BACKSLASH, ZERO + x, ZERO + y, ZERO + z], rest);
    DecodeFirst(s, Step([(64 * x + 8 * y + z) % 256], 4), rest, room);
  }

  /** Two of them, or one, if what follows is no other. */
  lemma DecodeTwoOctal(x: byte, y: byte, rest: seq<byte>, room: nat)
    requires room > 0 && x < 8 && y < 8 && !IsOctal(At(rest, 0))
    ensures Decode([BACKSLASH, ZERO + x, ZERO + y] + rest, room) == [8 * x + y] + Decode(rest, room - 1)
  {
    var s := [BACKSLASH, ZERO + x, ZERO + y] + rest;
    assert At(s, 1) == ZERO + x && At(s, 2) == ZERO + y && At(s, 3) == At(rest, 0);
    Behind([BACKSLASH, ZERO + x, ZERO + y], rest);
    DecodeFirst(s, Step([8 * x + y], 3), rest, room);
  }

  lemma DecodeOneOctal(x: byte, rest: seq<byte>, room: nat)
    requires room > 0 && x < 8 && !IsOctal(At(rest, 0))
    ensures Decode([BACKSLASH, ZERO + x] + rest, room) == [x] + Decode(rest, room - 1)
  {
    var s := [BACKSLASH, ZERO + x] + rest;
    assert At(s, 1) == ZERO + x && At(s, 2) == At(rest, 0);
    Behind([BACKSLASH, ZERO + x], rest);
    DecodeFirst(s, Step([x], 2), rest, room);
  }

  /** Any byte can be written with three octal digits. */
  lemma OctalInverts(b: byte, rest: seq<byte>, room: nat)
    requires room > 0
    ensures Decode([BACKSLASH, ZERO + b / 64, ZERO + b / 8 % 8, ZERO + b % 8] + rest, room) == [b] + Decode(rest, room - 1)
  {
    OctalDigits(b);
    DecodeOctal(b / 64, b / 8 % 8, b % 8, rest, room);
  }

  lemma OctalDigits(b: byte)
    ensures b / 64 < 8 && 64 * (b / 64) + 8 * (b / 8 % 8) + b % 8 == b
  {
  }

  /** Behind any other character, and at the end, the backslash is dropped and nothing else. */
  lemma DecodeUnknown(rest: seq<byte>, room: nat)
    requires room > 0 && At(rest, 0) != LOWER_X && !IsOctal(At(rest, 0))
    requires forall p | p in SHORT_ESCAPES :: p.0 != At(rest, 0)
    ensures Decode([BACKSLASH] + rest, room) == Decode(rest, room)
  {
    assert forall i | 0 <= i < |SHORT_ESCAPES| :: SHORT_ESCAPES[i] in SHORT_ESCAPES;
    assert SHORT_ESCAPES[0].0 != At(rest, 0) && SHORT_ESCAPES[1].0 != At(rest, 0) && SHORT_ESCAPES[2].0 != At(rest, 0);
    assert SHORT_ESCAPES[3].0 != At(rest, 0) && SHORT_ESCAPES[4].0 != At(rest, 0) && SHORT_ESCAPES[5].0 != At(rest, 0);
    Behind([BACKSLASH], rest);
    DecodeFirst([BACKSLASH] + rest, Step([], 1), rest, room);
  }

  /** How the encoder writes a byte: itself if that is printable and needs no escape; else the escape of one character
      if there is one; else x and two lower-case hex digits. */
  lemma EncodedForm(b: byte)
    ensures EncodeByte(b) == [b] <==> 32 <= b <= 126 && b != DQUOTE && b != BACKSLASH
    ensures forall p | p in SHORT_ESCAPES && p.1 == b :: EncodeByte(b) == [BACKSLASH, p.0]
    ensures EncodeByte(b) != [b] && (forall p | p in SHORT_ESCAPES :: p.1 != b) ==> WrittenInHex(b)
  {
    if EncodeByte(b) != [b] && forall p | p in SHORT_ESCAPES :: p.1 != b {
      NoShortEscape(b);
    }
  }

  ghost predicate WrittenInHex(b: byte) {
    exists h, l | 0 <= h < 16 && 0 <= l < 16 ::
      b == 16 * h + l && EncodeByte(b) == [BACKSLASH, LOWER_X, HexDigit(h, false), HexDigit(l, false)]
  }

  lemma NoShortEscape(b: byte)
    requires EncodeByte(b) != [b] && forall p | p in SHORT_ESCAPES :: p.1 != b
    ensures WrittenInHex(b)
  {
    assert SHORT_ESCAPES[0] in SHORT_ESCAPES && SHORT_ESCAPES[1] in SHORT_ESCAPES && SHORT_ESCAPES[2] in SHORT_ESCAPES;
    assert SHORT_ESCAPES[3] in SHORT_ESCAPES && SHORT_ESCAPES[4] in SHORT_ESCAPES && SHORT_ESCAPES[5] in SHORT_ESCAPES;
    assert EncodeByte(b) == [BACKSLASH, LOWER_X, HexDigit(b / 16, false), HexDigit(b % 16, false)];
  }

  /** The encoder writes printable characters only. */
  lemma EncodedIsPrintable(b: byte)
    ensures forall c | c in EncodeByte(b) :: 32 <= c <= 126
  {
  }

  lemma EncodeFront(d: seq<byte>, rest: seq<byte>)
    requires d != []
    ensures Encode(d) + rest == EncodeByte(d[0]) + (Encode(d[1..]) + rest)
  {
  }

  /** d, or as much of it as there is room for, and then more. */
  function UpTo(d: seq<byte>, rest: seq<byte>, room: nat): seq<byte> {
    if room <= |d| then d[..room] else d + Decode(rest, room - |d|)
  }

  lemma UpToFront(d: seq<byte>, rest: seq<byte>, room: nat)
    requires d != [] && room > 0
    ensures UpTo(d, rest, room) == [d[0]] + UpTo(d[1..], rest, room - 1)
  {
    if room <= |d| {
      TakeFront(d, room);
    } else {
      AppendFront(d, Decode(rest, room - |d|));
    }
  }

  lemma TakeFront(d: seq<byte>, n: nat)
    requires 0 < n <= |d|
    ensures d[..n] == [d[0]] + d[1..][..n - 1]
  {
  }

  lemma AppendFront(d: seq<byte>, rest: seq<byte>)
    requires d != []
    ensures d + rest == [d[0]] + (d[1..] + rest)
  {
  }

  /** Decoding an encoded string followed by anything gives the data back first, as far as there is room. */
  lemma {:induction false} DecodeInverts(d: seq<byte>, rest: seq<byte>, room: nat)
    ensures Decode(Encode(d) + rest, room) == UpTo(d, rest, room)
    decreases |d|
  {
    if d == [] || room == 0 {
      DecodeNone(d, rest, room);
    } else {
      DecodeInverts(d[1..], rest, room - 1);
      DecodeFront(d[0], d[1..], rest, room);
      Rejoin(d);
    }
  }

  lemma DecodeNone(d: seq<byte>, rest: seq<byte>, room: nat)
    requires d == [] || room == 0
    ensures Decode(Encode(d) + rest, room) == UpTo(d, rest, room)
  {
    if d == [] {
      assert Encode(d) + rest == rest;
    }
  }

  lemma Rejoin(d: seq<byte>)
    requires d != []
    ensures [d[0]] + d[1..] == d
  {
  }

  lemma DecodeFront(b: byte, d: seq<byte>, rest: seq<byte>, room: nat)
    requires room > 0 && Decode(Encode(d) + rest, room - 1) == UpTo(d, rest, room - 1)
    ensures Decode(Encode([b] + d) + rest, room) == UpTo([b] + d, rest, room)
  {
    var tail := Encode(d) + rest;
    DecodeOne(b, tail, room);
    assert Encode([b] + d) + rest == EncodeByte(b) + tail by {
      EncodeFront([b] + d, rest);
    }
    UpToFront([b] + d, rest, room);
  }

  /** The decoder never produces more bytes than the string has, so room for that many is room enough. */
  lemma {:induction false} DecodeNeverGrows(s: seq<byte>, room: nat)
    ensures |Decode(s, room)| <= |s|
    ensures room >= |s| ==> Decode(s, room) == Decode(s, |s|)
    decreases |s|
  {
    if s != [] && room != 0 {
      var st := DecodeStep(s);
      DecodeNeverGrows(s[st.used..], room - |st.out|);
      DecodeNeverGrows(s[st.used..], |s| - |st.out|);
    }
  }

  /** k is how many bytes of the data printf_encode gets to write into maxlen bytes: it stops at the
      first byte with fewer than five bytes left. */
  ghost predicate Fits(d: seq<byte>, maxlen: nat, k: nat) {
    && k <= |d|
    && (forall j | 0 <= j < k :: |Encode(d[..j])| + 4 < maxlen)
    && (k < |d| ==> |Encode(d[..k])| + 4 >= maxlen)
  }

  /** What was encoded into a buffer of any size decodes to a prefix of the data, or as much of it as the
      decoder has room for. */
  lemma EncodedDecodesToPrefix(d: seq<byte>, maxlen: nat, k: nat, room: nat)
    requires Fits(d, maxlen, k)
    ensures Decode(Encode(d[..k]), room) == d[..if room < k then room else k]
  {
    DecodeInverts(d[..k], [], room);
    AppendNothing(Encode(d[..k]));
  }

  /** All of the data is encoded exactly if the bytes before the last leave five free, for which four
      times the length and one more is always enough. */
  lemma WholeDataFits(d: seq<byte>, maxlen: nat, k: nat)
    requires Fits(d, maxlen, k)
    ensures k == |d| <==> d == [] || |Encode(d[..|d| - 1])| + 4 < maxlen
    ensures maxlen >= 4 * |d| + 1 ==> k == |d|
  {
    if d != [] {
      EncodeLength(d[..|d| - 1]);
      if k < |d| {
        EncodeGrows(d, k, |d| - 1);
      }
    }
  }

  lemma {:induction false} EncodeGrows(d: seq<byte>, i: nat, j: nat)
    requires i <= |d| && j <= |d|
    ensures i <= j ==> |Encode(d[..i])| <= |Encode(d[..j])|
  {
    if i < j {
      EncodeGrows(d, i, j - 1);
      EncodeNext(d, j - 1);
    }
  }

  // ---------- the buffer algorithms ----------

  /** The switch of printf_encode. */
  method PutEncoded(txt: array<byte>, n: nat, c: byte) returns (n': nat)
    requires n + 5 <= txt.Length
    modifies txt
    ensures n' == n + |EncodeByte(c)|
    ensures txt[..n'] == old(txt[..n]) + EncodeByte(c)
    ensures txt[n + 5..] == old(txt[n + 5..])
  {
    if c == DQUOTE || c == BACKSLASH {
      PutPiece(txt, n, [BACKSLASH, c]);
    } else if c == ESC {
      PutPiece(txt, n, [BACKSLASH, LOWER_E]);
    } else if c == LF {
      PutPiece(txt, n, [BACKSLASH, LOWER_N]);
    } else if c == CR {
      PutPiece(txt, n, [BACKSLASH, LOWER_R]);
    } else if c == TAB {
      PutPiece(txt, n, [BACKSLASH, LOWER_T]);
    } else if 32 <= c <= 126 {
      PutPiece(txt, n, [c]);
    } else {
      PutHex(txt, n, c);
      return n + 4;
    }
    n' := n + if 32 <= c <= 126 && c != DQUOTE && c != BACKSLASH then 1 else 2;
  }

  method PutPiece(txt: array<byte>, n: nat, piece: seq<byte>)
    requires |piece| <= 5 && n + 5 <= txt.Length
    modifies txt
    ensures txt[..n + |piece|] == old(txt[..n]) + piece
    ensures txt[n + 5..] == old(txt[n + 5..])
  {
    DropDrop(txt[..], n + |piece|, n + 5);
    Put(txt, n, piece);
    DropDrop(txt[..], n + |piece|, n + 5);
  }

  /** The snprintf of "\\x%02x", with its terminator. */
  method PutHex(txt: array<byte>, n: nat, c: byte)
    requires n + 5 <= txt.Length
    modifies txt
    ensures txt[..n + 4] == old(txt[..n]) + ([BACKSLASH, LOWER_X] + HexPair(c, false))
    ensures txt[n + 5..] == old(txt[n + 5..])
  {
    ghost var front, four := txt[..n], [BACKSLASH, LOWER_X] + HexPair(c, false);
    PutPiece(txt, n, [BACKSLASH, LOWER_X] + HexPair(c, false) + [NUL]);
    WithoutLast(front, four, NUL);
    assert txt[..n + 4] == txt[..n + 5][..n + 4];
  }

  lemma WithoutLast(a: seq<byte>, b: seq<byte>, c: byte)
    ensures (a + (b + [c]))[..|a| + |b|] == a + b
  {
  }

  /** One turn of the loop of printf_encode. */
  method EncodeOne(txt: array<byte>, maxlen: nat, data: seq<byte>, i: nat, n: nat) returns (n': nat)
    requires i < |data| && n + 4 < maxlen <= txt.Length && txt[..n] == Encode(data[..i])
    modifies txt
    ensures n' < maxlen && txt[..n'] == Encode(data[..i + 1])
    ensures txt[maxlen..] == old(txt[maxlen..])
  {
    EncodeNext(data, i);
    DropDrop(txt[..], n + 5, maxlen);
    n' := PutEncoded(txt, n, data[i]);
    DropDrop(txt[..], n + 5, maxlen);
  }

  /** printf_encode: txt becomes the C string of the longest prefix of the data it has safe room for,
      and nothing beyond maxlen is touched. */
  method PrintfEncode(txt: array<byte>, maxlen: nat, data: seq<byte>) returns (ghost k: nat)
    requires 1 <= maxlen <= txt.Length
    modifies txt
    ensures Fits(data, maxlen, k)
    ensures var e := Encode(data[..k]); |e| < maxlen && txt[..|e|] == e && txt[|e|] == NUL
    ensures txt[maxlen..] == old(txt[maxlen..])
  {
    var n, i := 0, 0;
    while i < |data|
      invariant i <= |data| && 0 <= n < maxlen
      invariant txt[..n] == Encode(data[..i])
      invariant forall j | 0 <= j < i :: |Encode(data[..j])| + 4 < maxlen
      invariant txt[maxlen..] == old(txt[maxlen..])
    {
      if n + 4 >= maxlen {
        break;
      }
      n := EncodeOne(txt, maxlen, data, i, n);
      i := i + 1;
    }
    txt[n] := NUL;
    k := i;
  }

  const SSID_MAX_LEN := 32

  /** wpa_ssid_txt, given its static buffer: prints the longest prefix it has safe room for, from which that
      prefix can be read back; for any SSID of up to 32 bytes that is all of it. NULL prints as nothing. */
  method WpaSsidTxt(ssidTxt: array<byte>, ssid: Option<seq<byte>>) returns (ghost k: nat)
    requires ssidTxt.Length == SSID_MAX_LEN * 4 + 1
    modifies ssidTxt
    ensures ssid == None ==> ssidTxt[0] == NUL
    ensures ssid.Some? ==> Fits(ssid.value, ssidTxt.Length, k) && (|ssid.value| <= SSID_MAX_LEN ==> k == |ssid.value|)
    ensures ssid.Some? ==> var e := Encode(ssid.value[..k]);
      |e| < ssidTxt.Length && ssidTxt[..|e|] == e && ssidTxt[|e|] == NUL
      && NulFree(e) && Decode(e, k) == ssid.value[..k]
  {
    k := 0;
    if ssid == None {
      ssidTxt[0] := NUL;
      return;
    }
    k := PrintfEncode(ssidTxt, ssidTxt.Length, ssid.value);
    WholeDataFits(ssid.value, ssidTxt.Length, k);
    EncodedDecodesToPrefix(ssid.value, ssidTxt.Length, k, k);
    EncodeLength(ssid.value[..k]);
  }

  /** After done bytes, the string still to be decoded starts at pos. */
  ghost predicate Decoding(str: seq<byte>, room: nat, done: seq<byte>, pos: nat) {
    && |done| <= room && pos <= |str|
    && Decode(str, room) == done + Decode(str[pos..], room - |done|)
  }

  lemma DecodeTurn(str: seq<byte>, room: nat, done: seq<byte>, pos: nat)
    requires Decoding(str, room, done, pos) && pos < |str| && |done| < room
    ensures var st := DecodeStep(str[pos..]);
      pos + st.used <= |str| && Decoding(str, room, done + st.out, pos + st.used)
  {
    var st := DecodeStep(str[pos..]);
    DropDrop(str, pos, pos + st.used);
    MoreDone(Decode(str, room), str[pos..], str[pos + st.used..], st, done, room - |done|);
  }

  lemma MoreDone(whole: seq<byte>, s: seq<byte>, rest: seq<byte>, st: Step, done: seq<byte>, room: nat)
    requires room > 0 && s != [] && st == DecodeStep(s) && rest == s[st.used..] && whole == done + Decode(s, room)
    ensures |st.out| <= 1 && whole == done + st.out + Decode(rest, room - |st.out|)
  {
    DecodeFirst(s, st, rest, room);
    Regroup(done, st.out, Decode(rest, room - |st.out|));
  }

  lemma Regroup(a: seq<byte>, b: seq<byte>, c: seq<byte>)
    ensures a + (b + c) == a + b + c
  {
  }

  lemma DecodeDone(str: seq<byte>, room: nat, done: seq<byte>, pos: nat)
    requires Decoding(str, room, done, pos) && (pos == |str| || |done| == room)
    ensures Decode(str, room) == done
  {
  }

  /** Reads the next piece of the string; out is the byte to store, if there is one. */
  method ReadNext(str: seq<byte>, pos: nat, ghost room: nat, ghost done: seq<byte>) returns (stores: bool, out: byte, pos': nat)
    requires Decoding(str, room, done, pos) && pos < |str| && |done| < room
    ensures pos < pos' <= |str|
    ensures Decoding(str, room, if stores then done + [out] else done, pos')
  {
    DecodeTurn(str, room, done, pos);
    var used;
    stores, out, used := ReadOne(str[pos..]);
    pos' := pos + used;
    assert done + [] == done;
  }

  /** printf_decode: buf starts with as much of the decoded string as fits with its terminator. */
  method PrintfDecode(buf: array<byte>, maxlen: nat, str: seq<byte>) returns (len: nat)
    requires maxlen <= buf.Length && NulFree(str)
    modifies buf
    ensures len <= maxlen
    ensures buf[..len] == Decode(str, if maxlen == 0 then 0 else maxlen - 1)
    ensures maxlen > 0 ==> len < maxlen && buf[len] == NUL
    ensures buf[maxlen..] == old(buf[maxlen..])
  {
    var pos := 0;
    len := 0;
    ghost var room := if maxlen == 0 then 0 else maxlen - 1;
    while pos < |str|
      invariant 0 <= pos <= |str| && len <= room
      invariant Decoding(str, room, buf[..len], pos)
      invariant buf[maxlen..] == old(buf[maxlen..])
      decreases |str| - pos
    {
      if len + 1 >= maxlen {
        break;
      }
      pos, len := DecodeInto(buf, maxlen, str, pos, len);
    }
    DecodeDone(str, room, buf[..len], pos);
    if maxlen > len {
      buf[len] := NUL;
    }
  }

  /** One turn of the loop of printf_decode. */
  method DecodeInto(buf: array<byte>, maxlen: nat, str: seq<byte>, pos: nat, len: nat) returns (pos': nat, len': nat)
    requires len + 1 < maxlen <= buf.Length && pos < |str|
    requires Decoding(str, maxlen - 1, buf[..len], pos)
    modifies buf
    ensures pos < pos' <= |str| && len' < maxlen && Decoding(str, maxlen - 1, buf[..len'], pos')
    ensures buf[maxlen..] == old(buf[maxlen..])
  {
    var stores, out;
    stores, out, pos' := ReadNext(str, pos, maxlen - 1, buf[..len]);
    len' := len;
    if stores {
      ghost var done := buf[..len];
      buf[len] := out;
      len' := len + 1;
      assert buf[..len'] == done + [out];
    }
  }

  /** The switch of printf_decode at the front of s: the byte it stores, if any, and how far it advances. */
  method ReadOne(s: seq<byte>) returns (stores: bool, out: byte, used: nat)
    requires s != []
    ensures DecodeStep(s) == Step(if stores then [out] else [], used)
  {
    if s[0] != BACKSLASH {
      return true, s[0], 1;
    }
    stores, out, used := true, NUL, 2;
    var c := At(s, 1);
    if c == BACKSLASH || c == DQUOTE {
      out := c;
    } else if c == LOWER_N {
      out := LF;
    } else if c == LOWER_R {
      out := CR;
    } else if c == LOWER_T {
      out := TAB;
    } else if c == LOWER_E {
      out := ESC;
    } else if c == LOWER_X {
      stores, out, used := ReadHex(s);
    } else if IsOctal(c) {
      out, used := ReadOctal(s);
    } else {
      stores, used := false, 1;
    }
  }

  method ReadHex(s: seq<byte>) returns (stores: bool, out: byte, used: nat)
    ensures stores <==> HexToNum(At(s, 2)) >= 0
    ensures if HexToByte(s, 2) >= 0 then used == 4 && out == HexToByte(s, 2)
            else if stores then used == 3 && out == HexToNum(At(s, 2)) else used == 2
  {
    used := 2;
    var val := HexToByte(s, used);
    if val < 0 {
      val := HexToNum(At(s, used));
      stores, out := val >= 0, NUL;
      if stores {
        out, used := val, 3;
      }
    } else {
      stores, out, used := true, val, 4;
    }
  }

  method ReadOctal(s: seq<byte>) returns (out: byte, used: nat)
    requires IsOctal(At(s, 1))
    ensures used == if !IsOctal(At(s, 2)) then 2 else if !IsOctal(At(s, 3)) then 3 else 4
    ensures out == (if used == 2 then At(s, 1) - ZERO
                    else if used == 3 then (At(s, 1) - ZERO) * 8 + (At(s, 2) - ZERO)
                    else ((At(s, 1) - ZERO) * 64 + (At(s, 2) - ZERO) * 8 + (At(s, 3) - ZERO)) % 256)
  {
    var val := At(s, 1) - ZERO;
    used := 2;
    if IsOctal(At(s, used)) {
      val := val * 8 + (At(s, used) - ZERO);
      used := used + 1;
    }
    if IsOctal(At(s, used)) {
      val := val * 8 + (At(s, used) - ZERO);
      used := used + 1;
    }
    out := val % 256;
  }
}
