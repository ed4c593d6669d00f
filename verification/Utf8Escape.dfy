/**
 Escaping with backslashes: utf8_escape and utf8_unescape (src/common.c). An output that does not fit
 is reported as a length of 0.
 */
module Utf8Escape {
  import opened Bytes
  import opened ConfigString
  import opened Options

  predicate Special(c: byte) {
    c == BACKSLASH || c == SQUOTE
  }

  function Escape(s: seq<byte>): seq<byte> {
    if s == [] then [] else (if Special(s[0]) then [BACKSLASH, s[0]] else [s[0]]) + Escape(s[1..])
  }

  /** The text before a bare single quote, or all of it, without its escapes; None if it has more than
      room bytes or ends in a bare backslash. The room is checked before every character, the quote too. */
  function UnescapeLoop(s: seq<byte>, room: nat): (r: Option<seq<byte>>)
    ensures r.Some? ==> |r.value| <= room
  {
    if s == [] then Some([])
    else if room == 0 then None
    else if s[0] == SQUOTE then Some([])
    else if s[0] == BACKSLASH && |s| == 1 then None
    else
      var k := if s[0] == BACKSLASH then 1 else 0;
      match UnescapeLoop(s[k + 1..], room - 1)
      case None => None
      case Some(t) => Some([s[k]] + t)
  }

  /** A leading single quote is skipped. */
  function Unescape(s: seq<byte>, room: nat): Option<seq<byte>> {
    UnescapeLoop(if At(s, 0) == SQUOTE then s[1..] else s, room)
  }

  /** Unescaping an escaped text, up to its end or a bare quote, gives it back if there is room; a bare
      quote needs room for one byte more. */
  lemma {:induction false} UnescapeLoopInverts(d: seq<byte>, rest: seq<byte>, room: nat)
    requires rest == [] || rest[0] == SQUOTE
    ensures UnescapeLoop(Escape(d) + rest, room)
         == if |d| < room || (|d| == room && rest == []) then Some(d) else None
    decreases |d|
  {
    var s := Escape(d) + rest;
    if d == [] {
      assert s == rest;
    } else if room > 0 {
      var k := if Special(d[0]) then 1 else 0;
      assert s[k + 1..] == Escape(d[1..]) + rest;
      UnescapeLoopInverts(d[1..], rest, room - 1);
      assert d == [d[0]] + d[1..];
    }
  }

  lemma EscapeIsNotQuoted(d: seq<byte>)
    ensures At(Escape(d), 0) != SQUOTE
  {
  }

  /** utf8_unescape inverts utf8_escape on every text exactly if the output has room for it. */
  lemma UnescapeInverts(d: seq<byte>, room: nat)
    ensures Unescape(Escape(d), room) == if |d| <= room then Some(d) else None
  {
    assert Escape(d) + [] == Escape(d);
    EscapeIsNotQuoted(d);
    UnescapeLoopInverts(d, [], room);
  }

  /** So it does on the escaped text in single quotes, whatever follows, but then one more byte of room is needed. */
  lemma UnescapeInvertsQuoted(d: seq<byte>, rest: seq<byte>, room: nat)
    ensures Unescape([SQUOTE] + (Escape(d) + ([SQUOTE] + rest)), room) == if |d| < room then Some(d) else None
  {
    var q := Escape(d) + ([SQUOTE] + rest);
    assert ([SQUOTE] + q)[1..] == q;
    UnescapeLoopInverts(d, [SQUOTE] + rest, room);
  }

  /** The escaped text has one byte more for each special byte, and for no other. */
  lemma {:induction false} EscapeLength(s: seq<byte>)
    ensures |Escape(s)| == |s| + |Specials(s)|
    ensures forall c :: c in Specials(s) <==> c in s && Special(c)
  {
    if s != [] {
      EscapeLength(s[1..]);
    }
  }

  function Specials(s: seq<byte>): (r: seq<byte>)
    ensures |r| <= |s|
  {
    if s == [] then [] else (if Special(s[0]) then [s[0]] else []) + Specials(s[1..])
  }

  // ---------- texts that utf8_escape does not write ----------

  /** A text with backslashes before its special bytes and before any others that are marked. */
  function EscapeSome(d: seq<byte>, marks: seq<bool>): seq<byte>
    requires |marks| == |d|
  {
    if d == [] then []
    else (if marks[0] || Special(d[0]) then [BACKSLASH, d[0]] else [d[0]]) + EscapeSome(d[1..], marks[1..])
  }

  /** Needless backslashes do no harm: such a text, up to its end or a bare quote, is read as d if there is room; with a
      bare backslash at its end it is refused. */
  lemma {:induction false} UnescapeAny(d: seq<byte>, marks: seq<bool>, tail: seq<byte>, room: nat)
    requires |marks| == |d| && (tail == [] || tail[0] == SQUOTE || tail == [BACKSLASH])
    ensures UnescapeLoop(EscapeSome(d, marks) + tail, room)
         == if tail != [BACKSLASH] && (|d| < room || (|d| == room && tail == [])) then Some(d) else None
    decreases |d|
  {
    var s := EscapeSome(d, marks) + tail;
    if d == [] {
      assert s == tail;
    } else if room > 0 {
      var k := if marks[0] || Special(d[0]) then 1 else 0;
      assert s[k + 1..] == EscapeSome(d[1..], marks[1..]) + tail;
      UnescapeAny(d[1..], marks[1..], tail, room - 1);
      assert d == [d[0]] + d[1..];
    }
  }

  /** And every text is one of those. */
  lemma {:induction false} AnyText(s: seq<byte>) returns (d: seq<byte>, marks: seq<bool>, tail: seq<byte>)
    ensures |marks| == |d| && (tail == [] || tail[0] == SQUOTE || tail == [BACKSLASH])
    ensures s == EscapeSome(d, marks) + tail
  {
    if s == [] || s[0] == SQUOTE || s == [BACKSLASH] {
      d, marks, tail := [], [], s;
    } else {
      var k := if s[0] == BACKSLASH then 1 else 0;
      d, marks, tail := AnyText(s[k + 1..]);
      EscapeSomeFront(s[k], k == 1, d, marks);
      assert s == (if k == 1 then [BACKSLASH, s[1]] else [s[0]]) + s[k + 1..];
      d, marks := [s[k]] + d, [k == 1] + marks;
    }
  }

  lemma EscapeSomeFront(c: byte, mark: bool, d: seq<byte>, marks: seq<bool>)
    requires |marks| == |d|
    ensures EscapeSome([c] + d, [mark] + marks) == (if mark || Special(c) then [BACKSLASH, c] else [c]) + EscapeSome(d, marks)
  {
    assert ([c] + d)[1..] == d && ([mark] + marks)[1..] == marks;
  }

  lemma {:induction false} EscapeConcat(a: seq<byte>, b: seq<byte>)
    ensures Escape(a + b) == Escape(a) + Escape(b)
  {
    if a == [] {
      assert a + b == b;
    } else {
      assert (a + b)[1..] == a[1..] + b;
      EscapeConcat(a[1..], b);
    }
  }

  lemma EscapeNext(s: seq<byte>, i: nat)
    requires i < |s|
    ensures Escape(s[..i + 1]) == Escape(s[..i]) + if Special(s[i]) then [BACKSLASH, s[i]] else [s[i]]
    ensures |Escape(s[..i + 1])| <= |Escape(s)|
  {
    EscapeConcat(s[..i], [s[i]]);
    assert s[..i + 1] == s[..i] + [s[i]];
    assert Escape([s[i]]) == if Special(s[i]) then [BACKSLASH, s[i]] else [s[i]];
    EscapeConcat(s[..i + 1], s[i + 1..]);
    SplitAt(s, i + 1);
  }

  /** The text an input pointer and size stand for: a size of 0 means a terminated string. */
  function Input(inp: seq<byte>, inSize: nat): seq<byte>
    requires if inSize == 0 then NUL in inp else inSize <= |inp|
  {
    if inSize == 0 then inp[..IndexOf(inp, NUL)] else inp[..inSize]
  }

  /** os_strlen */
  method StrLen(s: seq<byte>) returns (n: nat)
    requires NUL in s
    ensures n == IndexOf(s, NUL) < |s|
  {
    n := 0;
    while s[n] != NUL
      invariant n < |s|
      invariant forall i | 0 <= i < n :: s[i] != NUL
      decreases |s| - n
    {
      n := n + 1;
    }
  }

  /** utf8_escape */
  method Utf8Escape(inp: seq<byte>, inSize: nat, outp: array<byte>, outSize: nat) returns (resSize: nat)
    requires if inSize == 0 then NUL in inp else inSize <= |inp|
    requires outSize <= outp.Length
    modifies outp
    ensures var e := Escape(Input(inp, inSize));
      if |e| <= outSize then resSize == |e| && outp[..resSize] == e && (resSize < outSize ==> outp[resSize] == NUL)
      else resSize == 0
    ensures outp[outSize..] == old(outp[outSize..])
  {
    var size := inSize;
    if size == 0 {
      size := StrLen(inp);
    }
    ghost var s := Input(inp, inSize);
    assert s == inp[..size];
    resSize := 0;
    var i := 0;
    while i < size
      invariant i <= size && resSize <= outSize
      invariant outp[..resSize] == Escape(s[..i])
      invariant outp[outSize..] == old(outp[outSize..])
    {
      EscapeNext(s, i);
      resSize := resSize + 1;
      if resSize > outSize {
        return 0;
      }
      var out := resSize - 1;
      if Special(inp[i]) {
        resSize := resSize + 1;
        if resSize > outSize {
          return 0;
        }
        outp[out] := BACKSLASH;
        out := out + 1;
      }
      outp[out] := inp[i];
      i := i + 1;
    }
    assert s[..i] == s;
    if resSize < outSize {
      outp[resSize] := NUL;
    }
  }

  /** After done bytes the rest of s is still to be unescaped. */
  ghost predicate Unescaping(s: seq<byte>, room: nat, done: seq<byte>, rest: seq<byte>) {
    && |done| <= room
    && UnescapeLoop(s, room) ==
         match UnescapeLoop(rest, room - |done|)
         case None => None
         case Some(t) => Some(done + t)
  }

  lemma UnescapeStart(s: seq<byte>, room: nat)
    ensures Unescaping(s, room, [], s)
  {
    if UnescapeLoop(s, room).Some? {
      assert [] + UnescapeLoop(s, room).value == UnescapeLoop(s, room).value;
    }
  }

  lemma UnescapeTurn(s: seq<byte>, room: nat, done: seq<byte>, rest: seq<byte>)
    requires Unescaping(s, room, done, rest) && rest != [] && |done| < room && rest[0] != SQUOTE
    requires rest[0] == BACKSLASH ==> |rest| > 1
    ensures var k := if rest[0] == BACKSLASH then 1 else 0;
      Unescaping(s, room, done + [rest[k]], rest[k + 1..])
  {
    var k := if rest[0] == BACKSLASH then 1 else 0;
    var r := UnescapeLoop(rest[k + 1..], room - |done| - 1);
    if r.Some? {
      assert done + ([rest[k]] + r.value) == done + [rest[k]] + r.value;
    }
  }

  lemma UnescapeStop(s: seq<byte>, room: nat, done: seq<byte>, rest: seq<byte>)
    requires Unescaping(s, room, done, rest)
    ensures rest == [] || (|done| < room && rest[0] == SQUOTE) ==> UnescapeLoop(s, room) == Some(done)
    ensures rest != [] && |done| == room ==> UnescapeLoop(s, room) == None
    ensures rest == [BACKSLASH] ==> UnescapeLoop(s, room) == None
  {
    assert done + [] == done;
  }

  /** utf8_unescape */
  method Utf8Unescape(inp: seq<byte>, inSize: nat, outp: array<byte>, outSize: nat) returns (resSize: nat)
    requires if inSize == 0 then NUL in inp else inSize <= |inp|
    requires outSize <= outp.Length
    modifies outp
    ensures match Unescape(Input(inp, inSize), outSize)
      case None => resSize == 0
      case Some(t) => resSize == |t| && outp[..resSize] == t && (resSize < outSize ==> outp[resSize] == NUL)
    ensures outp[outSize..] == old(outp[outSize..])
  {
    var size := inSize;
    if size == 0 {
      size := StrLen(inp);
    }
    var text := inp[..size];
    if At(text, 0) == SQUOTE {
      text := text[1..];
    }
    resSize := UnescapeText(text, outp, outSize);
  }

  /** The loop of utf8_unescape. */
  method UnescapeText(text: seq<byte>, outp: array<byte>, outSize: nat) returns (resSize: nat)
    requires outSize <= outp.Length
    modifies outp
    ensures match UnescapeLoop(text, outSize)
      case None => resSize == 0
      case Some(t) => resSize == |t| && outp[..resSize] == t && (resSize < outSize ==> outp[resSize] == NUL)
    ensures outp[outSize..] == old(outp[outSize..])
  {
    resSize := 0;
    var pos := 0;
    UnescapeStart(text, outSize);
    assert text[0..] == text && outp[..0] == [];
    while pos < |text|
      invariant pos <= |text| && resSize <= outSize
      invariant Unescaping(text, outSize, outp[..resSize], text[pos..])
      invariant outp[outSize..] == old(outp[outSize..])
    {
      ghost var done, rest := outp[..resSize], text[pos..];
      UnescapeStop(text, outSize, done, rest);
      if resSize >= outSize {
        return 0;
      }
      if text[pos] == SQUOTE {
        outp[resSize] := NUL;
        return;
      }
      if text[pos] == BACKSLASH {
        if pos + 1 == |text| {
          assert rest == [BACKSLASH];
          return 0;
        }
        pos := pos + 1;
      }
      UnescapeTurn(text, outSize, done, rest);
      outp[resSize] := text[pos];
      resSize := resSize + 1;
      pos := pos + 1;
      assert outp[..resSize] == done + [text[pos - 1]];
      assert text[pos..] == rest[if rest[0] == BACKSLASH then 2 else 1..];
    }
    UnescapeStop(text, outSize, outp[..resSize], text[pos..]);
    if resSize < outSize {
      outp[resSize] := NUL;
    }
  }
}
