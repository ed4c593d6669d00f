/**
 Lists of frequency ranges and their text form, such as 2412-2432,2462,5000-6000:
 freq_range_list_parse and freq_range_list_str (src/common.c), with the parts of atoi and "%u" they use.
 */
module FreqRange {
  import opened Bytes
  import opened ConfigString

  const UINT_RANGE := 0x1_0000_0000
  const INT_MAX := 0x7FFF_FFFF

  /** struct wpa_freq_range: two unsigned ints. */
  datatype Range = Range(min: nat, max: nat)

  predicate IsUnsigned(r: Range) {
    r.min < UINT_RANGE && r.max < UINT_RANGE
  }

  // ---------- numbers ----------

  /** What "%u" prints. */
  function Decimal(n: nat): (r: seq<byte>)
    ensures r != [] && forall c | c in r :: IsDigit(c)
  {
    if n < 10 then [ZERO + n] else Decimal(n / 10) + [ZERO + n % 10]
  }

  predicate IsDigit(c: byte) {
    48 <= c <= 57
  }

  function Digits(s: seq<byte>, acc: int): int {
    if s == [] || !IsDigit(s[0]) then acc else Digits(s[1..], acc * 10 + (s[0] - ZERO))
  }

  /** What atoi makes of the front of a string: white space, a sign and digits. */
  function Atoi(s: seq<byte>): int {
    if s == [] then 0
    else if s[0] == SPACE || 9 <= s[0] <= 13 then Atoi(s[1..])
    else if s[0] == MINUS then -Digits(s[1..], 0)
    else if s[0] == 43 then Digits(s[1..], 0)
    else Digits(s, 0)
  }

  /** The int atoi returns, stored in an unsigned int. */
  function AsUnsigned(x: int): nat {
    x % UINT_RANGE
  }

  lemma {:induction false} DigitsConcat(a: seq<byte>, b: seq<byte>, acc: int)
    requires forall c | c in a :: IsDigit(c)
    ensures Digits(a + b, acc) == Digits(b, Digits(a, acc))
  {
    if a == [] {
      assert a + b == b;
    } else {
      assert (a + b)[1..] == a[1..] + b;
      DigitsConcat(a[1..], b, acc * 10 + (a[0] - ZERO));
    }
  }

  lemma {:induction false} DigitsOfDecimal(n: nat)
    ensures Digits(Decimal(n), 0) == n
  {
    if n >= 10 {
      DigitsOfDecimal(n / 10);
      DigitsConcat(Decimal(n / 10), [ZERO + n % 10], 0);
      assert Digits([ZERO + n % 10], n / 10) == n / 10 * 10 + n % 10;
    }
  }

  /** A printed number is read back up to the first character that is no digit. */
  lemma AtoiReads(n: nat, rest: seq<byte>)
    requires rest == [] || !IsDigit(rest[0])
    ensures Atoi(Decimal(n) + rest) == n
  {
    var s := Decimal(n) + rest;
    assert s[0] == Decimal(n)[0] && Decimal(n)[0] in Decimal(n);
    DigitsOfDecimal(n);
    DigitsConcat(Decimal(n), rest, 0);
  }

  lemma {:induction false} DecimalLength(n: nat, len: nat)
    requires 1 <= len && n < Power10(len)
    ensures |Decimal(n)| <= len
    ensures Power10(len - 1) <= n ==> |Decimal(n)| == len
    decreases len
  {
    if n >= 10 {
      assert len > 1;
      DecimalLength(n / 10, len - 1);
    }
  }

  function Power10(k: nat): nat {
    if k == 0 then 1 else 10 * Power10(k - 1)
  }

  lemma UnsignedLength(n: nat)
    requires n < UINT_RANGE
    ensures |Decimal(n)| <= 10
    ensures n >= 1_000_000_000 ==> |Decimal(n)| == 10
  {
    assert Power10(5) == 100_000;
    assert Power10(10) == 10_000_000_000 by {
      assert Power10(8) == 100_000_000 by { assert Power10(7) == 10_000_000 by { assert Power10(6) == 1_000_000; } }
      assert Power10(9) == 1_000_000_000;
    }
    DecimalLength(n, 10);
  }

  // ---------- lists ----------

  function RangeText(r: Range): seq<byte> {
    if r.min == r.max then Decimal(r.min) else Decimal(r.min) + [MINUS] + Decimal(r.max)
  }

  /** The text of a list, its ranges separated by commas. */
  function ListText(rs: seq<Range>): seq<byte> {
    if rs == [] then []
    else RangeText(rs[0]) + if |rs| == 1 then [] else [COMMA] + ListText(rs[1..])
  }

  /** The range at the front of a text: a second bound counts only before the first comma. */
  function ParseFirst(s: seq<byte>): Range {
    var min := AsUnsigned(Atoi(s));
    var dash, comma := IndexOf(s, MINUS), IndexOf(s, COMMA);
    Range(min, if dash < |s| && (comma == |s| || dash < comma) then AsUnsigned(Atoi(s[dash + 1..])) else min)
  }

  function ParseList(s: seq<byte>): seq<Range>
    decreases |s|
  {
    if s == [] then []
    else
      var comma := IndexOf(s, COMMA);
      [ParseFirst(s)] + if comma == |s| then [] else ParseList(s[comma + 1..])
  }

  lemma RangeTextChars(r: Range)
    ensures COMMA !in RangeText(r) && RangeText(r) != []
    ensures r.min == r.max ==> MINUS !in RangeText(r)
    ensures r.min != r.max ==> IndexOf(RangeText(r), MINUS) == |Decimal(r.min)|
  {
    if r.min != r.max {
      var t := RangeText(r);
      assert t[|Decimal(r.min)|] == MINUS;
      assert forall i | 0 <= i < |Decimal(r.min)| :: t[i] in Decimal(r.min);
    }
  }

  lemma IndexOfFront(t: seq<byte>, rest: seq<byte>, c: byte)
    ensures c !in t ==> IndexOf(t + rest, c) == |t| + IndexOf(rest, c)
    ensures c in t ==> IndexOf(t + rest, c) == IndexOf(t, c)
  {
    var k, s := IndexOf(t + rest, c), t + rest;
    if c in t {
      assert s[IndexOf(t, c)] == c;
    } else {
      assert forall i | 0 <= i < |t| :: s[i] in t;
      assert IndexOf(rest, c) < |rest| ==> s[|t| + IndexOf(rest, c)] == c;
      assert forall i | |t| <= i < |t| + IndexOf(rest, c) :: s[i] == rest[i - |t|];
    }
  }

  /** Where the two delimiters of a printed range stand, with nothing or a comma behind it. */
  lemma Delimiters(r: Range, rest: seq<byte>)
    requires rest == [] || rest[0] == COMMA
    ensures var s := RangeText(r) + rest;
      && IndexOf(s, COMMA) == |RangeText(r)|
      && (r.min == r.max ==> IndexOf(s, MINUS) >= |RangeText(r)| && (rest != [] ==> IndexOf(s, MINUS) > IndexOf(s, COMMA)))
      && (r.min != r.max ==> IndexOf(s, MINUS) == |Decimal(r.min)|)
  {
    var t := RangeText(r);
    RangeTextChars(r);
    IndexOfFront(t, rest, COMMA);
    IndexOfFront(t, rest, MINUS);
    if r.min != r.max {
      assert t[|Decimal(r.min)|] == MINUS;
    }
  }

  lemma ParseSingle(r: Range, rest: seq<byte>)
    requires r.min == r.max <= INT_MAX && (rest == [] || rest[0] == COMMA)
    ensures ParseFirst(RangeText(r) + rest) == r
  {
    Delimiters(r, rest);
    AtoiReads(r.min, rest);
  }

  lemma ParsePair(r: Range, rest: seq<byte>)
    requires r.min != r.max && r.min <= INT_MAX && r.max <= INT_MAX && (rest == [] || rest[0] == COMMA)
    ensures ParseFirst(RangeText(r) + rest) == r
  {
    var s, d, tail := RangeText(r) + rest, Decimal(r.min), Decimal(r.max) + rest;
    PairText(r, rest);
    AtoiReads(r.min, [MINUS] + tail);
    AtoiReads(r.max, rest);
    ParseFirstPair(s, |d|, r.min, r.max);
  }

  lemma PairText(r: Range, rest: seq<byte>)
    requires r.min != r.max && (rest == [] || rest[0] == COMMA)
    ensures var s := RangeText(r) + rest;
      var d := Decimal(r.min);
      s == d + ([MINUS] + (Decimal(r.max) + rest)) && s[|d| + 1..] == Decimal(r.max) + rest
      && IndexOf(s, MINUS) == |d| < IndexOf(s, COMMA)
  {
    Delimiters(r, rest);
  }

  lemma ParseFirstPair(s: seq<byte>, dash: nat, min: nat, max: nat)
    requires dash == IndexOf(s, MINUS) < IndexOf(s, COMMA) && min < UINT_RANGE && max < UINT_RANGE
    requires Atoi(s) == min && Atoi(s[dash + 1..]) == max
    ensures ParseFirst(s) == Range(min, max)
  {
  }

  /** The range at the front of a printed list is read back. */
  lemma ParseFirstInverts(r: Range, rest: seq<byte>)
    requires r.min <= INT_MAX && r.max <= INT_MAX && (rest == [] || rest[0] == COMMA)
    ensures ParseFirst(RangeText(r) + rest) == r
    ensures IndexOf(RangeText(r) + rest, COMMA) == |RangeText(r)|
  {
    Delimiters(r, rest);
    if r.min == r.max {
      ParseSingle(r, rest);
    } else {
      ParsePair(r, rest);
    }
  }

  lemma ParseFront(r: Range, rest: seq<byte>)
    requires r.min <= INT_MAX && r.max <= INT_MAX && (rest == [] || rest[0] == COMMA)
    ensures ParseList(RangeText(r) + rest) == [r] + if rest == [] then [] else ParseList(rest[1..])
  {
    var t := RangeText(r);
    RangeTextChars(r);
    ParseFirstInverts(r, rest);
    DropTo(t, rest);
    ParseNext(t + rest, r, |t|);
  }

  lemma DropTo(t: seq<byte>, rest: seq<byte>)
    ensures rest != [] ==> (t + rest)[|t| + 1..] == rest[1..]
  {
  }

  lemma ParseNext(s: seq<byte>, r: Range, comma: nat)
    requires s != [] && ParseFirst(s) == r && IndexOf(s, COMMA) == comma
    ensures ParseList(s) == [r] + if comma == |s| then [] else ParseList(s[comma + 1..])
  {
  }

  /** Parsing a printed list gives the list back, for every list with bounds up to INT_MAX. */
  lemma {:induction false} ParseInverts(rs: seq<Range>)
    requires forall r | r in rs :: r.min <= INT_MAX && r.max <= INT_MAX
    ensures ParseList(ListText(rs)) == rs
    decreases |rs|
  {
    if rs != [] {
      assert rs[0] in rs;
      var rest := if |rs| == 1 then [] else [COMMA] + ListText(rs[1..]);
      assert ListText(rs) == RangeText(rs[0]) + rest;
      ParseFront(rs[0], rest);
      ParseInverts(rs[1..]);
      assert rest != [] ==> rest[1..] == ListText(rs[1..]);
      assert rs == [rs[0]] + rs[1..];
    }
  }

  // ---------- texts that freq_range_list_str does not write ----------

  predicate IsBlank(c: byte) {
    c == SPACE || 9 <= c <= 13
  }

  /** What atoi makes of blanks, signs and other characters in front. */
  lemma AtoiForms(c: byte, n: nat, rest: seq<byte>)
    requires rest == [] || !IsDigit(rest[0])
    ensures IsBlank(c) ==> Atoi([c] + rest) == Atoi(rest) && Atoi([c] + (Decimal(n) + rest)) == n
    ensures Atoi([MINUS] + (Decimal(n) + rest)) + n == 0 && Atoi([43] + (Decimal(n) + rest)) == n
    ensures rest == [] || (!IsBlank(rest[0]) && rest[0] != MINUS && rest[0] != 43) ==> Atoi(rest) == 0
  {
    var t := Decimal(n) + rest;
    AtoiReads(n, rest);
    DigitsReads(n, rest);
    assert ([c] + rest)[1..] == rest && ([c] + t)[1..] == t && ([MINUS] + t)[1..] == t && ([43] + t)[1..] == t;
  }

  lemma DigitsReads(n: nat, rest: seq<byte>)
    requires rest == [] || !IsDigit(rest[0])
    ensures Digits(Decimal(n) + rest, 0) == n
  {
    DigitsOfDecimal(n);
    DigitsConcat(Decimal(n), rest, 0);
  }

  lemma {:induction false} DigitsStop(t: seq<byte>, rest: seq<byte>, acc: int)
    requires rest == [] || rest[0] == COMMA
    ensures Digits(t + rest, acc) == Digits(t, acc)
  {
    if t == [] {
      assert t + rest == rest;
    } else {
      assert (t + rest)[1..] == t[1..] + rest;
      if IsDigit(t[0]) {
        DigitsStop(t[1..], rest, acc * 10 + (t[0] - ZERO));
      }
    }
  }

  /** A comma ends a number. */
  lemma {:induction false} AtoiStops(t: seq<byte>, rest: seq<byte>)
    requires rest == [] || rest[0] == COMMA
    ensures Atoi(t + rest) == Atoi(t)
  {
    if t == [] {
      assert t + rest == rest;
      assert rest != [] ==> Digits(rest, 0) == 0;
    } else {
      assert (t + rest)[1..] == t[1..] + rest;
      if IsBlank(t[0]) {
        AtoiStops(t[1..], rest);
      } else {
        DigitsStop(t[1..], rest, 0);
        DigitsStop(t, rest, 0);
      }
    }
  }

  /** Any text is read piece by piece, each piece up to its comma by itself. */
  lemma ParsePieces(t: seq<byte>, rest: seq<byte>)
    requires COMMA !in t
    ensures ParseList(t + [COMMA] + rest) == [ParseFirst(t)] + ParseList(rest)
    ensures t != [] ==> ParseList(t) == [ParseFirst(t)]
  {
    var tail := [COMMA] + rest;
    assert t + [COMMA] + rest == t + tail;
    FirstPiece(t, tail);
    IndexOfFront(t, tail, COMMA);
    assert (t + tail)[|t| + 1..] == rest;
  }

  lemma FirstPiece(t: seq<byte>, tail: seq<byte>)
    requires COMMA !in t && tail != [] && tail[0] == COMMA
    ensures ParseFirst(t + tail) == ParseFirst(t)
  {
    var dash := IndexOf(t, MINUS);
    AtoiStops(t, tail);
    IndexOfFront(t, tail, COMMA);
    IndexOfFront(t, tail, MINUS);
    if dash < |t| {
      assert t[dash] == MINUS;
      assert (t + tail)[dash + 1..] == t[dash + 1..] + tail;
      AtoiStops(t[dash + 1..], tail);
    } else {
      assert forall i | 0 <= i < |t| :: t[i] != MINUS;
    }
  }

  /** A piece without a dash is one number twice; otherwise what stands behind its first dash is the second one. */
  lemma PieceMeans(a: seq<byte>, b: seq<byte>)
    requires COMMA !in a && COMMA !in b && MINUS !in a
    ensures ParseFirst(a) == Range(AsUnsigned(Atoi(a)), AsUnsigned(Atoi(a)))
    ensures var t := a + [MINUS] + b; ParseFirst(t) == Range(AsUnsigned(Atoi(t)), AsUnsigned(Atoi(b)))
  {
    var t := a + [MINUS] + b;
    assert t[|a|] == MINUS && t[|a| + 1..] == b;
    assert forall i | 0 <= i < |a| :: t[i] in a;
    assert IndexOf(t, MINUS) == |a|;
    assert forall i | 0 <= i < |t| :: t[i] in a || t[i] == MINUS || t[i] in b;
    assert IndexOf(t, COMMA) == |t|;
  }

  // ---------- printing ----------

  lemma {:induction false} ListTextNext(rs: seq<Range>, r: Range)
    ensures ListText(rs + [r]) == ListText(rs) + (if rs == [] then [] else [COMMA]) + RangeText(r)
  {
    if rs == [] {
      assert rs + [r] == [r];
    } else {
      var x, tail := rs[0], rs[1..];
      ListTextNext(tail, r);
      ListTextCons(x, tail);
      ListTextCons(x, tail + [r]);
      assert rs == [x] + tail && rs + [r] == [x] + (tail + [r]);
      if tail != [] {
        Regroup(RangeText(x), ListText(tail), RangeText(r));
      } else {
        CommaBefore(RangeText(x), RangeText(r));
      }
    }
  }

  lemma ListTextCons(x: Range, tail: seq<Range>)
    ensures ListText([x] + tail) == if tail == [] then RangeText(x) else RangeText(x) + ([COMMA] + ListText(tail))
  {
    assert ([x] + tail)[1..] == tail;
  }

  lemma Regroup(a: seq<byte>, b: seq<byte>, c: seq<byte>)
    ensures a + ([COMMA] + (b + [COMMA] + c)) == (a + ([COMMA] + b)) + [COMMA] + c
  {
  }

  /** Each range takes 1 to 21 characters, and a comma stands between any two. */
  lemma {:induction false} ListTextLength(rs: seq<Range>)
    requires rs != [] && forall r | r in rs :: IsUnsigned(r)
    ensures 2 * |rs| - 1 <= |ListText(rs)| <= 22 * |rs| - 1
  {
    assert rs[0] in rs;
    UnsignedLength(rs[0].min);
    UnsignedLength(rs[0].max);
    if |rs| > 1 {
      ListTextLength(rs[1..]);
    }
  }

  lemma ListTextStep(list: seq<Range>, i: nat)
    requires i < |list| && forall r | r in list :: IsUnsigned(r)
    ensures ListText(list[..i + 1]) == ListText(list[..i]) + ((if i == 0 then [] else [COMMA]) + RangeText(list[i]))
    ensures |ListText(list[..i + 1])| <= 22 * (i + 1)
  {
    var t := RangeText(list[i]);
    OneMore(list, i);
    ListTextNext(list[..i], list[i]);
    if i > 0 {
      CommaBefore(ListText(list[..i]), t);
    } else {
      NothingBefore(t);
    }
    ListTextLength(list[..i + 1]);
  }

  lemma OneMore(list: seq<Range>, i: nat)
    requires i < |list|
    ensures list[..i + 1] == list[..i] + [list[i]]
  {
  }

  lemma CommaBefore(s: seq<byte>, t: seq<byte>)
    ensures s + [COMMA] + t == s + ([COMMA] + t)
  {
  }

  lemma NothingBefore(t: seq<byte>)
    ensures [] + [] + t == [] + ([] + t) == t
  {
  }

  /** How many bytes are set aside for a list: 30 for each range, as an unsigned int. */
  function MaxLen(n: nat): nat {
    n * 30 % UINT_RANGE
  }

  lemma {:induction false} ListTextGrows(list: seq<Range>, i: nat)
    requires i <= |list| && forall r | r in list :: IsUnsigned(r)
    ensures |ListText(list[..i])| <= |ListText(list)|
    decreases |list| - i
  {
    if i < |list| {
      ListTextStep(list, i);
      ListTextGrows(list, i + 1);
    } else {
      assert list[..i] == list;
    }
  }

  /** A list of n equal ranges. */
  function Repeated(n: nat, r: Range): (list: seq<Range>)
    ensures |list| == n && forall x | x in list :: x == r
  {
    seq(n, _ => r)
  }

  lemma {:induction false} RepeatedLength(n: nat, r: Range)
    requires n > 0
    ensures |ListText(Repeated(n, r))| == n * (|RangeText(r)| + 1) - 1
  {
    RepeatedFront(n, r);
    if n > 1 {
      RepeatedLength(n - 1, r);
      OneTimesMore(n, |RangeText(r)| + 1);
    }
  }

  lemma RepeatedFront(n: nat, r: Range)
    requires n > 0
    ensures |ListText(Repeated(n, r))| == |RangeText(r)| + if n == 1 then 0 else 1 + |ListText(Repeated(n - 1, r))|
  {
    assert Repeated(n, r) == [r] + Repeated(n - 1, r);
    ListTextCons(r, Repeated(n - 1, r));
  }

  lemma OneTimesMore(n: nat, k: nat)
    requires n > 0
    ensures n * k == (n - 1) * k + k
  {
  }

  const LONGEST := Range(0xFFFF_FFFE, 0xFFFF_FFFF)
  const SHORTEST := Range(1, 1)

  /** n ranges of the longest and of the shortest kind. */
  lemma Extremes(n: nat)
    requires n > 0
    ensures IsUnsigned(LONGEST) && |ListText(Repeated(n, LONGEST))| == 22 * n - 1
    ensures IsUnsigned(SHORTEST) && |ListText(Repeated(n, SHORTEST))| == 2 * n - 1
  {
    RepeatedLength(n, LONGEST);
    RepeatedLength(n, SHORTEST);
    UnsignedLength(LONGEST.min);
    UnsignedLength(LONGEST.max);
  }

  /** The 30 bytes kept for each of n > 0 ranges suffice for every list of n ranges if and only if their
      product does not wrap, and for some list of n ranges if and only if they do for the shortest one. */
  lemma RoomSuffices(n: nat)
    requires n > 0
    ensures (forall list | |list| == n && (forall r | r in list :: IsUnsigned(r)) :: |ListText(list)| < MaxLen(n))
       <==> n <= UINT_RANGE / 30
    ensures (exists list :: |list| == n && (forall r | r in list :: IsUnsigned(r)) && |ListText(list)| < MaxLen(n))
       <==> 2 * n - 1 < MaxLen(n)
  {
    Extremes(n);
    LongestFits(n);
    forall list | |list| == n && (forall r | r in list :: IsUnsigned(r))
      ensures 2 * n - 1 <= |ListText(list)| <= 22 * n - 1
    {
      ListTextLength(list);
    }
    assert |Repeated(n, LONGEST)| == n && |Repeated(n, SHORTEST)| == n;
  }

  lemma LongestFits(n: nat)
    requires n > 0
    ensures 22 * n - 1 < MaxLen(n) <==> n <= UINT_RANGE / 30
  {
    if UINT_RANGE / 30 < n <= UINT_RANGE / 22 {
      assert n * 30 % UINT_RANGE == n * 30 - UINT_RANGE;
    }
  }

  lemma RoomFor(list: seq<Range>)
    requires list != [] && forall r | r in list :: IsUnsigned(r)
    ensures |list| <= UINT_RANGE / 30 ==> |ListText(list)| < MaxLen(|list|)
  {
    ListTextLength(list);
    LongestFits(|list|);
  }

  /** The lists that run out of room: n ranges of the longest kind, for every n beyond that bound. With one
      range too many only 14 bytes are set aside; with twice as many and one more, short lists fit again. */
  lemma RoomRunsOut(n: nat)
    requires n > 0
    ensures |ListText(Repeated(n, LONGEST))| >= MaxLen(n) <==> n > UINT_RANGE / 30
    ensures |ListText(Repeated(n, SHORTEST))| < MaxLen(n) <==> 2 * n - 1 < MaxLen(n)
    ensures n == 143_165_577 ==> n == UINT_RANGE / 30 + 1 && MaxLen(n) == 14
    ensures n == 286_331_153 ==> 2 * n - 1 < MaxLen(n)
  {
    Extremes(n);
    LongestFits(n);
    MaxLenIs(n, 1, 14);
    MaxLenIs(n, 1, UINT_RANGE - 2);
  }

  lemma MaxLenIs(n: nat, rounds: nat, rest: nat)
    requires rest < UINT_RANGE
    ensures n * 30 == rounds * UINT_RANGE + rest ==> MaxLen(n) == rest
  {
  }

  /** freq_range_list_str: for every non-empty list of unsigned bounds the text of the list, unless it is too
      long for the bytes set aside, which takes more ranges than their product can count. */
  method FreqRangeListStr(list: seq<Range>) returns (buf: array?<byte>)
    requires forall r | r in list :: IsUnsigned(r)
    ensures buf == null <==> list == [] || |ListText(list)| >= MaxLen(|list|)
    ensures 0 < |list| <= UINT_RANGE / 30 ==> buf != null
    ensures buf != null ==> fresh(buf)
    ensures buf != null ==> var t := ListText(list); |t| < buf.Length && buf[..|t|] == t && buf[|t|] == NUL
  {
    if |list| == 0 {
      return null;
    }
    var maxlen := MaxLen(|list|);
    var a := new byte[maxlen];
    RoomFor(list);
    var fits := PrintRanges(a, list);
    buf := if fits then a else null;
  }

  /** The loop of freq_range_list_str. */
  method PrintRanges(a: array<byte>, list: seq<Range>) returns (fits: bool)
    requires list != [] && forall r | r in list :: IsUnsigned(r)
    modifies a
    ensures fits <==> |ListText(list)| < a.Length
    ensures fits ==> Printed(a[..], list, |ListText(list)|)
  {
    var pos, i := 0, 0;
    while i < |list|
      invariant i <= |list|
      invariant Printed(a[..], list[..i], pos)
    {
      var res := PrintRange(a, list, i, pos);
      if SnprintfError(a.Length - pos, res) {
        return false;
      }
      pos := pos + res;
      i := i + 1;
    }
    assert list[..i] == list;
    fits := true;
  }

  /** The buffer holds the text of these ranges, which ends at pos, and its terminator. */
  ghost predicate Printed(a: seq<byte>, list: seq<Range>, pos: nat) {
    && pos == |ListText(list)| <= |a| && a[..pos] == ListText(list)
    && (list != [] ==> pos < |a| && a[pos] == NUL)
  }

  /** Prints the i-th range behind the ranges before it, if there is room for it. */
  method PrintRange(a: array<byte>, list: seq<Range>, i: nat, pos: nat) returns (res: nat)
    requires i < |list| && Printed(a[..], list[..i], pos) && forall r | r in list :: IsUnsigned(r)
    modifies a
    ensures pos + res == |ListText(list[..i + 1])| <= |ListText(list)|
    ensures pos + res < a.Length ==> Printed(a[..], list[..i + 1], pos + res)
  {
    ListTextStep(list, i);
    ListTextGrows(list, i + 1);
    ghost var before := a[..];
    res := PrintText(a, pos, (if i == 0 then [] else [COMMA]) + RangeText(list[i]));
    PrintedNext(before, a[..], list, i, pos, res);
  }

  lemma PrintedNext(before: seq<byte>, a: seq<byte>, list: seq<Range>, i: nat, pos: nat, res: nat)
    requires i < |list| && Printed(before, list[..i], pos) && |a| == |before| && pos + res == |ListText(list[..i + 1])|
    requires ListText(list[..i + 1]) == ListText(list[..i]) + ((if i == 0 then [] else [COMMA]) + RangeText(list[i]))
    requires pos + res < |a| ==>
      a[..pos + res] == before[..pos] + ((if i == 0 then [] else [COMMA]) + RangeText(list[i])) && a[pos + res] == NUL
    ensures pos + res < |a| ==> Printed(a, list[..i + 1], pos + res)
  {
  }

  method PrintText(a: array<byte>, pos: nat, text: seq<byte>) returns (res: nat)
    requires pos <= a.Length
    modifies a
    ensures res == |text|
    ensures pos + res < a.Length ==> a[..][..pos + res] == old(a[..])[..pos] + text && a[..][pos + res] == NUL
  {
    assert text[..|text|] == text;
    assert a[..][..pos] == a[..pos];
    res := Snprintf(a, pos, a.Length - pos, text);
    assert pos + res < a.Length ==> a[..][..pos + res] == a[..pos + res];
  }

  /** What stands behind the first comma. */
  function Behind(s: seq<byte>): (r: seq<byte>)
    ensures s != [] ==> |r| < |s|
  {
    var comma := IndexOf(s, COMMA);
    if comma == |s| then [] else s[comma + 1..]
  }

  /** The range at the front of a text, and what stands behind its comma. */
  method ReadRange(s: seq<byte>) returns (r: Range, next: seq<byte>)
    ensures r == ParseFirst(s) && next == Behind(s)
  {
    var min := AsUnsigned(Atoi(s));
    var dash := StrChr(s, MINUS);
    var comma := StrChr(s, COMMA);
    next := if comma == |s| then [] else s[comma + 1..];
    if dash < |s| && (comma == |s| || dash < comma) {
      r := Range(min, AsUnsigned(Atoi(s[dash + 1..])));
    } else {
      r := Range(min, min);
    }
  }

  /** The ranges found so far and those in the rest of the text are all. */
  ghost predicate Parsed(all: seq<Range>, res: seq<Range>, rest: seq<byte>) {
    all == res + ParseList(rest)
  }

  lemma ParsedNext(all: seq<Range>, res: seq<Range>, s: seq<byte>)
    requires s != [] && Parsed(all, res, s)
    ensures Parsed(all, res + [ParseFirst(s)], Behind(s))
  {
    var rest := ParseList(Behind(s));
    assert ParseList(s) == [ParseFirst(s)] + rest;
    assert res + ([ParseFirst(s)] + rest) == res + [ParseFirst(s)] + rest;
  }

  /** freq_range_list_parse; pos is what the pointer of that name points at, or nothing once it is NULL. */
  method FreqRangeListParse(value: seq<byte>) returns (res: seq<Range>)
    requires NulFree(value)
    ensures res == ParseList(value)
  {
    res := [];
    var pos := value;
    ghost var all := ParseList(value);
    while pos != []
      invariant Parsed(all, res, pos)
      decreases |pos|
    {
      ParsedNext(all, res, pos);
      var r;
      r, pos := ReadRange(pos);
      res := res + [r];
    }
  }
}
