/**
 The tokenizers cstr_token and str_token (src/common.c). A token is a maximal run of characters that
 are no delimiters. str_token ends each token by overwriting the delimiter behind it in the buffer it
 is scanning.
 */
module Tokens {
  import opened Bytes
  import opened Options

  /** Characters from..to of a string. */
  datatype Range = Range(start: nat, end: nat)

  /** The first position from `from` on that holds no delimiter, or |s|. */
  function Skip(s: seq<byte>, delim: seq<byte>, from: nat): (k: nat)
    requires from <= |s|
    ensures from <= k <= |s|
    ensures forall i | from <= i < k :: s[i] in delim
    ensures k < |s| ==> s[k] !in delim
    decreases |s| - from
  {
    if from == |s| || s[from] !in delim then from else Skip(s, delim, from + 1)
  }

  /** The first position from `from` on that holds a delimiter, or |s|. */
  function TokenEnd(s: seq<byte>, delim: seq<byte>, from: nat): (k: nat)
    requires from <= |s|
    ensures from <= k <= |s|
    ensures forall i | from <= i < k :: s[i] !in delim
    ensures k < |s| ==> s[k] in delim
    decreases |s| - from
  {
    if from == |s| || s[from] in delim then from else TokenEnd(s, delim, from + 1)
  }

  /** The tokens from a position on. */
  function Runs(s: seq<byte>, delim: seq<byte>, from: nat): seq<Range>
    requires from <= |s|
    decreases |s| - from
  {
    var a := Skip(s, delim, from);
    if a == |s| then []
    else
      var e := TokenEnd(s, delim, a + 1);
      [Range(a, e)] + Runs(s, delim, e)
  }

  // ---------- what the tokens are ----------

  /** A non-empty stretch without delimiters that cannot be extended on either side. */
  ghost predicate MaximalRun(s: seq<byte>, delim: seq<byte>, r: Range) {
    && r.start < r.end <= |s|
    && (forall i | r.start <= i < r.end :: s[i] !in delim)
    && (r.start > 0 ==> s[r.start - 1] in delim)
    && (r.end < |s| ==> s[r.end] in delim)
  }

  /** No token reaches across this position. */
  predicate Boundary(s: seq<byte>, delim: seq<byte>, from: nat) {
    from == 0 || from >= |s| || s[from - 1] in delim || s[from] in delim
  }

  /** From a boundary on, the tokens are exactly the maximal runs. */
  lemma {:induction false} RunsAreMaximal(s: seq<byte>, delim: seq<byte>, from: nat, r: Range)
    requires from <= |s| && Boundary(s, delim, from)
    ensures r in Runs(s, delim, from) <==> MaximalRun(s, delim, r) && from <= r.start
    decreases |s| - from
  {
    var a := Skip(s, delim, from);
    if a == |s| {
      assert MaximalRun(s, delim, r) ==> s[r.start] !in delim;
    } else {
      var e := TokenEnd(s, delim, a + 1);
      RunsAreMaximal(s, delim, e, r);
      assert Runs(s, delim, from) == [Range(a, e)] + Runs(s, delim, e);
      assert MaximalRun(s, delim, Range(a, e));
      if MaximalRun(s, delim, r) && from <= r.start < e {
        FirstRun(s, delim, from, r);
      }
    }
  }

  /** A maximal run that starts before the first token ends is the first token. */
  lemma FirstRun(s: seq<byte>, delim: seq<byte>, from: nat, r: Range)
    requires from <= r.start && MaximalRun(s, delim, r)
    requires Skip(s, delim, from) < |s| && r.start < TokenEnd(s, delim, Skip(s, delim, from) + 1)
    ensures r == Range(Skip(s, delim, from), TokenEnd(s, delim, Skip(s, delim, from) + 1))
  {
    var a := Skip(s, delim, from);
    var e := TokenEnd(s, delim, a + 1);
    assert s[r.start] !in delim && s[a] !in delim;
    assert r.start == a;
  }

  ghost predicate InOrder(r: seq<Range>, from: nat, n: nat) {
    && (forall i | 0 <= i < |r| :: from <= r[i].start < r[i].end <= n)
    && (forall i, j | 0 <= i < j < |r| :: r[i].end <= r[j].start)
  }

  lemma InOrderFront(x: Range, rest: seq<Range>, from: nat, n: nat)
    requires from <= x.start < x.end <= n && InOrder(rest, x.end, n)
    ensures InOrder([x] + rest, from, n)
  {
    var r := [x] + rest;
    forall i | 0 <= i < |r| ensures from <= r[i].start < r[i].end <= n {
      assert i == 0 || r[i] == rest[i - 1];
    }
    forall i, j | 0 <= i < j < |r| ensures r[i].end <= r[j].start {
      assert r[j] == rest[j - 1] && (i == 0 || r[i] == rest[i - 1]);
    }
  }

  /** The tokens come in order, each ending before the next starts: every call advances. */
  lemma {:induction false} RunsAreOrdered(s: seq<byte>, delim: seq<byte>, from: nat)
    requires from <= |s|
    ensures InOrder(Runs(s, delim, from), from, |s|)
    decreases |s| - from
  {
    var a := Skip(s, delim, from);
    if a < |s| {
      var e := TokenEnd(s, delim, a + 1);
      RunsAreOrdered(s, delim, e);
      InOrderFront(Range(a, e), Runs(s, delim, e), from, |s|);
    }
  }

  /** Starting behind the delimiter that ended a token finds the same tokens. */
  lemma RunsSkipDelimiter(s: seq<byte>, delim: seq<byte>, from: nat)
    requires from < |s| && s[from] in delim
    ensures Runs(s, delim, from) == Runs(s, delim, from + 1)
  {
  }

  // ---------- cstr_token ----------

  /** cstr_token: the next token from last on, or from the start if last is not set. */
  method CstrToken(str: seq<byte>, delim: seq<byte>, last: Option<nat>) returns (token: Option<nat>, last': Option<nat>)
    requires NulFree(str) && (last.Some? ==> last.value <= |str|)
    ensures var a := Skip(str, delim, if last.Some? then last.value else 0);
      if a == |str| then token == None && last' == last
      else token == Some(a) && last' == Some(TokenEnd(str, delim, a + 1))
  {
    var pos := if last.Some? then last.value else 0;
    ghost var a := Skip(str, delim, pos);
    while pos < |str| && str[pos] in delim
      invariant pos <= a && Skip(str, delim, pos) == a
    {
      pos := pos + 1;
    }
    if pos == |str| {
      return None, last;
    }
    var end := pos + 1;
    while end < |str| && str[end] !in delim
      invariant pos < end <= |str| && TokenEnd(str, delim, end) == TokenEnd(str, delim, pos + 1)
    {
      end := end + 1;
    }
    return Some(pos), Some(end);
  }

  /** One more token is found: it moves from what is left to what was found. */
  lemma FoundOne(found: seq<Range>, r: Range, rest: seq<Range>)
    ensures found + ([r] + rest) == found + [r] + rest
  {
  }

  /** The tokens left once the first of them is taken, with or without the delimiter behind it. */
  lemma RunsNext(s: seq<byte>, delim: seq<byte>, from: nat, a: nat, e: nat)
    requires from <= |s| && a == Skip(s, delim, from) < |s| && e == TokenEnd(s, delim, a + 1)
    ensures Runs(s, delim, from) == [Range(a, e)] + Runs(s, delim, e)
    ensures e < |s| ==> Runs(s, delim, e) == Runs(s, delim, e + 1)
  {
    if e < |s| {
      RunsSkipDelimiter(s, delim, e);
    }
  }

  /** Repeated cstr_token enumerates all tokens and ends. */
  method AllTokens(str: seq<byte>, delim: seq<byte>) returns (tokens: seq<Range>)
    requires NulFree(str)
    ensures tokens == Runs(str, delim, 0)
  {
    tokens := [];
    var last: Option<nat> := None;
    ghost var at: nat := 0;
    ghost var all := Runs(str, delim, 0);
    while true
      invariant at == (if last.Some? then last.value else 0) <= |str|
      invariant Found(str, delim, all, tokens, at)
      decreases |str| - at
    {
      var token, next := CstrToken(str, delim, last);
      if token == None {
        break;
      }
      Taken(str, delim, all, tokens, at, token.value, next.value);
      tokens := tokens + [Range(token.value, next.value)];
      last := next;
      at := last.value;
    }
  }

  // ---------- str_token ----------

  /** str_token, on a buffer whose characters from context on are still those of the string s: like
      cstr_token, but a delimiter that ends the token is overwritten and stepped over. */
  method StrToken(buf: array<byte>, ghost s: seq<byte>, delim: seq<byte>, context: Option<nat>)
    returns (token: Option<nat>, context': Option<nat>, ghost end: nat)
    requires NulFree(s) && |s| < buf.Length && buf[|s|] == NUL
    requires context.Some? ==> context.value <= |s|
    requires forall i | (if context.Some? then context.value else 0) <= i < |s| :: buf[i] == s[i]
    modifies buf
    ensures var a := Skip(s, delim, if context.Some? then context.value else 0);
      if a == |s| then token == None && context' == context && buf[..] == old(buf[..])
      else
        && end == TokenEnd(s, delim, a + 1) && token == Some(a)
        && context' == Some(if end < |s| then end + 1 else end)
        && buf[..] == old(buf[..])[end := NUL]
  {
    var pos := if context.Some? then context.value else 0;
    ghost var a := Skip(s, delim, pos);
    while buf[pos] != NUL && buf[pos] in delim
      invariant pos <= a && Skip(s, delim, pos) == a
      invariant forall i | pos <= i < |s| :: buf[i] == s[i]
      decreases |s| - pos
    {
      pos := pos + 1;
    }
    if buf[pos] == NUL {
      return None, context, 0;
    }
    var e := pos + 1;
    while buf[e] != NUL && buf[e] !in delim
      invariant pos < e <= |s| && TokenEnd(s, delim, e) == TokenEnd(s, delim, pos + 1)
      decreases |s| - e
    {
      e := e + 1;
    }
    end := e;
    token := Some(pos);
    if buf[e] != NUL {
      buf[e] := NUL;
      e := e + 1;
    }
    context' := Some(e);
  }

  /** The C string at r.start is the token r of the original string. */
  ghost predicate TokenStands(now: seq<byte>, s: seq<byte>, r: Range)
    requires |s| < |now|
  {
    && r.start < r.end <= |s|
    && now[r.start..r.end] == s[r.start..r.end] && now[r.end] == NUL
  }

  /** Repeated str_token finds the tokens of the original string, although it overwrites the buffer it
      scans; in the end each of them still stands there as a string of its own. */
  method AllTokensInPlace(buf: array<byte>, ghost n: nat, delim: seq<byte>) returns (tokens: seq<nat>, ghost ranges: seq<Range>)
    requires n < buf.Length && buf[n] == NUL && NulFree(buf[..n])
    modifies buf
    ensures ranges == Runs(old(buf[..n]), delim, 0)
    ensures tokens == Starts(ranges)
    ensures forall i | 0 <= i < |ranges| :: TokenStands(buf[..], old(buf[..n]), ranges[i])
  {
    ghost var s := buf[..n];
    tokens, ranges := [], [];
    var context: Option<nat> := None;
    ghost var at: nat := 0;
    ghost var all := Runs(s, delim, 0);
    while true
      invariant at == (if context.Some? then context.value else 0)
      invariant Scanned(buf[..], s, delim, all, ranges, at)
      invariant tokens == Starts(ranges)
      decreases n - at
    {
      var token, next, end := TakeToken(buf, s, delim, all, ranges, context);
      if token == None {
        break;
      }
      tokens := tokens + [token.value];
      ranges := ranges + [Range(token.value, end)];
      context := next;
      at := context.value;
    }
  }

  function Starts(ranges: seq<Range>): seq<nat> {
    seq(|ranges|, i requires 0 <= i < |ranges| => ranges[i].start)
  }

  /** What the buffer looks like when the ranges were found and the scan has come to a position. */
  ghost predicate Scanned(now: seq<byte>, s: seq<byte>, delim: seq<byte>, all: seq<Range>, ranges: seq<Range>, at: nat) {
    && at <= |s| < |now| && now[|s|] == NUL
    && (forall i | at <= i < |s| :: now[i] == s[i])
    && Found(s, delim, all, ranges, at)
    && AllStand(now, s, ranges, at)
  }

  /** One call of str_token during the scan. */
  method TakeToken(buf: array<byte>, ghost s: seq<byte>, delim: seq<byte>, ghost all: seq<Range>, ghost ranges: seq<Range>,
                   context: Option<nat>)
    returns (token: Option<nat>, context': Option<nat>, ghost end: nat)
    requires NulFree(s) && Scanned(buf[..], s, delim, all, ranges, if context.Some? then context.value else 0)
    modifies buf
    ensures token == None ==> all == ranges && buf[..] == old(buf[..])
    ensures token.Some? ==> context'.Some? && (if context.Some? then context.value else 0) < context'.value
    ensures token.Some? ==>
      Scanned(buf[..], s, delim, all, ranges + [Range(token.value, end)], context'.value)
  {
    ghost var at := if context.Some? then context.value else 0;
    ghost var before := buf[..];
    token, context', end := StrToken(buf, s, delim, context);
    if token.Some? {
      Taken(s, delim, all, ranges, at, token.value, end);
      TokensStand(before, s, ranges, at, token.value, end);
    }
  }

  /** The tokens found so far and those from a position on are all tokens. */
  ghost predicate Found(s: seq<byte>, delim: seq<byte>, all: seq<Range>, ranges: seq<Range>, at: nat) {
    at <= |s| && all == ranges + Runs(s, delim, at)
  }

  lemma Taken(s: seq<byte>, delim: seq<byte>, all: seq<Range>, ranges: seq<Range>, at: nat, a: nat, e: nat)
    requires Found(s, delim, all, ranges, at)
    requires a == Skip(s, delim, at) < |s| && e == TokenEnd(s, delim, a + 1)
    ensures Found(s, delim, all, ranges + [Range(a, e)], e)
    ensures e < |s| ==> Found(s, delim, all, ranges + [Range(a, e)], e + 1)
  {
    RunsNext(s, delim, at, a, e);
    FoundOne(ranges, Range(a, e), Runs(s, delim, e));
  }

  ghost predicate AllStand(now: seq<byte>, s: seq<byte>, ranges: seq<Range>, at: nat)
    requires |s| < |now|
  {
    forall i | 0 <= i < |ranges| :: ranges[i].end <= at && TokenStands(now, s, ranges[i])
  }

  /** Ending one more token leaves the earlier ones standing. */
  lemma TokensStand(now: seq<byte>, s: seq<byte>, ranges: seq<Range>, at: nat, a: nat, e: nat)
    requires |s| + 1 <= |now| && AllStand(now, s, ranges, at)
    requires at <= a < e <= |s| && forall i | at <= i < |s| :: now[i] == s[i]
    ensures AllStand(now[e := NUL], s, ranges + [Range(a, e)], e)
    ensures forall i | e < i < |s| :: now[e := NUL][i] == s[i]
  {
    forall r | r in ranges ensures r.end <= e && TokenStands(now[e := NUL], s, r) {
    }
  }
}
