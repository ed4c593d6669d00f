/**
 Zero-terminated arrays of positive ints (src/common.c): concatenation, adding without duplicates, and
 sorting without duplicates, in place.
 */
module IntArray {

  /** The elements of a zero-terminated array. */
  function Content(a: seq<int>): (c: seq<int>)
    ensures |c| <= |a| && (forall i | 0 <= i < |c| :: c[i] == a[i] != 0)
    ensures |c| < |a| ==> a[|c|] == 0
  {
    if a == [] || a[0] == 0 then [] else [a[0]] + Content(a[1..])
  }

  /** There is exactly one way to stop at the first zero. */
  lemma {:induction false} ContentIs(a: seq<int>, n: nat)
    requires n < |a| && a[n] == 0 && forall i | 0 <= i < n :: a[i] != 0
    ensures Content(a) == a[..n]
  {
    if n > 0 {
      ContentIs(a[1..], n - 1);
      assert a[..n] == [a[0]] + a[1..][..n - 1];
    }
  }

  predicate Positive(s: seq<int>) {
    forall i | 0 <= i < |s| :: 0 < s[i] < 0x8000_0000
  }

  predicate Increasing(s: seq<int>) {
    forall i, j | 0 <= i < j < |s| :: s[i] < s[j]
  }

  ghost function Elements(s: seq<int>): set<int> {
    set x | x in s
  }

  // ---------- sorting ----------

  /** freq_cmp: zero comes last, other values by their difference. */
  function FreqCmp(a: int, b: int): int {
    if a == 0 then 1 else if b == 0 then -1 else a - b
  }

  /** The order of ints with zero behind all others, on values whose difference does not overflow. */
  lemma CmpOrders(a: int, b: int)
    requires 0 <= a < 0x8000_0000 && 0 <= b < 0x8000_0000 && (a != 0 || b != 0)
    ensures FreqCmp(a, b) < 0 <==> a != 0 && (b == 0 || a < b)
    ensures FreqCmp(a, b) == 0 <==> a == b
    ensures -0x8000_0000 <= FreqCmp(a, b) < 0x8000_0000
  {
  }

  predicate Sorted(s: seq<int>) {
    forall i, j | 0 <= i < j < |s| :: FreqCmp(s[i], s[j]) <= 0
  }

  function InsertByCmp(s: seq<int>, x: int): seq<int> {
    if s == [] || FreqCmp(x, s[0]) <= 0 then [x] + s else [s[0]] + InsertByCmp(s[1..], x)
  }

  /** A sorted rearrangement, as qsort produces one. */
  function SortByCmp(s: seq<int>): seq<int> {
    if s == [] then [] else InsertByCmp(SortByCmp(s[..|s| - 1]), s[|s| - 1])
  }

  lemma {:induction false} InsertAdds(s: seq<int>, x: int)
    ensures multiset(InsertByCmp(s, x)) == multiset(s) + multiset{x}
    ensures forall y :: y in InsertByCmp(s, x) <==> y in s || y == x
  {
    if s != [] && FreqCmp(x, s[0]) > 0 {
      InsertAdds(s[1..], x);
      assert s == [s[0]] + s[1..];
    }
  }

  lemma {:induction false} InsertSorts(s: seq<int>, x: int)
    requires Positive(s) && Positive([x]) && Sorted(s)
    ensures Sorted(InsertByCmp(s, x))
  {
    assert [x][0] == x;
    if s != [] && FreqCmp(x, s[0]) > 0 {
      var rest := InsertByCmp(s[1..], x);
      InsertSorts(s[1..], x);
      InsertAdds(s[1..], x);
      forall j | 0 <= j < |rest| ensures FreqCmp(s[0], rest[j]) <= 0 {
        assert rest[j] in rest;
        if rest[j] != x {
          var k :| 0 <= k < |s[1..]| && s[1..][k] == rest[j];
          assert FreqCmp(s[0], s[k + 1]) <= 0;
        }
      }
    }
  }

  lemma SamePositive(s: seq<int>, t: seq<int>)
    requires Positive(s) && forall y | y in t :: y in s
    ensures Positive(t)
  {
    forall i | 0 <= i < |t| ensures 0 < t[i] < 0x8000_0000 {
      assert t[i] in t;
      var k :| 0 <= k < |s| && s[k] == t[i];
    }
  }

  lemma {:induction false} SortSorts(s: seq<int>)
    requires Positive(s)
    ensures Sorted(SortByCmp(s)) && multiset(SortByCmp(s)) == multiset(s) && |SortByCmp(s)| == |s|
    ensures forall y :: y in SortByCmp(s) <==> y in s
  {
    if s != [] {
      var n := |s| - 1;
      assert s == s[..n] + [s[n]];
      SortSorts(s[..n]);
      SamePositive(s[..n], SortByCmp(s[..n]));
      InsertSorts(SortByCmp(s[..n]), s[n]);
      InsertAdds(SortByCmp(s[..n]), s[n]);
    }
    assert |multiset(SortByCmp(s))| == |SortByCmp(s)|;
  }

  /** There is only one sorted rearrangement, whatever way qsort finds it. */
  lemma {:induction false} SortedIsUnique(s: seq<int>, t: seq<int>)
    requires Positive(s) && Sorted(s) && Sorted(t) && multiset(s) == multiset(t)
    ensures s == t
  {
    SameLength(s, t);
    if s != [] {
      SamePositive(s, t);
      SameFirst(s, t);
      WithoutFirst(s);
      WithoutFirst(t);
      SortedIsUnique(s[1..], t[1..]);
    }
  }

  lemma SameFirst(s: seq<int>, t: seq<int>)
    requires s != [] && t != [] && Positive(s) && Positive(t) && Sorted(s) && Sorted(t) && forall x :: x in s <==> x in t
    ensures s[0] == t[0]
  {
    assert s[0] in s && t[0] in t;
    FirstIsLeast(s, t[0]);
    FirstIsLeast(t, s[0]);
  }

  lemma WithoutFirst(s: seq<int>)
    requires s != []
    ensures s == [s[0]] + s[1..] && multiset(s[1..]) == multiset(s) - multiset{s[0]}
    ensures Positive(s) ==> Positive(s[1..])
    ensures Sorted(s) ==> Sorted(s[1..])
  {
    assert s == [s[0]] + s[1..];
  }

  lemma SameLength(s: seq<int>, t: seq<int>)
    requires multiset(s) == multiset(t)
    ensures |s| == |t| && forall x :: x in s <==> x in t
  {
    assert |multiset(s)| == |s| && |multiset(t)| == |t|;
    assert forall x :: x in s <==> x in multiset(s);
    assert forall x :: x in t <==> x in multiset(t);
  }

  lemma FirstIsLeast(s: seq<int>, x: int)
    requires Positive(s) && Sorted(s) && x in s
    ensures s[0] <= x
  {
    var i :| 0 <= i < |s| && s[i] == x;
    assert i > 0 ==> FreqCmp(s[0], s[i]) <= 0;
  }

  /** The first n elements of a sorted sequence, each once: keeps one that differs from the last one kept. */
  function Dedup(s: seq<int>, n: nat): (d: seq<int>)
    requires n <= |s|
    ensures n > 0 ==> d != [] && d[|d| - 1] == s[n - 1]
    ensures |d| <= n
  {
    if n == 0 then []
    else
      var d := Dedup(s, n - 1);
      if d != [] && d[|d| - 1] == s[n - 1] then d else d + [s[n - 1]]
  }

  lemma {:induction false} DedupMembers(s: seq<int>, n: nat)
    requires n <= |s|
    ensures forall y :: y in Dedup(s, n) <==> y in s[..n]
  {
    if n > 0 {
      DedupMembers(s, n - 1);
      assert s[..n] == s[..n - 1] + [s[n - 1]];
    }
  }

  lemma {:induction false} DedupIncreases(s: seq<int>, n: nat)
    requires Positive(s) && Sorted(s) && n <= |s|
    ensures Increasing(Dedup(s, n))
  {
    if n > 0 {
      DedupIncreases(s, n - 1);
      DedupMembers(s, n - 1);
      var d := Dedup(s, n - 1);
      forall i | 0 <= i < |d| ensures d[i] <= s[n - 1] {
        assert d[i] in s[..n - 1];
        var k :| 0 <= k < n - 1 && s[k] == d[i];
        assert FreqCmp(s[k], s[n - 1]) <= 0;
      }
    }
  }

  /** What int_array_sort_unique leaves. */
  function SortUnique(s: seq<int>): seq<int> {
    var t := SortByCmp(s);
    Dedup(t, |t|)
  }

  /** Strictly increasing, and the same set of elements. */
  lemma SortUniqueMeans(s: seq<int>)
    requires Positive(s)
    ensures Increasing(SortUnique(s)) && Elements(SortUnique(s)) == Elements(s)
  {
    SortSorts(s);
    var t := SortByCmp(s);
    SamePositive(s, t);
    DedupIncreases(t, |t|);
    DedupMembers(t, |t|);
    assert t[..|t|] == t;
  }

  /** That determines it. */
  lemma {:induction false} IncreasingIsUnique(a: seq<int>, b: seq<int>)
    requires Increasing(a) && Increasing(b) && forall x :: x in a <==> x in b
    ensures a == b
  {
    if b != [] {
      assert b[0] in b;
    }
    if a != [] {
      assert a[0] in a && a[0] in b && b[0] in a;
      assert a[0] == b[0];
      forall x ensures x in a[1..] <==> x in b[1..] {
        TailMembers(a, x);
        TailMembers(b, x);
      }
      IncreasingIsUnique(a[1..], b[1..]);
      assert a == [a[0]] + a[1..] && b == [b[0]] + b[1..];
    }
  }

  lemma TailMembers(a: seq<int>, x: int)
    requires a != [] && Increasing(a)
    ensures x in a[1..] <==> x in a && x != a[0]
  {
    if x in a && x != a[0] {
      var i :| 0 <= i < |a| && a[i] == x;
      assert a[1..][i - 1] == x;
    }
  }

  // ---------- adding ----------

  /** What int_array_add_unique leaves. */
  function AddUnique(s: seq<int>, x: int): seq<int> {
    if x in s then s else s + [x]
  }

  /** The old elements stay where they are, and x is among them if it was or behind them if it was not. */
  lemma AddUniqueMeans(s: seq<int>, x: int)
    ensures var r := AddUnique(s, x);
      && s <= r && x in r && (forall y :: y in r <==> y in s || y == x)
      && |r| == |s| + if x in s then 0 else 1
  {
  }

  function AddAll(s: seq<int>, xs: seq<int>): seq<int> {
    if xs == [] then s else AddUnique(AddAll(s, xs[..|xs| - 1]), xs[|xs| - 1])
  }

  lemma {:induction false} AddAllMembers(s: seq<int>, xs: seq<int>)
    ensures forall x :: x in AddAll(s, xs) <==> x in s || x in xs
  {
    if xs != [] {
      var n := |xs| - 1;
      AddAllMembers(s, xs[..n]);
      assert xs == xs[..n] + [xs[n]];
    }
  }

  /** Concatenating two arrays and sorting gives the same as adding the elements one by one and sorting. */
  lemma ConcatOrAddAgree(s: seq<int>, xs: seq<int>)
    requires Positive(s) && Positive(xs)
    ensures SortUnique(s + xs) == SortUnique(AddAll(s, xs))
  {
    AddAllMembers(s, xs);
    SamePositive(s + xs, AddAll(s, xs));
    SortUniqueMeans(s + xs);
    SortUniqueMeans(AddAll(s, xs));
    forall x ensures x in SortUnique(s + xs) <==> x in SortUnique(AddAll(s, xs)) {
      assert x in Elements(s + xs) <==> x in Elements(SortUnique(s + xs));
      assert x in Elements(AddAll(s, xs)) <==> x in Elements(SortUnique(AddAll(s, xs)));
    }
    IncreasingIsUnique(SortUnique(s + xs), SortUnique(AddAll(s, xs)));
  }

  // ---------- the array algorithms ----------

  ghost predicate Terminated(a: array?<int>)
    reads a
  {
    a != null ==> |Content(a[..])| < a.Length
  }

  ghost function Values(a: array?<int>): seq<int>
    reads a
  {
    if a == null then [] else Content(a[..])
  }

  /** int_array_len */
  method IntArrayLen(a: array?<int>) returns (i: nat)
    requires Terminated(a)
    ensures i == |Values(a)|
  {
    i := 0;
    while a != null && a[i] != 0
      invariant i <= |Values(a)|
      decreases |Values(a)| - i
    {
      i := i + 1;
    }
  }

  /** os_realloc_array: a longer array that starts with the first len elements of the old one. */
  method Realloc(old_: array?<int>, len: nat, newLen: nat) returns (n: array<int>)
    requires len <= newLen && (if old_ == null then len == 0 else len <= old_.Length)
    ensures fresh(n) && n.Length == newLen
    ensures n[..len] == if old_ == null then [] else old_[..len]
  {
    n := new int[newLen];
    var k := 0;
    while k < len
      invariant k <= len
      invariant forall j | 0 <= j < k :: n[j] == old_[j]
    {
      n[k] := old_[k];
      k := k + 1;
    }
  }

  /** int_array_concat */
  method IntArrayConcat(res: array?<int>, a: array<int>) returns (n: array<int>)
    requires Terminated(res) && Terminated(a)
    ensures fresh(n) && Terminated(n) && Values(n) == Values(res) + Values(a)
  {
    var reslen := IntArrayLen(res);
    var alen := IntArrayLen(a);
    n := Realloc(res, reslen, reslen + alen + 1);
    ghost var front := n[..reslen];
    CopyTo(n, reslen, a, alen + 1);
    assert front == Values(res);
    Joined(n[..], front, a[..], alen);
  }

  /** Copies the first len elements of a to position at of n. */
  method CopyTo(n: array<int>, at: nat, a: array<int>, len: nat)
    requires at + len == n.Length && len <= a.Length && a != n
    modifies n
    ensures n[..] == old(n[..at]) + a[..len]
  {
    var i := 0;
    while i < len
      invariant i <= len
      invariant n[..at] == old(n[..at])
      invariant n[at..at + i] == a[..i]
    {
      n[at + i] := a[i];
      i := i + 1;
    }
    assert n[..] == n[..at] + n[at..at + i];
  }

  lemma Joined(n: seq<int>, front: seq<int>, a: seq<int>, alen: nat)
    requires alen < |a| && Content(a) == a[..alen] && a[alen] == 0 && (forall i | 0 <= i < |front| :: front[i] != 0)
    requires n == front + a[..alen + 1]
    ensures Content(n) == front + Content(a)
  {
    assert forall i | 0 <= i < alen :: a[i] == Content(a)[i];
    ContentIs(n, |front| + alen);
  }

  /** qsort with freq_cmp, on the first n elements. */
  method Qsort(a: array<int>, n: nat)
    requires n <= a.Length && Positive(a[..n])
    modifies a
    ensures a[..n] == SortByCmp(old(a[..n])) && a[n..] == old(a[n..])
  {
    ghost var before := a[..];
    var s := SortByCmp(a[..n]);
    SortSorts(a[..n]);
    var i := 0;
    while i < n
      invariant i <= n
      invariant forall k | 0 <= k < i :: a[k] == s[k]
      invariant forall k | n <= k < a.Length :: a[k] == before[k]
    {
      a[i] := s[i];
      i := i + 1;
    }
    assert a[..n] == s;
  }

  /** The compaction loop of int_array_sort_unique, on n > 0 sorted elements before the terminator. */
  method CompactLoop(a: array<int>, n: nat) returns (i: nat)
    requires 0 < n < a.Length && a[n] == 0 && forall k | 0 <= k < n :: a[k] != 0
    modifies a
    ensures i < n && a[..i + 1] == Dedup(old(a[..n]), n)
  {
    ghost var s := a[..n];
    i := 0;
    var j := 1;
    ghost var d := Dedup(s, 1);
    assert d == [s[0]];
    while a[i] != 0 && a[j] != 0
      invariant 0 <= i < j <= n && d == Dedup(s, j)
      invariant Compacted(a[..], s, d, i, j)
      decreases n - j
    {
      d := Dedup(s, j + 1);
      i := CompactStep(a, s, d, i, j);
      j := j + 1;
    }
    assert a[i] == d[i] == s[j - 1];
    assert j == n;
    assert a[..i + 1] == d;
  }

  /** The kept elements d are in front, the elements from j on are still those of s. */
  ghost predicate Compacted(a: seq<int>, s: seq<int>, d: seq<int>, i: nat, j: nat) {
    && i < j <= |s| < |a| && |d| == i + 1
    && (forall k | 0 <= k <= i :: a[k] == d[k])
    && (forall k | j <= k < |s| :: a[k] == s[k])
    && a[|s|] == 0
  }

  /** One turn of the loop, at the elements i and j; d is what is kept after it. */
  method CompactStep(a: array<int>, ghost s: seq<int>, ghost d: seq<int>, i: nat, j: nat) returns (i': nat)
    requires j < |s| && Compacted(a[..], s, Dedup(s, j), i, j) && d == Dedup(s, j + 1)
    modifies a
    ensures Compacted(a[..], s, d, i', j + 1)
  {
    i' := i;
    if a[i] != a[j] {
      i' := i + 1;
      a[i'] := a[j];
    }
  }

  /** The rest of int_array_sort_unique after qsort. */
  method Compact(a: array<int>, n: nat)
    requires n < a.Length && a[n] == 0 && forall k | 0 <= k < n :: a[k] != 0
    modifies a
    ensures Terminated(a) && Values(a) == Dedup(old(a[..n]), n)
  {
    ghost var s := a[..n];
    var i := 0;
    if n > 0 {
      i := CompactLoop(a, n);
      DedupMembers(s, n);
      ghost var d := Dedup(s, n);
      assert a[..i + 1] == d;
      forall k | 0 <= k <= i ensures a[k] != 0 {
        assert a[k] == d[k] && d[k] in s[..n];
      }
    }
    if a[i] != 0 {
      i := i + 1;
    }
    a[i] := 0;
    ContentIs(a[..], i);
  }

  /** int_array_sort_unique: leaves the elements strictly increasing and each once, zero-terminated. */
  method IntArraySortUnique(a: array?<int>)
    requires Terminated(a) && Positive(Values(a))
    modifies a
    ensures Terminated(a) && Values(a) == SortUnique(old(Values(a)))
    ensures Increasing(Values(a)) && Elements(Values(a)) == Elements(old(Values(a)))
  {
    if a == null {
      return;
    }
    ghost var s := Values(a);
    var alen := IntArrayLen(a);
    assert a[..alen] == s;
    assert a[alen..][0] == 0;
    ghost var beyond := a[alen..];
    Qsort(a, alen);
    SortSorts(s);
    assert a[alen] == beyond[0] == 0;
    forall k | 0 <= k < alen ensures a[k] != 0 {
      assert a[..alen][k] in SortByCmp(s);
    }
    Compact(a, alen);
    SortUniqueMeans(s);
  }

  /** int_array_add_unique; adding a zero only adds a second terminator. */
  method IntArrayAddUnique(res: array?<int>, x: int) returns (n: array?<int>)
    requires Terminated(res)
    ensures Terminated(n) && Values(n) == if x == 0 then Values(res) else AddUnique(Values(res), x)
    ensures x in Values(res) ==> n == res
  {
    var reslen := 0;
    while res != null && res[reslen] != 0
      invariant reslen <= |Values(res)| && forall k | 0 <= k < reslen :: Values(res)[k] != x
      decreases |Values(res)| - reslen
    {
      if res[reslen] == x {
        assert x in Values(res);
        return res;
      }
      reslen := reslen + 1;
    }
    assert reslen == |Values(res)|;
    var m := Realloc(res, reslen, reslen + 2);
    ghost var front := m[..reslen];
    assert front == Values(res);
    m[reslen] := x;
    m[reslen + 1] := 0;
    assert m[..] == front + [x, 0];
    ContentIs(m[..], if x == 0 then reslen else reslen + 1);
    assert m[..][..reslen + 1] == front + [x] && m[..][..reslen] == front;
    n := m;
  }
}
