/**
 inc_byte_array (src/common.c): a byte array of any length as a big-endian counter.
 */
module ByteCounter {

  import opened Bytes

  /** The number a byte array stands for, most significant byte first. */
  function Value(s: seq<byte>): nat {
    if s == [] then 0 else Value(s[..|s| - 1]) * 256 + s[|s| - 1]
  }

  function Power256(n: nat): (p: nat)
    ensures p > 0
  {
    if n == 0 then 1 else 256 * Power256(n - 1)
  }

  /** One increment: the last byte, and the bytes before it when it rolls over. */
  function Increment(s: seq<byte>): (r: seq<byte>)
    ensures |r| == |s|
  {
    if s == [] then []
    else
      var n := |s| - 1;
      if s[n] == 255 then Increment(s[..n]) + [0] else s[..n] + [s[n] + 1]
  }

  lemma {:induction false} ValueBound(s: seq<byte>)
    ensures Value(s) < Power256(|s|)
  {
    if s != [] {
      ValueBound(s[..|s| - 1]);
    }
  }

  lemma {:induction false} ValueIsInjective(s: seq<byte>, t: seq<byte>)
    requires |s| == |t| && Value(s) == Value(t)
    ensures s == t
  {
    if s != [] {
      var n := |s| - 1;
      ValueIsInjective(s[..n], t[..n]);
      assert s == s[..n] + [s[n]] && t == t[..n] + [t[n]];
    }
  }

  lemma RollOver(v: nat, p: nat)
    requires v < p
    ensures (v + 1) % p * 256 == (v * 256 + 256) % (256 * p)
  {
    if v + 1 == p {
      MultipleMod(1, 0, p);
      MultipleMod(1, 0, 256 * p);
    } else {
      SmallMod(v + 1, p);
      SmallMod(v * 256 + 256, 256 * p);
    }
  }

  /** An increment adds one, modulo the number of values an array of this length has. */
  lemma {:induction false} IncrementAddsOne(s: seq<byte>)
    ensures Value(Increment(s)) == (Value(s) + 1) % Power256(|s|)
  {
    if s != [] {
      var n := |s| - 1;
      var front, p := s[..n], Power256(n);
      ValueBound(front);
      assert Value(s) == Value(front) * 256 + s[n];
      if s[n] == 255 {
        IncrementAddsOne(front);
        assert Increment(s)[..n] == Increment(front);
        RollOver(Value(front), p);
      } else {
        assert Increment(s)[..n] == front;
        SmallMod(Value(s) + 1, 256 * p);
      }
    }
  }

  lemma SmallMod(x: nat, m: nat)
    requires x < m
    ensures x % m == x
  {
  }

  /** k increments. */
  function IncrementBy(s: seq<byte>, k: nat): (r: seq<byte>)
    ensures |r| == |s|
  {
    if k == 0 then s else Increment(IncrementBy(s, k - 1))
  }

  lemma {:induction false} IncrementByAdds(s: seq<byte>, k: nat)
    ensures Value(IncrementBy(s, k)) == (Value(s) + k) % Power256(|s|)
  {
    var m := Power256(|s|);
    if k == 0 {
      ValueBound(s);
      SmallMod(Value(s), m);
    } else {
      IncrementByAdds(s, k - 1);
      IncrementAddsOne(IncrementBy(s, k - 1));
      ModSuccessor(Value(s) + k - 1, m);
    }
  }

  lemma ModSuccessor(x: nat, m: nat)
    requires m > 0
    ensures (x % m + 1) % m == (x + 1) % m
  {
    var q, r := x / m, x % m;
    assert x == q * m + r;
    if r + 1 == m {
      assert x + 1 == (q + 1) * m;
      MultipleMod(q + 1, 0, m);
    } else {
      MultipleMod(q, r + 1, m);
    }
    MultipleMod(0, if r + 1 == m then 0 else r + 1, m);
    if r + 1 == m {
      MultipleMod(1, 0, m);
    }
  }

  lemma {:induction false} MultipleMod(q: nat, r: nat, m: nat)
    requires r < m
    ensures (q * m + r) % m == r
  {
    var x := q * m + r;
    assert x == (x / m) * m + x % m;
    var d := q - x / m;
    assert d * m == x % m - r;
    FarFromZero(d, m);
    assert d == 0;
  }

  lemma FarFromZero(d: int, m: int)
    requires m >= 0
    ensures d > 0 ==> d * m >= m
    ensures d < 0 ==> d * m <= -m
  {
    Distribute(d, m);
    if d > 0 {
      NotNegative(d - 1, m);
    } else if d < 0 {
      NotNegative(-d - 1, m);
    }
  }

  lemma Distribute(d: int, m: int)
    ensures (d - 1) * m == d * m - m && (-d - 1) * m == -(d * m) - m
  {
  }

  lemma NotNegative(a: nat, m: nat)
    ensures a * m >= 0
  {
  }

  /** The counter returns to a value exactly after a multiple of 256^n increments, so that no value
      comes up twice within one round. */
  lemma RepeatsAfterFullRounds(s: seq<byte>, k: nat)
    ensures IncrementBy(s, k) == s <==> k % Power256(|s|) == 0
  {
    var m := Power256(|s|);
    IncrementByAdds(s, k);
    ValueBound(s);
    if IncrementBy(s, k) == s {
      CongruentIsMultiple(Value(s), k, m);
    } else if k % m == 0 {
      var q := k / m;
      assert k == q * m;
      MultipleMod(q, Value(s), m);
      ValueIsInjective(IncrementBy(s, k), s);
    }
  }

  lemma CongruentIsMultiple(v: nat, k: nat, m: nat)
    requires v < m && (v + k) % m == v
    ensures k % m == 0
  {
    var q := (v + k) / m;
    assert v + k == q * m + v;
    MultipleMod(q, 0, m);
  }

  /** inc_byte_array: the carry loop stops at the first byte from the end that does not roll over. */
  method IncByteArray(counter: array<byte>, len: nat)
    requires len <= counter.Length
    modifies counter
    ensures counter[..len] == Increment(old(counter[..len]))
    ensures counter[len..] == old(counter[len..])
  {
    ghost var s := counter[..len];
    var pos := len - 1;
    while pos >= 0
      invariant -1 <= pos < len
      invariant counter[..pos + 1] == s[..pos + 1]
      invariant forall k | pos < k < len :: counter[k] == 0 && s[k] == 255
      invariant counter[len..] == old(counter[len..])
    {
      counter[pos] := if counter[pos] == 255 then 0 else counter[pos] + 1;
      if counter[pos] != 0 {
        break;
      }
      pos := pos - 1;
    }
    CarryIs(s, counter[..len], pos);
  }

  lemma {:induction false} CarryIs(s: seq<byte>, t: seq<byte>, pos: int)
    requires -1 <= pos < |s| == |t|
    requires forall k | pos < k < |s| :: t[k] == 0 && s[k] == 255
    requires pos >= 0 ==> s[pos] != 255 && t[pos] == s[pos] + 1 && t[..pos] == s[..pos]
    ensures t == Increment(s)
  {
    if s != [] {
      var n := |s| - 1;
      if pos < n {
        assert pos >= 0 ==> t[..n][..pos] == s[..n][..pos];
        CarryIs(s[..n], t[..n], pos);
      }
      assert t == t[..n] + [t[n]];
    }
  }
}
