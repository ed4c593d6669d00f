/**
 What cancelling and re-arming mean: the queue an operation leaves is pinned down by which timers
 it holds, and deplete and replenish move the earliest matching deadline to a minimum or a maximum,
 with the exact condition under which they miss it.
 */
module TimerRearm {
  import opened RelTimes
  import opened LoopState
  import opened TimerOrder
  import opened TimerProgress

  // ---------- a queue is determined by its timers ----------

  /** The strict order leaves no freedom: two ordered queues with the same timers are equal. */
  lemma {:induction false} OrderedIsUnique(a: seq<Timer>, b: seq<Timer>)
    requires Ordered(a) && Ordered(b) && forall t :: t in a <==> t in b
    ensures a == b
  {
    if b != [] {
      assert b[0] in b;
    }
    if a != [] {
      assert a[0] in b && b[0] in a;
      assert a[0] == b[0];
      forall t ensures t in a[1..] <==> t in b[1..] {
        TailMembers(a, t);
        TailMembers(b, t);
      }
      OrderedIsUnique(a[1..], b[1..]);
      assert a == [a[0]] + a[1..] && b == [b[0]] + b[1..];
    }
  }

  lemma TailMembers(a: seq<Timer>, t: Timer)
    requires a != [] && Ordered(a)
    ensures t in a[1..] <==> t in a && t != a[0]
  {
    if t in a && t != a[0] {
      var i :| 0 <= i < |a| && a[i] == t;
      assert a[1..][i - 1] == t;
    }
    if t in a[1..] {
      var i :| 0 <= i < |a| - 1 && a[1..][i] == t;
      assert Less(a[0], a[i + 1]);
    }
  }

  /** A wildcard cancel leaves exactly the timers that do not match, in their order, and the number
      it returns is how many are gone. */
  lemma CancelLeavesTheRest(s: Loop, cb: Callback, rest: seq<Timer>)
    requires Inv(s) && Ordered(rest)
    ensures (forall t :: t in rest <==> t in s.pending && !Matches(t, cb)) <==> DoCancel(s, cb).pending == rest
    ensures |s.pending| - |DoCancel(s, cb).pending| == |Select(s.pending, cb, true)|
  {
    SelectMembers(s.pending, cb, false);
    SelectSplits(s.pending, cb);
    assert |multiset(s.pending)| == |s.pending|;
    CancelInv(s, cb);
    PendingOrdered(DoCancel(s, cb));
    if forall t :: t in rest <==> t in s.pending && !Matches(t, cb) {
      OrderedIsUnique(DoCancel(s, cb).pending, rest);
    }
  }

  /** What a wildcard cancel takes: a context counts unless it is the wildcard value. */
  lemma CancelScope(s: Loop, cb: Callback, t: Timer)
    requires t in s.pending
    ensures var stays := t in DoCancel(s, cb).pending;
      && (cb.eloopData != ELOOP_ALL_CTX && cb.userData != ELOOP_ALL_CTX ==> (stays <==> t.cb != cb))
      && (cb.eloopData == ELOOP_ALL_CTX && cb.userData != ELOOP_ALL_CTX ==>
            (stays <==> t.cb.(eloopData := ELOOP_ALL_CTX) != cb))
      && (cb.eloopData != ELOOP_ALL_CTX && cb.userData == ELOOP_ALL_CTX ==>
            (stays <==> t.cb.(userData := ELOOP_ALL_CTX) != cb))
      && (cb.eloopData == cb.userData == ELOOP_ALL_CTX ==> (stays <==> t.cb.handler != cb.handler))
  {
    SelectMembers(s.pending, cb, false);
  }

  /** Cancel-one takes the one timer with exactly this callback that is due first, and of those due together the one
      registered first; if there is none it takes nothing. All others stay, in their order. */
  lemma CancelOneTakesFirst(s: Loop, cb: Callback, wait: nat, t: Timer)
    requires Inv(s) && t in s.pending && t.cb == cb && forall x | x in s.pending && x.cb == cb && x != t :: Less(t, x)
    ensures var s' := DoCancelOne(s, cb, wait);
      && s'.cancelled == s.cancelled + [t]
      && Ordered(s'.pending) && forall x :: x in s'.pending <==> x in s.pending && x != t
  {
    var k := FirstExact(s.pending, cb);
    PendingOrdered(s);
    var i :| 0 <= i < |s.pending| && s.pending[i] == t;
    assert s.pending[k] == t by {
      assert k != i ==> Less(s.pending[k], s.pending[i]);
      assert s.pending[k] in s.pending;
    }
    WithoutMembers(s.pending, k);
  }

  lemma CancelOneTakesNothing(s: Loop, cb: Callback, wait: nat)
    requires forall x | x in s.pending :: x.cb != cb
    ensures DoCancelOne(s, cb, wait) == s.(clock := s.clock + wait)
  {
    assert forall i | 0 <= i < |s.pending| :: s.pending[i].cb != cb;
  }

  /** An ordered queue without its k-th timer. */
  lemma WithoutMembers(ts: seq<Timer>, k: nat)
    requires k < |ts| && Ordered(ts)
    ensures Ordered(RemoveAt(ts, k)) && forall x :: x in RemoveAt(ts, k) <==> x in ts && x != ts[k]
  {
    var rest := RemoveAt(ts, k);
    forall i | 0 <= i < |rest| ensures rest[i] in ts && rest[i] != ts[k] {
      assert rest[i] == ts[if i < k then i else i + 1];
      assert i < k ==> Less(ts[i], ts[k]);
      assert i >= k ==> Less(ts[k], ts[i + 1]);
    }
    forall x | x in ts && x != ts[k] ensures x in rest {
      var i :| 0 <= i < |ts| && ts[i] == x;
      assert rest[if i < k then i else i - 1] == x;
    }
    RemoveAtKeepsOrder([], ts, k);
    assert [] + ts == ts && [] + rest == rest;
  }

  lemma PendingOrdered(s: Loop)
    requires Inv(s)
    ensures Ordered(s.pending)
  {
    forall i, j | 0 <= i < j < |s.pending| ensures Less(s.pending[i], s.pending[j]) {
      assert Less(Timeline(s)[|s.fired| + i], Timeline(s)[|s.fired| + j]);
    }
  }

  /** After a registration the queue holds the old timers and the new one, and that says it all. */
  lemma RegisterAddsOne(s: Loop, secs: nat, usecs: nat, cb: Callback, wait: nat, queue: seq<Timer>)
    requires Inv(s) && Ordered(queue)
    ensures var t := Timer(OfMicros(s.clock + wait + secs * MICROS_PER_SEC + usecs), cb, |s.registered|);
      (forall x :: x in queue <==> x in s.pending || x == t) <==> DoRegister(s, secs, usecs, cb, wait).pending == queue
    ensures DoRegister(s, secs, usecs, cb, wait).clock == s.clock + wait
  {
    var s' := DoRegister(s, secs, usecs, cb, wait);
    var t := s'.registered[|s.registered|];
    InsertMembers(s.pending, t);
    RegisterInv(s, secs, usecs, cb, wait);
    PendingOrdered(s');
    if forall x :: x in queue <==> x in s.pending || x == t {
      OrderedIsUnique(s'.pending, queue);
    }
  }

  // ---------- deplete and replenish ----------

  /** d is the deadline of a pending timer with exactly this callback, and no such timer is due earlier. */
  ghost predicate IsEarliest(ts: seq<Timer>, cb: Callback, d: int) {
    && (exists t :: t in ts && t.cb == cb && Micros(t.time) == d)
    && (forall t | t in ts && t.cb == cb :: d <= Micros(t.time))
  }

  lemma FirstExactIsEarliest(s: Loop, cb: Callback)
    requires Inv(s) && FirstExact(s.pending, cb) < |s.pending|
    ensures IsEarliest(s.pending, cb, Micros(s.pending[FirstExact(s.pending, cb)].time))
  {
    var k := FirstExact(s.pending, cb);
    assert s.pending[k] in s.pending;
    PendingSorted(s);
  }

  /** When a timer is re-armed, its one replacement is due the requested time after the second clock reading. */
  lemma RearmedDeadline(s: Loop, deplete: bool, secs: nat, usecs: nat, cb: Callback, wait: nat, wait2: nat)
    requires Inv(s) && RearmResult(s, deplete, secs, usecs, cb, wait) == 1
    ensures IsEarliest(DoRearm(s, deplete, secs, usecs, cb, wait, wait2).pending, cb,
                       s.clock + wait + wait2 + secs * MICROS_PER_SEC + usecs)
  {
    var s1 := DoCancel(Tick(s, wait), cb);
    var s2 := DoRegister(s1, secs, usecs, cb, wait2);
    var t := s2.registered[|s.registered|];
    InsertMembers(s1.pending, t);
    SelectMembers(s.pending, cb, false);
    assert t in s2.pending;
    assert forall x | x in s1.pending :: x.cb != cb;
  }

  /** What deplete and replenish return and leave: -1 and nothing changed exactly without such a timer; 0 and the
      same timers; or 1, and in place of all that match the callback one new timer, due the request after the
      second clock reading. */
  lemma RearmOutcome(s: Loop, deplete: bool, secs: nat, usecs: nat, cb: Callback, wait: nat, wait2: nat)
    ensures var res, s' := RearmResult(s, deplete, secs, usecs, cb, wait), DoRearm(s, deplete, secs, usecs, cb, wait, wait2);
      var t := Timer(OfMicros(s.clock + wait + wait2 + secs * MICROS_PER_SEC + usecs), cb, |s.registered|);
      && -1 <= res
      && (res == -1 <==> forall x | x in s.pending :: x.cb != cb)
      && (res == -1 ==> s' == s)
      && (res == 0 ==> s' == s.(clock := s.clock + wait))
      && res <= 1
      && (res == 1 ==> s'.registered == s.registered + [t])
      && (res == 1 ==> forall x :: x in s'.pending <==> (x in s.pending && !Matches(x, cb)) || x == t)
  {
    var k := FirstExact(s.pending, cb);
    assert k < |s.pending| ==> s.pending[k] in s.pending;
    var s1 := DoCancel(Tick(s, wait), cb);
    SelectMembers(s.pending, cb, false);
    InsertMembers(s1.pending, DoRegister(s1, secs, usecs, cb, wait2).registered[|s.registered|]);
  }

  /** The request hides whole seconds in its microseconds, so that the field-wise comparison takes it
      for shorter than the time left although it is longer. Never so for a normalised request. */
  predicate Misjudged(secs: nat, usecs: nat, remaining: RelTime) {
    secs < remaining.sec && Micros(remaining) < Micros(RelTime(secs, usecs))
  }

  /** With the clock standing still during the call, deplete makes the earliest matching deadline the
      minimum of the old one and now plus the request, and replenish makes it the maximum, for every
      request that is not misjudged and for no other; an overdue timer is no exception. */
  lemma RearmMovesEarliest(s: Loop, deplete: bool, secs: nat, usecs: nat, cb: Callback, wait: nat)
    requires Inv(s) && FirstExact(s.pending, cb) < |s.pending|
    ensures var t := s.pending[FirstExact(s.pending, cb)];
      var due, request := Micros(t.time), s.clock + wait + secs * MICROS_PER_SEC + usecs;
      var want := if (request < due) == deplete then request else due;
      && IsEarliest(s.pending, cb, due)
      && (IsEarliest(DoRearm(s, deplete, secs, usecs, cb, wait, 0).pending, cb, want)
          <==> !Misjudged(secs, usecs, Remaining(t, s.clock + wait)))
  {
    var t := s.pending[FirstExact(s.pending, cb)];
    var rem, req := Remaining(t, s.clock + wait), RelTime(secs, usecs);
    FirstExactIsEarliest(s, cb);
    BeforeAgainstNormal(req, rem);
    if RearmResult(s, deplete, secs, usecs, cb, wait) == 1 {
      RearmedDeadline(s, deplete, secs, usecs, cb, wait, 0);
    } else {
      assert DoRearm(s, deplete, secs, usecs, cb, wait, 0).pending == s.pending;
    }
  }

  /** A normalised request is never misjudged, and the return value then says whether the deadline moved. */
  lemma NormalRequestJudged(s: Loop, deplete: bool, secs: nat, usecs: nat, cb: Callback, wait: nat)
    requires Inv(s) && FirstExact(s.pending, cb) < |s.pending| && usecs < MICROS_PER_SEC
    ensures var t := s.pending[FirstExact(s.pending, cb)];
      var due, request := Micros(t.time), s.clock + wait + secs * MICROS_PER_SEC + usecs;
      && !Misjudged(secs, usecs, Remaining(t, s.clock + wait))
      && (RearmResult(s, deplete, secs, usecs, cb, wait) == 1 <==> if deplete then request < due else due < request)
  {
    var t := s.pending[FirstExact(s.pending, cb)];
    BeforeIsLess(RelTime(secs, usecs), Remaining(t, s.clock + wait));
    BeforeIsLess(Remaining(t, s.clock + wait), RelTime(secs, usecs));
  }

  /** A depletion to five seconds, written as five million microseconds, of a timer with three left:
      the timer is put off to five seconds. */
  lemma DepleteCanLengthen()
    ensures var cb := Callback(1, 2, 3);
      var s := DoRegister(Init(0), 3, 0, cb, 0);
      var s' := DoRearm(s, true, 0, 5_000_000, cb, 0, 0);
      Inv(s) && IsEarliest(s.pending, cb, 3_000_000) && IsEarliest(s'.pending, cb, 5_000_000)
  {
    var cb := Callback(1, 2, 3);
    var s := DoRegister(Init(0), 3, 0, cb, 0);
    InitInv(0);
    RegisterInv(Init(0), 3, 0, cb, 0);
    assert s.pending == [Timer(OfMicros(3_000_000), cb, 0)];
    assert FirstExact(s.pending, cb) == 0;
    FirstExactIsEarliest(s, cb);
    RearmedDeadline(s, true, 0, 5_000_000, cb, 0, 0);
  }

  /** The timers that do not match keep their deadlines and their order. */
  lemma RearmKeepsOthers(s: Loop, deplete: bool, secs: nat, usecs: nat, cb: Callback, wait: nat, wait2: nat)
    ensures Select(DoRearm(s, deplete, secs, usecs, cb, wait, wait2).pending, cb, false) == Select(s.pending, cb, false)
  {
    if RearmResult(s, deplete, secs, usecs, cb, wait) == 1 {
      var s1 := DoCancel(Tick(s, wait), cb);
      var s2 := DoRegister(s1, secs, usecs, cb, wait2);
      var t := s2.registered[|s.registered|];
      InsertAt(s1.pending, t);
      var k := InsertPos(s1.pending, t);
      assert s1.pending == s1.pending[..k] + s1.pending[k..];
      SelectConcat(s1.pending[..k], s1.pending[k..], cb, false);
      SelectConcat(s1.pending[..k] + [t], s1.pending[k..], cb, false);
      assert (s1.pending[..k] + [t])[..k] == s1.pending[..k];
      SelectTwice(s.pending, cb);
    }
  }

  lemma {:induction false} SelectTwice(ts: seq<Timer>, cb: Callback)
    ensures Select(Select(ts, cb, false), cb, false) == Select(ts, cb, false)
  {
    if ts != [] {
      var n := |ts| - 1;
      SelectTwice(ts[..n], cb);
      var kept := Select(ts[..n], cb, false);
      if Matches(ts[n], cb) {
        assert Select(ts, cb, false) == kept;
      } else {
        var longer := kept + [ts[n]];
        assert longer[..|longer| - 1] == kept && longer[|longer| - 1] == ts[n];
        assert Select(longer, cb, false) == Select(kept, cb, false) + [ts[n]];
      }
    }
  }

  /** Matching is exact here but the cancel inside is not: re-arming a timer whose own context is the
      wildcard value takes other timers with it. Others are safe exactly if none matches as a wildcard. */
  lemma RearmSparesOthers(s: Loop, deplete: bool, secs: nat, usecs: nat, cb: Callback, wait: nat, wait2: nat)
    requires Inv(s) && RearmResult(s, deplete, secs, usecs, cb, wait) == 1
    ensures (forall t | t in s.pending && t.cb != cb :: t in DoRearm(s, deplete, secs, usecs, cb, wait, wait2).pending)
       <==> (forall t | t in s.pending && t.cb != cb :: !Matches(t, cb))
    ensures cb.eloopData != ELOOP_ALL_CTX && cb.userData != ELOOP_ALL_CTX
       ==> forall t | t in s.pending && t.cb != cb :: !Matches(t, cb)
  {
    var s1 := DoCancel(Tick(s, wait), cb);
    var s2 := DoRegister(s1, secs, usecs, cb, wait2);
    InsertMembers(s1.pending, s2.registered[|s.registered|]);
    SelectMembers(s.pending, cb, false);
  }

  /** Depleting a timer whose own context is the wildcard value: the timer of another context is gone. */
  lemma RearmCanTakeOthers()
    ensures var a, b := Callback(1, ELOOP_ALL_CTX, 3), Callback(1, 2, 3);
      var s := DoRegister(DoRegister(Init(0), 10, 0, a, 0), 20, 0, b, 0);
      var s' := DoRearm(s, true, 1, 0, a, 0, 0);
      && Inv(s) && IsEarliest(s.pending, b, 20_000_000)
      && IsEarliest(s'.pending, a, 1_000_000) && forall t | t in s'.pending :: t.cb != b
  {
    var a, b := Callback(1, ELOOP_ALL_CTX, 3), Callback(1, 2, 3);
    var s := DoRegister(DoRegister(Init(0), 10, 0, a, 0), 20, 0, b, 0);
    TwoTimers(a, b);
    PairEarliest(s, s.pending[0], s.pending[1]);
    RearmedDeadline(s, true, 1, 0, a, 0, 0);
    RearmTakes(s, a, b);
  }

  lemma TwoTimers(a: Callback, b: Callback)
    ensures var s := DoRegister(DoRegister(Init(0), 10, 0, a, 0), 20, 0, b, 0);
      Inv(s) && s.pending == [Timer(OfMicros(10_000_000), a, 0), Timer(OfMicros(20_000_000), b, 1)]
  {
    var s1 := DoRegister(Init(0), 10, 0, a, 0);
    InitInv(0);
    RegisterInv(Init(0), 10, 0, a, 0);
    RegisterInv(s1, 20, 0, b, 0);
    assert s1.pending == [Timer(OfMicros(10_000_000), a, 0)];
    InsertAt(s1.pending, Timer(OfMicros(20_000_000), b, 1));
  }

  lemma PairEarliest(s: Loop, t: Timer, u: Timer)
    requires Inv(s) && s.pending == [t, u] && t.cb != u.cb
    ensures FirstExact(s.pending, t.cb) == 0
    ensures IsEarliest(s.pending, u.cb, Micros(u.time))
  {
    assert s.pending[0] == t && s.pending[1] == u;
    FirstExactOf(s, t.cb, t);
    FirstExactOf(s, u.cb, u);
  }

  lemma RearmTakes(s: Loop, a: Callback, b: Callback)
    requires a != b && forall t | t in s.pending && t.cb == b :: Matches(t, a)
    requires RearmResult(s, true, 1, 0, a, 0) == 1
    ensures forall t | t in DoRearm(s, true, 1, 0, a, 0, 0).pending :: t.cb != b
  {
    var s1 := DoCancel(Tick(s, 0), a);
    SelectMembers(s.pending, a, false);
    InsertMembers(s1.pending, DoRegister(s1, 1, 0, a, 0).registered[|s1.registered|]);
  }

  /** The only timer with a callback is the first one with it. */
  lemma FirstExactOf(s: Loop, cb: Callback, t: Timer)
    requires Inv(s) && t in s.pending && t.cb == cb && forall x | x in s.pending && x.cb == cb :: x == t
    ensures var k := FirstExact(s.pending, cb); k < |s.pending| && s.pending[k] == t
    ensures IsEarliest(s.pending, cb, Micros(t.time))
  {
  }
}
