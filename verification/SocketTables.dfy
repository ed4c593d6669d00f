/**
 What the entry points of the loop leave alone, and what registering and unregistering a socket does to the
 tables, said without the search that finds the entry.
 */
module SocketTables {
  import opened LoopState

  predicate IsSockOp(op: Op) {
    op.RegisterSock? || op.UnregisterSock?
  }

  /** Timer calls leave the tables, their counters and the termination flag alone, socket calls the timers, the
      clock and that flag; a request to terminate only raises the flag, and only the loop itself fires timers
      and calls sockets. */
  lemma EffectFrame(s: Loop, op: Op)
    ensures var s' := Effect(s, op);
      && s'.fired == s.fired && s'.called == s.called && s'.ran == s.ran
      && (op.Terminate? ==> s' == s.(terminate := true))
      && (IsSockOp(op) ==> s' == s.(readers := s'.readers, writers := s'.writers, exceptions := s'.exceptions,
                                    count := s'.count, maxSock := s'.maxSock))
      && (!op.Terminate? && !IsSockOp(op) ==> s' == s.(clock := s'.clock, pending := s'.pending,
                                                       registered := s'.registered, cancelled := s'.cancelled))
  {
    match op
    case RegisterSock(k, sock) =>
    case UnregisterSock(k, fd) =>
    case RegisterTimeout(_, _, _, _) =>
    case CancelTimeout(_) =>
    case CancelTimeoutOne(_, _) =>
    case DepleteTimeout(_, _, _, _, _) =>
    case ReplenishTimeout(_, _, _, _, _) =>
    case Terminate =>
  }

  /** A new socket goes behind the entries of its table and counts, also towards the largest descriptor; the other
      tables stay. */
  lemma AddSockMeans(s: Loop, kind: Kind, sock: Sock)
    ensures var s' := DoAddSock(s, kind, sock);
      && GetTable(s', kind).socks == GetTable(s, kind).socks + [sock] && GetTable(s', kind).changed
      && (forall other | other != kind :: GetTable(s', other) == GetTable(s, other))
      && s'.count == s.count + 1
      && sock.sock <= s'.maxSock && s.maxSock <= s'.maxSock && (s'.maxSock == sock.sock || s'.maxSock == s.maxSock)
  {
  }

  /** The first entry of a registered descriptor is cut out, and nothing else; the other tables stay. */
  lemma RemoveSockMeans(s: Loop, kind: Kind, a: seq<Sock>, x: Sock, b: seq<Sock>)
    requires GetTable(s, kind).socks == a + [x] + b && x.sock !in Fds(a)
    ensures var s' := DoRemoveSock(s, kind, x.sock);
      && GetTable(s', kind).socks == a + b && GetTable(s', kind).changed
      && (forall other | other != kind :: GetTable(s', other) == GetTable(s, other))
      && s'.count == s.count - 1 && s'.maxSock == s.maxSock
  {
    var socks := a + [x] + b;
    assert socks[|a|] == x;
    assert FindSock(socks, x.sock) == |a| by {
      assert forall i | 0 <= i < |a| :: socks[i] == a[i] && a[i].sock in Fds(a);
    }
    assert socks[..|a|] == a && socks[|a| + 1..] == b;
  }

  lemma RemoveSockMissing(s: Loop, kind: Kind, fd: nat)
    requires fd !in Fds(GetTable(s, kind).socks)
    ensures DoRemoveSock(s, kind, fd) == s
  {
    var socks := GetTable(s, kind).socks;
    assert forall i | 0 <= i < |socks| :: socks[i].sock in Fds(socks);
  }

  /** Unregistering undoes registering, except for the flag and the largest descriptor. */
  lemma RemoveUndoesAdd(s: Loop, kind: Kind, sock: Sock)
    requires sock.sock !in Fds(GetTable(s, kind).socks)
    ensures var s' := DoRemoveSock(DoAddSock(s, kind, sock), kind, sock.sock);
      && (forall other :: GetTable(s', other).socks == GetTable(s, other).socks)
      && s'.count == s.count
  {
    var socks := GetTable(s, kind).socks;
    assert socks + [sock] == socks + [sock] + [];
    assert socks + [] == socks;
    RemoveSockMeans(DoAddSock(s, kind, sock), kind, socks, sock, []);
  }
}
