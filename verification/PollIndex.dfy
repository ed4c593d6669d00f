/**
 The poll variant's lookup map: the socket tables are flattened into one array of poll entries, and
 a map from descriptors leads to their entries. Pointers into the array are positions, NULL is -1.
 */
module PollIndex {
  import opened LoopState

  const NULL := -1

  datatype PollFd = PollFd(fd: int, pollin: bool, pollout: bool, revents: int)

  function Elements(s: seq<int>): set<int> {
    set x | x in s
  }

  lemma ElementsNext(s: seq<int>, x: int)
    ensures Elements(s + [x]) == Elements(s) + {x}
  {
  }

  lemma OneMore(a: set<int>, b: set<int>, x: int)
    ensures |a + {x} - b| == |a - b| + if x in a || x in b then 0 else 1
  {
    if x in a || x in b {
      assert a + {x} - b == a - b;
    } else {
      assert a + {x} - b == a - b + {x};
    }
  }

  /** The map m over the entries p is an exact index of three tables: it leads somewhere for exactly the
      registered descriptors, to an entry of that descriptor, which asks for writability if and only if
      it is a writer, and for readability if and only if it is a reader or not a writer. */
  ghost predicate Indexed(p: seq<PollFd>, m: seq<int>, nxt: nat, r: seq<int>, w: seq<int>, e: seq<int>) {
    && nxt <= |p|
    && (forall fd | 0 <= fd < |m| :: m[fd] != NULL <==> fd in r || fd in w || fd in e)
    && (forall fd | 0 <= fd < |m| && m[fd] != NULL :: Entry(p, m[fd], nxt, fd, fd in r || fd !in w, fd in w))
  }

  predicate Entry(p: seq<PollFd>, at: int, nxt: nat, fd: int, pollin: bool, pollout: bool) {
    0 <= at < nxt <= |p| && p[at].fd == fd && p[at].pollin == pollin && p[at].pollout == pollout
  }

  /** Different descriptors have different entries. */
  lemma IndexIsInjective(p: seq<PollFd>, m: seq<int>, nxt: nat, r: seq<int>, w: seq<int>, e: seq<int>, fd: int, fd': int)
    requires Indexed(p, m, nxt, r, w, e)
    requires 0 <= fd < |m| && 0 <= fd' < |m| && m[fd] == m[fd'] != NULL
    ensures fd == fd'
  {
    assert Entry(p, m[fd], nxt, fd, fd in r || fd !in w, fd in w);
    assert Entry(p, m[fd'], nxt, fd', fd' in r || fd' !in w, fd' in w);
  }

  /** Writing entry number nxt and the place of its descriptor extends the index by one element of a table. */
  lemma IndexNewEntry(p: seq<PollFd>, m: seq<int>, nxt: nat, r: seq<int>, w: seq<int>, e: seq<int>,
                      p': seq<PollFd>, m': seq<int>, fd: int, r': seq<int>, w': seq<int>, e': seq<int>)
    requires Indexed(p, m, nxt, r, w, e) && nxt < |p| && 0 <= fd < |m|
    requires |p'| == |p| && forall k | 0 <= k < nxt :: p'[k].fd == p[k].fd && p'[k].pollin == p[k].pollin && p'[k].pollout == p[k].pollout
    requires m' == m[fd := nxt]
    requires p'[nxt].fd == fd && p'[nxt].pollin == (fd in r' || fd !in w') && p'[nxt].pollout == (fd in w')
    requires (r' == r + [fd] && w' == w && e' == e && w == []) || (m[fd] == NULL && r' == r && w' == w + [fd] && e' == e)
             || (m[fd] == NULL && r' == r && w' == w && e' == e + [fd])
    ensures Indexed(p', m', nxt + 1, r', w', e')
  {
    forall x | 0 <= x < |m'| && m'[x] != NULL
      ensures Entry(p', m'[x], nxt + 1, x, x in r' || x !in w', x in w')
    {
      if x != fd {
        assert Entry(p, m[x], nxt, x, x in r || x !in w, x in w);
      }
    }
  }

  /** A writer that has an entry already only gets its writability bit. */
  lemma IndexOldWriter(p: seq<PollFd>, m: seq<int>, nxt: nat, r: seq<int>, w: seq<int>, p': seq<PollFd>, fd: int)
    requires Indexed(p, m, nxt, r, w, []) && 0 <= fd < |m| && m[fd] != NULL
    requires 0 <= m[fd] < |p| && p' == p[m[fd] := p[m[fd]].(pollout := true)]
    ensures Indexed(p', m, nxt, r, w + [fd], [])
  {
    forall x | 0 <= x < |m| && m[x] != NULL
      ensures Entry(p', m[x], nxt, x, x in r || x !in w + [fd], x in w + [fd])
    {
      assert Entry(p, m[x], nxt, x, x in r || x !in w, x in w);
      if x != fd && m[x] == m[fd] {
        IndexIsInjective(p, m, nxt, r, w, [], x, fd);
      }
    }
  }

  /** A table's descriptors without the first entry for fd. */
  function Without(fds: seq<int>, fd: int): seq<int> {
    if fds == [] then []
    else if fds[0] == fd then fds[1..]
    else [fds[0]] + Without(fds[1..], fd)
  }

  lemma {:induction false} WithoutIs(fds: seq<int>, fd: int, i: nat)
    requires i <= |fds| && (forall j | 0 <= j < i :: fds[j] != fd) && (i < |fds| ==> fds[i] == fd)
    ensures Without(fds, fd) == if i == |fds| then fds else fds[..i] + fds[i + 1..]
  {
    if i > 0 {
      var rest := fds[1..];
      WithoutIs(rest, fd, i - 1);
      assert fds == [fds[0]] + rest;
      assert i < |fds| ==> fds[..i] + fds[i + 1..] == [fds[0]] + (rest[..i - 1] + rest[i..]);
    }
  }

  // ---------- which entries have their revents cleared ----------

  /** The k-th descriptor of a table is the first of its kind, and none of those seen before. */
  predicate NewAt(fds: seq<int>, k: nat, seen: seq<int>) {
    k < |fds| && fds[k] !in seen && fds[k] !in fds[..k]
  }

  /** set_fds clears the revents of entry k if there is a k-th reader, or if the k-th writer or the k-th
      exception gets a new entry, whichever entry that is. */
  predicate Cleared(r: seq<int>, w: seq<int>, e: seq<int>, k: nat) {
    k < |r| || NewAt(w, k, r) || NewAt(e, k, r + w)
  }

  /** The revents of p became those of p' and only the cleared ones changed. */
  ghost predicate Clears(p: seq<PollFd>, p': seq<PollFd>, r: seq<int>, w: seq<int>, e: seq<int>) {
    |p'| == |p| && forall k | 0 <= k < |p| :: p'[k].revents == if Cleared(r, w, e, k) then 0 else p[k].revents
  }

  /** At most one entry's revents changed: entry i was cleared if hit is set. */
  ghost predicate ClearsOne(p: seq<PollFd>, p': seq<PollFd>, i: nat, hit: bool) {
    |p'| == |p| && forall k | 0 <= k < |p| :: p'[k].revents == if hit && k == i then 0 else p[k].revents
  }

  lemma NewAtNext(fds: seq<int>, fd: int, k: nat, seen: seq<int>)
    ensures NewAt(fds + [fd], k, seen) <==> NewAt(fds, k, seen) || (k == |fds| && fd !in seen && fd !in fds)
  {
    if k <= |fds| {
      assert (fds + [fd])[..k] == fds[..k];
    }
  }

  lemma ClearsWriter(p: seq<PollFd>, p': seq<PollFd>, p'': seq<PollFd>, r: seq<int>, w: seq<int>, fd: int)
    requires Clears(p, p', r, w, []) && ClearsOne(p', p'', |w|, fd !in r && fd !in w)
    ensures Clears(p, p'', r, w + [fd], [])
  {
    forall k | 0 <= k < |p| ensures p''[k].revents == if Cleared(r, w + [fd], [], k) then 0 else p[k].revents {
      NewAtNext(w, fd, k, r);
    }
  }

  lemma ClearsException(p: seq<PollFd>, p': seq<PollFd>, p'': seq<PollFd>, r: seq<int>, w: seq<int>, e: seq<int>, fd: int)
    requires Clears(p, p', r, w, e) && ClearsOne(p', p'', |e|, fd !in r && fd !in w && fd !in e)
    ensures Clears(p, p'', r, w, e + [fd])
  {
    forall k | 0 <= k < |p| ensures p''[k].revents == if Cleared(r, w, e + [fd], k) then 0 else p[k].revents {
      NewAtNext(e, fd, k, r + w);
    }
  }

  /** Whatever the entries held before, all n used ones are cleared if and only if each of them has a reader,
      a new writer or a new exception of its own number. */
  lemma AllClearedIff(r: seq<int>, w: seq<int>, e: seq<int>, n: nat, size: nat)
    requires n <= size
    ensures (forall p: seq<PollFd>, p': seq<PollFd> | |p| == size && Clears(p, p', r, w, e) :: forall k | 0 <= k < n :: p'[k].revents == 0)
       <==> (forall k | 0 <= k < n :: Cleared(r, w, e, k))
  {
    var p := seq(size, _ => PollFd(0, false, false, 1));
    var p' := seq(size, k requires 0 <= k < size => PollFd(0, false, false, if Cleared(r, w, e, k) then 0 else 1));
    assert Clears(p, p', r, w, e);
    if forall k | 0 <= k < n :: p'[k].revents == 0 {
      forall k | 0 <= k < n ensures Cleared(r, w, e, k) {
        assert p'[k].revents == 0;
      }
    }
  }

  /** realloc: a longer array that starts with the old one's elements; what follows them is arbitrary. */
  method Grow<T>(a: array<T>, n: nat, junk: nat -> T) returns (b: array<T>)
    requires a.Length <= n
    ensures fresh(b) && b.Length == n
    ensures b[..a.Length] == a[..] && forall k | a.Length <= k < n :: b[k] == junk(k)
  {
    var s := a[..];
    b := new T[n](k requires 0 <= k < n => if k < |s| then s[k] else junk(k));
  }

  class PollTables {
    var readers: seq<int>
    var writers: seq<int>
    var exceptions: seq<int>
    var count: nat              // sum of all table counts
    var maxSock: nat
    var pollfds: array<PollFd>  // its length is max_poll_fds
    var pollfdsMap: array<int>  // its length is max_pollfd_map

    ghost predicate InRange(fds: seq<int>)
      reads this
    {
      forall i | 0 <= i < |fds| :: 0 <= fds[i] <= maxSock && fds[i] < pollfdsMap.Length
    }

    ghost predicate Valid()
      reads this
    {
      && count == |readers| + |writers| + |exceptions|
      && InRange(readers) && InRange(writers) && InRange(exceptions)
      && count <= pollfds.Length
    }

    constructor ()
      ensures Valid() && readers == writers == exceptions == []
      ensures fresh(pollfds) && fresh(pollfdsMap) && pollfds.Length == pollfdsMap.Length == 0
    {
      readers, writers, exceptions, count, maxSock := [], [], [], 0, 0;
      pollfds := new PollFd[0];
      pollfdsMap := new int[0];
    }

    /** The part of eloop_sock_table_add_sock that makes room, for a descriptor about to be registered. The
        arrays keep what they hold, and may hold anything behind it. */
    method MakeRoom(sock: nat, junk: nat -> PollFd, junkMap: nat -> int)
      requires Valid()
      modifies this`maxSock, this`pollfds, this`pollfdsMap
      ensures Valid() && sock < pollfdsMap.Length && count + 1 <= pollfds.Length
      ensures maxSock == if sock > old(maxSock) then sock else old(maxSock)
      ensures Grown(old(pollfds), old(pollfds[..]), pollfds, junk) && Grown(old(pollfdsMap), old(pollfdsMap[..]), pollfdsMap, junkMap)
      ensures fresh({pollfds} - {old(pollfds)}) && fresh({pollfdsMap} - {old(pollfdsMap)})
      ensures pollfds.Length == if old(count) + 1 > old(pollfds.Length) then old(count) + 51 else old(pollfds.Length)
      ensures pollfdsMap.Length == if maxSock >= old(pollfdsMap.Length) then maxSock + 50 else old(pollfdsMap.Length)
    {
      var newMaxSock := if sock > maxSock then sock else maxSock;
      if newMaxSock >= pollfdsMap.Length {
        pollfdsMap := Grow(pollfdsMap, newMaxSock + 50, junkMap);
      }
      if count + 1 > pollfds.Length {
        pollfds := Grow(pollfds, count + 1 + 50, junk);
      }
      maxSock := newMaxSock;
    }

    /** The array a, which held was, is the array b, or a new one that starts with its elements. */
    static ghost predicate Grown<T(!new)>(a: array<T>, was: seq<T>, b: array<T>, junk: nat -> T)
      reads b
    {
      && |was| <= b.Length && b[..|was|] == was
      && (b == a || forall k | |was| <= k < b.Length :: b[k] == junk(k))
    }

    function TableOf(kind: Kind): seq<int>
      reads this
    {
      match kind
      case Read => readers
      case Write => writers
      case Exception => exceptions
    }

    /** eloop_sock_table_add_sock */
    method AddSock(kind: Kind, sock: nat, junk: nat -> PollFd, junkMap: nat -> int)
      requires Valid()
      modifies this
      ensures Valid()
      ensures forall k :: TableOf(k) == old(TableOf(k)) + if k == kind then [sock] else []
      ensures count == old(count) + 1 && maxSock == if sock > old(maxSock) then sock else old(maxSock)
      ensures Grown(old(pollfds), old(pollfds[..]), pollfds, junk) && Grown(old(pollfdsMap), old(pollfdsMap[..]), pollfdsMap, junkMap)
      ensures fresh({pollfds} - {old(pollfds)}) && fresh({pollfdsMap} - {old(pollfdsMap)})
      ensures pollfds.Length == if old(count) + 1 > old(pollfds.Length) then old(count) + 51 else old(pollfds.Length)
      ensures pollfdsMap.Length == if maxSock >= old(pollfdsMap.Length) then maxSock + 50 else old(pollfdsMap.Length)
    {
      MakeRoom(sock, junk, junkMap);
      match kind {
        case Read => readers := readers + [sock];
        case Write => writers := writers + [sock];
        case Exception => exceptions := exceptions + [sock];
      }
      count := count + 1;
    }

    /** eloop_sock_table_remove_sock */
    method RemoveSock(kind: Kind, fd: int)
      requires Valid()
      modifies this`readers, this`writers, this`exceptions, this`count
      ensures Valid()
      ensures forall k :: TableOf(k) == if k == kind then Without(old(TableOf(k)), fd) else old(TableOf(k))
    {
      var fds := TableOf(kind);
      var i := 0;
      while i < |fds| && fds[i] != fd
        invariant i <= |fds| && forall j | 0 <= j < i :: fds[j] != fd
      {
        i := i + 1;
      }
      WithoutIs(fds, fd, i);
      if i < |fds| {
        DropEntry(kind, i);
      }
    }

    method DropEntry(kind: Kind, i: nat)
      requires Valid() && i < |TableOf(kind)|
      modifies this`readers, this`writers, this`exceptions, this`count
      ensures Valid()
      ensures forall k :: TableOf(k) == if k == kind then old(TableOf(k)[..i] + TableOf(k)[i + 1..]) else old(TableOf(k))
    {
      InRangeWithout(TableOf(kind), i);
      var fds := TableOf(kind)[..i] + TableOf(kind)[i + 1..];
      match kind {
        case Read => readers := fds;
        case Write => writers := fds;
        case Exception => exceptions := fds;
      }
      count := count - 1;
    }

    lemma InRangeWithout(fds: seq<int>, i: nat)
      requires InRange(fds) && i < |fds|
      ensures InRange(fds[..i] + fds[i + 1..])
    {
    }

    method ClearMap()
      modifies pollfdsMap
      ensures Indexed(pollfds[..], pollfdsMap[..], 0, [], [], [])
    {
      var k := 0;
      while k < pollfdsMap.Length
        invariant k <= pollfdsMap.Length
        invariant forall j | 0 <= j < k :: pollfdsMap[j] == NULL
      {
        pollfdsMap[k] := NULL;
        k := k + 1;
      }
    }

    /** The first entries are those of the readers, in table order. */
    ghost predicate ReaderEntries()
      reads this, pollfds
    {
      |readers| <= pollfds.Length && forall k | 0 <= k < |readers| :: pollfds[k].fd == readers[k]
    }

    method SetReaders() returns (nxt: nat)
      requires Valid() && Indexed(pollfds[..], pollfdsMap[..], 0, [], [], [])
      modifies pollfds, pollfdsMap
      ensures nxt == |readers| && Indexed(pollfds[..], pollfdsMap[..], nxt, readers, [], [])
      ensures ReaderEntries()
      ensures Clears(old(pollfds[..]), pollfds[..], readers, [], [])
    {
      nxt := 0;
      var i := 0;
      while i < |readers|
        invariant nxt == i <= |readers|
        invariant Indexed(pollfds[..], pollfdsMap[..], nxt, readers[..i], [], [])
        invariant forall k | 0 <= k < nxt :: pollfds[k].fd == readers[k] && pollfds[k].revents == 0
        invariant forall k | nxt <= k < pollfds.Length :: pollfds[k] == old(pollfds[k])
      {
        ReaderTurn(i);
        nxt := nxt + 1;
        i := i + 1;
      }
      assert readers[..i] == readers;
    }

    method ReaderTurn(i: nat)
      requires Valid() && i < |readers| && Indexed(pollfds[..], pollfdsMap[..], i, readers[..i], [], [])
      modifies pollfds, pollfdsMap
      ensures Indexed(pollfds[..], pollfdsMap[..], i + 1, readers[..i + 1], [], [])
      ensures pollfds[i] == PollFd(readers[i], true, false, 0)
      ensures forall k | 0 <= k < pollfds.Length && k != i :: pollfds[k] == old(pollfds[k])
    {
      ghost var p, m := pollfds[..], pollfdsMap[..];
      var fd := readers[i];
      pollfds[i] := PollFd(fd, true, false, 0);
      pollfdsMap[fd] := i;
      assert readers[..i + 1] == readers[..i] + [fd];
      IndexNewEntry(p, m, i, readers[..i], [], [], pollfds[..], pollfdsMap[..], fd, readers[..i + 1], [], []);
    }

    /** The descriptors of the second and third table that have no entry as readers. */
    ghost function Extra(w: seq<int>, e: seq<int>): set<int>
      reads this
    {
      Elements(w) + Elements(e) - Elements(readers)
    }

    /** A descriptor that had no entry adds one to the descriptors counted so far. */
    lemma ExtraGrows(w: seq<int>, e: seq<int>, w': seq<int>, e': seq<int>, fd: int)
      requires (w' == w + [fd] && e' == e) || (w' == w && e' == e + [fd])
      ensures |Extra(w', e')| == |Extra(w, e)| + if fd in readers || fd in w || fd in e then 0 else 1
    {
      ElementsNext(w, fd);
      ElementsNext(e, fd);
      assert Elements(w') + Elements(e') == Elements(w) + Elements(e) + {fd};
      OneMore(Elements(w) + Elements(e), Elements(readers), fd);
    }

    lemma {:induction false} ExtraSize(w: seq<int>, e: seq<int>)
      ensures |Extra(w, e)| <= |w| + |e|
      decreases |w| + |e|
    {
      if w != [] {
        var n := |w| - 1;
        assert w == w[..n] + [w[n]];
        ExtraSize(w[..n], e);
        ExtraGrows(w[..n], e, w, e, w[n]);
      } else if e != [] {
        var n := |e| - 1;
        assert e == e[..n] + [e[n]];
        ExtraSize(w, e[..n]);
        ExtraGrows(w, e[..n], w, e, e[n]);
      } else {
        assert Extra(w, e) == {};
      }
    }

    lemma WritersCount(i: nat)
      requires Valid() && i < |writers|
      ensures var w := writers[..i];
        && writers[..i + 1] == w + [writers[i]]
        && |readers| + |Extra(w, [])| < pollfds.Length
        && |Extra(writers[..i + 1], [])| == |Extra(w, [])| + if writers[i] in readers || writers[i] in w then 0 else 1
    {
      assert writers[..i + 1] == writers[..i] + [writers[i]];
      ExtraGrows(writers[..i], [], writers[..i + 1], [], writers[i]);
      ExtraSize(writers[..i], []);
    }

    lemma ExceptionsCount(i: nat)
      requires Valid() && i < |exceptions|
      ensures var e := exceptions[..i];
        && exceptions[..i + 1] == e + [exceptions[i]]
        && |readers| + |Extra(writers, e)| < pollfds.Length
        && |Extra(writers, exceptions[..i + 1])|
           == |Extra(writers, e)| + if exceptions[i] in readers || exceptions[i] in writers || exceptions[i] in e then 0 else 1
    {
      assert exceptions[..i + 1] == exceptions[..i] + [exceptions[i]];
      ExtraGrows(writers, exceptions[..i], writers, exceptions[..i + 1], exceptions[i]);
      ExtraSize(writers, exceptions[..i]);
    }

    /** The i-th step over the writers, of which w were seen: a new entry, or a bit in an old one. */
    method WriterStep(fd: int, i: nat, start: nat, ghost w: seq<int>) returns (nxt: nat)
      requires 0 <= fd < pollfdsMap.Length && i < pollfds.Length && start < pollfds.Length
      requires Indexed(pollfds[..], pollfdsMap[..], start, readers, w, [])
      modifies pollfds, pollfdsMap
      ensures Indexed(pollfds[..], pollfdsMap[..], nxt, readers, w + [fd], [])
      ensures ClearsOne(old(pollfds[..]), pollfds[..], i, fd !in readers && fd !in w)
      ensures forall k | 0 <= k < start :: pollfds[k].fd == old(pollfds[k]).fd
      ensures nxt == start + if fd in readers || fd in w then 0 else 1
    {
      ghost var p, m := pollfds[..], pollfdsMap[..];
      nxt := start;
      var pfd := pollfdsMap[fd];
      if pfd == NULL {
        pfd := nxt;
        pollfds[pfd] := pollfds[pfd].(pollin := false, pollout := false);
        pollfds[pfd] := pollfds[pfd].(fd := fd);
        pollfds[i] := pollfds[i].(revents := 0);
        pollfdsMap[fd] := pfd;
        nxt := nxt + 1;
        pollfds[pfd] := pollfds[pfd].(pollout := true);
        IndexNewEntry(p, m, start, readers, w, [], pollfds[..], pollfdsMap[..], fd, readers, w + [fd], []);
      } else {
        assert Entry(p, m[fd], nxt, fd, fd in readers || fd !in w, fd in w);
        pollfds[pfd] := pollfds[pfd].(pollout := true);
        IndexOldWriter(p, m, nxt, readers, w, pollfds[..], fd);
      }
    }

    method SetWriters(start: nat, ghost was: seq<PollFd>) returns (nxt: nat)
      requires Valid() && start == |readers| && Indexed(pollfds[..], pollfdsMap[..], start, readers, [], [])
      requires ReaderEntries() && Clears(was, pollfds[..], readers, [], [])
      modifies pollfds, pollfdsMap
      ensures nxt == |readers| + |Extra(writers, [])|
      ensures Indexed(pollfds[..], pollfdsMap[..], nxt, readers, writers, [])
      ensures ReaderEntries() && Clears(was, pollfds[..], readers, writers, [])
    {
      nxt := start;
      var i := 0;
      assert Extra(writers[..0], []) == {};
      while i < |writers|
        invariant i <= |writers| && nxt == |readers| + |Extra(writers[..i], [])|
        invariant Indexed(pollfds[..], pollfdsMap[..], nxt, readers, writers[..i], [])
        invariant ReaderEntries() && Clears(was, pollfds[..], readers, writers[..i], [])
      {
        WritersCount(i);
        nxt := WriterTurn(writers[i], i, nxt, writers[..i], was);
        i := i + 1;
      }
      assert writers[..i] == writers;
    }

    method WriterTurn(fd: int, i: nat, start: nat, ghost w: seq<int>, ghost was: seq<PollFd>) returns (nxt: nat)
      requires 0 <= fd < pollfdsMap.Length && i == |w| < pollfds.Length && |readers| <= start < pollfds.Length
      requires Indexed(pollfds[..], pollfdsMap[..], start, readers, w, [])
      requires ReaderEntries() && Clears(was, pollfds[..], readers, w, [])
      modifies pollfds, pollfdsMap
      ensures Indexed(pollfds[..], pollfdsMap[..], nxt, readers, w + [fd], [])
      ensures ReaderEntries() && Clears(was, pollfds[..], readers, w + [fd], [])
      ensures nxt == start + if fd in readers || fd in w then 0 else 1
    {
      ghost var p := pollfds[..];
      nxt := WriterStep(fd, i, start, w);
      ClearsWriter(was, p, pollfds[..], readers, w, fd);
    }

    /** The i-th step over the exceptions, of which e were seen. */
    method ExceptionStep(fd: int, i: nat, start: nat, ghost e: seq<int>) returns (nxt: nat)
      requires 0 <= fd < pollfdsMap.Length && i < pollfds.Length && start < pollfds.Length
      requires Indexed(pollfds[..], pollfdsMap[..], start, readers, writers, e)
      modifies pollfds, pollfdsMap
      ensures Indexed(pollfds[..], pollfdsMap[..], nxt, readers, writers, e + [fd])
      ensures ClearsOne(old(pollfds[..]), pollfds[..], i, fd !in readers && fd !in writers && fd !in e)
      ensures forall k | 0 <= k < start :: pollfds[k].fd == old(pollfds[k]).fd
      ensures nxt == start + if fd in readers || fd in writers || fd in e then 0 else 1
    {
      ghost var p, m := pollfds[..], pollfdsMap[..];
      nxt := start;
      var pfd := pollfdsMap[fd];
      if pfd == NULL {
        pfd := nxt;
        pollfds[pfd] := pollfds[pfd].(pollin := true, pollout := false);
        pollfds[pfd] := pollfds[pfd].(fd := fd);
        pollfds[i] := pollfds[i].(revents := 0);
        pollfdsMap[fd] := pfd;
        nxt := nxt + 1;
        IndexNewEntry(p, m, start, readers, writers, e, pollfds[..], pollfdsMap[..], fd, readers, writers, e + [fd]);
      }
    }

    method SetExceptions(start: nat, ghost was: seq<PollFd>) returns (nxt: nat)
      requires Valid() && start == |readers| + |Extra(writers, [])|
      requires Indexed(pollfds[..], pollfdsMap[..], start, readers, writers, [])
      requires ReaderEntries() && Clears(was, pollfds[..], readers, writers, [])
      modifies pollfds, pollfdsMap
      ensures nxt == |readers| + |Extra(writers, exceptions)|
      ensures Indexed(pollfds[..], pollfdsMap[..], nxt, readers, writers, exceptions)
      ensures ReaderEntries() && Clears(was, pollfds[..], readers, writers, exceptions)
    {
      nxt := start;
      var i := 0;
      while i < |exceptions|
        invariant i <= |exceptions| && nxt == |readers| + |Extra(writers, exceptions[..i])|
        invariant Indexed(pollfds[..], pollfdsMap[..], nxt, readers, writers, exceptions[..i])
        invariant ReaderEntries() && Clears(was, pollfds[..], readers, writers, exceptions[..i])
      {
        ExceptionsCount(i);
        ghost var p := pollfds[..];
        nxt := ExceptionStep(exceptions[i], i, nxt, exceptions[..i]);
        ClearsException(was, p, pollfds[..], readers, writers, exceptions[..i], exceptions[i]);
        i := i + 1;
      }
      assert exceptions[..i] == exceptions;
    }

    /** eloop_sock_table_set_fds: the map becomes an exact index of the tables, and the entries used are one
        for each reader registration and one for each further descriptor, never more than count. */
    method SetFds() returns (nxt: nat)
      requires Valid()
      modifies pollfds, pollfdsMap
      ensures Indexed(pollfds[..], pollfdsMap[..], nxt, readers, writers, exceptions)
      ensures nxt == |readers| + |Extra(writers, exceptions)| <= count <= pollfds.Length
      ensures ReaderEntries() && Clears(old(pollfds[..]), pollfds[..], readers, writers, exceptions)
    {
      ClearMap();
      nxt := SetReaders();
      nxt := SetWriters(nxt, old(pollfds[..]));
      nxt := SetExceptions(nxt, old(pollfds[..]));
      ExtraSize(writers, exceptions);
    }
  }

  /** One reader and one writer: the writer's entry is in use and keeps whatever its memory held before. */
  method StaleEntrySurvives(junk: nat -> PollFd, junkMap: nat -> int) returns (nxt: nat, entry: PollFd)
    ensures nxt == 2 && entry.fd == 5 && entry.pollout && entry.revents == junk(1).revents
  {
    var t := new PollTables();
    t.AddSock(Read, 3, junk, junkMap);
    assert t.TableOf(Read) == [3] && t.TableOf(Write) == [] && t.TableOf(Exception) == [];
    assert t.pollfds[1] == junk(1);
    t.AddSock(Write, 5, junk, junkMap);
    assert t.TableOf(Read) == [3] && t.TableOf(Write) == [5] && t.TableOf(Exception) == [];
    assert t.pollfds[1] == junk(1);
    nxt, entry := EntryOfWriter(t, 3, 5);
  }

  method EntryOfWriter(t: PollTables, fd: nat, fd': nat) returns (nxt: nat, entry: PollFd)
    requires t.Valid() && t.readers == [fd] && t.writers == [fd'] && t.exceptions == [] && fd != fd'
    modifies t.pollfds, t.pollfdsMap
    ensures nxt == 2 <= t.pollfds.Length
    ensures entry.fd == fd' && entry.pollout && entry.revents == old(t.pollfds[1]).revents
  {
    assert t.Extra([fd'], []) == {fd'};
    assert t.writers[0] == fd' && t.readers[0] == fd;
    nxt := t.SetFds();
    ghost var at := t.pollfdsMap[fd'];
    assert Entry(t.pollfds[..], at, nxt, fd', false, true);
    assert at == 1;
    assert !Cleared([fd], [fd'], [], 1);
    entry := t.pollfds[t.pollfdsMap[fd']];
  }
}
