/**
 The message-queue file server (10-message-queues/client-server): any number of clients, each with a
 private response queue, one server that forks a child for every request, and children that send a file
 in pieces and then an end marker. The processes run interleaved in any order; read may return fewer
 bytes than asked for and may fail, and so may msgsnd, which waits while its queue is full.
 */
module FileServer {
  import opened Bytes
  import opened Options

  const RESP_MSG_SIZE := 8192

  datatype MsgType = Failure | Data | End

  datatype Msg = Msg(mtype: MsgType, data: seq<byte>)

  /** The bytes of a row of messages. */
  function Payload(ms: seq<Msg>): seq<byte> {
    if ms == [] then [] else Payload(ms[..|ms| - 1]) + ms[|ms| - 1].data
  }

  predicate AllData(ms: seq<Msg>) {
    forall i | 0 <= i < |ms| :: ms[i].mtype == Data && 1 <= |ms[i].data| <= RESP_MSG_SIZE
  }

  lemma {:induction false} PayloadConcat(a: seq<Msg>, b: seq<Msg>)
    ensures Payload(a + b) == Payload(a) + Payload(b)
  {
    if b == [] {
      assert a + b == a;
    } else {
      var n := |b| - 1;
      assert (a + b)[..|a + b| - 1] == a + b[..n];
      PayloadConcat(a, b[..n]);
    }
  }

  lemma PayloadOne(ms: seq<Msg>, m: Msg)
    ensures Payload(ms + [m]) == Payload(ms) + m.data
  {
    assert (ms + [m])[..|ms|] == ms;
  }

  // ---------- one connection ----------

  /** Where the client is: before its request, waiting for the first response, in the loop, or through. */
  datatype Client = Start | Waiting | Receiving | Finished | Refused

  /** Where the child that serves it is: not forked yet, before open, after a failed open, before read,
      before msgsnd with a filled buffer, before the end marker, or gone. */
  datatype Child = Unborn | Opening | Refusing | Reading | Sending(buf: seq<byte>) | Ending | Exited

  /** A client, the file it asks for (None if it cannot be opened), its child and its queue, which has
      limited room. The fields sent, got, trouble and short are histories: the messages sent and received,
      whether a read or send failed, and whether a read before the last returned less than a full buffer. */
  datatype Conn = Conn(
    file: Option<seq<byte>>,
    room: nat,
    client: Client, totBytes: nat, numMsgs: nat,
    child: Child, off: nat,
    queue: seq<Msg>,
    sent: seq<Msg>, got: seq<Msg>, trouble: bool, short: bool)

  datatype Move = Open | Read(n: int) | Send(ok: bool) | Receive

  /** The text "Couldn't open" and its terminator. */
  const COULD_NOT_OPEN: Msg := Msg(Failure, [67, 111, 117, 108, 100, 110, 39, 116, 32, 111, 112, 101, 110, 0])

  /** What msgsnd does to the connection. */
  function Enqueue(c: Conn, m: Msg, ok: bool): Conn {
    if ok then c.(queue := c.queue + [m], sent := c.sent + [m]) else c.(trouble := true)
  }

  /** The queue takes a message only if its bytes and its number of messages stay within the room. */
  predicate HasRoom(c: Conn, m: Msg) {
    |Payload(c.queue)| + |m.data| <= c.room && |c.queue| + 1 <= c.room
  }

  /** msgsnd waits while there is no room. */
  function SendMove(c: Conn, m: Msg, ok: bool, next: Child): Option<Conn> {
    if ok && !HasRoom(c, m) then None else Some(Enqueue(c, m, ok).(child := next))
  }

  /** The child's move, if it can make it. A read returns at most what is left and what fits, 0 only at
      the end of the file, and a negative number on failure. */
  function ChildMove(c: Conn, m: Move): Option<Conn> {
    match (c.child, m)
    case (Opening, Open) => Some(c.(child := if c.file.Some? then Reading else Refusing))
    case (Reading, Read(n)) =>
      if c.file == None || c.off > |c.file.value| then None
      else
        var left := |c.file.value| - c.off;
        if n < 0 then Some(c.(child := Ending, trouble := true))
        else if n == 0 && left == 0 then Some(c.(child := Ending))
        else if 0 < n <= left && n <= RESP_MSG_SIZE then
          Some(c.(child := Sending(c.file.value[c.off..c.off + n]), off := c.off + n,
                  short := c.short || (n < RESP_MSG_SIZE && n < left)))
        else None
    case (Refusing, Send(ok)) => SendMove(c, COULD_NOT_OPEN, ok, Exited)
    case (Sending(buf), Send(ok)) => SendMove(c, Msg(Data, buf), ok, if ok then Reading else Ending)
    case (Ending, Send(ok)) => SendMove(c, Msg(End, []), ok, Exited)
    case _ => None
  }

  /** The client takes the first message of its queue: the first response may be a refusal, the loop
      counts messages and bytes until one that is not data. */
  function ClientMove(c: Conn): Option<Conn> {
    if c.queue == [] then None
    else
      var m := c.queue[0];
      var c1 := c.(queue := c.queue[1..], got := c.got + [m]);
      match c.client
      case Waiting =>
        if m.mtype == Failure then Some(c1.(client := Refused))
        else Some(c1.(client := if m.mtype == Data then Receiving else Finished, totBytes := |m.data|, numMsgs := 1))
      case Receiving =>
        Some(c1.(client := if m.mtype == Data then Receiving else Finished,
                 totBytes := c.totBytes + |m.data|, numMsgs := c.numMsgs + 1))
      case _ => None
  }

  function ConnMove(c: Conn, m: Move): Option<Conn> {
    if m == Receive then ClientMove(c) else ChildMove(c, m)
  }

  /** What the child has sent so far, and what it has read, against the file. */
  ghost predicate Progress(child: Child, file: Option<seq<byte>>, off: nat, sent: seq<Msg>, trouble: bool, short: bool) {
    match child
    case Unborn => sent == [] && off == 0 && !trouble && !short
    case Opening => sent == [] && off == 0 && !trouble && !short
    case Refusing => sent == [] && file == None
    case Reading =>
      AllData(sent) && file.Some? && !trouble && off <= |file.value| && Payload(sent) == file.value[..off]
      && (!short ==> FullPieces(|sent|, off, |file.value|))
    case Sending(buf) =>
      AllData(sent) && file.Some? && !trouble && 1 <= |buf| <= RESP_MSG_SIZE && off <= |file.value|
      && Payload(sent) + buf == file.value[..off] && (!short ==> FullPieces(|sent| + 1, off, |file.value|))
    case Ending => file.Some? && Delivered(file.value, sent, trouble, short)
    case Exited =>
      (trouble && sent == [])
      || (file == None && sent == [COULD_NOT_OPEN])
      || (file.Some? && trouble && Delivered(file.value, sent, trouble, short))
      || (file.Some? && sent != [] && sent[|sent| - 1] == Msg(End, [])
          && Delivered(file.value, sent[..|sent| - 1], trouble, short))
  }

  ghost predicate ChildInv(c: Conn) {
    Progress(c.child, c.file, c.off, c.sent, c.trouble, c.short)
  }

  /** Data messages with a prefix of the file, all of it unless there was trouble. */
  ghost predicate Delivered(file: seq<byte>, ms: seq<Msg>, trouble: bool, short: bool) {
    && AllData(ms) && Payload(ms) <= file
    && (!trouble ==> Payload(ms) == file)
    && (!trouble && !short ==> FullPieces(|ms|, |file|, |file|))
  }

  /** So many full-size reads reach offset off in a file of this length; only the last may be smaller. */
  predicate FullPieces(k: nat, off: nat, length: nat) {
    && off == (if k * RESP_MSG_SIZE < length then k * RESP_MSG_SIZE else length)
    && (k > 0 ==> (k - 1) * RESP_MSG_SIZE < length)
  }

  /** What the client has counted: everything it has received, up to the first message that is not data. */
  ghost predicate Counted(client: Client, got: seq<Msg>, totBytes: nat, numMsgs: nat) {
    match client
    case Start => got == []
    case Waiting => got == []
    case Receiving => got != [] && AllData(got) && numMsgs == |got| && totBytes == |Payload(got)|
    case Finished =>
      got != [] && got[0].mtype != Failure && AllData(got[..|got| - 1]) && got[|got| - 1].mtype != Data
      && numMsgs == |got| && totBytes == |Payload(got)|
    case Refused => |got| == 1 && got[0].mtype == Failure
  }

  ghost predicate ConnInv(c: Conn) {
    && ChildInv(c)
    && Counted(c.client, c.got, c.totBytes, c.numMsgs)
    && c.sent == c.got + c.queue
    && (c.client == Start ==> c.child == Unborn)
  }

  // ---------- every move keeps the invariant ----------

  lemma ReadInv(c: Conn, n: int)
    requires ChildInv(c) && c.child == Reading && ChildMove(c, Read(n)).Some?
    ensures ChildInv(ChildMove(c, Read(n)).value)
  {
    if n > 0 {
      SliceJoins(c.file.value, c.off, c.off + n);
    } else {
      SliceJoins(c.file.value, 0, |c.file.value|);
    }
  }

  lemma SliceJoins(file: seq<byte>, a: nat, b: nat)
    requires a <= b <= |file|
    ensures file[..a] + file[a..b] == file[..b]
    ensures file[..|file|] == file
  {
  }

  lemma DataSent(file: seq<byte>, off: nat, sent: seq<Msg>, buf: seq<byte>, short: bool)
    requires Progress(Sending(buf), Some(file), off, sent, false, short)
    ensures Progress(Reading, Some(file), off, sent + [Msg(Data, buf)], false, short)
    ensures Progress(Ending, Some(file), off, sent, true, short)
  {
    PayloadOne(sent, Msg(Data, buf));
    assert Payload(sent) <= Payload(sent) + buf <= file;
  }

  lemma SendDataInv(c: Conn, ok: bool)
    requires ChildInv(c) && c.child.Sending? && ChildMove(c, Send(ok)).Some?
    ensures ChildInv(ChildMove(c, Send(ok)).value)
  {
    DataSent(c.file.value, c.off, c.sent, c.child.buf, c.short);
  }

  lemma SendLastInv(c: Conn, ok: bool)
    requires ChildInv(c) && (c.child == Ending || c.child == Refusing) && ChildMove(c, Send(ok)).Some?
    ensures ChildInv(ChildMove(c, Send(ok)).value)
  {
    assert (c.sent + [Msg(End, [])])[..|c.sent|] == c.sent;
  }

  lemma ChildMoveChildInv(c: Conn, m: Move)
    requires ChildInv(c) && ChildMove(c, m).Some?
    ensures ChildInv(ChildMove(c, m).value)
  {
    match m
    case Open =>
    case Read(n) => ReadInv(c, n);
    case Send(ok) =>
      if c.child.Sending? {
        SendDataInv(c, ok);
      } else {
        SendLastInv(c, ok);
      }
    case Receive =>
  }

  /** A child leaves its client alone, and only appends to the queue. */
  lemma ChildMoveFrame(c: Conn, m: Move)
    requires ChildMove(c, m).Some? && c.sent == c.got + c.queue
    ensures var c' := ChildMove(c, m).value;
      && c'.client == c.client && c'.got == c.got && c'.totBytes == c.totBytes && c'.numMsgs == c.numMsgs
      && c'.file == c.file && c'.sent == c'.got + c'.queue && c.child != Unborn
  {
  }

  lemma ChildMoveInv(c: Conn, m: Move)
    requires ConnInv(c) && ChildMove(c, m).Some?
    ensures ConnInv(ChildMove(c, m).value)
  {
    ChildMoveChildInv(c, m);
    ChildMoveFrame(c, m);
  }

  /** The messages ever sent are data, then possibly one last message that is not. */
  ghost predicate Shape(ms: seq<Msg>) {
    forall i | 0 <= i < |ms| :: Fitting(ms[i], i, |ms|)
  }

  predicate Fitting(m: Msg, i: nat, n: nat) {
    match m.mtype
    case Data => 1 <= |m.data| <= RESP_MSG_SIZE
    case End => i == n - 1
    case Failure => n == 1
  }

  lemma SentShape(c: Conn)
    requires ChildInv(c)
    ensures Shape(c.sent)
  {
    if c.child == Exited && c.sent != [] {
      assert forall i | 0 <= i < |c.sent| - 1 :: c.sent[..|c.sent| - 1][i] == c.sent[i];
    }
  }

  lemma CountedLast(got: seq<Msg>, m: Msg, totBytes: nat)
    requires AllData(got) && totBytes == |Payload(got)| + |m.data| && m.mtype != Failure
    requires m.mtype == Data ==> 1 <= |m.data| <= RESP_MSG_SIZE
    ensures Counted(if m.mtype == Data then Receiving else Finished, got + [m], totBytes, |got| + 1)
  {
    PayloadOne(got, m);
    assert (got + [m])[..|got|] == got;
  }

  lemma CountedFirst(c: Conn)
    requires c.client == Waiting && ClientMove(c).Some? && c.got == []
    requires c.queue[0].mtype == Data ==> 1 <= |c.queue[0].data| <= RESP_MSG_SIZE
    ensures var c' := ClientMove(c).value; Counted(c'.client, c'.got, c'.totBytes, c'.numMsgs)
  {
    var m := c.queue[0];
    assert [] + [m] == [m];
    if m.mtype != Failure {
      CountedLast([], m, |m.data|);
    }
  }

  lemma CountedMore(c: Conn)
    requires c.client == Receiving && ClientMove(c).Some? && Counted(Receiving, c.got, c.totBytes, c.numMsgs)
    requires c.queue[0].mtype == Data ==> 1 <= |c.queue[0].data| <= RESP_MSG_SIZE
    requires c.queue[0].mtype != Failure
    ensures var c' := ClientMove(c).value; Counted(c'.client, c'.got, c'.totBytes, c'.numMsgs)
  {
    CountedLast(c.got, c.queue[0], c.totBytes + |c.queue[0].data|);
  }

  /** The client's move is none of the child's business. */
  lemma ClientMoveFrame(c: Conn)
    requires ChildInv(c) && ClientMove(c).Some? && c.sent == c.got + c.queue
    ensures var c' := ClientMove(c).value;
      ChildInv(c') && c'.sent == c'.got + c'.queue && c'.client != Start && c'.file == c.file
  {
    assert c.got + c.queue == c.got + [c.queue[0]] + c.queue[1..];
    var c' := ClientMove(c).value;
    assert c' == c.(client := c'.client, totBytes := c'.totBytes, numMsgs := c'.numMsgs,
                    queue := c.queue[1..], got := c.got + [c.queue[0]]);
  }

  lemma ReceiveInv(c: Conn)
    requires ConnInv(c) && ClientMove(c).Some?
    ensures ConnInv(ClientMove(c).value)
  {
    SentShape(c);
    assert c.sent[|c.got|] == c.queue[0];
    if c.client == Waiting {
      CountedFirst(c);
    } else {
      CountedMore(c);
    }
    ClientMoveFrame(c);
  }

  lemma MoveInv(c: Conn, m: Move)
    requires ConnInv(c) && ConnMove(c, m).Some?
    ensures ConnInv(ConnMove(c, m).value)
  {
    if m == Receive {
      ReceiveInv(c);
    } else {
      ChildMoveInv(c, m);
    }
  }

  // ---------- what a connection guarantees ----------

  lemma PayloadPrefix(a: seq<Msg>, b: seq<Msg>)
    ensures Payload(a) <= Payload(a + b)
  {
    PayloadConcat(a, b);
  }

  /** At any moment a client has received a prefix of its own file. */
  lemma ReceivedIsPrefix(c: Conn)
    requires ConnInv(c) && c.file.Some?
    ensures Payload(c.got) <= c.file.value
  {
    SentPrefix(c);
    PayloadPrefix(c.got, c.queue);
  }

  lemma SentPrefix(c: Conn)
    requires ChildInv(c) && c.file.Some?
    ensures Payload(c.sent) <= c.file.value
  {
    if c.child == Exited && c.sent != [] && c.sent[|c.sent| - 1] == Msg(End, []) {
      var n := |c.sent| - 1;
      PayloadOne(c.sent[..n], Msg(End, []));
      assert c.sent == c.sent[..n] + [Msg(End, [])];
    }
  }

  /** A client that is through has received everything that was sent. */
  lemma FinishedHasAll(c: Conn)
    requires ConnInv(c) && (c.client == Finished || c.client == Refused)
    ensures c.got == c.sent && c.queue == []
    ensures c.child == Exited
  {
    SentShape(c);
    var k := |c.got| - 1;
    assert c.sent[k] == c.got[k];
    assert c.got[k].mtype != Data;
    assert k == |c.sent| - 1;
  }

  /** A client finishes on exactly one end marker, with the size of its file and one message more than the
      data messages as its counts, if no read or send failed; full-size reads make those one for every
      8192 bytes begun. Whatever failed, it counts no more than the file has. */
  lemma FinishedCounts(c: Conn)
    requires ConnInv(c) && c.client == Finished
    ensures c.file.Some? && c.got[|c.got| - 1] == Msg(End, []) && AllData(c.got[..|c.got| - 1])
    ensures c.numMsgs == |c.got[..|c.got| - 1]| + 1 && c.totBytes <= |c.file.value|
    ensures !c.trouble ==> Payload(c.got) == c.file.value && c.totBytes == |c.file.value|
    ensures !c.trouble && !c.short ==> c.numMsgs == (|c.file.value| + RESP_MSG_SIZE - 1) / RESP_MSG_SIZE + 1
  {
    FinishedHasAll(c);
    var n := |c.got| - 1;
    assert c.got == c.got[..n] + [c.got[n]];
    PayloadOne(c.got[..n], c.got[n]);
  }

  /** The child is gone and its last message was lost: its client waits for ever. */
  ghost predicate LastLost(c: Conn) {
    c.child == Exited && AllData(c.sent)
  }

  lemma LastLostIsTrouble(c: Conn)
    requires ConnInv(c) && LastLost(c)
    ensures c.trouble
  {
    assert c.sent != [] ==> c.sent[|c.sent| - 1].mtype == Data;
  }

  /** Whatever fails, a child that could open its file still sends the end marker, and one that could not the refusal: it
      exits with one of these, so that its last message is lost only if that send fails. */
  lemma ExitsAfterLast(c: Conn, m: Move)
    requires ChildInv(c) && c.child != Exited && ChildMove(c, m).Some? && ChildMove(c, m).value.child == Exited
    ensures m.Send? && (c.child.Refusing? || c.child.Ending?)
    ensures var c' := ChildMove(c, m).value;
      && (LastLost(c') <==> m == Send(false))
      && (m == Send(true) ==> c'.sent == c.sent + [if c.file == None then COULD_NOT_OPEN else Msg(End, [])])
  {
    if m == Send(true) {
      assert (c.sent + [if c.file == None then COULD_NOT_OPEN else Msg(End, [])])[|c.sent|].mtype != Data;
    }
  }

  /** After a failed read or send the end marker is all that is left to do. */
  lemma FailureEnds(c: Conn, m: Move)
    requires ChildMove(c, m).Some? && (m == Send(false) || (m.Read? && m.n < 0)) && (c.child.Reading? || c.child.Sending?)
    ensures ChildMove(c, m).value.child == Ending
  {
  }

  // ---------- all connections together ----------

  /** All clients, the requests in the server's queue and how many it has room for, and whether the server is
      still in its loop. The fields made and taken are histories of the requests. */
  datatype World = World(conns: seq<Conn>, requests: seq<nat>, slots: nat, up: bool, made: seq<nat>, taken: seq<nat>)

  datatype Step = Request(i: nat) | Fork(ok: bool) | Local(i: nat, m: Move)

  /** All clients before their requests; the server's queue has room for slots requests, each client's for
      room bytes. */
  function Initial(files: seq<Option<seq<byte>>>, slots: nat, room: nat): World {
    World(seq(|files|, i requires 0 <= i < |files| =>
                Conn(files[i], room, Start, 0, 0, Unborn, 0, [], [], [], false, false)),
          [], slots, true, [], [])
  }

  /** One step of one process; None if it cannot be made. A failed fork ends the server's loop. */
  function Next(w: World, s: Step): Option<World> {
    match s
    case Request(i) =>
      if i < |w.conns| && w.conns[i].client == Start && |w.requests| < w.slots then
        Some(w.(conns := w.conns[i := w.conns[i].(client := Waiting)], requests := w.requests + [i],
                 made := w.made + [i]))
      else None
    case Fork(ok) =>
      if !w.up || w.requests == [] || w.requests[0] >= |w.conns| then None
      else if !ok then Some(w.(up := false))
      else
        var i := w.requests[0];
        Some(w.(conns := w.conns[i := w.conns[i].(child := Opening)], requests := w.requests[1..], taken := w.taken + [i]))
    case Local(i, m) =>
      if i >= |w.conns| then None
      else
        match ConnMove(w.conns[i], m)
        case None => None
        case Some(c) => Some(w.(conns := w.conns[i := c]))
  }

  /** Any schedule: steps that cannot be made are passed over. */
  function RunAll(w: World, steps: seq<Step>): World {
    if steps == [] then w
    else
      var w1 := RunAll(w, steps[..|steps| - 1]);
      var r := Next(w1, steps[|steps| - 1]);
      if r.Some? then r.value else w1
  }

  /** A request is queued exactly while its client waits and its child is not born, once. */
  ghost predicate Queued(w: World) {
    && (forall k | 0 <= k < |w.requests| :: w.requests[k] < |w.conns|
          && w.conns[w.requests[k]].child == Unborn && w.conns[w.requests[k]].client == Waiting)
    && (forall j, k | 0 <= j < k < |w.requests| :: w.requests[j] != w.requests[k])
    && (forall i | 0 <= i < |w.conns| :: w.conns[i].child == Unborn && w.conns[i].client != Start ==> i in w.requests)
  }

  ghost predicate Inv(w: World) {
    (forall i | 0 <= i < |w.conns| :: ConnInv(w.conns[i])) && Queued(w)
  }

  lemma RequestInv(w: World, i: nat)
    requires Inv(w) && Next(w, Request(i)).Some?
    ensures Inv(Next(w, Request(i)).value)
  {
    var w' := Next(w, Request(i)).value;
    assert w'.requests[|w.requests|] == i;
    assert ConnInv(w.conns[i]) && w.conns[i].child == Unborn;
    forall k | 0 <= k < |w'.requests|
      ensures w'.requests[k] < |w'.conns| && w'.conns[w'.requests[k]].child == Unborn && w'.conns[w'.requests[k]].client == Waiting
    {
      assert k < |w.requests| ==> w'.requests[k] == w.requests[k];
    }
    forall k | 0 <= k < |w'.conns| && w'.conns[k].child == Unborn && w'.conns[k].client != Start
      ensures k in w'.requests
    {
      assert k == i || k in w.requests;
    }
  }

  lemma ForkInv(w: World)
    requires Inv(w) && Next(w, Fork(true)).Some?
    ensures Inv(Next(w, Fork(true)).value)
  {
    var w' := Next(w, Fork(true)).value;
    var i := w.requests[0];
    forall k | 0 <= k < |w'.conns| && w'.conns[k].child == Unborn && w'.conns[k].client != Start
      ensures k in w'.requests
    {
      assert k in w.requests && k != i;
      var j :| 0 <= j < |w.requests| && w.requests[j] == k;
      assert w'.requests[j - 1] == k;
    }
  }

  lemma UnbornIsQuiet(c: Conn, m: Move)
    requires ConnInv(c) && ConnMove(c, m).Some?
    ensures c.child != Unborn && ConnMove(c, m).value.child != Unborn && c.client != Start
  {
    assert c.child == Unborn ==> c.sent == [];
  }

  lemma LocalInv(w: World, i: nat, m: Move)
    requires Inv(w) && Next(w, Local(i, m)).Some?
    ensures Inv(Next(w, Local(i, m)).value)
  {
    assert ConnInv(w.conns[i]);
    MoveInv(w.conns[i], m);
    UnbornIsQuiet(w.conns[i], m);
    ReplaceInv(w, i, ConnMove(w.conns[i], m).value);
  }

  lemma ReplaceInv(w: World, i: nat, c: Conn)
    requires Inv(w) && i < |w.conns| && w.conns[i].child != Unborn && ConnInv(c) && c.child != Unborn
    ensures Inv(w.(conns := w.conns[i := c]))
  {
    var w' := w.(conns := w.conns[i := c]);
    forall k | 0 <= k < |w.requests|
      ensures w.requests[k] < |w'.conns| && w'.conns[w.requests[k]] == w.conns[w.requests[k]]
    {
      assert w.conns[w.requests[k]].child == Unborn;
    }
  }

  lemma {:induction false} RunInv(w: World, steps: seq<Step>)
    requires Inv(w)
    ensures Inv(RunAll(w, steps))
  {
    if steps != [] {
      RunInv(w, steps[..|steps| - 1]);
      var w1 := RunAll(w, steps[..|steps| - 1]);
      if Next(w1, steps[|steps| - 1]).Some? {
        match steps[|steps| - 1]
        case Request(i) => RequestInv(w1, i);
        case Fork(ok) => if ok { ForkInv(w1); }
        case Local(i, m) => LocalInv(w1, i, m);
      }
    }
  }

  lemma InitialInv(files: seq<Option<seq<byte>>>, slots: nat, room: nat)
    ensures Inv(Initial(files, slots, room))
  {
  }

  /** A failure of read or msgsnd. */
  predicate Fails(m: Move) {
    m == Send(false) || (m.Read? && m.n < 0)
  }

  /** No queue ever holds more than it has room for. */
  lemma {:induction false} QueuesFit(files: seq<Option<seq<byte>>>, slots: nat, room: nat, steps: seq<Step>)
    ensures var w := RunAll(Initial(files, slots, room), steps);
      && w.slots == slots && |w.requests| <= slots
      && forall i | 0 <= i < |w.conns| :: w.conns[i].room == room && WithinRoom(w.conns[i])
  {
    var w0 := Initial(files, slots, room);
    if steps != [] {
      var n := |steps| - 1;
      QueuesFit(files, slots, room, steps[..n]);
      var w1 := RunAll(w0, steps[..n]);
      if Next(w1, steps[n]).Some? && steps[n].Local? {
        MoveWithinRoom(w1.conns[steps[n].i], steps[n].m);
      }
    }
  }

  predicate WithinRoom(c: Conn) {
    |Payload(c.queue)| <= c.room && |c.queue| <= c.room
  }

  lemma MoveWithinRoom(c: Conn, m: Move)
    requires WithinRoom(c) && ConnMove(c, m).Some?
    ensures WithinRoom(ConnMove(c, m).value) && ConnMove(c, m).value.room == c.room
  {
    MoveKeepsFile(c, m);
    if m == Receive {
      PayloadConcat([c.queue[0]], c.queue[1..]);
      assert c.queue == [c.queue[0]] + c.queue[1..];
    } else if m == Send(true) {
      SendIs(c, m);
      PayloadOne(c.queue, Outgoing(c.child));
    }
  }

  /** Requests are taken up in the order in which they were made, each once, and each by a child of its own. */
  lemma {:induction false} FirstComeFirstServed(files: seq<Option<seq<byte>>>, slots: nat, room: nat, steps: seq<Step>)
    ensures var w := RunAll(Initial(files, slots, room), steps); Served(w) && w.taken <= w.made
  {
    var w0 := Initial(files, slots, room);
    if steps != [] {
      var n := |steps| - 1;
      FirstComeFirstServed(files, slots, room, steps[..n]);
      var w1 := RunAll(w0, steps[..n]);
      InitialInv(files, slots, room);
      RunInv(w0, steps[..n]);
      if Next(w1, steps[n]).Some? {
        match steps[n]
        case Request(i) => RequestServed(w1, i);
        case Fork(ok) => if ok { ForkServed(w1); }
        case Local(i, m) => LocalServed(w1, i, m);
      }
    }
  }

  /** What was taken up and what is still queued is what was requested, in that order and nothing twice; the clients
      with a child are those that were taken up. */
  ghost predicate Served(w: World) {
    && w.made == w.taken + w.requests
    && (forall j, k | 0 <= j < k < |w.made| :: w.made[j] != w.made[k])
    && (forall k | 0 <= k < |w.made| :: w.made[k] < |w.conns| && w.conns[w.made[k]].client != Start)
    && (forall i | 0 <= i < |w.conns| :: w.conns[i].child != Unborn <==> i in w.taken)
  }

  lemma RequestServed(w: World, i: nat)
    requires Served(w) && Next(w, Request(i)).Some?
    ensures Served(Next(w, Request(i)).value)
  {
    var w' := Next(w, Request(i)).value;
    assert w'.made == w.taken + (w.requests + [i]);
  }

  lemma ForkServed(w: World)
    requires Served(w) && Next(w, Fork(true)).Some?
    ensures Served(Next(w, Fork(true)).value)
  {
    var w' := Next(w, Fork(true)).value;
    assert w.requests == [w.requests[0]] + w.requests[1..];
    assert w'.made == w.taken + [w.requests[0]] + w.requests[1..];
  }

  lemma LocalServed(w: World, i: nat, m: Move)
    requires Inv(w) && Served(w) && Next(w, Local(i, m)).Some?
    ensures Served(Next(w, Local(i, m)).value)
  {
    assert ConnInv(w.conns[i]);
    UnbornIsQuiet(w.conns[i], m);
    StaysStarted(w.conns[i], m);
  }

  lemma StaysStarted(c: Conn, m: Move)
    requires ConnMove(c, m).Some? && c.client != Start
    ensures ConnMove(c, m).value.client != Start
  {
  }

  /** Whatever the other clients do, and without any failure: a client that is not through can always be
      served on, by itself, its child or the server, unless its last message was lost or the server has given up. In
      particular a child or a client that waits for room in a full queue waits for a process that can take
      a message from it. */
  lemma NeverStuck(w: World, i: nat) returns (s: Step)
    requires Inv(w) && w.up && i < |w.conns| && w.slots >= 1 && w.conns[i].room >= RESP_MSG_SIZE
    requires w.conns[i].client != Finished && w.conns[i].client != Refused && !LastLost(w.conns[i])
    ensures Next(w, s).Some? && s != Fork(false) && (s.Local? ==> s.i == i && !Fails(s.m))
  {
    var c := w.conns[i];
    assert ConnInv(c);
    if c.child == Unborn {
      s := if c.client == Start && |w.requests| < w.slots then Request(i) else Fork(true);
      assert c.client != Start ==> i in w.requests;
    } else {
      var m := ConnCanMove(c);
      s := Local(i, m);
    }
  }

  lemma ConnCanMove(c: Conn) returns (m: Move)
    requires ConnInv(c) && c.child != Unborn && c.client != Finished && c.client != Refused && !LastLost(c)
    requires c.room >= RESP_MSG_SIZE
    ensures ConnMove(c, m).Some? && !Fails(m)
  {
    if c.child == Exited {
      WaitingHasMail(c);
      m := Receive;
    } else if c.queue != [] {
      m := Receive;
    } else {
      m := ChildCanMove(c);
    }
  }

  lemma ChildCanMove(c: Conn) returns (m: Move)
    requires ChildInv(c) && c.child != Unborn && c.child != Exited
    requires c.queue == [] && c.room >= RESP_MSG_SIZE
    ensures m != Receive && ChildMove(c, m).Some? && !Fails(m)
  {
    match c.child
    case Opening => m := Open;
    case Reading =>
      var left := |c.file.value| - c.off;
      m := Read(if left < RESP_MSG_SIZE then left else RESP_MSG_SIZE);
    case _ => m := Send(true);
  }

  lemma WaitingHasMail(c: Conn)
    requires ConnInv(c) && c.child == Exited && c.client != Finished && c.client != Refused && !LastLost(c)
    ensures ClientMove(c).Some?
  {
    assert c.queue == [] ==> c.sent == c.got;
  }

  // ---------- every run ends ----------

  function Left(c: Conn): nat {
    match c.file
    case None => 0
    case Some(f) => if c.off <= |f| then |f| - c.off else 0
  }

  /** How much is left to do for a client and its child. */
  function Work(c: Conn): nat {
    (if c.client == Start then 1 else 0) + |c.queue| + ChildWork(c.child, Left(c))
  }

  function ChildWork(child: Child, left: nat): nat {
    match child
    case Unborn => 3 * left + 8
    case Opening => 3 * left + 6
    case Refusing => 3
    case Reading => 3 * left + 4
    case Sending(_) => 3 * left + 6
    case Ending => 2
    case Exited => 0
  }

  function TotalWork(conns: seq<Conn>): nat {
    if conns == [] then 0 else TotalWork(conns[..|conns| - 1]) + Work(conns[|conns| - 1])
  }

  function Measure(w: World): nat {
    TotalWork(w.conns) + if w.up then 1 else 0
  }

  lemma {:induction false} TotalWorkUpdate(conns: seq<Conn>, i: nat, c: Conn)
    requires i < |conns|
    ensures TotalWork(conns[i := c]) == TotalWork(conns) - Work(conns[i]) + Work(c)
  {
    var n := |conns| - 1;
    if i < n {
      TotalWorkUpdate(conns[..n], i, c);
      assert conns[i := c][..n] == conns[..n][i := c];
    } else {
      assert conns[i := c][..n] == conns[..n];
    }
  }

  lemma ReadWorks(c: Conn, n: int)
    requires c.child == Reading && ChildMove(c, Read(n)).Some?
    ensures Work(ChildMove(c, Read(n)).value) < Work(c)
  {
    var c' := ChildMove(c, Read(n)).value;
    assert c'.client == c.client && c'.queue == c.queue;
    if n > 0 {
      assert Left(c') == Left(c) - n;
    }
  }

  lemma SendWorks(c: Conn, ok: bool)
    requires ChildMove(c, Send(ok)).Some?
    ensures Work(ChildMove(c, Send(ok)).value) < Work(c)
  {
    var c' := ChildMove(c, Send(ok)).value;
    assert c'.client == c.client && |c'.queue| <= |c.queue| + 1 && Left(c') == Left(c);
    assert ChildWork(c'.child, Left(c)) <= ChildWork(c.child, Left(c)) - 2;
  }

  lemma ReceiveWorks(c: Conn)
    requires ClientMove(c).Some?
    ensures Work(ClientMove(c).value) < Work(c)
  {
    var c' := ClientMove(c).value;
    assert |c'.queue| == |c.queue| - 1 && c'.client != Start && c'.child == c.child && Left(c') == Left(c);
  }

  lemma MoveWorks(c: Conn, m: Move)
    requires ConnMove(c, m).Some?
    ensures Work(ConnMove(c, m).value) < Work(c)
  {
    match m
    case Open =>
      assert c.child == Opening && Left(c.(child := Reading)) == Left(c);
    case Read(n) => ReadWorks(c, n);
    case Send(ok) => SendWorks(c, ok);
    case Receive => ReceiveWorks(c);
  }

  lemma StepWorks(w: World, s: Step)
    requires Inv(w) && Next(w, s).Some?
    ensures Measure(Next(w, s).value) < Measure(w)
  {
    match s
    case Request(i) => TotalWorkUpdate(w.conns, i, w.conns[i].(client := Waiting));
    case Fork(ok) => TotalWorkUpdate(w.conns, w.requests[0], w.conns[w.requests[0]].(child := Opening));
    case Local(i, m) =>
      MoveWorks(w.conns[i], m);
      TotalWorkUpdate(w.conns, i, ConnMove(w.conns[i], m).value);
  }

  /** How many steps of a schedule were made. */
  function StepsMade(w: World, steps: seq<Step>): nat {
    if steps == [] then 0
    else
      var front := steps[..|steps| - 1];
      StepsMade(w, front) + if Next(RunAll(w, front), steps[|steps| - 1]).Some? then 1 else 0
  }

  /** No run makes more steps than there was work to begin with, however it is scheduled. */
  lemma {:induction false} RunsEnd(w: World, steps: seq<Step>)
    requires Inv(w)
    ensures StepsMade(w, steps) + Measure(RunAll(w, steps)) <= Measure(w)
  {
    if steps != [] {
      var front := steps[..|steps| - 1];
      RunsEnd(w, front);
      RunInv(w, front);
      if Next(RunAll(w, front), steps[|steps| - 1]).Some? {
        StepWorks(RunAll(w, front), steps[|steps| - 1]);
      }
    }
  }

  /** No process can make a step. */
  ghost predicate AtRest(w: World) {
    forall s: Step :: Next(w, s) == None
  }

  lemma {:induction false} FilesStay(w: World, steps: seq<Step>)
    ensures var w' := RunAll(w, steps);
      |w'.conns| == |w.conns| && w'.slots == w.slots
      && forall i | 0 <= i < |w.conns| :: w'.conns[i].file == w.conns[i].file && w'.conns[i].room == w.conns[i].room
  {
    if steps != [] {
      FilesStay(w, steps[..|steps| - 1]);
      var w1 := RunAll(w, steps[..|steps| - 1]);
      if steps[|steps| - 1].Local? {
        var i, m := steps[|steps| - 1].i, steps[|steps| - 1].m;
        if i < |w1.conns| && ConnMove(w1.conns[i], m).Some? {
          MoveKeepsFile(w1.conns[i], m);
        }
      }
    }
  }

  lemma MoveKeepsFile(c: Conn, m: Move)
    requires ConnMove(c, m).Some?
    ensures ConnMove(c, m).value.file == c.file && ConnMove(c, m).value.room == c.room
    ensures c.child != Unborn ==> ConnMove(c, m).value.child != Unborn
  {
  }

  /** The whole protocol, for any number of clients and any schedule. At every moment what a client
      has received is a prefix of its file. When nothing can move any more, the server being
      still in its loop, each client without a failed read or send has its whole file and the right counts,
      or has been told that the file cannot be opened. Whatever failed, a client is through exactly if it was
      taken up and its last message was not lost. */
  lemma Transfer(files: seq<Option<seq<byte>>>, slots: nat, room: nat, steps: seq<Step>, i: nat)
    requires i < |files|
    ensures var w := RunAll(Initial(files, slots, room), steps);
      && i < |w.conns| && w.conns[i].file == files[i]
      && var c := w.conns[i];
      && (files[i].Some? ==> Payload(c.got) <= files[i].value)
      && (AtRest(w) && w.up && !c.trouble && slots >= 1 && room >= RESP_MSG_SIZE ==>
            match files[i]
            case None => c.client == Refused && c.got == [COULD_NOT_OPEN]
            case Some(f) => c.client == Finished && c.got != [] && Payload(c.got) == f && c.totBytes == |f|
                            && c.got[|c.got| - 1] == Msg(End, []) && AllData(c.got[..|c.got| - 1]) && c.numMsgs == |c.got|)
      && (AtRest(w) && slots >= 1 && room >= RESP_MSG_SIZE ==>
            (c.client == Finished || c.client == Refused <==> c.child != Unborn && !LastLost(c)))
  {
    var w0 := Initial(files, slots, room);
    var w := RunAll(w0, steps);
    InitialInv(files, slots, room);
    RunInv(w0, steps);
    FilesStay(w0, steps);
    var c := w.conns[i];
    assert ConnInv(c);
    if files[i].Some? {
      ReceivedIsPrefix(c);
    }
    if AtRest(w) && slots >= 1 && room >= RESP_MSG_SIZE {
      ThroughUnlessLost(w, i);
      if w.up && !c.trouble {
        RestMeansThrough(w, i);
        ThroughMeansDone(c);
      }
    }
  }

  /** At rest, failures or not: exactly those clients wait for ever whose request was not taken up or whose
      last message was lost. */
  lemma ThroughUnlessLost(w: World, i: nat)
    requires Inv(w) && AtRest(w) && i < |w.conns| && w.conns[i].room >= RESP_MSG_SIZE
    ensures var c := w.conns[i];
      c.client == Finished || c.client == Refused <==> c.child != Unborn && !LastLost(c)
  {
    var c := w.conns[i];
    assert ConnInv(c);
    if c.client == Finished || c.client == Refused {
      FinishedHasAll(c);
      assert c.got[|c.got| - 1].mtype != Data;
    } else if c.child != Unborn && !LastLost(c) {
      var m := ConnCanMove(c);
      RestMeansNoMove(w, i, m);
    }
  }

  lemma RestMeansNoMove(w: World, i: nat, m: Move)
    requires AtRest(w) && i < |w.conns|
    ensures ConnMove(w.conns[i], m) == None
  {
    assert Next(w, Local(i, m)) == None;
  }

  lemma ThroughMeansDone(c: Conn)
    requires ConnInv(c) && !c.trouble && (c.client == Finished || c.client == Refused)
    ensures match c.file
      case None => c.client == Refused && c.got == [COULD_NOT_OPEN]
      case Some(f) => c.client == Finished && c.got != [] && Payload(c.got) == f && c.totBytes == |f|
                      && c.got[|c.got| - 1] == Msg(End, []) && AllData(c.got[..|c.got| - 1]) && c.numMsgs == |c.got|
  {
    FinishedHasAll(c);
    if c.client == Finished {
      FinishedCounts(c);
    } else {
      RefusedMeansNoFile(c);
    }
  }

  lemma RestMeansThrough(w: World, i: nat)
    requires Inv(w) && AtRest(w) && w.up && i < |w.conns| && !w.conns[i].trouble
    requires w.slots >= 1 && w.conns[i].room >= RESP_MSG_SIZE
    ensures w.conns[i].client == Finished || w.conns[i].client == Refused
  {
    var c := w.conns[i];
    if LastLost(c) {
      LastLostIsTrouble(c);
    }
    if c.client != Finished && c.client != Refused {
      var s := NeverStuck(w, i);
    }
  }

  lemma RefusedMeansNoFile(c: Conn)
    requires ConnInv(c) && c.client == Refused && c.got == c.sent
    ensures c.child == Exited ==> c.file == None
  {
  }

  // ---------- the two programs ----------

  /** One connection under any schedule; moves that cannot be made are passed over. */
  function RunConn(c: Conn, schedule: seq<Move>): Conn {
    if schedule == [] then c else Turn(RunConn(c, schedule[..|schedule| - 1]), schedule[|schedule| - 1])
  }

  function Turn(c: Conn, m: Move): Conn {
    var r := ConnMove(c, m);
    if r.Some? then r.value else c
  }

  lemma RunConnNext(c: Conn, schedule: seq<Move>, at: nat)
    requires at < |schedule|
    ensures RunConn(c, schedule[..at + 1]) == Turn(RunConn(c, schedule[..at]), schedule[at])
  {
    assert schedule[..at + 1][..at] == schedule[..at];
  }

  /** There is trouble only if a read or a send failed. */
  lemma {:induction false} TroubleMeansFailure(c: Conn, schedule: seq<Move>)
    requires !c.trouble && RunConn(c, schedule).trouble
    ensures exists i :: 0 <= i < |schedule| && Fails(schedule[i])
  {
    var n := |schedule| - 1;
    var c1 := RunConn(c, schedule[..n]);
    if c1.trouble {
      TroubleMeansFailure(c, schedule[..n]);
      var i :| 0 <= i < n && Fails(schedule[..n][i]);
      assert Fails(schedule[i]);
    } else {
      assert Fails(schedule[n]);
    }
  }

  /** The message a child is about to send. */
  function Outgoing(child: Child): Msg
    requires child.Refusing? || child.Sending? || child.Ending?
  {
    match child
    case Refusing => COULD_NOT_OPEN
    case Sending(buf) => Msg(Data, buf)
    case Ending => Msg(End, [])
  }

  /** The only move of a child that is about to send, and where it leads. */
  lemma SendIs(c: Conn, m: Move)
    requires (c.child.Refusing? || c.child.Sending? || c.child.Ending?) && m != Receive && ConnMove(c, m).Some?
    ensures m.Send?
    ensures var c' := ConnMove(c, m).value;
      c' == Enqueue(c, Outgoing(c.child), m.ok).(child := c'.child)
      && c'.child == if !c.child.Sending? then Exited else if m.ok then Reading else Ending
  {
  }

  /** The connection after a msgsnd of m, whatever the protocol says about it. */
  function AfterSend(c: Conn, m: Msg, ok: bool): Conn {
    Enqueue(c, m, ok).(child := if !c.child.Sending? then Exited else if ok then Reading else Ending)
  }

  /** The last of the first moves of the schedule is a send that can be made. */
  ghost predicate AboutToSend(c: Conn, c0: Conn, schedule: seq<Move>, at: nat, ok: bool) {
    && 0 < at <= |schedule| && c == RunConn(c0, schedule[..at - 1]) && ConnInv(c)
    && (c.child.Refusing? || c.child.Sending? || c.child.Ending?)
    && schedule[at - 1] == Send(ok) && ConnMove(c, schedule[at - 1]).Some?
  }

  /** A msgsnd is the protocol's move if and only if it sends the protocol's message, or fails. */
  lemma SentAsAgreed(c: Conn, c0: Conn, schedule: seq<Move>, at: nat, m: Msg, ok: bool)
    requires AboutToSend(c, c0, schedule, at, ok)
    ensures AfterSend(c, m, ok) == RunConn(c0, schedule[..at]) <==> m == Outgoing(c.child) || !ok
    ensures ConnInv(AfterSend(c, Outgoing(c.child), ok))
  {
    SendIs(c, schedule[at - 1]);
    MoveInv(c, schedule[at - 1]);
    RunConnNext(c0, schedule, at - 1);
    LastSent(c.sent, m, Outgoing(c.child));
  }

  lemma LastSent(sent: seq<Msg>, m: Msg, m': Msg)
    ensures sent + [m] == sent + [m'] <==> m == m'
  {
    assert (sent + [m])[|sent|] == m && (sent + [m'])[|sent|] == m';
  }

  /** The only move of a child that is about to read, and where it leads. */
  lemma ReadIs(c: Conn, m: Move)
    requires c.child == Reading && m != Receive && ConnMove(c, m).Some?
    ensures m.Read? && m.n <= RESP_MSG_SIZE && c.file.Some?
    ensures m.n <= 0 ==> ConnMove(c, m).value.child == Ending
    ensures m.n > 0 ==>
      c.off + m.n <= |c.file.value| && ConnMove(c, m).value.child == Sending(c.file.value[c.off..c.off + m.n])
  {
  }

  /** What the system keeps of one connection while two processes run interleaved: one of them is the
      program that calls these methods, the other makes the moves that the schedule gives it. A system call
      waits until the schedule comes to a move of its process that can be made, and is not done if there
      is none. */
  class Connection {
    var c: Conn

    /** The connection has come from c0 by the first moves of the schedule. */
    ghost predicate On(c0: Conn, schedule: seq<Move>, at: nat)
      reads this
    {
      at <= |schedule| && c == RunConn(c0, schedule[..at]) && ConnInv(c)
    }

    /** Lets the other process run. */
    method Await(child: bool, schedule: seq<Move>, start: nat, ghost c0: Conn) returns (at: nat)
      requires On(c0, schedule, start)
      modifies this
      ensures On(c0, schedule, at) && start <= at
      ensures at < |schedule| ==> (child <==> schedule[at] != Receive) && ConnMove(c, schedule[at]).Some?
      ensures child ==> c.child == old(c.child)
      ensures !child ==> c.client == old(c.client) && c.totBytes == old(c.totBytes) && c.numMsgs == old(c.numMsgs)
    {
      at := start;
      while at < |schedule| && !((child <==> schedule[at] != Receive) && ConnMove(c, schedule[at]).Some?)
        invariant On(c0, schedule, at) && start <= at
        invariant child ==> c.child == old(c.child)
        invariant !child ==> c.client == old(c.client) && c.totBytes == old(c.totBytes) && c.numMsgs == old(c.numMsgs)
      {
        PassOn(child, schedule, at, c0);
        at := at + 1;
      }
    }

    /** Makes the next move of the schedule if it can be made; it is none that this process is waiting for. */
    method PassOn(child: bool, schedule: seq<Move>, at: nat, ghost c0: Conn)
      requires On(c0, schedule, at) && at < |schedule|
      requires !((child <==> schedule[at] != Receive) && ConnMove(c, schedule[at]).Some?)
      modifies this
      ensures On(c0, schedule, at + 1)
      ensures child ==> c.child == old(c.child)
      ensures !child ==> c.client == old(c.client) && c.totBytes == old(c.totBytes) && c.numMsgs == old(c.numMsgs)
    {
      OthersTurn(child, c, schedule[at]);
      RunConnNext(c0, schedule, at);
      c := Turn(c, schedule[at]);
    }

    /** Makes the move the schedule has come to. */
    method Proceed(schedule: seq<Move>, at: nat, ghost c0: Conn)
      requires On(c0, schedule, at) && at < |schedule| && ConnMove(c, schedule[at]).Some?
      modifies this
      ensures On(c0, schedule, at + 1) && c == ConnMove(old(c), schedule[at]).value
    {
      MoveInv(c, schedule[at]);
      RunConnNext(c0, schedule, at);
      c := ConnMove(c, schedule[at]).value;
    }

    method OpenFile(schedule: seq<Move>, start: nat, ghost c0: Conn) returns (done: bool, ok: bool, at: nat)
      requires On(c0, schedule, start) && c.child == Opening
      modifies this
      ensures On(c0, schedule, at) && start <= at
      ensures if !done then at == |schedule| && c.child == Opening
              else start < at && c.child == if ok then Reading else Refusing
    {
      at := Await(true, schedule, start, c0);
      done, ok := at < |schedule|, false;
      if done {
        ok := c.file.Some?;
        Proceed(schedule, at, c0);
        at := at + 1;
      }
    }

    /** read into a buffer of RESP_MSG_SIZE bytes; n is what it returns. */
    method ReadFile(schedule: seq<Move>, start: nat, ghost c0: Conn) returns (done: bool, n: int, buf: seq<byte>, at: nat)
      requires On(c0, schedule, start) && c.child == Reading
      modifies this
      ensures On(c0, schedule, at) && start <= at
      ensures if !done then at == |schedule| && c.child == Reading
              else start < at && c.child == if n > 0 then Sending(buf) else Ending
    {
      at := Await(true, schedule, start, c0);
      done, n, buf := at < |schedule|, 0, [];
      if done {
        ReadIs(c, schedule[at]);
        n := schedule[at].n;
        if n > 0 {
          buf := c.file.value[c.off..c.off + n];
        }
        Proceed(schedule, at, c0);
        at := at + 1;
      }
    }

    /** msgsnd: waits for room and puts the message m into the queue, or fails; before is how the connection
        stood then. Whether that is a move of the protocol depends on m. */
    method MsgSnd(m: Msg, schedule: seq<Move>, start: nat, ghost c0: Conn)
      returns (done: bool, ok: bool, at: nat, ghost before: Conn)
      requires On(c0, schedule, start) && (c.child.Refusing? || c.child.Sending? || c.child.Ending?)
      modifies this
      ensures !done ==> at == |schedule| && On(c0, schedule, at) && c.child == old(c.child)
      ensures done ==> start < at && AboutToSend(before, c0, schedule, at, ok) && before.child == old(c.child)
      ensures done ==> c == AfterSend(before, m, ok)
    {
      at := Await(true, schedule, start, c0);
      done, ok, before := at < |schedule|, false, c;
      if done {
        SendIs(c, schedule[at]);
        ok := schedule[at].ok;
        c := AfterSend(c, m, ok);
        at := at + 1;
      }
    }

    /** msgrcv of any type: takes the first message, once there is one. */
    method MsgRcv(schedule: seq<Move>, start: nat, ghost c0: Conn) returns (done: bool, m: Msg, at: nat)
      requires On(c0, schedule, start) && (c.client == Waiting || c.client == Receiving)
      modifies this
      ensures On(c0, schedule, at) && start <= at
      ensures !done ==> at == |schedule| && c.client == old(c.client)
      ensures done ==> start < at
      ensures done && old(c.client) == Waiting && m.mtype == Failure ==> c.client == Refused
      ensures done && !(old(c.client) == Waiting && m.mtype == Failure) ==>
        && c.client == (if m.mtype == Data then Receiving else Finished)
        && c.totBytes == |m.data| + (if old(c.client) == Waiting then 0 else old(c.totBytes))
        && c.numMsgs == 1 + if old(c.client) == Waiting then 0 else old(c.numMsgs)
    {
      at := Await(false, schedule, start, c0);
      done, m := at < |schedule|, COULD_NOT_OPEN;
      if done {
        m := c.queue[0];
        Proceed(schedule, at, c0);
        at := at + 1;
      }
    }
  }

  /** A move that is not the process's own, or cannot be made, leaves that process where it is. */
  lemma OthersTurn(child: bool, c: Conn, m: Move)
    requires ConnInv(c) && !((child <==> m != Receive) && ConnMove(c, m).Some?)
    ensures ConnInv(Turn(c, m))
    ensures child ==> Turn(c, m).child == c.child
    ensures var c' := Turn(c, m);
      !child ==> c'.client == c.client && c'.totBytes == c.totBytes && c'.numMsgs == c.numMsgs
  {
    if ConnMove(c, m).Some? {
      MoveInv(c, m);
      if m != Receive {
        ChildMoveFrame(c, m);
      }
    }
  }

  /** serveRequest, run against any behaviour of its client: from its birth on it makes the moves of the
      protocol's child, each message being the one the protocol says, and it ends where that child ends. It has
      not exited only if the schedule left it waiting. */
  method ServeRequest(conn: Connection, schedule: seq<Move>) returns (exited: bool, at: nat)
    requires ConnInv(conn.c) && conn.c.child == Opening
    modifies conn
    ensures at <= |schedule| && conn.c == RunConn(old(conn.c), schedule[..at]) && ConnInv(conn.c)
    ensures exited <==> conn.c.child == Exited
    ensures !exited ==> at == |schedule|
  {
    ghost var c0 := conn.c;
    var done, ok;
    done, ok, at := conn.OpenFile(schedule, 0, c0);
    if !done {
      return false, at;
    }
    var resp := COULD_NOT_OPEN;
    if ok {
      done, at := SendPieces(conn, schedule, at, c0);
      if !done {
        return false, at;
      }
      resp := Msg(End, []);
    }
    ghost var before;
    exited, ok, at, before := conn.MsgSnd(resp, schedule, at, c0);
    if exited {
      SentAsAgreed(before, c0, schedule, at, resp, ok);
    }
  }

  /** The loop of serveRequest: reads and sends pieces of the file until a read returns nothing or either fails. */
  method SendPieces(conn: Connection, schedule: seq<Move>, start: nat, ghost c0: Conn) returns (done: bool, at: nat)
    requires conn.On(c0, schedule, start) && conn.c.child == Reading
    modifies conn
    ensures conn.On(c0, schedule, at) && start <= at
    ensures if done then conn.c.child == Ending else at == |schedule| && conn.c.child != Exited
  {
    at := start;
    while true
      invariant conn.On(c0, schedule, at) && conn.c.child == Reading && start <= at
      decreases |schedule| - at
    {
      var numRead, buf, ok;
      done, numRead, buf, at := conn.ReadFile(schedule, at, c0);
      if !done || numRead <= 0 {
        return;
      }
      ghost var before;
      done, ok, at, before := conn.MsgSnd(Msg(Data, buf), schedule, at, c0);
      if !done {
        return;
      }
      SentAsAgreed(before, c0, schedule, at, Msg(Data, buf), ok);
      if !ok {
        return;
      }
    }
  }

  /** The client's part after its request, run against any behaviour of its child: takes messages up to the first
      that is not data and counts. It is not through only if the schedule left it waiting. Its own counts are
      then those of the protocol, and with them the length of the file if nothing failed. */
  method ReceiveFile(conn: Connection, schedule: seq<Move>)
    returns (through: bool, refused: bool, totBytes: nat, numMsgs: nat, at: nat)
    requires ConnInv(conn.c) && conn.c.client == Waiting
    modifies conn
    ensures at <= |schedule| && conn.c == RunConn(old(conn.c), schedule[..at]) && ConnInv(conn.c)
    ensures if !through then at == |schedule| && (conn.c.client == Waiting || conn.c.client == Receiving)
            else conn.c.client == if refused then Refused else Finished
    ensures through && !refused ==> totBytes == conn.c.totBytes && numMsgs == conn.c.numMsgs
    ensures through && !conn.c.trouble && conn.c.file.Some? ==>
      !refused && totBytes == |conn.c.file.value| && numMsgs == |conn.c.got|
  {
    ghost var c0 := conn.c;
    var resp;
    refused, totBytes, numMsgs := false, 0, 0;
    through, resp, at := conn.MsgRcv(schedule, 0, c0);
    if !through {
      return;
    }
    if resp.mtype == Failure {
      refused := true;
      CountsAgree(conn.c);
      return;
    }
    totBytes, numMsgs := |resp.data|, 1;
    while resp.mtype == Data
      invariant conn.On(c0, schedule, at)
      invariant conn.c.client == if resp.mtype == Data then Receiving else Finished
      invariant totBytes == conn.c.totBytes && numMsgs == conn.c.numMsgs
      decreases |schedule| - at, if resp.mtype == Data then 1 else 0
    {
      through, resp, at := conn.MsgRcv(schedule, at, c0);
      if !through {
        return;
      }
      totBytes := totBytes + |resp.data|;
      numMsgs := numMsgs + 1;
    }
    CountsAgree(conn.c);
  }

  lemma CountsAgree(c: Conn)
    requires ConnInv(c) && (c.client == Refused || c.client == Finished)
    ensures !c.trouble && c.file.Some? ==> c.client == Finished && c.totBytes == |c.file.value| && c.numMsgs == |c.got|
  {
    if !c.trouble {
      ThroughMeansDone(c);
    }
  }

  /** The two programs together: once neither can move and nothing has failed, the client is through. */
  lemma TogetherTheyFinish(c: Conn, schedule: seq<Move>)
    requires ConnInv(c) && c.child == Opening && c.client == Waiting
    ensures var c' := RunConn(c, schedule);
      c.room >= RESP_MSG_SIZE && Blocked(c') && (forall i | 0 <= i < |schedule| :: !Fails(schedule[i])) ==>
        c'.client == Finished || c'.client == Refused
  {
    RunConnInv(c, schedule);
    var c' := RunConn(c, schedule);
    if c'.trouble {
      TroubleMeansFailure(c, schedule);
    } else {
      BlockedMeansThrough(c');
    }
  }

  /** Neither process can make a move. */
  ghost predicate Blocked(c: Conn) {
    forall m: Move :: ConnMove(c, m) == None
  }

  lemma BlockedMeansThrough(c: Conn)
    requires ConnInv(c) && c.child != Unborn && !c.trouble
    ensures c.room >= RESP_MSG_SIZE && Blocked(c) ==> c.client == Finished || c.client == Refused
  {
    if LastLost(c) {
      LastLostIsTrouble(c);
    }
    if c.room >= RESP_MSG_SIZE && c.client != Finished && c.client != Refused {
      var m := ConnCanMove(c);
    }
  }

  lemma {:induction false} RunConnInv(c: Conn, schedule: seq<Move>)
    requires ConnInv(c) && c.child != Unborn
    ensures var c' := RunConn(c, schedule);
      ConnInv(c') && c'.child != Unborn && c'.room == c.room && c'.file == c.file
  {
    if schedule != [] {
      var n := |schedule| - 1;
      RunConnInv(c, schedule[..n]);
      var c1 := RunConn(c, schedule[..n]);
      if ConnMove(c1, schedule[n]).Some? {
        MoveInv(c1, schedule[n]);
        MoveKeepsFile(c1, schedule[n]);
      }
    }
  }
}
