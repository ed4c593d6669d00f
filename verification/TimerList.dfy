/**
 The event loop's timer list: eloop_timeout nodes on a linked ring, kept in order of their
 deadlines and walked by the list.h macros.
 */
module TimerList {
  import opened RelTimes
  import opened LoopState
  import opened DlList
  import TimerOrder

  /** The position after i on the way around a ring. */
  ghost function At(r: seq<Link<Timer>>, i: nat): Link<Timer>
    requires i <= |r| && r != []
  {
    if i == |r| then r[0] else r[i]
  }

  class TimerList {
    const head: Link<Timer>
    ghost var ring: seq<Link<Timer>>    // the links of the list, head first
    ghost var contents: seq<Timer>      // the timers of the list, in order
    ghost var Repr: set<object>

    ghost predicate Valid()
      reads this, Repr
      ensures Valid() ==> this in Repr
    {
      && this in Repr && (forall i | 0 <= i < |ring| :: ring[i] in Repr)
      && Ring(ring) && ring[0] == head
      && |contents| == |ring| - 1
      && (forall i, j | 0 <= i < j < |ring| && j == i + 1 :: ring[j].item == contents[i])
    }

    constructor ()
      ensures Valid() && fresh(Repr) && contents == []
    {
      var node := new Link(Timer(RelTime(0, 0), Callback(0, 0, 0), 0));
      ListInit(node);
      head := node;
      ring := [node];
      contents := [];
      Repr := {this, node};
    }

    /** dl_list_first */
    method First() returns (tmp: Link<Timer>)
      requires Valid()
      ensures tmp == At(ring, 1)
      ensures tmp == head <==> contents == []
      ensures contents != [] ==> tmp.item == contents[0]
    {
      assert Linked(head, At(ring, 1));
      tmp := head.next;
      assert contents != [] ==> tmp.item == contents[0] && tmp != head;
    }

    /** The walk to the first timer due strictly later than time, or round to the head. */
    method FindLater(time: RelTime) returns (tmp: Link<Timer>, ghost k: nat)
      requires Valid()
      ensures k <= |contents| && tmp == At(ring, k + 1)
      ensures forall j | 0 <= j < k :: !Before(time, contents[j].time)
      ensures k < |contents| ==> tmp != head && Before(time, contents[k].time)
    {
      tmp := First();
      k := 0;
      while tmp != head && !Before(time, tmp.item.time)
        invariant k <= |contents| && tmp == At(ring, k + 1)
        invariant forall j | 0 <= j < k :: !Before(time, contents[j].time)
        decreases |contents| - k
      {
        assert Linked(tmp, At(ring, k + 2));
        tmp := tmp.next;
        k := k + 1;
      }
      assert k < |contents| ==> tmp != head && contents[k] == tmp.item;
    }

    /** Links a new node into the ring at the place of its k-th timer, or at the end. */
    method LinkBefore(tmp: Link<Timer>, node: Link<Timer>, ghost k: nat)
      requires Valid() && node !in Repr
      requires k <= |contents| && tmp == At(ring, k + 1)
      modifies Repr, node
      ensures Valid() && Repr == old(Repr) + {node}
      ensures contents == old(contents[..k] + [node.item] + contents[k..])
    {
      if tmp != head {
        assert Linked(ring[k], tmp);
        ListAdd(tmp.prev, node, ring, k);
      } else {
        ListAddTail(head, node, ring);
        assert ring + [node] == ring[..k + 1] + [node] + ring[k + 1..];
      }
      ring := ring[..k + 1] + [node] + ring[k + 1..];
      contents := contents[..k] + [node.item] + contents[k..];
      Repr := Repr + {node};
    }

    /** Puts a new node into the list, before the first timer due strictly later. */
    method InsertSorted(node: Link<Timer>)
      requires Valid() && node !in Repr
      modifies Repr, node
      ensures Valid() && Repr == old(Repr) + {node}
      ensures contents == Insert(old(contents), node.item)
    {
      var tmp, k := FindLater(node.item.time);
      TimerOrder.InsertIs(contents, node.item, k);
      LinkBefore(tmp, node, k);
    }

    /** eloop_remove_timeout, for the node of the k-th timer. */
    method Remove(node: Link<Timer>, ghost k: nat)
      requires Valid() && k < |contents| && ring[k + 1] == node
      modifies Repr
      ensures Valid() && Repr == old(Repr)
      ensures ring == old(ring[..k + 1] + ring[k + 2..])
      ensures contents == RemoveAt(old(contents), k)
    {
      assert Linked(ring[k], node) && Linked(node, At(ring, k + 2));
      ListDel(node, ring, k + 1);
      ring := ring[..k + 1] + ring[k + 2..];
      contents := RemoveAt(contents, k);
    }

    /** The walk that looks for the first timer registered with exactly this callback. */
    method FindExact(cb: Callback) returns (tmp: Link<Timer>, ghost k: nat)
      requires Valid()
      ensures k == FirstExact(contents, cb) && tmp == At(ring, k + 1)
      ensures tmp == head <==> k == |contents|
      ensures tmp != head ==> tmp.item == contents[k]
    {
      tmp := First();
      k := 0;
      while tmp != head && tmp.item.cb != cb
        invariant k <= |contents| && tmp == At(ring, k + 1)
        invariant forall j | 0 <= j < k :: contents[j].cb != cb
        decreases |contents| - k
      {
        assert Linked(tmp, At(ring, k + 2));
        tmp := tmp.next;
        k := k + 1;
      }
      assert k < |contents| ==> tmp != head && contents[k] == tmp.item;
    }

    /** The body of the cancelling walk; afterwards the saved node is where the walk goes on. */
    method RemoveIfMatching(tmp: Link<Timer>, cb: Callback, ghost k: nat) returns (matched: bool)
      requires Valid() && k < |contents| && ring[k + 1] == tmp
      modifies Repr
      ensures Valid() && Repr == old(Repr)
      ensures matched == Matches(old(contents[k]), cb)
      ensures contents == if matched then RemoveAt(old(contents), k) else old(contents)
      ensures At(ring, if matched then k + 1 else k + 2) == old(tmp.next)
    {
      assert Linked(tmp, At(ring, k + 2));
      matched := Matches(tmp.item, cb);
      if matched {
        Remove(tmp, k);
      }
    }

    /** eloop_cancel_timeout: the walk saves the next node before it unlinks the current one. */
    method Cancel(cb: Callback) returns (removed: nat, ghost gone: seq<Timer>)
      requires Valid()
      modifies Repr
      ensures Valid() && Repr == old(Repr)
      ensures contents == Select(old(contents), cb, false)
      ensures gone == Select(old(contents), cb, true) && removed == |gone|
    {
      removed := 0;
      ghost var ts, i := contents, 0;     // the timers at the start, how many of them were looked at
      var tmp: Link<Timer> := First();
      var saved: Link?<Timer> := tmp.next;
      WalkStart(ts, cb);
      while tmp != head
        invariant Repr == old(Repr) && Walking(ts, i, cb, removed, tmp)
        invariant saved == tmp.next
        decreases |ts| - i
      {
        var matched := VisitNode(tmp, cb, ts, i, removed);
        if matched {
          removed := removed + 1;
        }
        i := i + 1;
        tmp := saved;
        saved := saved.next;
      }
      WalkEnd(ts, cb);
      gone := Select(ts, cb, true);
    }

    /** The walk stands at tmp, has looked at i of the timers ts and removed that many of them. */
    ghost predicate Walking(ts: seq<Timer>, i: nat, cb: Callback, removed: nat, tmp: Link<Timer>)
      reads this, Repr
    {
      && Valid()
      && i <= |ts| && contents == Walked(ts, i, cb)
      && removed == |Select(ts[..i], cb, true)| <= i && |ring| == |ts| - removed + 1
      && tmp == At(ring, i - removed + 1)
      && (tmp == head <==> i == |ts|)
    }

    /** One turn of the walk: it can go on at the node saved before. */
    method VisitNode(tmp: Link<Timer>, cb: Callback, ghost ts: seq<Timer>, ghost i: nat, ghost removed: nat) returns (matched: bool)
      requires Walking(ts, i, cb, removed, tmp) && tmp != head
      modifies Repr
      ensures Repr == old(Repr) && old(tmp.next) != null
      ensures Walking(ts, i + 1, cb, if matched then removed + 1 else removed, old(tmp.next))
    {
      WalkStep(ts, i, cb);
      matched := RemoveIfMatching(tmp, cb, i - removed);
      AtHead(i + 1 - (if matched then removed + 1 else removed) + 1);
    }

    lemma AtHead(p: nat)
      requires Valid() && 1 <= p <= |ring|
      ensures At(ring, p) == head <==> p == |ring|
    {
    }

    /** What is left when the walk has looked at i timers. */
    static ghost function Walked(ts: seq<Timer>, i: nat, cb: Callback): seq<Timer>
      requires i <= |ts|
    {
      Select(ts[..i], cb, false) + ts[i..]
    }

    static lemma WalkStart(ts: seq<Timer>, cb: Callback)
      ensures Walked(ts, 0, cb) == ts && Select(ts[..0], cb, true) == []
    {
    }

    static lemma WalkEnd(ts: seq<Timer>, cb: Callback)
      ensures Walked(ts, |ts|, cb) == Select(ts, cb, false) && ts[..|ts|] == ts
    {
      assert ts[..|ts|] == ts;
    }

    static lemma RestStep(kept: seq<Timer>, ts: seq<Timer>, i: nat)
      requires i < |ts|
      ensures (kept + ts[i..])[|kept|] == ts[i]
      ensures RemoveAt(kept + ts[i..], |kept|) == kept + ts[i + 1..]
      ensures kept + ts[i..] == kept + [ts[i]] + ts[i + 1..]
    {
    }

    static lemma SelectNext(ts: seq<Timer>, i: nat, cb: Callback, matching: bool)
      requires i < |ts|
      ensures Matches(ts[i], cb) == matching ==> Select(ts[..i + 1], cb, matching) == Select(ts[..i], cb, matching) + [ts[i]]
      ensures Matches(ts[i], cb) != matching ==> Select(ts[..i + 1], cb, matching) == Select(ts[..i], cb, matching)
    {
      assert ts[..i + 1][..i] == ts[..i];
    }

    static lemma SelectSizes(ts: seq<Timer>, cb: Callback)
      ensures |Select(ts, cb, true)| + |Select(ts, cb, false)| == |ts|
    {
      TimerOrder.SelectSplits(ts, cb);
      assert |multiset(ts)| == |ts|;
    }

    /** The next timer of the walk is dropped from what is left, or kept. */
    static lemma WalkStep(ts: seq<Timer>, i: nat, cb: Callback)
      requires i < |ts|
      ensures var k := i - |Select(ts[..i], cb, true)|;
        && 0 <= k < |Walked(ts, i, cb)| == |ts| - i + k
        && Walked(ts, i, cb)[k] == ts[i]
        && (Matches(ts[i], cb) ==>
             && Walked(ts, i + 1, cb) == RemoveAt(Walked(ts, i, cb), k)
             && |Select(ts[..i + 1], cb, true)| == |Select(ts[..i], cb, true)| + 1)
        && (!Matches(ts[i], cb) ==>
             && Walked(ts, i + 1, cb) == Walked(ts, i, cb)
             && |Select(ts[..i + 1], cb, true)| == |Select(ts[..i], cb, true)|)
    {
      SelectSizes(ts[..i], cb);
      SelectNext(ts, i, cb, true);
      SelectNext(ts, i, cb, false);
      RestStep(Select(ts[..i], cb, false), ts, i);
    }
  }
}
