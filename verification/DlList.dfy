/**
 The intrusive circular doubly-linked list (inc/list.h), worked on in place. A ring is described by
 the sequence of its links from the list head on; the macros that walk it are loops over next.
 */
module DlList {

  /** A struct dl_list together with the element it is embedded in; the head's element is a dummy. */
  class Link<T> {
    var next: Link?<T>
    var prev: Link?<T>
    const item: T

    constructor (item: T)
      ensures this.item == item && next == null && prev == null
    {
      this.item := item;
      next, prev := null, null;
    }
  }

  ghost predicate Distinct<T>(r: seq<Link<T>>) {
    forall i, j | 0 <= i < j < |r| :: r[i] != r[j]
  }

  /** r is a well-formed ring: no link twice, next leads once around it and prev is its inverse. */
  ghost predicate Ring<T>(r: seq<Link<T>>)
    reads r
  {
    && r != []
    && Distinct(r)
    && (forall i, j | 0 <= i < j < |r| && j == i + 1 :: Linked(r[i], r[j]))
    && Linked(r[|r| - 1], r[0])
  }

  ghost predicate Linked<T>(a: Link<T>, b: Link<T>)
    reads a, b
  {
    a.next == b && b.prev == a
  }

  /** Walking next and then prev, or prev and then next, comes back to the same link. */
  lemma NextPrevInverse<T>(r: seq<Link<T>>, x: Link<T>)
    requires Ring(r) && x in r
    ensures x.next != null && x.prev != null && x.next in r && x.prev in r
    ensures x.next.prev == x && x.prev.next == x
  {
    var i :| 0 <= i < |r| && r[i] == x;
    assert Linked(x, r[if i + 1 == |r| then 0 else i + 1]);
    assert Linked(r[if i == 0 then |r| - 1 else i - 1], x);
  }

  /** dl_list_init */
  method ListInit<T>(list: Link<T>)
    modifies list
    ensures Ring([list])
  {
    list.next := list;
    list.prev := list;
  }

  /** dl_list_add: puts item right after list, which is at position i of the ring. */
  method ListAdd<T>(list: Link<T>, item: Link<T>, ghost r: seq<Link<T>>, ghost i: nat)
    requires Ring(r) && i < |r| && r[i] == list && item !in r
    modifies list, list.next, item
    ensures Ring(r[..i + 1] + [item] + r[i + 1..])
  {
    ghost var n := |r|;
    ghost var after := r[if i + 1 == n then 0 else i + 1];
    assert Linked(list, after);
    item.next := list.next;
    item.prev := list;
    list.next.prev := item;
    list.next := item;
    ghost var r' := r[..i + 1] + [item] + r[i + 1..];
    assert Linked(list, item) && Linked(item, after);
    forall k | 0 <= k < n ensures Linked(r'[k], r'[k + 1]) {
      if k < i {
        assert old(Linked(r[k], r[k + 1]));
      } else if k > i + 1 {
        assert old(Linked(r[k - 1], r[k]));
      }
    }
    assert old(Linked(r[n - 1], r[0]));
    assert Linked(r'[n], r'[0]);
  }

  /** dl_list_add_tail: the new link becomes the last of the ring. */
  method ListAddTail<T>(list: Link<T>, item: Link<T>, ghost r: seq<Link<T>>)
    requires Ring(r) && r[0] == list && item !in r
    modifies list, list.prev, item
    ensures Ring(r + [item])
  {
    ghost var n := |r|;
    assert Linked(r[n - 1], list);
    ListAdd(list.prev, item, r, n - 1);
    assert r[..n - 1 + 1] + [item] + r[n - 1 + 1..] == r + [item];
  }

  /** dl_list_del: unlinks item, which is at position i and not the head. */
  method ListDel<T>(item: Link<T>, ghost r: seq<Link<T>>, ghost i: nat)
    requires Ring(r) && 0 < i < |r| && r[i] == item
    modifies item, item.next, item.prev
    ensures Ring(r[..i] + r[i + 1..])
    ensures item.next == null && item.prev == null
  {
    ghost var n := |r|;
    ghost var before, after := r[i - 1], r[if i + 1 == n then 0 else i + 1];
    assert Linked(before, item) && Linked(item, after);
    item.next.prev := item.prev;
    item.prev.next := item.next;
    item.next := null;
    item.prev := null;
    ghost var r' := r[..i] + r[i + 1..];
    assert Linked(before, after);
    forall k | 0 <= k < n - 2 ensures Linked(r'[k], r'[k + 1]) {
      if k < i - 1 {
        assert old(Linked(r[k], r[k + 1]));
      } else if k > i - 1 {
        assert old(Linked(r[k + 1], r[k + 2]));
      }
    }
    assert old(Linked(r[n - 1], r[0]));
    assert Linked(r'[n - 2], r'[0]);
  }

  /** dl_list_empty */
  method ListEmpty<T>(list: Link<T>, ghost r: seq<Link<T>>) returns (empty: bool)
    requires Ring(r) && r[0] == list
    ensures empty <==> |r| == 1
  {
    assert Linked(list, r[if |r| == 1 then 0 else 1]);
    empty := list.next == list;
  }

  /** dl_list_len: walks once around and counts. */
  method ListLen<T>(list: Link<T>, ghost r: seq<Link<T>>) returns (count: nat)
    requires Ring(r) && r[0] == list
    ensures count == |r| - 1
  {
    count := 0;
    assert Linked(list, r[if |r| == 1 then 0 else 1]);
    var item := list.next;
    while item != list
      invariant count < |r| && item == r[if count + 1 == |r| then 0 else count + 1]
      decreases |r| - count
    {
      assert Linked(item, r[if count + 2 == |r| then 0 else count + 2]);
      count := count + 1;
      item := item.next;
    }
  }
}
