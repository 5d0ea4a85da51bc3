/**
 The doubly linked list the cache keeps its recency order in: a ring of nodes through a
 sentinel, with a ghost sequence that says which nodes are in it and in what order.
 */
module LinkedList {

  class Element {
    var next: Element?
    var prev: Element?
    const value: string

    constructor (value: string)
      ensures this.value == value
    {
      this.value := value;
      next, prev := null, null;
    }
  }

  /** Each node of `c` points to its neighbours in `c`. */
  ghost predicate Linked(c: seq<Element>)
    reads c
  {
    && (forall i {:trigger c[i].next} :: 0 <= i < |c| - 1 ==> c[i].next == c[i+1])
    && (forall i {:trigger c[i].prev} :: 0 < i < |c| ==> c[i].prev == c[i-1])
  }

  ghost predicate Distinct(s: seq<Element>)
  {
    forall i, j :: 0 <= i < j < |s| ==> s[i] != s[j]
  }

  class List {
    const root: Element
    var len: nat
    ghost var elems: seq<Element>  // front first

    ghost function Ring(): seq<Element>
      reads this
    {
      [root] + elems + [root]
    }

    ghost predicate Valid()
      reads this, root, elems
    {
      && len == |elems|
      && root !in elems
      && Distinct(elems)
      && Linked(Ring())
    }

    constructor ()
      ensures Valid() && elems == [] && fresh(root)
    {
      root := new Element("");
      len, elems := 0, [];
      new;
      root.next, root.prev := root, root;
    }

    method Init()
      modifies this, root
      ensures Valid() && elems == []
    {
      root.next, root.prev := root, root;
      len, elems := 0, [];
    }

    method Back() returns (e: Element?)
      requires Valid()
      ensures e == if elems == [] then null else elems[|elems|-1]
    {
      if len == 0 {
        return null;
      }
      assert Ring()[|elems|] == elems[|elems|-1] && Ring()[|elems|+1] == root;
      e := root.prev;
    }

    /** Links `e`, which is in no list, right after the sentinel. */
    method InsertFront(e: Element)
      requires Valid() && e !in elems && e != root
      modifies this, root, elems, e
      ensures Valid() && elems == [e] + old(elems)
    {
      ghost var ring := Ring();
      var second := root.next;
      assert second == ring[1] by { assert ring[0] == root; }
      e.prev, e.next := root, second;
      root.next := e;
      second.prev := e;
      len, elems := len + 1, [e] + elems;
      ghost var now := Ring();
      assert now == [root, e] + ring[1..];
      forall i | 0 <= i < |now| - 1 ensures now[i].next == now[i+1] && now[i+1].prev == now[i] {
        if i >= 2 {
          assert now[i] == ring[i-1] && now[i+1] == ring[i];
          assert ring[i-1] == old(elems)[i-2] && ring[i] != second;
        }
      }
    }

    /** Unlinks the node at position `i`. */
    method Remove(e: Element, ghost i: nat)
      requires Valid() && i < |elems| && elems[i] == e
      modifies this, root, elems
      ensures Valid() && elems == old(elems)[..i] + old(elems)[i+1..]
    {
      ghost var ring := Ring();
      assert ring[i+1] == e;
      var before, after := e.prev, e.next;
      assert before == ring[i] by { assert ring[i].next == ring[i+1] && ring[i+1].prev == ring[i]; }
      assert after == ring[i+2];
      before.next := after;
      after.prev := before;
      e.next, e.prev := null, null;
      len, elems := len - 1, elems[..i] + elems[i+1..];
      ghost var now := Ring();
      assert now == ring[..i+1] + ring[i+2..];
      forall k | 0 <= k < |now| - 1 ensures now[k].next == now[k+1] && now[k+1].prev == now[k] {
        RelinkedAt(ring, now, i, k);
      }
    }

    /** Positions of the ring after a removal, in terms of the positions before it. */
    lemma RelinkedAt(ring: seq<Element>, now: seq<Element>, i: nat, k: nat)
      requires i + 2 < |ring| && now == ring[..i+1] + ring[i+2..] && k < |now| - 1
      ensures k < i ==> now[k] == ring[k] && now[k+1] == ring[k+1]
      ensures k == i ==> now[k] == ring[i] && now[k+1] == ring[i+2]
      ensures k > i ==> now[k] == ring[k+1] && now[k+1] == ring[k+2]
    {
    }

    method MoveToFront(e: Element, ghost i: nat)
      requires Valid() && i < |elems| && elems[i] == e
      modifies this, root, elems
      ensures Valid() && elems == [e] + old(elems)[..i] + old(elems)[i+1..]
    {
      assert Ring()[0] == root && Ring()[1] == elems[0];
      if root.next == e {
        assert i == 0;
        return;
      }
      Remove(e, i);
      InsertFront(e);
    }

    method PushFront(value: string) returns (e: Element)
      requires Valid()
      modifies this, root, elems
      ensures Valid() && fresh(e) && e.value == value && elems == [e] + old(elems)
    {
      e := new Element(value);
      InsertFront(e);
    }
  }
}
