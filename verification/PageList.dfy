/**
 * The doubly linked list of resident key pages of one hash-table entry, updated in place
 * (librdb/src/hashtable.cpp:211-269).
 */
module PageList {

  import KI = KeyIndex

  class PageNode {
    const offset: int
    var prev: PageNode?
    var next: PageNode?

    constructor (off: int)
      ensures offset == off && prev == null && next == null
    {
      offset, prev, next := off, null, null;
    }
  }

  function At(nodes: seq<PageNode>, i: int): (n: PageNode?) {
    if 0 <= i < |nodes| then nodes[i] else null
  }

  predicate Distinct(nodes: seq<PageNode>) {
    forall i, j :: 0 <= i < j < |nodes| ==> nodes[i] != nodes[j]
  }

  /** Both links of node i lead to its neighbours. */
  predicate LinkedAt(nodes: seq<PageNode>, i: nat)
    requires i < |nodes|
    reads nodes[i]
  {
    nodes[i].next == At(nodes, i + 1) && nodes[i].prev == At(nodes, i - 1)
  }

  function Offsets(nodes: seq<PageNode>): (r: seq<int>) {
    seq(|nodes|, i requires 0 <= i < |nodes| => nodes[i].offset)
  }

  /** Dropping a node drops its offset. */
  lemma OffsetsWithout(nodes: seq<PageNode>, i: nat)
    requires i < |nodes|
    ensures Offsets(nodes[..i] + nodes[i + 1..]) == Offsets(nodes)[..i] + Offsets(nodes)[i + 1..]
  {
  }

  class PageList {
    var head: PageNode?
    var tail: PageNode?
    var offset: int             // of the first page of the chain, -1 if there is none
    ghost var nodes: seq<PageNode>

    ghost predicate Valid()
      reads this, nodes
    {
      Distinct(nodes) && head == At(nodes, 0) && tail == At(nodes, |nodes| - 1) &&
      (forall i :: 0 <= i < |nodes| ==> LinkedAt(nodes, i)) &&
      (nodes != [] ==> offset == nodes[0].offset)
    }

    /** The entry as the key index sees it. */
    ghost function Entry(): (e: KI.HashEntry)
      reads this
    {
      KI.HashEntry(offset, Offsets(nodes))
    }

    /** initHashEntry. */
    constructor ()
      ensures Valid() && nodes == [] && Entry() == KI.HashEntry(-1, [])
    {
      head, tail, offset, nodes := null, null, -1, [];
    }

    /** addKeyPageNode: the node becomes the last one. */
    method Add(kpn: PageNode)
      requires Valid() && kpn !in nodes
      modifies this, kpn, nodes
      ensures Valid() && nodes == old(nodes) + [kpn]
      ensures Entry() == KI.AddKeyPageNode(old(Entry()), kpn.offset)
    {
      kpn.prev, kpn.next := null, null;
      if head == null {
        head, tail, offset := kpn, kpn, kpn.offset;
      } else {
        kpn.prev := tail;
        tail.next := kpn;
        tail := kpn;
      }
      nodes := nodes + [kpn];
      forall j | 0 <= j < |nodes|
        ensures LinkedAt(nodes, j)
      {
        if j < |nodes| - 1 { assert old(LinkedAt(nodes, j)); }
      }
    }

    /** removeKeyPageNode: its neighbours close up, and the entry follows its first page. */
    method Remove(kpn: PageNode, ghost i: nat)
      requires Valid() && i < |nodes| && nodes[i] == kpn
      modifies this, nodes
      ensures Valid() && nodes == old(nodes)[..i] + old(nodes)[i + 1..]
      ensures Entry() == KI.RemoveKeyPageNode(old(Entry()), i)
    {
      assert LinkedAt(nodes, i);
      if kpn.prev != null {
        kpn.prev.next := kpn.next;
      } else {
        head := kpn.next;
        offset := if head != null then kpn.next.offset else -1;
      }
      if kpn.next != null {
        kpn.next.prev := kpn.prev;
      } else {
        tail := kpn.prev;
      }
      nodes := nodes[..i] + nodes[i + 1..];
      forall j | 0 <= j < |nodes|
        ensures LinkedAt(nodes, j)
      {
        assert old(LinkedAt(nodes, if j < i then j else j + 1));
        assert nodes[j] == old(nodes)[if j < i then j else j + 1];
      }
      OffsetsWithout(old(nodes), i);
    }

    /** Following next from the head meets every resident page once, in order. */
    method Forward() returns (offs: seq<int>)
      requires Valid()
      ensures offs == Offsets(nodes)
    {
      offs := [];
      var n, i := head, 0;
      while n != null
        invariant 0 <= i <= |nodes| && n == At(nodes, i) && offs == Offsets(nodes)[..i]
        decreases |nodes| - i
      {
        assert LinkedAt(nodes, i);
        offs := offs + [n.offset];
        n, i := n.next, i + 1;
      }
    }

    /** Following prev from the tail meets them in the opposite order. */
    method Backward() returns (offs: seq<int>)
      requires Valid()
      ensures offs == Offsets(nodes)
    {
      offs := [];
      var n, i := tail, |nodes|;
      while n != null
        invariant 0 <= i <= |nodes| && n == At(nodes, i - 1) && offs == Offsets(nodes)[i..]
        decreases i
      {
        assert LinkedAt(nodes, i - 1);
        offs := [n.offset] + offs;
        n, i := n.prev, i - 1;
      }
    }
  }
}
