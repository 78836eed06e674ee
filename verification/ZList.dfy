/**
 The intrusive list of ZGC (zList.inline.hpp): a ring of nodes through a head that belongs to the list.
 An unlinked node points at itself.
 */
module ZList {
  class ZListNode {
    var next: ZListNode
    var prev: ZListNode

    constructor ()
      ensures next == this && prev == this
    {
      next := this;
      prev := this;
    }
  }

  /** Position `i` of the ring and the one after it point at each other. */
  ghost predicate Joined(ring: seq<ZListNode>, i: nat)
    requires i + 1 < |ring|
    reads ring
  {
    ring[i].next == ring[i + 1] && ring[i + 1].prev == ring[i]
  }

  function Inserted(nodes: seq<ZListNode>, k: nat, x: ZListNode): seq<ZListNode>
    requires k <= |nodes|
  {
    nodes[..k] + [x] + nodes[k..]
  }

  function Removed(nodes: seq<ZListNode>, k: nat): seq<ZListNode>
    requires k < |nodes|
  {
    nodes[..k] + nodes[k + 1..]
  }

  /** Removing what was inserted restores the list. */
  lemma RemoveInserted(nodes: seq<ZListNode>, k: nat, x: ZListNode)
    requires k <= |nodes|
    ensures Removed(Inserted(nodes, k, x), k) == nodes
  {
  }

  class ZList {
    const head: ZListNode
    var size: nat
    ghost var nodes: seq<ZListNode>

    ghost function Ring(): seq<ZListNode>
      reads this
    {
      [head] + nodes + [head]
    }

    ghost predicate Valid()
      reads this, head, nodes
    {
      && size == |nodes| && head !in nodes
      && (forall i, j :: 0 <= i < j < |nodes| ==> nodes[i] != nodes[j])
      && (forall i: nat {:trigger Joined(Ring(), i)} :: i <= |nodes| ==> Joined(Ring(), i))
    }

    constructor ()
      ensures Valid() && nodes == [] && fresh(head)
    {
      head := new ZListNode();
      size := 0;
      nodes := [];
    }

    /** `insert`: the unlinked node comes after the node at position `k` of the ring. */
    method Insert(before: ZListNode, node: ZListNode, ghost k: nat)
      requires Valid() && k <= |nodes| && before == Ring()[k]
      requires node != head && node !in nodes && node.next == node && node.prev == node
      modifies this`size, this`nodes, node, head, nodes
      ensures Valid() && nodes == Inserted(old(nodes), k, node)
    {
      ghost var ring := Ring();
      assert Joined(ring, k);
      node.prev := before;
      node.next := before.next;
      before.next := node;
      node.next.prev := node;
      size := size + 1;
      nodes := Inserted(nodes, k, node);
      forall i: nat | i <= |nodes|
        ensures Joined(Ring(), i)
      {
        if i < k {
          assert old(Joined(ring, i));
        } else if i > k + 1 {
          assert old(Joined(ring, i - 1));
        }
      }
    }

    method IsEmpty() returns (empty: bool)
      requires Valid()
      ensures empty <==> nodes == []
    {
      empty := size == 0;
    }

    method First() returns (node: ZListNode?)
      requires Valid()
      ensures node == if nodes == [] then null else nodes[0]
    {
      assert Joined(Ring(), 0);
      node := if size == 0 then null else head.next;
    }

    method Last() returns (node: ZListNode?)
      requires Valid()
      ensures node == if nodes == [] then null else nodes[|nodes| - 1]
    {
      assert Joined(Ring(), |nodes|);
      node := if size == 0 then null else head.prev;
    }

    method Next(elem: ZListNode, ghost k: nat) returns (node: ZListNode?)
      requires Valid() && k < |nodes| && elem == nodes[k]
      ensures node == if k + 1 == |nodes| then null else nodes[k + 1]
    {
      assert Joined(Ring(), k + 1);
      node := if elem.next == head then null else elem.next;
    }

    method Prev(elem: ZListNode, ghost k: nat) returns (node: ZListNode?)
      requires Valid() && k < |nodes| && elem == nodes[k]
      ensures node == if k == 0 then null else nodes[k - 1]
    {
      assert Joined(Ring(), k);
      node := if elem.prev == head then null else elem.prev;
    }

    method InsertFirst(elem: ZListNode)
      requires Valid() && elem != head && elem !in nodes && elem.next == elem && elem.prev == elem
      modifies this`size, this`nodes, elem, head, nodes
      ensures Valid() && nodes == [elem] + old(nodes)
    {
      Insert(head, elem, 0);
    }

    method InsertLast(elem: ZListNode)
      requires Valid() && elem != head && elem !in nodes && elem.next == elem && elem.prev == elem
      modifies this`size, this`nodes, elem, head, nodes
      ensures Valid() && nodes == old(nodes) + [elem]
    {
      assert Joined(Ring(), |nodes|);
      Insert(head.prev, elem, |nodes|);
    }

    method InsertBefore(before: ZListNode, elem: ZListNode, ghost k: nat)
      requires Valid() && k < |nodes| && before == nodes[k]
      requires elem != head && elem !in nodes && elem.next == elem && elem.prev == elem
      modifies this`size, this`nodes, elem, head, nodes
      ensures Valid() && nodes == Inserted(old(nodes), k, elem)
    {
      assert Joined(Ring(), k);
      Insert(before.prev, elem, k);
    }

    method InsertAfter(after: ZListNode, elem: ZListNode, ghost k: nat)
      requires Valid() && k < |nodes| && after == nodes[k]
      requires elem != head && elem !in nodes && elem.next == elem && elem.prev == elem
      modifies this`size, this`nodes, elem, head, nodes
      ensures Valid() && nodes == Inserted(old(nodes), k + 1, elem)
    {
      Insert(after, elem, k + 1);
    }

    /** The node is unlinked: it can be inserted again. */
    method Remove(elem: ZListNode, ghost k: nat)
      requires Valid() && k < |nodes| && elem == nodes[k]
      modifies this`size, this`nodes, head, nodes
      ensures Valid() && nodes == Removed(old(nodes), k)
      ensures elem !in nodes && elem.next == elem && elem.prev == elem
    {
      ghost var ring := Ring();
      assert Joined(ring, k) && Joined(ring, k + 1);
      var next, prev := elem.next, elem.prev;
      elem.next := prev.next;
      elem.prev := next.prev;
      next.prev := prev;
      prev.next := next;
      size := size - 1;
      nodes := Removed(nodes, k);
      forall i: nat | i <= |nodes|
        ensures Joined(Ring(), i)
      {
        if i < k {
          assert old(Joined(ring, i));
        } else if i > k {
          assert old(Joined(ring, i + 1));
        }
      }
    }

    method RemoveFirst() returns (elem: ZListNode?)
      requires Valid()
      modifies this`size, this`nodes, head, nodes
      ensures Valid()
      ensures if old(nodes) == [] then elem == null && nodes == []
        else elem == old(nodes)[0] && nodes == old(nodes)[1..]
    {
      elem := First();
      if elem != null {
        Remove(elem, 0);
      }
    }

    method RemoveLast() returns (elem: ZListNode?)
      requires Valid()
      modifies this`size, this`nodes, head, nodes
      ensures Valid()
      ensures if old(nodes) == [] then elem == null && nodes == []
        else elem == old(nodes)[|old(nodes)| - 1] && nodes == old(nodes)[..|old(nodes)| - 1]
    {
      elem := Last();
      if elem != null {
        Remove(elem, |nodes| - 1);
      }
    }
  }
}
