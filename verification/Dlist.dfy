// kernel/src/kernel/dlist.c: intrusive doubly linked lists.
//
// Where the source panics, the operation has a precondition; Scheduler.dfy proves that the
// kernel meets it.
module DoublyLinked {

  class DlistNode<T> {
    var prev: DlistNode?<T>
    var next: DlistNode?<T>
    ghost var owner: Dlist?<T>  // the list that holds the node
    const obj: T

    // dlist_node_init
    constructor (obj: T)
      ensures Free() && this.obj == obj
    {
      this.obj := obj;
      prev, next, owner := null, null, null;
    }

    // A free node is on no list and has no links.
    ghost predicate Free()
      reads this
    {
      owner == null && prev == null && next == null
    }
  }

  // A list none of whose fields and nodes have changed is still valid.
  twostate lemma Kept<T>(q: Dlist<T>)
    requires old(q.Valid()) && unchanged(q)
    requires forall n :: n in q.nodes ==> n.prev == old(n.prev) && n.next == old(n.next) && n.owner == old(n.owner)
    ensures q.Valid()
  {
    forall i | 0 <= i < |q.nodes|
      ensures q.nodes[i].prev == old(q.nodes[i].prev) && q.nodes[i].next == old(q.nodes[i].next)
      ensures q.nodes[i].owner == q
    {
      assert q.nodes[i] in old(q.nodes);
    }
  }

  class Dlist<T> {
    var first: DlistNode?<T>
    var last: DlistNode?<T>
    var size: nat
    ghost var nodes: seq<DlistNode<T>>

    // Ends, links and size agree with the sequence of nodes.
    ghost predicate Linked()
      reads this, nodes
    {
      && size == |nodes|
      && (|nodes| == 0 ==> first == null && last == null)
      && (|nodes| > 0 ==> first == nodes[0] && last == nodes[|nodes| - 1])
      && (forall i {:trigger nodes[i].prev} :: 0 <= i < |nodes| ==>
            nodes[i].prev == if i == 0 then null else nodes[i - 1])
      && (forall i {:trigger nodes[i].next} :: 0 <= i < |nodes| ==>
            nodes[i].next == if i == |nodes| - 1 then null else nodes[i + 1])
      && (forall i, j :: 0 <= i < j < |nodes| ==> nodes[i] != nodes[j])
    }

    ghost predicate Owns()
      reads this, nodes
    {
      forall n :: n in nodes ==> n.owner == this
    }

    ghost predicate Valid()
      reads this, nodes
    {
      Linked() && Owns()
    }

    // dlist_init
    constructor ()
      ensures Valid() && nodes == []
    {
      first, last, size, nodes := null, null, 0, [];
    }

    // The test every insertion makes before it links a node.
    predicate MayInsert(node: DlistNode<T>)
      reads this, node
    {
      node.next == null && node.prev == null && node != first
    }

    // The test refuses every node that is on this list already, and no node that is free.
    lemma InsertionGuard(node: DlistNode<T>)
      requires Valid()
      ensures node in nodes ==> !MayInsert(node)
      ensures node.Free() ==> MayInsert(node)
    {
      if node in nodes {
        var i :| 0 <= i < |nodes| && nodes[i] == node;
        assert nodes[i].prev == if i == 0 then null else nodes[i - 1];
      }
    }

    method InsertFirst(node: DlistNode<T>)
      requires Valid() && node.Free()
      modifies this, nodes`prev, node
      ensures Valid() && nodes == [node] + old(nodes)
    {
      InsertionGuard(node);
      if first != null {
        node.next := first;
        first.prev := node;
        first := node;
      } else {
        first := node;
        last := node;
      }
      size := size + 1;
      nodes := [node] + nodes;
      node.owner := this;
    }

    method InsertLast(node: DlistNode<T>)
      requires Valid() && node.Free()
      modifies this, nodes`next, node
      ensures Valid() && nodes == old(nodes) + [node]
    {
      InsertionGuard(node);
      if last != null {
        node.prev := last;
        last.next := node;
        last := node;
      } else {
        first := node;
        last := node;
      }
      size := size + 1;
      nodes := nodes + [node];
      node.owner := this;
    }

    method InsertAfter(node: DlistNode<T>, anchor: DlistNode<T>, ghost k: nat)
      requires Valid() && node.Free() && k < |nodes| && nodes[k] == anchor
      modifies this, nodes`next, nodes`prev, node
      ensures Valid() && nodes == old(nodes)[..k + 1] + [node] + old(nodes)[k + 1..]
    {
      InsertionGuard(node);
      if anchor == last {
        InsertLast(node);
      } else {
        node.next := anchor.next;
        anchor.next.prev := node;
        anchor.next := node;
        node.prev := anchor;
        size := size + 1;
        nodes := nodes[..k + 1] + [node] + nodes[k + 1..];
        node.owner := this;
      }
    }

    method InsertBefore(node: DlistNode<T>, anchor: DlistNode<T>, ghost k: nat)
      requires Valid() && node.Free() && k < |nodes| && nodes[k] == anchor
      modifies this, nodes`next, nodes`prev, node
      ensures Valid() && nodes == old(nodes)[..k] + [node] + old(nodes)[k..]
    {
      InsertionGuard(node);
      if anchor == first {
        InsertFirst(node);
      } else {
        node.prev := anchor.prev;
        anchor.prev.next := node;
        node.next := anchor;
        anchor.prev := node;
        size := size + 1;
        nodes := nodes[..k] + [node] + nodes[k..];
        node.owner := this;
      }
    }

    method RemoveFirst() returns (node: DlistNode<T>)
      requires Valid() && nodes != []
      modifies this, nodes`prev, nodes[0]
      ensures Valid() && node == old(nodes)[0] && node.Free() && nodes == old(nodes)[1..]
    {
      node := first;
      if node.next != null {
        node.next.prev := null;
        first := node.next;
      } else {
        first := null;
        last := null;
      }
      size := size - 1;
      nodes := nodes[1..];
      node.next := null;
      node.prev := null;
      node.owner := null;
    }

    method RemoveLast() returns (node: DlistNode<T>)
      requires Valid() && nodes != []
      modifies this, nodes`next, nodes[|nodes| - 1]
      ensures Valid() && node == old(nodes)[|old(nodes)| - 1] && node.Free()
      ensures nodes == old(nodes)[..|old(nodes)| - 1]
    {
      node := last;
      if node.prev != null {
        node.prev.next := null;
        last := node.prev;
      } else {
        last := null;
        first := null;
      }
      size := size - 1;
      nodes := nodes[..|nodes| - 1];
      node.next := null;
      node.prev := null;
      node.owner := null;
    }

    method Remove(node: DlistNode<T>, ghost k: nat)
      requires Valid() && k < |nodes| && nodes[k] == node
      modifies this, nodes`next, nodes`prev, node
      ensures Valid() && node.Free() && nodes == old(nodes)[..k] + old(nodes)[k + 1..]
    {
      Unlink(node, k);
      label unlinked:
      node.next := null;
      node.prev := null;
      Kept@unlinked(this);
    }

    // The three cases of dlist_remove
    method Unlink(node: DlistNode<T>, ghost k: nat)
      requires Valid() && k < |nodes| && nodes[k] == node
      modifies this, nodes`next, nodes`prev, node
      ensures Valid() && node.Free() && nodes == old(nodes)[..k] + old(nodes)[k + 1..]
    {
      if node == first {
        var _ := RemoveFirst();
      } else if node == last {
        var _ := RemoveLast();
      } else {
        RemoveMiddle(node, k);
      }
    }

    // dlist_remove of a node that is at neither end
    method RemoveMiddle(node: DlistNode<T>, ghost k: nat)
      requires Valid() && 0 < k < |nodes| - 1 && nodes[k] == node
      modifies this, nodes`next, nodes`prev, node
      ensures Valid() && node.Free() && nodes == old(nodes)[..k] + old(nodes)[k + 1..]
    {
      node.prev.next := node.next;
      node.next.prev := node.prev;
      size := size - 1;
      nodes := nodes[..k] + nodes[k + 1..];
      node.next := null;
      node.prev := null;
      node.owner := null;
    }

    // dlist_search
    method Search(node: DlistNode<T>) returns (found: bool)
      requires Valid()
      ensures found <==> node in nodes
    {
      var iter := first;
      ghost var i := 0;
      while iter != null
        invariant 0 <= i <= |nodes| && node !in nodes[..i]
        invariant iter == if i < |nodes| then nodes[i] else null
        decreases |nodes| - i
      {
        if iter == node {
          return true;
        }
        iter := iter.next;
        i := i + 1;
      }
      return false;
    }
  }
}
