// kernel/src/kernel/list.h: circular doubly linked lists. The list itself is one of the nodes.
module CircularList {

  class ListNode {
    var next: ListNode?
    var prev: ListNode?
    ghost var owner: List?  // the list that holds the node

    // list_node_init
    constructor ()
      ensures Free()
    {
      next, prev, owner := null, null, null;
    }

    ghost predicate Free()
      reads this
    {
      owner == null && next == null && prev == null
    }
  }

  class List {
    const head: ListNode
    ghost var nodes: seq<ListNode>

    // The ring runs from the head through the nodes and back.
    ghost predicate Linked()
      reads this, head, nodes
    {
      && head.next == (if nodes == [] then head else nodes[0])
      && head.prev == (if nodes == [] then head else nodes[|nodes| - 1])
      && (forall i {:trigger nodes[i].next} :: 0 <= i < |nodes| ==>
            nodes[i].next == if i == |nodes| - 1 then head else nodes[i + 1])
      && (forall i {:trigger nodes[i].prev} :: 0 <= i < |nodes| ==>
            nodes[i].prev == if i == 0 then head else nodes[i - 1])
      && (forall i, j :: 0 <= i < j < |nodes| ==> nodes[i] != nodes[j])
    }

    ghost predicate Valid()
      reads this, head, nodes
    {
      Linked() && head !in nodes && head.owner == this && forall n :: n in nodes ==> n.owner == this
    }

    // list_init
    constructor ()
      ensures Valid() && nodes == [] && fresh(head)
    {
      head := new ListNode();
      nodes := [];
      new;
      head.next, head.prev, head.owner := head, head, this;
    }

    // list_add_last
    method AddLast(node: ListNode)
      requires Valid() && node.Free()
      modifies this, head, nodes, node
      ensures Valid() && nodes == old(nodes) + [node]
    {
      var last := head.prev;
      last.next := node;
      head.prev := node;
      node.next := head;
      node.prev := last;
      node.owner := this;
      nodes := nodes + [node];
    }

    // list_add_first
    method AddFirst(node: ListNode)
      requires Valid() && node.Free()
      modifies this, head, nodes, node
      ensures Valid() && nodes == [node] + old(nodes)
    {
      var first := head.next;
      head.next := node;
      first.prev := node;
      node.next := first;
      node.prev := head;
      node.owner := this;
      nodes := [node] + nodes;
    }

    // list_delete_node
    method DeleteNode(node: ListNode, ghost k: nat)
      requires Valid() && k < |nodes| && nodes[k] == node
      modifies this, head, nodes
      ensures Valid() && node.Free() && nodes == old(nodes)[..k] + old(nodes)[k + 1..]
    {
      var prev, next := node.prev, node.next;
      Rest(nodes, k);
      prev.next := next;
      next.prev := prev;
      node.next := null;
      node.prev := null;
      node.owner := null;
      nodes := nodes[..k] + nodes[k + 1..];
    }

    lemma Rest(q: seq<ListNode>, k: nat)
      requires k < |q| && forall i, j :: 0 <= i < j < |q| ==> q[i] != q[j]
      ensures var r := q[..k] + q[k + 1..];
              && (forall i, j :: 0 <= i < j < |r| ==> r[i] != r[j]) && q[k] !in r && forall n :: n in r ==> n in q
    {
    }

    // list_delete_first
    method DeleteFirst()
      requires Valid()
      modifies this, head, nodes
      ensures Valid() && nodes == if old(nodes) == [] then [] else old(nodes)[1..]
    {
      if head.next == head {
        return;
      }
      DeleteNode(head.next, 0);
    }

    // list_delete_last
    method DeleteLast()
      requires Valid()
      modifies this, head, nodes
      ensures Valid() && nodes == if old(nodes) == [] then [] else old(nodes)[..|old(nodes)| - 1]
    {
      if head.next == head {
        return;
      }
      DeleteNode(head.prev, |nodes| - 1);
    }

    // list_is_empty
    predicate IsEmpty()
      reads this, head
    {
      head.next == head
    }

    // A list is empty, by its own test, exactly if it has no nodes; else its ends are found
    // beside the head.
    lemma EmptyTest()
      requires Valid()
      ensures IsEmpty() <==> nodes == []
      ensures nodes != [] ==> head.next == nodes[0] && head.prev == nodes[|nodes| - 1]
    {
    }

    // list_get_size
    method GetSize() returns (size: nat)
      requires Valid()
      ensures size == |nodes|
    {
      size := 0;
      var node := head.next;
      while node != head
        invariant size <= |nodes| && node == if size < |nodes| then nodes[size] else head
        decreases |nodes| - size
      {
        size := size + 1;
        node := node.next;
      }
    }
  }
}
