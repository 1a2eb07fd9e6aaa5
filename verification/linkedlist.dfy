/**
 The doubly linked list of src/helper/linkedlist.c.

 A list is given by its spine, the nodes in order; the operations are proved against it.
 */
module LinkedList {

  class Node<T> {
    var next: Node?<T>
    var prev: Node?<T>
    const data: T

    /** `linked_list_make_node` on a non-null datum. */
    constructor (data: T)
      ensures next == null && prev == null && this.data == data
    {
      this.data := data;
      next, prev := null, null;
    }
  }

  /** `head` is the first node of `spine`; `next` follows it and `prev` mirrors `next`. */
  ghost predicate IsList<T>(head: Node?<T>, spine: seq<Node<T>>)
    reads spine
  {
    && head == First(spine)
    && forall i :: 0 <= i < |spine| ==> Linked(spine, i)
  }

  ghost function First<T>(spine: seq<Node<T>>): Node?<T> {
    if spine == [] then null else spine[0]
  }

  ghost predicate Linked<T>(spine: seq<Node<T>>, i: nat)
    requires i < |spine|
    reads spine[i]
  {
    && spine[i].next == (if i + 1 < |spine| then spine[i + 1] else null)
    && spine[i].prev == (if i > 0 then spine[i - 1] else null)
  }

  /** The links of a list, node by node: both ends are null and neighbours point at each other. */
  lemma ListLinks<T>(head: Node?<T>, s: seq<Node<T>>)
    requires IsList(head, s)
    ensures head == if |s| == 0 then null else s[0]
    ensures |s| > 0 ==> s[0].prev == null && s[|s| - 1].next == null
    ensures forall i :: 0 <= i && i + 1 < |s| ==> s[i].next == s[i + 1] && s[i + 1].prev == s[i]
  {
    if |s| > 0 {
      assert Linked(s, 0) && Linked(s, |s| - 1);
    }
    forall i | 0 <= i && i + 1 < |s|
      ensures s[i].next == s[i + 1] && s[i + 1].prev == s[i]
    {
      assert Linked(s, i) && Linked(s, i + 1);
    }
  }

  /** Nodes linked in that way are a list. */
  lemma LinkedIsList<T>(s: seq<Node<T>>)
    requires |s| > 0 && s[0].prev == null && s[|s| - 1].next == null
    requires forall i :: 0 <= i && i + 1 < |s| ==> s[i].next == s[i + 1] && s[i + 1].prev == s[i]
    ensures IsList(s[0], s)
  {
    forall i | 0 <= i < |s|
      ensures Linked(s, i)
    {
      if i > 0 { assert s[i - 1 + 1].prev == s[i - 1]; }
    }
  }

  /** A list that ends has no node twice. */
  lemma {:induction false} SpineIsDistinct<T>(head: Node?<T>, spine: seq<Node<T>>, i: nat, j: nat)
    requires IsList(head, spine) && i < j < |spine|
    ensures spine[i] != spine[j]
    decreases |spine| - j
  {
    assert Linked(spine, i) && Linked(spine, j);
    if spine[i] == spine[j] && j + 1 < |spine| {
      SpineIsDistinct(head, spine, i + 1, j + 1);
    }
  }

  lemma SpineDistinct<T>(head: Node?<T>, spine: seq<Node<T>>)
    requires IsList(head, spine)
    ensures forall i, j :: 0 <= i < j < |spine| ==> spine[i] != spine[j]
  {
    forall i, j | 0 <= i < j < |spine|
      ensures spine[i] != spine[j]
    {
      SpineIsDistinct(head, spine, i, j);
    }
  }

  /** The spine of a list is determined by its head. */
  lemma {:induction false} SpineIsUnique<T>(head: Node?<T>, s: seq<Node<T>>, t: seq<Node<T>>, k: nat)
    requires IsList(head, s) && IsList(head, t) && k <= |s|
    ensures k <= |t| && s[..k] == t[..k]
    ensures k == |s| ==> s == t
    decreases k
  {
    if k > 0 {
      SpineIsUnique(head, s, t, k - 1);
      if k > 1 {
        assert s[k - 2] == s[..k - 1][k - 2] == t[k - 2];
        assert Linked(s, k - 2) && Linked(t, k - 2);
      }
      assert s[..k] == s[..k - 1] + [s[k - 1]];
    }
    if k == |s| {
      if k > 0 {
        assert s[k - 1] == s[..k][k - 1] == t[k - 1];
        assert Linked(s, k - 1) && Linked(t, k - 1);
      }
      assert s == s[..k] && t == t[..k];
    }
  }

  /**
   `linked_list_append`: the list at `toAppend` (a single new node, for the callers) goes to the end
   of the list at `head`, and the caller's pointer to it is nulled. Of the nodes of the first list
   only the last is written, and of the second only the first.
   */
  method Append<T>(head: Node?<T>, toAppend: Node<T>, ghost spine: seq<Node<T>>, ghost added: seq<Node<T>>)
      returns (newHead: Node?<T>, cleared: Node?<T>)
    requires IsList(head, spine) && IsList(toAppend, added)
    requires forall n :: n in added ==> n !in spine
    modifies if spine == [] then {} else {spine[|spine| - 1]}`next, toAppend`prev
    ensures IsList(newHead, spine + added) && cleared == null
    ensures newHead == if spine == [] then toAppend else head
    ensures toAppend.prev == if spine == [] then null else spine[|spine| - 1]
    ensures spine != [] ==> spine[|spine| - 1].next == toAppend
  {
    SpineDistinct(head, spine);
    SpineDistinct(toAppend, added);
    assert added != [] && added[0] == toAppend;
    var current, prevNode := head, null;
    ghost var k := 0;
    while current != null
      invariant k <= |spine|
      invariant current == if k < |spine| then spine[k] else null
      invariant prevNode == if k > 0 then spine[k - 1] else null
      decreases |spine| - k
    {
      assert Linked(spine, k);
      prevNode := current;
      current := current.next;
      k := k + 1;
    }
    ghost var all := spine + added;
    assert forall i :: 0 <= i < |spine| ==> Linked(spine, i);
    assert forall i :: 0 <= i < |added| ==> Linked(added, i);
    if prevNode == null {
      newHead := toAppend;
    } else {
      newHead := head;
      prevNode.next := toAppend;
    }
    toAppend.prev := prevNode;
    cleared := null;
    forall i | 0 <= i < |all|
      ensures Linked(all, i)
    {
      if i < |spine| {
        assert old(Linked(spine, i)) && all[i] == spine[i];
        assert spine[i] != toAppend by { assert toAppend in added; }
        assert all[i + 1] == if i + 1 < |spine| then spine[i + 1] else toAppend;
      } else {
        var j := i - |spine|;
        assert old(Linked(added, j)) && all[i] == added[j] && added[j] in added;
        assert prevNode != null ==> prevNode in spine;
      }
    }
    assert newHead == First(all);
  }

  /** `linked_list_get_at`: the node at an index, null past the end, and the head for a negative index. */
  method GetAt<T>(head: Node<T>, at: int, ghost spine: seq<Node<T>>) returns (node: Node?<T>)
    requires IsList(head, spine)
    ensures node == if at <= 0 then head else if at < |spine| then spine[at] else null
  {
    var cur := 0;
    node := head;
    while cur < at
      invariant 0 <= cur < |spine| && (at >= 0 ==> cur <= at) && (at < 0 ==> cur == 0)
      invariant node == spine[cur]
    {
      assert Linked(spine, cur);
      if node.next == null {
        return null;
      }
      node := node.next;
      cur := cur + 1;
    }
  }

  /** `linked_list_get_tail`: the last node, or null. */
  method GetTail<T>(head: Node?<T>, ghost spine: seq<Node<T>>) returns (node: Node?<T>)
    requires IsList(head, spine)
    ensures node == if spine == [] then null else spine[|spine| - 1]
  {
    if head == null {
      return null;
    }
    assert Linked(spine, 0);
    if head.next == null {
      return head;
    }
    var currentNode, nextNode := head, head.next;
    ghost var k := 0;
    while nextNode != null
      invariant 0 <= k < |spine| && currentNode == spine[k]
      invariant nextNode == if k + 1 < |spine| then spine[k + 1] else null
      decreases |spine| - k
    {
      assert Linked(spine, k + 1);
      currentNode := nextNode;
      nextNode := nextNode.next;
      k := k + 1;
    }
    return currentNode;
  }
}
