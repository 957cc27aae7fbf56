/** include/list.h: the circular doubly linked list, with the head as one more node of the ring. */
module ListHead {
  import opened Seqs

  /** struct list_head */
  class Node {
    var next: Node?
    var prev: Node?

    constructor ()
      ensures next == null && prev == null
    {
      next, prev := null, null;
    }
  }

  /** The node after position i, round the ring. */
  function Succ(c: seq<Node>, i: nat): Node
    requires i < |c|
  {
    if i + 1 < |c| then c[i + 1] else c[0]
  }

  /** c[0] is the head; from it, next leads through c in order and back, and prev the other way. */
  ghost predicate Ring(c: seq<Node>)
    reads c
  {
    && c != [] && Distinct(c)
    && forall i :: 0 <= i < |c| ==> c[i].next == Succ(c, i) && Succ(c, i).prev == c[i]
  }

  /** list_init: a list with no members. */
  method Init(head: Node)
    modifies head
    ensures Ring([head])
  {
    head.next, head.prev := head, head;
  }

  /** list_add: the new member comes first. */
  method Add(node: Node, head: Node, ghost c: seq<Node>)
    requires Ring(c) && head == c[0] && node !in c
    modifies node, c
    ensures Ring([head, node] + c[1..])
  {
    RingAt(c, 0);
    ghost var c' := [head, node] + c[1..];
    head.next.prev := node;
    node.next := head.next;
    node.prev := head;
    head.next := node;
    forall i | 0 <= i < |c'| ensures c'[i].next == Succ(c', i) && Succ(c', i).prev == c'[i] {
      if i >= 2 {
        assert c'[i] == c[i - 1] && Succ(c', i) == Succ(c, i - 1);
      }
    }
  }

  /** list_add_tail: the new member comes last. */
  method AddTail(node: Node, head: Node, ghost c: seq<Node>)
    requires Ring(c) && head == c[0] && node !in c
    modifies node, c
    ensures Ring(c + [node])
  {
    RingAt(c, |c| - 1);
    ghost var c' := c + [node];
    head.prev.next := node;
    node.next := head;
    node.prev := head.prev;
    head.prev := node;
    forall i | 0 <= i < |c'| ensures c'[i].next == Succ(c', i) && Succ(c', i).prev == c'[i] {
      if i + 1 < |c| {
        assert Succ(c', i) == Succ(c, i);
      }
    }
  }

  /** list_del: the member at position i leaves, the others keep their order. */
  method Del(node: Node, ghost c: seq<Node>, ghost i: nat)
    requires Ring(c) && 0 < i < |c| && c[i] == node
    modifies c
    ensures Ring(c[..i] + c[i + 1..])
  {
    hide Succ;
    RingAt(c, i);
    RingAt(c, i - 1);
    ghost var c' := c[..i] + c[i + 1..];
    SuccWithout(c, i, 0);
    node.next.prev := node.prev;
    node.prev.next := node.next;
    forall j | 0 <= j < |c'| ensures c'[j].next == Succ(c', j) && Succ(c', j).prev == c'[j] {
      var l := if j < i then j else j + 1;
      assert c'[j] == c[l];
      SuccWithout(c, i, l);
    }
  }

  lemma SuccWithout(c: seq<Node>, i: nat, l: nat)
    requires Distinct(c) && 0 < i < |c| && l < |c| && l != i
    ensures var c', j := c[..i] + c[i + 1..], if l < i then l else l - 1;
            Succ(c', j) == if l + 1 == i then Succ(c, i) else Succ(c, l)
    ensures l + 1 != i ==> Succ(c, l) != Succ(c, i) && c[l] != c[i - 1]
    ensures Distinct(c[..i] + c[i + 1..])
  {
  }

  lemma RingAt(c: seq<Node>, i: nat)
    requires Ring(c) && i < |c|
    ensures c[i].next == Succ(c, i) && Succ(c, i).prev == c[i] && c[i].next in c
    ensures c[i].prev != null && c[i].prev in c && (i > 0 ==> c[i].prev == c[i - 1] && Succ(c, i - 1) == c[i])
  {
    if i > 0 {
      assert Succ(c, i - 1) == c[i];
    } else {
      assert Succ(c, |c| - 1) == c[0];
    }
  }

  /** list_empty */
  method Empty(head: Node, ghost c: seq<Node>) returns (empty: bool)
    requires Ring(c) && head == c[0]
    ensures empty <==> |c| == 1
  {
    empty := head.next == head;
  }

  /** list_for_each with a search: the walk from the head meets the members in order, each once, and stops there. */
  method Members(head: Node, ghost c: seq<Node>) returns (seen: seq<Node>)
    requires Ring(c) && head == c[0]
    ensures seen == c[1..]
  {
    seen := [];
    RingAt(c, 0);
    var pos := head.next;
    ghost var i := 1;
    while pos != head
      invariant 1 <= i <= |c| && pos == (if i < |c| then c[i] else head) && seen == c[1..i]
      decreases |c| - i
    {
      seen := seen + [pos];
      RingAt(c, i);
      pos := pos.next;
      i := i + 1;
    }
  }
}
