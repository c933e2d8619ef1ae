/** The doubly linked thread list with its two sentinels. */
module ThreadList {

  /** A list node embedded in a thread; the sentinels stand for no thread. */
  class Node {
    const self: nat
    const sentinel: bool
    var prev: Node?
    var next: Node?

    constructor (self: nat, sentinel: bool)
      ensures this.self == self && this.sentinel == sentinel && prev == null && next == null
    {
      this.self, this.sentinel := self, sentinel;
      prev, next := null, null;
    }
  }

  /** Inserting behind nodes[k] inserts at k of what lies between the sentinels. */
  lemma InsertedMiddle<T>(s: seq<T>, k: nat, x: T)
    requires k < |s| - 1
    ensures var s' := s[..k + 1] + [x] + s[k + 1..];
            var mid := s[1..|s| - 1];
            s'[1..|s'| - 1] == mid[..k] + [x] + mid[k..]
  {
  }

  lemma RemovedMiddle<T>(s: seq<T>, k: nat)
    requires 0 < k < |s| - 1
    ensures var s' := s[..k] + s[k + 1..];
            var mid := s[1..|s| - 1];
            s'[1..|s'| - 1] == mid[..k - 1] + mid[k..]
  {
  }

  /** Distinct nodes, linked in both directions. */
  ghost predicate Chained(ns: seq<Node>)
    reads ns
  {
    && (forall i, j :: 0 <= i < j < |ns| ==> ns[i] != ns[j])
    && (forall i {:trigger ns[i].next} :: 0 <= i < |ns| - 1 ==> ns[i].next == ns[i + 1])
    && (forall i {:trigger ns[i].prev} :: 0 < i < |ns| ==> ns[i].prev == ns[i - 1])
  }

  /** The links after x was put between ns[k] and ns[k + 1]. */
  lemma Spliced(ns: seq<Node>, k: nat, x: Node)
    requires k < |ns| - 1 && x !in ns && (forall i, j :: 0 <= i < j < |ns| ==> ns[i] != ns[j])
    requires ns[k].next == x && x.next == ns[k + 1] && ns[k + 1].prev == x && x.prev == ns[k]
    requires forall i {:trigger ns[i].next} :: 0 <= i < |ns| - 1 && i != k ==> ns[i].next == ns[i + 1]
    requires forall i {:trigger ns[i].prev} :: 0 < i < |ns| && i != k + 1 ==> ns[i].prev == ns[i - 1]
    ensures Chained(ns[..k + 1] + [x] + ns[k + 1..])
  {
    var s := ns[..k + 1] + [x] + ns[k + 1..];
    assert s[k] == ns[k] && s[k + 1] == x && s[k + 2] == ns[k + 1];
    assert forall i :: 0 <= i <= k ==> s[i] == ns[i];
    assert forall i :: k + 2 <= i < |s| ==> s[i] == ns[i - 1];
  }

  /** The links after ns[k] was taken out. */
  lemma Unspliced(ns: seq<Node>, k: nat)
    requires 0 < k < |ns| - 1 && (forall i, j :: 0 <= i < j < |ns| ==> ns[i] != ns[j])
    requires ns[k - 1].next == ns[k + 1] && ns[k + 1].prev == ns[k - 1]
    requires forall i {:trigger ns[i].next} :: 0 <= i < |ns| - 1 && i != k - 1 && i != k ==> ns[i].next == ns[i + 1]
    requires forall i {:trigger ns[i].prev} :: 0 < i < |ns| && i != k && i != k + 1 ==> ns[i].prev == ns[i - 1]
    ensures Chained(ns[..k] + ns[k + 1..]) && ns[k] !in ns[..k] + ns[k + 1..]
  {
    var s := ns[..k] + ns[k + 1..];
    assert forall i :: 0 <= i < k ==> s[i] == ns[i];
    assert forall i :: k <= i < |s| ==> s[i] == ns[i + 1];
  }

  class List {
    const head: Node
    const tail: Node
    var count: nat
    /** All nodes from the head sentinel to the tail sentinel. */
    ghost var nodes: seq<Node>

    ghost predicate Valid()
      reads this, nodes
    {
      && |nodes| == count + 2 && nodes[0] == head && nodes[|nodes| - 1] == tail
      && head.prev == null && tail.next == null && Chained(nodes)
    }

    /** The threads on the list, in order. */
    ghost function Contents(): (s: seq<Node>)
      reads this, nodes
      requires Valid()
      ensures |s| == count
    {
      nodes[1..|nodes| - 1]
    }

    /** threadlist_init */
    constructor ()
      ensures Valid() && Contents() == [] && fresh(head) && fresh(tail)
    {
      var h := new Node(0, true);
      var t := new Node(0, true);
      head, tail, count := h, t, 0;
      nodes := [h, t];
      new;
      h.next := t;
      t.prev := h;
    }

    method IsEmpty() returns (b: bool)
      requires Valid()
      ensures b <==> Contents() == []
    {
      b := count == 0;
    }

    /** threadlist_insertafternode, with the count: addee goes after nodes[k]. */
    method InsertAfterNode(onlist: Node, addee: Node, ghost k: nat)
      requires Valid() && k < |nodes| - 1 && nodes[k] == onlist
      requires addee.prev == null && addee.next == null && addee !in nodes
      modifies this, nodes, addee
      ensures Valid() && nodes == old(nodes)[..k + 1] + [addee] + old(nodes)[k + 1..]
      ensures Contents() == old(Contents())[..k] + [addee] + old(Contents())[k..]
    {
      addee.prev := onlist;
      addee.next := onlist.next;
      addee.prev.next := addee;
      addee.next.prev := addee;
      count := count + 1;
      Spliced(nodes, k, addee);
      InsertedMiddle(nodes, k, addee);
      hide Chained;
      nodes := nodes[..k + 1] + [addee] + nodes[k + 1..];
    }

    /** threadlist_insertbeforenode, with the count: addee goes before nodes[k + 1]. */
    method InsertBeforeNode(addee: Node, onlist: Node, ghost k: nat)
      requires Valid() && k < |nodes| - 1 && nodes[k + 1] == onlist
      requires addee.prev == null && addee.next == null && addee !in nodes
      modifies this, nodes, addee
      ensures Valid() && nodes == old(nodes)[..k + 1] + [addee] + old(nodes)[k + 1..]
      ensures Contents() == old(Contents())[..k] + [addee] + old(Contents())[k..]
    {
      addee.prev := onlist.prev;
      addee.next := onlist;
      addee.prev.next := addee;
      addee.next.prev := addee;
      count := count + 1;
      Spliced(nodes, k, addee);
      InsertedMiddle(nodes, k, addee);
      hide Chained;
      nodes := nodes[..k + 1] + [addee] + nodes[k + 1..];
    }

    /** threadlist_removenode, with the count: takes nodes[k] off. */
    method RemoveNode(tln: Node, ghost k: nat)
      requires Valid() && 0 < k < |nodes| - 1 && nodes[k] == tln
      modifies this, nodes
      ensures Valid() && tln.prev == null && tln.next == null
      ensures Contents() == old(Contents())[..k - 1] + old(Contents())[k..]
      ensures tln !in nodes
    {
      tln.prev.next := tln.next;
      tln.next.prev := tln.prev;
      tln.prev := null;
      tln.next := null;
      count := count - 1;
      Unspliced(nodes, k);
      RemovedMiddle(nodes, k);
      hide Chained;
      nodes := nodes[..k] + nodes[k + 1..];
    }

    /** threadlist_addhead */
    method AddHead(t: Node)
      requires Valid() && t.prev == null && t.next == null && t !in nodes
      modifies this, nodes, t
      ensures Valid() && Contents() == [t] + old(Contents())
    {
      InsertAfterNode(head, t, 0);
    }

    /** threadlist_addtail */
    method AddTail(t: Node)
      requires Valid() && t.prev == null && t.next == null && t !in nodes
      modifies this, nodes, t
      ensures Valid() && Contents() == old(Contents()) + [t]
    {
      ghost var n := |nodes| - 2;
      InsertBeforeNode(t, tail, n);
    }

    /** threadlist_remhead: null when the list is empty. */
    method RemHead() returns (t: Node?)
      requires Valid()
      modifies this, nodes
      ensures Valid()
      ensures t == null <==> old(Contents()) == []
      ensures t == null ==> Contents() == []
      ensures t != null ==>
        t == old(Contents())[0] && Contents() == old(Contents())[1..] && t.prev == null && t.next == null
    {
      var tln := head.next;
      if tln.next == null {
        return null;
      }
      RemoveNode(tln, 1);
      t := tln;
    }

    /** threadlist_remtail: null when the list is empty. */
    method RemTail() returns (t: Node?)
      requires Valid()
      modifies this, nodes
      ensures Valid()
      ensures t == null <==> old(Contents()) == []
      ensures t == null ==> Contents() == []
      ensures t != null ==>
        t == old(Contents())[|old(Contents())| - 1] &&
        Contents() == old(Contents())[..|old(Contents())| - 1] && t.prev == null && t.next == null
    {
      var tln := tail.prev;
      if tln.prev == null {
        return null;
      }
      ghost var k := |nodes| - 2;
      RemoveNode(tln, k);
      t := tln;
    }

    /** threadlist_insertbefore: addee goes in front of onlist, the k-th thread. */
    method InsertBefore(addee: Node, onlist: Node, ghost k: nat)
      requires Valid() && k < count && Contents()[k] == onlist
      requires addee.prev == null && addee.next == null && addee !in nodes
      modifies this, nodes, addee
      ensures Valid() && Contents() == old(Contents())[..k] + [addee] + old(Contents())[k..]
    {
      InsertBeforeNode(addee, onlist, k);
    }

    /** threadlist_insertafter: addee goes behind onlist, the k-th thread. */
    method InsertAfter(onlist: Node, addee: Node, ghost k: nat)
      requires Valid() && k < count && Contents()[k] == onlist
      requires addee.prev == null && addee.next == null && addee !in nodes
      modifies this, nodes, addee
      ensures Valid() && Contents() == old(Contents())[..k + 1] + [addee] + old(Contents())[k + 1..]
    {
      InsertAfterNode(onlist, addee, k + 1);
    }

    /** threadlist_remove: takes the k-th thread off. */
    method Remove(t: Node, ghost k: nat)
      requires Valid() && k < count && Contents()[k] == t
      modifies this, nodes
      ensures Valid() && t.prev == null && t.next == null
      ensures Contents() == old(Contents())[..k] + old(Contents())[k + 1..]
    {
      RemoveNode(t, k + 1);
    }
  }
}
