/** The doubly linked list of flist.hpp. */
module LinkLists {
  class ListNode<T> {
    var prev: ListNode?<T>
    var next: ListNode?<T>
    const data: T

    constructor (data: T)
      ensures this.data == data
    {
      prev, next, this.data := null, null, data;
    }
  }

  /** The data of the nodes, in order. */
  ghost function DataOf<T>(nodes: seq<ListNode<T>>): (d: seq<T>)
    ensures |d| == |nodes|
    ensures forall i | 0 <= i < |nodes| :: d[i] == nodes[i].data
  {
    seq(|nodes|, i requires 0 <= i < |nodes| => nodes[i].data)
  }

  lemma DataWithout<T>(nodes: seq<ListNode<T>>, i: nat)
    requires i < |nodes|
    ensures DataOf(nodes[..i] + nodes[i + 1..]) == DataOf(nodes)[..i] + DataOf(nodes)[i + 1..]
  {
  }

  lemma DataTail<T>(nodes: seq<ListNode<T>>)
    requires |nodes| > 0
    ensures nodes[..0] + nodes[1..] == nodes[1..] && DataOf(nodes[1..]) == DataOf(nodes)[1..]
  {
  }

  /** The node at position `i`; null before the first and behind the last. */
  ghost function NodeAt<T>(nodes: seq<ListNode<T>>, i: int): ListNode?<T> {
    if 0 <= i < |nodes| then nodes[i] else null
  }

  lemma NodeWithout<T>(nodes: seq<ListNode<T>>, i: nat, k: int)
    requires i < |nodes|
    ensures NodeAt(nodes[..i] + nodes[i + 1..], k) == NodeAt(nodes, if k < i then k else k + 1)
  {
  }

  lemma EndsWithout<T>(nodes: seq<ListNode<T>>, i: nat)
    requires i < |nodes| && |nodes| > 1
    ensures var rest := nodes[..i] + nodes[i + 1..];
      && rest[0] == (if i == 0 then nodes[1] else nodes[0]) && NodeAt(nodes, 1) == nodes[1]
      && rest[|rest| - 1] == (if i == |rest| then nodes[|rest| - 1] else nodes[|rest|])
      && (i > 0 ==> NodeAt(nodes, i - 1) == nodes[i - 1])
  {
  }

  ghost predicate Distinct<T>(nodes: seq<ListNode<T>>) {
    forall i, j | 0 <= i < j < |nodes| :: nodes[i] != nodes[j]
  }

  lemma DistinctWithout<T>(nodes: seq<ListNode<T>>, i: nat)
    requires Distinct(nodes) && i < |nodes|
    ensures Distinct(nodes[..i] + nodes[i + 1..])
  {
  }

  /** The nodes are linked both ways in order. */
  ghost predicate Linked<T>(nodes: seq<ListNode<T>>)
    reads nodes
  {
    && (forall i {:trigger nodes[i].prev} | 0 <= i < |nodes| :: nodes[i].prev == NodeAt(nodes, i - 1))
    && (forall i {:trigger nodes[i].next} | 0 <= i < |nodes| :: nodes[i].next == NodeAt(nodes, i + 1))
  }

  class LinkList<T> {
    /** 0 for no limit. */
    const maxLen: nat
    var len: nat
    var head: ListNode?<T>
    var tail: ListNode?<T>

    ghost var nodes: seq<ListNode<T>>

    /** An empty list may keep a stale head and tail, as `Clear` leaves them. */
    ghost predicate Valid()
      reads this, nodes
    {
      && len == |nodes|
      && Distinct(nodes) && Linked(nodes)
      && (|nodes| > 0 ==> head == nodes[0] && tail == nodes[|nodes| - 1])
    }

    ghost function Contents(): seq<T>
      reads this
    {
      DataOf(nodes)
    }

    constructor (maxLen: nat)
      ensures Valid() && nodes == [] && this.maxLen == maxLen
    {
      this.maxLen, len, head, tail, nodes := maxLen, 0, null, null, [];
    }

    predicate IsFull()
      reads this
    {
      maxLen != 0 && len >= maxLen
    }

    predicate IsEmpty()
      reads this
    {
      len == 0
    }

    /** Links a node that is not in the list behind the last one. */
    method AddNode(node: ListNode<T>) returns (added: bool)
      requires Valid() && node !in nodes
      modifies this, node, if |nodes| == 0 then {} else {nodes[|nodes| - 1]}
      ensures Valid()
      ensures added <==> maxLen == 0 || |old(nodes)| < maxLen
      ensures nodes == if added then old(nodes) + [node] else old(nodes)
      ensures Contents() == if added then old(Contents()) + [node.data] else old(Contents())
      ensures !added ==> unchanged(this, node)
    {
      if IsFull() {
        return false;
      }
      if IsEmpty() {
        node.prev, node.next := null, null;
        tail := node;
        head := tail;
      } else {
        node.next := null;
        node.prev := tail;
        tail.next := node;
        tail := tail.next;
      }
      len := len + 1;
      nodes := nodes + [node];
      assert Contents() == DataOf(old(nodes)) + [node.data];
      return true;
    }

    method AddTail(data: T) returns (added: bool)
      requires Valid()
      modifies this, if |nodes| == 0 then {} else {nodes[|nodes| - 1]}
      ensures Valid()
      ensures added <==> maxLen == 0 || |old(nodes)| < maxLen
      ensures Contents() == if added then old(Contents()) + [data] else old(Contents())
      ensures if added
              then |nodes| == |old(nodes)| + 1 && fresh(nodes[|nodes| - 1]) && nodes[..|nodes| - 1] == old(nodes)
              else nodes == old(nodes)
    {
      if IsFull() {
        return false;
      }
      var node := new ListNode(data);
      added := AddNode(node);
    }

    /** The neighbours of the node that was at `i` are linked to each other; no other link changed. */
    twostate predicate Spliced(new was: seq<ListNode<T>>, new i: nat)
      requires i < |was|
      reads this, was
    {
      && was == old(nodes) && nodes == was[..i] + was[i + 1..] && len == |nodes|
      && head == (if i == 0 then NodeAt(was, 1) else old(head))
      && tail == (if i == |nodes| then NodeAt(was, i - 1) else old(tail))
      && (forall k | 0 <= k < |was| :: was[k].prev == if k == i + 1 then NodeAt(was, i - 1) else old(was[k].prev))
      && (forall k | 0 <= k < |was| :: was[k].next == if k == i - 1 then NodeAt(was, i + 1) else old(was[k].next))
    }

    twostate lemma SplicedIsValid(new was: seq<ListNode<T>>, new i: nat)
      requires old(Valid()) && i < |was| && Spliced(was, i)
      ensures Valid()
    {
      hide Distinct, NodeAt;
      DistinctWithout(was, i);
      if |was| > 1 {
        EndsWithout(was, i);
      }
      forall k | 0 <= k < |nodes|
        ensures nodes[k].prev == NodeAt(nodes, k - 1)
        ensures nodes[k].next == NodeAt(nodes, k + 1)
      {
        var at := if k < i then k else k + 1;
        NodeWithout(was, i, k - 1);
        NodeWithout(was, i, k + 1);
        assert nodes[k] == was[at];
        assert old(was[at].prev) == NodeAt(was, at - 1) && old(was[at].next) == NodeAt(was, at + 1);
      }
    }

    /** Takes the first node out; null from an empty list. */
    method PopHead() returns (p: ListNode?<T>)
      requires Valid()
      modifies this, nodes
      ensures Valid()
      ensures |old(nodes)| == 0 ==> p == null && nodes == []
      ensures |old(nodes)| > 0 ==> p == old(nodes)[0] && nodes == old(nodes)[1..] && p.data == old(Contents())[0]
      ensures Contents() == if |old(nodes)| == 0 then [] else old(Contents())[1..]
    {
      hide DataOf;
      if IsEmpty() {
        return null;
      }
      ghost var was := nodes;
      DataTail(was);
      assert was[0].next == NodeAt(was, 1);
      if len == 1 {
        p := head;
        head, tail := null, null;
      } else {
        p := head;
        head := head.next;
        head.prev := null;
      }
      len := len - 1;
      nodes := nodes[1..];
      hide Linked, Distinct;
      SplicedIsValid(was, 0);
    }

    /** Takes out the node at position `i`, wherever it is. */
    method Detach(p: ListNode<T>, ghost i: nat)
      requires Valid() && i < |nodes| && nodes[i] == p
      modifies this, nodes
      ensures Valid() && nodes == old(nodes[..i] + nodes[i + 1..])
      ensures Contents() == old(Contents()[..i] + Contents()[i + 1..])
    {
      hide DataOf;
      ghost var was := nodes;
      DataWithout(was, i);
      assert p.prev == NodeAt(nodes, i - 1) && p.next == NodeAt(nodes, i + 1);
      if len == 1 {
        head, tail := null, null;
      } else if p.prev == null {
        head := p.next;
        p.next.prev := null;
      } else if p.next == null {
        tail := p.prev;
        p.prev.next := null;
      } else {
        p.next.prev := p.prev;
        p.prev.next := p.next;
      }
      len := len - 1;
      nodes := nodes[..i] + nodes[i + 1..];
      hide Linked, Distinct;
      SplicedIsValid(was, i);
    }

    /** Releases every node, each once and none after its release; head and tail stay as they were. */
    method Clear() returns (ghost freed: seq<ListNode<T>>)
      requires Valid()
      modifies this
      ensures Valid() && nodes == [] && freed == old(nodes)
      ensures head == old(head) && tail == old(tail)
    {
      var p := head;
      var q := p;
      freed := [];
      var i := len;
      while i > 0
        invariant 0 <= i <= len && nodes == old(nodes) && Valid() && len == |nodes|
        invariant freed == nodes[..len - i]
        invariant i > 0 ==> p == q == nodes[len - i]
      {
        assert p !in freed;
        p := p.next;
        freed := freed + [q];
        q := p;
        i := i - 1;
      }
      len := 0;
      nodes := [];
    }
  }
}
