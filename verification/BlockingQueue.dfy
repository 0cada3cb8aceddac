/**
 The queue object of fqueue.hpp: a linked list and two flags, changed in place. Each method is the
 code between taking and releasing the mutex, and what it does to the object is the section of the
 same name in `QueueRuns`.
 */
module BlockingQueues {
  import opened LinkLists
  import opened Options
  import QR = QueueRuns

  class BlockingQueue<T> {
    const list: LinkList<T>
    const maxSize: nat
    var fullSignal: bool
    var emptySignal: bool

    ghost predicate Valid()
      reads this, list, list.nodes
    {
      list.Valid() && list.maxLen == 0
    }

    ghost function State(): QR.Queue<T>
      reads this, list
    {
      QR.Queue(list.Contents(), maxSize, fullSignal, emptySignal)
    }

    constructor (size: nat)
      ensures Valid() && fresh(list) && list.nodes == [] && State() == QR.NewQueue(size)
      ensures maxSize == (if size == 0 then 0xFFFF_FFFF_FFFF_FFFF else size) && !fullSignal && !emptySignal
    {
      list := new LinkList(0);
      maxSize := if size == 0 then QR.SIZE_MAX else size;
      fullSignal, emptySignal := false, false;
    }

    predicate IsFull()
      reads this, list
    {
      list.len >= maxSize
    }

    predicate IsEmpty()
      reads this, list
    {
      list.len == 0
    }

    /** The end of `add_block`; the wake-up of a popper is the step's `wakes`. */
    method AddRest(val: T) returns (reply: QR.AddReply)
      requires Valid()
      modifies this, list, list.nodes
      ensures Valid() && old(list.nodes) <= list.nodes && fresh(list.nodes[|old(list.nodes)|..])
      ensures (State(), reply) == QR.AddRest(old(State()), val)
      ensures emptySignal && !fullSignal
      ensures old(|list.Contents()|) < maxSize ==> reply == QR.Added && list.Contents() == old(list.Contents()) + [val]
      ensures old(|list.Contents()|) >= maxSize ==> reply == QR.AddFails && list.Contents() == old(list.Contents())
    {
      var result := false;
      if !IsFull() {
        result := list.AddTail(val);
      }
      emptySignal := true;
      fullSignal := false;
      reply := if result then QR.Added else QR.AddFails;
    }

    /** `add_block` until it parks or returns. */
    method AddEnter(val: T) returns (reply: QR.AddReply)
      requires Valid()
      modifies this, list, list.nodes
      ensures Valid() && old(list.nodes) <= list.nodes && fresh(list.nodes[|old(list.nodes)|..])
      ensures (State(), reply) == QR.AddEnter(old(State()), val)
      ensures reply == QR.AddParks <==> old(|list.Contents()|) >= maxSize && !old(fullSignal)
      ensures reply == QR.AddParks ==> !fullSignal && emptySignal == old(emptySignal)
      ensures reply == QR.Added <==> old(|list.Contents()|) < maxSize
      ensures list.Contents() == old(list.Contents()) + if reply == QR.Added then [val] else []
      ensures reply != QR.AddParks ==> emptySignal && !fullSignal
    {
      if IsFull() {
        if !fullSignal {
          return QR.AddParks;
        }
      }
      reply := AddRest(val);
    }

    /** The loop of `add_block` after its wait has returned. */
    method AddResume(val: T) returns (reply: QR.AddReply)
      requires Valid()
      modifies this, list, list.nodes
      ensures Valid() && old(list.nodes) <= list.nodes && fresh(list.nodes[|old(list.nodes)|..])
      ensures (State(), reply) == QR.AddResume(old(State()), val)
      ensures reply == QR.AddParks <==> !old(fullSignal)
      ensures reply == QR.AddParks ==> !fullSignal && emptySignal == old(emptySignal)
      ensures reply == QR.Added <==> old(fullSignal && |list.Contents()| < maxSize)
      ensures list.Contents() == old(list.Contents()) + if reply == QR.Added then [val] else []
      ensures reply != QR.AddParks ==> emptySignal && !fullSignal
    {
      if !fullSignal {
        return QR.AddParks;
      }
      reply := AddRest(val);
    }

    method AddExpire() returns (reply: QR.AddReply)
      requires Valid()
      modifies this
      ensures Valid() && (State(), reply) == QR.AddExpire(old(State()))
      ensures !fullSignal && emptySignal == old(emptySignal) && reply == QR.AddTimesOut
    {
      fullSignal := false;
      return QR.AddTimesOut;
    }

    /** The end of `pop_block`; the wake-up of an adder is the step's `wakes`. */
    method PopRest() returns (node: ListNode?<T>, reply: QR.PopReply<T>)
      requires Valid()
      modifies this, list, list.nodes
      ensures Valid() && (State(), reply) == QR.PopRest(old(State()))
      ensures fullSignal && !emptySignal
      ensures list.nodes == if |old(list.nodes)| == 0 then [] else old(list.nodes)[1..]
      ensures node == if |old(list.nodes)| == 0 then null else old(list.nodes)[0]
    {
      node := null;
      if !IsEmpty() {
        node := list.PopHead();
      }
      fullSignal := true;
      emptySignal := false;
      reply := QR.Popped(if node == null then None else Some(node.data));
    }

    method PopEnter() returns (node: ListNode?<T>, reply: QR.PopReply<T>)
      requires Valid()
      modifies this, list, list.nodes
      ensures Valid() && (State(), reply) == QR.PopEnter(old(State()))
      ensures reply == QR.PopParks <==> old(list.Contents()) == [] && !old(emptySignal)
      ensures reply == QR.PopParks ==> fullSignal == old(fullSignal) && !emptySignal && list.Contents() == []
      ensures reply != QR.PopParks ==> fullSignal && !emptySignal
      ensures old(list.Contents()) != [] ==>
                reply == QR.Popped(Some(old(list.Contents())[0])) && list.Contents() == old(list.Contents())[1..]
      ensures old(list.Contents()) == [] && reply != QR.PopParks ==> reply == QR.Popped(None) && list.Contents() == []
      ensures reply.Popped? && reply.node.Some? ==> node != null && node.data == reply.node.value
      ensures node == null ==> list.nodes == old(list.nodes)
      ensures node != null ==> |old(list.nodes)| > 0 && [node] + list.nodes == old(list.nodes)
    {
      if IsEmpty() {
        if !emptySignal {
          return null, QR.PopParks;
        }
      }
      node, reply := PopRest();
    }

    method PopResume() returns (node: ListNode?<T>, reply: QR.PopReply<T>)
      requires Valid()
      modifies this, list, list.nodes
      ensures Valid() && (State(), reply) == QR.PopResume(old(State()))
      ensures reply == QR.PopParks <==> !old(emptySignal)
      ensures reply == QR.PopParks ==> fullSignal == old(fullSignal) && list.Contents() == old(list.Contents())
      ensures reply != QR.PopParks ==> fullSignal
      ensures !emptySignal
      ensures reply != QR.PopParks && old(list.Contents()) != [] ==>
                reply == QR.Popped(Some(old(list.Contents())[0])) && list.Contents() == old(list.Contents())[1..]
      ensures reply != QR.PopParks && old(list.Contents()) == [] ==> reply == QR.Popped(None) && list.Contents() == []
      ensures reply.Popped? && reply.node.Some? ==> node != null && node.data == reply.node.value
      ensures node == null ==> list.nodes == old(list.nodes)
      ensures node != null ==> |old(list.nodes)| > 0 && [node] + list.nodes == old(list.nodes)
    {
      if !emptySignal {
        return null, QR.PopParks;
      }
      node, reply := PopRest();
    }

    method PopExpire() returns (node: ListNode?<T>, reply: QR.PopReply<T>)
      requires Valid()
      modifies this
      ensures Valid() && (State(), reply) == QR.PopExpire(old(State())) && node == null
      ensures !emptySignal && fullSignal == old(fullSignal) && reply == QR.PopTimesOut
    {
      emptySignal := false;
      return null, QR.PopTimesOut;
    }

    /** `clear`; releases the nodes, each once. */
    method Clear() returns (ghost freed: seq<ListNode<T>>)
      requires Valid()
      modifies this, list
      ensures Valid() && State() == QR.Clear(old(State()))
      ensures emptySignal && fullSignal && list.Contents() == []
      ensures freed == old(list.nodes) && list.nodes == []
    {
      emptySignal := true;
      fullSignal := true;
      freed := list.Clear();
    }
  }
}
