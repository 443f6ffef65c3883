/** The Michael–Scott style FIFO queue of `ru.experimental.Queue`, run by one
    thread at a time. `head` always points at a dummy node; the queued values
    sit in the nodes after it. Every compare-and-set is a compare-then-assign,
    so it succeeds exactly when the slot holds the expected reference. */
module LockFreeQueue {
  import opened Wrappers

  /** A queue node: an immutable value and a `next` link that is changed in
      place. The initial dummy node holds Java's `null`, here `None`; every
      node made by `add` holds `Some(v)`. */
  class Node<T> {
    const value: Option<T>
    var next: Node?<T>

    constructor (value: Option<T>)
      ensures this.value == value && next == null
    {
      this.value := value;
      next := null;
    }
  }

  /** `nodes` are distinct and linked one to the next along `next`, and the
      last of them is the only one whose `next` is null. */
  ghost predicate Linked<T>(nodes: seq<Node<T>>)
    reads nodes
  {
    (forall i, j :: 0 <= i < j < |nodes| ==> nodes[i] != nodes[j]) &&
    (forall i :: 0 <= i < |nodes| - 1 ==> nodes[i].next == nodes[i + 1]) &&
    (forall i :: 0 <= i < |nodes| ==> (nodes[i].next == null <==> i == |nodes| - 1))
  }

  class Queue<T> {
    var head: Node<T>
    var tail: Node<T>

    /** The values in the queue, oldest first. */
    ghost var Contents: seq<T>
    /** Every node ever linked, oldest first. Unlinked nodes keep their `next`
        links, so a `tail` hint that lags behind still leads to the end. */
    ghost var Nodes: seq<Node<T>>
    /** The index in `Nodes` of the current dummy node. */
    ghost var Front: nat
    ghost var Repr: set<object>

    /** The linked nodes form a finite, acyclic chain ending in a node whose
        `next` is null; `head` is the dummy, the nodes after it carry
        `Contents`, and `tail` is somewhere on the chain. */
    ghost predicate Valid()
      reads this, Repr
    {
      this in Repr &&
      Front < |Nodes| &&
      |Contents| == |Nodes| - Front - 1 &&
      (forall i :: 0 <= i < |Nodes| ==> Nodes[i] in Repr) &&
      Linked(Nodes) &&
      (forall i :: 0 <= i < |Contents| ==> Nodes[Front + 1 + i].value == Some(Contents[i])) &&
      head == Nodes[Front] &&
      tail in Nodes
    }

    /** What single-threaded use keeps true: the hint is exact. */
    ghost predicate TailIsLast()
      reads this, Repr
      requires Valid()
    {
      tail == Nodes[|Nodes| - 1]
    }

    /** A new queue is one dummy node, with `tail` equal to `head`. */
    constructor ()
      ensures Valid() && fresh(Repr) && TailIsLast()
      ensures Contents == []
      ensures head == tail && head.next == null && head.value == None
    {
      var dummy := new Node(None);
      head := dummy;
      tail := dummy;
      Contents := [];
      Nodes := [dummy];
      Front := 0;
      Repr := {this, dummy};
    }

    /** True exactly when the dummy's `next` is null, that is, when no value is queued. */
    method IsEmpty() returns (empty: bool)
      requires Valid()
      ensures empty <==> head.next == null
      ensures empty <==> Contents == []
    {
      empty := head.next == null;
      assert Front < |Nodes| - 1 ==> head.next == Nodes[Front + 1];
    }

    /** The inner loop of `add`: follows `next` links from `start` to the node
        whose `next` is null, which is the last node of the chain. */
    method WalkToLast(start: Node<T>) returns (last: Node<T>)
      requires Valid() && start in Nodes
      ensures last == Nodes[|Nodes| - 1] && last.next == null
    {
      last := start;
      ghost var k :| 0 <= k < |Nodes| && Nodes[k] == last;
      while last.next != null
        invariant 0 <= k < |Nodes| && Nodes[k] == last
        decreases |Nodes| - k
      {
        last := last.next;
        k := k + 1;
      }
    }

    /** Walks from the `tail` hint to the node whose `next` is null and links a
        new node there; run alone, the link succeeds on the first attempt. */
    method Add(value: T)
      requires Valid()
      modifies Repr
      ensures Valid() && fresh(Repr - old(Repr)) && TailIsLast()
      ensures Contents == old(Contents) + [value]
      ensures head == old(head) && Front == old(Front)
      ensures fresh(tail) && tail.value == Some(value) && tail.next == null
      ensures Nodes == old(Nodes) + [tail]
    {
      var newNode := new Node(Some(value));
      var linked := false;
      while !linked
        invariant Valid() && head == old(head) && Front == old(Front)
        invariant fresh(newNode) && newNode.value == Some(value) && newNode.next == null
        invariant if linked
          then Contents == old(Contents) + [value] && Nodes == old(Nodes) + [newNode] &&
               Repr == old(Repr) + {newNode} && tail == newNode
          else Contents == old(Contents) && Nodes == old(Nodes) && Repr == old(Repr)
        decreases if linked then 0 else 1
      {
        var last := WalkToLast(tail);
        linked := LinkAfter(last, newNode);
      }
    }

    /** The link step of `add`: `last.next.compareAndSet(null, newNode)` and, on
        success, `tail = newNode`. */
    method LinkAfter(last: Node<T>, newNode: Node<T>) returns (linked: bool)
      requires Valid() && last in Nodes && newNode !in Repr
      requires newNode.next == null && newNode.value.Some?
      modifies this, last
      ensures Valid() && head == old(head) && Front == old(Front)
      ensures linked <==> old(last.next) == null
      ensures linked ==> Contents == old(Contents) + [newNode.value.value] && Nodes == old(Nodes) + [newNode]
      ensures linked ==> Repr == old(Repr) + {newNode} && tail == newNode
      ensures !linked ==> tail == old(tail) && Contents == old(Contents) && Nodes == old(Nodes) && Repr == old(Repr)
    {
      linked := last.next == null;
      if linked {
        last.next := newNode;
        assert last == Nodes[|Nodes| - 1];
        tail := newNode;
        Contents := Contents + [newNode.value.value];
        Nodes := Nodes + [newNode];
        Repr := Repr + {newNode};
        assert Linked(Nodes);
      }
    }

    /** Advances `head` by one node and returns the value of the node that
        becomes the new dummy, or `None` when nothing is queued. */
    method Remove() returns (r: Option<T>)
      requires Valid()
      modifies this
      ensures Valid() && (old(TailIsLast()) ==> TailIsLast())
      ensures tail == old(tail) && Nodes == old(Nodes) && Repr == old(Repr)
      ensures old(Contents) == [] ==> r == None && head == old(head) && Front == old(Front) && Contents == []
      ensures old(Contents) != [] ==> r == Some(old(Contents)[0]) && r == head.value
      ensures old(Contents) != [] ==> head == old(head.next) && Front == old(Front) + 1 && Contents == old(Contents)[1..]
    {
      r := None;
      var done := false;
      while !done
        invariant Valid()
        invariant tail == old(tail) && Nodes == old(Nodes) && Repr == old(Repr)
        invariant !done ==> r == None && head == old(head) && Front == old(Front) && Contents == old(Contents)
        invariant done && old(Contents) == [] ==> r == None && head == old(head) && Front == old(Front) && Contents == []
        invariant done && old(Contents) != [] ==> r == Some(old(Contents)[0]) && r == head.value
        invariant done && old(Contents) != [] ==> head == old(head.next) && Front == old(Front) + 1 && Contents == old(Contents)[1..]
        decreases if done then 0 else 1
      {
        var oldHead := head;
        var first := oldHead.next;
        if first == null {
          done := true;
        } else {
          var swapped := AdvanceHead(oldHead, first);
          if swapped {
            r := first.value;
            done := true;
          }
        }
      }
    }

    /** The step of `remove` that swings `head` from the dummy it read to that
        dummy's successor, `head.compareAndSet(oldHead, first)`; on success the
        successor, which holds the oldest value, becomes the new dummy. */
    method AdvanceHead(oldHead: Node<T>, first: Node<T>) returns (swapped: bool)
      requires Valid() && oldHead in Nodes && first == oldHead.next
      modifies this
      ensures Valid()
      ensures tail == old(tail) && Nodes == old(Nodes) && Repr == old(Repr)
      ensures swapped <==> old(head) == oldHead
      ensures !swapped ==> head == old(head) && Front == old(Front) && Contents == old(Contents)
      ensures swapped ==> old(Contents) != [] && first.value == Some(old(Contents)[0])
      ensures swapped ==> head == first && Front == old(Front) + 1 && Contents == old(Contents)[1..]
    {
      swapped := head == oldHead;
      if swapped {
        head := first;
        assert oldHead == Nodes[Front] && Nodes[Front].next != null;
        assert Front < |Nodes| - 1 && first == Nodes[Front + 1];
        Contents := Contents[1..];
        Front := Front + 1;
        forall i | 0 <= i < |Contents|
          ensures Nodes[Front + 1 + i].value == Some(Contents[i])
        {
          assert Nodes[old(Front) + 1 + (i + 1)].value == Some(old(Contents)[i + 1]);
        }
        assert Linked(Nodes) && head == Nodes[Front];
      }
    }
  }
}
