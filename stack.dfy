/** The Treiber style LIFO stack of `ru.experimental.Stack`, run by one thread
    at a time. Nodes never change once built; only `head` moves, and every
    compare-and-set on it is a compare-then-assign that succeeds exactly when
    `head` still holds the reference read before. */
module LockFreeStack {
  import opened Wrappers

  /** An immutable stack node (`final next`, `final value`). */
  class Node<T> {
    const next: Node?<T>
    const value: T
    /** The values from this node down to the bottom of the stack. */
    ghost const Contents: seq<T>

    /** The chain below this node is finite (its length strictly decreases
        along `next`) and `Contents` lists its values top first. */
    ghost predicate Valid()
      decreases |Contents|
    {
      if next == null then Contents == [value]
      else Contents == [value] + next.Contents && next.Valid()
    }

    /** A node on top of `next`; it is well formed whenever `next` is. */
    constructor (next: Node?<T>, value: T)
      ensures this.next == next && this.value == value
      ensures Contents == [value] + (if next == null then [] else next.Contents)
      ensures next == null || next.Valid() ==> Valid()
    {
      this.next := next;
      this.value := value;
      Contents := [value] + (if next == null then [] else next.Contents);
    }
  }

  class Stack<T> {
    var head: Node?<T>

    ghost predicate Valid()
      reads this
    {
      head != null ==> head.Valid()
    }

    /** The values on the stack, most recently pushed first. */
    ghost function Contents(): seq<T>
      reads this
    {
      if head == null then [] else head.Contents
    }

    /** A new stack has no node at all. */
    constructor ()
      ensures Valid() && head == null && Contents() == []
    {
      head := null;
    }

    /** True exactly when `head` is null, that is, when nothing is stacked. */
    method IsEmpty() returns (empty: bool)
      requires Valid()
      ensures empty <==> head == null
      ensures empty <==> Contents() == []
    {
      empty := head == null;
    }

    /** Installs a new node whose `next` is the old head; run alone, the
        retry loop makes one attempt only. Each attempt re-reads `head` and
        builds a fresh node on top of it. */
    method Push(value: T)
      requires Valid()
      modifies this
      ensures Valid() && fresh(head)
      ensures head.next == old(head) && head.value == value
      ensures Contents() == [value] + old(Contents())
    {
      var swapped := false;
      while !swapped
        invariant Valid()
        invariant !swapped ==> head == old(head)
        invariant swapped ==> fresh(head) && head.next == old(head) && head.value == value
        decreases if swapped then 0 else 1
      {
        var oldHead := head;
        var n := new Node(oldHead, value);
        swapped := head == oldHead;
        if swapped {
          head := n;
        }
      }
    }

    /** Swings `head` to `head.next` and returns the old top's value, or
        `None` when the stack is empty; run alone, one attempt suffices. */
    method Pop() returns (r: Option<T>)
      requires Valid()
      modifies this
      ensures Valid()
      ensures old(head) == null ==> r == None && head == null
      ensures old(head) != null ==> r == Some(old(head).value) && head == old(head).next
      ensures old(Contents()) == [] ==> r == None && Contents() == []
      ensures old(Contents()) != [] ==> r == Some(old(Contents())[0]) && Contents() == old(Contents())[1..]
    {
      var n: Node?<T> := null;
      var done := false;
      while !done
        invariant Valid()
        invariant !done ==> head == old(head)
        invariant done && n == null ==> head == null && old(head) == null
        invariant done && n != null ==> n == old(head) && head == n.next
        decreases if done then 0 else 1
      {
        n := head;
        if n == null {
          done := true;
        } else {
          done := head == n;
          if done {
            head := n.next;
          }
        }
      }
      r := if n == null then None else Some(n.value);
    }
  }
}
