# Lock-free queue and stack of `ru.experimental`, sequential model

The repository provides two linked containers built on `AtomicReference`:

- `Queue<T>` is a Michael–Scott style FIFO queue. `head` always points at a
  dummy node, and the queued values sit in the nodes after it. `tail` is a
  hint to the last node. `add` walks from the hint to the node whose `next`
  is null and links a new node there. `remove` swings `head` to the dummy's
  successor, which becomes the new dummy, and returns that node's value.
- `Stack<T>` is a Treiber stack of immutable nodes. `push` installs a new
  node whose `next` is the old head. `pop` swings `head` to `head.next`.

This project models what each operation does when it runs alone.

- Every `compareAndSet` becomes a compare-then-assign on the field. It
  succeeds exactly when the field holds the expected reference.
- Both containers are classes whose methods update their fields in place.
  The retry loops of the source are kept as `while` loops.
- Each container keeps a ghost `Valid()` invariant that ties the node chain
  to ghost abstract contents:
  - `Contents`, a sequence oldest first, for the queue;
  - `Contents()`, a sequence newest first, for the stack.
- Every method states its effect on those contents.
- Each retry loop's termination measure can drop from 1 to 0 only once. That
  proves a single attempt always succeeds when the operation runs alone.

Java returns `null` both for "empty" and for a stored `null` value. Here
`remove` and `pop` return an `Option`: `None` means "empty" and `Some(v)`
means a value, so the model has no such ambiguity. The dummy node that a new
queue creates holds `None`. Every node made by `add` holds `Some(v)`.

Two behaviour modules, one per container, define an abstract history
semantics:

- `Apply`, `Result`, `Results` and `Final` over a list of operations;
- lemmas proving FIFO or LIFO order and that nothing is lost or duplicated;
- a `Replay` method that runs any list of operations on the linked class and
  proves that its results equal the abstract ones;
- the single-threaded JUnit scenarios, restated as methods whose
  postconditions are the tests' assertions.

Modules:

- `Wrappers` (`wrappers.dfy`): `Option` and helpers over lists of results.
- `Totals` (`totals.dfy`): the sums checked by the drain tests.
- `LockFreeQueue` (`queue.dfy`) and `LockFreeStack` (`stack.dfy`): the two
  containers.
- `QueueBehaviour` (`queue_behaviour.dfy`) and `StackBehaviour`
  (`stack_behaviour.dfy`): the abstract histories, `Replay` and the
  scenarios.

## Model

| member | source | states |
|---|---|---|
| LockFreeQueue.Node.constructor | src/main/java/ru/experimental/Queue.java:11-14 | a new node carries the given value and has a null `next` |
| LockFreeQueue.Queue.constructor | src/main/java/ru/experimental/Queue.java:25-26 | a new queue is one dummy node that holds no value and has a null `next`; `tail == head`; the contents are empty and the tail hint is exact |
| LockFreeQueue.Queue.IsEmpty | src/main/java/ru/experimental/Queue.java:28-30 | the result is true exactly when the dummy's `next` is null, and exactly when the contents are empty |
| LockFreeQueue.Queue.WalkToLast | src/main/java/ru/experimental/Queue.java:35-38 | walking `next` links from any linked node, such as a lagging `tail`, ends at the last node of the chain, whose `next` is null; the walk terminates because the chain is finite and acyclic |
| LockFreeQueue.Queue.LinkAfter | src/main/java/ru/experimental/Queue.java:39-41 | the link succeeds exactly when `last.next` was null; on success the new node is appended to the chain, its value to the contents, and `tail` points at it; on failure nothing changes; the invariant is kept either way |
| LockFreeQueue.Queue.Add | src/main/java/ru/experimental/Queue.java:32-44 | the contents become `old(Contents) + [value]`; the nodes already linked are kept, with the new node appended as the last one, which `tail` then points at; `head` does not move; the retry loop makes one attempt only |
| LockFreeQueue.Queue.AdvanceHead | src/main/java/ru/experimental/Queue.java:52-53 | the CAS succeeds exactly when `head` is still the dummy that was read; then the successor becomes the dummy, it holds the oldest value, and that value leaves the contents; otherwise nothing changes |
| LockFreeQueue.Queue.Remove | src/main/java/ru/experimental/Queue.java:46-56 | on an empty queue it returns `None` and changes nothing; otherwise it returns `Some(old(Contents)[0])`, the old `head.next` becomes the dummy and holds the returned value, and the contents lose their first element; `tail` and the chain are untouched, so an exact tail hint stays exact |
| LockFreeStack.Node.constructor | src/main/java/ru/experimental/Stack.java:20-23 | a node's `next` and `value` are fixed at construction, its contents are its value followed by the contents below it, and it is well formed when the node below is |
| LockFreeStack.Stack.constructor | src/main/java/ru/experimental/Stack.java:27 | a new stack has a null `head` and empty contents |
| LockFreeStack.Stack.IsEmpty | src/main/java/ru/experimental/Stack.java:29-31 | the result is true exactly when `head` is null, and exactly when the contents are empty |
| LockFreeStack.Stack.Push | src/main/java/ru/experimental/Stack.java:33-41 | a fresh node with `next == old(head)` and the pushed value becomes `head`, so the contents become `[value] + old(Contents())`; the retry loop makes one attempt only |
| LockFreeStack.Stack.Pop | src/main/java/ru/experimental/Stack.java:43-49 | on an empty stack it returns `None` and `head` stays null; otherwise it returns the top node's value and `head` becomes `old(head).next`, so the contents lose their first element |
| QueueBehaviour.StepKeepsOrder | src/main/java/ru/experimental/Queue.java:32-56 | for one `add` or `remove`, the values it returns followed by the new contents equal the old contents followed by the values it adds |
| QueueBehaviour.FifoNoLossNoDuplication | src/test/java/ru/experimental/QueueTest.java:37-62 | for any history, the values returned by `remove` followed by what is still queued equal the initial contents followed by every added value, in order: FIFO, with nothing lost or duplicated |
| QueueBehaviour.AddsAppend | src/main/java/ru/experimental/Queue.java:32-44 | a run of `add(x)` calls returns nothing and appends the values, in order, after what was queued |
| QueueBehaviour.RemovesDrain | src/main/java/ru/experimental/Queue.java:46-56 | `\|s\|` calls of `remove` return every queued value oldest first and leave the queue empty |
| QueueBehaviour.RemovesOnEmpty | src/test/java/ru/experimental/QueueTest.java:26-28 | any number of `remove` calls on an empty queue all return `None` and leave it empty |
| QueueBehaviour.AddsThenRemovesInOrder | src/test/java/ru/experimental/QueueTest.java:14-21 | adding `xs` to an empty queue and removing `\|xs\|` times returns `xs` in insertion order and leaves the queue empty |
| QueueBehaviour.Replay | src/main/java/ru/experimental/Queue.java:28-56 | running any history on a new linked queue yields exactly the abstract results, and `isEmpty()` at the end agrees with the abstract final contents |
| QueueBehaviour.SimpleScenario | src/test/java/ru/experimental/QueueTest.java:14-21 | `add(1); add(2)` then two `remove()` calls give 1 and then 2, and the queue is empty |
| QueueBehaviour.EmptyScenario | src/test/java/ru/experimental/QueueTest.java:24-34 | `remove()` gives `None`, `None`, `Some(1)` and `None`, and `isEmpty()` gives true, false and true, at the points the test checks |
| QueueBehaviour.Drain | src/test/java/ru/experimental/QueueTest.java:46-57 | removing until `isEmpty()` returns the queued values once each, oldest first, with their sum, and leaves the queue empty |
| QueueBehaviour.ProduceThenDrain | src/test/java/ru/experimental/QueueTest.java:37-62 | adding `0 .. n-1` and then draining gives back exactly `0 .. n-1` in order, and their sum is `n * (n - 1) / 2` |
| StackBehaviour.StepKeepsValues | src/main/java/ru/experimental/Stack.java:33-49 | for one `push` or `pop`, the values it returns together with the new contents are, as a multiset, the old contents together with the values it pushes |
| StackBehaviour.NoLossNoDuplication | src/test/java/ru/experimental/StackTest.java:41-66 | for any history, the values returned by `pop` together with what is still stacked are, as a multiset, the initial contents together with every pushed value |
| StackBehaviour.PushesStack | src/main/java/ru/experimental/Stack.java:33-41 | a run of `push(x)` calls returns nothing and puts the values on top in reverse order |
| StackBehaviour.PopsDrain | src/main/java/ru/experimental/Stack.java:43-49 | `\|s\|` calls of `pop` return every stacked value top first and leave the stack empty |
| StackBehaviour.PopsOnEmpty | src/test/java/ru/experimental/StackTest.java:28-30 | any number of `pop` calls on an empty stack all return `None` and leave it empty |
| StackBehaviour.PushesThenPopsReversed | src/test/java/ru/experimental/StackTest.java:14-22 | LIFO: pushing `xs` onto an empty stack and popping `\|xs\|` times returns `xs` reversed and leaves the stack empty |
| StackBehaviour.Replay | src/main/java/ru/experimental/Stack.java:29-49 | running any history on a new linked stack yields exactly the abstract results, and `isEmpty()` at the end agrees with the abstract final contents |
| StackBehaviour.SimpleScenario | src/test/java/ru/experimental/StackTest.java:14-22 | `push("1"); push("2")` then three `pop()` calls give "2", "1" and `None`, and the stack is empty |
| StackBehaviour.EmptyScenario | src/test/java/ru/experimental/StackTest.java:25-38 | `pop()` gives `None`, `None`, "1", "2" and `None`, and `isEmpty()` gives true, true, false and true, at the points the test checks |
| StackBehaviour.Drain | src/test/java/ru/experimental/StackTest.java:50-61 | popping until `isEmpty()` returns the stacked values once each, top first, with their sum, and leaves the stack empty |
| StackBehaviour.ProduceThenDrain | src/test/java/ru/experimental/StackTest.java:41-66 | pushing `0 .. n-1` and then draining gives back `n-1` down to `0`, each once, and their sum is `n * (n - 1) / 2` |
| Totals.SumOfRange | src/test/java/ru/experimental/QueueTest.java:61 | the values `0 .. n-1` add up to `n * (n - 1) / 2` |
| Totals.SumOfCountdown | src/test/java/ru/experimental/StackTest.java:65 | the values `n-1` down to `0` add up to `n * (n - 1) / 2` |

## Left out

- Concurrency is not modelled: interleaving, lock-freedom, linearizability,
  CAS contention, the `volatile` tail and `AtomicReference` memory ordering.
  Each operation runs alone, and a CAS is an atomic compare-then-assign.
  - The loops still allow a failed attempt: `LinkAfter` and `AdvanceHead`
    state what happens when the CAS fails.
  - When the operation runs alone, the proofs show such a failure cannot
    occur.
- The multi-threaded tests are not modelled. This covers the
  thread-and-executor parts of `consumerProducerTest`, plus `sequenceTest`,
  `liveLockTest` and `multiThreadTest`. Their sequential content is in the
  behaviour modules: the exact drain and the sum.
- Memory reclamation of unlinked queue nodes is left to Java's garbage
  collector. The model keeps every node ever linked in the ghost `Nodes` and
  `Repr` of the queue, behind `Front`.
- A stored Java `null` is not modelled, because results are `Option`s and
  values are never null.
- Java `int` overflow is not modelled: `Range`, `Countdown`, `Sum` and the
  totals use unbounded integers. The sums the tests check, up to
  1,500,850,000, fit in a Java `int`.
- The `last != null` checks in `add` (Queue.java:36 and :39) are not
  modelled. `tail` is never null, so they always hold, and `tail` and `head`
  are non-null references here.
- `Push` and `Pop` make their first attempt inside the loop rather than
  before it, as Java's `push` and `pop` do. Each attempt re-reads `head`
  exactly as the Java retry does, so the behaviour is the same.
- In `remove`, Java reads the returned value again through
  `oldHead.getNext()` after the CAS. The model uses the successor it read
  before the CAS. Once linked, a `next` link never changes, so both are the
  same node.
- `LockFreeQueue.Queue.TailIsLast` holds after every sequential `add` and
  `remove`, but it is not part of `Valid()`. Under concurrency `tail` may
  lag, which is why `WalkToLast` starts from any linked node.
- Allocation failure (`OutOfMemoryError`) is not modelled.
- The getters `getValue` and `getNext` are not modelled as separate members.
  They appear as direct field reads.
