/** What the queue promises to a single thread, as its JUnit tests use it:
    an abstract history semantics over the queued values, the FIFO and
    no-loss properties of that semantics, a replay that ties the linked
    implementation to it, and the tests' own scenarios. */
module QueueBehaviour {
  import opened Wrappers
  import opened Totals
  import opened LockFreeQueue

  datatype QueueOp<T> = Add(value: T) | Remove

  /** The contents after one call on a queue holding `s` (oldest first). */
  function Apply<T>(s: seq<T>, op: QueueOp<T>): (r: seq<T>)
  {
    match op
    case Add(v) => s + [v]
    case Remove => if s == [] then [] else s[1..]
  }

  /** What the caller of one call sees: nothing for `add`, one result for `remove`. */
  function Result<T>(s: seq<T>, op: QueueOp<T>): (r: seq<Option<T>>)
  {
    match op
    case Add(_) => []
    case Remove => if s == [] then [None] else [Some(s[0])]
  }

  /** Every `remove` result of running `ops` from contents `s`, in call order. */
  function Results<T>(s: seq<T>, ops: seq<QueueOp<T>>): (r: seq<Option<T>>)
    decreases |ops|
  {
    if ops == [] then [] else Result(s, ops[0]) + Results(Apply(s, ops[0]), ops[1..])
  }

  /** The contents after running `ops` from contents `s`. */
  function Final<T>(s: seq<T>, ops: seq<QueueOp<T>>): (r: seq<T>)
    decreases |ops|
  {
    if ops == [] then s else Final(Apply(s, ops[0]), ops[1..])
  }

  function Adds<T>(xs: seq<T>): (r: seq<QueueOp<T>>)
  {
    seq(|xs|, i requires 0 <= i < |xs| => Add(xs[i]))
  }

  function Removes<T>(k: nat): (r: seq<QueueOp<T>>)
  {
    seq(k, _ => Remove)
  }

  /** The values added by one call. */
  function AddedBy<T>(op: QueueOp<T>): (r: seq<T>)
  {
    if op.Add? then [op.value] else []
  }

  /** The values the calls in `ops` add, in call order. */
  function Added<T>(ops: seq<QueueOp<T>>): (r: seq<T>)
    decreases |ops|
  {
    if ops == [] then [] else AddedBy(ops[0]) + Added(ops[1..])
  }

  /** One call loses and duplicates nothing: what it returns, followed by the
      new contents, is the old contents followed by what it adds. */
  lemma StepKeepsOrder<T>(s: seq<T>, op: QueueOp<T>)
    ensures Values(Result(s, op)) + Apply(s, op) == s + AddedBy(op)
  {
    if op.Remove? && s != [] {
      assert [s[0]] + s[1..] == s;
    }
  }

  /** Sequence algebra for gluing one step onto the rest of a history. */
  lemma Regroup<T>(r0: seq<T>, r1: seq<T>, f: seq<T>, s: seq<T>, s': seq<T>, a0: seq<T>, a1: seq<T>)
    requires r1 + f == s' + a1 && r0 + s' == s + a0
    ensures (r0 + r1) + f == s + (a0 + a1)
  {
    calc {
      (r0 + r1) + f;
      r0 + (r1 + f);
      r0 + (s' + a1);
      (r0 + s') + a1;
      (s + a0) + a1;
      s + (a0 + a1);
    }
  }

  /** FIFO with no loss and no duplication: the values that `remove` returns,
      followed by what is still queued, are exactly the initial contents
      followed by every added value, in insertion order. */
  lemma {:induction false} FifoNoLossNoDuplication<T>(s: seq<T>, ops: seq<QueueOp<T>>)
    ensures Values(Results(s, ops)) + Final(s, ops) == s + Added(ops)
    decreases |ops|
  {
    if ops == [] {
      assert Values<T>([]) + s == s + Added(ops);
    } else {
      var op, rest := ops[0], ops[1..];
      var s' := Apply(s, op);
      FifoNoLossNoDuplication(s', rest);
      ValuesAppend(Result(s, op), Results(s', rest));
      StepKeepsOrder(s, op);
      assert Results(s, ops) == Result(s, op) + Results(s', rest);
      assert Added(ops) == AddedBy(op) + Added(rest);
      Regroup(Values(Result(s, op)), Values(Results(s', rest)), Final(s', rest), s, s', AddedBy(op), Added(rest));
    }
  }

  /** Running `a` and then `b` is running `a + b`. */
  lemma {:induction false} RunAppend<T>(s: seq<T>, a: seq<QueueOp<T>>, b: seq<QueueOp<T>>)
    ensures Results(s, a + b) == Results(s, a) + Results(Final(s, a), b)
    ensures Final(s, a + b) == Final(Final(s, a), b)
    decreases |a|
  {
    if a == [] {
      assert a + b == b;
    } else {
      var s' := Apply(s, a[0]);
      assert (a + b)[0] == a[0] && (a + b)[1..] == a[1..] + b;
      RunAppend(s', a[1..], b);
      var r0, r1, r2 := Result(s, a[0]), Results(s', a[1..]), Results(Final(s', a[1..]), b);
      assert Results(s, a + b) == r0 + (r1 + r2);
      assert r0 + (r1 + r2) == (r0 + r1) + r2;
    }
  }

  /** Moving the first element of `xs` onto the end of `s` keeps `s + xs`. */
  lemma ShiftFirst<T>(s: seq<T>, xs: seq<T>)
    requires xs != []
    ensures (s + [xs[0]]) + xs[1..] == s + xs
  {
    assert xs == [xs[0]] + xs[1..];
  }

  /** Adding `xs` leaves them queued after what was there, and returns nothing. */
  lemma {:induction false} AddsAppend<T>(s: seq<T>, xs: seq<T>)
    ensures Results(s, Adds(xs)) == [] && Final(s, Adds(xs)) == s + xs
    decreases |xs|
  {
    if xs == [] {
      assert s + xs == s;
    } else {
      assert Adds(xs)[0] == Add(xs[0]) && Adds(xs)[1..] == Adds(xs[1..]);
      AddsAppend(s + [xs[0]], xs[1..]);
      ShiftFirst(s, xs);
    }
  }

  /** Removing `|s|` times returns the queued values oldest first and empties the queue. */
  lemma {:induction false} RemovesDrain<T>(s: seq<T>)
    ensures Results(s, Removes(|s|)) == Somes(s) && Final(s, Removes(|s|)) == []
    decreases |s|
  {
    if s != [] {
      assert Removes<T>(|s|)[0] == Remove && Removes<T>(|s|)[1..] == Removes(|s| - 1);
      RemovesDrain(s[1..]);
      assert Somes(s) == [Some(s[0])] + Somes(s[1..]);
    }
  }

  /** `remove` on an empty queue returns `None` every time and leaves it empty. */
  lemma {:induction false} RemovesOnEmpty<T>(k: nat)
    ensures Results([], Removes<T>(k)) == Nones(k) && Final([], Removes<T>(k)) == []
  {
    if k > 0 {
      assert Removes<T>(k)[0] == Remove && Removes<T>(k)[1..] == Removes(k - 1);
      RemovesOnEmpty<T>(k - 1);
      assert Nones<T>(k) == [None] + Nones(k - 1);
    }
  }

  /** Adding `xs` to an empty queue and removing as many times returns `xs` in
      the order added and leaves the queue empty. */
  lemma AddsThenRemovesInOrder<T>(xs: seq<T>)
    ensures Results([], Adds(xs) + Removes(|xs|)) == Somes(xs)
    ensures Values(Results([], Adds(xs) + Removes(|xs|))) == xs
    ensures Final([], Adds(xs) + Removes(|xs|)) == []
  {
    RunAppend([], Adds(xs), Removes(|xs|));
    AddsAppend([], xs);
    assert [] + xs == xs;
    RemovesDrain(xs);
    ValuesOfSomes(xs);
  }

  /** Peels the call at index `i` off the rest of a history. */
  lemma HistoryStep<T>(outs: seq<Option<T>>, c: seq<T>, ops: seq<QueueOp<T>>, i: nat)
    requires i < |ops|
    ensures outs + Results(c, ops[i..]) == (outs + Result(c, ops[i])) + Results(Apply(c, ops[i]), ops[i + 1..])
    ensures Final(c, ops[i..]) == Final(Apply(c, ops[i]), ops[i + 1..])
  {
    assert ops[i..][0] == ops[i] && ops[i..][1..] == ops[i + 1..];
  }

  /** Runs `ops` on a new linked queue and reports every `remove` result and
      whether the queue ends empty; both agree with the abstract history. */
  method Replay<T>(ops: seq<QueueOp<T>>) returns (outs: seq<Option<T>>, empty: bool)
    ensures outs == Results([], ops)
    ensures empty <==> Final([], ops) == []
  {
    var q := new Queue<T>();
    outs := [];
    for i := 0 to |ops|
      invariant q.Valid() && fresh(q.Repr)
      invariant Results([], ops) == outs + Results(q.Contents, ops[i..])
      invariant Final([], ops) == Final(q.Contents, ops[i..])
    {
      ghost var before := q.Contents;
      var out: seq<Option<T>> := [];
      match ops[i] {
        case Add(v) =>
          q.Add(v);
        case Remove =>
          var r := q.Remove();
          out := [r];
      }
      assert out == Result(before, ops[i]) && q.Contents == Apply(before, ops[i]);
      HistoryStep(outs, before, ops, i);
      outs := outs + out;
    }
    assert ops[|ops|..] == [];
    empty := q.IsEmpty();
  }

  /** `simpleTest`: add 1 and 2, then two removes give 1 and 2 and the queue is empty. */
  method SimpleScenario() returns (first: Option<int>, second: Option<int>, empty: bool)
    ensures first == Some(1) && second == Some(2) && empty
  {
    var q := new Queue<int>();
    q.Add(1);
    q.Add(2);
    first := q.Remove();
    second := q.Remove();
    empty := q.IsEmpty();
  }

  /** `emptyTest`: a new queue is empty and two removes give `None`; after
      `add(1)` it is not empty, one remove gives 1 and the next `None`, and it
      is empty again. */
  method EmptyScenario() returns (removed: seq<Option<int>>, emptiness: seq<bool>)
    ensures removed == [None, None, Some(1), None]
    ensures emptiness == [true, false, true]
  {
    var q := new Queue<int>();
    var e0 := q.IsEmpty();
    var r0 := q.Remove();
    var r1 := q.Remove();
    q.Add(1);
    var e1 := q.IsEmpty();
    var r2 := q.Remove();
    var r3 := q.Remove();
    var e2 := q.IsEmpty();
    removed, emptiness := [r0, r1, r2, r3], [e0, e1, e2];
  }

  /** The consumer of `consumerProducerTest`, run after the producers: removes
      until `isEmpty()` and returns every removed value, oldest first, with their sum. */
  method Drain(q: Queue<int>) returns (drained: seq<int>, total: int)
    requires q.Valid()
    modifies q.Repr
    ensures q.Valid() && q.Repr == old(q.Repr) && q.Contents == []
    ensures drained == old(q.Contents) && total == Sum(drained)
  {
    ghost var init := q.Contents;
    drained, total := [], 0;
    var empty := q.IsEmpty();
    while !empty
      invariant q.Valid() && q.Repr == old(q.Repr)
      invariant drained + q.Contents == init
      invariant total == Sum(drained)
      invariant empty <==> q.Contents == []
      decreases |q.Contents|
    {
      DrainStep(drained, q.Contents, init);
      var r := q.Remove();
      if r.Some? {
        drained, total := drained + [r.value], total + r.value;
      }
      empty := q.IsEmpty();
    }
    assert drained + [] == drained;
  }

  /** The sequential content of `consumerProducerTest`: add `0 .. n-1`, then
      remove until `isEmpty()`. Every value comes back once, in order, and the
      removed values add up to `n * (n - 1) / 2`. */
  method ProduceThenDrain(n: nat) returns (drained: seq<int>, total: int)
    ensures drained == Range(n)
    ensures total == n * (n - 1) / 2
  {
    var q := new Queue<int>();
    for i := 0 to n
      invariant q.Valid() && fresh(q.Repr)
      invariant q.Contents == Range(i)
    {
      q.Add(i);
      assert Range(i + 1) == Range(i) + [i];
    }
    drained, total := Drain(q);
    SumOfRange(n);
  }
}
