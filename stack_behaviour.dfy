/** What the stack promises to a single thread, as its JUnit tests use it:
    an abstract history semantics over the stacked values, the LIFO and
    no-loss properties of that semantics, a replay that ties the linked
    implementation to it, and the tests' own scenarios. */
module StackBehaviour {
  import opened Wrappers
  import opened Totals
  import opened LockFreeStack

  datatype StackOp<T> = Push(value: T) | Pop

  /** The contents after one call on a stack holding `s` (top first). */
  function Apply<T>(s: seq<T>, op: StackOp<T>): (r: seq<T>)
  {
    match op
    case Push(v) => [v] + s
    case Pop => if s == [] then [] else s[1..]
  }

  /** What the caller of one call sees: nothing for `push`, one result for `pop`. */
  function Result<T>(s: seq<T>, op: StackOp<T>): (r: seq<Option<T>>)
  {
    match op
    case Push(_) => []
    case Pop => if s == [] then [None] else [Some(s[0])]
  }

  /** Every `pop` result of running `ops` from contents `s`, in call order. */
  function Results<T>(s: seq<T>, ops: seq<StackOp<T>>): (r: seq<Option<T>>)
    decreases |ops|
  {
    if ops == [] then [] else Result(s, ops[0]) + Results(Apply(s, ops[0]), ops[1..])
  }

  /** The contents after running `ops` from contents `s`. */
  function Final<T>(s: seq<T>, ops: seq<StackOp<T>>): (r: seq<T>)
    decreases |ops|
  {
    if ops == [] then s else Final(Apply(s, ops[0]), ops[1..])
  }

  /** The values pushed by one call. */
  function PushedBy<T>(op: StackOp<T>): (r: seq<T>)
  {
    if op.Push? then [op.value] else []
  }

  /** The values the calls in `ops` push, in call order. */
  function Pushed<T>(ops: seq<StackOp<T>>): (r: seq<T>)
    decreases |ops|
  {
    if ops == [] then [] else PushedBy(ops[0]) + Pushed(ops[1..])
  }

  function Pushes<T>(xs: seq<T>): (r: seq<StackOp<T>>)
  {
    seq(|xs|, i requires 0 <= i < |xs| => Push(xs[i]))
  }

  function Pops<T>(k: nat): (r: seq<StackOp<T>>)
  {
    seq(k, _ => Pop)
  }

  function Reverse<T>(xs: seq<T>): (r: seq<T>)
    decreases |xs|
  {
    if xs == [] then [] else Reverse(xs[1..]) + [xs[0]]
  }

  /** One call loses and duplicates nothing. */
  lemma StepKeepsValues<T>(s: seq<T>, op: StackOp<T>)
    ensures multiset(Values(Result(s, op))) + multiset(Apply(s, op)) == multiset(s) + multiset(PushedBy(op))
  {
    if op.Pop? && s != [] {
      assert s == [s[0]] + s[1..];
    }
  }

  /** Multiset algebra for gluing one step onto the rest of a history. */
  lemma Regroup<T>(r0: multiset<T>, r1: multiset<T>, f: multiset<T>, s: multiset<T>, s': multiset<T>, a0: multiset<T>, a1: multiset<T>)
    requires r1 + f == s' + a1 && r0 + s' == s + a0
    ensures (r0 + r1) + f == s + (a0 + a1)
  {
    forall x {
      calc {
        ((r0 + r1) + f)[x];
        r0[x] + (r1 + f)[x];
        r0[x] + (s' + a1)[x];
        (r0 + s')[x] + a1[x];
        (s + a0)[x] + a1[x];
        (s + (a0 + a1))[x];
      }
    }
  }

  /** No loss and no duplication: the values that `pop` returns, together with
      what is still stacked, are exactly the initial contents together with
      every pushed value, each as often as it was pushed. */
  lemma {:induction false} NoLossNoDuplication<T>(s: seq<T>, ops: seq<StackOp<T>>)
    ensures multiset(Values(Results(s, ops))) + multiset(Final(s, ops)) == multiset(s) + multiset(Pushed(ops))
    decreases |ops|
  {
    if ops != [] {
      var op, rest := ops[0], ops[1..];
      var s' := Apply(s, op);
      NoLossNoDuplication(s', rest);
      ValuesAppend(Result(s, op), Results(s', rest));
      StepKeepsValues(s, op);
      assert Results(s, ops) == Result(s, op) + Results(s', rest);
      assert Pushed(ops) == PushedBy(op) + Pushed(rest);
      assert multiset(Values(Results(s, ops))) == multiset(Values(Result(s, op))) + multiset(Values(Results(s', rest)));
      assert multiset(Pushed(ops)) == multiset(PushedBy(op)) + multiset(Pushed(rest));
      Regroup(multiset(Values(Result(s, op))), multiset(Values(Results(s', rest))), multiset(Final(s', rest)),
              multiset(s), multiset(s'), multiset(PushedBy(op)), multiset(Pushed(rest)));
    }
  }

  /** Running `a` and then `b` is running `a + b`. */
  lemma {:induction false} RunAppend<T>(s: seq<T>, a: seq<StackOp<T>>, b: seq<StackOp<T>>)
    ensures Results(s, a + b) == Results(s, a) + Results(Final(s, a), b)
    ensures Final(s, a + b) == Final(Final(s, a), b)
    decreases |a|
  {
    if a == [] {
      assert a + b == b;
    } else {
      var s' := Apply(s, a[0]);
      assert (a + b)[0] == a[0] && (a + b)[1..] == a[1..] + b;
      RunAppend(s', a[1..], b);
      var r0, r1, r2 := Result(s, a[0]), Results(s', a[1..]), Results(Final(s', a[1..]), b);
      assert Results(s, a + b) == r0 + (r1 + r2);
      assert r0 + (r1 + r2) == (r0 + r1) + r2;
    }
  }

  /** Pushing `xs` puts them on top in reverse order, and returns nothing. */
  lemma {:induction false} PushesStack<T>(s: seq<T>, xs: seq<T>)
    ensures Results(s, Pushes(xs)) == [] && Final(s, Pushes(xs)) == Reverse(xs) + s
    decreases |xs|
  {
    if xs == [] {
      assert Reverse(xs) + s == s;
    } else {
      assert Pushes(xs)[0] == Push(xs[0]) && Pushes(xs)[1..] == Pushes(xs[1..]);
      PushesStack([xs[0]] + s, xs[1..]);
      assert Reverse(xs[1..]) + ([xs[0]] + s) == (Reverse(xs[1..]) + [xs[0]]) + s;
    }
  }

  /** Popping `|s|` times returns the stacked values top first and empties the stack. */
  lemma {:induction false} PopsDrain<T>(s: seq<T>)
    ensures Results(s, Pops(|s|)) == Somes(s) && Final(s, Pops(|s|)) == []
    decreases |s|
  {
    if s != [] {
      assert Pops<T>(|s|)[0] == Pop && Pops<T>(|s|)[1..] == Pops(|s| - 1);
      PopsDrain(s[1..]);
      assert Somes(s) == [Some(s[0])] + Somes(s[1..]);
    }
  }

  /** `pop` on an empty stack returns `None` every time and leaves it empty. */
  lemma {:induction false} PopsOnEmpty<T>(k: nat)
    ensures Results([], Pops<T>(k)) == Nones(k) && Final([], Pops<T>(k)) == []
  {
    if k > 0 {
      assert Pops<T>(k)[0] == Pop && Pops<T>(k)[1..] == Pops(k - 1);
      PopsOnEmpty<T>(k - 1);
      assert Nones<T>(k) == [None] + Nones(k - 1);
    }
  }

  /** LIFO: pushing `xs` onto an empty stack and popping as many times returns
      `xs` in reverse order and leaves the stack empty. */
  lemma PushesThenPopsReversed<T>(xs: seq<T>)
    ensures Results([], Pushes(xs) + Pops(|xs|)) == Somes(Reverse(xs))
    ensures Values(Results([], Pushes(xs) + Pops(|xs|))) == Reverse(xs)
    ensures Final([], Pushes(xs) + Pops(|xs|)) == []
  {
    RunAppend([], Pushes(xs), Pops(|xs|));
    PushesStack([], xs);
    assert Reverse(xs) + [] == Reverse(xs);
    ReverseLength(xs);
    PopsDrain(Reverse(xs));
    ValuesOfSomes(Reverse(xs));
  }

  lemma {:induction false} ReverseLength<T>(xs: seq<T>)
    ensures |Reverse(xs)| == |xs|
    decreases |xs|
  {
    if xs != [] {
      ReverseLength(xs[1..]);
    }
  }

  /** Peels the call at index `i` off the rest of a history. */
  lemma HistoryStep<T>(outs: seq<Option<T>>, c: seq<T>, ops: seq<StackOp<T>>, i: nat)
    requires i < |ops|
    ensures outs + Results(c, ops[i..]) == (outs + Result(c, ops[i])) + Results(Apply(c, ops[i]), ops[i + 1..])
    ensures Final(c, ops[i..]) == Final(Apply(c, ops[i]), ops[i + 1..])
  {
    assert ops[i..][0] == ops[i] && ops[i..][1..] == ops[i + 1..];
  }

  /** Runs `ops` on a new linked stack and reports every `pop` result and
      whether the stack ends empty; both agree with the abstract history. */
  method Replay<T>(ops: seq<StackOp<T>>) returns (outs: seq<Option<T>>, empty: bool)
    ensures outs == Results([], ops)
    ensures empty <==> Final([], ops) == []
  {
    var st := new Stack<T>();
    outs := [];
    for i := 0 to |ops|
      invariant st.Valid()
      invariant Results([], ops) == outs + Results(st.Contents(), ops[i..])
      invariant Final([], ops) == Final(st.Contents(), ops[i..])
    {
      ghost var before := st.Contents();
      var out: seq<Option<T>> := [];
      match ops[i] {
        case Push(v) =>
          st.Push(v);
        case Pop =>
          var r := st.Pop();
          out := [r];
      }
      assert out == Result(before, ops[i]) && st.Contents() == Apply(before, ops[i]);
      HistoryStep(outs, before, ops, i);
      outs := outs + out;
    }
    assert ops[|ops|..] == [];
    empty := st.IsEmpty();
  }

  /** `simpleTest`: push "1" and "2"; three pops give "2", "1" and `None`,
      and the stack is empty. */
  method SimpleScenario() returns (popped: seq<Option<string>>, empty: bool)
    ensures popped == [Some("2"), Some("1"), None]
    ensures empty
  {
    var st := new Stack<string>();
    st.Push("1");
    st.Push("2");
    var r0 := st.Pop();
    var r1 := st.Pop();
    var r2 := st.Pop();
    empty := st.IsEmpty();
    popped := [r0, r1, r2];
  }

  /** `emptyTest`: a new stack is empty and two pops give `None`; after
      `push("1")` it is not empty and a pop gives "1"; after `push("2")` a pop
      gives "2", the next `None`, and the stack is empty again. */
  method EmptyScenario() returns (popped: seq<Option<string>>, emptiness: seq<bool>)
    ensures popped == [None, None, Some("1"), Some("2"), None]
    ensures emptiness == [true, true, false, true]
  {
    var st := new Stack<string>();
    var e0 := st.IsEmpty();
    var r0 := st.Pop();
    var r1 := st.Pop();
    var e1 := st.IsEmpty();
    st.Push("1");
    var e2 := st.IsEmpty();
    var r2 := st.Pop();
    st.Push("2");
    var r3 := st.Pop();
    var r4 := st.Pop();
    var e3 := st.IsEmpty();
    popped, emptiness := [r0, r1, r2, r3, r4], [e0, e1, e2, e3];
  }

  /** The consumer of `consumerProducerTest`, run after the producers: pops
      until `isEmpty()` and returns every popped value, top first, with their sum. */
  method Drain(st: Stack<int>) returns (drained: seq<int>, total: int)
    requires st.Valid()
    modifies st
    ensures st.Valid() && st.Contents() == []
    ensures drained == old(st.Contents()) && total == Sum(drained)
  {
    ghost var init := st.Contents();
    drained, total := [], 0;
    var empty := st.IsEmpty();
    while !empty
      invariant st.Valid()
      invariant drained + st.Contents() == init
      invariant total == Sum(drained)
      invariant empty <==> st.Contents() == []
      decreases |st.Contents()|
    {
      DrainStep(drained, st.Contents(), init);
      var r := st.Pop();
      if r.Some? {
        drained, total := drained + [r.value], total + r.value;
      }
      empty := st.IsEmpty();
    }
    assert drained + [] == drained;
  }

  /** The sequential content of `consumerProducerTest`: push `0 .. n-1`, then
      pop until `isEmpty()`. The values come back newest first, each once, and
      add up to `n * (n - 1) / 2`. */
  method ProduceThenDrain(n: nat) returns (drained: seq<int>, total: int)
    ensures drained == Countdown(n)
    ensures total == n * (n - 1) / 2
  {
    var st := new Stack<int>();
    for i := 0 to n
      invariant st.Valid()
      invariant st.Contents() == Countdown(i)
    {
      st.Push(i);
      assert Countdown(i + 1) == [i] + Countdown(i);
    }
    drained, total := Drain(st);
    SumOfCountdown(n);
  }
}
