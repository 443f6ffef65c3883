/** The arithmetic the drain tests check: producing `0 .. n-1` and summing
    what comes back must give `n * (n - 1) / 2`. */
module Totals {

  /** The values `0, 1, ..., n - 1` in increasing order. */
  function Range(n: nat): (r: seq<int>)
    ensures |r| == n
    ensures forall i :: 0 <= i < n ==> r[i] == i
  {
    seq(n, i => i)
  }

  function Sum(s: seq<int>): (r: int)
  {
    if s == [] then 0 else s[0] + Sum(s[1..])
  }

  lemma {:induction false} SumAppend(a: seq<int>, b: seq<int>)
    ensures Sum(a + b) == Sum(a) + Sum(b)
  {
    if a == [] {
      assert a + b == b;
    } else {
      assert (a + b)[0] == a[0];
      assert (a + b)[1..] == a[1..] + b;
      SumAppend(a[1..], b);
    }
  }

  /** Gauss: the values produced by the drain tests add up to `n * (n - 1) / 2`. */
  lemma {:induction false} SumOfRange(n: nat)
    ensures Sum(Range(n)) == n * (n - 1) / 2
  {
    if n > 0 {
      SumOfRange(n - 1);
      assert Range(n) == Range(n - 1) + [n - 1];
      SumAppend(Range(n - 1), [n - 1]);
      assert Sum([n - 1]) == n - 1;
      assert n * (n - 1) == (n - 1) * (n - 2) + 2 * (n - 1);
    }
  }

  /** The values `n - 1, ..., 1, 0`: the order a stack returns `0 .. n-1` in. */
  function Countdown(n: nat): (r: seq<int>)
    ensures |r| == n
    ensures forall i :: 0 <= i < n ==> r[i] == n - 1 - i
  {
    seq(n, i => n - 1 - i)
  }

  /** Counting down also adds up to `n * (n - 1) / 2`. */
  lemma {:induction false} SumOfCountdown(n: nat)
    ensures Sum(Countdown(n)) == n * (n - 1) / 2
  {
    if n > 0 {
      SumOfCountdown(n - 1);
      assert Countdown(n)[0] == n - 1 && Countdown(n)[1..] == Countdown(n - 1);
      assert n * (n - 1) == (n - 1) * (n - 2) + 2 * (n - 1);
    }
  }

  /** Moving the next value out of a container onto the drained list keeps
      the drained values followed by the rest equal to the initial contents,
      and adds that value to their sum. */
  lemma DrainStep(drained: seq<int>, rest: seq<int>, init: seq<int>)
    requires drained + rest == init && rest != []
    ensures (drained + [rest[0]]) + rest[1..] == init
    ensures Sum(drained + [rest[0]]) == Sum(drained) + rest[0]
  {
    assert (drained + [rest[0]]) + rest[1..] == drained + rest;
    SumAppend(drained, [rest[0]]);
  }
}
