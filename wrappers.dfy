/** Optional results. `remove` and `pop` return Java `null` both for "empty"
    and for a stored `null`; the model returns `None` only for "empty". */
module Wrappers {

  datatype Option<T> = None | Some(value: T)

  /** The values carried by the `Some` entries of `outs`, in order. */
  function Values<T>(outs: seq<Option<T>>): (vs: seq<T>)
    ensures |vs| <= |outs|
  {
    if outs == [] then []
    else (if outs[0].Some? then [outs[0].value] else []) + Values(outs[1..])
  }

  /** Collecting values distributes over concatenation of result lists. */
  lemma {:induction false} ValuesAppend<T>(a: seq<Option<T>>, b: seq<Option<T>>)
    ensures Values(a + b) == Values(a) + Values(b)
  {
    if a == [] {
      assert a + b == b;
    } else {
      assert (a + b)[0] == a[0];
      assert (a + b)[1..] == a[1..] + b;
      ValuesAppend(a[1..], b);
    }
  }

  /** Every value of `xs`, each wrapped as a successful result. */
  function Somes<T>(xs: seq<T>): (r: seq<Option<T>>)
  {
    seq(|xs|, i requires 0 <= i < |xs| => Some(xs[i]))
  }

  /** `k` results that all report "empty". */
  function Nones<T>(k: nat): (r: seq<Option<T>>)
  {
    seq(k, _ => None)
  }

  /** Unwrapping `Somes(xs)` gives `xs` back. */
  lemma {:induction false} ValuesOfSomes<T>(xs: seq<T>)
    ensures Values(Somes(xs)) == xs
  {
    if xs != [] {
      assert Somes(xs)[1..] == Somes(xs[1..]);
      ValuesOfSomes(xs[1..]);
    }
  }
}
