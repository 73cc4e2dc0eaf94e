/** Small facts about sequence concatenation, each proved once, so that the
    proofs that need them do not have to reason about sequence equality
    element by element. */
module Seqs {

  /** The head and tail of a concatenation with a non-empty left part. */
  lemma ConsAppend<T>(a: seq<T>, b: seq<T>)
    requires |a| > 0
    ensures (a + b)[0] == a[0] && (a + b)[1..] == a[1..] + b
  {
  }

  lemma AppendAssoc<T>(x: seq<T>, y: seq<T>, z: seq<T>)
    ensures x + (y + z) == (x + y) + z
  {
  }

  /** Two splits of one sequence at the same point have equal halves. */
  lemma CancelPrefix<T>(a1: seq<T>, b1: seq<T>, a2: seq<T>, b2: seq<T>)
    requires a1 + b1 == a2 + b2 && |a1| == |a2|
    ensures a1 == a2 && b1 == b2
  {
    assert a1 == (a1 + b1)[..|a1|];
    assert b1 == (a1 + b1)[|a1|..];
  }

  /** A sequence that is the first element of `xs` followed by the rest of `xs` is `xs`. */
  lemma FirstThenRest<T>(run: seq<T>, xs: seq<T>, more: seq<T>)
    requires |xs| > 0 && run == [xs[0]] + more && more == xs[1..]
    ensures run == xs
  {
  }

  /** `f` applied to every element, in order. */
  function Map<A, B>(f: A -> B, xs: seq<A>): (r: seq<B>)
    ensures |r| == |xs|
    ensures forall i :: 0 <= i < |xs| ==> r[i] == f(xs[i])
  {
    if |xs| == 0 then [] else [f(xs[0])] + Map(f, xs[1..])
  }
}
