/** Sequence helpers shared by the list and the stack. */
module Sequences {

  /** The elements of `s` in the opposite order, built from the back. */
  function Reverse<T>(s: seq<T>): (r: seq<T>)
    ensures |r| == |s|
  {
    if s == [] then [] else [s[|s| - 1]] + Reverse(s[..|s| - 1])
  }

  /** Splitting off the first element of `xs` and appending it to `a` first
      changes nothing. */
  lemma AppendFirstThenRest<T>(a: seq<T>, xs: seq<T>)
    requires xs != []
    ensures a + [xs[0]] + xs[1..] == a + xs
  {
    assert xs == [xs[0]] + xs[1..];
  }

  /** Reversing the top `k` elements of `e` puts its last element `x` first,
      followed by the reversed top `k - 1` of what remains (`e1`) once that
      element is dropped; the part below is the same either way. */
  lemma ReverseTopStep<T>(e: seq<T>, e1: seq<T>, k: nat, x: T, out: seq<T>)
    requires 0 < k <= |e| && e1 == e[..|e| - 1] && x == e[|e| - 1]
    requires out == Reverse(e1[|e1| - (k - 1)..])
    ensures [x] + out == Reverse(e[|e| - k..])
    ensures e1[..|e1| - (k - 1)] == e[..|e| - k]
  {
    var t := e[|e| - k..];
    assert t[..|t| - 1] == e1[|e1| - (k - 1)..];
  }

  /** The top zero elements of `e`: nothing above, all of `e` below. */
  lemma ReverseTopNone<T>(e: seq<T>)
    ensures e[..|e| - 0] == e && Reverse(e[|e| - 0..]) == []
  {
    assert e[|e| - 0..] == [];
  }
}
