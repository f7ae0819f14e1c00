// Filtered sequences by position: which elements of a sequence were kept, and
// that they kept their order.
module Positions {
  // `out` holds the elements of `from` at these increasing positions.
  ghost predicate Selects<T>(out: seq<T>, from: seq<T>, at: seq<nat>) {
    && |at| == |out|
    && (forall k :: 0 <= k < |at| ==> at[k] < |from| && out[k] == from[at[k]])
    && forall i, j :: 0 <= i < j < |at| ==> at[i] < at[j]
  }

  // One element more, kept or not.
  lemma SelectNext<T>(out: seq<T>, from: seq<T>, at: seq<nat>, x: T, keep: bool) returns (at': seq<nat>)
    requires Selects(out, from, at)
    ensures Selects(out + if keep then [x] else [], from + [x], at')
    ensures forall t: nat :: t in at' <==> t in at || (keep && t == |from|)
  {
    at' := at + if keep then [|from|] else [];
  }
}
