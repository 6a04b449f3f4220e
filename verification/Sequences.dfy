/** Lists of positions, for saying which elements of a list a loop picked, in order. */
module Sequences {

  predicate Increasing(js: seq<nat>, bound: nat) {
    && (forall m :: 0 <= m < |js| ==> js[m] < bound)
    && (forall m, n :: 0 <= m < n < |js| ==> js[m] < js[n])
  }

  lemma IncreasingSnoc(js: seq<nat>, n: nat)
    requires Increasing(js, n)
    ensures Increasing(js, n + 1) && Increasing(js + [n], n + 1) && n !in js
    ensures forall j :: j in js + [n] <==> j in js || j == n
  {
  }

  /** The list consists of the elements at the given positions. */
  predicate PickedAt<T(==)>(list: seq<T>, all: seq<T>, at: seq<nat>) {
    |list| == |at| && forall m :: 0 <= m < |at| ==> at[m] < |all| && list[m] == all[at[m]]
  }

  lemma PickedMore<T>(list: seq<T>, all: seq<T>, at: seq<nat>, x: T)
    requires PickedAt(list, all, at)
    ensures PickedAt(list, all + [x], at) && PickedAt(list + [x], all + [x], at + [|all|])
  {
  }
}
