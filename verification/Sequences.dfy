/** Regrouping of concatenations, stated once so that proofs about trees need not rediscover it. */
module Sequences {

  lemma Regroup<T>(a: seq<T>, b: seq<T>, c: seq<T>)
    ensures a + (b + c) == (a + b) + c
  {
  }

  lemma HeadOfConcat<T>(a: seq<T>, b: seq<T>)
    requires a != []
    ensures a + b != [] && (a + b)[0] == a[0] && (a + b)[1..] == a[1..] + b
    ensures a + b == [a[0]] + (a[1..] + b)
  {
  }

  /** Item `i` and what follows it, with `rest` behind. */
  lemma DropOne<T>(a: seq<T>, i: nat, rest: seq<T>)
    requires i < |a|
    ensures a[i..] + rest == [a[i]] + (a[i + 1..] + rest)
  {
  }
}
