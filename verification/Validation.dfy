/** Validating stored trees (`walker` of `common/prolly/tree.go`) with a cache of validated subtrees
    (`engine/engine.go`): what the cache vouches for changes neither the verdict nor the objects found. */
module Validation {
  import opened Bytes
  import opened Overlays
  import opened Sorting
  import opened Prolly

  type Hash = seq<byte>

  datatype Ref = Ref(maxKey: Key, count: nat, hash: Hash)

  datatype Object = Object(level: nat, entries: seq<Entry>, children: seq<Ref>)

  /** The objects at hand, by content hash. */
  type Store = map<Hash, Object>

  /** No object holds its own hash, however deep: hashes of children come first. */
  ghost predicate Acyclic(s: Store, rank: Hash -> nat) {
    forall h, i {:trigger s[h].children[i]} :: h in s && 0 <= i < |s[h].children| ==> rank(s[h].children[i].hash) < rank(h)
  }

  /** Every object of one store is in the other: they are addressed by content. */
  ghost predicate Part(s: Store, all: Store) { forall h {:trigger s[h]} {:trigger all[h]} :: h in s ==> h in all && all[h] == s[h] }

  /** The check of a leaf's entries, which may depend on the table. */
  type LeafCheck = seq<Entry> -> bool

  predicate KeysAscend(es: seq<Entry>) { forall i :: 0 < i < |es| ==> Less(es[i - 1].key, es[i].key) }

  // What validation decides.

  /** The number of entries below a valid object. */
  ghost function Check(s: Store, rank: Hash -> nat, leaf: LeafCheck, h: Hash): Option<nat>
    requires Acyclic(s, rank)
    decreases rank(h), 1, 0
  {
    if h !in s then None
    else if s[h].level == 0 then
      if s[h].children == [] && KeysAscend(s[h].entries) && leaf(s[h].entries) then Some(|s[h].entries|) else None
    else if s[h].entries != [] || s[h].children == [] then None
    else CheckFrom(s, rank, leaf, h, 0)
  }

  /** The children from the `i`-th on. */
  ghost function CheckFrom(s: Store, rank: Hash -> nat, leaf: LeafCheck, h: Hash, i: nat): Option<nat>
    requires Acyclic(s, rank) && h in s && i <= |s[h].children|
    decreases rank(h), 0, |s[h].children| - i
  {
    if i == |s[h].children| then Some(0)
    else
      var child := s[h].children[i];
      if i > 0 && !Less(s[h].children[i - 1].maxKey, child.maxKey) then None
      else if Check(s, rank, leaf, child.hash) != Some(child.count) then None
      else match CheckFrom(s, rank, leaf, h, i + 1) case None => None case Some(n) => Some(child.count + n)
  }

  /** The objects an object leads to. */
  ghost function Reach(s: Store, rank: Hash -> nat, h: Hash): (r: set<Hash>)
    requires Acyclic(s, rank)
    ensures h in r
    decreases rank(h), 1, 0
  {
    {h} + (if h in s then ReachFrom(s, rank, h, 0) else {})
  }

  ghost function ReachFrom(s: Store, rank: Hash -> nat, h: Hash, i: nat): set<Hash>
    requires Acyclic(s, rank) && h in s && i <= |s[h].children|
    decreases rank(h), 0, |s[h].children| - i
  {
    if i == |s[h].children| then {} else Reach(s, rank, s[h].children[i].hash) + ReachFrom(s, rank, h, i + 1)
  }

  // A store that provides a whole subtree.

  lemma {:induction false} ProvidedSame(s: Store, all: Store, rank: Hash -> nat, leaf: LeafCheck, h: Hash)
    requires Acyclic(all, rank) && Acyclic(s, rank) && Part(s, all) && Reach(all, rank, h) <= s.Keys
    ensures Check(s, rank, leaf, h) == Check(all, rank, leaf, h) && Reach(s, rank, h) == Reach(all, rank, h)
    decreases rank(h), 1, 0
  {
    assert h in s;
    ProvidedFrom(s, all, rank, leaf, h, 0);
  }

  lemma {:induction false} ProvidedFrom(s: Store, all: Store, rank: Hash -> nat, leaf: LeafCheck, h: Hash, i: nat)
    requires Acyclic(all, rank) && Acyclic(s, rank) && Part(s, all) && h in s && h in all && all[h] == s[h]
    requires i <= |s[h].children| && ReachFrom(all, rank, h, i) <= s.Keys
    ensures CheckFrom(s, rank, leaf, h, i) == CheckFrom(all, rank, leaf, h, i) && ReachFrom(s, rank, h, i) == ReachFrom(all, rank, h, i)
    decreases rank(h), 0, |s[h].children| - i
  {
    if i < |s[h].children| {
      ProvidedSame(s, all, rank, leaf, s[h].children[i].hash);
      ProvidedFrom(s, all, rank, leaf, h, i + 1);
    }
  }

  /** What is valid in a store is valid, and the same, among all objects. */
  lemma {:induction false} ValidEverywhere(s: Store, all: Store, rank: Hash -> nat, leaf: LeafCheck, h: Hash)
    requires Acyclic(all, rank) && Acyclic(s, rank) && Part(s, all) && Check(s, rank, leaf, h).Some?
    ensures Check(all, rank, leaf, h) == Check(s, rank, leaf, h)
    decreases rank(h), 1, 0
  {
    assert all[h] == s[h];
    if s[h].level != 0 { ValidFrom(s, all, rank, leaf, h, 0); }
  }

  lemma {:induction false} ValidFrom(s: Store, all: Store, rank: Hash -> nat, leaf: LeafCheck, h: Hash, i: nat)
    requires Acyclic(all, rank) && Acyclic(s, rank) && Part(s, all) && h in s && h in all && all[h] == s[h]
    requires i <= |s[h].children| && CheckFrom(s, rank, leaf, h, i).Some?
    ensures CheckFrom(all, rank, leaf, h, i) == CheckFrom(s, rank, leaf, h, i)
    decreases rank(h), 0, |s[h].children| - i
  {
    if i < |s[h].children| {
      ValidEverywhere(s, all, rank, leaf, s[h].children[i].hash);
      ValidFrom(s, all, rank, leaf, h, i + 1);
    }
  }

  // The cache.

  datatype Known = Known(count: nat, children: seq<Hash>)

  function ChildHashes(o: Object): seq<Hash> {
    seq(|o.children|, i requires 0 <= i < |o.children| => o.children[i].hash)
  }

  /** What the cache says of an object was true of it when it was validated, so it is true. */
  ghost predicate Sound(all: Store, rank: Hash -> nat, leaf: LeafCheck, nodes: map<Hash, Known>)
    requires Acyclic(all, rank)
  {
    forall h {:trigger nodes[h]} :: h in nodes ==>
      h in all && Check(all, rank, leaf, h) == Some(nodes[h].count) && nodes[h].children == ChildHashes(all[h])
  }

  datatype Counted = Counted(hash: Hash, count: nat)

  /** How many objects a walk over a subtree visits, shared ones again each time. */
  ghost function Weight(all: Store, rank: Hash -> nat, h: Hash): (w: nat)
    requires Acyclic(all, rank)
    ensures w > 0
    decreases rank(h), 1, 0
  {
    1 + if h in all then WeightFrom(all, rank, h, 0) else 0
  }

  ghost function WeightFrom(all: Store, rank: Hash -> nat, h: Hash, i: nat): nat
    requires Acyclic(all, rank) && h in all && i <= |all[h].children|
    decreases rank(h), 0, |all[h].children| - i
  {
    if i == |all[h].children| then 0 else Weight(all, rank, all[h].children[i].hash) + WeightFrom(all, rank, h, i + 1)
  }

  ghost function StackWeight(all: Store, rank: Hash -> nat, stack: seq<Hash>): nat
    requires Acyclic(all, rank)
  {
    if stack == [] then 0 else Weight(all, rank, stack[0]) + StackWeight(all, rank, stack[1..])
  }

  ghost function StackReach(all: Store, rank: Hash -> nat, stack: seq<Hash>): set<Hash>
    requires Acyclic(all, rank)
  {
    if stack == [] then {} else Reach(all, rank, stack[0]) + StackReach(all, rank, stack[1..])
  }

  lemma {:induction false} StackAppend(all: Store, rank: Hash -> nat, a: seq<Hash>, b: seq<Hash>)
    requires Acyclic(all, rank)
    ensures StackWeight(all, rank, a + b) == StackWeight(all, rank, a) + StackWeight(all, rank, b)
    ensures StackReach(all, rank, a + b) == StackReach(all, rank, a) + StackReach(all, rank, b)
  {
    if a == [] {
      assert a + b == b;
    } else {
      StackAppend(all, rank, a[1..], b);
      assert (a + b)[1..] == a[1..] + b;
    }
  }

  lemma {:induction false} ChildrenOnStack(all: Store, rank: Hash -> nat, h: Hash, i: nat)
    requires Acyclic(all, rank) && h in all && i <= |all[h].children|
    ensures StackWeight(all, rank, ChildHashes(all[h])[i..]) == WeightFrom(all, rank, h, i)
    ensures StackReach(all, rank, ChildHashes(all[h])[i..]) == ReachFrom(all, rank, h, i)
    decreases |all[h].children| - i
  {
    if i < |all[h].children| {
      ChildrenOnStack(all, rank, h, i + 1);
      assert ChildHashes(all[h])[i..] == [all[h].children[i].hash] + ChildHashes(all[h])[i + 1..];
    }
  }

  /** The last hash of the stack replaced by its children. */
  lemma Expanded(all: Store, rank: Hash -> nat, stack: seq<Hash>)
    requires Acyclic(all, rank) && stack != [] && stack[|stack| - 1] in all
    ensures var h, below := stack[|stack| - 1], stack[..|stack| - 1];
            var next := below + ChildHashes(all[h]);
            && StackWeight(all, rank, next) < StackWeight(all, rank, stack)
            && StackReach(all, rank, stack) == {h} + StackReach(all, rank, next)
  {
    var h, below := stack[|stack| - 1], stack[..|stack| - 1];
    assert stack == below + [h];
    StackAppend(all, rank, below, [h]);
    StackAppend(all, rank, below, ChildHashes(all[h]));
    ChildrenOnStack(all, rank, h, 0);
    assert ChildHashes(all[h])[0..] == ChildHashes(all[h]);
    var one: seq<Hash> := [h];
    assert one[1..] == [];
  }
}
