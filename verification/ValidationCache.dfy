/** The classes behind `Validation`: the bounded, least-recently-used cache of validated nodes, and the walker. */
module ValidationCache {
  import opened Bytes
  import opened Overlays
  import opened Prolly
  import opened Validation

  function SizeOf(k: Known): nat { 1 + |k.children| }

  /** The links the nodes listed hold, and one for each node. */
  function Total(order: seq<Hash>, nodes: map<Hash, Known>): nat {
    if order == [] then 0 else (if order[0] in nodes then SizeOf(nodes[order[0]]) else 0) + Total(order[1..], nodes)
  }

  /** The order lists every node once. */
  predicate Lists(order: seq<Hash>, nodes: map<Hash, Known>) {
    if order == [] then nodes == map[] else order[0] in nodes && Lists(order[1..], nodes - {order[0]})
  }

  lemma {:induction false} Listed(order: seq<Hash>, nodes: map<Hash, Known>, h: Hash)
    requires Lists(order, nodes)
    ensures h in order <==> h in nodes
  {
    if order != [] { Listed(order[1..], nodes - {order[0]}, h); }
  }

  lemma {:induction false} TotalLess(order: seq<Hash>, nodes: map<Hash, Known>, h: Hash)
    requires h !in order
    ensures Total(order, nodes - {h}) == Total(order, nodes)
  {
    if order != [] { TotalLess(order[1..], nodes, h); }
  }

  /** The first node apart from the others. */
  lemma ListsHead(order: seq<Hash>, nodes: map<Hash, Known>)
    requires Lists(order, nodes) && order != []
    ensures order[0] !in order[1..] && Total(order[1..], nodes - {order[0]}) == Total(order, nodes) - SizeOf(nodes[order[0]])
  {
    Listed(order[1..], nodes - {order[0]}, order[0]);
    TotalLess(order[1..], nodes, order[0]);
  }

  lemma Pushed(order: seq<Hash>, nodes: map<Hash, Known>, h: Hash, known: Known)
    requires Lists(order, nodes) && h !in nodes
    ensures Lists([h] + order, nodes[h := known])
    ensures Total([h] + order, nodes[h := known]) == Total(order, nodes) + SizeOf(known)
  {
    var all := nodes[h := known];
    assert all - {h} == nodes && ([h] + order)[1..] == order;
    Listed(order, nodes, h);
    TotalLess(order, all, h);
  }

  function Without(order: seq<Hash>, h: Hash): seq<Hash> {
    if order == [] then [] else if order[0] == h then order[1..] else [order[0]] + Without(order[1..], h)
  }

  lemma {:induction false} Dropped(order: seq<Hash>, nodes: map<Hash, Known>, h: Hash)
    requires Lists(order, nodes) && h in nodes
    ensures Lists(Without(order, h), nodes - {h})
    ensures Total(Without(order, h), nodes - {h}) == Total(order, nodes) - SizeOf(nodes[h])
    ensures |Without(order, h)| + 1 == |order|
  {
    Listed(order, nodes, h);
    ListsHead(order, nodes);
    if order[0] != h {
      var x, rest := order[0], nodes - {order[0]};
      Dropped(order[1..], rest, h);
      assert (rest - {h})[x := nodes[x]] == nodes - {h};
      Pushed(Without(order[1..], h), rest - {h}, x, nodes[x]);
    }
  }

  lemma {:induction false} Shortened(order: seq<Hash>, nodes: map<Hash, Known>)
    requires Lists(order, nodes) && order != []
    ensures var last := |order| - 1;
            && order[last] in nodes && Lists(order[..last], nodes - {order[last]})
            && Total(order[..last], nodes - {order[last]}) == Total(order, nodes) - SizeOf(nodes[order[last]])
  {
    var last := |order| - 1;
    ListsHead(order, nodes);
    if last > 0 {
      var x, h, rest := order[0], order[last], nodes - {order[0]};
      Shortened(order[1..], rest);
      assert order[1..][..last - 1] == order[1..last] && order[1..][last - 1] == h;
      assert order[..last] == [x] + order[1..last];
      assert (rest - {h})[x := nodes[x]] == nodes - {h};
      Pushed(order[1..last], rest - {h}, x, nodes[x]);
    }
  }

  lemma {:induction false} TotalSame(order: seq<Hash>, a: map<Hash, Known>, b: map<Hash, Known>)
    requires Lists(order, a) && Within(a, b)
    ensures Total(order, b) == Total(order, a)
  {
    if order != [] {
      ListsHead(order, a);
      assert Within(a - {order[0]}, b);
      TotalSame(order[1..], a - {order[0]}, b);
    }
  }

  /** No node is altered. */
  ghost predicate Within(a: map<Hash, Known>, b: map<Hash, Known>) {
    forall h {:trigger a[h]} :: h in a ==> h in b && a[h] == b[h]
  }

  // Recency.

  /** The hashes used, each once, the last used first. */
  function Recent(uses: seq<Hash>): seq<Hash> {
    if uses == [] then []
    else [uses[|uses| - 1]] + Without(Recent(uses[..|uses| - 1]), uses[|uses| - 1])
  }

  lemma {:induction false} WithoutPrefix(a: seq<Hash>, b: seq<Hash>, h: Hash)
    requires a <= b
    ensures if h in a then Without(a, h) <= Without(b, h) else a <= Without(b, h)
  {
    if a != [] {
      assert a == [a[0]] + a[1..] && a[1..] <= b[1..];
      if a[0] != h { WithoutPrefix(a[1..], b[1..], h); }
    }
  }

  /** Using a node brings it to the front, whether it was cached or not. */
  function Front(order: seq<Hash>, h: Hash): seq<Hash> { [h] + (if h in order then Without(order, h) else order) }

  lemma Used(order: seq<Hash>, uses: seq<Hash>, h: Hash)
    requires order <= Recent(uses)
    ensures Front(order, h) <= Recent(uses + [h])
  {
    assert (uses + [h])[..|uses|] == uses;
    WithoutPrefix(order, Recent(uses), h);
  }

  lemma Remembered(order: seq<Hash>, nodes: map<Hash, Known>, h: Hash, known: Known)
    requires Lists(order, nodes)
    ensures Lists(Front(order, h), nodes[h := known])
    ensures Total(Front(order, h), nodes[h := known])
            == Total(order, nodes) - (if h in nodes then SizeOf(nodes[h]) else 0) + SizeOf(known)
  {
    Listed(order, nodes, h);
    if h in nodes {
      Dropped(order, nodes, h);
      Pushed(Without(order, h), nodes - {h}, h, known);
      assert (nodes - {h})[h := known] == nodes[h := known];
    } else {
      Pushed(order, nodes, h, known);
    }
  }

  /** The longest front part of `was` within the bound, or its first node alone. */
  ghost predicate Trimmed(order: seq<Hash>, nodes: map<Hash, Known>, was: seq<Hash>, all: map<Hash, Known>, max: nat)
    requires Lists(was, all)
  {
    && Lists(order, nodes) && order != [] && order <= was
    && Within(nodes, all)
    && (|order| < |was| ==> Total(was[..|order| + 1], all) > max)
  }

  lemma TrimOne(order: seq<Hash>, nodes: map<Hash, Known>, was: seq<Hash>, all: map<Hash, Known>, max: nat)
    requires Lists(was, all) && Trimmed(order, nodes, was, all, max) && |order| > 1 && Total(order, nodes) > max
    ensures var last := |order| - 1;
            && order[last] in nodes && Trimmed(order[..last], nodes - {order[last]}, was, all, max)
            && Total(order[..last], nodes - {order[last]}) == Total(order, nodes) - SizeOf(nodes[order[last]])
  {
    Shortened(order, nodes);
    TotalSame(order, nodes, all);
    assert was[..|order|] == order;
  }

  /** `validationCache`'s nodes, as one scope sees them. */
  class NodeCache {
    const max: nat
    var nodes: map<Hash, Known>
    var order: seq<Hash>
    var size: nat
    ghost var uses: seq<Hash>

    /** The nodes are those used most recently, in that order, and no more than the bound admits. */
    ghost predicate Valid()
      reads this
    {
      Lists(order, nodes) && size == Total(order, nodes) && (size <= max || |order| <= 1) && order <= Recent(uses)
    }

    constructor (max: nat)
      ensures Valid() && nodes == map[] && uses == [] && this.max == max
    {
      this.max, nodes, order, size, uses := max, map[], [], 0, [];
    }

    method MoveToFront(h: Hash)
      requires Valid() && h in nodes
      modifies this`order, this`uses
      ensures Valid() && uses == old(uses) + [h]
    {
      Listed(order, nodes, h);
      Remembered(order, nodes, h, nodes[h]);
      assert nodes[h := nodes[h]] == nodes;
      Used(order, uses, h);
      order := [h] + Without(order, h);
      uses := uses + [h];
    }

    /** `Subtree`: the whole subtree in memory, exactly if every node of it is known and provided. The nodes looked at,
        up to the first unknown one, count as used. */
    method Subtree(s: Store, hash: Hash, ghost all: Store, ghost rank: Hash -> nat, ghost leaf: LeafCheck) returns (r: Option<seq<Counted>>)
      requires Valid() && Acyclic(all, rank) && Sound(all, rank, leaf, nodes)
      modifies this`order, this`uses
      ensures Valid()
      ensures r.Some? <==> Reach(all, rank, hash) <= nodes.Keys && Reach(all, rank, hash) <= s.Keys
      ensures r.Some? ==> Vouched(all, rank, leaf, s, hash, r.value)
      ensures uses == old(uses) + Visits(all, rank, leaf, nodes, [hash])
    {
      var found := Expand(hash, all, rank, leaf);
      if found.None? { return None; }
      AllVisited(all, rank, leaf, s, hash, found.value);
      if exists i :: 0 <= i < |found.value| && found.value[i].hash !in s { return None; }
      return found;
    }

    /** The walk over the nodes in memory. */
    method Expand(hash: Hash, ghost all: Store, ghost rank: Hash -> nat, ghost leaf: LeafCheck) returns (r: Option<seq<Counted>>)
      requires Valid() && Acyclic(all, rank) && Sound(all, rank, leaf, nodes)
      modifies this`order, this`uses
      ensures Valid()
      ensures r.Some? <==> Reach(all, rank, hash) <= nodes.Keys
      ensures r.Some? ==> Visited(all, rank, leaf, hash, [], r.value)
      ensures uses == old(uses) + Visits(all, rank, leaf, nodes, [hash])
    {
      var found: seq<Counted> := [];
      var stack := [hash];
      ghost var goal := uses + Visits(all, rank, leaf, nodes, [hash]);
      while stack != []
        invariant Valid() && Expanding(all, rank, leaf, nodes, hash, stack, found)
        invariant uses + Visits(all, rank, leaf, nodes, stack) == goal
        decreases StackWeight(all, rank, stack)
      {
        var next := stack[|stack| - 1];
        if next !in nodes {
          NextReached(all, rank, leaf, hash, stack, found);
          assert uses + [] == uses;
          return None;
        }
        ExpandOne(all, rank, leaf, nodes, hash, stack, found);
        var below := stack[..|stack| - 1] + nodes[next].children;
        VisitsNext(uses, next, Visits(all, rank, leaf, nodes, below));
        MoveToFront(next);
        found, stack := found + [Counted(next, nodes[next].count)], below;
      }
      assert uses + [] == uses;
      return Some(found);
    }

    /** `Remember`, which evicts the least recently used nodes, as few as bring the rest within the bound. */
    method Remember(hash: Hash, known: Known)
      requires Valid()
      modifies this
      ensures Valid() && uses == old(uses) + [hash]
      ensures hash in nodes && nodes[hash] == known
      ensures Lists(Front(old(order), hash), old(nodes)[hash := known])
      ensures Trimmed(order, nodes, Front(old(order), hash), old(nodes)[hash := known], max)
    {
      Used(order, uses, hash);
      Remembered(order, nodes, hash, known);
      Listed(order, nodes, hash);
      if hash in nodes {
        Dropped(order, nodes, hash);
        size := size - SizeOf(nodes[hash]);
        order, nodes := Without(order, hash), nodes - {hash};
      }
      assert nodes[hash := known] == old(nodes)[hash := known];
      order, nodes, size := [hash] + order, nodes[hash := known], size + SizeOf(known);
      uses := uses + [hash];
      Evict();
      assert order[0] == hash;
    }

    method Evict()
      requires Lists(order, nodes) && size == Total(order, nodes) && order != [] && order <= Recent(uses)
      modifies this`order, this`nodes, this`size
      ensures Valid() && Trimmed(order, nodes, old(order), old(nodes), max)
    {
      ghost var was, all := order, nodes;
      while |order| > 1 && size > max
        invariant Trimmed(order, nodes, was, all, max) && size == Total(order, nodes)
        decreases |order|
      {
        var last := |order| - 1;
        TrimOne(order, nodes, was, all, max);
        size := size - SizeOf(nodes[order[last]]);
        nodes := nodes - {order[last]};
        order := order[..last];
      }
    }
  }

  // The subtree walk.

  function HashesOf(found: seq<Counted>): set<Hash> { set i | 0 <= i < |found| :: found[i].hash }

  ghost predicate Right(all: Store, rank: Hash -> nat, leaf: LeafCheck, c: Counted)
    requires Acyclic(all, rank)
  {
    Check(all, rank, leaf, c.hash) == Some(c.count)
  }

  ghost predicate Visited(all: Store, rank: Hash -> nat, leaf: LeafCheck, hash: Hash, stack: seq<Hash>, found: seq<Counted>)
    requires Acyclic(all, rank)
  {
    && Reach(all, rank, hash) == HashesOf(found) + StackReach(all, rank, stack)
    && (forall i :: 0 <= i < |found| ==> Right(all, rank, leaf, found[i]))
    && (if found == [] then stack == [hash] else found[0].hash == hash)
  }

  lemma VisitOne(all: Store, rank: Hash -> nat, leaf: LeafCheck, hash: Hash, stack: seq<Hash>, found: seq<Counted>, known: Known)
    requires Acyclic(all, rank) && Visited(all, rank, leaf, hash, stack, found) && stack != []
    requires var h := stack[|stack| - 1];
             h in all && Check(all, rank, leaf, h) == Some(known.count) && known.children == ChildHashes(all[h])
    ensures var h := stack[|stack| - 1];
            Visited(all, rank, leaf, hash, stack[..|stack| - 1] + known.children, found + [Counted(h, known.count)])
  {
    var h := stack[|stack| - 1];
    Expanded(all, rank, stack);
    HashesSnoc(found, Counted(h, known.count));
  }

  lemma HashesSnoc(found: seq<Counted>, c: Counted)
    ensures HashesOf(found + [c]) == HashesOf(found) + {c.hash}
  {
    var next := found + [c];
    assert next[|found|] == c;
    assert forall i :: 0 <= i < |found| ==> next[i] == found[i];
  }

  /** What a cached subtree stands for: every object of it, valid, and at hand. */
  ghost predicate Vouched(all: Store, rank: Hash -> nat, leaf: LeafCheck, s: Store, hash: Hash, found: seq<Counted>)
    requires Acyclic(all, rank)
  {
    && found != [] && found[0].hash == hash && HashesOf(found) == Reach(all, rank, hash)
    && (forall i :: 0 <= i < |found| ==> Right(all, rank, leaf, found[i]) && found[i].hash in s)
  }

  lemma AllVisited(all: Store, rank: Hash -> nat, leaf: LeafCheck, s: Store, hash: Hash, found: seq<Counted>)
    requires Acyclic(all, rank) && Visited(all, rank, leaf, hash, [], found)
    ensures (forall i :: 0 <= i < |found| ==> found[i].hash in s) <==> Reach(all, rank, hash) <= s.Keys
    ensures Reach(all, rank, hash) <= s.Keys ==> Vouched(all, rank, leaf, s, hash, found)
  {
    forall i | 0 <= i < |found| ensures found[i].hash in Reach(all, rank, hash) { assert found[i].hash in HashesOf(found); }
  }

  /** The walk through the cache: all that was found is known. */
  ghost predicate Expanding(all: Store, rank: Hash -> nat, leaf: LeafCheck, nodes: map<Hash, Known>, hash: Hash, stack: seq<Hash>, found: seq<Counted>)
    requires Acyclic(all, rank)
  {
    Visited(all, rank, leaf, hash, stack, found) && HashesOf(found) <= nodes.Keys
  }

  lemma ExpandOne(all: Store, rank: Hash -> nat, leaf: LeafCheck, nodes: map<Hash, Known>, hash: Hash, stack: seq<Hash>, found: seq<Counted>)
    requires Acyclic(all, rank) && Sound(all, rank, leaf, nodes) && Expanding(all, rank, leaf, nodes, hash, stack, found)
    requires stack != [] && stack[|stack| - 1] in nodes
    ensures var next, below := stack[|stack| - 1], stack[..|stack| - 1];
            && Expanding(all, rank, leaf, nodes, hash, below + nodes[next].children, found + [Counted(next, nodes[next].count)])
            && StackWeight(all, rank, below + nodes[next].children) < StackWeight(all, rank, stack)
            && Visits(all, rank, leaf, nodes, stack) == [next] + Visits(all, rank, leaf, nodes, below + nodes[next].children)
  {
    var next := stack[|stack| - 1];
    Expanded(all, rank, stack);
    VisitOne(all, rank, leaf, hash, stack, found, nodes[next]);
    HashesSnoc(found, Counted(next, nodes[next].count));
  }

  /** The nodes a walk over the stack looks at, up to the first one it does not know. */
  ghost function Visits(all: Store, rank: Hash -> nat, leaf: LeafCheck, nodes: map<Hash, Known>, stack: seq<Hash>): seq<Hash>
    requires Acyclic(all, rank) && Sound(all, rank, leaf, nodes)
    decreases StackWeight(all, rank, stack)
  {
    if stack == [] || stack[|stack| - 1] !in nodes then []
    else
      var next := stack[|stack| - 1];
      Expanded(all, rank, stack);
      [next] + Visits(all, rank, leaf, nodes, stack[..|stack| - 1] + nodes[next].children)
  }

  lemma VisitsNext(visits: seq<Hash>, next: Hash, rest: seq<Hash>)
    ensures visits + ([next] + rest) == (visits + [next]) + rest
  {
  }

  lemma NextReached(all: Store, rank: Hash -> nat, leaf: LeafCheck, hash: Hash, stack: seq<Hash>, found: seq<Counted>)
    requires Acyclic(all, rank) && Visited(all, rank, leaf, hash, stack, found) && stack != []
    ensures stack[|stack| - 1] in Reach(all, rank, hash)
  {
    var n := |stack| - 1;
    StackAppend(all, rank, stack[..n], [stack[n]]);
    assert stack == stack[..n] + [stack[n]];
  }
}
