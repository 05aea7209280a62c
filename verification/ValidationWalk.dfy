/** `Validate` with and without a cache: the same roots are accepted and the same objects found, after any history
    of remembering and evicting. */
module ValidationWalk {
  import opened Bytes
  import opened Overlays
  import opened Prolly
  import opened Validation
  import opened ValidationCache
  import opened ValidTrees

  /** What was seen is valid, with everything below it. */
  ghost predicate SeenRight(s: Store, rank: Hash -> nat, leaf: LeafCheck, seen: map<Hash, nat>)
    requires Acyclic(s, rank)
  {
    forall h {:trigger seen[h]} :: h in seen ==> Check(s, rank, leaf, h) == Some(seen[h]) && Reach(s, rank, h) <= seen.Keys
  }

  /** The counts of a found subtree, added one by one. */
  function WithFound(seen: map<Hash, nat>, found: seq<Counted>): map<Hash, nat> {
    if found == [] then seen else WithFound(seen, found[..|found| - 1])[found[|found| - 1].hash := found[|found| - 1].count]
  }

  lemma {:induction false} WithFoundIs(seen: map<Hash, nat>, found: seq<Counted>)
    ensures WithFound(seen, found).Keys == seen.Keys + HashesOf(found)
    ensures forall h {:trigger WithFound(seen, found)[h]} :: h in WithFound(seen, found) ==>
              (h in seen && WithFound(seen, found)[h] == seen[h]) || exists i :: 0 <= i < |found| && found[i] == Counted(h, WithFound(seen, found)[h])
  {
    if found != [] {
      var n := |found| - 1;
      WithFoundIs(seen, found[..n]);
      HashesSnoc(found[..n], found[n]);
      assert found == found[..n] + [found[n]];
    }
  }

  /** Everything below what a subtree reaches is in the subtree. */
  lemma {:induction false} ReachBelow(s: Store, rank: Hash -> nat, h: Hash, x: Hash)
    requires Acyclic(s, rank) && x in Reach(s, rank, h)
    ensures Reach(s, rank, x) <= Reach(s, rank, h)
    decreases rank(h), 1, 0
  {
    if h in s && x != h { ReachBelowFrom(s, rank, h, 0, x); }
  }

  lemma {:induction false} ReachBelowFrom(s: Store, rank: Hash -> nat, h: Hash, i: nat, x: Hash)
    requires Acyclic(s, rank) && h in s && i <= |s[h].children| && x in ReachFrom(s, rank, h, i)
    ensures Reach(s, rank, x) <= ReachFrom(s, rank, h, i)
    decreases rank(h), 0, |s[h].children| - i
  {
    if x in Reach(s, rank, s[h].children[i].hash) {
      ReachBelow(s, rank, s[h].children[i].hash, x);
    } else {
      ReachBelowFrom(s, rank, h, i + 1, x);
    }
  }

  /** A vouched subtree may be taken as seen. */
  lemma FoundIsRight(s: Store, all: Store, rank: Hash -> nat, leaf: LeafCheck, seen: map<Hash, nat>, hash: Hash, found: seq<Counted>)
    requires Acyclic(all, rank) && Acyclic(s, rank) && Part(s, all)
    requires SeenRight(s, rank, leaf, seen) && Vouched(all, rank, leaf, s, hash, found)
    ensures SeenRight(s, rank, leaf, WithFound(seen, found))
    ensures WithFound(seen, found).Keys == seen.Keys + Reach(s, rank, hash)
    ensures Check(s, rank, leaf, hash) == Some(found[0].count)
  {
    WithFoundIs(seen, found);
    ProvidedSame(s, all, rank, leaf, hash);
    var after := WithFound(seen, found);
    forall h | h in after ensures Check(s, rank, leaf, h) == Some(after[h]) && Reach(s, rank, h) <= after.Keys {
      if h in seen && after[h] == seen[h] {
        assert Reach(s, rank, h) <= seen.Keys;
      } else {
        var i :| 0 <= i < |found| && found[i] == Counted(h, after[h]);
        FoundOne(s, all, rank, leaf, hash, found, i);
      }
    }
    FoundOne(s, all, rank, leaf, hash, found, 0);
  }

  lemma FoundOne(s: Store, all: Store, rank: Hash -> nat, leaf: LeafCheck, hash: Hash, found: seq<Counted>, i: nat)
    requires Acyclic(all, rank) && Acyclic(s, rank) && Part(s, all) && Vouched(all, rank, leaf, s, hash, found) && i < |found|
    ensures Check(s, rank, leaf, found[i].hash) == Some(found[i].count)
    ensures Reach(s, rank, found[i].hash) <= Reach(s, rank, hash)
  {
    assert Right(all, rank, leaf, found[i]);
    assert found[i].hash in HashesOf(found);
    forall h | h in Reach(all, rank, hash) ensures h in s {
      assert h in HashesOf(found);
      var j :| 0 <= j < |found| && found[j].hash == h;
      assert found[j].hash in s;
    }
    ReachBelow(all, rank, hash, found[i].hash);
    ProvidedSame(s, all, rank, leaf, found[i].hash);
    ProvidedSame(s, all, rank, leaf, hash);
  }

  lemma SeenOne(s: Store, rank: Hash -> nat, leaf: LeafCheck, seen: map<Hash, nat>, h: Hash, count: nat)
    requires Acyclic(s, rank) && SeenRight(s, rank, leaf, seen) && h in s && Check(s, rank, leaf, h) == Some(count)
    requires ReachFrom(s, rank, h, 0) <= seen.Keys
    ensures SeenRight(s, rank, leaf, seen[h := count])
  {
    var after := seen[h := count];
    forall x | x in after ensures Check(s, rank, leaf, x) == Some(after[x]) && Reach(s, rank, x) <= after.Keys {
      if x != h { assert Reach(s, rank, x) <= seen.Keys; }
    }
  }

  lemma SoundStays(all: Store, rank: Hash -> nat, leaf: LeafCheck, nodes: map<Hash, Known>, after: map<Hash, Known>, h: Hash, known: Known)
    requires Acyclic(all, rank) && Sound(all, rank, leaf, nodes)
    requires h in all && Check(all, rank, leaf, h) == Some(known.count) && known.children == ChildHashes(all[h])
    requires forall x {:trigger after[x]} :: x in after ==> (x == h && after[x] == known) || (x in nodes && after[x] == nodes[x])
    ensures Sound(all, rank, leaf, after)
  {
    forall x | x in after ensures x in all && Check(all, rank, leaf, x) == Some(after[x].count) && after[x].children == ChildHashes(all[x]) {
      if !(x == h && after[x] == known) { assert nodes[x] == after[x]; }
    }
  }

  /** The sum of the children's counts so far, and what the rest must give. */
  ghost predicate Summed(s: Store, rank: Hash -> nat, leaf: LeafCheck, h: Hash, i: nat, count: nat, want: Option<nat>)
    requires Acyclic(s, rank) && h in s && i <= |s[h].children|
  {
    want == match CheckFrom(s, rank, leaf, h, i) case None => None case Some(n) => Some(count + n)
  }

  ghost function ReachTo(s: Store, rank: Hash -> nat, h: Hash, i: nat): set<Hash>
    requires Acyclic(s, rank) && h in s && i <= |s[h].children|
  {
    if i == 0 then {} else ReachTo(s, rank, h, i - 1) + Reach(s, rank, s[h].children[i - 1].hash)
  }

  lemma {:induction false} ReachSplits(s: Store, rank: Hash -> nat, h: Hash, i: nat)
    requires Acyclic(s, rank) && h in s && i <= |s[h].children|
    ensures ReachTo(s, rank, h, i) + ReachFrom(s, rank, h, i) == ReachFrom(s, rank, h, 0)
    ensures Reach(s, rank, h) == {h} + (ReachTo(s, rank, h, i) + ReachFrom(s, rank, h, i))
  {
    if i > 0 { ReachSplits(s, rank, h, i - 1); }
  }

  /** `walker`, with `seen` set. `all` is every object there is; the store at hand is a part of it. */
  class Walker {
    const store: Store
    const cache: NodeCache?
    const leaf: LeafCheck
    var seen: map<Hash, nat>
    ghost const all: Store
    ghost const rank: Hash -> nat

    ghost predicate Valid()
      reads this, cache
    {
      && Acyclic(all, rank) && Acyclic(store, rank) && Part(store, all) && SeenRight(store, rank, leaf, seen)
      && (cache != null ==> cache.Valid() && Sound(all, rank, leaf, cache.nodes))
    }

    constructor (store: Store, cache: NodeCache?, leaf: LeafCheck, ghost all: Store, ghost rank: Hash -> nat)
      requires Acyclic(all, rank) && Acyclic(store, rank) && Part(store, all)
      requires cache != null ==> cache.Valid() && Sound(all, rank, leaf, cache.nodes)
      ensures Valid() && seen == map[] && this.store == store && this.cache == cache && this.leaf == leaf && this.rank == rank && this.all == all
    {
      this.store, this.cache, this.leaf, this.all, this.rank := store, cache, leaf, all, rank;
      seen := map[];
    }

    /** `fromCache`. */
    method FromCache(hash: Hash) returns (count: Option<nat>)
      requires Valid()
      modifies this`seen, cache
      ensures Valid()
      ensures count.None? ==> seen == old(seen)
      ensures count.Some? ==> seen.Keys == old(seen).Keys + Reach(store, rank, hash) && Check(store, rank, leaf, hash) == count
    {
      if cache == null { return None; }
      var found := cache.Subtree(store, hash, all, rank, leaf);
      if found.None? { return None; }
      FoundIsRight(store, all, rank, leaf, seen, hash, found.value);
      seen := AddFound(seen, found.value);
      return Some(found.value[0].count);
    }

    /** `walk`. */
    method Walk(hash: Hash) returns (count: Option<nat>)
      requires Valid()
      modifies this`seen, cache
      ensures Valid()
      ensures count == Check(store, rank, leaf, hash)
      ensures old(seen).Keys <= seen.Keys <= old(seen).Keys + Reach(store, rank, hash)
      ensures count.Some? ==> seen.Keys == old(seen).Keys + Reach(store, rank, hash)
      decreases rank(hash), 1, 0
    {
      if hash in seen { return Some(seen[hash]); }
      if hash !in store { return None; }
      var n := store[hash];
      if n.level == 0 {
        if n.children != [] { return None; }
        var ascending := CheckAscending(n.entries);
        if !ascending { return None; }
        if !leaf(n.entries) { return None; }
        count := Some(|n.entries|);
        assert ReachFrom(store, rank, hash, 0) == {};
      } else {
        if n.entries != [] || n.children == [] { return None; }
        count := WalkChildren(hash, n);
        if count.None? { return None; }
      }
      SeenOne(store, rank, leaf, seen, hash, count.value);
      seen := seen[hash := count.value];
      if cache != null {
        ValidEverywhere(store, all, rank, leaf, hash);
        ghost var nodes := cache.nodes;
        cache.Remember(hash, Known(count.value, ChildHashes(n)));
        SoundStays(all, rank, leaf, nodes, cache.nodes, hash, Known(count.value, ChildHashes(n)));
      }
    }

    method WalkChildren(hash: Hash, n: Object) returns (count: Option<nat>)
      requires Valid() && hash in store && store[hash] == n
      modifies this`seen, cache
      ensures Valid()
      ensures count == CheckFrom(store, rank, leaf, hash, 0)
      ensures old(seen).Keys <= seen.Keys <= old(seen).Keys + ReachFrom(store, rank, hash, 0)
      ensures count.Some? ==> seen.Keys == old(seen).Keys + ReachFrom(store, rank, hash, 0)
      decreases rank(hash), 0, 2
    {
      Resolve(hash, n);
      count := SumChildren(hash, n);
    }

    /** Children the cache vouches for need no walk. */
    method Resolve(hash: Hash, n: Object)
      requires Valid() && hash in store && store[hash] == n
      modifies this`seen, cache
      ensures Valid() && old(seen).Keys <= seen.Keys <= old(seen).Keys + ReachFrom(store, rank, hash, 0)
    {
      for i := 0 to |n.children|
        invariant Valid() && old(seen).Keys <= seen.Keys <= old(seen).Keys + ReachFrom(store, rank, hash, 0)
      {
        if n.children[i].hash !in seen {
          ReachesChild(store, rank, hash, i);
          var known := FromCache(n.children[i].hash);
        }
      }
    }

    /** One child: in order behind the one before, valid, and counted right. */
    method SumOne(hash: Hash, n: Object, i: nat, sum: nat, ghost before: set<Hash>, ghost want: Option<nat>) returns (next: Option<nat>)
      requires Valid() && hash in store && store[hash] == n && i < |n.children|
      requires Summed(store, rank, leaf, hash, i, sum, want) && Between(store, rank, hash, i, before, seen.Keys)
      modifies this`seen, cache
      ensures Valid() && before <= seen.Keys <= before + ReachFrom(store, rank, hash, 0)
      ensures next.None? ==> want == None
      ensures next.Some? ==> Summed(store, rank, leaf, hash, i + 1, next.value, want) && Between(store, rank, hash, i + 1, before, seen.Keys)
      decreases rank(hash), 0, 0
    {
      SummedOne(store, rank, leaf, hash, i, sum, want);
      if i > 0 && !Less(n.children[i - 1].maxKey, n.children[i].maxKey) { return None; }
      ghost var now := seen.Keys;
      ReachesChild(store, rank, hash, i);
      var below := Walk(n.children[i].hash);
      BetweenOne(store, rank, hash, i, before, now, seen.Keys);
      if below.None? || below.value != n.children[i].count { return None; }
      next := Some(sum + below.value);
    }

    method SumChildren(hash: Hash, n: Object) returns (count: Option<nat>)
      requires Valid() && hash in store && store[hash] == n
      modifies this`seen, cache
      ensures Valid()
      ensures count == CheckFrom(store, rank, leaf, hash, 0)
      ensures old(seen).Keys <= seen.Keys <= old(seen).Keys + ReachFrom(store, rank, hash, 0)
      ensures count.Some? ==> ReachFrom(store, rank, hash, 0) <= seen.Keys
      decreases rank(hash), 0, 1
    {
      var sum := 0;
      ghost var want := CheckFrom(store, rank, leaf, hash, 0);
      SummedEnds(store, rank, leaf, hash, 0);
      for i := 0 to |n.children|
        invariant Valid() && Summed(store, rank, leaf, hash, i, sum, want)
        invariant Between(store, rank, hash, i, old(seen).Keys, seen.Keys)
      {
        var next := SumOne(hash, n, i, sum, old(seen).Keys, want);
        if next.None? { return None; }
        sum := next.value;
      }
      SummedEnds(store, rank, leaf, hash, sum);
      ReachSplits(store, rank, hash, |n.children|);
      return Some(sum);
    }
  }

  lemma ReachesChild(s: Store, rank: Hash -> nat, h: Hash, i: nat)
    requires Acyclic(s, rank) && h in s && i < |s[h].children|
    ensures Reach(s, rank, s[h].children[i].hash) <= ReachFrom(s, rank, h, 0)
    ensures rank(s[h].children[i].hash) < rank(h)
  {
    ReachSplits(s, rank, h, i);
  }

  /** What was seen while the first `i` children were walked. */
  ghost predicate Between(s: Store, rank: Hash -> nat, h: Hash, i: nat, before: set<Hash>, now: set<Hash>)
    requires Acyclic(s, rank) && h in s && i <= |s[h].children|
  {
    before <= now <= before + ReachFrom(s, rank, h, 0) && ReachTo(s, rank, h, i) <= now
  }

  lemma BetweenOne(s: Store, rank: Hash -> nat, h: Hash, i: nat, before: set<Hash>, now: set<Hash>, later: set<Hash>)
    requires Acyclic(s, rank) && h in s && i < |s[h].children| && Between(s, rank, h, i, before, now)
    requires now <= later <= now + Reach(s, rank, s[h].children[i].hash)
    ensures before <= later <= before + ReachFrom(s, rank, h, 0)
    ensures Reach(s, rank, s[h].children[i].hash) <= later ==> Between(s, rank, h, i + 1, before, later)
  {
    ReachesChild(s, rank, h, i);
  }

  lemma SummedEnds(s: Store, rank: Hash -> nat, leaf: LeafCheck, h: Hash, count: nat)
    requires Acyclic(s, rank) && h in s
    ensures Summed(s, rank, leaf, h, 0, 0, CheckFrom(s, rank, leaf, h, 0))
    ensures forall want :: Summed(s, rank, leaf, h, |s[h].children|, count, want) ==> want == Some(count)
  {
  }

  lemma SummedOne(s: Store, rank: Hash -> nat, leaf: LeafCheck, h: Hash, i: nat, count: nat, want: Option<nat>)
    requires Acyclic(s, rank) && h in s && i < |s[h].children| && Summed(s, rank, leaf, h, i, count, want)
    ensures var child := s[h].children[i];
            if (i > 0 && !Less(s[h].children[i - 1].maxKey, child.maxKey)) || Check(s, rank, leaf, child.hash) != Some(child.count)
            then want == None
            else Summed(s, rank, leaf, h, i + 1, count + child.count, want)
  {
  }

  method AddFound(seen: map<Hash, nat>, found: seq<Counted>) returns (after: map<Hash, nat>)
    ensures after == WithFound(seen, found)
  {
    after := seen;
    assert found[..0] == [];
    for i := 0 to |found|
      invariant after == WithFound(seen, found[..i])
    {
      assert found[..i + 1][..i] == found[..i];
      after := after[found[i].hash := found[i].count];
    }
    assert found[..|found|] == found;
  }

  method CheckAscending(es: seq<Entry>) returns (ok: bool)
    ensures ok <==> KeysAscend(es)
  {
    var i := 1;
    while i < |es|
      invariant 1 <= i && forall j :: 0 < j < i && j < |es| ==> Less(es[j - 1].key, es[j].key)
    {
      if !Less(es[i - 1].key, es[i].key) { return false; }
      i := i + 1;
    }
    return true;
  }

  /** `Validate`. With a cache or without: the root is accepted exactly if every object it leads to is sound, and the objects
      found are exactly these. The cache stays sound. */
  method Validate(store: Store, root: Hash, cache: NodeCache?, leaf: LeafCheck, ghost all: Store, ghost rank: Hash -> nat)
    returns (objects: Option<set<Hash>>)
    requires Acyclic(all, rank) && Acyclic(store, rank) && Part(store, all)
    requires cache != null ==> cache.Valid() && Sound(all, rank, leaf, cache.nodes)
    modifies cache
    ensures cache != null ==> cache.Valid() && Sound(all, rank, leaf, cache.nodes)
    ensures objects == if AllSound(store, rank, leaf, Reach(store, rank, root)) then Some(Reach(store, rank, root)) else None
  {
    var w := new Walker(store, cache, leaf, all, rank);
    ValidExactly(store, rank, leaf, root);
    var count := w.FromCache(root);
    if count.None? {
      count := w.Walk(root);
      if count.None? { return None; }
    }
    assert w.seen.Keys == Reach(store, rank, root);
    return Some(w.seen.Keys);
  }
}
