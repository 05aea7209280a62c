/** What validation accepts, said of the objects: exactly the roots below which every leaf is sorted and every link tells
    the truth, and among them every tree that `Build` makes. */
module ValidTrees {
  import opened Bytes
  import opened Overlays
  import opened Sorting
  import opened Chunking
  import opened Prolly
  import opened EditMerge
  import opened ProllyReads
  import opened Validation

  function RefKey(r: Ref): Key { r.maxKey }

  lemma {:induction false} NextAscends<T>(key: T -> Key, xs: seq<T>)
    requires forall i :: 0 < i < |xs| ==> Less(key(xs[i - 1]), key(xs[i]))
    ensures Sorted(key, xs)
  {
    if |xs| > 1 {
      var n := |xs| - 1;
      NextAscends(key, xs[..n]);
      SortedSnoc(key, xs[..n], xs[n]);
      assert xs == xs[..n] + [xs[n]];
    }
  }

  /** The entries of the leaves below an object, in order. */
  ghost function EntriesAt(s: Store, rank: Hash -> nat, h: Hash): seq<Entry>
    requires Acyclic(s, rank)
    decreases rank(h), 1, 0
  {
    if h !in s then [] else if s[h].level == 0 then s[h].entries else EntriesFrom(s, rank, h, 0)
  }

  ghost function EntriesFrom(s: Store, rank: Hash -> nat, h: Hash, i: nat): seq<Entry>
    requires Acyclic(s, rank) && h in s && i <= |s[h].children|
    decreases rank(h), 0, |s[h].children| - i
  {
    if i == |s[h].children| then [] else EntriesAt(s, rank, s[h].children[i].hash) + EntriesFrom(s, rank, h, i + 1)
  }

  /** A leaf with sorted entries that pass the check of leaves, or a node whose children's keys ascend and whose links count
      the entries below them. */
  ghost predicate SoundAt(s: Store, rank: Hash -> nat, leaf: LeafCheck, h: Hash)
    requires Acyclic(s, rank)
  {
    h in s &&
    var o := s[h];
    if o.level == 0 then o.children == [] && Sorted(EntryKey, o.entries) && leaf(o.entries)
    else
      && o.entries == [] && o.children != [] && Sorted(RefKey, o.children)
      && forall i :: 0 <= i < |o.children| ==> o.children[i].count == |EntriesAt(s, rank, o.children[i].hash)|
  }

  ghost predicate AllSound(s: Store, rank: Hash -> nat, leaf: LeafCheck, hashes: set<Hash>)
    requires Acyclic(s, rank)
  {
    forall h :: h in hashes ==> SoundAt(s, rank, leaf, h)
  }

  /** The children from the `i`-th on, each behind the one before. */
  ghost predicate SoundFrom(s: Store, rank: Hash -> nat, leaf: LeafCheck, h: Hash, i: nat)
    requires Acyclic(s, rank) && h in s && i <= |s[h].children|
  {
    && AllSound(s, rank, leaf, ReachFrom(s, rank, h, i))
    && forall j :: i <= j < |s[h].children| ==>
         && (j > 0 ==> Less(s[h].children[j - 1].maxKey, s[h].children[j].maxKey))
         && s[h].children[j].count == |EntriesAt(s, rank, s[h].children[j].hash)|
  }

  /** Validation accepts an object exactly if all that it leads to is sound, and counts the entries below it. */
  lemma {:induction false} ValidExactly(s: Store, rank: Hash -> nat, leaf: LeafCheck, h: Hash)
    requires Acyclic(s, rank)
    ensures Check(s, rank, leaf, h) == if AllSound(s, rank, leaf, Reach(s, rank, h)) then Some(|EntriesAt(s, rank, h)|) else None
    decreases rank(h), 1, 0
  {
    assert h in Reach(s, rank, h);
    if h in s {
      if s[h].level == 0 {
        LeafExactly(s[h].entries);
        if s[h].children == [] { assert ReachFrom(s, rank, h, 0) == {}; }
      } else {
        ValidFromExactly(s, rank, leaf, h, 0);
        NodeExactly(s, rank, leaf, h);
      }
    }
  }

  lemma LeafExactly(es: seq<Entry>)
    ensures KeysAscend(es) <==> Sorted(EntryKey, es)
  {
    if KeysAscend(es) {
      NextAscends(EntryKey, es);
    } else {
      var i :| 0 < i < |es| && !Less(es[i - 1].key, es[i].key);
      assert !Less(EntryKey(es[i - 1]), EntryKey(es[i]));
    }
  }

  lemma NodeExactly(s: Store, rank: Hash -> nat, leaf: LeafCheck, h: Hash)
    requires Acyclic(s, rank) && h in s && s[h].level != 0
    ensures AllSound(s, rank, leaf, Reach(s, rank, h)) <==> s[h].entries == [] && s[h].children != [] && SoundFrom(s, rank, leaf, h, 0)
  {
    var cs := s[h].children;
    if SoundFrom(s, rank, leaf, h, 0) {
      forall i | 0 < i < |cs| ensures Less(RefKey(cs[i - 1]), RefKey(cs[i])) {}
      NextAscends(RefKey, cs);
    }
    if AllSound(s, rank, leaf, Reach(s, rank, h)) {
      assert SoundAt(s, rank, leaf, h);
      forall j | 0 < j < |cs| ensures Less(cs[j - 1].maxKey, cs[j].maxKey) { assert Less(RefKey(cs[j - 1]), RefKey(cs[j])); }
    }
  }

  lemma {:induction false} ValidFromExactly(s: Store, rank: Hash -> nat, leaf: LeafCheck, h: Hash, i: nat)
    requires Acyclic(s, rank) && h in s && i <= |s[h].children|
    ensures CheckFrom(s, rank, leaf, h, i) == if SoundFrom(s, rank, leaf, h, i) then Some(|EntriesFrom(s, rank, h, i)|) else None
    decreases rank(h), 0, |s[h].children| - i
  {
    if i < |s[h].children| {
      ValidExactly(s, rank, leaf, s[h].children[i].hash);
      ValidFromExactly(s, rank, leaf, h, i + 1);
      SoundSplits(s, rank, leaf, h, i);
    }
  }

  lemma SoundSplits(s: Store, rank: Hash -> nat, leaf: LeafCheck, h: Hash, i: nat)
    requires Acyclic(s, rank) && h in s && i < |s[h].children|
    ensures var child := s[h].children[i];
            SoundFrom(s, rank, leaf, h, i) <==>
              && AllSound(s, rank, leaf, Reach(s, rank, child.hash)) && SoundFrom(s, rank, leaf, h, i + 1)
              && (i > 0 ==> Less(s[h].children[i - 1].maxKey, child.maxKey))
              && child.count == |EntriesAt(s, rank, child.hash)|
  {
  }

  // Built trees, stored node by node.

  /** The content hash of a node. */
  type Naming = Node -> Hash

  function RefOf(name: Naming, l: Link): Ref { Ref(l.maxKey, l.count, name(l.child)) }

  function RefsOf(name: Naming, links: seq<Link>): seq<Ref> {
    seq(|links|, i requires 0 <= i < |links| => RefOf(name, links[i]))
  }

  function ObjectOf(name: Naming, n: Node): Object {
    match n
    case Leaf(entries) => Object(0, entries, [])
    case Interior(level, children) => Object(level, [], RefsOf(name, children))
  }

  ghost predicate Stored(s: Store, name: Naming, n: Node)
    decreases n, 1
  {
    name(n) in s && s[name(n)] == ObjectOf(name, n) && (n.Interior? ==> AllStored(s, name, n.children))
  }

  ghost predicate AllStored(s: Store, name: Naming, links: seq<Link>)
    decreases links, 0
  {
    links == [] || (Stored(s, name, links[0].child) && AllStored(s, name, links[1..]))
  }

  /** The hashes of a tree's nodes. */
  function NamesOf(name: Naming, n: Node): set<Hash>
    decreases n, 1
  {
    {name(n)} + if n.Interior? then NamesUnder(name, n.children) else {}
  }

  function NamesUnder(name: Naming, links: seq<Link>): set<Hash>
    decreases links, 0
  {
    if links == [] then {} else NamesOf(name, links[0].child) + NamesUnder(name, links[1..])
  }

  /** Interior nodes are above level 0, and the check of leaves accepts every leaf. */
  ghost predicate Proper(leaf: LeafCheck, n: Node)
    decreases n, 1
  {
    match n
    case Leaf(entries) => leaf(entries)
    case Interior(level, children) => level > 0 && AllProper(leaf, children)
  }

  ghost predicate AllProper(leaf: LeafCheck, links: seq<Link>)
    decreases links, 0
  {
    links == [] || (Proper(leaf, links[0].child) && AllProper(leaf, links[1..]))
  }

  /** What a stored tree leads to is the tree. */
  lemma {:induction false} StoredIs(s: Store, rank: Hash -> nat, leaf: LeafCheck, name: Naming, n: Node)
    requires Acyclic(s, rank) && Stored(s, name, n) && Proper(leaf, n)
    ensures EntriesAt(s, rank, name(n)) == EntriesOf(n) && Reach(s, rank, name(n)) == NamesOf(name, n)
    decreases n, 1
  {
    match n
    case Leaf(_) => assert ReachFrom(s, rank, name(n), 0) == {};
    case Interior(_, children) =>
      assert children[0..] == children;
      StoredFrom(s, rank, leaf, name, n, children, 0);
  }

  lemma {:induction false} StoredFrom(s: Store, rank: Hash -> nat, leaf: LeafCheck, name: Naming, n: Node, links: seq<Link>, i: nat)
    requires Acyclic(s, rank) && n.Interior? && name(n) in s && s[name(n)] == ObjectOf(name, n)
    requires i <= |n.children| && links == n.children[i..] && AllStored(s, name, links) && AllProper(leaf, links)
    ensures EntriesFrom(s, rank, name(n), i) == EntriesUnder(links) && ReachFrom(s, rank, name(n), i) == NamesUnder(name, links)
    decreases links, 0
  {
    if links != [] {
      StoredIs(s, rank, leaf, name, links[0].child);
      StoredFrom(s, rank, leaf, name, n, links[1..], i + 1);
      assert s[name(n)].children[i] == RefOf(name, links[0]);
    }
  }

  /** The last keys of well linked children over sorted entries ascend. */
  lemma {:induction false} KeysOfLinks(links: seq<Link>)
    requires AllWellLinked(links) && Sorted(EntryKey, EntriesUnder(links))
    ensures forall i :: 0 < i < |links| ==> Less(links[i - 1].maxKey, links[i].maxKey)
    ensures forall i :: 0 <= i < |links| ==> Sorted(EntryKey, EntriesOf(links[i].child)) && links[i].count == |EntriesOf(links[i].child)|
  {
    if links != [] {
      var first, rest := EntriesOf(links[0].child), EntriesUnder(links[1..]);
      SortedParts(first, rest);
      KeysOfLinks(links[1..]);
      if |links| > 1 {
        var second := EntriesOf(links[1].child);
        assert rest == second + EntriesUnder(links[1..][1..]);
        var i, j := |first| - 1, |first| + |second| - 1;
        assert (first + rest)[i] == first[|first| - 1] && (first + rest)[j] == second[|second| - 1];
        assert Less(EntryKey((first + rest)[i]), EntryKey((first + rest)[j]));
      }
      forall i | 0 < i < |links| ensures Less(links[i - 1].maxKey, links[i].maxKey) {
        if i > 1 { assert Less(links[1..][i - 2].maxKey, links[1..][i - 1].maxKey); }
      }
      forall i | 0 <= i < |links|
        ensures Sorted(EntryKey, EntriesOf(links[i].child)) && links[i].count == |EntriesOf(links[i].child)|
      {
        if i > 0 { assert links[i] == links[1..][i - 1]; }
      }
    }
  }

  lemma SortedParts(a: seq<Entry>, b: seq<Entry>)
    requires Sorted(EntryKey, a + b)
    ensures Sorted(EntryKey, a) && Sorted(EntryKey, b)
  {
    forall i, j | 0 <= i < j < |a| ensures Less(EntryKey(a[i]), EntryKey(a[j])) {
      assert Less(EntryKey((a + b)[i]), EntryKey((a + b)[j]));
    }
    forall i, j | 0 <= i < j < |b| ensures Less(EntryKey(b[i]), EntryKey(b[j])) {
      assert Less(EntryKey((a + b)[|a| + i]), EntryKey((a + b)[|a| + j]));
    }
  }

  lemma {:induction false} TreeSound(s: Store, rank: Hash -> nat, leaf: LeafCheck, name: Naming, n: Node)
    requires Acyclic(s, rank) && Stored(s, name, n) && Proper(leaf, n) && WellLinked(n) && Sorted(EntryKey, EntriesOf(n))
    ensures AllSound(s, rank, leaf, NamesOf(name, n))
    decreases n, 1
  {
    if n.Interior? {
      UnderSound(s, rank, leaf, name, n.children);
      RootSound(s, rank, leaf, name, n);
    }
  }

  lemma {:induction false} UnderSound(s: Store, rank: Hash -> nat, leaf: LeafCheck, name: Naming, links: seq<Link>)
    requires Acyclic(s, rank) && AllStored(s, name, links) && AllProper(leaf, links) && AllWellLinked(links)
    requires Sorted(EntryKey, EntriesUnder(links))
    ensures AllSound(s, rank, leaf, NamesUnder(name, links))
    decreases links, 0
  {
    if links != [] {
      SortedParts(EntriesOf(links[0].child), EntriesUnder(links[1..]));
      TreeSound(s, rank, leaf, name, links[0].child);
      UnderSound(s, rank, leaf, name, links[1..]);
    }
  }

  lemma RootSound(s: Store, rank: Hash -> nat, leaf: LeafCheck, name: Naming, n: Node)
    requires Acyclic(s, rank) && Stored(s, name, n) && Proper(leaf, n) && WellLinked(n) && Sorted(EntryKey, EntriesOf(n)) && n.Interior?
    ensures SoundAt(s, rank, leaf, name(n))
  {
    var links, refs := n.children, RefsOf(name, n.children);
    KeysOfLinks(links);
    forall i | 0 < i < |refs| ensures Less(RefKey(refs[i - 1]), RefKey(refs[i])) { assert Less(links[i - 1].maxKey, links[i].maxKey); }
    NextAscends(RefKey, refs);
    forall i | 0 <= i < |refs| ensures refs[i].count == |EntriesAt(s, rank, refs[i].hash)| {
      ChildStored(s, leaf, name, links, i);
      StoredIs(s, rank, leaf, name, links[i].child);
    }
  }

  lemma {:induction false} ChildStored(s: Store, leaf: LeafCheck, name: Naming, links: seq<Link>, i: nat)
    requires AllStored(s, name, links) && AllProper(leaf, links) && i < |links|
    ensures Stored(s, name, links[i].child) && Proper(leaf, links[i].child)
  {
    if i > 0 { ChildStored(s, leaf, name, links[1..], i - 1); }
  }

  /** The leaves that `Build` makes of some entries. */
  ghost predicate AcceptsLeaves(o: Options, leaf: LeafCheck, entries: seq<Entry>) {
    leaf([]) && forall g :: g in Chunks(o, EntryKey, entries) ==> leaf(g)
  }

  lemma {:induction false} AllProperIs(leaf: LeafCheck, links: seq<Link>)
    ensures AllProper(leaf, links) <==> forall l :: l in links ==> Proper(leaf, l.child)
  {
    if links != [] {
      AllProperIs(leaf, links[1..]);
      assert links == [links[0]] + links[1..];
    }
  }

  lemma {:induction false} UpProper(o: Options, leaf: LeafCheck, level: nat, links: seq<Link>)
    requires Accepted(o) && level > 0 && forall l :: l in links ==> Proper(leaf, l.child)
    ensures forall l :: l in Up(o, level, links) ==> Proper(leaf, l.child)
  {
    var groups := Chunks(o, LinkKey, links);
    ChunksAreChunking(o, LinkKey, links);
    forall l | l in Up(o, level, links) ensures Proper(leaf, l.child) {
      var i :| 0 <= i < |groups| && l == InteriorLink(level, groups[i]);
      forall x | x in groups[i] ensures x in links { InConcat(groups, i, x); }
      AllProperIs(leaf, groups[i]);
    }
  }

  lemma {:induction false} InConcat<T>(groups: seq<seq<T>>, i: nat, x: T)
    requires i < |groups| && x in groups[i]
    ensures x in Concat(groups)
  {
    if i > 0 { InConcat(groups[1..], i - 1, x); }
  }

  lemma {:induction false} RootProper(o: Options, leaf: LeafCheck, level: nat, links: seq<Link>)
    requires Accepted(o) && links != [] && Shrinks(o, LinkKey, links) && level > 0
    requires forall l :: l in links ==> Proper(leaf, l.child)
    ensures Proper(leaf, Root(o, level, links))
    decreases |links|
  {
    if |links| > 1 {
      UpShrinks(o, level, links);
      UpProper(o, leaf, level, links);
      RootProper(o, leaf, level + 1, Up(o, level, links));
    } else {
      assert links[0] in links;
    }
  }

  lemma TreeProper(o: Options, leaf: LeafCheck, entries: seq<Entry>)
    requires Accepted(o) && Shrinks(o, EntryKey, entries) && AcceptsLeaves(o, leaf, entries)
    ensures Proper(leaf, TreeOf(o, entries))
  {
    if entries != [] {
      LeafKeys(o, entries);
      RootProper(o, leaf, 1, LeafLinks(Chunks(o, EntryKey, entries)));
    }
  }

  /** Every tree that `Build` makes of sorted entries, stored node by node, is accepted where its leaves are: with as many
      entries, and its nodes are what it leads to. */
  lemma BuiltIsValid(o: Options, entries: seq<Entry>, s: Store, rank: Hash -> nat, leaf: LeafCheck, name: Naming)
    requires Accepted(o) && Shrinks(o, EntryKey, entries) && Sorted(EntryKey, entries) && AcceptsLeaves(o, leaf, entries)
    requires Acyclic(s, rank) && Stored(s, name, TreeOf(o, entries))
    ensures var root := TreeOf(o, entries);
            && Check(s, rank, leaf, name(root)) == Some(|entries|)
            && Reach(s, rank, name(root)) == NamesOf(name, root)
  {
    var root := TreeOf(o, entries);
    TreeHolds(o, entries);
    TreeProper(o, leaf, entries);
    StoredIs(s, rank, leaf, name, root);
    TreeSound(s, rank, leaf, name, root);
    ValidExactly(s, rank, leaf, name(root));
  }
}
