/** The canonical Prolly tree of `common/prolly/tree.go`. Nodes are content addressed, so a node stands for
    its hash: two trees have the same root hash exactly when they are the same value. */
module Prolly {
  import opened Bytes
  import opened Sorting
  import opened Chunking

  datatype Entry = Entry(key: Key, value: seq<byte>)

  datatype Link = Link(maxKey: Key, count: nat, child: Node)

  datatype Node = Leaf(entries: seq<Entry>) | Interior(level: nat, children: seq<Link>)

  function EntryKey(e: Entry): Key { e.key }

  function LinkKey(l: Link): Key { l.maxKey }

  function SumCounts(links: seq<Link>): nat {
    if links == [] then 0 else links[0].count + SumCounts(links[1..])
  }

  /** The link to the leaf holding `group`. */
  function LeafLink(group: seq<Entry>): Link {
    Link(if group == [] then [] else group[|group| - 1].key, |group|, Leaf(group))
  }

  /** The link to the interior node of `level` over `group`. */
  function InteriorLink(level: nat, group: seq<Link>): Link {
    Link(if group == [] then [] else group[|group| - 1].maxKey, SumCounts(group), Interior(level, group))
  }

  function LeafLinks(groups: seq<seq<Entry>>): seq<Link> {
    seq(|groups|, i requires 0 <= i < |groups| => LeafLink(groups[i]))
  }

  function InteriorLinks(level: nat, groups: seq<seq<Link>>): seq<Link> {
    seq(|groups|, i requires 0 <= i < |groups| => InteriorLink(level, groups[i]))
  }

  /** One pass of the level loop: the links of the next level up. */
  function Up(o: Options, level: nat, links: seq<Link>): seq<Link> {
    InteriorLinks(level, Chunks(o, LinkKey, links))
  }

  /** With fewer links than before, and the shape that guarantees it again. */
  lemma UpShrinks(o: Options, level: nat, links: seq<Link>)
    requires Accepted(o) && links != [] && Shrinks(o, LinkKey, links)
    ensures var next := Up(o, level, links);
            && next != [] && Fanout(o) * (|next| - 1) + 1 <= |links|
            && Shrinks(o, LinkKey, next)
            && (|links| >= 2 ==> |next| < |links|)
  {
    ChunksShrink(o, LinkKey, links);
    TwiceAtMost(Fanout(o), |Chunks(o, LinkKey, links)| - 1);
    if o.minEntries == 1 { InnerKeys(o, level, links); }
  }

  lemma TwiceAtMost(m: int, k: nat)
    requires m >= 2
    ensures 2 * k <= m * k
  {
  }

  lemma InnerKeys(o: Options, level: nat, links: seq<Link>)
    requires Accepted(o) && NoInnerBoundary(o, LinkKey, links)
    ensures NoInnerBoundary(o, LinkKey, Up(o, level, links))
  {
    ChunksAreChunking(o, LinkKey, links);
    var gs := Chunks(o, LinkKey, links);
    var next := Up(o, level, links);
    forall i | 0 <= i < |next| - 1 ensures !IsBoundary(o, LinkKey(next[i])) {
      var at := GroupEnd(gs, i);
      assert LinkKey(next[i]) == LinkKey(links[at]);
    }
  }

  /** The level loop: from the links of a level to the root node. */
  function Root(o: Options, level: nat, links: seq<Link>): Node
    requires Accepted(o) && links != [] && Shrinks(o, LinkKey, links)
    decreases |links|
  {
    if |links| == 1 then links[0].child
    else UpShrinks(o, level, links); Root(o, level + 1, Up(o, level, links))
  }

  lemma LeafKeys(o: Options, entries: seq<Entry>)
    requires Accepted(o) && Shrinks(o, EntryKey, entries) && entries != []
    ensures var links := LeafLinks(Chunks(o, EntryKey, entries));
            links != [] && Shrinks(o, LinkKey, links)
  {
    ChunksShrink(o, EntryKey, entries);
    ChunksAreChunking(o, EntryKey, entries);
    var gs := Chunks(o, EntryKey, entries);
    var links := LeafLinks(gs);
    if o.minEntries == 1 {
      forall i | 0 <= i < |links| - 1 ensures !IsBoundary(o, LinkKey(links[i])) {
        var at := GroupEnd(gs, i);
        assert LinkKey(links[i]) == EntryKey(entries[at]);
      }
    }
  }

  /** The tree of a sorted entry list. */
  function TreeOf(o: Options, entries: seq<Entry>): Node
    requires Accepted(o) && Shrinks(o, EntryKey, entries)
  {
    if entries == [] then Leaf([])
    else LeafKeys(o, entries); Root(o, 1, LeafLinks(Chunks(o, EntryKey, entries)))
  }

  // When the level loop ends.

  /** The links after `passes` rounds of the level loop, were it to keep going. */
  function Passes(o: Options, level: nat, links: seq<Link>, passes: nat): seq<Link>
    decreases passes
  {
    if passes == 0 then links else Passes(o, level + 1, Up(o, level, links), passes - 1)
  }

  /** With minimum 1 a boundary key always closes its group, so an inner boundary is one again. */
  lemma InnerCut<T>(o: Options, key: T -> Key, xs: seq<T>, i: nat) returns (before: nat)
    requires Accepted(o) && o.minEntries == 1 && i < |xs| - 1 && IsBoundary(o, key(xs[i]))
    ensures var gs := Chunks(o, key, xs);
            before < |gs| - 1 && gs[before] != [] && gs[before][|gs[before]| - 1] == xs[i]
  {
    var head := xs[..i + 1];
    assert head[..i] == xs[..i];
    var c := Run(o, key, head[..i]);
    assert Run(o, key, head) == Chunker(c.groups + [c.open + [xs[i]]], []);
    assert xs == head + xs[i + 1..];
    Resynchronise(o, key, head, xs[i + 1..]);
    ChunksAreChunking(o, key, xs[i + 1..]);
    assert Chunks(o, key, xs[i + 1..]) != [];
    before := |c.groups|;
  }

  lemma StuckStep(o: Options, level: nat, links: seq<Link>)
    requires Accepted(o) && !Shrinks(o, LinkKey, links)
    ensures !Shrinks(o, LinkKey, Up(o, level, links)) && |Up(o, level, links)| >= 2
  {
    var i :| 0 <= i < |links| - 1 && IsBoundary(o, LinkKey(links[i]));
    var g := InnerCut(o, LinkKey, links, i);
    assert LinkKey(Up(o, level, links)[g]) == LinkKey(links[i]);
  }

  lemma {:induction false} StuckForever(o: Options, level: nat, links: seq<Link>, passes: nat)
    requires Accepted(o) && !Shrinks(o, LinkKey, links)
    ensures |Passes(o, level, links, passes)| >= 2
    decreases passes
  {
    if passes > 0 {
      StuckStep(o, level, links);
      StuckForever(o, level + 1, Up(o, level, links), passes - 1);
    }
  }

  lemma {:induction false} Settle(o: Options, level: nat, links: seq<Link>) returns (passes: nat)
    requires Accepted(o) && links != [] && Shrinks(o, LinkKey, links)
    ensures |Passes(o, level, links, passes)| == 1
    decreases |links|
  {
    if |links| == 1 {
      passes := 0;
    } else {
      UpShrinks(o, level, links);
      var rest := Settle(o, level + 1, Up(o, level, links));
      passes := rest + 1;
    }
  }

  /** The level loop over these links never comes to a single one. */
  ghost predicate RunsForever(o: Options, links: seq<Link>) {
    forall n: nat :: |Passes(o, 1, links, n)| > 1
  }

  lemma LinksLoopEnds(o: Options, links: seq<Link>)
    requires Accepted(o)
    ensures RunsForever(o, links) <==> !Shrinks(o, LinkKey, links)
  {
    if !Shrinks(o, LinkKey, links) {
      forall n: nat ensures |Passes(o, 1, links, n)| > 1 { StuckForever(o, 1, links, n); }
    } else if links == [] {
      assert Passes(o, 1, links, 0) == [];
    } else {
      var n := Settle(o, 1, links);
    }
  }

  /** An inner boundary among the entries is one among the leaf links. */
  lemma LeafKeysExact(o: Options, entries: seq<Entry>)
    requires Accepted(o) && entries != []
    ensures Shrinks(o, EntryKey, entries) <==> Shrinks(o, LinkKey, LeafLinks(Chunks(o, EntryKey, entries)))
  {
    var links := LeafLinks(Chunks(o, EntryKey, entries));
    if Shrinks(o, EntryKey, entries) {
      LeafKeys(o, entries);
    } else {
      var i :| 0 <= i < |entries| - 1 && IsBoundary(o, EntryKey(entries[i]));
      var g := InnerCut(o, EntryKey, entries, i);
      assert LinkKey(links[g]) == EntryKey(entries[i]);
    }
  }

  /** The level loop over the leaves of these entries runs forever. */
  ghost predicate NeverBuilt(o: Options, entries: seq<Entry>) {
    entries != [] && RunsForever(o, LeafLinks(Chunks(o, EntryKey, entries)))
  }

  lemma NeverBuiltExact(o: Options, entries: seq<Entry>)
    requires Accepted(o)
    ensures NeverBuilt(o, entries) <==> !Shrinks(o, EntryKey, entries)
  {
    if entries != [] {
      LeafKeysExact(o, entries);
      LinksLoopEnds(o, LeafLinks(Chunks(o, EntryKey, entries)));
    }
  }

  /** What a call comes to. `Endless` stands for one that does not return. */
  datatype Outcome = Built(tree: Node) | Rejected | Crashed | Endless

  /** `Build`'s scan for equal neighbours. */
  method HasDuplicate(items: seq<Entry>) returns (duplicate: bool)
    requires WeaklySorted(EntryKey, items)
    ensures !duplicate <==> Sorted(EntryKey, items)
  {
    var i := 1;
    while i < |items|
      invariant 1 <= i
      invariant forall j :: 1 <= j < i && j < |items| ==> EntryKey(items[j - 1]) != EntryKey(items[j])
    {
      if items[i - 1].key == items[i].key {
        LessIrreflexive(items[i].key);
        return true;
      }
      i := i + 1;
    }
    AdjacentSorted(items);
    return false;
  }

  method WriteLeaves(groups: seq<seq<Entry>>) returns (links: seq<Link>)
    ensures links == LeafLinks(groups)
  {
    links := [];
    for i := 0 to |groups|
      invariant links == LeafLinks(groups)[..i]
    {
      links := links + [LeafLink(groups[i])];
    }
  }

  method WriteInteriors(level: nat, groups: seq<seq<Link>>) returns (links: seq<Link>)
    ensures links == InteriorLinks(level, groups)
  {
    links := [];
    for i := 0 to |groups|
      invariant links == InteriorLinks(level, groups)[..i]
    {
      links := links + [InteriorLink(level, groups[i])];
    }
  }

  /** `Build`. It refuses exactly bad options and equal keys; otherwise it gives the tree of the sorted entries,
      unless its level loop runs forever. */
  method Build(o: Options, input: seq<Entry>) returns (r: Outcome)
    ensures r.Rejected? <==>
              !(1 <= o.minEntries <= o.maxEntries && 2 <= o.maxEntries && 1 <= o.boundaryBits <= 63) || !Sorted(EntryKey, StableSort(EntryKey, input))
    ensures r.Endless? <==> !r.Rejected? && NeverBuilt(o, StableSort(EntryKey, input))
    ensures r.Endless? ==> o.minEntries == 1
    ensures r.Built? ==> Shrinks(o, EntryKey, StableSort(EntryKey, input)) && r.tree == TreeOf(o, StableSort(EntryKey, input))
    ensures !r.Crashed?
  {
    if !(1 <= o.minEntries <= o.maxEntries && 2 <= o.maxEntries && 1 <= o.boundaryBits <= 63) {
      return Rejected;
    }
    var items := StableSort(EntryKey, input);
    StableSortCorrect(EntryKey, input);
    var duplicate := HasDuplicate(items);
    if duplicate { return Rejected; }
    if items == [] {
      return Built(Leaf([]));
    }
    var groups := Chunk(o, EntryKey, items);
    var links := WriteLeaves(groups);
    LeafKeysExact(o, items);
    if Shrinks(o, EntryKey, items) { LeafKeys(o, items); }
    r := BuildFromLeafLinks(o, links);
  }

  lemma {:induction false} AdjacentSorted(items: seq<Entry>)
    requires WeaklySorted(EntryKey, items)
    requires forall j :: 1 <= j < |items| ==> EntryKey(items[j - 1]) != EntryKey(items[j])
    ensures Sorted(EntryKey, items)
  {
    if |items| > 1 {
      var n := |items| - 1;
      AdjacentSorted(items[..n]);
      LessTotal(items[n - 1].key, items[n].key);
      forall i | 0 <= i < n ensures Less(EntryKey(items[i]), EntryKey(items[n])) {
        if i < n - 1 {
          assert Less(EntryKey(items[..n][i]), EntryKey(items[..n][n - 1]));
          LessTransitive(items[i].key, items[n - 1].key, items[n].key);
        }
      }
    }
  }

  /** `buildFromLeafLinks`, which reads `links[0]` of whatever it is given. Where its loop would run forever the model
      says so instead. */
  method BuildFromLeafLinks(o: Options, leaves: seq<Link>) returns (r: Outcome)
    requires Accepted(o)
    ensures r.Endless? <==> RunsForever(o, leaves)
    ensures r.Endless? <==> !Shrinks(o, LinkKey, leaves)
    ensures r.Crashed? <==> leaves == []
    ensures r.Built? ==> r.tree == Root(o, 1, leaves)
    ensures !r.Rejected?
  {
    LinksLoopEnds(o, leaves);
    if !Shrinks(o, LinkKey, leaves) { return Endless; }
    var links := leaves;
    var level := 1;
    while |links| > 1
      invariant leaves != [] ==> links != []
      invariant Shrinks(o, LinkKey, links)
      invariant leaves != [] ==> Root(o, level, links) == Root(o, 1, leaves)
      invariant leaves == [] ==> links == []
    {
      UpShrinks(o, level, links);
      var groups := Chunk(o, LinkKey, links);
      links := WriteInteriors(level, groups);
      level := level + 1;
    }
    if links == [] { return Crashed; }
    return Built(links[0].child);
  }
}
