/** The shape of the tree that `Build` makes, level by level, said of the nodes themselves: how entries and links are
    divided among nodes by the bits of their keys' hashes. There is one tree of that shape for given entries. */
module TreeShape {
  import opened Bytes
  import opened Sequences
  import opened Chunking
  import opened Prolly
  import opened EditMerge
  import opened ProllyReads

  function LeafGroups(nodes: seq<Node>): seq<seq<Entry>> {
    seq(|nodes|, i requires 0 <= i < |nodes| => if nodes[i].Leaf? then nodes[i].entries else [])
  }

  function LinkGroups(nodes: seq<Node>): seq<seq<Link>> {
    seq(|nodes|, i requires 0 <= i < |nodes| => if nodes[i].Interior? then nodes[i].children else [])
  }

  function ChildrenOf(links: seq<Link>): seq<Node> { seq(|links|, i requires 0 <= i < |links| => links[i].child) }

  /** The nodes of one level, and under them all the levels below: each level's entries or links are divided among its
      nodes as the cut rule says. */
  ghost predicate LevelsShaped(o: Options, level: nat, nodes: seq<Node>) {
    if level == 0 then (forall n :: n in nodes ==> n.Leaf?) && Shaped(o, EntryKey, LeafGroups(nodes))
    else
      && (forall n :: n in nodes ==> n.Interior? && n.level == level) && Shaped(o, LinkKey, LinkGroups(nodes))
      && LevelsShaped(o, level - 1, ChildrenOf(Concat(LinkGroups(nodes))))
  }

  function LevelOf(n: Node): nat { if n.Leaf? then 0 else n.level }

  /** A tree of that shape: an empty leaf for no entries, and a root with one child is not made. */
  ghost predicate Canonical(o: Options, root: Node) {
    root == Leaf([]) || (LevelsShaped(o, LevelOf(root), [root]) && (root.Interior? ==> root.level > 0 && |root.children| > 1))
  }

  /** The nodes that links of one level lead to. */
  lemma UpShaped(o: Options, level: nat, links: seq<Link>)
    requires Accepted(o) && LevelsShaped(o, level, ChildrenOf(links))
    ensures LevelsShaped(o, level + 1, ChildrenOf(Up(o, level + 1, links)))
  {
    var groups := Chunks(o, LinkKey, links);
    ChunksShaped(o, LinkKey, groups, links);
    var nodes := ChildrenOf(Up(o, level + 1, links));
    assert LinkGroups(nodes) == groups;
  }

  /** The links of a level, of that shape down to the leaves, and if there is one it leads to the root. */
  ghost predicate LevelMade(o: Options, level: nat, links: seq<Link>)
    requires Accepted(o)
  {
    && links != [] && Shrinks(o, LinkKey, links) && LevelsShaped(o, level, ChildrenOf(links))
    && (|links| == 1 ==> Canonical(o, links[0].child))
  }

  /** One pass of the level loop. */
  lemma PassMade(o: Options, level: nat, links: seq<Link>)
    requires Accepted(o) && |links| > 1 && LevelMade(o, level, links)
    ensures |Up(o, level + 1, links)| < |links| && LevelMade(o, level + 1, Up(o, level + 1, links))
    ensures Root(o, level + 1, links) == Root(o, level + 2, Up(o, level + 1, links))
  {
    UpShrinks(o, level + 1, links);
    UpShaped(o, level, links);
    if |Up(o, level + 1, links)| == 1 { OneAbove(o, level + 1, links); }
  }

  lemma {:induction false} RootShaped(o: Options, level: nat, links: seq<Link>)
    requires Accepted(o) && LevelMade(o, level, links)
    ensures Canonical(o, Root(o, level + 1, links))
    decreases |links|
  {
    if |links| > 1 {
      PassMade(o, level, links);
      RootShaped(o, level + 1, Up(o, level + 1, links));
    }
  }

  lemma OneAbove(o: Options, level: nat, links: seq<Link>)
    requires Accepted(o) && level > 0 && |links| > 1 && |Up(o, level, links)| == 1
    requires LevelsShaped(o, level, ChildrenOf(Up(o, level, links)))
    ensures Canonical(o, Up(o, level, links)[0].child)
  {
    var groups := Chunks(o, LinkKey, links);
    ChunksShaped(o, LinkKey, groups, links);
    assert Concat(groups) == groups[0] + Concat(groups[1..]) && groups[1..] == [];
    assert ChildrenOf(Up(o, level, links)) == [Up(o, level, links)[0].child];
  }

  /** The tree of sorted entries has that shape on every level. */
  lemma TreeShaped(o: Options, entries: seq<Entry>)
    requires Accepted(o) && Shrinks(o, EntryKey, entries)
    ensures Canonical(o, TreeOf(o, entries))
  {
    if entries != [] {
      LeafKeys(o, entries);
      var groups := Chunks(o, EntryKey, entries);
      ChunksShaped(o, EntryKey, groups, entries);
      var links := LeafLinks(groups);
      assert LeafGroups(ChildrenOf(links)) == groups;
      if |links| == 1 { assert ChildrenOf(links) == [links[0].child]; }
      RootShaped(o, 0, links);
    }
  }

  // There is no other.

  lemma {:induction false} LinkedOne(links: seq<Link>, i: nat)
    requires AllWellLinked(links) && i < |links|
    ensures var entries := EntriesOf(links[i].child);
            && WellLinked(links[i].child) && entries != []
            && links[i].maxKey == entries[|entries| - 1].key && links[i].count == |entries|
  {
    if i > 0 { LinkedOne(links[1..], i - 1); }
  }

  /** Leaves' entries, one leaf after the other. */
  lemma {:induction false} LeavesUnder(links: seq<Link>)
    requires forall i :: 0 <= i < |links| ==> links[i].child.Leaf?
    ensures EntriesUnder(links) == Concat(LeafGroups(ChildrenOf(links)))
  {
    if links != [] {
      LeavesUnder(links[1..]);
      assert LeafGroups(ChildrenOf(links))[1..] == LeafGroups(ChildrenOf(links[1..]));
    }
  }

  /** Interior nodes' links, one node after the other: as well linked as the links to the nodes, over the same entries, and
      no fewer. */
  lemma {:induction false} LinksUnder(links: seq<Link>)
    requires AllWellLinked(links) && forall i :: 0 <= i < |links| ==> links[i].child.Interior?
    ensures var kids := Concat(LinkGroups(ChildrenOf(links)));
            AllWellLinked(kids) && EntriesUnder(kids) == EntriesUnder(links) && |kids| >= |links|
  {
    if links != [] {
      LinksUnder(links[1..]);
      var groups := LinkGroups(ChildrenOf(links));
      assert groups[1..] == LinkGroups(ChildrenOf(links[1..]));
      LinkedAppend(groups[0], Concat(groups[1..]));
      UnderAppend(groups[0], Concat(groups[1..]));
    }
  }

  /** Well linked links say of their nodes what `Build` would. */
  lemma {:induction false} LeafLinksAre(links: seq<Link>)
    requires AllWellLinked(links) && forall i :: 0 <= i < |links| ==> links[i].child.Leaf?
    ensures links == LeafLinks(LeafGroups(ChildrenOf(links)))
  {
    var groups := LeafGroups(ChildrenOf(links));
    forall i | 0 <= i < |links| ensures links[i] == LeafLink(groups[i]) { LinkedOne(links, i); }
  }

  lemma {:induction false} InteriorLinksAre(level: nat, links: seq<Link>)
    requires AllWellLinked(links) && forall i :: 0 <= i < |links| ==> links[i].child.Interior? && links[i].child.level == level
    ensures links == InteriorLinks(level, LinkGroups(ChildrenOf(links)))
  {
    var groups := LinkGroups(ChildrenOf(links));
    forall i | 0 <= i < |links| ensures links[i] == InteriorLink(level, groups[i]) {
      LinkedOne(links, i);
      GroupSummary(groups[i]);
    }
  }

  lemma KindsOf(o: Options, level: nat, links: seq<Link>)
    requires LevelsShaped(o, level, ChildrenOf(links))
    ensures forall i :: 0 <= i < |links| ==> if level == 0 then links[i].child.Leaf? else links[i].child.Interior? && links[i].child.level == level
  {
    forall i | 0 <= i < |links| ensures if level == 0 then links[i].child.Leaf? else links[i].child.Interior? && links[i].child.level == level {
      assert ChildrenOf(links)[i] in ChildrenOf(links);
    }
  }

  lemma LeavesReached(o: Options, links: seq<Link>, entries: seq<Entry>)
    requires Accepted(o) && AllWellLinked(links) && EntriesUnder(links) == entries && LevelsShaped(o, 0, ChildrenOf(links))
    ensures links == LeafLinks(Chunks(o, EntryKey, entries))
  {
    KindsOf(o, 0, links);
    LeavesUnder(links);
    LeafLinksAre(links);
    ChunksShaped(o, EntryKey, LeafGroups(ChildrenOf(links)), entries);
  }

  lemma BottomReached(o: Options, links: seq<Link>, entries: seq<Entry>)
    requires Accepted(o) && entries != [] && Shrinks(o, EntryKey, entries)
    requires AllWellLinked(links) && EntriesUnder(links) == entries && LevelsShaped(o, 0, ChildrenOf(links))
    ensures links != [] && Shrinks(o, LinkKey, links) && TreeOf(o, entries) == Root(o, 1, links)
  {
    LeafKeys(o, entries);
    LeavesReached(o, links, entries);
  }

  /** The well linked links of a level over some entries, of that shape down to the leaves, and not above a single link. */
  ghost predicate LevelOver(o: Options, level: nat, links: seq<Link>, entries: seq<Entry>) {
    && links != [] && AllWellLinked(links) && EntriesUnder(links) == entries && LevelsShaped(o, level, ChildrenOf(links))
    && (level > 0 ==> |Concat(LinkGroups(ChildrenOf(links)))| >= 2)
  }

  /** Links of an interior level are those of one pass over the links below. */
  lemma PassReached(o: Options, level: nat, links: seq<Link>, entries: seq<Entry>)
    requires Accepted(o) && level > 0 && LevelOver(o, level, links, entries)
    ensures var kids := Concat(LinkGroups(ChildrenOf(links)));
            links == Up(o, level, kids) && |kids| >= 2 && LevelOver(o, level - 1, kids, entries)
  {
    var kids := Concat(LinkGroups(ChildrenOf(links)));
    KindsOf(o, level, links);
    LinksUnder(links);
    InteriorLinksAre(level, links);
    ChunksShaped(o, LinkKey, LinkGroups(ChildrenOf(links)), kids);
    if level > 1 {
      KindsOf(o, level - 1, kids);
      LinksUnder(kids);
    }
  }

  /** The level loop over the entries' leaves comes to these links. */
  ghost predicate Reached(o: Options, level: nat, links: seq<Link>, entries: seq<Entry>)
    requires Accepted(o) && Shrinks(o, EntryKey, entries)
  {
    links != [] && Shrinks(o, LinkKey, links) && TreeOf(o, entries) == Root(o, level, links)
  }

  lemma OnePass(o: Options, level: nat, links: seq<Link>, entries: seq<Entry>)
    requires Accepted(o) && Shrinks(o, EntryKey, entries) && |links| >= 2 && Reached(o, level, links, entries)
    ensures Reached(o, level + 1, Up(o, level, links), entries)
  {
    UpShrinks(o, level, links);
  }

  /** Links of a level of that shape are the ones the level loop comes to. */
  lemma {:induction false} LevelReached(o: Options, level: nat, links: seq<Link>, entries: seq<Entry>)
    requires Accepted(o) && entries != [] && Shrinks(o, EntryKey, entries) && LevelOver(o, level, links, entries)
    ensures Reached(o, level + 1, links, entries)
    decreases level
  {
    if level == 0 {
      BottomReached(o, links, entries);
    } else {
      var kids := Concat(LinkGroups(ChildrenOf(links)));
      PassReached(o, level, links, entries);
      LevelReached(o, level - 1, kids, entries);
      OnePass(o, level, kids, entries);
    }
  }

  /** The tree of given entries is the one well linked tree of that shape that holds them. */
  lemma CanonicalExactly(o: Options, root: Node, entries: seq<Entry>)
    requires Accepted(o) && Shrinks(o, EntryKey, entries)
    ensures root == TreeOf(o, entries) <==> EntriesOf(root) == entries && WellLinked(root) && Canonical(o, root)
  {
    TreeHolds(o, entries);
    TreeShaped(o, entries);
    if EntriesOf(root) == entries && WellLinked(root) && Canonical(o, root) && root != Leaf([]) {
      RootEntries(o, root);
      var link := Link(entries[|entries| - 1].key, |entries|, root);
      var links := [link];
      assert links[1..] == [] && ChildrenOf(links) == [root];
      assert EntriesUnder(links) == entries + EntriesUnder(links[1..]) == entries;
      if root.Interior? {
        var groups := LinkGroups([root]);
        assert groups[1..] == [] && Concat(groups) == root.children + Concat(groups[1..]) == root.children;
      }
      LevelReached(o, LevelOf(root), links, entries);
    }
  }

  lemma RootEntries(o: Options, root: Node)
    requires Accepted(o) && WellLinked(root) && Canonical(o, root) && root != Leaf([])
    ensures EntriesOf(root) != []
  {
    match root
    case Leaf(es) =>
      assert LeafGroups([root])[0] == es;
    case Interior(_, children) => GroupSummary(children);
  }
}
