/** Reads of a canonical tree (`Get`, `Count`, the forward iterator of `tree.go` and the one of `reverse.go`)
    agree with the sorted entry list the tree was made from. */
module ProllyReads {
  import opened Bytes
  import opened Sorting
  import opened Chunking
  import opened Prolly
  import opened Overlays
  import opened EditMerge

  function EntriesOf(n: Node): seq<Entry>
    decreases n, 1
  {
    match n
    case Leaf(entries) => entries
    case Interior(_, children) => EntriesUnder(children)
  }

  function EntriesUnder(links: seq<Link>): seq<Entry>
    decreases links, 0
  {
    if links == [] then [] else EntriesOf(links[0].child) + EntriesUnder(links[1..])
  }

  /** Every link tells the truth about its child, and no child is empty. */
  ghost predicate WellLinked(n: Node)
    decreases n, 1
  {
    n.Interior? ==> n.children != [] && AllWellLinked(n.children)
  }

  ghost predicate AllWellLinked(links: seq<Link>)
    decreases links, 0
  {
    links == [] || (
      var entries := EntriesOf(links[0].child);
      && WellLinked(links[0].child) && entries != []
      && links[0].maxKey == entries[|entries| - 1].key && links[0].count == |entries|
      && AllWellLinked(links[1..]))
  }

  lemma {:induction false} UnderAppend(a: seq<Link>, b: seq<Link>)
    ensures EntriesUnder(a + b) == EntriesUnder(a) + EntriesUnder(b)
  {
    if a == [] {
      assert a + b == b;
    } else {
      assert (a + b)[1..] == a[1..] + b;
      UnderAppend(a[1..], b);
    }
  }

  lemma {:induction false} LinkedAppend(a: seq<Link>, b: seq<Link>)
    ensures AllWellLinked(a + b) <==> AllWellLinked(a) && AllWellLinked(b)
  {
    if a == [] {
      assert a + b == b;
    } else {
      assert (a + b)[1..] == a[1..] + b;
      LinkedAppend(a[1..], b);
    }
  }

  // Trees that `Build` makes are well linked and hold their entries.

  lemma {:induction false} LeafLinksHold(groups: seq<seq<Entry>>)
    requires forall i :: 0 <= i < |groups| ==> groups[i] != []
    ensures EntriesUnder(LeafLinks(groups)) == Concat(groups) && AllWellLinked(LeafLinks(groups))
  {
    if groups != [] {
      LeafLinksHold(groups[1..]);
      assert LeafLinks(groups)[1..] == LeafLinks(groups[1..]);
    }
  }

  lemma {:induction false} GroupSummary(links: seq<Link>)
    requires AllWellLinked(links) && links != []
    ensures EntriesUnder(links) != [] && SumCounts(links) == |EntriesUnder(links)|
    ensures links[|links| - 1].maxKey == EntriesUnder(links)[|EntriesUnder(links)| - 1].key
  {
    var rest := links[1..];
    if rest == [] {
      assert EntriesUnder(rest) == [] && SumCounts(rest) == 0;
    } else {
      GroupSummary(rest);
      assert links[|links| - 1] == rest[|rest| - 1];
    }
  }

  lemma {:induction false} InteriorLinksHold(level: nat, groups: seq<seq<Link>>)
    requires forall i :: 0 <= i < |groups| ==> groups[i] != []
    requires AllWellLinked(Concat(groups))
    ensures EntriesUnder(InteriorLinks(level, groups)) == EntriesUnder(Concat(groups))
    ensures AllWellLinked(InteriorLinks(level, groups))
  {
    if groups != [] {
      UnderAppend(groups[0], Concat(groups[1..]));
      LinkedAppend(groups[0], Concat(groups[1..]));
      GroupSummary(groups[0]);
      InteriorLinksHold(level, groups[1..]);
      assert InteriorLinks(level, groups)[1..] == InteriorLinks(level, groups[1..]);
    }
  }

  lemma {:induction false} RootHolds(o: Options, level: nat, links: seq<Link>)
    requires Accepted(o) && links != [] && Shrinks(o, LinkKey, links) && AllWellLinked(links)
    ensures EntriesOf(Root(o, level, links)) == EntriesUnder(links) && WellLinked(Root(o, level, links))
    decreases |links|
  {
    if |links| == 1 {
      assert links[1..] == [];
    } else {
      UpShrinks(o, level, links);
      ChunksAreChunking(o, LinkKey, links);
      InteriorLinksHold(level, Chunks(o, LinkKey, links));
      RootHolds(o, level + 1, Up(o, level, links));
    }
  }

  lemma TreeHolds(o: Options, entries: seq<Entry>)
    requires Accepted(o) && Shrinks(o, EntryKey, entries)
    ensures EntriesOf(TreeOf(o, entries)) == entries && WellLinked(TreeOf(o, entries))
  {
    if entries != [] {
      LeafKeys(o, entries);
      ChunksAreChunking(o, EntryKey, entries);
      LeafLinksHold(Chunks(o, EntryKey, entries));
      RootHolds(o, 1, LeafLinks(Chunks(o, EntryKey, entries)));
    }
  }

  /** `Count`, read off the root alone. */
  method Count(root: Node) returns (count: nat)
    requires WellLinked(root)
    ensures count == |EntriesOf(root)|
  {
    match root
    case Leaf(entries) => count := |entries|;
    case Interior(_, children) =>
      count := 0;
      for i := 0 to |children|
        invariant count + SumCounts(children[i..]) == SumCounts(children)
      {
        count := count + children[i].count;
      }
      GroupSummary(children);
  }

  // Searching a node.

  lemma UnderOne(l: Link)
    ensures EntriesUnder([l]) == EntriesOf(l.child)
    ensures AllWellLinked([l]) ==> WellLinked(l.child) && EntriesOf(l.child) != []
                                   && l.maxKey == EntriesOf(l.child)[|EntriesOf(l.child)| - 1].key
  {
    assert [l][1..] == [];
  }

  /** The entries before, in and after one child. */
  lemma SplitAt(links: seq<Link>, i: nat)
    requires AllWellLinked(links) && i < |links|
    ensures AllWellLinked(links[..i]) && AllWellLinked(links[i + 1..]) && WellLinked(links[i].child)
    ensures EntriesUnder(links) == EntriesUnder(links[..i]) + EntriesOf(links[i].child) + EntriesUnder(links[i + 1..])
    ensures EntriesOf(links[i].child) != []
    ensures links[i].maxKey == EntriesOf(links[i].child)[|EntriesOf(links[i].child)| - 1].key
  {
    var one, rest := [links[i]], links[i + 1..];
    assert links == links[..i] + (one + rest);
    UnderAppend(links[..i], one + rest);
    UnderAppend(one, rest);
    LinkedAppend(links[..i], one + rest);
    LinkedAppend(one, rest);
    UnderOne(links[i]);
  }

  lemma ExtendBy(links: seq<Link>, i: nat)
    requires i < |links|
    ensures EntriesUnder(links[..i + 1]) == EntriesUnder(links[..i]) + EntriesOf(links[i].child)
    ensures EntriesUnder(links[i..]) == EntriesOf(links[i].child) + EntriesUnder(links[i + 1..])
  {
    assert links[..i + 1] == links[..i] + [links[i]] && links[i..] == [links[i]] + links[i + 1..];
    UnderAppend(links[..i], [links[i]]);
    UnderAppend([links[i]], links[i + 1..]);
    UnderOne(links[i]);
  }

  lemma {:induction false} LinkKeysSorted(links: seq<Link>)
    requires AllWellLinked(links) && Sorted(EntryKey, EntriesUnder(links))
    ensures Sorted(LinkKey, links)
  {
    forall i, j | 0 <= i < j < |links| ensures Less(LinkKey(links[i]), LinkKey(links[j])) {
      SplitAt(links, j);
      SplitAt(links[..j], i);
      assert links[..j][i] == links[i];
      var a, b := |EntriesUnder(links[..j][..i])| + |EntriesOf(links[i].child)| - 1,
                  |EntriesUnder(links[..j])| + |EntriesOf(links[j].child)| - 1;
      assert Less(EntryKey(EntriesUnder(links)[a]), EntryKey(EntriesUnder(links)[b]));
    }
  }

  /** The first position whose key is at least `k`. */
  function From(entries: seq<Entry>, k: Key): (i: nat)
    requires Sorted(EntryKey, entries)
    ensures i <= |entries|
  {
    SortedIsWeak(EntryKey, entries);
    LowerBound(EntryKey, entries, k)
  }

  lemma SortedSlice(entries: seq<Entry>, i: nat, j: nat)
    requires Sorted(EntryKey, entries) && i <= j <= |entries|
    ensures Sorted(EntryKey, entries[i..j])
  {
  }

  /** In a list cut in three, a bound between the first part and the end of the second is found there. */
  lemma FromMiddle(before: seq<Entry>, middle: seq<Entry>, after: seq<Entry>, k: Key)
    requires Sorted(EntryKey, before + middle + after) && middle != []
    requires before != [] ==> Less(before[|before| - 1].key, k)
    requires !Less(middle[|middle| - 1].key, k)
    ensures Sorted(EntryKey, middle)
    ensures From(before + middle + after, k) == |before| + From(middle, k) && From(middle, k) < |middle|
  {
    var all := before + middle + after;
    SortedSlice(all, |before|, |before| + |middle|);
    assert middle == all[|before|..|before| + |middle|];
    var at := From(middle, k);
    SortedIsWeak(EntryKey, middle);
    var top := middle[|middle| - 1];
    assert at == |middle| ==> Less(EntryKey(top), k);
    assert !Less(EntryKey(middle[at]), k);
    assert at > 0 ==> Less(EntryKey(middle[at - 1]), k);
    LowerBoundIs(EntryKey, all, k, |before| + at);
  }

  /** The one child that can hold `k`: everything before it is smaller, and its own largest key is not. */
  lemma ChildHolds(links: seq<Link>, k: Key, i: nat)
    requires AllWellLinked(links) && Sorted(EntryKey, EntriesUnder(links)) && i < |links|
    requires i > 0 ==> Less(links[i - 1].maxKey, k)
    requires !Less(links[i].maxKey, k)
    ensures Sorted(EntryKey, EntriesOf(links[i].child))
    ensures From(EntriesUnder(links), k) == |EntriesUnder(links[..i])| + From(EntriesOf(links[i].child), k)
    ensures From(EntriesOf(links[i].child), k) < |EntriesOf(links[i].child)|
  {
    SplitAt(links, i);
    if i > 0 { GroupSummary(links[..i]); }
    FromMiddle(EntriesUnder(links[..i]), EntriesOf(links[i].child), EntriesUnder(links[i + 1..]), k);
  }

  lemma NoChildHolds(links: seq<Link>, k: Key)
    requires AllWellLinked(links) && links != [] && Sorted(EntryKey, EntriesUnder(links))
    requires Less(links[|links| - 1].maxKey, k)
    ensures From(EntriesUnder(links), k) == |EntriesUnder(links)|
  {
    GroupSummary(links);
    LowerBoundIs(EntryKey, EntriesUnder(links), k, |EntriesUnder(links)|);
  }

  /** What a point read of the entry list gives. */
  ghost function Lookup(entries: seq<Entry>, k: Key): Option<seq<byte>> {
    if k in Contents(entries) then Some(Contents(entries)[k]) else None
  }

  lemma LookupAt(entries: seq<Entry>, k: Key)
    requires Sorted(EntryKey, entries)
    ensures var i := From(entries, k);
            Lookup(entries, k) == if i < |entries| && entries[i].key == k then Some(entries[i].value) else None
  {
    var i := From(entries, k);
    LastOfSorted(EntryKey, entries);
    SortedIsWeak(EntryKey, entries);
    if i < |entries| && entries[i].key == k {
      assert EntryKey(entries[i]) == k;
    } else {
      forall j | 0 <= j < |entries| ensures EntryKey(entries[j]) != k {
        LessIrreflexive(k);
        if j > i { LessTotal(entries[i].key, k); assert Less(EntryKey(entries[i]), EntryKey(entries[j])); }
      }
      LastOfLacks(EntryKey, entries, k);
    }
  }

  /** `sort.Search` over a node's children. */
  method FindChild(children: seq<Link>, k: Key) returns (i: nat)
    requires AllWellLinked(children) && children != [] && Sorted(EntryKey, EntriesUnder(children))
    ensures i <= |children|
    ensures i == |children| ==> From(EntriesUnder(children), k) == |EntriesUnder(children)|
    ensures i < |children| ==>
              && WellLinked(children[i].child) && Sorted(EntryKey, EntriesOf(children[i].child))
              && From(EntriesUnder(children), k) == |EntriesUnder(children[..i])| + From(EntriesOf(children[i].child), k)
              && From(EntriesOf(children[i].child), k) < |EntriesOf(children[i].child)|
  {
    LinkKeysSorted(children);
    SortedIsWeak(LinkKey, children);
    i := LowerBound(LinkKey, children, k);
    if i == |children| {
      assert Less(LinkKey(children[i - 1]), k);
      NoChildHolds(children, k);
    } else {
      assert i > 0 ==> Less(LinkKey(children[i - 1]), k);
      assert !Less(LinkKey(children[i]), k);
      ChildHolds(children, k, i);
      SplitAt(children, i);
    }
  }

  lemma ChildLookup(links: seq<Link>, k: Key, i: nat)
    requires AllWellLinked(links) && Sorted(EntryKey, EntriesUnder(links)) && i < |links|
    requires Sorted(EntryKey, EntriesOf(links[i].child))
    requires From(EntriesUnder(links), k) == |EntriesUnder(links[..i])| + From(EntriesOf(links[i].child), k)
    requires From(EntriesOf(links[i].child), k) < |EntriesOf(links[i].child)|
    ensures Lookup(EntriesUnder(links), k) == Lookup(EntriesOf(links[i].child), k)
  {
    SplitAt(links, i);
    LookupAt(EntriesUnder(links), k);
    LookupAt(EntriesOf(links[i].child), k);
  }

  /** `Get`: one binary search per level. */
  method Get(root: Node, k: Key) returns (r: Option<seq<byte>>)
    requires WellLinked(root) && Sorted(EntryKey, EntriesOf(root))
    ensures r == Lookup(EntriesOf(root), k)
  {
    var n := root;
    while n.Interior?
      invariant WellLinked(n) && Sorted(EntryKey, EntriesOf(n))
      invariant Lookup(EntriesOf(root), k) == Lookup(EntriesOf(n), k)
      decreases n
    {
      var i := FindChild(n.children, k);
      if i == |n.children| {
        LookupAt(EntriesOf(n), k);
        return None;
      }
      ChildLookup(n.children, k, i);
      n := n.children[i].child;
    }
    LookupAt(n.entries, k);
    SortedIsWeak(EntryKey, n.entries);
    var i := LowerBound(EntryKey, n.entries, k);
    if i == |n.entries| || n.entries[i].key != k { return None; }
    return Some(n.entries[i].value);
  }
}
