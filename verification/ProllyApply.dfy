/** `Apply` of `common/prolly/tree.go`: incremental edits give, node for node, the tree `Build` would. */
module ProllyApply {
  import opened Bytes
  import opened Sequences
  import opened Sorting
  import opened Chunking
  import opened Prolly
  import opened Overlays
  import opened EditMerge

  // Reading the leaf links back from a tree.

  /** `leafLinks`, with its shortcut for level 1. */
  function CollectLeaves(n: Node): seq<Link>
    decreases n, 1
  {
    match n
    case Leaf(entries) => [LeafLink(entries)]
    case Interior(level, children) => if level == 1 then children else CollectAll(children)
  }

  function CollectAll(links: seq<Link>): seq<Link>
    decreases links, 0
  {
    if links == [] then [] else CollectLeaves(links[0].child) + CollectAll(links[1..])
  }

  lemma {:induction false} CollectAppend(a: seq<Link>, b: seq<Link>)
    ensures CollectAll(a + b) == CollectAll(a) + CollectAll(b)
  {
    if a == [] {
      assert a + b == b;
    } else {
      CollectAppend(a[1..], b);
      HeadOfConcat(a, b);
      Regroup(CollectLeaves(a[0].child), CollectAll(a[1..]), CollectAll(b));
    }
  }

  ghost predicate AreLeafLinks(links: seq<Link>) {
    forall i :: 0 <= i < |links| ==> links[i].child.Leaf? && links[i] == LeafLink(links[i].child.entries)
  }

  lemma {:induction false} CollectLeafLinks(links: seq<Link>)
    requires AreLeafLinks(links)
    ensures CollectAll(links) == links
  {
    if links != [] {
      CollectLeafLinks(links[1..]);
      assert links == [links[0]] + links[1..];
    }
  }

  lemma {:induction false} CollectInterior(level: nat, groups: seq<seq<Link>>)
    requires level == 1 ==> AreLeafLinks(Concat(groups))
    ensures CollectAll(InteriorLinks(level, groups)) == CollectAll(Concat(groups))
  {
    if groups != [] {
      var rest := Concat(groups[1..]);
      CollectAppend(groups[0], rest);
      if level == 1 {
        forall i | 0 <= i < |groups[0]| ensures groups[0][i] == Concat(groups)[i] {}
        forall i | 0 <= i < |rest| ensures rest[i] == Concat(groups)[|groups[0]| + i] {}
        CollectLeafLinks(groups[0]);
      }
      CollectInterior(level, groups[1..]);
      assert InteriorLinks(level, groups)[1..] == InteriorLinks(level, groups[1..]);
    }
  }

  lemma CollectUp(o: Options, level: nat, links: seq<Link>)
    requires Accepted(o) && (level == 1 ==> AreLeafLinks(links))
    ensures CollectAll(Up(o, level, links)) == CollectAll(links)
  {
    ChunksAreChunking(o, LinkKey, links);
    CollectInterior(level, Chunks(o, LinkKey, links));
  }

  lemma {:induction false} CollectRoot(o: Options, level: nat, links: seq<Link>)
    requires Accepted(o) && links != [] && Shrinks(o, LinkKey, links) && level >= 1
    requires level == 1 ==> AreLeafLinks(links)
    ensures CollectLeaves(Root(o, level, links)) == CollectAll(links)
    decreases |links|
  {
    if |links| == 1 {
      assert CollectAll(links[1..]) == [];
    } else {
      UpShrinks(o, level, links);
      CollectUp(o, level, links);
      CollectRoot(o, level + 1, Up(o, level, links));
    }
  }

  /** The leaves of a tree: its chunks, or one empty leaf. */
  function LeafGroups(o: Options, entries: seq<Entry>): seq<seq<Entry>> {
    if entries == [] then [[]] else Chunks(o, EntryKey, entries)
  }

  lemma LeavesOfTree(o: Options, entries: seq<Entry>)
    requires Accepted(o) && Shrinks(o, EntryKey, entries)
    ensures CollectLeaves(TreeOf(o, entries)) == LeafLinks(LeafGroups(o, entries))
    ensures LeafGroups(o, entries) != [] && Concat(LeafGroups(o, entries)) == entries
  {
    if entries == [] {
      assert LeafLinks([[]]) == [LeafLink([])];
      assert Concat<Entry>([[]]) == [];
    } else {
      LeafKeys(o, entries);
      ChunksAreChunking(o, EntryKey, entries);
      var links := LeafLinks(Chunks(o, EntryKey, entries));
      CollectRoot(o, 1, links);
      CollectLeafLinks(links);
    }
  }

  // Where the first edit lands.

  lemma LeafKeysSorted(o: Options, entries: seq<Entry>)
    requires Accepted(o) && Sorted(EntryKey, entries)
    ensures Sorted(LinkKey, LeafLinks(LeafGroups(o, entries)))
  {
    if entries != [] {
      ChunksAreChunking(o, EntryKey, entries);
      var gs := Chunks(o, EntryKey, entries);
      var links := LeafLinks(gs);
      forall i, j | 0 <= i < j < |links| ensures Less(LinkKey(links[i]), LinkKey(links[j])) {
        var a := GroupEnd(gs, i);
        var b := GroupEnd(gs, j);
        ConcatPrefixGrows(gs, i + 1, j + 1);
        assert Less(EntryKey(entries[a]), EntryKey(entries[b]));
      }
    }
  }

  lemma ConcatPrefixGrows<T>(groups: seq<seq<T>>, i: nat, j: nat)
    requires i < j <= |groups| && forall k :: 0 <= k < |groups| ==> groups[k] != []
    ensures |Concat(groups[..i])| < |Concat(groups[..j])|
  {
    ConcatSplit(groups[..j], i);
    assert groups[..j][..i] == groups[..i];
    assert groups[..j][i..][0] != [];
  }

  lemma SkippedBelow(o: Options, entries: seq<Entry>, start: nat, k: Key)
    requires Accepted(o) && Sorted(EntryKey, entries) && start < |LeafGroups(o, entries)|
    requires forall i :: 0 <= i < start ==> Less(LinkKey(LeafLinks(LeafGroups(o, entries))[i]), k)
    ensures forall i :: 0 <= i < |Concat(LeafGroups(o, entries)[..start])|
              ==> Less(Concat(LeafGroups(o, entries)[..start])[i].key, k)
  {
    if start > 0 {
      ChunksAreChunking(o, EntryKey, entries);
      var gs := Chunks(o, EntryKey, entries);
      var at := GroupEnd(gs, start - 1);
      ConcatSplit(gs, start);
      assert LinkKey(LeafLinks(gs)[start - 1]) == EntryKey(entries[at]);
      forall i | 0 <= i < |Concat(gs[..start])| ensures Less(Concat(gs[..start])[i].key, k) {
        assert Concat(gs[..start])[i] == entries[i];
        if i < at { LessTransitive(EntryKey(entries[i]), EntryKey(entries[at]), k); }
      }
    }
  }

  lemma MergeHead(x: Entry, rest: seq<Entry>, edits: seq<Edit>)
    requires edits != [] ==> Less(x.key, edits[0].key)
    ensures Merge([x] + rest, edits) == [x] + Merge(rest, edits)
  {
    var all := [x] + rest;
    assert all[1..] == rest;
    if edits != [] { LessAsymmetric(x.key, edits[0].key); }
  }

  lemma {:induction false} MergeSkip(skipped: seq<Entry>, rest: seq<Entry>, edits: seq<Edit>)
    requires edits != [] && forall i :: 0 <= i < |skipped| ==> Less(skipped[i].key, edits[0].key)
    ensures Merge(skipped + rest, edits) == skipped + Merge(rest, edits)
  {
    if skipped == [] {
      assert skipped + rest == rest;
    } else {
      var tail := skipped[1..];
      MergeSkip(tail, rest, edits);
      MergeHead(skipped[0], tail + rest, edits);
      HeadOfConcat(skipped, rest);
      HeadOfConcat(skipped, Merge(rest, edits));
    }
  }

  /** `leafChunker`: it writes a leaf link for every group it closes behind the links it was given. */
  class LeafChunker {
    const o: Options
    var entries: seq<Entry>
    var links: seq<Link>
    ghost var fed: seq<Entry>
    ghost var groups: seq<seq<Entry>>

    /** The chunker is where streaming `fed` into a fresh one would be. */
    ghost predicate Valid()
      reads this
    {
      Run(o, EntryKey, fed) == Chunker(groups, entries) && links == LeafLinks(groups)
    }

    constructor (o: Options, reused: seq<Link>, ghost groups: seq<seq<Entry>>)
      requires Run(o, EntryKey, Concat(groups)) == Chunker(groups, []) && reused == LeafLinks(groups)
      ensures Valid() && this.o == o && fed == Concat(groups)
    {
      this.o := o;
      entries, links := [], reused;
      this.fed, this.groups := Concat(groups), groups;
    }

    method Add(e: Entry)
      requires Valid()
      modifies this
      ensures Valid() && fed == old(fed) + [e]
    {
      entries := entries + [e];
      fed := fed + [e];
      assert fed[..|fed| - 1] == old(fed);
      if ShouldCut(o, |entries|, e.key) {
        FlushGroup();
      }
    }

    /** `flush`. */
    method FlushGroup()
      requires links == LeafLinks(groups)
      modifies this
      ensures fed == old(fed) && entries == []
      ensures groups == Flush(Chunker(old(groups), old(entries))) && links == LeafLinks(groups)
    {
      if entries == [] { return; }
      var group := entries;
      entries := [];
      groups := groups + [group];
      links := links + [LeafLink(group)];
      assert links == LeafLinks(groups);
    }
  }

  // The edit walk.

  /** Every edit before `at` has a key up to `k`, every later one a key above it. */
  ghost predicate ConsumedTo(edits: seq<Edit>, at: nat, k: Key) {
    && at <= |edits|
    && (at > 0 ==> !Less(k, edits[at - 1].key))
    && (at < |edits| ==> Less(k, edits[at].key))
  }

  /** The edits that precede one entry. */
  method MergeBefore(c: LeafChunker, e: Entry, edits: seq<Edit>, at: nat, ghost rest: seq<Entry>) returns (next: nat)
    requires c.Valid() && at <= |edits|
    requires at > 0 ==> !Less(e.key, edits[at - 1].key)
    modifies c
    ensures c.Valid() && at <= next <= |edits|
    ensures next > 0 ==> !Less(e.key, edits[next - 1].key)
    ensures next < |edits| ==> !Less(edits[next].key, e.key)
    ensures c.fed + Merge([e] + rest, edits[next..]) == old(c.fed) + Merge([e] + rest, edits[at..])
  {
    next := at;
    ghost var whole := c.fed + Merge([e] + rest, edits[at..]);
    while next < |edits| && Less(edits[next].key, e.key)
      invariant at <= next <= |edits| && c.Valid()
      invariant next > 0 ==> !Less(e.key, edits[next - 1].key)
      invariant c.fed + Merge([e] + rest, edits[next..]) == whole
    {
      EditStep(c.fed, edits, next, e, rest);
      MergeEdit(c, edits[next]);
      LessAsymmetric(edits[next].key, e.key);
      next := next + 1;
    }
  }

  /** One edit: a put is fed, a delete is not. */
  method MergeEdit(c: LeafChunker, e: Edit)
    requires c.Valid()
    modifies c
    ensures c.Valid() && c.fed == if e.delete then old(c.fed) else old(c.fed) + [Entry(e.key, e.value)]
  {
    if !e.delete { c.Add(Entry(e.key, e.value)); }
  }

  /** One stored entry: the edits before it, then the entry or the edit that replaces it. */
  method MergeEntry(c: LeafChunker, e: Entry, edits: seq<Edit>, at: nat, ghost rest: seq<Entry>) returns (next: nat)
    requires c.Valid() && at <= |edits| && Sorted(EditKey, edits)
    requires at > 0 ==> !Less(e.key, edits[at - 1].key)
    modifies c
    ensures c.Valid() && ConsumedTo(edits, next, e.key)
    ensures c.fed + Merge(rest, edits[next..]) == old(c.fed) + Merge([e] + rest, edits[at..])
  {
    next := MergeBefore(c, e, edits, at, rest);
    if next < |edits| && edits[next].key == e.key {
      EditStep(c.fed, edits, next, e, rest);
      MergeEdit(c, edits[next]);
      LessIrreflexive(e.key);
      assert next + 1 < |edits| ==> Less(EditKey(edits[next]), EditKey(edits[next + 1]));
      next := next + 1;
    } else {
      if next < |edits| { LessTotal(edits[next].key, e.key); }
      EntryStep(c.fed, edits, next, e, rest);
      c.Add(e);
    }
  }

  /** One unfolding of `Merge` behind what is already emitted: the next edit comes first ... */
  lemma EditStep(fed: seq<Entry>, edits: seq<Edit>, at: nat, x: Entry, rest: seq<Entry>)
    requires at < |edits|
    ensures var e := edits[at];
            var fed' := if e.delete then fed else fed + [Entry(e.key, e.value)];
            && (Less(e.key, x.key) ==> fed + Merge([x] + rest, edits[at..]) == fed' + Merge([x] + rest, edits[at + 1..]))
            && (e.key == x.key ==> fed + Merge([x] + rest, edits[at..]) == fed' + Merge(rest, edits[at + 1..]))
  {
    var e, all, todo := edits[at], [x] + rest, edits[at..];
    assert todo[..1] == [e] && todo[1..] == edits[at + 1..] && all[1..] == rest;
    PutsOne(e);
    LessIrreflexive(x.key);
    if Less(e.key, x.key) {
      Regroup(fed, Puts([e]), Merge(all, edits[at + 1..]));
    } else if e.key == x.key {
      Regroup(fed, Puts([e]), Merge(rest, edits[at + 1..]));
    }
  }

  /** ... or the stored entry does. */
  lemma EntryStep(fed: seq<Entry>, edits: seq<Edit>, at: nat, x: Entry, rest: seq<Entry>)
    requires at <= |edits| && (at < |edits| ==> Less(x.key, edits[at].key))
    ensures fed + Merge([x] + rest, edits[at..]) == (fed + [x]) + Merge(rest, edits[at..])
  {
    MergeHead(x, rest, edits[at..]);
    Regroup(fed, [x], Merge(rest, edits[at..]));
  }

  /** The leaf loop's body: every entry of one leaf. */
  method MergeLeaf(c: LeafChunker, leaf: seq<Entry>, edits: seq<Edit>, at: nat, ghost rest: seq<Entry>)
    returns (next: nat)
    requires c.Valid() && at <= |edits| && Sorted(EditKey, edits) && Sorted(EntryKey, leaf)
    requires leaf != [] && at > 0 ==> !Less(leaf[0].key, edits[at - 1].key)
    modifies c
    ensures c.Valid() && next <= |edits|
    ensures if leaf == [] then next == at else ConsumedTo(edits, next, leaf[|leaf| - 1].key)
    ensures c.fed + Merge(rest, edits[next..]) == old(c.fed) + Merge(leaf + rest, edits[at..])
  {
    next := at;
    ghost var left, whole := leaf + rest, c.fed + Merge(leaf + rest, edits[at..]);
    for i := 0 to |leaf|
      invariant c.Valid() && next <= |edits| && left == leaf[i..] + rest
      invariant if i == 0 then next == at else ConsumedTo(edits, next, leaf[i - 1].key)
      invariant c.fed + Merge(left, edits[next..]) == whole
    {
      DropOne(leaf, i, rest);
      left := leaf[i + 1..] + rest;
      next := MergeLeafEntry(c, leaf, i, edits, next, left);
    }
    assert left == rest;
  }

  method MergeLeafEntry(c: LeafChunker, leaf: seq<Entry>, i: nat, edits: seq<Edit>, at: nat, ghost rest: seq<Entry>)
    returns (next: nat)
    requires c.Valid() && at <= |edits| && Sorted(EditKey, edits) && Sorted(EntryKey, leaf) && i < |leaf|
    requires if i == 0 then at > 0 ==> !Less(leaf[0].key, edits[at - 1].key) else ConsumedTo(edits, at, leaf[i - 1].key)
    modifies c
    ensures c.Valid() && ConsumedTo(edits, next, leaf[i].key)
    ensures c.fed + Merge(rest, edits[next..]) == old(c.fed) + Merge([leaf[i]] + rest, edits[at..])
  {
    if at > 0 && i > 0 {
      assert Less(EntryKey(leaf[i - 1]), EntryKey(leaf[i]));
      LessAsymmetric(leaf[i - 1].key, leaf[i].key);
      AtMostTransitive(edits[at - 1].key, leaf[i - 1].key, leaf[i].key);
    }
    next := MergeEntry(c, leaf[i], edits, at, rest);
  }

  /** The check `Apply` makes of its edits. */
  ghost predicate Applicable(edits: seq<Edit>) {
    Sorted(EditKey, edits) && forall i :: 0 <= i < |edits| ==> edits[i].key != []
  }

  method CheckEdits(edits: seq<Edit>) returns (ok: bool)
    ensures ok <==> Applicable(edits)
  {
    for i := 0 to |edits|
      invariant Sorted(EditKey, edits[..i])
      invariant forall j :: 0 <= j < i ==> edits[j].key != []
    {
      if edits[i].key == [] { return false; }
      if i > 0 && !Less(edits[i - 1].key, edits[i].key) {
        assert !Less(EditKey(edits[i - 1]), EditKey(edits[i]));
        return false;
      }
      forall j | 0 <= j < i ensures Less(EditKey(edits[j]), EditKey(edits[i])) {
        if j < i - 1 {
          assert Less(EditKey(edits[..i][j]), EditKey(edits[..i][i - 1]));
          LessTransitive(edits[j].key, edits[i - 1].key, edits[i].key);
        }
      }
    }
    assert edits[..|edits|] == edits;
    return true;
  }

  /** `Apply` deletes the last entry of a non-empty tree and has no edit beyond the old largest key: the
      early exit then hands an empty link list to `buildFromLeafLinks`. */
  predicate EmptiesEarly(entries: seq<Entry>, edits: seq<Edit>) {
    && edits != [] && entries != [] && Merge(entries, edits) == []
    && !Less(entries[|entries| - 1].key, edits[|edits| - 1].key)
  }

  /** Where leaf `i` lies in the entry list. */
  lemma LeafAt(o: Options, entries: seq<Entry>, i: nat) returns (from: nat)
    requires Accepted(o) && entries != [] && i < |LeafGroups(o, entries)|
    ensures var leaf := LeafGroups(o, entries)[i];
            && leaf != [] && from + |leaf| <= |entries| && leaf == entries[from..from + |leaf|]
            && (i == |LeafGroups(o, entries)| - 1 ==> from + |leaf| == |entries|)
    ensures i > 0 ==> from > 0 && LeafLink(LeafGroups(o, entries)[i - 1]).maxKey == entries[from - 1].key
  {
    ChunksAreChunking(o, EntryKey, entries);
    var gs := Chunks(o, EntryKey, entries);
    from := |Concat(gs[..i])|;
    ConcatSplit(gs, i);
    assert Concat(gs[i..]) == gs[i] + Concat(gs[i + 1..]);
    assert entries == Concat(gs[..i]) + gs[i] + Concat(gs[i + 1..]);
    if i > 0 { var at := GroupEnd(gs, i - 1); }
  }

  lemma LeafEnd(o: Options, entries: seq<Entry>, i: nat)
    requires Accepted(o) && entries != [] && i < |LeafGroups(o, entries)| && Sorted(EntryKey, entries)
    ensures var leaf := LeafGroups(o, entries)[i];
            && leaf != [] && Sorted(EntryKey, leaf)
            && !Less(entries[|entries| - 1].key, LeafLink(leaf).maxKey)
            && (i == |LeafGroups(o, entries)| - 1 ==> LeafLink(leaf).maxKey == entries[|entries| - 1].key)
            && (i > 0 ==> !Less(leaf[0].key, LeafLink(LeafGroups(o, entries)[i - 1]).maxKey))
  {
    var leaf := LeafGroups(o, entries)[i];
    var from := LeafAt(o, entries, i);
    var end := from + |leaf| - 1;
    assert leaf[|leaf| - 1] == entries[end];
    forall j, k | 0 <= j < k < |leaf| ensures Less(EntryKey(leaf[j]), EntryKey(leaf[k])) {
      assert Less(EntryKey(entries[from + j]), EntryKey(entries[from + k]));
    }
    SortedIsWeak(EntryKey, entries);
    LessIrreflexive(entries[end].key);
    assert end < |entries| - 1 ==> !Less(EntryKey(entries[|entries| - 1]), EntryKey(entries[end]));
    assert from > 0 ==> !Less(EntryKey(entries[from]), EntryKey(entries[from - 1]));
  }

  /** Chunks written so far, with the untouched leaves behind them, when the chunker is at a cut. */
  lemma Realigned(o: Options, entries: seq<Entry>, fed: seq<Entry>, groups: seq<seq<Entry>>, i: nat)
    requires Accepted(o) && i < |LeafGroups(o, entries)| && Run(o, EntryKey, fed) == Chunker(groups, [])
    ensures Chunks(o, EntryKey, fed + Concat(LeafGroups(o, entries)[i + 1..])) == groups + LeafGroups(o, entries)[i + 1..]
  {
    var rest := LeafGroups(o, entries)[i + 1..];
    if entries != [] { ChunksSplit(o, EntryKey, entries, i + 1); }
    Resynchronise(o, EntryKey, fed, Concat(rest));
  }

  /** Behind the last leaf: the edits left over, the last group, and an empty leaf if nothing remains. */
  method MergeTail(c: LeafChunker, edits: seq<Edit>, at: nat) returns (result: seq<Link>)
    requires c.Valid() && Accepted(c.o) && at <= |edits|
    modifies c
    ensures var merged := old(c.fed) + Puts(edits[at..]);
            result == if merged == [] then [LeafLink([])] else LeafLinks(Chunks(c.o, EntryKey, merged))
  {
    FeedTail(c, edits, at);
    result := CloseLinks(c);
  }

  method FeedTail(c: LeafChunker, edits: seq<Edit>, at: nat)
    requires c.Valid() && at <= |edits|
    modifies c
    ensures c.Valid() && c.fed == old(c.fed) + Puts(edits[at..])
  {
    ghost var goal := c.fed + Puts(edits[at..]);
    var next := at;
    while next < |edits|
      invariant next <= |edits| && c.Valid()
      invariant c.fed + Puts(edits[next..]) == goal
    {
      FeedEdit(c, edits, next);
      next := next + 1;
    }
    assert c.fed + Puts(edits[next..]) == c.fed;
  }

  method FeedEdit(c: LeafChunker, edits: seq<Edit>, at: nat)
    requires c.Valid() && at < |edits|
    modifies c
    ensures c.Valid() && c.fed + Puts(edits[at + 1..]) == old(c.fed) + Puts(edits[at..])
  {
    PutsStep(c.fed, edits, at);
    MergeEdit(c, edits[at]);
  }

  lemma PutsStep(fed: seq<Entry>, edits: seq<Edit>, at: nat)
    requires at < |edits|
    ensures var e := edits[at];
            fed + Puts(edits[at..]) == (if e.delete then fed else fed + [Entry(e.key, e.value)]) + Puts(edits[at + 1..])
  {
    assert edits[at..][1..] == edits[at + 1..];
  }

  method CloseLinks(c: LeafChunker) returns (result: seq<Link>)
    requires c.Valid() && Accepted(c.o)
    modifies c
    ensures result == if old(c.fed) == [] then [LeafLink([])] else LeafLinks(Chunks(c.o, EntryKey, old(c.fed)))
  {
    c.FlushGroup();
    ChunksAreChunking(c.o, EntryKey, c.fed);
    if c.links == [] {
      return [LeafLink([])];
    }
    return c.links;
  }

  /** Between leaves: what is fed and what is left merge to the whole, and the edits consumed are those up
      to the last leaf's largest key. */
  ghost predicate Progress(o: Options, entries: seq<Entry>, edits: seq<Edit>, start: nat, i: nat, next: nat, fed: seq<Entry>) {
    var gs := LeafGroups(o, entries);
    && start <= i <= |gs| && next <= |edits|
    && fed + Merge(Concat(gs[i..]), edits[next..]) == Merge(entries, edits)
    && if i == start || entries == [] then next == 0 else ConsumedTo(edits, next, LeafLink(gs[i - 1]).maxKey)
  }

  method MergeLeafAt(c: LeafChunker, edits: seq<Edit>, at: nat, leaf: seq<Entry>,
                     ghost entries: seq<Entry>, ghost start: nat, ghost i: nat)
    returns (next: nat)
    requires c.Valid() && Accepted(c.o) && Sorted(EntryKey, entries) && Sorted(EditKey, edits)
    requires i < |LeafGroups(c.o, entries)| && leaf == LeafGroups(c.o, entries)[i]
    requires Progress(c.o, entries, edits, start, i, at, c.fed)
    modifies c
    ensures c.Valid() && Progress(c.o, entries, edits, start, i + 1, next, c.fed)
  {
    ghost var gs := LeafGroups(c.o, entries);
    assert gs[i..] == [gs[i]] + gs[i + 1..];
    if entries != [] {
      LeafEnd(c.o, entries, i);
      if i > start && at > 0 {
        AtMostTransitive(edits[at - 1].key, LeafLink(gs[i - 1]).maxKey, leaf[0].key);
      }
    }
    next := MergeLeaf(c, leaf, edits, at, Concat(gs[i + 1..]));
  }

  lemma LinksAppend(written: seq<seq<Entry>>, gs: seq<seq<Entry>>, i: nat)
    requires i <= |gs|
    ensures LeafLinks(written + gs[i..]) == LeafLinks(written) + LeafLinks(gs)[i..]
  {
  }

  /** The leaf links `Apply` goes on with: those of the merged entries, or, if nothing remains, none after the
      early exit and one empty leaf otherwise. */
  ghost predicate Relinked(o: Options, entries: seq<Entry>, edits: seq<Edit>, result: seq<Link>) {
    var merged := Merge(entries, edits);
    if merged != [] then result == LeafLinks(Chunks(o, EntryKey, merged))
    else if EmptiesEarly(entries, edits) then result == []
    else result == [LeafLink([])]
  }

  /** At the early exit the links written and the leaves behind them are the chunks of the merged entries. */
  lemma ExitEarly(o: Options, entries: seq<Entry>, edits: seq<Edit>, start: nat, i: nat, fed: seq<Entry>, groups: seq<seq<Entry>>)
    requires Accepted(o) && Sorted(EntryKey, entries) && Sorted(EditKey, edits) && edits != []
    requires start <= i < |LeafGroups(o, entries)| && Run(o, EntryKey, fed) == Chunker(groups, [])
    requires Progress(o, entries, edits, start, i + 1, |edits|, fed)
    ensures Relinked(o, entries, edits, LeafLinks(groups) + LeafLinks(LeafGroups(o, entries))[i + 1..])
  {
    var gs := LeafGroups(o, entries);
    LinksAppend(groups, gs, i + 1);
    assert edits[|edits|..] == [];
    Realigned(o, entries, fed, groups, i);
    LeafEnd(o, entries, i);
    AtMostTransitive(edits[|edits| - 1].key, LeafLink(gs[i]).maxKey, entries[|entries| - 1].key);
  }

  /** Edits left behind the last leaf lie above every old key. */
  lemma ExitLate(o: Options, entries: seq<Entry>, edits: seq<Edit>, start: nat, next: nat, fed: seq<Entry>)
    requires Accepted(o) && Sorted(EntryKey, entries) && Sorted(EditKey, edits) && next < |edits|
    requires start < |LeafGroups(o, entries)| && Progress(o, entries, edits, start, |LeafGroups(o, entries)|, next, fed)
    ensures !EmptiesEarly(entries, edits)
  {
    if entries != [] {
      var gs := LeafGroups(o, entries);
      LeafEnd(o, entries, |gs| - 1);
      if next < |edits| - 1 {
        assert Less(EditKey(edits[next]), EditKey(edits[|edits| - 1]));
        LessTransitive(LeafLink(gs[|gs| - 1]).maxKey, edits[next].key, edits[|edits| - 1].key);
      }
    }
  }

  lemma StartProgress(o: Options, entries: seq<Entry>, edits: seq<Edit>, start: nat)
    requires Accepted(o) && Sorted(EntryKey, entries) && edits != [] && start < |LeafGroups(o, entries)|
    requires Concat(LeafGroups(o, entries)) == entries
    requires forall i :: 0 <= i < start ==> Less(LinkKey(LeafLinks(LeafGroups(o, entries))[i]), edits[0].key)
    ensures Progress(o, entries, edits, start, start, 0, Concat(LeafGroups(o, entries)[..start]))
  {
    var gs := LeafGroups(o, entries);
    ConcatSplit(gs, start);
    SkippedBelow(o, entries, start, edits[0].key);
    MergeSkip(Concat(gs[..start]), Concat(gs[start..]), edits);
    assert edits[0..] == edits;
  }

  /** Between rounds of the leaf loop, which has not reached its early end. */
  ghost predicate Walking(c: LeafChunker, leaves: seq<Link>, entries: seq<Entry>, edits: seq<Edit>, start: nat, i: nat, next: nat)
    reads c
  {
    && c.Valid() && Accepted(c.o) && Sorted(EntryKey, entries) && Sorted(EditKey, edits) && edits != []
    && leaves == LeafLinks(LeafGroups(c.o, entries)) && start < |leaves|
    && Progress(c.o, entries, edits, start, i, next, c.fed)
    && (i > start && next == |edits| ==> c.entries != [])
  }

  /** One round of the leaf loop: the last one if no edit is left and the chunker is at a cut. */
  method MergeOneLeaf(c: LeafChunker, leaves: seq<Link>, edits: seq<Edit>, at: nat, ghost entries: seq<Entry>, ghost start: nat, i: nat)
    returns (next: nat, done: bool, result: seq<Link>)
    requires Walking(c, leaves, entries, edits, start, i, at) && i < |leaves|
    modifies c
    ensures done ==> Relinked(c.o, entries, edits, result)
    ensures !done ==> Walking(c, leaves, entries, edits, start, i + 1, next)
  {
    next := MergeLeafAt(c, edits, at, leaves[i].child.entries, entries, start, i);
    done, result := next == |edits| && c.entries == [], [];
    if done {
      ExitEarly(c.o, entries, edits, start, i, c.fed, c.groups);
      result := c.links + leaves[i + 1..];
    }
  }

  /** Behind the leaf loop. */
  method LeavesDone(c: LeafChunker, leaves: seq<Link>, edits: seq<Edit>, next: nat, ghost entries: seq<Entry>, ghost start: nat) returns (result: seq<Link>)
    requires Walking(c, leaves, entries, edits, start, |leaves|, next)
    modifies c
    ensures Relinked(c.o, entries, edits, result)
  {
    ghost var gs := LeafGroups(c.o, entries);
    if next < |edits| { ExitLate(c.o, entries, edits, start, next, c.fed); }
    assert gs[|gs|..] == [] && c.fed + Puts(edits[next..]) == Merge(entries, edits);
    result := MergeTail(c, edits, next);
  }

  /** The leaf loop: it stops early once no edit is left and the chunker is at a cut. */
  method MergeLeaves(c: LeafChunker, leaves: seq<Link>, start: nat, edits: seq<Edit>, ghost entries: seq<Entry>)
    returns (result: seq<Link>)
    requires Walking(c, leaves, entries, edits, start, start, 0)
    modifies c
    ensures Relinked(c.o, entries, edits, result)
  {
    var next: nat := 0;
    for i := start to |leaves|
      invariant Walking(c, leaves, entries, edits, start, i, next)
    {
      var done;
      next, done, result := MergeOneLeaf(c, leaves, edits, next, entries, start, i);
      if done { return; }
    }
    result := LeavesDone(c, leaves, edits, next, entries, start);
  }

  /** The leaf to start with: the first one whose last key is not below the first edit's, or the last leaf. */
  method FirstLeaf(o: Options, leaves: seq<Link>, k: Key, ghost entries: seq<Entry>) returns (start: nat)
    requires Accepted(o) && Sorted(EntryKey, entries) && leaves == LeafLinks(LeafGroups(o, entries)) && leaves != []
    ensures start < |leaves|
    ensures forall i :: 0 <= i < start ==> Less(LinkKey(leaves[i]), k)
  {
    LeafKeysSorted(o, entries);
    SortedIsWeak(LinkKey, leaves);
    start := LowerBound(LinkKey, leaves, k);
    if start == |leaves| { start := |leaves| - 1; }
  }

  /** A chunker that has written the leaves before `start`. */
  method ChunkerAt(o: Options, leaves: seq<Link>, start: nat, ghost entries: seq<Entry>) returns (c: LeafChunker)
    requires Accepted(o) && leaves == LeafLinks(LeafGroups(o, entries)) && start < |leaves|
    ensures fresh(c) && c.Valid() && c.o == o && c.fed == Concat(LeafGroups(o, entries)[..start])
  {
    ghost var gs := LeafGroups(o, entries);
    if entries != [] { ChunksSplit(o, EntryKey, entries, start); }
    assert leaves[..start] == LeafLinks(gs[..start]);
    c := new LeafChunker(o, leaves[..start], gs[..start]);
  }

  /** The leaves an ordered edit list touches, merged: what `Apply` builds the levels above from. */
  method Relink(o: Options, tree: Node, edits: seq<Edit>, ghost entries: seq<Entry>) returns (result: seq<Link>)
    requires Accepted(o) && Sorted(EntryKey, entries) && Shrinks(o, EntryKey, entries) && tree == TreeOf(o, entries)
    requires edits != [] && Applicable(edits)
    ensures Relinked(o, entries, edits, result)
  {
    LeavesOfTree(o, entries);
    var leaves := CollectLeaves(tree);
    var start := FirstLeaf(o, leaves, edits[0].key, entries);
    StartProgress(o, entries, edits, start);
    var c := ChunkerAt(o, leaves, start, entries);
    result := MergeLeaves(c, leaves, start, edits, entries);
  }

  /** The level loop over these links ends exactly if it does over the chunks of the merged entries. */
  lemma RelinkedEnds(o: Options, entries: seq<Entry>, edits: seq<Edit>, result: seq<Link>)
    requires Accepted(o) && Relinked(o, entries, edits, result)
    ensures var merged := Merge(entries, edits);
            && (result == [] <==> merged == [] && EmptiesEarly(entries, edits))
            && (Shrinks(o, LinkKey, result) <==> Shrinks(o, EntryKey, merged))
            && (Shrinks(o, EntryKey, merged) && result != [] ==> Root(o, 1, result) == TreeOf(o, merged))
  {
    var merged := Merge(entries, edits);
    if merged != [] {
      LeafKeysExact(o, merged);
      ChunksAreChunking(o, EntryKey, merged);
      if Shrinks(o, EntryKey, merged) { LeafKeys(o, merged); }
    }
  }

  /** `Apply` on a tree `Build` made. The edited tree is the tree `Build` would make of the edited entries; but the run
      that empties the tree through the early exit crashes, and like `Build` it may run forever. */
  method Apply(o: Options, tree: Node, edits: seq<Edit>, ghost entries: seq<Entry>) returns (r: Outcome)
    requires Accepted(o) && Sorted(EntryKey, entries) && Shrinks(o, EntryKey, entries) && tree == TreeOf(o, entries)
    ensures r.Rejected? <==> !Applicable(edits)
    ensures r.Crashed? <==> Applicable(edits) && EmptiesEarly(entries, edits)
    ensures r.Endless? <==> Applicable(edits) && NeverBuilt(o, Merge(entries, edits))
    ensures r.Endless? ==> o.minEntries == 1
    ensures r.Built? ==> Shrinks(o, EntryKey, Merge(entries, edits)) && r.tree == TreeOf(o, Merge(entries, edits))
  {
    NeverBuiltExact(o, Merge(entries, edits));
    if edits == [] {
      return Built(tree);
    }
    var ok := CheckEdits(edits);
    if !ok { return Rejected; }
    var result := Relink(o, tree, edits, entries);
    RelinkedEnds(o, entries, edits, result);
    r := BuildFromLeafLinks(o, result);
  }

  /** The entries after a history of `Apply` calls, and the map they should stand for. */
  function MergeAll(entries: seq<Entry>, history: seq<seq<Edit>>): seq<Entry> {
    if history == [] then entries
    else Merge(MergeAll(entries, history[..|history| - 1]), history[|history| - 1])
  }

  function MapAfter(entries: seq<Entry>, history: seq<seq<Edit>>): map<Key, seq<byte>> {
    if history == [] then Contents(entries)
    else Overlaid(MapAfter(entries, history[..|history| - 1]), Effects(history[|history| - 1]))
  }

  lemma {:induction false} HistoryContents(entries: seq<Entry>, history: seq<seq<Edit>>)
    requires Sorted(EntryKey, entries) && forall i :: 0 <= i < |history| ==> Sorted(EditKey, history[i])
    ensures Sorted(EntryKey, MergeAll(entries, history))
    ensures Contents(MergeAll(entries, history)) == MapAfter(entries, history)
  {
    if history != [] {
      var n := |history| - 1;
      HistoryContents(entries, history[..n]);
      MergeSorted(MergeAll(entries, history[..n]), history[n]);
      MergeContents(MergeAll(entries, history[..n]), history[n]);
    }
  }

  /** Any two edit histories that reach the same entry map reach the same root. */
  lemma SameMapSameRoot(o: Options, a: seq<Entry>, aHistory: seq<seq<Edit>>, b: seq<Entry>, bHistory: seq<seq<Edit>>)
    requires Accepted(o) && Sorted(EntryKey, a) && Sorted(EntryKey, b)
    requires forall i :: 0 <= i < |aHistory| ==> Applicable(aHistory[i])
    requires forall i :: 0 <= i < |bHistory| ==> Applicable(bHistory[i])
    requires MapAfter(a, aHistory) == MapAfter(b, bHistory)
    requires Shrinks(o, EntryKey, MergeAll(a, aHistory))
    ensures Shrinks(o, EntryKey, MergeAll(b, bHistory))
    ensures TreeOf(o, MergeAll(a, aHistory)) == TreeOf(o, MergeAll(b, bHistory))
  {
    HistoryContents(a, aHistory);
    HistoryContents(b, bHistory);
    ContentsDetermine(MergeAll(a, aHistory), MergeAll(b, bHistory));
  }

  /** Every edit list of a history is ordered, none empties its tree early, and no level loop runs forever. */
  ghost predicate HistoryRuns(o: Options, entries: seq<Entry>, history: seq<seq<Edit>>) {
    forall i :: 0 <= i < |history| ==> StepRuns(o, MergeAll(entries, history[..i]), history[i])
  }

  ghost predicate StepRuns(o: Options, entries: seq<Entry>, edits: seq<Edit>) {
    Applicable(edits) && !EmptiesEarly(entries, edits) && Shrinks(o, EntryKey, Merge(entries, edits))
  }

  /** One step of a history. */
  method ApplyNext(o: Options, tree: Node, edits: seq<Edit>, ghost now: seq<Entry>) returns (r: Outcome)
    requires Accepted(o) && Sorted(EntryKey, now) && Shrinks(o, EntryKey, now) && tree == TreeOf(o, now)
    ensures r.Built? <==> StepRuns(o, now, edits)
    ensures r.Built? ==> var next := Merge(now, edits); Sorted(EntryKey, next) && Shrinks(o, EntryKey, next) && r.tree == TreeOf(o, next)
  {
    NeverBuiltExact(o, Merge(now, edits));
    r := Apply(o, tree, edits, now);
    if r.Built? { MergeSorted(now, edits); }
  }

  /** A history of edits, each applied to the tree the one before gave. All of them give a tree exactly when every step
      can, and then it is the tree `Build` makes of the entries at the end. */
  method ApplyAll(o: Options, tree: Node, history: seq<seq<Edit>>, ghost entries: seq<Entry>) returns (r: Outcome)
    requires Accepted(o) && Sorted(EntryKey, entries) && Shrinks(o, EntryKey, entries) && tree == TreeOf(o, entries)
    ensures r.Built? <==> HistoryRuns(o, entries, history)
    ensures r.Built? ==> Shrinks(o, EntryKey, MergeAll(entries, history)) && r.tree == TreeOf(o, MergeAll(entries, history))
  {
    var current := tree;
    assert history[..0] == [];
    for i := 0 to |history|
      invariant HistoryRuns(o, entries, history[..i])
      invariant var now := MergeAll(entries, history[..i]);
                Sorted(EntryKey, now) && Shrinks(o, EntryKey, now) && current == TreeOf(o, now)
    {
      HistoryStep(o, entries, history, i);
      r := ApplyNext(o, current, history[i], MergeAll(entries, history[..i]));
      if !r.Built? { return r; }
      current := r.tree;
    }
    assert history[..|history|] == history;
    return Built(current);
  }

  lemma HistoryStep(o: Options, entries: seq<Entry>, history: seq<seq<Edit>>, i: nat)
    requires i < |history|
    ensures var longer := history[..i + 1];
            && MergeAll(entries, longer) == Merge(MergeAll(entries, history[..i]), history[i])
            && (HistoryRuns(o, entries, longer) <==>
                  HistoryRuns(o, entries, history[..i]) && StepRuns(o, MergeAll(entries, history[..i]), history[i]))
    ensures HistoryRuns(o, entries, history) ==> StepRuns(o, MergeAll(entries, history[..i]), history[i])
  {
    var longer := history[..i + 1];
    assert longer[..i] == history[..i] && longer[i] == history[i];
    forall j | 0 <= j < i ensures longer[..j] == history[..i][..j] && longer[j] == history[..i][j] {}
    if HistoryRuns(o, entries, longer) {
      forall j | 0 <= j < i ensures StepRuns(o, MergeAll(entries, history[..i][..j]), history[..i][j]) {
        assert StepRuns(o, MergeAll(entries, longer[..j]), longer[j]);
      }
      assert StepRuns(o, MergeAll(entries, longer[..i]), longer[i]);
    }
    if HistoryRuns(o, entries, history[..i]) && StepRuns(o, MergeAll(entries, history[..i]), history[i]) {
      forall j | 0 <= j <= i ensures StepRuns(o, MergeAll(entries, longer[..j]), longer[j]) {
        if j < i { assert StepRuns(o, MergeAll(entries, history[..i][..j]), history[..i][j]); }
      }
    }
  }

  /** Two trees taken through histories that reach the same map end in the same root. */
  method ApplyBoth(o: Options, x: Node, xHistory: seq<seq<Edit>>, y: Node, yHistory: seq<seq<Edit>>,
                   ghost xs: seq<Entry>, ghost ys: seq<Entry>) returns (a: Outcome, b: Outcome)
    requires Accepted(o) && Sorted(EntryKey, xs) && Shrinks(o, EntryKey, xs) && x == TreeOf(o, xs)
    requires Sorted(EntryKey, ys) && Shrinks(o, EntryKey, ys) && y == TreeOf(o, ys)
    ensures (a.Built? <==> HistoryRuns(o, xs, xHistory)) && (b.Built? <==> HistoryRuns(o, ys, yHistory))
    ensures a.Built? && b.Built? && MapAfter(xs, xHistory) == MapAfter(ys, yHistory) ==> a.tree == b.tree
  {
    a := ApplyAll(o, x, xHistory, xs);
    b := ApplyAll(o, y, yHistory, ys);
    if a.Built? && b.Built? && MapAfter(xs, xHistory) == MapAfter(ys, yHistory) {
      RunsAreApplicable(o, xs, xHistory);
      RunsAreApplicable(o, ys, yHistory);
      SameMapSameRoot(o, xs, xHistory, ys, yHistory);
    }
  }

  lemma RunsAreApplicable(o: Options, entries: seq<Entry>, history: seq<seq<Edit>>)
    requires HistoryRuns(o, entries, history)
    ensures forall i :: 0 <= i < |history| ==> Applicable(history[i])
  {
    forall i | 0 <= i < |history| ensures Applicable(history[i]) { assert StepRuns(o, MergeAll(entries, history[..i]), history[i]); }
  }

  /** The crash is reachable: delete the only entry of a tree. */
  lemma DeletingTheOnlyEntryEmptiesEarly()
    ensures var entries, edits := [Entry([1], [])], [Edit([1], [], true)];
            Sorted(EntryKey, entries) && Applicable(edits) && EmptiesEarly(entries, edits)
  {
    var entries, edits := [Entry([1], [])], [Edit([1], [], true)];
    LessIrreflexive([1]);
    PutsOne(edits[0]);
    assert edits[..1] == edits && Merge(entries[1..], edits[1..]) == [];
  }
}
