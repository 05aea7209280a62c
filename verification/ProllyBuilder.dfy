/** `SortedBuilder` of `common/prolly/tree.go`: at most one open chunk per level, and `Build`'s tree. */
module ProllyBuilder {
  import opened Bytes
  import opened Sorting
  import opened Sequences
  import opened Chunking
  import opened Prolly
  import opened ProllyLevels

  /** A chunk of one item stays open. Otherwise `addLink` passes it up the levels for ever (`CascadeSettles`). */
  predicate Quiet(o: Options, key: Key) {
    o.minEntries >= 2 || !IsBoundary(o, key)
  }

  ghost predicate AllQuiet<T>(o: Options, key: T -> Key, xs: seq<T>) {
    forall i :: 0 <= i < |xs| ==> Quiet(o, key(xs[i]))
  }

  /** The item `addLink` hands up after closing `n` one-item chunks in turn. */
  function Cascade(n: nat, item: Link): Link {
    if n == 0 then item else InteriorLink(n, [Cascade(n - 1, item)])
  }

  /** `addLink` of this item hands a link up from every level. */
  ghost predicate CascadesForever(o: Options, item: Link) {
    forall n: nat :: ShouldCut(o, 1, Cascade(n, item).maxKey)
  }

  /** The cascade into fresh levels ends exactly for quiet keys. */
  lemma CascadeSettles(o: Options, item: Link)
    requires Accepted(o)
    ensures CascadesForever(o, item) <==> !Quiet(o, item.maxKey)
  {
    if Quiet(o, item.maxKey) {
      assert !ShouldCut(o, 1, Cascade(0, item).maxKey);
    } else {
      forall n: nat ensures ShouldCut(o, 1, Cascade(n, item).maxKey) { CascadeKey(n, item); }
    }
  }

  lemma {:induction false} CascadeKey(n: nat, item: Link)
    ensures Cascade(n, item).maxKey == item.maxKey
  {
    if n > 0 { CascadeKey(n - 1, item); }
  }

  /** `levels[i]` holds the open chunk of the links `i` levels above `level`, if `links` is everything that
      has been handed to `level` so far. */
  ghost predicate Buffered(o: Options, level: nat, links: seq<Link>, levels: seq<seq<Link>>)
    decreases levels
  {
    if levels == [] then links == []
    else
      var c := Run(o, LinkKey, links);
      levels[0] == c.open && Buffered(o, level + 1, InteriorLinks(level, c.groups), levels[1..])
  }

  /** `addLink` into the buffers from `level` up. */
  function Push(o: Options, level: nat, levels: seq<seq<Link>>, item: Link): seq<seq<Link>>
    requires Accepted(o) && Quiet(o, item.maxKey)
    decreases levels
  {
    var buffer := (if levels == [] then [] else levels[0]) + [item];
    var above := if levels == [] then [] else levels[1..];
    if ShouldCut(o, |buffer|, item.maxKey) then [[]] + Push(o, level + 1, above, InteriorLink(level, buffer))
    else [buffer] + above
  }

  lemma BufferedCons(o: Options, level: nat, links: seq<Link>, buffer: seq<Link>, above: seq<seq<Link>>)
    ensures Buffered(o, level, links, [buffer] + above)
            <==> buffer == Run(o, LinkKey, links).open
                 && Buffered(o, level + 1, InteriorLinks(level, Run(o, LinkKey, links).groups), above)
  {
    assert ([buffer] + above)[1..] == above;
  }

  lemma RunSnoc<T>(o: Options, key: T -> Key, xs: seq<T>, x: T)
    ensures Run(o, key, xs + [x]) == Add(o, key, Run(o, key, xs), x)
  {
    assert (xs + [x])[..|xs|] == xs;
  }

  lemma InteriorSnoc(level: nat, groups: seq<seq<Link>>, group: seq<Link>)
    ensures InteriorLinks(level, groups + [group]) == InteriorLinks(level, groups) + [InteriorLink(level, group)]
  {
  }

  lemma {:induction false} PushBuffers(o: Options, level: nat, links: seq<Link>, levels: seq<seq<Link>>, item: Link)
    requires Accepted(o) && Quiet(o, item.maxKey) && Buffered(o, level, links, levels)
    ensures Buffered(o, level, links + [item], Push(o, level, levels, item))
    decreases levels
  {
    var c := Run(o, LinkKey, links);
    var above := if levels == [] then [] else levels[1..];
    assert Buffered(o, level + 1, InteriorLinks(level, c.groups), above);
    var buffer := c.open + [item];
    RunSnoc(o, LinkKey, links, item);
    if ShouldCut(o, |buffer|, item.maxKey) {
      var up := InteriorLink(level, buffer);
      PushBuffers(o, level + 1, InteriorLinks(level, c.groups), above, up);
      InteriorSnoc(level, c.groups, buffer);
      BufferedCons(o, level, links + [item], [], Push(o, level + 1, above, up));
    } else {
      BufferedCons(o, level, links + [item], buffer, above);
    }
  }

  lemma {:induction false} EmptyBuffers(o: Options, level: nat, levels: seq<seq<Link>>)
    requires Buffered(o, level, [], levels)
    ensures forall i :: 0 <= i < |levels| ==> levels[i] == []
    decreases levels
  {
    if levels != [] {
      assert InteriorLinks(level, []) == [];
      EmptyBuffers(o, level + 1, levels[1..]);
    }
  }

  lemma {:induction false} SomeBuffer(o: Options, level: nat, links: seq<Link>, levels: seq<seq<Link>>)
    requires Accepted(o) && links != [] && Buffered(o, level, links, levels)
    ensures levels != [] && exists i :: 0 <= i < |levels| && levels[i] != []
    decreases levels
  {
    if levels[0] == [] {
      RunIsGreedy(o, LinkKey, links);
      SomeBuffer(o, level + 1, InteriorLinks(level, Run(o, LinkKey, links).groups), levels[1..]);
      var i :| 0 <= i < |levels| - 1 && levels[1..][i] != [];
      assert levels[i + 1] != [];
    }
  }

  lemma LeafLinksQuiet(o: Options, groups: seq<seq<Entry>>)
    requires forall i :: 0 <= i < |groups| ==> groups[i] != []
    requires AllQuiet(o, EntryKey, Concat(groups))
    ensures AllQuiet(o, LinkKey, LeafLinks(groups))
  {
    forall i | 0 <= i < |groups| ensures Quiet(o, LinkKey(LeafLinks(groups)[i])) {
      var at := GroupEnd(groups, i);
      assert Quiet(o, EntryKey(Concat(groups)[at]));
    }
  }

  lemma UpQuiet(o: Options, level: nat, links: seq<Link>)
    requires Accepted(o) && AllQuiet(o, LinkKey, links)
    ensures AllQuiet(o, LinkKey, Up(o, level, links)) && Shrinks(o, LinkKey, links)
  {
    ChunksAreChunking(o, LinkKey, links);
    var gs := Chunks(o, LinkKey, links);
    forall i | 0 <= i < |gs| ensures Quiet(o, LinkKey(Up(o, level, links)[i])) {
      var at := GroupEnd(gs, i);
      assert Quiet(o, LinkKey(links[at]));
    }
    if o.minEntries == 1 {
      forall i | 0 <= i < |links| - 1 ensures !IsBoundary(o, LinkKey(links[i])) {
        assert Quiet(o, LinkKey(links[i]));
      }
    }
  }

  lemma SingleStaysOpen(o: Options, links: seq<Link>)
    requires Accepted(o) && AllQuiet(o, LinkKey, links) && |links| == 1
    ensures Run(o, LinkKey, links) == Chunker([], links)
  {
    assert Quiet(o, LinkKey(links[0]));
    assert links[..0] == [] && [] + [links[0]] == links;
    assert Run(o, LinkKey, links[..0]) == Chunker([], []);
  }

  lemma TailEmpty(levels: seq<seq<Link>>)
    requires levels != [] && forall i :: 0 <= i < |levels[1..]| ==> levels[1..][i] == []
    ensures forall i :: 1 <= i < |levels| ==> levels[i] == []
  {
    forall i | 1 <= i < |levels| ensures levels[i] == [] { assert levels[1..][i - 1] == levels[i]; }
  }

  lemma TailHolds(levels: seq<seq<Link>>)
    requires levels != [] && exists i :: 0 <= i < |levels[1..]| && levels[1..][i] != []
    ensures exists i :: 1 <= i < |levels| && levels[i] != []
  {
    var i :| 0 <= i < |levels[1..]| && levels[1..][i] != [];
    assert levels[i + 1] != [];
  }

  /** A single link stays in its level, and nothing is above. */
  lemma SingleAlone(o: Options, level: nat, links: seq<Link>, levels: seq<seq<Link>>)
    requires Accepted(o) && |links| == 1 && AllQuiet(o, LinkKey, links) && Buffered(o, level, links, levels) && levels != []
    ensures levels[0] == links && forall i :: 1 <= i < |levels| ==> levels[i] == []
  {
    SingleStaysOpen(o, links);
    assert InteriorLinks(level, []) == [];
    EmptyBuffers(o, level + 1, levels[1..]);
    TailEmpty(levels);
  }

  /** Of several links with one still open, some have gone up. */
  lemma OthersAbove(o: Options, level: nat, links: seq<Link>, levels: seq<seq<Link>>)
    requires Accepted(o) && |links| > 1 && Buffered(o, level, links, levels) && levels != [] && |levels[0]| == 1
    ensures exists i :: 1 <= i < |levels| && levels[i] != []
  {
    RunIsGreedy(o, LinkKey, links);
    var groups := Run(o, LinkKey, links).groups;
    assert groups != [];
    SomeBuffer(o, level + 1, InteriorLinks(level, groups), levels[1..]);
    TailHolds(levels);
  }

  /** `Finish` may return at a level exactly when a single link was ever handed to it. */
  lemma FinishAlone(o: Options, level: nat, links: seq<Link>, levels: seq<seq<Link>>)
    requires Accepted(o) && links != [] && AllQuiet(o, LinkKey, links) && Buffered(o, level, links, levels)
    ensures levels != []
    ensures |links| == 1 <==> |levels[0]| == 1 && forall i :: 1 <= i < |levels| ==> levels[i] == []
    ensures |links| == 1 ==> levels[0] == links
  {
    SomeBuffer(o, level, links, levels);
    if |links| == 1 {
      SingleAlone(o, level, links, levels);
    } else if |levels[0]| == 1 {
      OthersAbove(o, level, links, levels);
    }
  }

  /** What is handed to the next level by the time `Finish` leaves this one, flushing it if need be. */
  lemma FinishLevel(o: Options, level: nat, links: seq<Link>, levels: seq<seq<Link>>)
    requires Accepted(o) && links != [] && AllQuiet(o, LinkKey, links) && Buffered(o, level, links, levels)
    requires levels != []
    ensures levels[0] == [] ==> Buffered(o, level + 1, Up(o, level, links), levels[1..])
    ensures levels[0] != [] ==>
              && Quiet(o, InteriorLink(level, levels[0]).maxKey)
              && Buffered(o, level + 1, Up(o, level, links), Push(o, level + 1, levels[1..], InteriorLink(level, levels[0])))
  {
    var c := Run(o, LinkKey, links);
    if levels[0] != [] {
      OpenIsQuiet(o, level, links);
      UpFlushes(o, level, links);
      PushBuffers(o, level + 1, InteriorLinks(level, c.groups), levels[1..], InteriorLink(level, levels[0]));
    }
  }

  /** The key of an open group is that of the last link. */
  lemma OpenIsQuiet(o: Options, level: nat, links: seq<Link>)
    requires Accepted(o) && AllQuiet(o, LinkKey, links) && Run(o, LinkKey, links).open != []
    ensures Quiet(o, InteriorLink(level, Run(o, LinkKey, links).open).maxKey)
  {
    var open := Run(o, LinkKey, links).open;
    RunIsGreedy(o, LinkKey, links);
    assert links[|links| - 1] == open[|open| - 1] && Quiet(o, LinkKey(links[|links| - 1]));
  }

  lemma UpFlushes(o: Options, level: nat, links: seq<Link>)
    requires Accepted(o) && Run(o, LinkKey, links).open != []
    ensures var c := Run(o, LinkKey, links);
            Up(o, level, links) == InteriorLinks(level, c.groups) + [InteriorLink(level, c.open)]
  {
  }

  /** `Finish` at a level: what was handed to it, where that is buffered, and the root it leads to. */
  ghost predicate AtLevel(o: Options, level: nat, links: seq<Link>, levels: seq<seq<Link>>, root: Node)
    requires Accepted(o)
  {
    && links != [] && AllQuiet(o, LinkKey, links) && Shrinks(o, LinkKey, links)
    && Root(o, level, links) == root && Buffered(o, level, links, levels)
  }

  lemma RootAbove(o: Options, level: nat, links: seq<Link>)
    requires Accepted(o) && |links| > 1 && AllQuiet(o, LinkKey, links) && Shrinks(o, LinkKey, links)
    ensures var up := Up(o, level, links);
            && up != [] && |up| < |links| && AllQuiet(o, LinkKey, up) && Shrinks(o, LinkKey, up)
            && Root(o, level + 1, up) == Root(o, level, links)
  {
    UpShrinks(o, level, links);
    UpQuiet(o, level, links);
  }

  /** Streaming one more entry. */
  lemma AddBuffers(o: Options, fed: seq<Entry>, e: Entry, levels: seq<seq<Link>>)
    requires Accepted(o) && Quiet(o, e.key) && Buffered(o, 1, LeafLinks(Run(o, EntryKey, fed).groups), levels)
    ensures var c := Run(o, EntryKey, fed);
            var leaves := c.open + [e];
            if ShouldCut(o, |leaves|, e.key) then
              && Run(o, EntryKey, fed + [e]) == Chunker(c.groups + [leaves], [])
              && Buffered(o, 1, LeafLinks(c.groups + [leaves]), Push(o, 1, levels, LeafLink(leaves)))
            else Run(o, EntryKey, fed + [e]) == Chunker(c.groups, leaves)
  {
    var c := Run(o, EntryKey, fed);
    var leaves := c.open + [e];
    assert (fed + [e])[..|fed|] == fed;
    if ShouldCut(o, |leaves|, e.key) {
      PushBuffers(o, 1, LeafLinks(c.groups), levels, LeafLink(leaves));
      assert LeafLinks(c.groups + [leaves]) == LeafLinks(c.groups) + [LeafLink(leaves)];
    }
  }

  lemma SplitAt<T>(levels: seq<T>, level: nat, below: seq<T>, at: T, above: seq<T>)
    requires level < |levels| && levels[..level] == below && levels[level] == at && levels[level + 1..] == above
    ensures levels[..level + 1] == below + [at] && levels == below + ([at] + above)
  {
  }

  /** What adding comes to. `Stuck` stands for a call that does not return. */
  datatype Adding = Added | Refused | Stuck

  class SortedBuilder {
    const o: Options
    var leaves: seq<Entry>
    var levels: seq<seq<Link>>
    var lastKey: Key
    var haveKey: bool
    var finished: bool
    ghost var fed: seq<Entry>

    ghost predicate Valid()
      reads this
    {
      && Accepted(o) && Sorted(EntryKey, fed) && AllQuiet(o, EntryKey, fed)
      && (haveKey <==> fed != []) && (haveKey ==> lastKey == fed[|fed| - 1].key)
      && (!finished ==>
            && leaves == Run(o, EntryKey, fed).open
            && Buffered(o, 1, LeafLinks(Run(o, EntryKey, fed).groups), levels))
    }

    constructor (o: Options)
      requires Accepted(o)
      ensures Valid() && fed == [] && !finished && this.o == o
    {
      this.o := o;
      leaves, levels, lastKey, haveKey, finished := [], [], [], false, false;
      fed := [];
      new;
      assert LeafLinks([]) == [];
    }

    /** `addLink`, with its `flushLinks`. */
    method AddLink(level: nat, item: Link)
      requires Accepted(o) && Quiet(o, item.maxKey) && level <= |levels|
      modifies this`levels
      ensures levels == old(levels)[..level] + Push(o, level + 1, old(levels)[level..], item)
      decreases |levels| - level
    {
      ghost var below := levels[..level];
      ghost var above := if |levels| <= level then [] else levels[level + 1..];
      if |levels| <= level {
        levels := levels + [[]];
      }
      var buffer := levels[level] + [item];
      levels := levels[level := buffer];
      if ShouldCut(o, |buffer|, item.maxKey) {
        levels := levels[level := []];
        SplitAt(levels, level, below, [], above);
        AddLink(level + 1, InteriorLink(level + 1, buffer));
        Regroup(below, [[]], Push(o, level + 2, above, InteriorLink(level + 1, buffer)));
      } else {
        SplitAt(levels, level, below, buffer, above);
      }
    }

    method FlushLeaf()
      requires Accepted(o) && leaves != [] && Quiet(o, LeafLink(leaves).maxKey)
      modifies this`leaves, this`levels
      ensures leaves == [] && levels == Push(o, 1, old(levels), LeafLink(old(leaves)))
    {
      var group := leaves;
      leaves := [];
      AddLink(0, LeafLink(group));
    }

    /** `Add`: refused after `Finish` and for a key that is not above the last one. It does not return exactly for a
        key whose leaf, once closed, is handed up without end; nothing can be added after that. */
    method Add(e: Entry) returns (r: Adding)
      requires Valid()
      modifies this
      ensures Valid() && finished == old(finished)
      ensures r.Refused? <==> old(finished) || (old(fed) != [] && !Less(old(fed)[|old(fed)| - 1].key, e.key))
      ensures r.Stuck? <==> !r.Refused? && CascadesForever(o, LeafLink(old(leaves) + [e]))
      ensures r.Stuck? ==> o.minEntries == 1
      ensures fed == if r.Added? then old(fed) + [e] else old(fed)
    {
      if finished || (haveKey && !Less(lastKey, e.key)) { return Refused; }
      CascadeSettles(o, LeafLink(leaves + [e]));
      if !Quiet(o, e.key) { return Stuck; }
      SortedSnoc(EntryKey, fed, e);
      Buffer(e);
      return Added;
    }

    method Buffer(e: Entry)
      requires Valid() && !finished && Quiet(o, e.key) && Sorted(EntryKey, fed + [e])
      modifies this
      ensures Valid() && !finished && fed == old(fed) + [e]
    {
      AddBuffers(o, fed, e, levels);
      fed := fed + [e];
      leaves := leaves + [e];
      lastKey, haveKey := e.key, true;
      if ShouldCut(o, |leaves|, e.key) {
        FlushLeaf();
      }
    }

    /** `flushLinks`. */
    method FlushLinks(level: nat)
      requires Accepted(o) && level < |levels| && Quiet(o, InteriorLink(level + 1, levels[level]).maxKey)
      modifies this`levels
      ensures level + 1 <= |levels|
      ensures levels[level + 1..]
              == Push(o, level + 2, old(levels)[level + 1..], InteriorLink(level + 1, old(levels)[level]))
    {
      var group := levels[level];
      levels := levels[level := []];
      AddLink(level + 1, InteriorLink(level + 1, group));
    }

    /** `Finish`: the tree of everything added. */
    method Finish() returns (r: Outcome)
      requires Valid()
      modifies this
      ensures fed == old(fed) && finished
      ensures r == if old(finished) then Rejected else Built(TreeOfQuiet(o, fed))
    {
      if finished { return Rejected; }
      finished := true;
      if !haveKey { return Built(Leaf([])); }
      FinishStart(o, fed, levels);
      if leaves != [] {
        FlushLeaf();
      }
      r := FinishLevels(LeafLinks(Chunks(o, EntryKey, fed)));
    }

    method FinishLevels(ghost all: seq<Link>) returns (r: Outcome)
      requires Accepted(o) && all != [] && AllQuiet(o, LinkKey, all) && Shrinks(o, LinkKey, all)
      requires Buffered(o, 1, all, levels)
      modifies this`levels
      ensures r == Built(Root(o, 1, all))
    {
      ghost var links, root := all, Root(o, 1, all);
      var level := 0;
      assert levels[0..] == levels;
      while true
        invariant level <= |levels| && AtLevel(o, level + 1, links, levels[level..], root)
        decreases |links|
      {
        var done := LevelAlone(level, links, root);
        if done { return Built(levels[level][0].child); }
        links := LeaveLevel(level, links, root);
        level := level + 1;
      }
    }

    /** Whether `Finish` returns at this level. */
    method LevelAlone(level: nat, ghost links: seq<Link>, ghost root: Node) returns (done: bool)
      requires Accepted(o) && level <= |levels| && AtLevel(o, level + 1, links, levels[level..], root)
      ensures level < |levels| && (done <==> |links| == 1)
      ensures done ==> |levels[level]| == 1 && levels[level][0].child == root
    {
      FinishAlone(o, level + 1, links, levels[level..]);
      done := false;
      if |levels[level]| == 1 {
        var above := HasLinksAbove(level);
        done := !above;
      }
    }

    /** What is left in a level is flushed upward. */
    method LeaveLevel(level: nat, ghost links: seq<Link>, ghost root: Node) returns (ghost up: seq<Link>)
      requires Accepted(o) && level < |levels| && AtLevel(o, level + 1, links, levels[level..], root) && |links| > 1
      modifies this`levels
      ensures level + 1 <= |levels| && |up| < |links| && AtLevel(o, level + 2, up, levels[level + 1..], root)
    {
      up := Up(o, level + 1, links);
      FinishLevel(o, level + 1, links, levels[level..]);
      RootAbove(o, level + 1, links);
      assert levels[level..][1..] == levels[level + 1..];
      if levels[level] != [] {
        FlushLinks(level);
      }
    }

    method HasLinksAbove(level: nat) returns (above: bool)
      requires level < |levels|
      ensures !above <==> forall i :: 1 <= i < |levels[level..]| ==> levels[level..][i] == []
    {
      var i := level + 1;
      while i < |levels|
        invariant level < i <= |levels|
        invariant forall j :: 1 <= j < i - level ==> levels[level..][j] == []
      {
        if levels[i] != [] {
          assert levels[level..][i - level] != [];
          return true;
        }
        i := i + 1;
      }
      return false;
    }
  }

  function TreeOfQuiet(o: Options, entries: seq<Entry>): Node
    requires Accepted(o) && AllQuiet(o, EntryKey, entries)
  {
    assert forall i :: 0 <= i < |entries| ==> Quiet(o, EntryKey(entries[i]));
    TreeOf(o, entries)
  }

  /** At the start of `Finish` the leaf links, flushed or not, are those of all chunks. */
  lemma FinishStart(o: Options, fed: seq<Entry>, levels: seq<seq<Link>>)
    requires Accepted(o) && AllQuiet(o, EntryKey, fed) && fed != []
    requires Buffered(o, 1, LeafLinks(Run(o, EntryKey, fed).groups), levels)
    ensures var links := LeafLinks(Chunks(o, EntryKey, fed));
            && links != [] && AllQuiet(o, LinkKey, links) && Shrinks(o, LinkKey, links)
            && Root(o, 1, links) == TreeOfQuiet(o, fed)
            && var leaves := Run(o, EntryKey, fed).open;
               if leaves == [] then Buffered(o, 1, links, levels)
               else Quiet(o, LeafLink(leaves).maxKey) && Buffered(o, 1, links, Push(o, 1, levels, LeafLink(leaves)))
  {
    var c := Run(o, EntryKey, fed);
    ChunksAreChunking(o, EntryKey, fed);
    LeafLinksQuiet(o, Chunks(o, EntryKey, fed));
    var links := LeafLinks(Chunks(o, EntryKey, fed));
    UpQuiet(o, 1, links);
    if c.open != [] {
      RunIsGreedy(o, EntryKey, fed);
      assert LeafLinks(c.groups + [c.open]) == LeafLinks(c.groups) + [LeafLink(c.open)];
      assert Quiet(o, LinkKey(links[|links| - 1]));
      PushBuffers(o, 1, LeafLinks(c.groups), levels, LeafLink(c.open));
    }
  }
}
