/** When the level loop of `Build` ends, and how many levels it adds. `validate` admits a minimum chunk
    size of 1; with it the loop can run forever, and this module says exactly when. */
module ProllyLevels {
  import opened Bytes
  import opened Chunking
  import opened Prolly

  /** The level loop of `Build` over sorted `entries` reaches a single link if and only if the minimum
      chunk size is at least 2 or no key but the last one is a boundary. */
  lemma LevelLoopEnds(o: Options, entries: seq<Entry>)
    requires Accepted(o) && entries != []
    ensures (exists n: nat :: |Passes(o, 1, LeafLinks(Chunks(o, EntryKey, entries)), n)| <= 1)
            <==> o.minEntries >= 2 || NoInnerBoundary(o, EntryKey, entries)
  {
    var links := LeafLinks(Chunks(o, EntryKey, entries));
    LeafKeysExact(o, entries);
    LinksLoopEnds(o, links);
    if Shrinks(o, EntryKey, entries) {
      var n: nat :| |Passes(o, 1, links, n)| <= 1;
      assert exists k: nat :: |Passes(o, 1, LeafLinks(Chunks(o, EntryKey, entries)), k)| <= 1;
    } else {
      assert RunsForever(o, links);
    }
  }

  /** With minimum 1 and two boundary keys the loop never ends. */
  lemma LevelLoopCanRunForever()
    ensures var o := Options(1, 2, 1, (k: Key) => 0);
            var entries := [Entry([1], []), Entry([2], [])];
            Accepted(o) && forall n: nat :: |Passes(o, 1, LeafLinks(Chunks(o, EntryKey, entries)), n)| > 1
  {
    var o := Options(1, 2, 1, (k: Key) => 0);
    var entries := [Entry([1], []), Entry([2], [])];
    assert IsBoundary(o, EntryKey(entries[0]));
    LevelLoopEnds(o, entries);
  }

  /** How many levels lie above the leaves. */
  function Height(n: Node): nat {
    if n.Leaf? then 0 else n.level
  }

  lemma FewerGroups(m: nat, groups: nat, h: nat)
    requires m >= 1 && h >= 1 && groups >= 1 && m * (groups - 1) + 1 <= Pow(m, h)
    ensures groups <= Pow(m, h - 1)
  {
    if groups > Pow(m, h - 1) { Scaled(m, Pow(m, h - 1), groups - 1); }
  }

  lemma Scaled(m: nat, a: nat, b: nat)
    requires a <= b
    ensures m * a <= m * b
  {
  }

  lemma {:induction false} RootHeight(o: Options, level: nat, links: seq<Link>, h: nat)
    requires Accepted(o) && links != [] && Shrinks(o, LinkKey, links) && level >= 1
    requires |links| <= Pow(Fanout(o), h)
    requires forall i :: 0 <= i < |links| ==> Height(links[i].child) == level - 1
    ensures Height(Root(o, level, links)) <= level - 1 + h
    decreases h
  {
    if |links| > 1 {
      assert h > 0;
      UpShrinks(o, level, links);
      FewerGroups(Fanout(o), |Up(o, level, links)|, h);
      RootHeight(o, level + 1, Up(o, level, links), h - 1);
    }
  }

  /** `n` leaves carry at most `h` interior levels for every `h` with `Fanout^h >= n`. */
  lemma TreeHeight(o: Options, entries: seq<Entry>, h: nat)
    requires Accepted(o) && Shrinks(o, EntryKey, entries)
    requires |Chunks(o, EntryKey, entries)| <= Pow(Fanout(o), h)
    ensures Height(TreeOf(o, entries)) <= h
  {
    if entries != [] {
      LeafKeys(o, entries);
      RootHeight(o, 1, LeafLinks(Chunks(o, EntryKey, entries)), h);
    }
  }
}
