/** Index trees at a checkpoint: updated in place by `applyIndexEdits` or built anew by
    `rebuildIndexesFromTree`, they are the same tree. */
module IndexTrees {
  import opened Bytes
  import opened Overlays
  import opened Sorting
  import opened Chunking
  import opened Prolly
  import opened EditMerge
  import opened ProllyApply
  import opened IndexAgreement
  import opened IndexDerivation
  import opened IndexCheckpoint

  /** The sorted entries of the index of these rows. */
  ghost predicate IsIndexOf(def: IndexDef, rows: map<Key, Row>, entries: seq<Entry>) {
    Sorted(EntryKey, entries) && Agree(def, rows, Contents(entries))
  }

  /** There is one such list, so one tree. */
  lemma IndexEntriesUnique(def: IndexDef, rows: map<Key, Row>, a: seq<Entry>, b: seq<Entry>)
    requires IsIndexOf(def, rows, a) && IsIndexOf(def, rows, b)
    ensures a == b
  {
    AgreeingIsUnique(def, rows, Contents(a), Contents(b));
    ContentsDetermine(a, b);
  }

  // Incrementally.

  function AsEdit(e: IndexEdit): Edit {
    if e.pk.Some? then Edit(e.key, e.pk.value, false) else Edit(e.key, [], true)
  }

  function AsEdits(edits: seq<IndexEdit>): seq<Edit> {
    seq(|edits|, i requires 0 <= i < |edits| => AsEdit(edits[i]))
  }

  lemma {:induction false} AsEditsLast(edits: seq<IndexEdit>)
    ensures Effects(AsEdits(edits)) == Last(edits)
  {
    if edits != [] {
      var n := |edits| - 1;
      AsEditsLast(edits[..n]);
      assert AsEdits(edits) == AsEdits(edits[..n]) + [AsEdit(edits[n])];
      LastOfSnoc(EditKey, AsEdits(edits[..n]), AsEdit(edits[n]));
    }
  }

  /** Every derived edit is of some row's key. */
  lemma DerivedKey(def: IndexDef, tree: map<Key, Row>, changes: seq<RowChange>, k: Key)
    requires NonEmptyKeys(def) && k in Last(Derived(def, tree, changes))
    ensures k != []
  {
    LastAppend(Removed(def, tree, changes), Added(def, tree, changes));
    RemovedKeys(def, tree, changes, k);
    AddedKeys(def, tree, changes, k);
  }

  lemma OrderedApplies(def: IndexDef, tree: map<Key, Row>, changes: seq<RowChange>, ordered: seq<IndexEdit>)
    requires NonEmptyKeys(def) && Sorted(IndexKeyOf, ordered) && Last(ordered) == Last(Derived(def, tree, changes))
    ensures Applicable(AsEdits(ordered))
  {
    forall i | 0 <= i < |ordered| ensures ordered[i].key != [] {
      LastIsAnEdit(ordered, ordered[i].key);
      DerivedKey(def, tree, changes, ordered[i].key);
    }
    forall i, j | 0 <= i < j < |ordered| ensures Less(EditKey(AsEdits(ordered)[i]), EditKey(AsEdits(ordered)[j])) {
      assert Less(IndexKeyOf(ordered[i]), IndexKeyOf(ordered[j]));
    }
  }

  lemma AppliedIsIndex(def: IndexDef, tree: map<Key, Row>, changes: seq<RowChange>, ordered: seq<IndexEdit>, base: seq<Entry>)
    requires Sorted(ChangeKey, changes) && Applicable(AsEdits(ordered)) && Last(ordered) == Last(Derived(def, tree, changes))
    requires IsIndexOf(def, tree, base) && Distinct(def, Overlaid(tree, ChangesMap(changes)))
    ensures IsIndexOf(def, Overlaid(tree, ChangesMap(changes)), Merge(base, AsEdits(ordered)))
  {
    AsEditsLast(ordered);
    MergeSorted(base, AsEdits(ordered));
    MergeContents(base, AsEdits(ordered));
    DerivedAgrees(def, tree, changes, Contents(base));
  }

  datatype IndexTree = Tree(root: Node) | NoTree | Duplicate | Failed

  /** The derived edits in the order `Apply` takes them. */
  method OrderedEdits(def: IndexDef, tree: map<Key, Row>, changes: seq<RowChange>) returns (edits: Option<seq<Edit>>, ghost ordered: seq<IndexEdit>)
    requires NonEmptyKeys(def)
    ensures edits.None? <==> SomeTaken(def, tree, changes)
    ensures edits.Some? ==> edits.value == AsEdits(ordered) && Applicable(edits.value) && Last(ordered) == Last(Derived(def, tree, changes))
  {
    var indexes := [def];
    var derived := DeriveIndexEdits(indexes, tree, changes);
    assert indexes[0] == def;
    DuplicateCaught(def, tree, changes);
    var sorted := OrderIndexEdits(derived[0]);
    if sorted.None? { return None, []; }
    ordered := sorted.value;
    OrderedApplies(def, tree, changes, ordered);
    edits := Some(AsEdits(sorted.value));
  }

  /** What the ordered edits make of the base index: a list that is empty only if no row is left. */
  lemma AppliedContents(def: IndexDef, tree: map<Key, Row>, changes: seq<RowChange>, ordered: seq<IndexEdit>, base: seq<Entry>)
    requires Sorted(ChangeKey, changes) && Applicable(AsEdits(ordered)) && Last(ordered) == Last(Derived(def, tree, changes))
    requires IsIndexOf(def, tree, base)
    ensures var entries := Merge(base, AsEdits(ordered));
            && Sorted(EntryKey, entries) && Contents(entries) == DerivedIndex(def, tree, changes, Contents(base))
            && (|Overlaid(tree, ChangesMap(changes))| > 0 ==> entries != [])
  {
    AsEditsLast(ordered);
    MergeSorted(base, AsEdits(ordered));
    MergeContents(base, AsEdits(ordered));
    if |Overlaid(tree, ChangesMap(changes))| > 0 {
      var p :| p in Overlaid(tree, ChangesMap(changes));
      EveryKeyIsHeld(def, tree, changes, Contents(base), p);
    }
  }

  /** Only rows that respect the index have one. */
  lemma IndexedIsDistinct(def: IndexDef, rows: map<Key, Row>, entries: seq<Entry>)
    requires IsIndexOf(def, rows, entries)
    ensures Distinct(def, rows)
  {
    forall p, q | p in rows && q in rows && def.key(rows[p], p) == def.key(rows[q], q) ensures p == q {
      assert Contents(entries)[def.key(rows[p], p)] == p;
    }
  }

  /** `applyIndexEdits` for one index. It refuses exactly the data in which two edited rows take one key; otherwise it
      gives the tree of the base index with the derived edits, which is the index of the rows exactly if they respect
      it. */
  method ApplyIndexEdits(o: Options, def: IndexDef, tree: map<Key, Row>, changes: seq<RowChange>, rowCount: nat, root: Node,
                         ghost base: seq<Entry>) returns (r: IndexTree, ghost entries: seq<Entry>)
    requires Accepted(o) && o.minEntries >= 2 && NonEmptyKeys(def) && Sorted(ChangeKey, changes)
    requires IsIndexOf(def, tree, base) && root == TreeOf(o, base)
    requires rowCount == |Overlaid(tree, ChangesMap(changes))|
    ensures rowCount == 0 <==> r.NoTree?
    ensures r.Duplicate? <==> rowCount > 0 && SomeTaken(def, tree, changes)
    ensures r.Tree? <==> rowCount > 0 && !SomeTaken(def, tree, changes)
    ensures r.Tree? ==>
              && r == Tree(TreeOf(o, entries))
              && Sorted(EntryKey, entries) && Contents(entries) == DerivedIndex(def, tree, changes, Contents(base))
              && (IsIndexOf(def, Overlaid(tree, ChangesMap(changes)), entries) <==> Distinct(def, Overlaid(tree, ChangesMap(changes))))
    ensures Distinct(def, Overlaid(tree, ChangesMap(changes))) ==> !SomeTaken(def, tree, changes)
  {
    entries := [];
    ghost var rows := Overlaid(tree, ChangesMap(changes));
    if Distinct(def, rows) { DistinctIsNotTaken(def, tree, changes); }
    if rowCount == 0 { return NoTree, entries; }
    ghost var ordered;
    var edits;
    edits, ordered := OrderedEdits(def, tree, changes);
    if edits.None? { return Duplicate, entries; }
    AppliedContents(def, tree, changes, ordered, base);
    var applied := Apply(o, root, edits.value, base);
    entries := Merge(base, edits.value);
    if Distinct(def, rows) { AppliedIsIndex(def, tree, changes, ordered, base); }
    if IsIndexOf(def, rows, entries) { IndexedIsDistinct(def, rows, entries); }
    r := if applied.Built? then Tree(applied.tree) else Failed;
  }

  // From scratch.

  datatype Stored = Stored(pk: Key, row: Row)

  function StoredKey(s: Stored): Key { s.pk }

  function RowsOf(stored: seq<Stored>): map<Key, Row> {
    var m := LastOf(StoredKey, stored);
    map k | k in m :: m[k].row
  }

  function EntryOf(def: IndexDef, s: Stored): Entry { Entry(def.key(s.row, s.pk), s.pk) }

  function EntriesFor(def: IndexDef, stored: seq<Stored>): seq<Entry> {
    seq(|stored|, i requires 0 <= i < |stored| => EntryOf(def, stored[i]))
  }

  lemma StoredRow(stored: seq<Stored>, i: nat)
    requires Sorted(StoredKey, stored) && i < |stored|
    ensures stored[i].pk in RowsOf(stored) && RowsOf(stored)[stored[i].pk] == stored[i].row
  {
    LastOfSorted(StoredKey, stored);
    assert StoredKey(stored[i]) == stored[i].pk;
  }

  lemma RowIsStored(stored: seq<Stored>, p: Key) returns (i: nat)
    requires p in RowsOf(stored)
    ensures i < |stored| && stored[i] == Stored(p, RowsOf(stored)[p])
  {
    LastOfKeys(StoredKey, stored);
    var s := LastOf(StoredKey, stored)[p];
    i :| 0 <= i < |stored| && stored[i] == s;
  }

  lemma DistinctIsDiffer(def: IndexDef, stored: seq<Stored>)
    requires Sorted(StoredKey, stored)
    ensures KeysDiffer(EntryKey, EntriesFor(def, stored)) <==> Distinct(def, RowsOf(stored))
  {
    var entries, rows := EntriesFor(def, stored), RowsOf(stored);
    if Distinct(def, rows) {
      forall i, j | 0 <= i < j < |entries| ensures EntryKey(entries[i]) != EntryKey(entries[j]) {
        StoredRow(stored, i);
        StoredRow(stored, j);
        assert Less(StoredKey(stored[i]), StoredKey(stored[j]));
        LessIrreflexive(stored[i].pk);
      }
    }
    if KeysDiffer(EntryKey, entries) {
      forall p, q | p in rows && q in rows && def.key(rows[p], p) == def.key(rows[q], q) ensures p == q {
        var i := RowIsStored(stored, p);
        var j := RowIsStored(stored, q);
        assert EntryKey(entries[i]) == EntryKey(entries[j]);
      }
    }
  }

  lemma {:induction false} FewerKeys(entries: seq<Entry>)
    ensures |LastOf(EntryKey, entries)| <= |entries|
    ensures |LastOf(EntryKey, entries)| == |entries| ==> KeysDiffer(EntryKey, entries)
  {
    if entries != [] {
      var n := |entries| - 1;
      FewerKeys(entries[..n]);
      LastOfKeys(EntryKey, entries[..n]);
      var m, k := LastOf(EntryKey, entries[..n]), EntryKey(entries[n]);
      if k in m { UpdateSize(m, k, entries[n]); } else { UpdateSize(m, k, entries[n]); }
      if |LastOf(EntryKey, entries)| == |entries| {
        forall i | 0 <= i < n ensures EntryKey(entries[i]) != k { assert EntryKey(entries[..n][i]) in m; }
      }
    }
  }

  lemma UpdateSize<K, V>(m: map<K, V>, k: K, v: V)
    ensures |m[k := v]| == if k in m then |m| else |m| + 1
  {
    assert m[k := v].Keys == m.Keys + {k};
    assert |m[k := v]| == |m[k := v].Keys| && |m| == |m.Keys|;
    if k in m { assert m.Keys + {k} == m.Keys; }
  }

  lemma SortedIffDiffer(entries: seq<Entry>)
    ensures Sorted(EntryKey, StableSort(EntryKey, entries)) <==> KeysDiffer(EntryKey, entries)
  {
    var sorted := StableSort(EntryKey, entries);
    if KeysDiffer(EntryKey, entries) { SortDiffering(EntryKey, entries); }
    if Sorted(EntryKey, sorted) {
      LastOfSorted(EntryKey, sorted);
      StableSortCorrect(EntryKey, entries);
      StableSortPermutes(EntryKey, entries);
      assert |multiset(sorted)| == |multiset(entries)|;
      FewerKeys(entries);
    }
  }

  lemma SameKeySameItem(entries: seq<Entry>, i: nat, j: nat)
    requires KeysDiffer(EntryKey, entries) && i < |entries| && j < |entries| && EntryKey(entries[i]) == EntryKey(entries[j])
    ensures i == j
  {
  }

  lemma RowRebuilt(def: IndexDef, stored: seq<Stored>, p: Key)
    requires p in RowsOf(stored) && KeysDiffer(EntryKey, EntriesFor(def, stored))
    ensures var m, k := LastOf(EntryKey, EntriesFor(def, stored)), def.key(RowsOf(stored)[p], p);
            k in m && m[k].value == p
  {
    var entries := EntriesFor(def, stored);
    LastOfKeys(EntryKey, entries);
    var i := RowIsStored(stored, p);
    var k := def.key(RowsOf(stored)[p], p);
    assert EntryKey(entries[i]) == k;
    var e := LastOf(EntryKey, entries)[k];
    var j :| 0 <= j < |entries| && entries[j] == e;
    SameKeySameItem(entries, i, j);
  }

  lemma EntryRebuilt(def: IndexDef, stored: seq<Stored>, k: Key)
    requires Sorted(StoredKey, stored) && k in LastOf(EntryKey, EntriesFor(def, stored))
    ensures var rows, p := RowsOf(stored), LastOf(EntryKey, EntriesFor(def, stored))[k].value;
            p in rows && def.key(rows[p], p) == k
  {
    var entries := EntriesFor(def, stored);
    LastOfKeys(EntryKey, entries);
    var e := LastOf(EntryKey, entries)[k];
    var j :| 0 <= j < |entries| && entries[j] == e;
    StoredRow(stored, j);
  }

  lemma UnsortedAgrees(def: IndexDef, stored: seq<Stored>)
    requires Sorted(StoredKey, stored) && KeysDiffer(EntryKey, EntriesFor(def, stored))
    ensures Agree(def, RowsOf(stored), Contents(EntriesFor(def, stored)))
  {
    var rows, index := RowsOf(stored), Contents(EntriesFor(def, stored));
    forall p | p in rows ensures def.key(rows[p], p) in index && index[def.key(rows[p], p)] == p {
      RowRebuilt(def, stored, p);
    }
    forall k | k in index ensures index[k] in rows && def.key(rows[index[k]], index[k]) == k {
      EntryRebuilt(def, stored, k);
    }
  }

  lemma RebuiltIsIndex(def: IndexDef, stored: seq<Stored>)
    requires Sorted(StoredKey, stored) && Distinct(def, RowsOf(stored))
    ensures IsIndexOf(def, RowsOf(stored), StableSort(EntryKey, EntriesFor(def, stored)))
  {
    DistinctIsDiffer(def, stored);
    SortedIffDiffer(EntriesFor(def, stored));
    StableSortCorrect(EntryKey, EntriesFor(def, stored));
    UnsortedAgrees(def, stored);
  }

  /** `rebuildIndexesFromTree` for one index. */
  method RebuildIndex(o: Options, def: IndexDef, stored: seq<Stored>) returns (r: IndexTree, ghost entries: seq<Entry>)
    requires Accepted(o) && o.minEntries >= 2 && Sorted(StoredKey, stored)
    ensures stored == [] <==> r.NoTree?
    ensures stored != [] ==> (r.Tree? <==> Distinct(def, RowsOf(stored)))
    ensures r.Tree? ==> IsIndexOf(def, RowsOf(stored), entries) && r == Tree(TreeOf(o, entries))
  {
    entries := [];
    if stored == [] { return NoTree, entries; }
    var items: seq<Entry> := [];
    for i := 0 to |stored|
      invariant items == EntriesFor(def, stored)[..i]
    {
      items := items + [EntryOf(def, stored[i])];
    }
    assert items == EntriesFor(def, stored);
    DistinctIsDiffer(def, stored);
    SortedIffDiffer(items);
    entries := StableSort(EntryKey, items);
    StableSortCorrect(EntryKey, items);
    var sorted := StableSort(EntryKey, items);
    if def.unique {
      var duplicate := HasDuplicate(sorted);
      if duplicate { return Duplicate, entries; }
    }
    SortingSorted(sorted);
    var built := Build(o, sorted);
    if built.Built? { RebuiltIsIndex(def, stored); }
    r := if built.Built? then Tree(built.tree) else Failed;
  }

  /** Sorting a sorted list changes nothing. */
  lemma {:induction false} SortingSorted(entries: seq<Entry>)
    requires WeaklySorted(EntryKey, entries)
    ensures StableSort(EntryKey, entries) == entries
  {
    if entries != [] {
      var n := |entries| - 1;
      SortingSorted(entries[..n]);
      if n > 0 { assert !Less(EntryKey(entries[n]), EntryKey(entries[n - 1])); }
      assert entries == entries[..n] + [entries[n]];
    }
  }

  /** `checkpointIndexTrees`, one index. Rows that respect the index lead to the one tree of their index, whether the
      delta is usable or not. Rows that do not are refused by a rebuild; with a usable delta a tree is published
      exactly when an edited row takes the key of a row that keeps it and no two edited rows take one key. */
  method CheckpointIndex(o: Options, def: IndexDef, tree: map<Key, Row>, changes: seq<RowChange>, stored: seq<Stored>,
                         usable: bool, root: Node, ghost base: seq<Entry>) returns (r: IndexTree)
    requires Accepted(o) && o.minEntries >= 2 && NonEmptyKeys(def) && Sorted(ChangeKey, changes) && Sorted(StoredKey, stored)
    requires RowsOf(stored) == Overlaid(tree, ChangesMap(changes))
    requires usable ==> IsIndexOf(def, tree, base) && root == TreeOf(o, base)
    ensures r.NoTree? <==> stored == []
    ensures stored != [] && Distinct(def, RowsOf(stored)) ==>
              r.Tree? && forall entries :: IsIndexOf(def, RowsOf(stored), entries) ==> r == Tree(TreeOf(o, entries))
    ensures stored != [] && !Distinct(def, RowsOf(stored)) ==>
              (r.Tree? <==> usable && SomeTakesOver(def, tree, changes) && !SomeTaken(def, tree, changes))
  {
    ghost var entries;
    if usable {
      IndexedIsDistinct(def, tree, base);
      BrokenByEdits(def, tree, changes);
      StoredCount(stored);
      r, entries := ApplyIndexEdits(o, def, tree, changes, |stored|, root, base);
    } else {
      r, entries := RebuildIndex(o, def, stored);
    }
    if stored != [] && Distinct(def, RowsOf(stored)) {
      forall other | IsIndexOf(def, RowsOf(stored), other) ensures r == Tree(TreeOf(o, other)) {
        IndexEntriesUnique(def, RowsOf(stored), other, entries);
      }
    }
  }

  lemma StoredCount(stored: seq<Stored>)
    requires Sorted(StoredKey, stored)
    ensures |RowsOf(stored)| == |stored|
  {
    LastOfSorted(StoredKey, stored);
    assert RowsOf(stored).Keys == LastOf(StoredKey, stored).Keys;
    assert |RowsOf(stored).Keys| == |RowsOf(stored)| && |LastOf(StoredKey, stored).Keys| == |LastOf(StoredKey, stored)|;
  }
}
