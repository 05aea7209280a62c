/** `deriveIndexEdits` of `engine/catalog.go`: the index edits that row edits against a base imply. */
module IndexDerivation {
  import opened Bytes
  import opened Overlays
  import opened Sorting
  import opened IndexAgreement

  /** A row edit with its primary key; `None` deletes. */
  datatype RowChange = RowChange(pk: Key, row: Option<Row>)

  function ChangeKey(c: RowChange): Key { c.pk }

  function ChangesMap(changes: seq<RowChange>): map<Key, Option<Row>> {
    var m := LastOf(ChangeKey, changes);
    map k | k in m :: m[k].row
  }

  function OldKey(def: IndexDef, tree: map<Key, Row>, c: RowChange): Option<Key> {
    if c.pk in tree then Some(def.key(tree[c.pk], c.pk)) else None
  }

  function NewKey(def: IndexDef, c: RowChange): Option<Key> {
    if c.row.Some? then Some(def.key(c.row.value, c.pk)) else None
  }

  predicate SameEntry(def: IndexDef, tree: map<Key, Row>, c: RowChange) {
    OldKey(def, tree, c).Some? && OldKey(def, tree, c) == NewKey(def, c)
  }

  function RemovedBy(def: IndexDef, tree: map<Key, Row>, c: RowChange): seq<IndexEdit> {
    if OldKey(def, tree, c).Some? && !SameEntry(def, tree, c) then [IndexEdit(OldKey(def, tree, c).value, None)] else []
  }

  function AddedBy(def: IndexDef, tree: map<Key, Row>, c: RowChange): seq<IndexEdit> {
    if NewKey(def, c).Some? && !SameEntry(def, tree, c) then [IndexEdit(NewKey(def, c).value, Some(c.pk))] else []
  }

  function Removed(def: IndexDef, tree: map<Key, Row>, changes: seq<RowChange>): seq<IndexEdit> {
    if changes == [] then [] else Removed(def, tree, changes[..|changes| - 1]) + RemovedBy(def, tree, changes[|changes| - 1])
  }

  function Added(def: IndexDef, tree: map<Key, Row>, changes: seq<RowChange>): seq<IndexEdit> {
    if changes == [] then [] else Added(def, tree, changes[..|changes| - 1]) + AddedBy(def, tree, changes[|changes| - 1])
  }

  function Derived(def: IndexDef, tree: map<Key, Row>, changes: seq<RowChange>): seq<IndexEdit> {
    Removed(def, tree, changes) + Added(def, tree, changes)
  }

  function RemovedEach(indexes: seq<IndexDef>, tree: map<Key, Row>, changes: seq<RowChange>): seq<seq<IndexEdit>> {
    seq(|indexes|, i requires 0 <= i < |indexes| => Removed(indexes[i], tree, changes))
  }

  function AddedEach(indexes: seq<IndexDef>, tree: map<Key, Row>, changes: seq<RowChange>): seq<seq<IndexEdit>> {
    seq(|indexes|, i requires 0 <= i < |indexes| => Added(indexes[i], tree, changes))
  }

  method DeriveIndexEdits(indexes: seq<IndexDef>, tree: map<Key, Row>, changes: seq<RowChange>) returns (derived: seq<seq<IndexEdit>>)
    ensures |derived| == |indexes|
    ensures forall i :: 0 <= i < |indexes| ==> derived[i] == Derived(indexes[i], tree, changes)
  {
    var removed: seq<seq<IndexEdit>> := seq(|indexes|, i => []);
    var added: seq<seq<IndexEdit>> := seq(|indexes|, i => []);
    assert changes[..0] == [];
    for n := 0 to |changes|
      invariant removed == RemovedEach(indexes, tree, changes[..n]) && added == AddedEach(indexes, tree, changes[..n])
    {
      assert changes[..n + 1][..n] == changes[..n];
      removed, added := DeriveOne(indexes, tree, changes[n], removed, added);
    }
    assert changes[..|changes|] == changes;
    derived := seq(|indexes|, i requires 0 <= i < |indexes| => removed[i] + added[i]);
  }

  /** One row's part: its edits for every index. */
  method DeriveOne(indexes: seq<IndexDef>, tree: map<Key, Row>, c: RowChange, removed: seq<seq<IndexEdit>>, added: seq<seq<IndexEdit>>)
    returns (removed': seq<seq<IndexEdit>>, added': seq<seq<IndexEdit>>)
    requires |removed| == |added| == |indexes|
    ensures |removed'| == |added'| == |indexes|
    ensures forall i :: 0 <= i < |indexes| ==> removed'[i] == removed[i] + RemovedBy(indexes[i], tree, c)
    ensures forall i :: 0 <= i < |indexes| ==> added'[i] == added[i] + AddedBy(indexes[i], tree, c)
  {
    removed', added' := removed, added;
    for i := 0 to |indexes|
      invariant |removed'| == |added'| == |indexes|
      invariant forall j :: 0 <= j < i ==> removed'[j] == removed[j] + RemovedBy(indexes[j], tree, c)
                                           && added'[j] == added[j] + AddedBy(indexes[j], tree, c)
      invariant forall j :: i <= j < |indexes| ==> removed'[j] == removed[j] && added'[j] == added[j]
    {
      var def := indexes[i];
      var oldKey, newKey := None, None;
      if c.pk in tree { oldKey := Some(def.key(tree[c.pk], c.pk)); }
      if c.row.Some? { newKey := Some(def.key(c.row.value, c.pk)); }
      if oldKey.Some? && newKey.Some? && oldKey == newKey { continue; }
      if oldKey.Some? { removed' := removed'[i := removed'[i] + [IndexEdit(oldKey.value, None)]]; }
      if newKey.Some? { added' := added'[i := added'[i] + [IndexEdit(newKey.value, Some(c.pk))]]; }
    }
  }

  /** The change takes the row's entry away from `k`. */
  predicate LeavesKey(def: IndexDef, tree: map<Key, Row>, c: RowChange, k: Key) {
    c.pk in tree && def.key(tree[c.pk], c.pk) == k && (c.row.None? || def.key(c.row.value, c.pk) != k)
  }

  /** The change brings the row's entry to `k`. */
  predicate TakesKey(def: IndexDef, tree: map<Key, Row>, c: RowChange, k: Key) {
    c.row.Some? && def.key(c.row.value, c.pk) == k && (c.pk !in tree || def.key(tree[c.pk], c.pk) != k)
  }

  lemma {:induction false} RemovedAre(def: IndexDef, tree: map<Key, Row>, changes: seq<RowChange>, e: IndexEdit)
    ensures e in Removed(def, tree, changes) <==> e.pk.None? && exists c :: c in changes && LeavesKey(def, tree, c, e.key)
  {
    if changes != [] {
      var n := |changes| - 1;
      RemovedAre(def, tree, changes[..n], e);
      assert changes == changes[..n] + [changes[n]];
      assert e in RemovedBy(def, tree, changes[n]) <==> e.pk.None? && LeavesKey(def, tree, changes[n], e.key);
    }
  }

  lemma {:induction false} AddedAre(def: IndexDef, tree: map<Key, Row>, changes: seq<RowChange>, e: IndexEdit)
    ensures e in Added(def, tree, changes) <==> e.pk.Some? && exists c :: c in changes && c.pk == e.pk.value && TakesKey(def, tree, c, e.key)
  {
    if changes != [] {
      var n := |changes| - 1;
      AddedAre(def, tree, changes[..n], e);
      assert changes == changes[..n] + [changes[n]];
      assert e in AddedBy(def, tree, changes[n]) <==> e.pk == Some(changes[n].pk) && TakesKey(def, tree, changes[n], e.key);
    }
  }

  /** The derived edits: removals exactly of the keys that changed rows leave, and then additions exactly of those they take. A row
      whose key stays has none. */
  lemma DerivedAre(def: IndexDef, tree: map<Key, Row>, changes: seq<RowChange>)
    ensures var es := Derived(def, tree, changes);
            && (forall i, j :: 0 <= i < j < |es| && es[i].pk.Some? ==> es[j].pk.Some?)
            && (forall k :: IndexEdit(k, None) in es <==> exists c :: c in changes && LeavesKey(def, tree, c, k))
            && (forall k, p :: IndexEdit(k, Some(p)) in es <==> exists c :: c in changes && c.pk == p && TakesKey(def, tree, c, k))
  {
    var r, a := Removed(def, tree, changes), Added(def, tree, changes);
    forall i | 0 <= i < |r| ensures r[i].pk.None? { RemovedAre(def, tree, changes, r[i]); }
    forall i | 0 <= i < |a| ensures a[i].pk.Some? { AddedAre(def, tree, changes, a[i]); }
    forall k ensures IndexEdit(k, None) in r + a <==> exists c :: c in changes && LeavesKey(def, tree, c, k) {
      RemovedAre(def, tree, changes, IndexEdit(k, None));
      AddedAre(def, tree, changes, IndexEdit(k, None));
    }
    forall k, p ensures IndexEdit(k, Some(p)) in r + a <==> exists c :: c in changes && c.pk == p && TakesKey(def, tree, c, k) {
      RemovedAre(def, tree, changes, IndexEdit(k, Some(p)));
      AddedAre(def, tree, changes, IndexEdit(k, Some(p)));
    }
  }

  // Which keys are removed and which added.

  /** A change among these moves the entry `k` away. */
  ghost predicate Removes(def: IndexDef, tree: map<Key, Row>, changes: seq<RowChange>, k: Key) {
    exists i :: 0 <= i < |changes| && OldKey(def, tree, changes[i]) == Some(k) && !SameEntry(def, tree, changes[i])
  }

  ghost predicate Adds(def: IndexDef, tree: map<Key, Row>, changes: seq<RowChange>, k: Key, p: Key) {
    exists i :: 0 <= i < |changes| && changes[i].pk == p && NewKey(def, changes[i]) == Some(k) && !SameEntry(def, tree, changes[i])
  }

  lemma LastSnoc(edits: seq<IndexEdit>, more: seq<IndexEdit>)
    requires |more| <= 1
    ensures Last(edits + more) == if more == [] then Last(edits) else Last(edits)[more[0].key := more[0].pk]
  {
    if more == [] { assert edits + more == edits; } else { assert (edits + more)[..|edits|] == edits; }
  }

  lemma RemovesSnoc(def: IndexDef, tree: map<Key, Row>, changes: seq<RowChange>, k: Key)
    requires changes != []
    ensures var n := |changes| - 1;
            Removes(def, tree, changes, k) <==>
              Removes(def, tree, changes[..n], k) || (OldKey(def, tree, changes[n]) == Some(k) && !SameEntry(def, tree, changes[n]))
  {
    var n := |changes| - 1;
    assert changes == changes[..n] + [changes[n]];
  }

  lemma {:induction false} RemovedKeys(def: IndexDef, tree: map<Key, Row>, changes: seq<RowChange>, k: Key)
    ensures k in Last(Removed(def, tree, changes)) <==> Removes(def, tree, changes, k)
    ensures k in Last(Removed(def, tree, changes)) ==> Last(Removed(def, tree, changes))[k] == None
  {
    if changes != [] {
      var n := |changes| - 1;
      RemovedKeys(def, tree, changes[..n], k);
      RemovesSnoc(def, tree, changes, k);
      LastSnoc(Removed(def, tree, changes[..n]), RemovedBy(def, tree, changes[n]));
    }
  }

  lemma {:induction false} AddedKeys(def: IndexDef, tree: map<Key, Row>, changes: seq<RowChange>, k: Key)
    ensures k in Last(Added(def, tree, changes)) ==>
              Last(Added(def, tree, changes))[k].Some? && Adds(def, tree, changes, k, Last(Added(def, tree, changes))[k].value)
    ensures k !in Last(Added(def, tree, changes)) ==> forall p :: !Adds(def, tree, changes, k, p)
  {
    if changes != [] {
      var n := |changes| - 1;
      var c := changes[n];
      AddedKeys(def, tree, changes[..n], k);
      LastSnoc(Added(def, tree, changes[..n]), AddedBy(def, tree, c));
      if k in Last(Added(def, tree, changes)) {
        AddsSnoc(def, tree, changes, k, Last(Added(def, tree, changes))[k].value);
      } else {
        forall p ensures !Adds(def, tree, changes, k, p) { AddsSnoc(def, tree, changes, k, p); }
      }
    }
  }

  lemma AddsSnoc(def: IndexDef, tree: map<Key, Row>, changes: seq<RowChange>, k: Key, p: Key)
    requires changes != []
    ensures var n := |changes| - 1;
            Adds(def, tree, changes, k, p) <==>
              Adds(def, tree, changes[..n], k, p)
              || (changes[n].pk == p && NewKey(def, changes[n]) == Some(k) && !SameEntry(def, tree, changes[n]))
  {
    var n := |changes| - 1;
    assert changes == changes[..n] + [changes[n]];
  }

  lemma ChangeOf(changes: seq<RowChange>, p: Key)
    requires Sorted(ChangeKey, changes)
    ensures p in ChangesMap(changes) <==> exists i :: 0 <= i < |changes| && changes[i].pk == p
    ensures forall i :: 0 <= i < |changes| && changes[i].pk == p ==> p in ChangesMap(changes) && ChangesMap(changes)[p] == changes[i].row
  {
    LastOfKeys(ChangeKey, changes);
    LastOfSorted(ChangeKey, changes);
    forall i | 0 <= i < |changes| && changes[i].pk == p
      ensures p in ChangesMap(changes) && ChangesMap(changes)[p] == changes[i].row
    {
      assert ChangeKey(changes[i]) == p;
    }
  }

  /** Removed keys, in terms of the maps. */
  lemma RemovesIs(def: IndexDef, tree: map<Key, Row>, changes: seq<RowChange>, k: Key, index: map<Key, Key>)
    requires Sorted(ChangeKey, changes) && Agree(def, tree, index)
    ensures Removes(def, tree, changes, k) <==>
              k in index && index[k] in ChangesMap(changes) && !SameEntry(def, tree, RowChange(index[k], ChangesMap(changes)[index[k]]))
  {
    if k in index {
      ChangeOf(changes, index[k]);
      assert def.key(tree[index[k]], index[k]) == k;
    }
    if Removes(def, tree, changes, k) {
      var i :| 0 <= i < |changes| && OldKey(def, tree, changes[i]) == Some(k) && !SameEntry(def, tree, changes[i]);
      assert def.key(tree[changes[i].pk], changes[i].pk) == k;
    }
  }

  lemma AddsIs(def: IndexDef, tree: map<Key, Row>, changes: seq<RowChange>, k: Key, p: Key)
    requires Sorted(ChangeKey, changes)
    ensures Adds(def, tree, changes, k, p) <==>
              p in ChangesMap(changes) && NewKey(def, RowChange(p, ChangesMap(changes)[p])) == Some(k)
              && !SameEntry(def, tree, RowChange(p, ChangesMap(changes)[p]))
  {
    ChangeOf(changes, p);
  }

  // The derived edits turn the base's index into that of the edited rows.

  function DerivedIndex(def: IndexDef, tree: map<Key, Row>, changes: seq<RowChange>, index: map<Key, Key>): map<Key, Key> {
    Overlaid(index, Last(Derived(def, tree, changes)))
  }

  lemma {:induction false} LastAppend(a: seq<IndexEdit>, b: seq<IndexEdit>)
    ensures Last(a + b) == Last(a) + Last(b)
  {
    if b == [] {
      assert a + b == a;
    } else {
      var n := |b| - 1;
      LastAppend(a, b[..n]);
      assert (a + b)[..|a + b| - 1] == a + b[..n];
    }
  }

  /** What the derived index holds under one key. Additions win over removals, in whatever order rows come. */
  lemma DerivedAt(def: IndexDef, tree: map<Key, Row>, changes: seq<RowChange>, index: map<Key, Key>, k: Key)
    requires Sorted(ChangeKey, changes) && Agree(def, tree, index)
    ensures var d := DerivedIndex(def, tree, changes, index);
            if exists p :: Adds(def, tree, changes, k, p) then k in d && Adds(def, tree, changes, k, d[k])
            else if Removes(def, tree, changes, k) then k !in d
            else (k in d <==> k in index) && (k in d ==> d[k] == index[k])
  {
    LastAppend(Removed(def, tree, changes), Added(def, tree, changes));
    RemovedKeys(def, tree, changes, k);
    AddedKeys(def, tree, changes, k);
  }

  /** Every edited row's entry is in the derived index, if the edited rows respect the index. */
  lemma RowIsIndexed(def: IndexDef, tree: map<Key, Row>, changes: seq<RowChange>, index: map<Key, Key>, p: Key)
    requires Sorted(ChangeKey, changes) && Agree(def, tree, index)
    requires Distinct(def, Overlaid(tree, ChangesMap(changes))) && p in Overlaid(tree, ChangesMap(changes))
    ensures var rows, d := Overlaid(tree, ChangesMap(changes)), DerivedIndex(def, tree, changes, index);
            def.key(rows[p], p) in d && d[def.key(rows[p], p)] == p
  {
    var rows := Overlaid(tree, ChangesMap(changes));
    var k := def.key(rows[p], p);
    DerivedAt(def, tree, changes, index, k);
    AddsIs(def, tree, changes, k, p);
    RemovesIs(def, tree, changes, k, index);
    forall q | Adds(def, tree, changes, k, q) ensures q == p {
      AddsIs(def, tree, changes, k, q);
      assert def.key(rows[q], q) == k;
    }
    if !Adds(def, tree, changes, k, p) {
      assert p in tree && def.key(tree[p], p) == k;
    }
  }

  lemma EntryIsARow(def: IndexDef, tree: map<Key, Row>, changes: seq<RowChange>, index: map<Key, Key>, k: Key)
    requires Sorted(ChangeKey, changes) && Agree(def, tree, index) && k in DerivedIndex(def, tree, changes, index)
    ensures var rows, p := Overlaid(tree, ChangesMap(changes)), DerivedIndex(def, tree, changes, index)[k];
            p in rows && def.key(rows[p], p) == k
  {
    DerivedAt(def, tree, changes, index, k);
    var p := DerivedIndex(def, tree, changes, index)[k];
    AddsIs(def, tree, changes, k, p);
    RemovesIs(def, tree, changes, k, index);
    if !Adds(def, tree, changes, k, p) { assert def.key(tree[p], p) == k; }
  }

  /** The derived edits are right: on the base index they give the index of the edited rows. */
  lemma DerivedAgrees(def: IndexDef, tree: map<Key, Row>, changes: seq<RowChange>, index: map<Key, Key>)
    requires Sorted(ChangeKey, changes) && Agree(def, tree, index)
    requires Distinct(def, Overlaid(tree, ChangesMap(changes)))
    ensures Agree(def, Overlaid(tree, ChangesMap(changes)), DerivedIndex(def, tree, changes, index))
  {
    var rows, d := Overlaid(tree, ChangesMap(changes)), DerivedIndex(def, tree, changes, index);
    forall p | p in rows ensures def.key(rows[p], p) in d && d[def.key(rows[p], p)] == p {
      RowIsIndexed(def, tree, changes, index, p);
    }
    forall k | k in d ensures d[k] in rows && def.key(rows[d[k]], d[k]) == k {
      EntryIsARow(def, tree, changes, index, k);
    }
  }
}
