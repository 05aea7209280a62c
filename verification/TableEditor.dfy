/** The classes `tableState` and `editor` of `engine/catalog.go`: a transaction's rows and index entries over what
    is committed, the row operations, and the undo of a failed statement. */
module TableEditor {
  import opened Bytes
  import opened Overlays
  import opened Sorting
  import opened IndexAgreement
  import opened IndexDerivation
  import opened IndexOverlays

  /** One table in one transaction. `tree` and `trees` are persisted, `pending` comes from the journal; `edits`
      and the overlays' local parts are the transaction's own. */
  class TableState {
    const schema: Schema
    const tree: map<Key, Row>
    const pending: map<Key, Option<Row>>
    const trees: seq<map<Key, Key>>
    var edits: map<Key, Option<Row>>
    var rows: Option<map<Key, Row>>
    var indexed: bool
    var overlays: seq<Overlay>

    /** `persisted` indexes have a tree; the tree of any other is empty. */
    const persisted: seq<bool>

    constructor (schema: Schema, tree: map<Key, Row>, pending: map<Key, Option<Row>>, trees: seq<map<Key, Key>>, persisted: seq<bool>)
      requires |trees| == |persisted| == |schema.indexes|
      requires forall i :: 0 <= i < |trees| && !persisted[i] ==> trees[i] == map[]
      ensures Valid() && !indexed && edits == map[] && rows == None
      ensures this.schema == schema && this.tree == tree && this.pending == pending && this.trees == trees && this.persisted == persisted
    {
      this.schema, this.tree, this.pending, this.trees, this.persisted := schema, tree, pending, trees, persisted;
      edits, rows, indexed := map[], None, false;
      overlays := seq(|trees|, i => Overlay(map[], []));
    }

    ghost predicate Valid()
      reads this
    {
      && |overlays| == |trees| == |persisted| == |schema.indexes|
      && (forall i :: 0 <= i < |trees| && !persisted[i] ==> trees[i] == map[])
      && (rows.Some? ==> rows.value == Visible())
    }

    /** The rows the transaction sees. */
    ghost function Visible(): map<Key, Row>
      reads this
    {
      Overlaid(Overlaid(tree, pending), edits)
    }

    ghost predicate Agrees()
      reads this
    {
      AllAgree(schema.indexes, Visible(), trees, overlays)
    }

    /** What the transaction may rely on before it derives index edits: persisted trees are the indexes of the data
        tree, and the visible rows respect every index. */
    ghost predicate Derivable()
      reads this
    {
      && |trees| == |persisted| == |schema.indexes|
      && (forall i :: 0 <= i < |trees| && persisted[i] ==> Agree(schema.indexes[i], tree, trees[i]))
      && (forall i :: 0 <= i < |trees| ==> Distinct(schema.indexes[i], Visible()))
    }

    /** `ensureRows`: the visible rows, kept. */
    method EnsureRows()
      requires Valid()
      modifies this`rows
      ensures Valid() && rows == Some(Visible())
    {
      if rows.Some? { return; }
      rows := Some(Overlaid(Overlaid(tree, pending), edits));
    }

    /** `ensureIndexEdits`: a persisted tree is overlaid with what the row edits imply, any other index is made of
        the rows. What was derived is the shared base, none of it the transaction's own. */
    method EnsureIndexEdits()
      requires Valid() && (!indexed ==> Derivable())
      modifies this`overlays, this`indexed, this`rows
      ensures Valid() && indexed
      ensures old(indexed) ==> overlays == old(overlays)
      ensures !old(indexed) ==> Agrees() && forall i :: 0 <= i < |overlays| ==> overlays[i].local == []
      ensures rows.Some? <==> old(rows.Some?) || (!old(indexed) && exists i :: 0 <= i < |persisted| && !persisted[i])
    {
      if indexed { return; }
      var edited := SortedChanges(pending + edits);
      OverlaidTwice(tree, pending, edits);
      var overlaid := DeriveIndexEdits(schema.indexes, tree, edited);
      var whole := RowsForUnpersisted();
      var built := DeriveIndexEdits(schema.indexes, map[], whole);
      overlays := Bases(persisted, overlaid, built);
      indexed := true;
      BasesAgree(schema.indexes, tree, Visible(), trees, persisted, edited, whole, overlaid, built);
    }

    /** All rows, materialised, if some index is to be made of them. */
    method RowsForUnpersisted() returns (whole: seq<RowChange>)
      requires Valid()
      modifies this`rows
      ensures Valid()
      ensures (exists i :: 0 <= i < |persisted| && !persisted[i]) ==>
                rows.Some? && Sorted(ChangeKey, whole) && ChangesMap(whole) == Kept(Visible())
      ensures !(exists i :: 0 <= i < |persisted| && !persisted[i]) ==> rows == old(rows)
    {
      whole := [];
      if exists i :: 0 <= i < |persisted| && !persisted[i] {
        EnsureRows();
        whole := SortedChanges(Kept(rows.value));
      }
    }

    /** `lookupRow`. */
    method LookupRow(key: Key) returns (r: Option<Row>)
      requires Valid()
      ensures r == if key in Visible() then Some(Visible()[key]) else None
    {
      if rows.Some? { return if key in rows.value then Some(rows.value[key]) else None; }
      if key in edits { return edits[key]; }
      if key in pending { return pending[key]; }
      return if key in tree then Some(tree[key]) else None;
    }

    /** `lookupIndexKey`. */
    method LookupIndexKey(i: nat, key: Key) returns (found: bool)
      requires Valid() && i < |overlays|
      ensures found <==> key in IndexOver(trees[i], overlays[i])
    {
      var edit := overlays[i].Get(key);
      if edit.Some? { return edit.value.Some?; }
      return key in trees[i];
    }

    /** `setEdit`. */
    method SetEdit(key: Key, row: Option<Row>)
      requires Valid()
      modifies this`edits, this`rows
      ensures Valid() && edits == old(edits)[key := row]
      ensures rows.Some? == old(rows.Some?)
    {
      EditVisible(Overlaid(tree, pending), edits, key, row);
      edits := edits[key := row];
      if rows.Some? {
        rows := Some(if row.Some? then rows.value[key := row.value] else rows.value - {key});
      }
    }

    /** One row's part of `DiscardChanges`. */
    method Restore(k: Key, b: Before)
      requires Valid() && RestoredShows(Overlaid(tree, pending), edits, k, b)
      modifies this`edits, this`rows
      ensures Valid() && edits == Restored(old(edits), k, b)
    {
      edits := if b.edit.Some? then edits[k := b.edit.value] else edits - {k};
      if rows.Some? {
        rows := Some(if b.row.Some? then rows.value[k := b.row.value] else rows.value - {k});
      }
    }

    method AddIndexEdit(i: nat, e: IndexEdit)
      requires i < |overlays|
      modifies this`overlays
      ensures overlays == old(overlays)[i := AddEdit(old(overlays)[i], e)]
    {
      overlays := overlays[i := AddEdit(overlays[i], e)];
    }

    /** `uniqueClaims`: the keys whose last own edit puts them, for every unique index. */
    method UniqueClaims() returns (claims: seq<(string, Key)>)
      requires Valid()
      ensures forall name, k :: (name, k) in claims <==>
                exists i :: 0 <= i < |overlays| && Claimed(schema.indexes[i], overlays[i], name, k)
    {
      claims := [];
      for i := 0 to |overlays|
        invariant forall name, k :: (name, k) in claims <==>
                    exists j :: 0 <= j < i && Claimed(schema.indexes[j], overlays[j], name, k)
      {
        var def := schema.indexes[i];
        if !def.unique { continue; }
        var last := Last(overlays[i].local);
        var keys := last.Keys;
        ghost var before := claims;
        while keys != {}
          invariant keys <= last.Keys
          invariant forall name, k :: (name, k) in claims <==>
                      (name, k) in before || (Claimed(def, overlays[i], name, k) && k !in keys)
        {
          var k :| k in keys;
          if last[k].Some? { claims := claims + [(def.name, k)]; }
          keys := keys - {k};
        }
      }
    }
  }

  predicate Claimed(def: IndexDef, o: Overlay, name: string, k: Key) {
    def.unique && name == def.name && k in Last(o.local) && Last(o.local)[k].Some?
  }

  lemma OverlayOfBase(tree: map<Key, Key>, o: Overlay)
    requires o.local == []
    ensures IndexOver(tree, o) == Overlaid(tree, o.base)
  {
    assert o.base + map[] == o.base;
  }

  function Bases(persisted: seq<bool>, overlaid: seq<seq<IndexEdit>>, built: seq<seq<IndexEdit>>): seq<Overlay>
    requires |overlaid| == |built| == |persisted|
  {
    seq(|persisted|, i requires 0 <= i < |persisted| => Overlay(Last(if persisted[i] then overlaid[i] else built[i]), []))
  }

  lemma BasesAgree(indexes: seq<IndexDef>, tree: map<Key, Row>, rows: map<Key, Row>, trees: seq<map<Key, Key>>, persisted: seq<bool>,
                   edited: seq<RowChange>, whole: seq<RowChange>, overlaid: seq<seq<IndexEdit>>, built: seq<seq<IndexEdit>>)
    requires |trees| == |persisted| == |indexes| == |overlaid| == |built|
    requires Sorted(ChangeKey, edited) && rows == Overlaid(tree, ChangesMap(edited))
    requires (exists i :: 0 <= i < |persisted| && !persisted[i]) ==> Sorted(ChangeKey, whole) && ChangesMap(whole) == Kept(rows)
    requires forall i :: 0 <= i < |indexes| ==> overlaid[i] == Derived(indexes[i], tree, edited) && built[i] == Derived(indexes[i], map[], whole)
    requires forall i :: 0 <= i < |indexes| ==> Distinct(indexes[i], rows)
    requires forall i :: 0 <= i < |indexes| && persisted[i] ==> Agree(indexes[i], tree, trees[i])
    requires forall i :: 0 <= i < |indexes| && !persisted[i] ==> trees[i] == map[]
    ensures AllAgree(indexes, rows, trees, Bases(persisted, overlaid, built))
  {
    forall i | 0 <= i < |trees| ensures Agree(indexes[i], rows, IndexOver(trees[i], Bases(persisted, overlaid, built)[i])) {
      OverlayOfBase(trees[i], Bases(persisted, overlaid, built)[i]);
      if persisted[i] {
        DerivedAgrees(indexes[i], tree, edited, trees[i]);
      } else {
        KeptIsAll(rows);
        DerivedAgrees(indexes[i], map[], whole, map[]);
      }
    }
  }

  /** Rows as edits that put them. */
  function Kept(rows: map<Key, Row>): map<Key, Option<Row>> { map k | k in rows :: Some(rows[k]) }

  lemma KeptIsAll(rows: map<Key, Row>)
    ensures Overlaid(map[], Kept(rows)) == rows
  {
  }

  /** The edits as a list in primary-key order. */
  method SortedChanges(edits: map<Key, Option<Row>>) returns (changes: seq<RowChange>)
    ensures Sorted(ChangeKey, changes) && ChangesMap(changes) == edits
  {
    var list := ListChanges(edits);
    SortDiffering(ChangeKey, list);
    StableSortCorrect(ChangeKey, list);
    changes := StableSort(ChangeKey, list);
  }

  method ListChanges(edits: map<Key, Option<Row>>) returns (list: seq<RowChange>)
    ensures KeysDiffer(ChangeKey, list) && ChangesMap(list) == edits
  {
    list := [];
    var keys := edits.Keys;
    while keys != {}
      invariant keys <= edits.Keys && Listed(edits, keys, list)
    {
      var k :| k in keys;
      ListOne(edits, keys, list, k);
      list := list + [RowChange(k, edits[k])];
      keys := keys - {k};
    }
  }

  /** The edits outside `keys`, each once. */
  ghost predicate Listed(edits: map<Key, Option<Row>>, keys: set<Key>, list: seq<RowChange>) {
    && ChangesMap(list) == edits - keys && KeysDiffer(ChangeKey, list)
    && forall i :: 0 <= i < |list| ==> list[i].pk !in keys
  }

  lemma ListOne(edits: map<Key, Option<Row>>, keys: set<Key>, list: seq<RowChange>, k: Key)
    requires Listed(edits, keys, list) && k in keys && k in edits
    ensures Listed(edits, keys - {k}, list + [RowChange(k, edits[k])])
  {
    LastOfSnoc(ChangeKey, list, RowChange(k, edits[k]));
    assert ChangesMap(list + [RowChange(k, edits[k])]) == ChangesMap(list)[k := edits[k]];
    PutBack(edits, keys, k);
  }

  lemma PutBack<V>(m: map<Key, V>, keys: set<Key>, k: Key)
    requires k in keys && k in m
    ensures (m - keys)[k := m[k]] == m - (keys - {k})
  {
  }

  /** Setting one edit changes one visible row. */
  lemma EditVisible(base: map<Key, Row>, edits: map<Key, Option<Row>>, key: Key, row: Option<Row>)
    ensures Overlaid(base, edits[key := row])
            == if row.Some? then Overlaid(base, edits)[key := row.value] else Overlaid(base, edits) - {key}
  {
  }

  /** What `remember` keeps of a row before a statement touches it. */
  datatype Before = Before(row: Option<Row>, edit: Option<Option<Row>>)

  function Lookup<V>(m: map<Key, V>, k: Key): Option<V> { if k in m then Some(m[k]) else None }

  /** The statement's first touch of every changed row is remembered, and index edits were only appended. */
  ghost predicate Undoable(before: map<Key, Before>, marks: seq<nat>, base: map<Key, Row>,
                           edits0: map<Key, Option<Row>>, edits: map<Key, Option<Row>>,
                           overlays0: seq<Overlay>, overlays: seq<Overlay>)
  {
    && (forall k {:trigger before[k]} :: k in before ==>
          before[k] == Before(Lookup(Overlaid(base, edits0), k), Lookup(edits0, k)))
    && (forall k {:trigger Lookup(edits, k)} :: k !in before ==> Lookup(edits, k) == Lookup(edits0, k))
    && Appended(marks, overlays0, overlays)
  }

  ghost predicate Appended(marks: seq<nat>, overlays0: seq<Overlay>, overlays: seq<Overlay>) {
    && |marks| == |overlays0| == |overlays|
    && forall i :: 0 <= i < |overlays| ==> AppendedAt(marks[i], overlays0[i], overlays[i])
  }

  predicate AppendedAt(mark: nat, o0: Overlay, o: Overlay) {
    mark == |o0.local| && mark <= |o.local| && o0.base == o.base && o.local[..mark] == o0.local
  }

  lemma TakeOfAppend<T>(a: seq<T>, b: seq<T>, n: nat)
    requires n <= |a|
    ensures (a + b)[..n] == a[..n]
  {
  }

  /** Remembering a row at its first touch keeps a statement undoable. */
  lemma Remembered(before: map<Key, Before>, marks: seq<nat>, base: map<Key, Row>,
                   edits0: map<Key, Option<Row>>, edits: map<Key, Option<Row>>,
                   overlays0: seq<Overlay>, overlays: seq<Overlay>, key: Key)
    requires Undoable(before, marks, base, edits0, edits, overlays0, overlays) && key !in before
    ensures Undoable(before[key := Before(Lookup(Overlaid(base, edits), key), Lookup(edits, key))],
                     marks, base, edits0, edits, overlays0, overlays)
  {
    assert Lookup(edits, key) == Lookup(edits0, key);
    assert Lookup(Overlaid(base, edits), key) == Lookup(Overlaid(base, edits0), key);
  }

  /** A remembered row may change. */
  lemma SetRemembered(before: map<Key, Before>, marks: seq<nat>, base: map<Key, Row>,
                      edits0: map<Key, Option<Row>>, edits: map<Key, Option<Row>>,
                      overlays0: seq<Overlay>, overlays: seq<Overlay>, key: Key, row: Option<Row>)
    requires Undoable(before, marks, base, edits0, edits, overlays0, overlays) && key in before
    ensures Undoable(before, marks, base, edits0, edits[key := row], overlays0, overlays)
  {
    forall k | k !in before ensures Lookup(edits[key := row], k) == Lookup(edits0, k) {
      assert Lookup(edits[key := row], k) == Lookup(edits, k);
    }
  }

  /** `editor`, between `StatementBegin` and the end of the statement. */
  class Editor {
    const table: TableState
    var before: map<Key, Before>
    var marks: seq<nat>
    ghost var edits0: map<Key, Option<Row>>
    ghost var overlays0: seq<Overlay>

    ghost predicate Valid()
      reads this, table
    {
      && table.Valid() && table.indexed
      && Undoable(before, marks, Overlaid(table.tree, table.pending), edits0, table.edits, overlays0, table.overlays)
    }

    /** A new editor and `StatementBegin`. */
    constructor (table: TableState)
      requires table.Valid() && (!table.indexed ==> table.Derivable())
      modifies table`overlays, table`indexed, table`rows
      ensures this.table == table && Valid()
      ensures edits0 == table.edits == old(table.edits) && overlays0 == table.overlays
      ensures if old(table.indexed) then table.overlays == old(table.overlays) else table.Agrees()
    {
      this.table := table;
      before, marks := map[], [];
      edits0, overlays0 := map[], [];
      new;
      Begin();
    }

    /** `StatementBegin`. */
    method Begin()
      requires table.Valid() && (!table.indexed ==> table.Derivable())
      modifies this`before, this`marks, this`edits0, this`overlays0, table`overlays, table`indexed, table`rows
      ensures Valid() && before == map[]
      ensures edits0 == table.edits && overlays0 == table.overlays
      ensures if old(table.indexed) then table.overlays == old(table.overlays) else table.Agrees()
    {
      table.EnsureIndexEdits();
      before := map[];
      marks := Marks(table.overlays);
      edits0, overlays0 := table.edits, table.overlays;
      MarkedNow(table.overlays);
    }

    /** `remember`. */
    method Remember(key: Key, row: Option<Row>)
      requires Valid() && row == Lookup(table.Visible(), key)
      modifies this`before
      ensures Valid() && key in before && old(before).Keys <= before.Keys
    {
      if key in before { return; }
      Remembered(before, marks, Overlaid(table.tree, table.pending), edits0, table.edits, overlays0, table.overlays, key);
      before := before[key := Before(row, if key in table.edits then Some(table.edits[key]) else None)];
    }

    method Set(key: Key, row: Option<Row>)
      requires Valid() && key in before
      modifies table`edits, table`rows
      ensures Valid() && table.edits == old(table.edits)[key := row]
    {
      SetRemembered(before, marks, Overlaid(table.tree, table.pending), edits0, table.edits, overlays0, table.overlays, key, row);
      table.SetEdit(key, row);
    }

    /** `Insert`. A refused row has put its key into the indexes before the one that refused it. */
    method Insert(row: Row) returns (ok: bool)
      requires Valid()
      modifies this`before, table`edits, table`rows, table`overlays
      ensures Valid()
      ensures var s, visible, pk := table.schema, old(table.Visible()), table.schema.pk(row);
              var blocked := if pk.None? || pk.value in visible then 0
                             else Blocked(s.indexes, table.trees, old(table.overlays), row, pk.value, 0);
              && ok == (pk.Some? && pk.value !in visible && blocked == |s.indexes|)
              && table.edits == (if ok then old(table.edits)[pk.value := Some(row)] else old(table.edits))
              && table.overlays == (if pk.None? then old(table.overlays)
                                    else Grown(old(table.overlays), PutEach(s.indexes, row, pk.value), blocked))
      ensures ok && old(table.Agrees()) && AllSeparate(table.schema.indexes) ==> table.Agrees()
    {
      var pk := table.schema.pk(row);
      if pk.None? { return false; }
      ghost var overlays, visible := table.overlays, table.Visible();
      ghost var puts := PutEach(table.schema.indexes, row, pk.value);
      assert Grown(overlays, puts, 0) == overlays;
      var existing := table.LookupRow(pk.value);
      if existing.Some? { return false; }
      var free := PutAll(row, pk.value);
      if !free { return false; }
      Remember(pk.value, None);
      EditVisible(Overlaid(table.tree, table.pending), table.edits, pk.value, Some(row));
      Set(pk.value, Some(row));
      if AllAgree(table.schema.indexes, visible, table.trees, overlays) && AllSeparate(table.schema.indexes) {
        InsertKeepsAgreement(table.schema.indexes, visible, table.trees, overlays, row, pk.value);
      }
      ok := true;
    }

    /** The loop over the indexes of `Insert`. */
    method PutAll(row: Row, p: Key) returns (free: bool)
      requires Valid()
      modifies table`overlays
      ensures Valid()
      ensures var blocked := Blocked(table.schema.indexes, table.trees, old(table.overlays), row, p, 0);
              && free == (blocked == |table.schema.indexes|)
              && table.overlays == Grown(old(table.overlays), PutEach(table.schema.indexes, row, p), blocked)
    {
      ghost var start := table.overlays;
      assert Grown(start, PutEach(table.schema.indexes, row, p), 0) == start;
      for i := 0 to |table.schema.indexes|
        invariant PutUpTo(table.schema.indexes, table.trees, start, row, p, i, table.overlays)
        invariant table.Valid() && Appended(marks, overlays0, table.overlays)
      {
        var def := table.schema.indexes[i];
        var key := def.key(row, p);
        PutOne(table.schema.indexes, table.trees, start, row, p, i, table.overlays);
        if def.unique && !def.hasNull(row) {
          var found := table.LookupIndexKey(i, key);
          if found { return false; }
        }
        AppendedOne(marks, overlays0, table.overlays, i, [IndexEdit(key, Some(p))]);
        table.AddIndexEdit(i, IndexEdit(key, Some(p)));
      }
      free := true;
    }

    /** `Delete`. */
    method Delete(row: Row) returns (ok: bool)
      requires Valid()
      modifies this`before, table`edits, table`rows, table`overlays
      ensures Valid()
      ensures var s, visible, pk := table.schema, old(table.Visible()), table.schema.pk(row);
              && ok == (pk.Some? && pk.value in visible)
              && table.edits == (if ok then old(table.edits)[pk.value := None] else old(table.edits))
              && table.overlays == (if !ok then old(table.overlays)
                                    else Grown(old(table.overlays), RemoveEach(s.indexes, visible[pk.value], pk.value), |s.indexes|))
      ensures ok && old(table.Agrees()) ==> table.Agrees()
    {
      var pk := table.schema.pk(row);
      if pk.None? { return false; }
      ghost var overlays, visible := table.overlays, table.Visible();
      var existing := table.LookupRow(pk.value);
      if existing.None? { return false; }
      RemoveAll(existing.value, pk.value);
      Remember(pk.value, existing);
      EditVisible(Overlaid(table.tree, table.pending), table.edits, pk.value, None);
      Set(pk.value, None);
      if AllAgree(table.schema.indexes, visible, table.trees, overlays) {
        DeleteKeepsAgreement(table.schema.indexes, visible, table.trees, overlays, pk.value);
      }
      ok := true;
    }

    /** The loop over the indexes of `Delete`. */
    method RemoveAll(row: Row, p: Key)
      requires Valid()
      modifies table`overlays
      ensures Valid()
      ensures table.overlays == Grown(old(table.overlays), RemoveEach(table.schema.indexes, row, p), |table.schema.indexes|)
    {
      ghost var start := table.overlays;
      ghost var removals := RemoveEach(table.schema.indexes, row, p);
      assert Grown(start, removals, 0) == start;
      for i := 0 to |table.schema.indexes|
        invariant table.overlays == Grown(start, removals, i) && Valid()
      {
        var key := table.schema.indexes[i].key(row, p);
        AppendedOne(marks, overlays0, table.overlays, i, [IndexEdit(key, None)]);
        GrownOne(start, removals, i);
        table.AddIndexEdit(i, IndexEdit(key, None));
      }
    }

    /** `Update`. The stored row decides which entries move. A refused row has already lost its old place and moved
        its entries in the indexes before the one that refused it. */
    method Update(oldRow: Row, newRow: Row) returns (ok: bool)
      requires Valid()
      modifies this`before, table`edits, table`rows, table`overlays
      ensures Valid()
      ensures var s, visible, oldKey, newKey := table.schema, old(table.Visible()), table.schema.pk(oldRow), table.schema.pk(newRow);
              if oldKey.None? || newKey.None? then
                !ok && table.edits == old(table.edits) && table.overlays == old(table.overlays)
              else if oldKey == newKey && oldRow == newRow then
                ok && table.edits == old(table.edits) && table.overlays == old(table.overlays)
              else if oldKey.value !in visible || (oldKey != newKey && newKey.value in visible) then
                !ok && table.edits == old(table.edits) && table.overlays == old(table.overlays)
              else
                var row := visible[oldKey.value];
                var blocked := MoveBlocked(s.indexes, table.trees, old(table.overlays), row, oldKey.value, newRow, newKey.value, 0);
                var less := if oldKey == newKey then old(table.edits) else old(table.edits)[oldKey.value := None];
                && ok == (blocked == |s.indexes|)
                && table.edits == (if ok then less[newKey.value := Some(newRow)] else less)
                && table.overlays == Grown(old(table.overlays), MoveEach(s.indexes, row, oldKey.value, newRow, newKey.value), blocked)
      ensures ok && old(table.Agrees()) && AllSeparate(table.schema.indexes) ==> table.Agrees()
    {
      var oldPk, newPk := table.schema.pk(oldRow), table.schema.pk(newRow);
      if oldPk.None? || newPk.None? { return false; }
      var oldKey, newKey := oldPk.value, newPk.value;
      if oldKey == newKey && oldRow == newRow { return true; }
      ghost var overlays, visible, edits := table.overlays, table.Visible(), table.edits;
      var existing := table.LookupRow(oldKey);
      if existing.None? { return false; }
      Remember(oldKey, existing);
      if oldKey != newKey {
        var taken := table.LookupRow(newKey);
        if taken.Some? { return false; }
        Remember(newKey, None);
        Set(oldKey, None);
      }
      var free := MoveAll(existing.value, oldKey, newRow, newKey);
      if !free { return false; }
      Set(newKey, Some(newRow));
      MovedVisible(Overlaid(table.tree, table.pending), edits, oldKey, newKey, newRow);
      if AllAgree(table.schema.indexes, visible, table.trees, overlays) && AllSeparate(table.schema.indexes) {
        UpdateKeepsAgreement(table.schema.indexes, visible, table.trees, overlays, oldKey, newRow, newKey);
      }
      ok := true;
    }

    /** The loop over the indexes of `Update`. */
    method MoveAll(oldRow: Row, oldKey: Key, newRow: Row, newKey: Key) returns (free: bool)
      requires Valid()
      modifies table`overlays
      ensures Valid()
      ensures var blocked := MoveBlocked(table.schema.indexes, table.trees, old(table.overlays), oldRow, oldKey, newRow, newKey, 0);
              && free == (blocked == |table.schema.indexes|)
              && table.overlays == Grown(old(table.overlays), MoveEach(table.schema.indexes, oldRow, oldKey, newRow, newKey), blocked)
    {
      ghost var start := table.overlays;
      ghost var moves := MoveEach(table.schema.indexes, oldRow, oldKey, newRow, newKey);
      assert Grown(start, moves, 0) == start;
      for i := 0 to |table.schema.indexes|
        invariant table.overlays == Grown(start, moves, i)
        invariant MoveBlocked(table.schema.indexes, table.trees, start, oldRow, oldKey, newRow, newKey, i)
                  == MoveBlocked(table.schema.indexes, table.trees, start, oldRow, oldKey, newRow, newKey, 0)
        invariant Valid()
      {
        var def := table.schema.indexes[i];
        var o, n := def.key(oldRow, oldKey), def.key(newRow, newKey);
        AppendedOne(marks, overlays0, table.overlays, i, moves[i]);
        GrownOne(start, moves, i);
        if o == n {
          if oldKey != newKey { table.AddIndexEdit(i, IndexEdit(n, Some(newKey))); } else { NothingAdded(table.overlays, i); }
          continue;
        }
        if def.unique && !def.hasNull(newRow) {
          var found := table.LookupIndexKey(i, n);
          if found { return false; }
        }
        AddedTwo(table.overlays, i, IndexEdit(o, None), IndexEdit(n, Some(newKey)));
        table.AddIndexEdit(i, IndexEdit(o, None));
        table.AddIndexEdit(i, IndexEdit(n, Some(newKey)));
      }
      free := true;
    }

    /** `DiscardChanges`: rows, edits and overlays are exactly as when the statement began. */
    method DiscardChanges()
      requires Valid()
      modifies this`before, this`marks, table`edits, table`rows, table`overlays
      ensures table.edits == edits0 && table.overlays == overlays0
      ensures table.Valid() && table.indexed
    {
      ghost var base := Overlaid(table.tree, table.pending);
      ghost var touched := before;
      ghost var overlays, at := table.overlays, marks;
      var keys := before.Keys;
      while keys != {}
        invariant before == touched && Undone(touched, keys, base, edits0, table.edits)
        invariant table.Valid() && table.overlays == overlays && marks == at
      {
        var k :| k in keys;
        var b := before[k];
        UndoOne(touched, keys, base, edits0, table.edits, k);
        table.Restore(k, b);
        keys := keys - {k};
      }
      SameLookups(table.edits, edits0);
      CutBack(marks, overlays0, table.overlays);
      table.overlays := Truncated(marks, table.overlays);
      before, marks := map[], [];
    }
  }

  function Marks(overlays: seq<Overlay>): seq<nat> {
    seq(|overlays|, i requires 0 <= i < |overlays| => |overlays[i].local|)
  }

  lemma MarkedNow(overlays: seq<Overlay>)
    ensures Appended(Marks(overlays), overlays, overlays)
  {
    forall i | 0 <= i < |overlays| ensures AppendedAt(Marks(overlays)[i], overlays[i], overlays[i]) {
      assert overlays[i].local[..|overlays[i].local|] == overlays[i].local;
    }
  }

  predicate Cuttable(marks: seq<nat>, overlays: seq<Overlay>) {
    |marks| == |overlays| && forall i :: 0 <= i < |overlays| ==> marks[i] <= |overlays[i].local|
  }

  function Truncated(marks: seq<nat>, overlays: seq<Overlay>): seq<Overlay>
    requires Cuttable(marks, overlays)
  {
    seq(|overlays|, i requires 0 <= i < |overlays| => Overlay(overlays[i].base, overlays[i].local[..marks[i]]))
  }

  lemma CutBack(marks: seq<nat>, overlays0: seq<Overlay>, overlays: seq<Overlay>)
    requires Appended(marks, overlays0, overlays)
    ensures Cuttable(marks, overlays) && Truncated(marks, overlays) == overlays0
  {
    forall i | 0 <= i < |overlays|
      ensures marks[i] <= |overlays[i].local| && Overlay(overlays[i].base, overlays[i].local[..marks[i]]) == overlays0[i]
    {
      assert AppendedAt(marks[i], overlays0[i], overlays[i]);
    }
  }

  lemma SameLookups<V>(a: map<Key, V>, b: map<Key, V>)
    requires forall k {:trigger Lookup(a, k)} :: Lookup(a, k) == Lookup(b, k)
    ensures a == b
  {
    assert forall k :: k in a ==> Lookup(a, k) == Lookup(b, k);
    forall k | k in b ensures k in a { assert Lookup(a, k) == Lookup(b, k); }
  }

  /** The loop of `Insert` before index `i`: none was taken so far. */
  ghost predicate PutUpTo(indexes: seq<IndexDef>, trees: seq<map<Key, Key>>, start: seq<Overlay>, row: Row, p: Key, i: nat, overlays: seq<Overlay>) {
    && |trees| == |start| == |indexes| && i <= |indexes|
    && overlays == Grown(start, PutEach(indexes, row, p), i)
    && Blocked(indexes, trees, start, row, p, i) == Blocked(indexes, trees, start, row, p, 0)
  }

  lemma PutOne(indexes: seq<IndexDef>, trees: seq<map<Key, Key>>, start: seq<Overlay>, row: Row, p: Key, i: nat, overlays: seq<Overlay>)
    requires PutUpTo(indexes, trees, start, row, p, i, overlays) && i < |indexes|
    ensures var key := indexes[i].key(row, p);
            if Free(indexes[i], IndexOver(trees[i], overlays[i]), row, key)
            then PutUpTo(indexes, trees, start, row, p, i + 1, overlays[i := AddEdit(overlays[i], IndexEdit(key, Some(p)))])
            else Blocked(indexes, trees, start, row, p, 0) == i
  {
    GrownOne(start, PutEach(indexes, row, p), i);
  }

  /** One more index given its edits. */
  lemma GrownOne(overlays: seq<Overlay>, edits: seq<seq<IndexEdit>>, i: nat)
    requires |edits| == |overlays| && i < |overlays|
    ensures Grown(overlays, edits, i + 1) == Grown(overlays, edits, i)[i := AddEdits(overlays[i], edits[i])]
    ensures Grown(overlays, edits, i)[i] == overlays[i]
  {
  }

  lemma NothingAdded(overlays: seq<Overlay>, i: nat)
    requires i < |overlays|
    ensures overlays[i := AddEdits(overlays[i], [])] == overlays
  {
    assert overlays[i].local + [] == overlays[i].local;
  }

  lemma AddedTwo(overlays: seq<Overlay>, i: nat, a: IndexEdit, b: IndexEdit)
    requires i < |overlays|
    ensures var once := overlays[i := AddEdit(overlays[i], a)];
            once[i := AddEdit(once[i], b)] == overlays[i := AddEdits(overlays[i], [a, b])]
  {
    assert overlays[i].local + [a] + [b] == overlays[i].local + [a, b];
  }

  /** A row moved to another key, in the visible rows. */
  lemma MovedVisible(base: map<Key, Row>, edits: map<Key, Option<Row>>, oldKey: Key, newKey: Key, row: Row)
    ensures var less := if oldKey == newKey then edits else edits[oldKey := None];
            Overlaid(base, less[newKey := Some(row)]) == (Overlaid(base, edits) - {oldKey})[newKey := row]
  {
  }

  /** Appending to one index keeps a statement undoable. */
  lemma AppendedOne(marks: seq<nat>, overlays0: seq<Overlay>, overlays: seq<Overlay>, i: nat, es: seq<IndexEdit>)
    requires Appended(marks, overlays0, overlays) && i < |overlays|
    ensures Appended(marks, overlays0, overlays[i := AddEdits(overlays[i], es)])
  {
    var next := overlays[i := AddEdits(overlays[i], es)];
    forall j | 0 <= j < |next| ensures AppendedAt(marks[j], overlays0[j], next[j]) {
      assert AppendedAt(marks[j], overlays0[j], overlays[j]);
      TakeOfAppend(overlays[j].local, es, marks[j]);
    }
  }

  function Restored(edits: map<Key, Option<Row>>, k: Key, b: Before): map<Key, Option<Row>> {
    if b.edit.Some? then edits[k := b.edit.value] else edits - {k}
  }

  /** Only `keys` are still to be undone. */
  ghost predicate Undone(before: map<Key, Before>, keys: set<Key>, base: map<Key, Row>, edits0: map<Key, Option<Row>>, edits: map<Key, Option<Row>>) {
    && keys <= before.Keys
    && (forall k {:trigger before[k]} :: k in before ==>
          before[k] == Before(Lookup(Overlaid(base, edits0), k), Lookup(edits0, k)))
    && (forall k {:trigger Lookup(edits, k)} :: k !in keys ==> Lookup(edits, k) == Lookup(edits0, k))
  }

  /** Putting one row's edit back shows the row that was there. */
  lemma UndoOne(before: map<Key, Before>, keys: set<Key>, base: map<Key, Row>, edits0: map<Key, Option<Row>>, edits: map<Key, Option<Row>>, k: Key)
    requires Undone(before, keys, base, edits0, edits) && k in keys
    ensures Undone(before, keys - {k}, base, edits0, Restored(edits, k, before[k]))
    ensures RestoredShows(base, edits, k, before[k])
  {
    var undone := Restored(edits, k, before[k]);
    assert Lookup(undone, k) == Lookup(edits0, k);
    forall j | j !in keys - {k} ensures Lookup(undone, j) == Lookup(edits0, j) {
      if j != k { assert Lookup(undone, j) == Lookup(edits, j); }
    }
  }

  ghost predicate RestoredShows(base: map<Key, Row>, edits: map<Key, Option<Row>>, k: Key, b: Before) {
    Overlaid(base, Restored(edits, k, b)) == (if b.row.Some? then Overlaid(base, edits)[k := b.row.value] else Overlaid(base, edits) - {k})
  }
}
