/** Secondary indexes against rows: when an index map is the index of a row map, and what one row's change asks
    of it (`encodeIndexKey` and `indexOverlay` of `engine/catalog.go`). */
module IndexAgreement {
  import opened Bytes
  import opened Overlays

  /** A row as its encoded cells; `None` is NULL. */
  type Row = seq<Option<seq<byte>>>

  /** An index as `encodeIndexKey` sees it: the key of a row under a primary key, and whether it holds a NULL. */
  datatype IndexDef = IndexDef(name: string, unique: bool, key: (Row, Key) -> Key, hasNull: Row -> bool)

  /** Two rows share a key only in a unique index and without NULLs: otherwise the key holds the primary key. */
  ghost predicate Separates(def: IndexDef) {
    forall r: Row, p: Key, s: Row, q: Key {:trigger def.key(r, p), def.key(s, q)} ::
      def.key(r, p) == def.key(s, q) && p != q ==> def.unique && !def.hasNull(r) && !def.hasNull(s)
  }

  /** In a unique index the key of a row without NULL does not hold the primary key. */
  ghost predicate SharesKeys(def: IndexDef) {
    forall r: Row, p: Key, q: Key {:trigger def.key(r, p), def.key(r, q)} ::
      def.unique && !def.hasNull(r) ==> def.key(r, p) == def.key(r, q)
  }

  /** `encodeIndexKey` writes at least a marker byte. */
  ghost predicate NonEmptyKeys(def: IndexDef) {
    forall r: Row, p: Key {:trigger def.key(r, p)} :: def.key(r, p) != []
  }

  /** The index map is exactly the key of every row, leading to that row. */
  ghost predicate Agree(def: IndexDef, rows: map<Key, Row>, index: map<Key, Key>) {
    && (forall p {:trigger rows[p]} :: p in rows ==> def.key(rows[p], p) in index && index[def.key(rows[p], p)] == p)
    && (forall k {:trigger index[k]} :: k in index ==> index[k] in rows && def.key(rows[index[k]], index[k]) == k)
  }

  /** No two rows have the same key. */
  ghost predicate Distinct(def: IndexDef, rows: map<Key, Row>) {
    forall p, q {:trigger rows[p], rows[q]} :: p in rows && q in rows && def.key(rows[p], p) == def.key(rows[q], q) ==> p == q
  }

  lemma AgreeingIsDistinct(def: IndexDef, rows: map<Key, Row>, index: map<Key, Key>)
    requires Agree(def, rows, index)
    ensures Distinct(def, rows)
  {
  }

  /** Agreement leaves no choice. */
  lemma AgreeingIsUnique(def: IndexDef, rows: map<Key, Row>, a: map<Key, Key>, b: map<Key, Key>)
    requires Agree(def, rows, a) && Agree(def, rows, b)
    ensures a == b
  {
    assert forall k :: k in a ==> def.key(rows[a[k]], a[k]) == k;
    assert forall k :: k in b ==> def.key(rows[b[k]], b[k]) == k;
  }

  // Index edits.

  /** An entry put or, with `None`, removed. */
  datatype IndexEdit = IndexEdit(key: Key, pk: Option<Key>)

  /** The last edit of each key. */
  function Last(edits: seq<IndexEdit>): map<Key, Option<Key>> {
    if edits == [] then map[] else Last(edits[..|edits| - 1])[edits[|edits| - 1].key := edits[|edits| - 1].pk]
  }

  function Edited(index: map<Key, Key>, e: IndexEdit): map<Key, Key> {
    if e.pk.Some? then index[e.key := e.pk.value] else index - {e.key}
  }

  /** One more edit on top changes one entry. */
  lemma EditedOnTop(tree: map<Key, Key>, base: map<Key, Option<Key>>, edits: seq<IndexEdit>, e: IndexEdit)
    ensures Overlaid(tree, base + Last(edits + [e])) == Edited(Overlaid(tree, base + Last(edits)), e)
  {
    assert (edits + [e])[..|edits|] == edits;
    PlusUpdate(base, Last(edits), e.key, e.pk);
    OverlaidOne(tree, base + Last(edits), e);
  }

  lemma PlusUpdate<K, V>(a: map<K, V>, b: map<K, V>, k: K, v: V)
    ensures a + b[k := v] == (a + b)[k := v]
  {
  }

  lemma OverlaidOne(tree: map<Key, Key>, edits: map<Key, Option<Key>>, e: IndexEdit)
    ensures Overlaid(tree, edits[e.key := e.pk]) == Edited(Overlaid(tree, edits), e)
  {
  }

  /** What holds for every key of the last edits holds for one of the edits. */
  lemma {:induction false} LastIsAnEdit(edits: seq<IndexEdit>, k: Key)
    ensures k in Last(edits) <==> exists i :: 0 <= i < |edits| && edits[i].key == k
    ensures k in Last(edits) ==> exists i :: 0 <= i < |edits| && edits[i] == IndexEdit(k, Last(edits)[k])
  {
    if edits != [] {
      var n := |edits| - 1;
      LastIsAnEdit(edits[..n], k);
      assert edits == edits[..n] + [edits[n]];
      if edits[n].key == k { assert edits[n] == IndexEdit(k, Last(edits)[k]); }
    }
  }

  // One row's change.

  /** A key that may be put for a new row: a unique index without NULLs looks it up, any other need not. */
  predicate Free(def: IndexDef, index: map<Key, Key>, row: Row, k: Key) {
    def.unique && !def.hasNull(row) ==> k !in index
  }

  /** A free key is in no other row's entry. */
  lemma FreeIsUnused(def: IndexDef, rows: map<Key, Row>, index: map<Key, Key>, row: Row, p: Key)
    requires Separates(def) && Agree(def, rows, index) && Free(def, index, row, def.key(row, p))
    ensures def.key(row, p) in index ==> index[def.key(row, p)] == p
  {
    var k := def.key(row, p);
    if k in index && index[k] != p { assert def.key(rows[index[k]], index[k]) == k; }
  }

  lemma InsertAgrees(def: IndexDef, rows: map<Key, Row>, index: map<Key, Key>, row: Row, p: Key)
    requires Separates(def) && Agree(def, rows, index) && p !in rows && Free(def, index, row, def.key(row, p))
    ensures Agree(def, rows[p := row], Edited(index, IndexEdit(def.key(row, p), Some(p))))
  {
    FreeIsUnused(def, rows, index, row, p);
  }

  lemma DeleteAgrees(def: IndexDef, rows: map<Key, Row>, index: map<Key, Key>, p: Key)
    requires Agree(def, rows, index) && p in rows
    ensures Agree(def, rows - {p}, Edited(index, IndexEdit(def.key(rows[p], p), None)))
  {
  }

  /** A put whose key was taken before is the one thing that breaks agreement. */
  lemma PutAgreesOnlyIfFree(def: IndexDef, rows: map<Key, Row>, index: map<Key, Key>, row: Row, p: Key)
    requires Agree(def, rows, index) && p !in rows
    ensures Agree(def, rows[p := row], Edited(index, IndexEdit(def.key(row, p), Some(p)))) <==> def.key(row, p) !in index
  {
    var k := def.key(row, p);
    var after := Edited(index, IndexEdit(k, Some(p)));
    if k in index {
      var q := index[k];
      assert rows[p := row][q] == rows[q] && after[k] == p;
    }
  }

  /** The edits `Update` makes to one index: none if the entry stays, else a removal and a put. */
  function UpdateEdits(def: IndexDef, oldRow: Row, oldKey: Key, newRow: Row, newKey: Key): seq<IndexEdit> {
    var o, n := def.key(oldRow, oldKey), def.key(newRow, newKey);
    if o == n then (if oldKey == newKey then [] else [IndexEdit(n, Some(newKey))])
    else [IndexEdit(o, None), IndexEdit(n, Some(newKey))]
  }

  function EditedAll(index: map<Key, Key>, edits: seq<IndexEdit>): map<Key, Key> {
    if edits == [] then index else Edited(EditedAll(index, edits[..|edits| - 1]), edits[|edits| - 1])
  }

  lemma UpdateAgrees(def: IndexDef, rows: map<Key, Row>, index: map<Key, Key>, oldKey: Key, newRow: Row, newKey: Key)
    requires Separates(def) && Agree(def, rows, index) && oldKey in rows && (newKey == oldKey || newKey !in rows)
    requires def.key(rows[oldKey], oldKey) != def.key(newRow, newKey) ==> Free(def, index, newRow, def.key(newRow, newKey))
    ensures Agree(def, (rows - {oldKey})[newKey := newRow],
                  EditedAll(index, UpdateEdits(def, rows[oldKey], oldKey, newRow, newKey)))
  {
    var o, n := def.key(rows[oldKey], oldKey), def.key(newRow, newKey);
    var edits := UpdateEdits(def, rows[oldKey], oldKey, newRow, newKey);
    var less := index - {o};
    DeleteAgrees(def, rows, index, oldKey);
    if o != n {
      FreeIsUnused(def, rows, index, newRow, newKey);
    }
    PutAgreesOnlyIfFree(def, rows - {oldKey}, less, newRow, newKey);
    EditedByFew(index);
    if o == n {
      assert less[n := newKey] == index[n := newKey];
      if oldKey == newKey { assert index[n := newKey] == index; }
    }
  }

  lemma EditedByFew(index: map<Key, Key>)
    ensures forall a: IndexEdit :: EditedAll(index, [a]) == Edited(index, a)
    ensures forall a: IndexEdit, b: IndexEdit :: EditedAll(index, [a, b]) == Edited(Edited(index, a), b)
  {
    forall a: IndexEdit ensures EditedAll(index, [a]) == Edited(index, a) {
      assert [a][..0] == [];
    }
    forall a: IndexEdit, b: IndexEdit ensures EditedAll(index, [a, b]) == Edited(Edited(index, a), b) {
      assert [a, b][..1] == [a];
    }
  }
}
