/** `indexOverlay` of `engine/catalog.go`, and what one insert, delete or update does to every index of a table. */
module IndexOverlays {
  import opened Bytes
  import opened Overlays
  import opened IndexAgreement

  /** `encodeKey` fails on a NULL primary key column. */
  datatype Schema = Schema(pk: Row -> Option<Key>, indexes: seq<IndexDef>)

  /** `indexOverlay`: shared edits, and this transaction's own in order. */
  datatype Overlay = Overlay(base: map<Key, Option<Key>>, local: seq<IndexEdit>) {
    function View(): map<Key, Option<Key>> { base + Last(local) }

    /** `get`: from the end backwards. */
    method Get(key: Key) returns (r: Option<Option<Key>>)
      ensures r == if key in View() then Some(View()[key]) else None
    {
      var i := |local|;
      assert local[..i] == local;
      while i > 0
        invariant 0 <= i <= |local|
        invariant key in Last(local) <==> key in Last(local[..i])
        invariant key in Last(local) ==> Last(local)[key] == Last(local[..i])[key]
      {
        i := i - 1;
        assert local[..i + 1][..i] == local[..i];
        if local[i].key == key { return Some(local[i].pk); }
      }
      r := if key in base then Some(base[key]) else None;
    }
  }

  /** The index a tree and an overlay stand for. */
  function IndexOver(tree: map<Key, Key>, o: Overlay): map<Key, Key> { Overlaid(tree, o.View()) }

  /** Every index agrees with the rows. */
  ghost predicate AllAgree(indexes: seq<IndexDef>, rows: map<Key, Row>, trees: seq<map<Key, Key>>, overlays: seq<Overlay>) {
    && |trees| == |overlays| == |indexes|
    && forall i :: 0 <= i < |indexes| ==> Agree(indexes[i], rows, IndexOver(trees[i], overlays[i]))
  }

  ghost predicate AllSeparate(indexes: seq<IndexDef>) {
    forall i :: 0 <= i < |indexes| ==> Separates(indexes[i])
  }

  function AddEdit(o: Overlay, e: IndexEdit): Overlay { o.(local := o.local + [e]) }

  function AddEdits(o: Overlay, es: seq<IndexEdit>): Overlay { o.(local := o.local + es) }

  lemma AddedEdit(tree: map<Key, Key>, o: Overlay, e: IndexEdit)
    ensures IndexOver(tree, AddEdit(o, e)) == Edited(IndexOver(tree, o), e)
  {
    EditedOnTop(tree, o.base, o.local, e);
  }

  lemma {:induction false} AddedEdits(tree: map<Key, Key>, o: Overlay, es: seq<IndexEdit>)
    ensures IndexOver(tree, AddEdits(o, es)) == EditedAll(IndexOver(tree, o), es)
  {
    if es == [] {
      assert o.local + es == o.local;
    } else {
      var n := |es| - 1;
      AddedEdits(tree, o, es[..n]);
      AddedEdit(tree, AddEdits(o, es[..n]), es[n]);
      assert o.local + es == o.local + es[..n] + [es[n]];
    }
  }

  // What one operation asks of the indexes.

  /** The first index that already holds the row's key, or the number of indexes. */
  function Blocked(indexes: seq<IndexDef>, trees: seq<map<Key, Key>>, overlays: seq<Overlay>, row: Row, p: Key, i: nat): nat
    requires |trees| == |overlays| == |indexes| && i <= |indexes|
    ensures i <= Blocked(indexes, trees, overlays, row, p, i) <= |indexes|
    decreases |indexes| - i
  {
    if i == |indexes| || !Free(indexes[i], IndexOver(trees[i], overlays[i]), row, indexes[i].key(row, p)) then i
    else Blocked(indexes, trees, overlays, row, p, i + 1)
  }

  lemma {:induction false} BlockedIs(indexes: seq<IndexDef>, trees: seq<map<Key, Key>>, overlays: seq<Overlay>, row: Row, p: Key, i: nat)
    requires |trees| == |overlays| == |indexes| && i <= |indexes|
    ensures var b := Blocked(indexes, trees, overlays, row, p, i);
            && (forall j :: i <= j < b ==> Free(indexes[j], IndexOver(trees[j], overlays[j]), row, indexes[j].key(row, p)))
            && (b < |indexes| ==> !Free(indexes[b], IndexOver(trees[b], overlays[b]), row, indexes[b].key(row, p)))
    decreases |indexes| - i
  {
    if i < |indexes| && Free(indexes[i], IndexOver(trees[i], overlays[i]), row, indexes[i].key(row, p)) {
      BlockedIs(indexes, trees, overlays, row, p, i + 1);
    }
  }

  /** A unique index that holds the row's key already; a key with a NULL in it is no one else's. */
  predicate Holds(def: IndexDef, tree: map<Key, Key>, overlay: Overlay, row: Row, p: Key) {
    def.unique && !def.hasNull(row) && def.key(row, p) in IndexOver(tree, overlay)
  }

  /** A row is blocked by the first unique index that holds its key, and by none if there is none. */
  lemma BlockedExactly(indexes: seq<IndexDef>, trees: seq<map<Key, Key>>, overlays: seq<Overlay>, row: Row, p: Key)
    requires |trees| == |overlays| == |indexes|
    ensures var b := Blocked(indexes, trees, overlays, row, p, 0);
            && (forall i :: 0 <= i < b ==> !Holds(indexes[i], trees[i], overlays[i], row, p))
            && (b < |indexes| ==> Holds(indexes[b], trees[b], overlays[b], row, p))
  {
    BlockedIs(indexes, trees, overlays, row, p, 0);
  }

  /** The overlays with the first `n` indexes given their edits. */
  function Grown(overlays: seq<Overlay>, edits: seq<seq<IndexEdit>>, n: nat): seq<Overlay>
    requires |edits| == |overlays| && n <= |overlays|
  {
    seq(|overlays|, i requires 0 <= i < |overlays| => if i < n then AddEdits(overlays[i], edits[i]) else overlays[i])
  }

  function PutEach(indexes: seq<IndexDef>, row: Row, p: Key): seq<seq<IndexEdit>> {
    seq(|indexes|, i requires 0 <= i < |indexes| => [IndexEdit(indexes[i].key(row, p), Some(p))])
  }

  function RemoveEach(indexes: seq<IndexDef>, row: Row, p: Key): seq<seq<IndexEdit>> {
    seq(|indexes|, i requires 0 <= i < |indexes| => [IndexEdit(indexes[i].key(row, p), None)])
  }

  function MoveEach(indexes: seq<IndexDef>, oldRow: Row, oldKey: Key, newRow: Row, newKey: Key): seq<seq<IndexEdit>> {
    seq(|indexes|, i requires 0 <= i < |indexes| => UpdateEdits(indexes[i], oldRow, oldKey, newRow, newKey))
  }

  /** The first index in which the new row's key differs from the old one's and is taken. */
  function MoveBlocked(indexes: seq<IndexDef>, trees: seq<map<Key, Key>>, overlays: seq<Overlay>,
                       oldRow: Row, oldKey: Key, newRow: Row, newKey: Key, i: nat): nat
    requires |trees| == |overlays| == |indexes| && i <= |indexes|
    ensures i <= MoveBlocked(indexes, trees, overlays, oldRow, oldKey, newRow, newKey, i) <= |indexes|
    decreases |indexes| - i
  {
    if i == |indexes| then i
    else if indexes[i].key(oldRow, oldKey) != indexes[i].key(newRow, newKey)
            && !Free(indexes[i], IndexOver(trees[i], overlays[i]), newRow, indexes[i].key(newRow, newKey)) then i
    else MoveBlocked(indexes, trees, overlays, oldRow, oldKey, newRow, newKey, i + 1)
  }

  lemma {:induction false} MoveBlockedIs(indexes: seq<IndexDef>, trees: seq<map<Key, Key>>, overlays: seq<Overlay>,
                                         oldRow: Row, oldKey: Key, newRow: Row, newKey: Key, i: nat)
    requires |trees| == |overlays| == |indexes| && i <= |indexes|
    ensures forall j :: i <= j < MoveBlocked(indexes, trees, overlays, oldRow, oldKey, newRow, newKey, i) ==>
              indexes[j].key(oldRow, oldKey) == indexes[j].key(newRow, newKey)
              || Free(indexes[j], IndexOver(trees[j], overlays[j]), newRow, indexes[j].key(newRow, newKey))
    ensures var b := MoveBlocked(indexes, trees, overlays, oldRow, oldKey, newRow, newKey, i);
            b < |indexes| ==>
              indexes[b].key(oldRow, oldKey) != indexes[b].key(newRow, newKey)
              && !Free(indexes[b], IndexOver(trees[b], overlays[b]), newRow, indexes[b].key(newRow, newKey))
    decreases |indexes| - i
  {
    if i < |indexes| {
      if indexes[i].key(oldRow, oldKey) == indexes[i].key(newRow, newKey)
         || Free(indexes[i], IndexOver(trees[i], overlays[i]), newRow, indexes[i].key(newRow, newKey)) {
        MoveBlockedIs(indexes, trees, overlays, oldRow, oldKey, newRow, newKey, i + 1);
      }
    }
  }

  /** A changed row is blocked by the first unique index where it takes another key than it had, and that holds it. */
  lemma MoveBlockedExactly(indexes: seq<IndexDef>, trees: seq<map<Key, Key>>, overlays: seq<Overlay>,
                           oldRow: Row, oldKey: Key, newRow: Row, newKey: Key)
    requires |trees| == |overlays| == |indexes|
    ensures var b := MoveBlocked(indexes, trees, overlays, oldRow, oldKey, newRow, newKey, 0);
            && (forall i :: 0 <= i < b && indexes[i].key(oldRow, oldKey) != indexes[i].key(newRow, newKey) ==>
                  !Holds(indexes[i], trees[i], overlays[i], newRow, newKey))
            && (b < |indexes| ==>
                  && indexes[b].key(oldRow, oldKey) != indexes[b].key(newRow, newKey)
                  && Holds(indexes[b], trees[b], overlays[b], newRow, newKey))
  {
    MoveBlockedIs(indexes, trees, overlays, oldRow, oldKey, newRow, newKey, 0);
  }

  /** What a changed row does to an index: nothing if neither its key nor its primary key changed, no removal if its key stays. */
  lemma MovesOnly(def: IndexDef, oldRow: Row, oldKey: Key, newRow: Row, newKey: Key)
    ensures var o, n, es := def.key(oldRow, oldKey), def.key(newRow, newKey), UpdateEdits(def, oldRow, oldKey, newRow, newKey);
            && (IndexEdit(o, None) in es <==> o != n)
            && (IndexEdit(n, Some(newKey)) in es <==> o != n || oldKey != newKey)
            && forall e :: e in es ==> e == IndexEdit(o, None) || e == IndexEdit(n, Some(newKey))
  {
    var o, n, es := def.key(oldRow, oldKey), def.key(newRow, newKey), UpdateEdits(def, oldRow, oldKey, newRow, newKey);
    if o != n {
      assert es[0] == IndexEdit(o, None) && es[1] == IndexEdit(n, Some(newKey));
    } else if oldKey != newKey {
      assert es[0] == IndexEdit(n, Some(newKey));
    }
  }

  lemma InsertKeepsAgreement(indexes: seq<IndexDef>, rows: map<Key, Row>, trees: seq<map<Key, Key>>, overlays: seq<Overlay>, row: Row, p: Key)
    requires AllAgree(indexes, rows, trees, overlays) && AllSeparate(indexes) && p !in rows
    requires Blocked(indexes, trees, overlays, row, p, 0) == |indexes|
    ensures AllAgree(indexes, rows[p := row], trees, Grown(overlays, PutEach(indexes, row, p), |indexes|))
  {
    BlockedIs(indexes, trees, overlays, row, p, 0);
    forall i | 0 <= i < |indexes|
      ensures Agree(indexes[i], rows[p := row], IndexOver(trees[i], Grown(overlays, PutEach(indexes, row, p), |indexes|)[i]))
    {
      AddedEdit(trees[i], overlays[i], IndexEdit(indexes[i].key(row, p), Some(p)));
      InsertAgrees(indexes[i], rows, IndexOver(trees[i], overlays[i]), row, p);
    }
  }

  lemma DeleteKeepsAgreement(indexes: seq<IndexDef>, rows: map<Key, Row>, trees: seq<map<Key, Key>>, overlays: seq<Overlay>, p: Key)
    requires AllAgree(indexes, rows, trees, overlays) && p in rows
    ensures AllAgree(indexes, rows - {p}, trees, Grown(overlays, RemoveEach(indexes, rows[p], p), |indexes|))
  {
    forall i | 0 <= i < |indexes|
      ensures Agree(indexes[i], rows - {p}, IndexOver(trees[i], Grown(overlays, RemoveEach(indexes, rows[p], p), |indexes|)[i]))
    {
      AddedEdit(trees[i], overlays[i], IndexEdit(indexes[i].key(rows[p], p), None));
      DeleteAgrees(indexes[i], rows, IndexOver(trees[i], overlays[i]), p);
    }
  }

  lemma UpdateKeepsAgreement(indexes: seq<IndexDef>, rows: map<Key, Row>, trees: seq<map<Key, Key>>, overlays: seq<Overlay>,
                             oldKey: Key, newRow: Row, newKey: Key)
    requires AllAgree(indexes, rows, trees, overlays) && AllSeparate(indexes)
    requires oldKey in rows && (newKey == oldKey || newKey !in rows)
    requires MoveBlocked(indexes, trees, overlays, rows[oldKey], oldKey, newRow, newKey, 0) == |indexes|
    ensures AllAgree(indexes, (rows - {oldKey})[newKey := newRow], trees,
                     Grown(overlays, MoveEach(indexes, rows[oldKey], oldKey, newRow, newKey), |indexes|))
  {
    var each := MoveEach(indexes, rows[oldKey], oldKey, newRow, newKey);
    MoveBlockedIs(indexes, trees, overlays, rows[oldKey], oldKey, newRow, newKey, 0);
    forall i | 0 <= i < |indexes|
      ensures Agree(indexes[i], (rows - {oldKey})[newKey := newRow], IndexOver(trees[i], Grown(overlays, each, |indexes|)[i]))
    {
      AddedEdits(trees[i], overlays[i], each[i]);
      UpdateAgrees(indexes[i], rows, IndexOver(trees[i], overlays[i]), oldKey, newRow, newKey);
    }
  }

  /** A failed insert has already put the row's key into the indexes before the one that refused it. They stay
      agreed only if there are none: without the undo of the statement, an entry leads to no row. */
  lemma FailedInsertAgrees(indexes: seq<IndexDef>, rows: map<Key, Row>, trees: seq<map<Key, Key>>, overlays: seq<Overlay>, row: Row, p: Key)
    requires AllAgree(indexes, rows, trees, overlays) && p !in rows
    requires Blocked(indexes, trees, overlays, row, p, 0) < |indexes|
    ensures var b := Blocked(indexes, trees, overlays, row, p, 0);
            AllAgree(indexes, rows, trees, Grown(overlays, PutEach(indexes, row, p), b)) <==> b == 0
  {
    var b := Blocked(indexes, trees, overlays, row, p, 0);
    var grown := Grown(overlays, PutEach(indexes, row, p), b);
    if b == 0 {
      assert grown == overlays;
    } else {
      AddedEdit(trees[0], overlays[0], IndexEdit(indexes[0].key(row, p), Some(p)));
      assert grown[0] == AddEdit(overlays[0], IndexEdit(indexes[0].key(row, p), Some(p)));
      assert IndexOver(trees[0], grown[0])[indexes[0].key(row, p)] == p;
    }
  }
}
