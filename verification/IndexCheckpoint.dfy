/** Checkpointing indexes (`engine/engine.go`, `engine/merge.go`): applying derived edits to the base index trees
    gives the trees a rebuild from the edited rows gives. */
module IndexCheckpoint {
  import opened Bytes
  import opened Overlays
  import opened Sorting
  import opened IndexAgreement
  import opened IndexDerivation

  // Ordering derived edits.

  function IndexKeyOf(e: IndexEdit): Key { e.key }

  /** The edits of one key, in order. */
  function Of(edits: seq<IndexEdit>, k: Key): seq<IndexEdit> {
    if edits == [] then []
    else Of(edits[..|edits| - 1], k) + (if edits[|edits| - 1].key == k then [edits[|edits| - 1]] else [])
  }

  lemma OfSnoc(edits: seq<IndexEdit>, e: IndexEdit, k: Key)
    ensures Of(edits + [e], k) == Of(edits, k) + Only(e, k)
  {
    assert (edits + [e])[..|edits|] == edits;
  }

  lemma SwapEmpty<T>(a: seq<T>, b: seq<T>, c: seq<T>)
    requires b == [] || c == []
    ensures (a + b) + c == (a + c) + b
  {
  }

  /** The edit itself, if it is one of the key's. */
  function Only(e: IndexEdit, k: Key): seq<IndexEdit> { if e.key == k then [e] else [] }

  lemma {:induction false} OfInsert(edits: seq<IndexEdit>, e: IndexEdit, k: Key)
    ensures Of(Insert(IndexKeyOf, edits, e), k) == Of(edits, k) + Only(e, k)
  {
    if edits != [] && Less(e.key, edits[|edits| - 1].key) {
      var n := |edits| - 1;
      LessIrreflexive(e.key);
      OfInsert(edits[..n], e, k);
      OfSnoc(Insert(IndexKeyOf, edits[..n], e), edits[n], k);
      SwapEmpty(Of(edits[..n], k), Only(e, k), Only(edits[n], k));
    } else {
      OfSnoc(edits, e, k);
    }
  }

  /** A stable sort keeps the order of each key's edits. */
  lemma {:induction false} OfStableSort(edits: seq<IndexEdit>, k: Key)
    ensures Of(StableSort(IndexKeyOf, edits), k) == Of(edits, k)
  {
    if edits != [] {
      var n := |edits| - 1;
      OfStableSort(edits[..n], k);
      OfInsert(StableSort(IndexKeyOf, edits[..n]), edits[n], k);
    }
  }

  predicate PutsAt(edits: seq<IndexEdit>, i: nat)
    requires i + 1 < |edits|
  {
    edits[i].pk.Some? && edits[i + 1].pk.Some?
  }

  /** Two puts of one key with no removal in between. */
  ghost predicate PutTwice(edits: seq<IndexEdit>, k: Key) {
    exists i :: 0 <= i < |Of(edits, k)| - 1 && PutsAt(Of(edits, k), i)
  }

  ghost predicate Clashes(sorted: seq<IndexEdit>, i: nat)
    requires i + 1 < |sorted|
  {
    sorted[i].key == sorted[i + 1].key && PutsAt(sorted, i)
  }

  ghost predicate SomePutTwice(edits: seq<IndexEdit>) { exists k :: PutTwice(edits, k) }

  ghost predicate SomeClash(sorted: seq<IndexEdit>) { exists i :: 0 <= i < |sorted| - 1 && Clashes(sorted, i) }

  lemma {:induction false} OfKeys(edits: seq<IndexEdit>, k: Key)
    ensures forall i :: 0 <= i < |Of(edits, k)| ==> Of(edits, k)[i].key == k
    ensures edits != [] && edits[|edits| - 1].key == k ==> Of(edits, k) != [] && Of(edits, k)[|Of(edits, k)| - 1] == edits[|edits| - 1]
    ensures Of(edits, k) != [] ==> exists i :: 0 <= i < |edits| && edits[i].key == k
  {
    if edits != [] {
      OfKeys(edits[..|edits| - 1], k);
      if edits[|edits| - 1].key != k && Of(edits, k) != [] {
        var i :| 0 <= i < |edits| - 1 && edits[..|edits| - 1][i].key == k;
        assert edits[i].key == k;
      }
    }
  }

  /** In sorted order a key's edits stand together, so a clash shows between neighbours. */
  lemma {:induction false} ClashesAreNeighbours(sorted: seq<IndexEdit>)
    requires WeaklySorted(IndexKeyOf, sorted)
    ensures SomeClash(sorted) <==> SomePutTwice(sorted)
  {
    if sorted != [] {
      var n := |sorted| - 1;
      var before, x := sorted[..n], sorted[n];
      ClashesAreNeighbours(before);
      if i :| 0 <= i < |sorted| - 1 && Clashes(sorted, i) {
        ClashIsPutTwice(sorted, i);
      }
      if k :| PutTwice(sorted, k) {
        PutTwiceIsClash(sorted, k);
      }
    }
  }

  lemma ClashIsPutTwice(sorted: seq<IndexEdit>, i: nat)
    requires i + 1 < |sorted| && Clashes(sorted, i)
    requires SomeClash(sorted[..|sorted| - 1]) <==> SomePutTwice(sorted[..|sorted| - 1])
    ensures SomePutTwice(sorted)
  {
    var n := |sorted| - 1;
    var before := sorted[..n];
    if i + 1 == n {
      var k := sorted[n].key;
      OfKeys(before, k);
      var was := Of(before, k);
      assert Of(sorted, k) == was + [sorted[n]];
      assert PutsAt(Of(sorted, k), |was| - 1);
      assert PutTwice(sorted, k);
    } else {
      assert Clashes(before, i);
      var k :| PutTwice(before, k);
      var j :| 0 <= j < |Of(before, k)| - 1 && PutsAt(Of(before, k), j);
      assert PutsAt(Of(sorted, k), j);
      assert PutTwice(sorted, k);
    }
  }

  lemma PutTwiceIsClash(sorted: seq<IndexEdit>, k: Key)
    requires sorted != [] && WeaklySorted(IndexKeyOf, sorted) && PutTwice(sorted, k)
    requires SomeClash(sorted[..|sorted| - 1]) <==> SomePutTwice(sorted[..|sorted| - 1])
    ensures SomeClash(sorted)
  {
    var n := |sorted| - 1;
    var before := sorted[..n];
    var was := Of(before, k);
    var j :| 0 <= j < |Of(sorted, k)| - 1 && PutsAt(Of(sorted, k), j);
    if j + 1 < |was| {
      assert PutsAt(was, j);
      assert PutTwice(before, k);
      var i :| 0 <= i < n - 1 && Clashes(before, i);
      assert Clashes(sorted, i);
    } else {
      assert sorted[n].key == k && was != [];
      OfKeys(before, k);
      var i :| 0 <= i < |before| && before[i].key == k;
      assert sorted[n - 1].key == k by {
        if i < n - 1 {
          assert !Less(IndexKeyOf(sorted[n - 1]), IndexKeyOf(sorted[i])) && !Less(IndexKeyOf(sorted[n]), IndexKeyOf(sorted[n - 1]));
          LessTotal(sorted[n - 1].key, k);
        }
      }
      assert was[|was| - 1] == sorted[n - 1] && j == |was| - 1;
      assert Clashes(sorted, n - 1);
    }
  }

  lemma {:induction false} LastIsLastOf(edits: seq<IndexEdit>)
    ensures Last(edits).Keys == LastOf(IndexKeyOf, edits).Keys
    ensures forall k :: k in Last(edits) ==> Last(edits)[k] == LastOf(IndexKeyOf, edits)[k].pk
  {
    if edits != [] { LastIsLastOf(edits[..|edits| - 1]); }
  }

  /** `orderIndexEdits`: a stable sort, then compaction in place; two puts of one key are refused. */
  method OrderIndexEdits(edits: seq<IndexEdit>) returns (ordered: Option<seq<IndexEdit>>)
    ensures ordered.None? <==> SomePutTwice(edits)
    ensures ordered.Some? ==> Sorted(IndexKeyOf, ordered.value) && Last(ordered.value) == Last(edits)
  {
    var sorted := StableSort(IndexKeyOf, edits);
    StableSortCorrect(IndexKeyOf, edits);
    SameTwice(edits);
    ClashesAreNeighbours(sorted);
    ordered := Compact(sorted);
    if ordered.Some? { SameLast(sorted, edits); }
  }

  lemma SameLast(a: seq<IndexEdit>, b: seq<IndexEdit>)
    requires LastOf(IndexKeyOf, a) == LastOf(IndexKeyOf, b)
    ensures Last(a) == Last(b)
  {
    LastIsLastOf(a);
    LastIsLastOf(b);
  }

  /** The compaction loop. */
  method Compact(sorted: seq<IndexEdit>) returns (ordered: Option<seq<IndexEdit>>)
    requires WeaklySorted(IndexKeyOf, sorted)
    ensures ordered.None? <==> SomeClash(sorted)
    ensures ordered.Some? ==> Sorted(IndexKeyOf, ordered.value) && Last(ordered.value) == Last(sorted)
  {
    var out := [];
    assert sorted[..0] == [];
    for i := 0 to |sorted|
      invariant Compacted(sorted, i, out) && ClashFree(sorted, i)
    {
      var e := sorted[i];
      CompactOne(sorted, i, out);
      ClashHere(sorted, i, out);
      var n := |out|;
      if n > 0 && out[n - 1].key == e.key {
        if out[n - 1].pk.Some? && e.pk.Some? { return None; }
        out := out[n - 1 := e];
        continue;
      }
      out := out + [e];
    }
    assert sorted[..|sorted|] == sorted;
    ordered := Some(out);
  }

  lemma SameTwice(edits: seq<IndexEdit>)
    ensures SomePutTwice(edits) <==> SomePutTwice(StableSort(IndexKeyOf, edits))
  {
    forall k ensures PutTwice(edits, k) <==> PutTwice(StableSort(IndexKeyOf, edits), k) { OfStableSort(edits, k); }
  }

  /** The last edit of each key among the first `i`. */
  ghost predicate Compacted(sorted: seq<IndexEdit>, i: nat, out: seq<IndexEdit>)
    requires i <= |sorted|
  {
    && Sorted(IndexKeyOf, out) && Last(out) == Last(sorted[..i])
    && (i == 0 ==> out == []) && (i > 0 ==> out != [] && out[|out| - 1] == sorted[i - 1])
  }

  ghost predicate ClashFree(sorted: seq<IndexEdit>, n: nat)
    requires n <= |sorted|
  {
    forall j :: 0 <= j < n - 1 ==> !Clashes(sorted, j)
  }

  /** The last edit kept is the one before, so the loop sees every clash. */
  lemma ClashHere(sorted: seq<IndexEdit>, i: nat, out: seq<IndexEdit>)
    requires i < |sorted| && Compacted(sorted, i, out) && ClashFree(sorted, i)
    ensures var n, e := |out|, sorted[i];
            if n > 0 && out[n - 1].key == e.key && out[n - 1].pk.Some? && e.pk.Some? then SomeClash(sorted)
            else ClashFree(sorted, i + 1)
  {
    if i > 0 { assert Clashes(sorted, i - 1) <==> sorted[i - 1].key == sorted[i].key && PutsAt(sorted, i - 1); }
  }

  lemma CompactOne(sorted: seq<IndexEdit>, i: nat, out: seq<IndexEdit>)
    requires i < |sorted| && WeaklySorted(IndexKeyOf, sorted) && Compacted(sorted, i, out)
    ensures var n, e := |out|, sorted[i];
            Compacted(sorted, i + 1, if n > 0 && out[n - 1].key == e.key then out[n - 1 := e] else out + [e])
  {
    var n, e := |out|, sorted[i];
    assert sorted[..i + 1][..i] == sorted[..i];
    if n > 0 && out[n - 1].key == e.key {
      var next := out[n - 1 := e];
      assert out[..n - 1] == next[..n - 1];
      OverwriteLast(Last(out[..n - 1]), e.key, out[n - 1].pk, e.pk);
    } else {
      if i > 0 {
        assert !Less(IndexKeyOf(sorted[i]), IndexKeyOf(sorted[i - 1]));
        LessTotal(sorted[i - 1].key, e.key);
      }
      SortedSnoc(IndexKeyOf, out, e);
      assert (out + [e])[..n] == out;
    }
  }

  lemma OverwriteLast<K, V>(m: map<K, V>, k: K, v: V, w: V)
    ensures m[k := v][k := w] == m[k := w]
  {
  }

  // Duplicates among derived edits.

  predicate Takes(def: IndexDef, tree: map<Key, Row>, c: RowChange, k: Key) {
    NewKey(def, c) == Some(k) && !SameEntry(def, tree, c)
  }

  /** Two edited rows that both take the key. */
  ghost predicate TakenTwice(def: IndexDef, tree: map<Key, Row>, changes: seq<RowChange>, k: Key) {
    exists i, j :: 0 <= i < j < |changes| && Takes(def, tree, changes[i], k) && Takes(def, tree, changes[j], k)
  }

  lemma {:induction false} OfAppend(a: seq<IndexEdit>, b: seq<IndexEdit>, k: Key)
    ensures Of(a + b, k) == Of(a, k) + Of(b, k)
  {
    if b == [] {
      assert a + b == a;
    } else {
      var n := |b| - 1;
      OfAppend(a, b[..n], k);
      assert (a + b)[..|a + b| - 1] == a + b[..n];
    }
  }

  lemma {:induction false} OfRemoved(def: IndexDef, tree: map<Key, Row>, changes: seq<RowChange>, k: Key)
    ensures forall i :: 0 <= i < |Of(Removed(def, tree, changes), k)| ==> Of(Removed(def, tree, changes), k)[i].pk.None?
  {
    if changes != [] {
      var n := |changes| - 1;
      OfRemoved(def, tree, changes[..n], k);
      var extra := RemovedBy(def, tree, changes[n]);
      OfAppend(Removed(def, tree, changes[..n]), extra, k);
      if extra != [] { assert extra[..0] == []; }
    }
  }

  ghost predicate SomeTaken(def: IndexDef, tree: map<Key, Row>, changes: seq<RowChange>) {
    exists k :: TakenTwice(def, tree, changes, k)
  }

  /** How many edited rows take the key. */
  function Takers(def: IndexDef, tree: map<Key, Row>, changes: seq<RowChange>, k: Key): nat {
    if changes == [] then 0
    else Takers(def, tree, changes[..|changes| - 1], k) + (if Takes(def, tree, changes[|changes| - 1], k) then 1 else 0)
  }

  lemma {:induction false} TakersAre(def: IndexDef, tree: map<Key, Row>, changes: seq<RowChange>, k: Key)
    ensures Takers(def, tree, changes, k) >= 1 <==> exists i :: 0 <= i < |changes| && Takes(def, tree, changes[i], k)
    ensures Takers(def, tree, changes, k) >= 2 <==> TakenTwice(def, tree, changes, k)
  {
    if changes != [] {
      var n := |changes| - 1;
      var before := changes[..n];
      TakersAre(def, tree, before, k);
      assert forall i :: 0 <= i < n ==> before[i] == changes[i];
    }
  }

  lemma OfAddedBy(def: IndexDef, tree: map<Key, Row>, c: RowChange, k: Key)
    ensures Of(AddedBy(def, tree, c), k) == if Takes(def, tree, c, k) then [IndexEdit(k, Some(c.pk))] else []
  {
    var extra := AddedBy(def, tree, c);
    if extra != [] { OfSnoc([], extra[0], k); assert [] + extra == extra; }
  }

  lemma {:induction false} OfAdded(def: IndexDef, tree: map<Key, Row>, changes: seq<RowChange>, k: Key)
    ensures var added := Of(Added(def, tree, changes), k);
            |added| == Takers(def, tree, changes, k) && forall i :: 0 <= i < |added| ==> added[i].pk.Some?
  {
    if changes != [] {
      var n := |changes| - 1;
      OfAdded(def, tree, changes[..n], k);
      OfAddedBy(def, tree, changes[n], k);
      OfAppend(Added(def, tree, changes[..n]), AddedBy(def, tree, changes[n]), k);
    }
  }

  /** Derived edits are refused if and only if two edited rows take one key. */
  lemma DuplicateCaught(def: IndexDef, tree: map<Key, Row>, changes: seq<RowChange>)
    ensures SomePutTwice(Derived(def, tree, changes)) <==> SomeTaken(def, tree, changes)
  {
    forall k ensures PutTwice(Derived(def, tree, changes), k) <==> TakenTwice(def, tree, changes, k) {
      OfAppend(Removed(def, tree, changes), Added(def, tree, changes), k);
      OfRemoved(def, tree, changes, k);
      OfAdded(def, tree, changes, k);
      TakersAre(def, tree, changes, k);
      var r, a := Of(Removed(def, tree, changes), k), Of(Added(def, tree, changes), k);
      assert forall i :: 0 <= i < |r| ==> (r + a)[i] == r[i];
      assert forall i :: 0 <= i < |a| ==> (r + a)[|r| + i] == a[i];
      if |a| >= 2 { assert PutsAt(r + a, |r|); }
    }
  }

  lemma DistinctIsNotTaken(def: IndexDef, tree: map<Key, Row>, changes: seq<RowChange>)
    requires Sorted(ChangeKey, changes) && Distinct(def, Overlaid(tree, ChangesMap(changes)))
    ensures !SomeTaken(def, tree, changes)
  {
    forall k ensures !TakenTwice(def, tree, changes, k) {
      if TakenTwice(def, tree, changes, k) {
        var i, j :| 0 <= i < j < |changes| && Takes(def, tree, changes[i], k) && Takes(def, tree, changes[j], k);
        ChangeOf(changes, changes[i].pk);
        ChangeOf(changes, changes[j].pk);
        var rows := Overlaid(tree, ChangesMap(changes));
        assert def.key(rows[changes[i].pk], changes[i].pk) == def.key(rows[changes[j].pk], changes[j].pk);
        assert Less(ChangeKey(changes[i]), ChangeKey(changes[j]));
        LessIrreflexive(changes[i].pk);
      }
    }
  }

  // Duplicates that are not among the derived edits.

  /** The row keeps the entry `k` it had: it is not edited, or its edit leaves the entry as it is. */
  predicate Stays(def: IndexDef, tree: map<Key, Row>, changes: seq<RowChange>, q: Key, k: Key) {
    && q in tree && def.key(tree[q], q) == k
    && (q in ChangesMap(changes) ==> SameEntry(def, tree, RowChange(q, ChangesMap(changes)[q])))
  }

  /** An edited row takes the key of a row that keeps its entry. */
  ghost predicate TakesOver(def: IndexDef, tree: map<Key, Row>, changes: seq<RowChange>, i: nat, q: Key) {
    i < |changes| && NewKey(def, changes[i]).Some? && Takes(def, tree, changes[i], NewKey(def, changes[i]).value)
    && Stays(def, tree, changes, q, NewKey(def, changes[i]).value)
  }

  ghost predicate SomeTakesOver(def: IndexDef, tree: map<Key, Row>, changes: seq<RowChange>) {
    exists i, q :: TakesOver(def, tree, changes, i, q)
  }

  /** Edited rows break an index their base respected in two ways: two of them take one key, or one takes the key of a
      row that keeps it. */
  lemma BrokenByEdits(def: IndexDef, tree: map<Key, Row>, changes: seq<RowChange>)
    requires Sorted(ChangeKey, changes) && Distinct(def, tree)
    ensures !Distinct(def, Overlaid(tree, ChangesMap(changes))) <==> SomeTaken(def, tree, changes) || SomeTakesOver(def, tree, changes)
  {
    var rows := Overlaid(tree, ChangesMap(changes));
    if Distinct(def, rows) {
      DistinctIsNotTaken(def, tree, changes);
      forall i, q ensures !TakesOver(def, tree, changes, i, q) {
        if TakesOver(def, tree, changes, i, q) { TakenOverIsShared(def, tree, changes, i, q); }
      }
    } else {
      var p, q :| p in rows && q in rows && def.key(rows[p], p) == def.key(rows[q], q) && p != q;
      SharedIsTaken(def, tree, changes, p, q);
    }
  }

  lemma TakenOverIsShared(def: IndexDef, tree: map<Key, Row>, changes: seq<RowChange>, i: nat, q: Key)
    requires Sorted(ChangeKey, changes) && TakesOver(def, tree, changes, i, q)
    ensures !Distinct(def, Overlaid(tree, ChangesMap(changes)))
  {
    var rows, p := Overlaid(tree, ChangesMap(changes)), changes[i].pk;
    ChangeOf(changes, p);
    assert p in rows && q in rows && def.key(rows[p], p) == def.key(rows[q], q);
  }

  /** A row of the edited table took its key or keeps it. */
  lemma TookOrStays(def: IndexDef, tree: map<Key, Row>, changes: seq<RowChange>, p: Key) returns (i: nat)
    requires Sorted(ChangeKey, changes) && p in Overlaid(tree, ChangesMap(changes))
    ensures var k := def.key(Overlaid(tree, ChangesMap(changes))[p], p);
            if Stays(def, tree, changes, p, k) then true
            else i < |changes| && changes[i].pk == p && NewKey(def, changes[i]) == Some(k) && Takes(def, tree, changes[i], k)
  {
    i := 0;
    ChangeOf(changes, p);
    if p in ChangesMap(changes) { i :| 0 <= i < |changes| && changes[i].pk == p; }
  }

  lemma OneStays(def: IndexDef, tree: map<Key, Row>, changes: seq<RowChange>, p: Key, q: Key, k: Key)
    requires Distinct(def, tree) && Stays(def, tree, changes, p, k) && Stays(def, tree, changes, q, k)
    ensures p == q
  {
    assert def.key(tree[p], p) == def.key(tree[q], q);
  }

  lemma SharedIsTaken(def: IndexDef, tree: map<Key, Row>, changes: seq<RowChange>, p: Key, q: Key)
    requires Sorted(ChangeKey, changes) && Distinct(def, tree)
    requires var rows := Overlaid(tree, ChangesMap(changes)); p in rows && q in rows && def.key(rows[p], p) == def.key(rows[q], q)
    requires p != q
    ensures SomeTaken(def, tree, changes) || SomeTakesOver(def, tree, changes)
  {
    var k := def.key(Overlaid(tree, ChangesMap(changes))[p], p);
    var i := TookOrStays(def, tree, changes, p);
    var j := TookOrStays(def, tree, changes, q);
    if Stays(def, tree, changes, p, k) {
      if Stays(def, tree, changes, q, k) { OneStays(def, tree, changes, p, q, k); }
      assert TakesOver(def, tree, changes, j, p);
    } else if Stays(def, tree, changes, q, k) {
      assert TakesOver(def, tree, changes, i, q);
    } else {
      assert TakenTwice(def, tree, changes, k) by { if i < j { } else { assert j < i; } }
    }
  }

  /** As long as no two edited rows take one key, the derived index holds the key of every edited row. */
  lemma EveryKeyIsHeld(def: IndexDef, tree: map<Key, Row>, changes: seq<RowChange>, index: map<Key, Key>, p: Key)
    requires Sorted(ChangeKey, changes) && Agree(def, tree, index) && p in Overlaid(tree, ChangesMap(changes))
    ensures def.key(Overlaid(tree, ChangesMap(changes))[p], p) in DerivedIndex(def, tree, changes, index)
  {
    var k := def.key(Overlaid(tree, ChangesMap(changes))[p], p);
    var i := TookOrStays(def, tree, changes, p);
    DerivedAt(def, tree, changes, index, k);
    RemovesIs(def, tree, changes, k, index);
    if !Stays(def, tree, changes, p, k) { assert Adds(def, tree, changes, k, p); }
  }
}
