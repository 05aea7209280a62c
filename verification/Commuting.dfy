/** What it means that two transactions do not clash: the order they are applied in makes no difference. So a transaction
    that is admitted on later generations has the effect it would have had on its snapshot. */
module Commuting {
  import opened Bytes
  import opened Overlays
  import opened Sorting
  import opened Pending
  import opened WriteLog
  import opened JournalFrames
  import opened Replay
  import FirstCommitter

  lemma SwappedMaps<K, V>(m: map<K, V>, a: map<K, V>, b: map<K, V>)
    requires a.Keys !! b.Keys
    ensures m + a + b == m + b + a
  {
  }

  lemma EditOfKey(edits: seq<RowEdit>, k: Key)
    ensures k in LastOf(RowKey, edits) ==> exists i :: 0 <= i < |edits| && edits[i].key == k
  {
    LastOfKeys(RowKey, edits);
    if k in LastOf(RowKey, edits) {
      var i :| 0 <= i < |edits| && edits[i] == LastOf(RowKey, edits)[k];
      assert RowKey(edits[i]) == k;
    }
  }

  lemma RowsApart(x: seq<RowEdit>, y: seq<RowEdit>)
    requires forall i, j :: 0 <= i < |x| && 0 <= j < |y| ==> x[i].key != y[j].key
    ensures LastOf(RowKey, x).Keys !! LastOf(RowKey, y).Keys
  {
    forall k ensures !(k in LastOf(RowKey, x) && k in LastOf(RowKey, y)) {
      EditOfKey(x, k);
      EditOfKey(y, k);
    }
  }

  /** One table's part of what edits are applied to. */
  datatype Slot = Slot(roots: Option<Roots>, pending: Option<TablePending>)

  function SlotOf(a: Applied, t: string): Slot {
    Slot(if t in a.tables then Some(a.tables[t]) else None, if t in a.pending then Some(a.pending[t]) else None)
  }

  /** What an edit makes of its table's part. */
  function EditSlot(s: Slot, te: TableEdit, generation: nat): Slot {
    if te.drop then Slot(None, None)
    else
      var before := if s.pending.Some? then s.pending.value else TablePending(None, map[]);
      var rows := before.rows + Stamped(LastOf(RowKey, te.edits), generation);
      if te.schema == [] then Slot(s.roots, Some(TablePending(before.schema, rows)))
      else Slot(Some(Roots(te.schema, if s.roots.Some? then s.roots.value.data else [])), Some(TablePending(Some(te.schema), rows)))
  }

  lemma OneSlot(a: Applied, te: TableEdit, generation: nat, t: string)
    ensures SlotOf(ApplyOne(a, te, generation), t) == if t == te.table then EditSlot(SlotOf(a, t), te, generation) else SlotOf(a, t)
  {
  }

  lemma SameSlots(a: Applied, b: Applied)
    requires forall t :: SlotOf(a, t) == SlotOf(b, t)
    ensures a == b
  {
    forall t ensures (t in a.tables <==> t in b.tables) && (t in a.pending <==> t in b.pending) { assert SlotOf(a, t) == SlotOf(b, t); }
    forall t | t in a.tables ensures a.tables[t] == b.tables[t] { assert SlotOf(a, t) == SlotOf(b, t); }
    forall t | t in a.pending ensures a.pending[t] == b.pending[t] { assert SlotOf(a, t) == SlotOf(b, t); }
    assert a.tables == b.tables && a.pending == b.pending;
  }

  /** Edits of rows of one table. */
  lemma SlotCommutes(s: Slot, x: TableEdit, y: TableEdit, g: nat, h: nat)
    requires !Clash(x, y) && x.table == y.table
    ensures EditSlot(EditSlot(s, x, g), y, h) == EditSlot(EditSlot(s, y, h), x, g)
  {
    RowsApart(x.edits, y.edits);
    var before := if s.pending.Some? then s.pending.value else TablePending(None, map[]);
    SwappedMaps(before.rows, Stamped(LastOf(RowKey, x.edits), g), Stamped(LastOf(RowKey, y.edits), h));
  }

  lemma OneCommutes(a: Applied, x: TableEdit, y: TableEdit, g: nat, h: nat)
    requires !Clash(x, y)
    ensures ApplyOne(ApplyOne(a, x, g), y, h) == ApplyOne(ApplyOne(a, y, h), x, g)
  {
    forall t ensures SlotOf(ApplyOne(ApplyOne(a, x, g), y, h), t) == SlotOf(ApplyOne(ApplyOne(a, y, h), x, g), t) {
      OneSlot(a, x, g, t);
      OneSlot(a, y, h, t);
      OneSlot(ApplyOne(a, x, g), y, h, t);
      OneSlot(ApplyOne(a, y, h), x, g, t);
      if x.table == y.table { SlotCommutes(SlotOf(a, t), x, y, g, h); }
    }
    SameSlots(ApplyOne(ApplyOne(a, x, g), y, h), ApplyOne(ApplyOne(a, y, h), x, g));
  }

  predicate SharesRow(x: TableEdit, y: TableEdit) {
    exists i, j :: 0 <= i < |x.edits| && 0 <= j < |y.edits| && x.edits[i].key == y.edits[j].key
  }

  /** Edits of rows by different generations commute exactly if they are of different tables or rows: nothing less than a clash
      over rows is a clash. */
  lemma RowEditsExactly(a: Applied, x: TableEdit, y: TableEdit, g: nat, h: nat)
    requires !x.ChangesSchema() && !y.ChangesSchema() && g != h
    ensures ApplyOne(ApplyOne(a, x, g), y, h) == ApplyOne(ApplyOne(a, y, h), x, g) <==> x.table != y.table || !SharesRow(x, y)
  {
    if x.table != y.table || !SharesRow(x, y) {
      OneCommutes(a, x.(claims := []), y.(claims := []), g, h);
    } else {
      var i, j :| 0 <= i < |x.edits| && 0 <= j < |y.edits| && x.edits[i].key == y.edits[j].key;
      LastOfKeys(RowKey, x.edits);
      LastOfKeys(RowKey, y.edits);
      assert RowKey(x.edits[i]) == RowKey(y.edits[j]);
      var t, k := x.table, x.edits[i].key;
      OneSlot(a, x, g, t);
      OneSlot(a, y, h, t);
      OneSlot(ApplyOne(a, x, g), y, h, t);
      OneSlot(ApplyOne(a, y, h), x, g, t);
      assert SlotOf(ApplyOne(ApplyOne(a, x, g), y, h), t).pending.value.rows[k].generation == h;
      assert SlotOf(ApplyOne(ApplyOne(a, y, h), x, g), t).pending.value.rows[k].generation == g;
    }
  }

  lemma {:induction false} OnePasses(a: Applied, x: TableEdit, ys: seq<TableEdit>, g: nat, h: nat)
    requires forall j :: 0 <= j < |ys| ==> !Clash(x, ys[j])
    ensures ApplyAll(ApplyOne(a, x, g), ys, h) == ApplyOne(ApplyAll(a, ys, h), x, g)
  {
    if ys != [] {
      var n := |ys| - 1;
      OnePasses(a, x, ys[..n], g, h);
      OneCommutes(ApplyAll(a, ys[..n], h), x, ys[n], g, h);
    }
  }

  /** Transactions that do not clash commute. */
  lemma {:induction false} TransactionsCommute(a: Applied, xs: seq<TableEdit>, ys: seq<TableEdit>, g: nat, h: nat)
    requires !Clashing(xs, ys)
    ensures ApplyAll(ApplyAll(a, xs, g), ys, h) == ApplyAll(ApplyAll(a, ys, h), xs, g)
  {
    if xs != [] {
      var n := |xs| - 1;
      assert forall i, j :: 0 <= i < n && 0 <= j < |ys| && Clash(xs[..n][i], ys[j]) ==> Clash(xs[i], ys[j]);
      TransactionsCommute(a, xs[..n], ys, g, h);
      OnePasses(ApplyAll(a, xs[..n], g), xs[n], ys, g, h);
    }
  }

  /** Commits one after the other, the first of them the generation behind `from`. */
  function ApplyCommits(a: Applied, from: nat, commits: seq<seq<TableEdit>>): Applied {
    if commits == [] then a
    else ApplyAll(ApplyCommits(a, from, commits[..|commits| - 1]), commits[|commits| - 1], from + |commits|)
  }

  lemma {:induction false} TransactionPasses(a: Applied, from: nat, commits: seq<seq<TableEdit>>, edits: seq<TableEdit>, h: nat)
    requires forall n :: 0 <= n < |commits| ==> !Clashing(commits[n], edits)
    ensures ApplyAll(ApplyCommits(a, from, commits), edits, h) == ApplyCommits(ApplyAll(a, edits, h), from, commits)
  {
    if commits != [] {
      var n := |commits| - 1;
      TransactionPasses(a, from, commits[..n], edits, h);
      TransactionsCommute(ApplyCommits(a, from, commits[..n]), commits[n], edits, from + |commits|, h);
    }
  }

  /** A transaction that passes the conflict check of its snapshot at `base`, and is applied behind the commits since, gives what
      it would have given applied to its snapshot with these commits after it. */
  lemma AdmittedAsOnSnapshot(a: Applied, commits: seq<seq<TableEdit>>, base: nat, edits: seq<TableEdit>)
    requires !Conflict(After(0, commits), base, edits)
    ensures base <= |commits|
    ensures var since, h := commits[base..], |commits| + 1;
            ApplyAll(ApplyCommits(a, base, since), edits, h) == ApplyCommits(ApplyAll(a, edits, h), base, since)
  {
    FirstCommitter.ConflictExact(0, commits, base, edits);
    var since := commits[base..];
    forall n | 0 <= n < |since| ensures !Clashing(since[n], edits) { assert since[n] == commits[base + n]; }
    TransactionPasses(a, base, since, edits, |commits| + 1);
  }
}
