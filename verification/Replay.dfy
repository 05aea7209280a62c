/** What a journal means: the working view its records lead to, applied one by one from the base snapshot.
    `load` of `common/repository/working.go` is proved against this in `WorkingState`. */
module Replay {
  import opened Bytes
  import opened Sorting
  import opened Overlays
  import opened Pending
  import opened WriteLog
  import opened JournalFrames

  /** The tables of every data commit. */
  type Git = string -> Manifest

  datatype Snapshot = Snapshot(commit: string, generation: nat, tables: Manifest)

  /** `pendingTableEdits`; rows stand for `PendingRows.Edits()`. */
  datatype TablePending = TablePending(schema: Option<seq<byte>>, rows: map<Key, RowEdit>)

  datatype View = View(snapshot: Snapshot, generation: nat, dirty: bool, base: string,
                       pending: map<string, TablePending>, writes: Option<Log>)

  function BaseSnapshot(git: Git, commit: string, generation: nat): Snapshot {
    Snapshot(commit, generation, git(commit))
  }

  function CleanView(git: Git, commit: string, generation: nat): View {
    View(BaseSnapshot(git, commit, generation), generation, false, commit, map[], None)
  }

  // Applying typed edits.

  datatype Applied = Applied(tables: Manifest, pending: map<string, TablePending>)

  function ApplyOne(a: Applied, te: TableEdit, generation: nat): Applied {
    if te.drop then Applied(a.tables - {te.table}, a.pending - {te.table})
    else
      var before := if te.table in a.pending then a.pending[te.table] else TablePending(None, map[]);
      var rows := before.rows + Stamped(LastOf(RowKey, te.edits), generation);
      if |te.schema| > 0 then
        var data := if te.table in a.tables then a.tables[te.table].data else [];
        Applied(a.tables[te.table := Roots(te.schema, data)], a.pending[te.table := TablePending(Some(te.schema), rows)])
      else Applied(a.tables, a.pending[te.table := TablePending(before.schema, rows)])
  }

  function ApplyAll(a: Applied, edits: seq<TableEdit>, generation: nat): Applied {
    if edits == [] then a
    else ApplyOne(ApplyAll(a, edits[..|edits| - 1], generation), edits[|edits| - 1], generation)
  }

  /** `applyTypedEditsToSnapshot`: copies of the maps, edited in place. */
  method ApplyTypedEdits(tables: Manifest, existing: map<string, TablePending>, edits: seq<TableEdit>, generation: nat)
    returns (manifest: Manifest, pending: map<string, TablePending>)
    ensures Applied(manifest, pending) == ApplyAll(Applied(tables, existing), edits, generation)
  {
    manifest, pending := tables, existing;
    assert edits[..0] == [];
    for i := 0 to |edits|
      invariant Applied(manifest, pending) == ApplyAll(Applied(tables, existing), edits[..i], generation)
    {
      var te := edits[i];
      assert edits[..i + 1][..i] == edits[..i];
      if te.drop {
        manifest, pending := manifest - {te.table}, pending - {te.table};
        continue;
      }
      var entry := TablePending(None, map[]);
      if te.table in pending { entry := pending[te.table]; }
      if |te.schema| > 0 {
        entry := entry.(schema := Some(te.schema));
        var data := if te.table in manifest then manifest[te.table].data else [];
        manifest := manifest[te.table := Roots(te.schema, data)];
      }
      entry := entry.(rows := entry.rows + Stamped(LastOf(RowKey, te.edits), generation));
      pending := pending[te.table := entry];
    }
    assert edits[..|edits|] == edits;
  }

  // What the edits of a transaction come to, table by table.

  predicate Names(edits: seq<TableEdit>, t: string) { exists i :: 0 <= i < |edits| && edits[i].table == t }

  predicate Drops(edits: seq<TableEdit>, t: string) { exists i :: 0 <= i < |edits| && edits[i].table == t && edits[i].drop }

  /** The last edit of the table. */
  function LastOn(edits: seq<TableEdit>, t: string): Option<TableEdit> {
    if edits == [] then None
    else if edits[|edits| - 1].table == t then Some(edits[|edits| - 1])
    else LastOn(edits[..|edits| - 1], t)
  }

  /** The last schema given to the table since it was last dropped. */
  function LastSchema(edits: seq<TableEdit>, t: string): Option<seq<byte>> {
    if edits == [] then None
    else
      var te := edits[|edits| - 1];
      if te.table == t && te.drop then None
      else if te.table == t && te.schema != [] then Some(te.schema)
      else LastSchema(edits[..|edits| - 1], t)
  }

  /** The last edit of a row of the table since it was last dropped. */
  function LastRow(edits: seq<TableEdit>, t: string, k: Key): Option<RowEdit> {
    if edits == [] then None
    else
      var te := edits[|edits| - 1];
      if te.table == t && te.drop then None
      else if te.table == t && k in LastOf(RowKey, te.edits) then Some(LastOf(RowKey, te.edits)[k])
      else LastRow(edits[..|edits| - 1], t, k)
  }

  lemma NamesSnoc(edits: seq<TableEdit>, t: string)
    requires edits != []
    ensures var n := |edits| - 1;
            && (Names(edits, t) <==> Names(edits[..n], t) || edits[n].table == t)
            && (Drops(edits, t) <==> Drops(edits[..n], t) || (edits[n].table == t && edits[n].drop))
  {
    var n := |edits| - 1;
    assert forall i :: 0 <= i < n ==> edits[..n][i] == edits[i];
  }

  /** A table's roots: the schema is the last one given since the last drop, or the one there was; the data is what there was,
      and none after a drop. */
  lemma {:induction false} TableAfter(a: Applied, edits: seq<TableEdit>, generation: nat, t: string)
    ensures var r, schema := ApplyAll(a, edits, generation), LastSchema(edits, t);
            && (t in r.tables <==> schema.Some? || (t in a.tables && !Drops(edits, t)))
            && (t in r.tables ==>
                  && r.tables[t].schema == (if schema.Some? then schema.value else a.tables[t].schema)
                  && r.tables[t].data == if t in a.tables && !Drops(edits, t) then a.tables[t].data else [])
  {
    if edits != [] {
      TableAfter(a, edits[..|edits| - 1], generation, t);
      NamesSnoc(edits, t);
    }
  }

  /** A table's pending schema likewise; nothing is pending for a table that was dropped last. */
  lemma {:induction false} PendingAfter(a: Applied, edits: seq<TableEdit>, generation: nat, t: string)
    ensures var r, last, schema := ApplyAll(a, edits, generation), LastOn(edits, t), LastSchema(edits, t);
            && (t in r.pending <==> if last.Some? then !last.value.drop else t in a.pending)
            && (t in r.pending ==>
                  r.pending[t].schema == if schema.Some? then schema
                                         else if t in a.pending && !Drops(edits, t) then a.pending[t].schema else None)
  {
    if edits != [] {
      var n := |edits| - 1;
      PendingAfter(a, edits[..n], generation, t);
      NamesSnoc(edits, t);
      if t !in ApplyAll(a, edits[..n], generation).pending { NothingSince(edits[..n], t, []); }
    }
  }

  /** A row's pending edit is its last one since the last drop, with this generation, or the one there was. */
  lemma {:induction false} RowAfter(a: Applied, edits: seq<TableEdit>, generation: nat, t: string, k: Key)
    requires t in ApplyAll(a, edits, generation).pending
    ensures var rows, row := ApplyAll(a, edits, generation).pending[t].rows, LastRow(edits, t, k);
            var was := t in a.pending && !Drops(edits, t) && k in a.pending[t].rows;
            && (k in rows <==> row.Some? || was)
            && (k in rows ==> rows[k] == if row.Some? then row.value.(generation := generation) else a.pending[t].rows[k])
  {
    if edits != [] {
      var n := |edits| - 1;
      NamesSnoc(edits, t);
      if t in ApplyAll(a, edits[..n], generation).pending {
        RowAfter(a, edits[..n], generation, t, k);
      } else {
        PendingAfter(a, edits[..n], generation, t);
        NothingSince(edits[..n], t, k);
      }
    }
  }

  lemma {:induction false} NothingSince(edits: seq<TableEdit>, t: string, k: Key)
    requires LastOn(edits, t).None? || LastOn(edits, t).value.drop
    ensures LastRow(edits, t, k) == None && LastSchema(edits, t) == None && (LastOn(edits, t).Some? ==> Drops(edits, t))
  {
    if edits != [] {
      NamesSnoc(edits, t);
      if edits[|edits| - 1].table != t { NothingSince(edits[..|edits| - 1], t, k); }
    }
  }

  /** A table that no edit names is untouched. */
  lemma {:induction false} Untouched(a: Applied, edits: seq<TableEdit>, generation: nat, t: string)
    requires !Names(edits, t)
    ensures var r := ApplyAll(a, edits, generation);
            && (t in r.tables <==> t in a.tables) && (t in a.tables ==> r.tables[t] == a.tables[t])
            && (t in r.pending <==> t in a.pending) && (t in a.pending ==> r.pending[t] == a.pending[t])
  {
    if edits != [] {
      NamesSnoc(edits, t);
      Untouched(a, edits[..|edits| - 1], generation, t);
    }
  }

  /** The rows part of the pending edits, which the conflict check reads. */
  function RowsPart(pending: map<string, TablePending>): map<string, map<Key, RowEdit>> {
    map t | t in pending :: pending[t].rows
  }

  lemma {:induction false} RowsPartAfter(a: Applied, edits: seq<TableEdit>, generation: nat)
    ensures RowsPart(ApplyAll(a, edits, generation).pending) == RowsAfterAll(RowsPart(a.pending), edits, generation)
  {
    if edits != [] {
      RowsPartAfter(a, edits[..|edits| - 1], generation);
    }
  }

  function WritesOf(v: View): Writes {
    Writes(v.generation, v.writes, RowsPart(v.pending))
  }

  // Replaying records.

  /** A view and the transactions prepared but not committed. */
  datatype State = State(view: View, prepares: map<string, Record>)

  /** The effect of a committed transaction on the view. */
  function ApplyCommit(v: View, p: Record): View
    requires (p.Prepare? && p.manifest.Some?) || (p.TypedPrepare? && p.generation > 0)
  {
    if p.TypedPrepare? then
      var a := ApplyAll(Applied(v.snapshot.tables, v.pending), p.edits, p.generation);
      View(Snapshot(v.snapshot.commit, p.generation, a.tables), p.generation, true, v.base, a.pending,
           Some(Recorded(v.writes, p.edits, p.generation)))
    else
      View(Snapshot(v.snapshot.commit, p.generation, p.manifest.value), p.generation, true, v.base, map[], None)
  }

  /** A prepare that replay accepts. */
  predicate Complete(r: Record) {
    || (r.Prepare? && r.manifest.Some? && r.tx != "" && r.intact)
    || (r.TypedPrepare? && r.tx != "" && r.edits != [])
  }

  /** A commit marker that matches its prepare and the view. */
  predicate Commits(v: View, prepares: map<string, Record>, r: Record) {
    r.CommitMark? && r.tx in prepares &&
    var p := prepares[r.tx];
    && Complete(p) && p.generation == r.generation && p.generation == v.generation + 1
    && (p.base == v.base || !v.dirty)
    && (p.Prepare? ==> p.inventoried)
  }

  /** The view a commit is applied to: a clean one first moves to the transaction's base. */
  function Rebased(git: Git, v: View, base: string): View {
    if base == v.base then v else CleanView(git, base, v.generation)
  }

  function Step(git: Git, s: State, r: Record): Option<State> {
    match r
    case Prepare(_, _, _, _, _, _) => if Complete(r) then Some(State(s.view, s.prepares[r.tx := r])) else None
    case TypedPrepare(_, _, _, _) => if Complete(r) then Some(State(s.view, s.prepares[r.tx := r])) else None
    case CommitMark(tx, _, _) =>
      if Commits(s.view, s.prepares, r) then
        var p := s.prepares[tx];
        Some(State(ApplyCommit(Rebased(git, s.view, p.base), p), s.prepares - {tx}))
      else None
    case Checkpoint(generation, _, commit, _, _) =>
      if s.prepares == map[] && generation == s.view.generation then Some(State(CleanView(git, commit, generation), map[]))
      else None
    case OtherKind => None
  }

  function Run(git: Git, s: State, records: seq<Record>): Option<State> {
    if records == [] then Some(s)
    else
      match Run(git, s, records[..|records| - 1])
      case None => None
      case Some(t) => Step(git, t, records[|records| - 1])
  }

  lemma {:induction false} RunAppend(git: Git, s: State, a: seq<Record>, b: seq<Record>)
    ensures Run(git, s, a + b) == match Run(git, s, a) case None => None case Some(t) => Run(git, t, b)
  {
    if b == [] {
      assert a + b == a;
    } else {
      RunAppend(git, s, a, b[..|b| - 1]);
      assert (a + b)[..|a + b| - 1] == a + b[..|b| - 1];
    }
  }

  /** The base a full replay starts from: that of the first prepare, or the head. */
  function InitialBase(head: string, records: seq<Record>): string {
    if records == [] then head
    else if (records[0].Prepare? || records[0].TypedPrepare?) && records[0].base != "" then records[0].base
    else InitialBase(head, records[1..])
  }

  /** An anchor, the checkpoint that starts a compacted journal, carries its generation in. */
  function InitialGeneration(records: seq<Record>): nat {
    if records != [] && records[0].Checkpoint? then records[0].generation else 0
  }

  function Start(git: Git, head: string, records: seq<Record>): State {
    State(CleanView(git, InitialBase(head, records), InitialGeneration(records)), map[])
  }

  function FullReplay(git: Git, head: string, records: seq<Record>): Option<State> {
    Run(git, Start(git, head, records), records)
  }

  /** `reconcileHead`. */
  function Reconcile(git: Git, v: View, head: string): Option<View> {
    if v.base == head then Some(v)
    else if v.dirty && git(head) != v.snapshot.tables then None
    else Some(v.(snapshot := BaseSnapshot(git, head, v.generation), base := head, dirty := false, writes := None))
  }

  /** What loading a journal of these records gives. */
  function Loaded(git: Git, head: string, records: seq<Record>): Option<View> {
    match FullReplay(git, head, records)
    case None => None
    case Some(s) => Reconcile(git, s.view, head)
  }

  // Clean views differ in their base only, and the head decides that.

  /** Views that every later record and the head turn into the same view. */
  ghost predicate Alike(git: Git, a: View, b: View) {
    a == b || (!a.dirty && !b.dirty && a.generation == b.generation && Anchored(git, a) && Anchored(git, b))
  }

  /** A clean view is its base commit. */
  predicate Anchored(git: Git, v: View) { !v.dirty ==> v == CleanView(git, v.base, v.generation) }

  lemma StepAlike(git: Git, s: State, t: State, r: Record)
    requires s.prepares == t.prepares && Alike(git, s.view, t.view)
    ensures Step(git, s, r).Some? <==> Step(git, t, r).Some?
    ensures Step(git, s, r).Some? ==>
              && Step(git, s, r).value.prepares == Step(git, t, r).value.prepares
              && Alike(git, Step(git, s, r).value.view, Step(git, t, r).value.view)
  {
  }

  lemma {:induction false} RunAlike(git: Git, s: State, t: State, records: seq<Record>)
    requires s.prepares == t.prepares && Alike(git, s.view, t.view)
    ensures Run(git, s, records).Some? <==> Run(git, t, records).Some?
    ensures Run(git, s, records).Some? ==>
              && Run(git, s, records).value.prepares == Run(git, t, records).value.prepares
              && Alike(git, Run(git, s, records).value.view, Run(git, t, records).value.view)
  {
    if records != [] {
      var n := |records| - 1;
      RunAlike(git, s, t, records[..n]);
      if Run(git, s, records[..n]).Some? {
        StepAlike(git, Run(git, s, records[..n]).value, Run(git, t, records[..n]).value, records[n]);
      }
    }
  }

  lemma {:induction false} RunAnchored(git: Git, s: State, records: seq<Record>)
    requires Anchored(git, s.view)
    ensures Run(git, s, records).Some? ==> Anchored(git, Run(git, s, records).value.view)
  {
    if records != [] { RunAnchored(git, s, records[..|records| - 1]); }
  }

  lemma ReconcileAlike(git: Git, a: View, b: View, head: string)
    requires Alike(git, a, b)
    ensures Reconcile(git, a, head) == Reconcile(git, b, head)
  {
  }

  /** A cut at which nothing is half done, and what was loaded there. */
  ghost predicate CleanCut(git: Git, head: string, records: seq<Record>) {
    && FullReplay(git, head, records).Some? && FullReplay(git, head, records).value.prepares == map[]
    && (FullReplay(git, head, records).value.view.dirty ==> FullReplay(git, head, records).value.view.base == head)
  }

  lemma ResumeAlike(git: Git, head: string, thenHead: string, before: seq<Record>, after: seq<Record>)
    requires CleanCut(git, thenHead, before) && before != []
    ensures Loaded(git, thenHead, before).Some?
    ensures var a, b := Run(git, State(Loaded(git, thenHead, before).value, map[]), after), FullReplay(git, head, before + after);
            (a.Some? <==> b.Some?) && (a.Some? ==> Alike(git, b.value.view, a.value.view))
  {
    var s := FullReplay(git, thenHead, before).value;
    RunAnchored(git, Start(git, thenHead, before), before);
    var cached := Loaded(git, thenHead, before).value;
    assert Alike(git, s.view, cached);
    SameStart(git, head, thenHead, before, after);
    RunAppend(git, Start(git, head, before + after), before, after);
    var t := Run(git, Start(git, head, before + after), before).value;
    assert Alike(git, t.view, cached);
    RunAlike(git, t, State(cached, map[]), after);
  }

  /** Resuming from a view cached at a cut, whatever the head was then, equals replaying everything. */
  lemma ResumeEqualsFull(git: Git, head: string, thenHead: string, before: seq<Record>, after: seq<Record>)
    requires CleanCut(git, thenHead, before) && before != []
    ensures Loaded(git, thenHead, before).Some?
    ensures Loaded(git, head, before + after)
            == match Run(git, State(Loaded(git, thenHead, before).value, map[]), after)
               case None => None
               case Some(s) => Reconcile(git, s.view, head)
  {
    ResumeAlike(git, head, thenHead, before, after);
    var a := Run(git, State(Loaded(git, thenHead, before).value, map[]), after);
    if a.Some? { ReconcileAlike(git, FullReplay(git, head, before + after).value.view, a.value.view, head); }
  }

  /** The base a replay starts from does not matter beyond being clean. */
  lemma SameStart(git: Git, head: string, thenHead: string, before: seq<Record>, after: seq<Record>)
    requires before != [] && FullReplay(git, thenHead, before).Some?
    ensures var t := Run(git, Start(git, head, before + after), before);
            var s := FullReplay(git, thenHead, before).value;
            t.Some? && t.value.prepares == s.prepares && Alike(git, s.view, t.value.view)
  {
    var a, b := Start(git, thenHead, before), Start(git, head, before + after);
    assert (before + after)[0] == before[0];
    RunAlike(git, a, b, before);
  }

  /** Compaction is invisible: an anchor stands for the journal it replaced, whatever is appended later. */
  lemma CompactionInvisible(git: Git, head: string, past: seq<Record>, checkpoint: Record, anchor: Record, later: seq<Record>)
    requires checkpoint.Checkpoint? && anchor.Checkpoint?
    requires anchor.generation == checkpoint.generation && anchor.git == checkpoint.git
    requires FullReplay(git, head, past + [checkpoint]).Some?
    ensures Loaded(git, head, [anchor] + later) == Loaded(git, head, past + [checkpoint] + later)
  {
    var all := past + [checkpoint] + later;
    var s := Start(git, head, past + [checkpoint]);
    assert (past + [checkpoint])[..|past|] == past;
    assert Run(git, s, past + [checkpoint]) == Some(State(CleanView(git, checkpoint.git, checkpoint.generation), map[]));
    SameStart(git, head, head, past + [checkpoint], later);
    RunAppend(git, Start(git, head, all), past + [checkpoint], later);
    var t := Run(git, Start(git, head, all), past + [checkpoint]).value;
    RunAppend(git, Start(git, head, [anchor] + later), [anchor], later);
    var u := Start(git, head, [anchor] + later);
    assert [anchor][..0] == [] && Run(git, u, [anchor][..0]) == Some(u);
    var w := Run(git, u, [anchor]).value;
    assert w == State(CleanView(git, anchor.git, anchor.generation), map[]);
    assert Alike(git, t.view, w.view);
    RunAlike(git, t, w, later);
    if Run(git, t, later).Some? {
      ReconcileAlike(git, Run(git, t, later).value.view, Run(git, w, later).value.view, head);
    }
  }
}
