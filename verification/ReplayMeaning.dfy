/** What replaying a journal comes to, said of its records alone: which journals replay, and the generation, the base, the
    dirtiness and the open prepares they lead to. */
module ReplayMeaning {
  import opened Bytes
  import opened Overlays
  import opened Pending
  import opened WriteLog
  import opened JournalFrames
  import opened Replay
  import opened LazyReplay
  import opened ResumedReplay
  import FirstCommitter

  /** The prepare of a transaction that no commit marker has closed since. */
  function OpenPrepare(records: seq<Record>, tx: string): (p: Option<Record>)
    ensures p.Some? ==> IsPrepare(p.value) && p.value.tx == tx
  {
    if records == [] then None
    else
      var r := records[|records| - 1];
      if IsPrepare(r) && r.tx == tx then Some(r)
      else if r.CommitMark? && r.tx == tx then None
      else OpenPrepare(records[..|records| - 1], tx)
  }

  function Marks(records: seq<Record>): nat {
    if records == [] then 0 else Marks(records[..|records| - 1]) + if records[|records| - 1].CommitMark? then 1 else 0
  }

  /** Something was committed since the last checkpoint. */
  predicate Changed(records: seq<Record>) {
    records != [] && (records[|records| - 1].CommitMark? || (!records[|records| - 1].Checkpoint? && Changed(records[..|records| - 1])))
  }

  /** The base of the last commit, or the commit of the last checkpoint if that is later; to begin with, `base`. */
  function BaseAfter(base: string, records: seq<Record>): string {
    if records == [] then base
    else
      var r, before := records[|records| - 1], records[..|records| - 1];
      if r.Checkpoint? then r.git
      else if r.CommitMark? && OpenPrepare(before, r.tx).Some? then OpenPrepare(before, r.tx).value.base
      else BaseAfter(base, before)
  }

  /** What replay asks of the record at `i`. */
  ghost predicate InPlace(base: string, generation: nat, records: seq<Record>, i: nat)
    requires i < |records|
  {
    var before := records[..i];
    match records[i]
    case Prepare(_, _, _, _, _, _) => Complete(records[i])
    case TypedPrepare(_, _, _, _) => Complete(records[i])
    case CommitMark(tx, g, _) =>
      var p := OpenPrepare(before, tx);
      && p.Some? && p.value.generation == g && g == generation + Marks(before) + 1
      && (p.value.base == BaseAfter(base, before) || !Changed(before))
      && (p.value.Prepare? ==> p.value.inventoried)
    case Checkpoint(g, _, _, _, _) => (forall tx :: OpenPrepare(before, tx) == None) && g == generation + Marks(before)
    case OtherKind => false
  }

  ghost predicate AllInPlace(base: string, generation: nat, records: seq<Record>) {
    forall i :: 0 <= i < |records| ==> InPlace(base, generation, records, i)
  }

  /** The state after some records. */
  ghost predicate Reached(base: string, generation: nat, records: seq<Record>, s: State) {
    && s.view.generation == generation + Marks(records) && s.view.dirty == Changed(records) && s.view.base == BaseAfter(base, records)
    && (forall tx {:trigger OpenPrepare(records, tx)} ::
          (tx in s.prepares <==> OpenPrepare(records, tx).Some?) && (tx in s.prepares ==> s.prepares[tx] == OpenPrepare(records, tx).value))
    && (forall tx :: tx in s.prepares ==> Complete(s.prepares[tx]))
  }

  lemma StepMeans(git: Git, base: string, generation: nat, records: seq<Record>, s: State)
    requires records != [] && Reached(base, generation, records[..|records| - 1], s)
    ensures var t := Step(git, s, records[|records| - 1]);
            && (t.Some? <==> InPlace(base, generation, records, |records| - 1))
            && (t.Some? ==> Reached(base, generation, records, t.value))
  {
    var before, r := records[..|records| - 1], records[|records| - 1];
    match r
    case CommitMark(tx, _, _) => assert OpenPrepare(before, tx).Some? <==> tx in s.prepares;
    case Checkpoint(_, _, _, _, _) =>
      if forall tx :: OpenPrepare(before, tx) == None {
        forall tx ensures tx !in s.prepares { assert OpenPrepare(before, tx) == None; }
        assert s.prepares == map[];
      }
    case _ =>
  }

  /** A journal replays exactly if every record is in its place: prepares complete, each commit marker behind an open prepare
      of its transaction and the next generation, on the base there is or behind no change, each checkpoint behind no open
      prepare and of the generation there is. */
  lemma {:induction false} ReplaysExactly(git: Git, base: string, generation: nat, records: seq<Record>)
    ensures var r := Run(git, State(CleanView(git, base, generation), map[]), records);
            && (r.Some? <==> AllInPlace(base, generation, records))
            && (r.Some? ==> Reached(base, generation, records, r.value))
  {
    if records != [] {
      var n := |records| - 1;
      ReplaysExactly(git, base, generation, records[..n]);
      var s := Run(git, State(CleanView(git, base, generation), map[]), records[..n]);
      forall i | 0 <= i < n ensures InPlace(base, generation, records, i) <==> InPlace(base, generation, records[..n], i) {
        assert records[..n][..i] == records[..i];
      }
      if s.Some? { StepMeans(git, base, generation, records, s.value); }
    }
  }

  // What a load gives.

  predicate Based(r: Record) { IsPrepare(r) && r.base != "" }

  /** Replay starts from the base of the first prepare that names one, or from the head. */
  lemma {:induction false} StartsFrom(head: string, records: seq<Record>, n: nat)
    requires n <= |records| && (n < |records| ==> Based(records[n])) && forall j :: 0 <= j < n ==> !Based(records[j])
    ensures InitialBase(head, records) == if n < |records| then records[n].base else head
  {
    if n > 0 {
      assert !Based(records[0]);
      StartsFrom(head, records[1..], n - 1);
    }
  }

  /** A journal loads exactly if every record is in its place and, where what was committed rests on another base than the
      head, its tables are the head's. The view counts the commits, rests on the head, and is dirty exactly if something was
      committed on it since the last checkpoint. */
  lemma LoadsExactly(git: Git, head: string, records: seq<Record>)
    ensures FullReplay(git, head, records).Some? <==> AllInPlace(InitialBase(head, records), InitialGeneration(records), records)
    ensures var base, generation := InitialBase(head, records), InitialGeneration(records);
            var replayed, loaded := FullReplay(git, head, records), Loaded(git, head, records);
            && (loaded.Some? <==>
                  replayed.Some? && (Changed(records) && BaseAfter(base, records) != head ==> git(head) == replayed.value.view.snapshot.tables))
            && (loaded.Some? ==>
                  && loaded.value.generation == generation + Marks(records) && loaded.value.base == head
                  && loaded.value.dirty == (Changed(records) && BaseAfter(base, records) == head)
                  && (BaseAfter(base, records) == head ==> loaded.value == replayed.value.view)
                  && (BaseAfter(base, records) != head ==>
                        && loaded.value.snapshot == Snapshot(head, generation + Marks(records), git(head))
                        && loaded.value.pending == replayed.value.view.pending && loaded.value.writes == None))
  {
    var base, generation := InitialBase(head, records), InitialGeneration(records);
    ReplaysExactly(git, base, generation, records);
    var replayed := FullReplay(git, head, records);
    assert replayed == Run(git, State(CleanView(git, base, generation), map[]), records);
  }

  /** And counts commits from the generation of an anchor, or from 0. */
  lemma StartsAt(records: seq<Record>)
    ensures records != [] && records[0].Checkpoint? ==> InitialGeneration(records) == records[0].generation
    ensures records == [] || !records[0].Checkpoint? ==> InitialGeneration(records) == 0
  {
  }

  /** A commit of typed edits on a view: the next generation on the same base, and every table's roots and pending rows as its
      edits say. */
  lemma CommitShows(v: View, tx: string, edits: seq<TableEdit>, t: string)
    ensures var w, schema := ApplyCommit(v, PrepareOf(v, tx, edits)), LastSchema(edits, t);
            && w.dirty && w.generation == w.snapshot.generation == v.generation + 1 && w.base == v.base
            && w.snapshot.commit == v.snapshot.commit
            && (t in w.snapshot.tables <==> schema.Some? || (t in v.snapshot.tables && !Drops(edits, t)))
            && (t in w.snapshot.tables ==>
                  && w.snapshot.tables[t].schema == (if schema.Some? then schema.value else v.snapshot.tables[t].schema)
                  && w.snapshot.tables[t].data == if t in v.snapshot.tables && !Drops(edits, t) then v.snapshot.tables[t].data else [])
            && (forall k {:trigger LastRow(edits, t, k)} :: t in w.pending && LastRow(edits, t, k).Some? ==>
                  k in w.pending[t].rows && w.pending[t].rows[k] == LastRow(edits, t, k).value.(generation := v.generation + 1))
  {
    var a := Applied(v.snapshot.tables, v.pending);
    TableAfter(a, edits, v.generation + 1, t);
    forall k | t in ApplyAll(a, edits, v.generation + 1).pending && LastRow(edits, t, k).Some?
      ensures k in ApplyAll(a, edits, v.generation + 1).pending[t].rows
      ensures ApplyAll(a, edits, v.generation + 1).pending[t].rows[k] == LastRow(edits, t, k).value.(generation := v.generation + 1)
    {
      RowAfter(a, edits, v.generation + 1, t, k);
    }
  }

  /** A commit of a whole manifest: its tables, and nothing pending. */
  lemma ManifestShows(v: View, p: Record)
    requires p.Prepare? && p.manifest.Some?
    ensures var w := ApplyCommit(v, p);
            && w.dirty && w.generation == w.snapshot.generation == p.generation && w.base == v.base
            && w.snapshot.commit == v.snapshot.commit && w.snapshot.tables == p.manifest.value && w.pending == map[] && w.writes == None
  {
  }

  // What the conflict check reads.

  /** The views that commits of typed edits make, one after the other on a clean one. */
  function Committed(v: View, tx: string, commits: seq<seq<TableEdit>>): View {
    if commits == [] then v
    else
      var before := Committed(v, tx, commits[..|commits| - 1]);
      ApplyCommit(before, PrepareOf(before, tx, commits[|commits| - 1]))
  }

  /** Their log and pending rows are those that the check is exact about: a transaction is refused on such a view if and only if its
      snapshot is none of this base's generations or a later commit clashes with it. */
  lemma {:induction false} WritesFollow(git: Git, commit: string, from: nat, tx: string, commits: seq<seq<TableEdit>>)
    ensures WritesOf(Committed(CleanView(git, commit, from), tx, commits)) == After(from, commits)
  {
    var v := CleanView(git, commit, from);
    if commits != [] {
      var n := |commits| - 1;
      WritesFollow(git, commit, from, tx, commits[..n]);
      var before := Committed(v, tx, commits[..n]);
      RowsPartAfter(Applied(before.snapshot.tables, before.pending), commits[n], before.generation + 1);
    }
  }

  lemma CheckExact(git: Git, commit: string, from: nat, tx: string, commits: seq<seq<TableEdit>>, base: nat, edits: seq<TableEdit>)
    ensures Conflict(WritesOf(Committed(CleanView(git, commit, from), tx, commits)), base, edits) <==>
              || base < from || base > from + |commits|
              || exists g :: base < from + g + 1 && 0 <= g < |commits| && Clashing(commits[g], edits)
  {
    WritesFollow(git, commit, from, tx, commits);
    FirstCommitter.ConflictExact(from, commits, base, edits);
  }
}
