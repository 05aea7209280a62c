/** Runs of a journal file, byte by byte: what the commits and checkpoints of `WorkingState` do to it are the steps
    that `Recovery` speaks of, so what `RecoverTransaction` answers from the bytes is true of the run. */
module JournalRuns {
  import opened Bytes
  import opened Overlays
  import opened WriteLog
  import opened JournalFrames
  import opened Replay
  import opened LazyReplay
  import opened ResumedReplay
  import opened WorkingState
  import Recovery

  /** The journal file and the data head. */
  datatype Config = Config(file: seq<byte>, head: string)

  /** One change of the file, by a process that loaded this view: a transaction's frames written behind the first `kept`
      bytes, up to a cut, or a checkpoint. */
  datatype Act =
    | Commit(view: View, tx: string, edits: seq<TableEdit>, kept: nat, cut: nat)
    | Publish(view: View, commit: string, compacts: bool)

  /** What `CommitTypedEdits` does to the file. */
  ghost predicate Committing(git: Git, codec: Codec, a: Config, v: View, tx: string, edits: seq<TableEdit>, kept: nat, cut: nat, b: Config) {
    && LoadedFile(git, codec, a.head, a.file) == Some(v) && tx != "" && PairFits(codec, v, tx, edits) && b.head == a.head
    && EndsAt(codec, a.file, 0, SafePart(codec, a.file), kept)
    && Lands(git, codec, a.head, a.file, kept, v, tx, edits, cut, b.file)
  }

  /** The file ends with a whole frame, and not with an open prepare unless it is compacted. */
  ghost predicate Ready(codec: Codec, file: seq<byte>, compacts: bool) {
    ReadAll(codec, file).Some? &&
    var records := ReadAll(codec, file).value;
    EndsAt(codec, file, 0, records, |file|) && (compacts || Safe(records) == |records|)
  }

  /** What `CheckpointPrepared` does to a file that is ready for it. Behind an open prepare only a compaction leaves a journal
      that can be read: `CheckpointReads`. */
  ghost predicate Publishing(git: Git, codec: Codec, a: Config, v: View, commit: string, compacts: bool, b: Config) {
    && LoadedFile(git, codec, a.head, a.file) == Some(v) && v.dirty && b.head == commit
    && CheckpointFits(codec, a.file, CheckpointOf(v, commit))
    && Ready(codec, a.file, compacts) && Checkpointed(git, codec, a.file, CheckpointOf(v, commit), compacts, b.file)
  }

  ghost predicate Takes(git: Git, codec: Codec, a: Config, act: Act, b: Config) {
    match act
    case Commit(v, tx, edits, kept, cut) => Committing(git, codec, a, v, tx, edits, kept, cut, b)
    case Publish(v, commit, compacts) => Publishing(git, codec, a, v, commit, compacts, b)
  }

  /** Identifiers are new, and made for the generation they would commit. */
  ghost predicate Fresh(before: seq<Act>, act: Act) {
    act.Commit? ==> Recovery.TransactionGeneration(act.tx) == Some(act.view.generation + 1) && !Tried(before, act.tx)
  }

  predicate NewFor(h: Recovery.History, tx: string, v: View) {
    tx !in h.issued && Recovery.TransactionGeneration(tx) == Some(v.generation + 1)
  }

  /** A file from its beginning, changed by any processes in turn, each of which may stop at any byte. */
  ghost predicate IsRun(git: Git, codec: Codec, configs: seq<Config>, acts: seq<Act>) {
    && Faithful(codec) && |configs| == |acts| + 1 && configs[0].file == []
    && forall i :: 0 <= i < |acts| ==> Takes(git, codec, configs[i], acts[i], configs[i + 1]) && Fresh(acts[..i], acts[i])
  }

  /** The transaction's commit marker was written whole. */
  predicate Whole(codec: Codec, act: Act) {
    act.Commit? && WholeFrames(codec, act.view, act.tx, act.edits, act.cut) == 2
  }

  ghost predicate Tried(acts: seq<Act>, tx: string) { exists i :: 0 <= i < |acts| && acts[i].Commit? && acts[i].tx == tx }

  ghost predicate CommittedIn(codec: Codec, acts: seq<Act>, tx: string) {
    exists i :: 0 <= i < |acts| && Whole(codec, acts[i]) && acts[i].tx == tx
  }

  predicate Compaction(act: Act) { act.Publish? && act.compacts }

  /** The generation of the last compaction, 0 before the first. */
  function LastCompaction(acts: seq<Act>): nat {
    if acts == [] then 0
    else if Compaction(acts[|acts| - 1]) then acts[|acts| - 1].view.generation
    else LastCompaction(acts[..|acts| - 1])
  }

  /** That of the one before it: what has a later generation is remembered. */
  function Forgotten(acts: seq<Act>): nat {
    if acts == [] then 0
    else if Compaction(acts[|acts| - 1]) then LastCompaction(acts[..|acts| - 1])
    else Forgotten(acts[..|acts| - 1])
  }

  // The steps.

  function CommitEvent(codec: Codec, v: View, tx: string, edits: seq<TableEdit>, cut: nat): Recovery.Event {
    var k := WholeFrames(codec, v, tx, edits, cut);
    if k == 2 then Recovery.Commits(PrepareOf(v, tx, edits)) else Recovery.Fails(PrepareOf(v, tx, edits), k == 1)
  }

  function EventOf(codec: Codec, act: Act): Recovery.Event {
    match act
    case Commit(v, tx, edits, _, cut) => CommitEvent(codec, v, tx, edits, cut)
    case Publish(v, commit, compacts) => Recovery.Checkpoints(CheckpointOf(v, commit), compacts)
  }

  function EventsOf(codec: Codec, acts: seq<Act>): seq<Recovery.Event> {
    seq(|acts|, i requires 0 <= i < |acts| => EventOf(codec, acts[i]))
  }

  predicate EndsInCommit(records: seq<Record>) { Safe(records) > 0 && records[Safe(records) - 1].CommitMark? }

  /** What loads from some records is of this generation, and dirty only behind a commit. */
  ghost predicate LoadsAs(records: seq<Record>, generation: nat, loaded: Option<View>) {
    loaded.Some? ==> loaded.value.generation == generation && (loaded.value.dirty ==> EndsInCommit(records))
  }

  /** The file holds the records of the history, and what loads is of its generation. */
  ghost predicate Tracks(git: Git, codec: Codec, h: Recovery.History, c: Config) {
    && ReadAll(codec, c.file) == Some(h.records) && OrderlyFile(git, codec, c.head, c.file)
    && LoadsAs(h.records, h.generation, LoadedFile(git, codec, c.head, c.file))
  }

  /** The record level of a transaction's step. */
  lemma PairEvent(h: Recovery.History, v: View, tx: string, edits: seq<TableEdit>, k: nat, e: Recovery.Event)
    requires k <= 2 && v.generation == h.generation
    requires NewFor(h, tx, v)
    requires e == if k == 2 then Recovery.Commits(PrepareOf(v, tx, edits)) else Recovery.Fails(PrepareOf(v, tx, edits), k == 1)
    ensures Recovery.Allowed(h, e)
    ensures var next := Recovery.Next(h, e);
            && next.records == Recovery.SafePart(h.records) + PairOf(v, tx, edits)[..k]
            && next.generation == if k == 2 then v.generation + 1 else v.generation
  {
    assert PairOf(v, tx, edits)[..2] == PairOf(v, tx, edits) && PairOf(v, tx, edits)[..1] == [PrepareOf(v, tx, edits)];
  }

  lemma PairEnds(records: seq<Record>, v: View, tx: string, edits: seq<TableEdit>, k: nat)
    requires k <= 2
    ensures EndsInCommit(Recovery.SafePart(records) + PairOf(v, tx, edits)[..k]) <==> k == 2 || EndsInCommit(records)
  {
    var safe, pair := Recovery.SafePart(records), PairOf(v, tx, edits)[..k];
    SafeOfSafe(records);
    SafeAppend(safe, pair);
    assert Safe(pair) == if k == 2 then 2 else 0;
  }

  lemma PairLoads(records: seq<Record>, v: View, tx: string, edits: seq<TableEdit>, k: nat)
    requires k <= 2 && LoadsAs(records, v.generation, Some(v))
    ensures LoadsAs(Recovery.SafePart(records) + PairOf(v, tx, edits)[..k], if k == 2 then v.generation + 1 else v.generation,
                    AfterPair(v, tx, edits, k))
  {
    PairEnds(records, v, tx, edits, k);
  }

  /** What is read and loaded behind a commit. */
  ghost predicate Grown(git: Git, codec: Codec, v: View, tx: string, edits: seq<TableEdit>, safe: seq<Record>, k: nat, b: Config) {
    && k <= 2 && ReadAll(codec, b.file) == Some(safe + PairOf(v, tx, edits)[..k])
    && OrderlyFile(git, codec, b.head, b.file) && LoadedFile(git, codec, b.head, b.file) == AfterPair(v, tx, edits, k)
  }

  lemma CommitGrows(git: Git, codec: Codec, a: Config, v: View, tx: string, edits: seq<TableEdit>, kept: nat, cut: nat, b: Config)
    requires Faithful(codec) && Committing(git, codec, a, v, tx, edits, kept, cut, b)
    ensures Grown(git, codec, v, tx, edits, SafePart(codec, a.file), WholeFrames(codec, v, tx, edits, cut), b)
  {
    AppendReads(codec, a.file, kept, SafePart(codec, a.file), v, tx, edits, cut);
  }

  lemma PairStep(git: Git, codec: Codec, h: Recovery.History, v: View, tx: string, edits: seq<TableEdit>, k: nat, e: Recovery.Event, b: Config)
    requires LoadsAs(h.records, h.generation, Some(v)) && Grown(git, codec, v, tx, edits, Recovery.SafePart(h.records), k, b)
    requires NewFor(h, tx, v)
    requires e == if k == 2 then Recovery.Commits(PrepareOf(v, tx, edits)) else Recovery.Fails(PrepareOf(v, tx, edits), k == 1)
    ensures Recovery.Allowed(h, e) && Tracks(git, codec, Recovery.Next(h, e), b)
  {
    PairEvent(h, v, tx, edits, k, e);
    PairLoads(h.records, v, tx, edits, k);
  }

  /** A commit, whole or cut off at any byte, is one of the steps of the history. */
  lemma CommitIsStep(git: Git, codec: Codec, h: Recovery.History, a: Config, v: View, tx: string, edits: seq<TableEdit>, kept: nat, cut: nat,
                     b: Config, e: Recovery.Event)
    requires Faithful(codec) && Tracks(git, codec, h, a) && Committing(git, codec, a, v, tx, edits, kept, cut, b)
    requires NewFor(h, tx, v)
    requires e == CommitEvent(codec, v, tx, edits, cut)
    ensures Recovery.Allowed(h, e) && Tracks(git, codec, Recovery.Next(h, e), b)
  {
    CommitGrows(git, codec, a, v, tx, edits, kept, cut, b);
    PairStep(git, codec, h, v, tx, edits, WholeFrames(codec, v, tx, edits, cut), e, b);
  }

  /** So is a checkpoint. */
  lemma PublishIsStep(git: Git, codec: Codec, h: Recovery.History, a: Config, v: View, commit: string, compacts: bool, b: Config, e: Recovery.Event)
    requires Faithful(codec) && Tracks(git, codec, h, a) && Publishing(git, codec, a, v, commit, compacts, b)
    requires e == Recovery.Checkpoints(CheckpointOf(v, commit), compacts)
    ensures Recovery.Allowed(h, e) && Tracks(git, codec, Recovery.Next(h, e), b)
  {
    CheckpointReads(git, codec, a.head, a.file, h.records, v, commit, compacts, b.file);
  }

  // The runs.

  lemma RunPrefix(git: Git, codec: Codec, configs: seq<Config>, acts: seq<Act>)
    requires IsRun(git, codec, configs, acts) && acts != []
    ensures var n := |acts| - 1;
            && IsRun(git, codec, configs[..n + 1], acts[..n]) && configs[..n + 1][n] == configs[n] && acts == acts[..n] + [acts[n]]
            && Takes(git, codec, configs[n], acts[n], configs[n + 1]) && Fresh(acts[..n], acts[n])
  {
    var n := |acts| - 1;
    forall i | 0 <= i < n
      ensures Takes(git, codec, configs[..n + 1][i], acts[..n][i], configs[..n + 1][i + 1]) && Fresh(acts[..n][..i], acts[..n][i])
    {
      assert Takes(git, codec, configs[i], acts[i], configs[i + 1]) && Fresh(acts[..i], acts[i]);
      assert acts[..n][..i] == acts[..i];
    }
  }

  lemma NothingTracked(git: Git, codec: Codec, head: string)
    ensures Tracks(git, codec, Recovery.History([], 0, {}, {}, 0, 0), Config([], head))
  {
    assert ReadAll(codec, []) == Some([]);
  }

  /** The history so far is what its acts say. */
  ghost predicate Tells(codec: Codec, h: Recovery.History, acts: seq<Act>) {
    && (forall tx :: tx in h.issued <==> Tried(acts, tx))
    && (forall tx :: tx in h.committed <==> CommittedIn(codec, acts, tx))
    && h.anchored == LastCompaction(acts) && h.bound == Forgotten(acts)
  }

  lemma CompactionsOn(acts: seq<Act>, act: Act)
    ensures LastCompaction(acts + [act]) == if Compaction(act) then act.view.generation else LastCompaction(acts)
    ensures Forgotten(acts + [act]) == if Compaction(act) then LastCompaction(acts) else Forgotten(acts)
  {
    assert (acts + [act])[..|acts|] == acts;
  }

  lemma NextIs(codec: Codec, h: Recovery.History, act: Act)
    requires Recovery.Allowed(h, EventOf(codec, act))
    ensures var next := Recovery.Next(h, EventOf(codec, act));
            && next.issued == (if act.Commit? then h.issued + {act.tx} else h.issued)
            && next.committed == (if Whole(codec, act) then h.committed + {act.tx} else h.committed)
            && next.anchored == (if Compaction(act) then act.view.generation else h.anchored)
            && next.bound == if Compaction(act) then h.anchored else h.bound
  {
  }

  lemma TellsOn(codec: Codec, h: Recovery.History, acts: seq<Act>, act: Act)
    requires Tells(codec, h, acts) && Recovery.Allowed(h, EventOf(codec, act))
    ensures Tells(codec, Recovery.Next(h, EventOf(codec, act)), acts + [act])
  {
    TriedOn(codec, acts, act);
    CompactionsOn(acts, act);
    NextIs(codec, h, act);
  }

  lemma StepTracks(git: Git, codec: Codec, h: Recovery.History, a: Config, act: Act, b: Config, e: Recovery.Event)
    requires Faithful(codec) && Tracks(git, codec, h, a) && Takes(git, codec, a, act, b) && e == EventOf(codec, act)
    requires act.Commit? ==> NewFor(h, act.tx, act.view)
    ensures Recovery.Allowed(h, e) && Tracks(git, codec, Recovery.Next(h, e), b)
  {
    match act
    case Commit(v, tx, edits, kept, cut) => CommitIsStep(git, codec, h, a, v, tx, edits, kept, cut, b, e);
    case Publish(v, commit, compacts) => PublishIsStep(git, codec, h, a, v, commit, compacts, b, e);
  }

  lemma OneStep(git: Git, codec: Codec, h: Recovery.History, a: Config, acts: seq<Act>, act: Act, b: Config, e: Recovery.Event)
    requires Faithful(codec) && Tells(codec, h, acts) && Tracks(git, codec, h, a) && Takes(git, codec, a, act, b) && Fresh(acts, act)
    requires e == EventOf(codec, act)
    ensures Recovery.Allowed(h, e) && Tracks(git, codec, Recovery.Next(h, e), b) && Tells(codec, Recovery.Next(h, e), acts + [act])
  {
    StepTracks(git, codec, h, a, act, b, e);
    TellsOn(codec, h, acts, act);
  }

  lemma PlayOn(codec: Codec, acts: seq<Act>, act: Act, past: Recovery.History, e: Recovery.Event)
    requires Recovery.Play(EventsOf(codec, acts)) == Some(past) && e == EventOf(codec, act) && Recovery.Allowed(past, e)
    ensures Recovery.Play(EventsOf(codec, acts + [act])) == Some(Recovery.Next(past, e))
  {
    var all := EventsOf(codec, acts + [act]);
    assert all[..|all| - 1] == EventsOf(codec, acts);
  }

  /** The history of a run of the file. */
  lemma {:induction false} RunTracked(git: Git, codec: Codec, configs: seq<Config>, acts: seq<Act>) returns (h: Recovery.History)
    requires IsRun(git, codec, configs, acts)
    ensures Recovery.Play(EventsOf(codec, acts)) == Some(h) && Tracks(git, codec, h, configs[|acts|]) && Tells(codec, h, acts)
  {
    if acts == [] {
      NothingTracked(git, codec, configs[0].head);
      h := Recovery.History([], 0, {}, {}, 0, 0);
    } else {
      var n := |acts| - 1;
      RunPrefix(git, codec, configs, acts);
      var past := RunTracked(git, codec, configs[..n + 1], acts[..n]);
      var e := EventOf(codec, acts[n]);
      OneStep(git, codec, past, configs[n], acts[..n], acts[n], configs[n + 1], e);
      PlayOn(codec, acts[..n], acts[n], past, e);
      h := Recovery.Next(past, e);
    }
  }

  lemma TriedOn(codec: Codec, acts: seq<Act>, act: Act)
    ensures forall tx :: Tried(acts + [act], tx) <==> Tried(acts, tx) || (act.Commit? && act.tx == tx)
    ensures forall tx :: CommittedIn(codec, acts + [act], tx) <==> CommittedIn(codec, acts, tx) || (Whole(codec, act) && act.tx == tx)
  {
    var all := acts + [act];
    assert all[|acts|] == act && forall i :: 0 <= i < |acts| ==> all[i] == acts[i];
  }

  /** What is answered from the bytes of the file is true of the run: committed only if the commit marker was written
      whole, rejected only if it was not. Everything tried since the last compaction but one is answered. */
  lemma AnswersAreTrue(git: Git, codec: Codec, configs: seq<Config>, acts: seq<Act>, tx: string)
    requires IsRun(git, codec, configs, acts)
    ensures ReadAll(codec, configs[|acts|].file).Some?
    ensures var o, generation := Recovery.OutcomeOf(ReadAll(codec, configs[|acts|].file).value, tx), Recovery.TransactionGeneration(tx);
            && (o == Recovery.Committed ==> CommittedIn(codec, acts, tx))
            && (o == Recovery.Rejected ==> !CommittedIn(codec, acts, tx))
            && (o == Recovery.Unknown ==> generation.None? || generation.value <= Forgotten(acts))
            && (Tried(acts, tx) ==> generation.Some?)
            && (Tried(acts, tx) && generation.value > Forgotten(acts) ==>
                  o == if CommittedIn(codec, acts, tx) then Recovery.Committed else Recovery.Rejected)
  {
    var h := RunTracked(git, codec, configs, acts);
    Recovery.RecoveryIsTruthful(EventsOf(codec, acts), tx);
  }

  // The methods take these steps.

  ghost function Now(disk: Disk): Config
    reads disk
  {
    Config(disk.file, disk.head)
  }

  /** Any process's `CommitTypedEdits` refuses and leaves the file alone, or is a step, whole if and only if it did not
      crash. */
  method CommitTakes(ws: WorkingState, baseCommit: string, baseGeneration: nat, edits: seq<TableEdit>, tx: string, crash: Option<nat>)
    returns (result: CommitResult, ghost act: Option<Act>)
    requires ws.Valid() && OrderlyFile(ws.git, ws.codec, ws.disk.head, ws.disk.file) && tx != ""
    requires forall v :: LoadedFile(ws.git, ws.codec, ws.disk.head, ws.disk.file) == Some(v) ==>
               PairFits(ws.codec, v, tx, edits) && (crash.Some? ==> crash.value < |PairBytes(ws.codec, v, tx, edits)|)
    modifies ws`cache, ws`seen, ws`seenHead, ws.disk`file
    ensures act.None? <==> result.Broken? || result.Conflicting?
    ensures act.None? ==> Now(ws.disk) == old(Now(ws.disk))
    ensures act.Some? ==> act.value.Commit? && act.value.tx == tx && Takes(ws.git, ws.codec, old(Now(ws.disk)), act.value, Now(ws.disk))
    ensures act.Some? ==> (Whole(ws.codec, act.value) <==> result.Committed?)
  {
    ghost var loaded := LoadedFile(ws.git, ws.codec, ws.disk.head, ws.disk.file);
    ghost var kept;
    result, kept := ws.CommitTypedEdits(baseCommit, baseGeneration, edits, tx, crash);
    act := None;
    if result.Committed? || result.Unknown? {
      act := Some(Commit(loaded.value, tx, edits, kept, CutOf(ws.codec, loaded.value, tx, edits, crash)));
    }
  }

  /** So is any process's `CheckpointPrepared`, behind whole frames and unless it leaves an open prepare before it. */
  method CheckpointTakes(ws: WorkingState, commit: string, compacts: bool, inode: nat) returns (published: bool, ghost act: Option<Act>)
    requires ws.Valid() && OrderlyFile(ws.git, ws.codec, ws.disk.head, ws.disk.file)
    requires forall v :: LoadedFile(ws.git, ws.codec, ws.disk.head, ws.disk.file) == Some(v) ==>
               CheckpointFits(ws.codec, ws.disk.file, CheckpointOf(v, commit))
    modifies ws`cache, ws`seen, ws`seenHead, ws.disk`file, ws.disk`inode, ws.disk`head
    ensures act.Some? <==> published
    ensures !published ==> Now(ws.disk) == old(Now(ws.disk))
    ensures published && old(Ready(ws.codec, ws.disk.file, compacts)) ==> Takes(ws.git, ws.codec, old(Now(ws.disk)), act.value, Now(ws.disk))
  {
    ghost var loaded := LoadedFile(ws.git, ws.codec, ws.disk.head, ws.disk.file);
    published := ws.CheckpointPrepared(commit, compacts, inode);
    act := if published then Some(Publish(loaded.value, commit, compacts)) else None;
  }

  /** `RecoverTransaction`, from the file. */
  method RecoverFromFile(codec: Codec, file: seq<byte>, tx: string) returns (outcome: Option<Recovery.Outcome>)
    ensures outcome.Some? <==> ReadAll(codec, file).Some?
    ensures outcome.Some? ==> outcome.value == Recovery.OutcomeOf(ReadAll(codec, file).value, tx)
  {
    var reading, first := ReadJournalFrames(codec, file, 0, None);
    assert file[0..] == file;
    if !reading.Frames? { return None; }
    var o := Recovery.RecoverTransaction(reading.records, tx);
    return Some(o);
  }
}
