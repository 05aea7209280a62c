/** Replaying a journal file from where a cached view left off, and what a transaction appended to it, whole or
    cut short, does to the replay. */
module ResumedReplay {
  import opened Bytes
  import opened Sequences
  import opened Overlays
  import opened WriteLog
  import opened JournalFrames
  import opened Replay
  import opened LazyReplay

  // Where records end in a file.

  lemma ScanPrefix(codec: Codec, bytes: seq<byte>, more: seq<byte>, n: nat)
    requires n <= |bytes| && n <= |more| && bytes[..n] == more[..n]
    requires ScanFrame(codec, bytes).Whole? && ScanFrame(codec, bytes).size <= n
    ensures ScanFrame(codec, more) == ScanFrame(codec, bytes)
  {
    var size := ScanFrame(codec, bytes).size;
    assert forall i :: 0 <= i < n ==> bytes[i] == bytes[..n][i] && more[i] == more[..n][i];
    assert bytes[..4] == more[..4] && bytes[4..8] == more[4..8] && bytes[8..12] == more[8..12];
    assert bytes[12..size] == more[12..size];
  }

  lemma {:induction false} EndsForward(codec: Codec, file: seq<byte>, start: nat, records: seq<Record>, end: nat)
    requires EndsAt(codec, file, start, records, end) && start <= |file|
    ensures start + |records| <= end <= |file|
    ensures records != [] ==> start < end
    decreases |records|
  {
    if records != [] {
      var s := ScanFrame(codec, file[start..]);
      EndsForward(codec, file, start + s.size, records[1..], end);
    }
  }

  /** What lies before an offset does not change when only bytes behind it do. */
  lemma {:induction false} EndsStable(codec: Codec, file: seq<byte>, other: seq<byte>, start: nat, records: seq<Record>, end: nat)
    requires EndsAt(codec, file, start, records, end) && start <= |file|
    requires end <= |other| && end <= |file| && file[..end] == other[..end]
    ensures EndsAt(codec, other, start, records, end)
    decreases |records|
  {
    if records != [] {
      EndsForward(codec, file, start, records, end);
      var s := ScanFrame(codec, file[start..]);
      EndsForward(codec, file, start + s.size, records[1..], end);
      assert file[start..][..end - start] == file[..end][start..];
      assert other[start..][..end - start] == other[..end][start..];
      ScanPrefix(codec, file[start..], other[start..], end - start);
      EndsStable(codec, file, other, start + s.size, records[1..], end);
    }
  }

  /** Reading a file is reading up to a frame boundary and then the rest. */
  lemma {:induction false} ReadBeyond(codec: Codec, file: seq<byte>, start: nat, records: seq<Record>, end: nat)
    requires EndsAt(codec, file, start, records, end) && start <= |file|
    ensures end <= |file|
    ensures ReadAll(codec, file[start..]) == Prepended(records, ReadAll(codec, file[end..]))
    decreases |records|
  {
    if records == [] {
      PrependedNothing(ReadAll(codec, file[start..]));
    } else {
      var s := ScanFrame(codec, file[start..]);
      assert file[start..][s.size..] == file[start + s.size..];
      ReadBeyond(codec, file, start + s.size, records[1..], end);
      var rest := ReadAll(codec, file[end..]);
      if rest.Some? { HeadTail(records, rest.value); }
    }
  }

  lemma HeadTail<T>(xs: seq<T>, ys: seq<T>)
    requires xs != []
    ensures [xs[0]] + (xs[1..] + ys) == xs + ys
  {
  }

  /** The end of whole records read earlier comes first. */
  lemma {:induction false} EndsOrdered(codec: Codec, file: seq<byte>, start: nat, a: seq<Record>, b: seq<Record>, x: nat, y: nat)
    requires EndsAt(codec, file, start, a, x) && EndsAt(codec, file, start, b, y) && start <= |file| && a <= b
    ensures x <= y
    decreases |a|
  {
    if a == [] {
      EndsForward(codec, file, start, b, y);
    } else {
      var s := ScanFrame(codec, file[start..]);
      assert a[1..] <= b[1..];
      EndsOrdered(codec, file, start + s.size, a[1..], b[1..], x, y);
    }
  }

  // Resuming from a cached view.

  /** The records a cached view stands for: all of them applied, none half done. */
  ghost predicate Covers(git: Git, head: string, records: seq<Record>, view: View) {
    Loaded(git, head, records) == Some(view) && CleanCut(git, head, records) && Safe(records) == |records|
  }

  /** Prepares are committed at once, and a dirty journal is based on the head. */
  ghost predicate Orderly(git: Git, head: string, records: seq<Record>) {
    && Tidy(records)
    && (FullReplay(git, head, records).Some? && FullReplay(git, head, records).value.view.dirty
        ==> FullReplay(git, head, records).value.view.base == head)
  }

  ghost predicate OrderlyFile(git: Git, codec: Codec, head: string, file: seq<byte>) {
    ReadAll(codec, file).Some? ==> Orderly(git, head, ReadAll(codec, file).value)
  }

  /** What replaying a whole file gives. */
  function LoadedFile(git: Git, codec: Codec, head: string, file: seq<byte>): Option<View> {
    match ReadAll(codec, file)
    case None => None
    case Some(records) => Loaded(git, head, records)
  }

  // Replaying from the cache.

  const NOTHING := Snapshot("", 0, map[])

  function InitialLazy(git: Git, cached: Option<View>, head: string, frames: seq<Record>, fromStart: bool): Lazy {
    var z := if cached.Some? then Lazy(cached.value, true, [])
             else Lazy(View(NOTHING, 0, false, InitialBase(head, frames), map[], None), false, []);
    if fromStart && frames != [] && frames[0].Checkpoint? then Lazy(z.view.(generation := frames[0].generation), z.baseLoaded, [])
    else z
  }

  /** `materialize`. */
  method Materialize(git: Git, z: Lazy) returns (view: View)
    requires AllDeferrable(z.deferred)
    ensures view == Materialized(git, z)
  {
    view := z.view;
    if !z.baseLoaded { view := view.(snapshot := BaseSnapshot(git, view.base, view.generation)); }
    assert z.deferred[..0] == [];
    for i := 0 to |z.deferred|
      invariant view == ApplyAllDeferred(EnsureBase(git, z), z.deferred[..i])
    {
      var p := z.deferred[i];
      assert z.deferred[..i + 1][..i] == z.deferred[..i];
      if p.TypedPrepare? {
        var tables, pending := ApplyTypedEdits(view.snapshot.tables, view.pending, p.edits, p.generation);
        view := view.(snapshot := Snapshot(view.snapshot.commit, p.generation, tables), pending := pending,
                      writes := Some(Recorded(view.writes, p.edits, p.generation)));
      } else {
        view := view.(snapshot := Snapshot(view.snapshot.commit, p.generation, p.manifest.value), pending := map[], writes := None);
      }
    }
    assert z.deferred[..|z.deferred|] == z.deferred;
  }

  /** Only a dirty view has transactions set aside. */
  predicate Calm(z: Lazy) { z.deferred != [] ==> z.view.dirty }

  /** The state of the frame loop after `i` frames. */
  ghost predicate Replayed(git: Git, s: State, frames: seq<Record>, ends: seq<nat>, start: nat, i: nat,
                           z: Lazy, prepares: map<string, Record>, safe: nat)
    requires i <= |frames| == |ends|
  {
    && AllDeferrable(z.deferred) && Calm(z)
    && Run(git, s, frames[..i]) == Some(State(Materialized(git, z), prepares))
    && safe == if Safe(frames[..i]) == 0 then start else ends[Safe(frames[..i]) - 1]
  }

  lemma ReplayOne(git: Git, s: State, frames: seq<Record>, ends: seq<nat>, start: nat, i: nat,
                  z: Lazy, prepares: map<string, Record>, safe: nat)
    requires i < |frames| == |ends| && Replayed(git, s, frames, ends, start, i, z, prepares, safe)
    ensures var next := LazyStep(git, z, prepares, frames[i]);
            if next.None? then Run(git, s, frames).None?
            else Replayed(git, s, frames, ends, start, i + 1, next.value.0, next.value.1,
                          if frames[i].CommitMark? || frames[i].Checkpoint? then ends[i] else safe)
  {
    var longer := frames[..i + 1];
    assert longer[..i] == frames[..i] && longer[i] == frames[i];
    LazyRefines(git, z, State(Materialized(git, z), prepares), frames[i]);
    assert Run(git, s, longer) == Step(git, State(Materialized(git, z), prepares), frames[i]);
    if LazyStep(git, z, prepares, frames[i]).None? { RunFails(git, s, frames, i + 1); }
  }

  /** The frame loop of `load`. */
  method ReplayFrames(git: Git, initial: Lazy, frames: seq<Record>, ends: seq<nat>, start: nat) returns (r: Option<Lazy>, safe: nat)
    requires |ends| == |frames| && initial.deferred == []
    ensures r.Some? <==> Run(git, State(Materialized(git, initial), map[]), frames).Some?
    ensures r.Some? ==> AllDeferrable(r.value.deferred) && Calm(r.value)
    ensures r.Some? ==> Materialized(git, r.value) == Run(git, State(Materialized(git, initial), map[]), frames).value.view
    ensures r.Some? ==> safe == if Safe(frames) == 0 then start else ends[Safe(frames) - 1]
  {
    var z, prepares := initial, map[];
    safe := start;
    ghost var s := State(Materialized(git, initial), map[]);
    assert frames[..0] == [];
    for i := 0 to |frames|
      invariant Replayed(git, s, frames, ends, start, i, z, prepares, safe)
    {
      ReplayOne(git, s, frames, ends, start, i, z, prepares, safe);
      var next := LazyStep(git, z, prepares, frames[i]);
      if next.None? { return None, safe; }
      z, prepares := next.value.0, next.value.1;
      if frames[i].CommitMark? || frames[i].Checkpoint? { safe := ends[i]; }
    }
    assert frames[..|frames|] == frames;
    r := Some(z);
  }

  lemma {:induction false} RunFails(git: Git, s: State, records: seq<Record>, n: nat)
    requires n <= |records| && Run(git, s, records[..n]).None?
    ensures Run(git, s, records).None?
  {
    assert records == records[..n] + records[n..];
    RunAppend(git, s, records[..n], records[n..]);
  }

  /** The end of `load`: a dirty view is compared with the head as it stands, a clean one moves to the head
      before its base is loaded. */
  method FinishReplay(git: Git, z: Lazy, head: string) returns (r: Option<View>)
    requires AllDeferrable(z.deferred) && Calm(z)
    ensures r == Reconcile(git, Materialized(git, z), head)
  {
    if z.view.dirty {
      DeferredFields(EnsureBase(git, z), z.deferred);
      var v := Materialize(git, z);
      return Reconcile(git, v, head);
    }
    var moved := Reconcile(git, z.view, head);
    r := None;
    if moved.Some? {
      var v := Materialize(git, Lazy(moved.value, z.baseLoaded || moved.value.base != z.view.base, []));
      r := Some(v);
    }
  }

  // Resuming.

  /** Where a resumed replay starts. */
  function Resumed(git: Git, cached: Option<View>, head: string, frames: seq<Record>, fromStart: bool): State {
    State(Materialized(git, InitialLazy(git, cached, head, frames, fromStart)), map[])
  }

  lemma FreshStart(git: Git, head: string, records: seq<Record>)
    ensures Resumed(git, None, head, records, true) == Start(git, head, records)
  {
  }

  lemma ResumedFromNothing(git: Git, head: string, seenHead: string, view: View, records: seq<Record>)
    requires Covers(git, seenHead, [], view)
    ensures var a, b := Run(git, Resumed(git, Some(view), head, records, true), records), FullReplay(git, head, records);
            (a.Some? <==> b.Some?) && (a.Some? ==> Alike(git, b.value.view, a.value.view))
  {
    var s, t := Resumed(git, Some(view), head, records, true), Start(git, head, records);
    assert view == CleanView(git, seenHead, 0);
    if records != [] && records[0].Checkpoint? {
      var one, rest := records[..1], records[1..];
      assert records == one + rest && one[..0] == [];
      RunAppend(git, s, one, rest);
      RunAppend(git, t, one, rest);
      assert Run(git, s, one[..0]) == Some(s) && Run(git, t, one[..0]) == Some(t);
      assert Run(git, s, one) == Run(git, t, one);
    } else {
      RunAlike(git, t, s, records);
    }
  }

  lemma ResumedAlike(git: Git, head: string, seenHead: string, seen: seq<Record>, view: View, frames: seq<Record>)
    requires Covers(git, seenHead, seen, view)
    ensures var a, b := Run(git, Resumed(git, Some(view), head, frames, seen == []), frames), FullReplay(git, head, seen + frames);
            (a.Some? <==> b.Some?) && (a.Some? ==> Alike(git, b.value.view, a.value.view))
  {
    if seen == [] {
      assert seen + frames == frames;
      ResumedFromNothing(git, head, seenHead, view, frames);
    } else {
      ResumeAlike(git, head, seenHead, seen, frames);
    }
  }

  /** Resuming from a cached view gives what replaying everything gives: the code takes the head to be the
      base when the resumed view is dirty. */
  lemma ResumeIsLoad(git: Git, head: string, seenHead: string, seen: seq<Record>, view: View, frames: seq<Record>)
    requires Covers(git, seenHead, seen, view) && Orderly(git, head, seen + frames)
    ensures var s := Run(git, Resumed(git, Some(view), head, frames, seen == []), frames);
            && Loaded(git, head, seen + frames) == (if s.None? then None else Reconcile(git, s.value.view, head))
            && (s.Some? && s.value.view.dirty ==> s.value.view.base == head)
  {
    ResumedAlike(git, head, seenHead, seen, view, frames);
    var a := Run(git, Resumed(git, Some(view), head, frames, seen == []), frames);
    if a.Some? { ReconcileAlike(git, FullReplay(git, head, seen + frames).value.view, a.value.view, head); }
  }

  /** The safe part of an orderly journal is a clean cut whose view is that of the whole. */
  lemma CoversNow(git: Git, head: string, records: seq<Record>)
    requires Orderly(git, head, records) && FullReplay(git, head, records).Some?
    ensures Loaded(git, head, records).Some?
    ensures Covers(git, head, records[..Safe(records)], Loaded(git, head, records).value)
  {
    var n := Safe(records);
    var before, after := records[..n], records[n..];
    var t := Start(git, head, records);
    assert records == before + after;
    TailIsInert(git, t, records);
    TidyPrefix(records, n);
    TidyPrepares(git, t, before);
    SafeOfSafe(records);
    RunAlike(git, Start(git, head, before), t, before);
    ReconcileAlike(git, FullReplay(git, head, before).value.view, Run(git, t, before).value.view, head);
  }

  lemma SafeOfSafe(records: seq<Record>)
    ensures Safe(records[..Safe(records)]) == Safe(records)
  {
  }

  // Appending a transaction, whole or cut short.

  function PrepareOf(v: View, tx: string, edits: seq<TableEdit>): Record { TypedPrepare(tx, v.generation + 1, v.base, edits) }

  function MarkOf(v: View, tx: string): Record { CommitMark(tx, v.generation + 1, v.base) }

  function PairOf(v: View, tx: string, edits: seq<TableEdit>): seq<Record> { [PrepareOf(v, tx, edits), MarkOf(v, tx)] }

  /** What the first `k` records of a transaction's pair do to the view. */
  function AfterPair(v: View, tx: string, edits: seq<TableEdit>, k: nat): Option<View> {
    if k == 0 then Some(v) else if edits == [] then None
    else if k == 1 then Some(v) else Some(ApplyCommit(v, PrepareOf(v, tx, edits)))
  }

  lemma PairRuns(git: Git, v: View, tx: string, edits: seq<TableEdit>, k: nat)
    requires k <= 2 && tx != ""
    ensures var r := Run(git, State(v, map[]), PairOf(v, tx, edits)[..k]);
            (if r.Some? then Some(r.value.view) else None) == AfterPair(v, tx, edits, k)
  {
    var pair := PairOf(v, tx, edits);
    var s := State(v, map[]);
    assert pair[..0] == [] && pair[..1][..0] == [] && pair[..2][..1] == pair[..1];
    assert Run(git, s, pair[..0]) == Some(s);
    if k >= 1 { assert Run(git, s, pair[..1]) == Step(git, s, pair[0]); }
  }

  lemma TidySnoc(records: seq<Record>, r: Record)
    requires Tidy(records)
    requires if records != [] && IsPrepare(records[|records| - 1]) then r.CommitMark? && r.tx == records[|records| - 1].tx
             else !r.CommitMark?
    ensures Tidy(records + [r])
    ensures Safe(records + [r]) == if r.CommitMark? || r.Checkpoint? then |records| + 1 else Safe(records)
  {
    var all := records + [r];
    assert all[..|records|] == records;
    forall i | 0 <= i < |all| ensures TidyAt(all, i) {
      if i < |records| { assert TidyAt(records, i); }
    }
  }

  lemma PairTidy(safe: seq<Record>, v: View, tx: string, edits: seq<TableEdit>, k: nat)
    requires Tidy(safe) && Safe(safe) == |safe| && k <= 2
    ensures Tidy(safe + PairOf(v, tx, edits)[..k])
    ensures Safe(safe + PairOf(v, tx, edits)[..k]) == if k == 2 then |safe| + 2 else |safe|
  {
    var pair := PairOf(v, tx, edits);
    assert safe + pair[..0] == safe;
    if k > 0 {
      TidySnoc(safe, pair[0]);
      assert safe + pair[..1] == safe + [pair[0]];
    }
    if k > 1 {
      TidySnoc(safe + [pair[0]], pair[1]);
      assert safe + pair[..2] == safe + [pair[0]] + [pair[1]];
    }
  }

  /** Replaying a clean cut and part of a transaction: the transaction shows once its commit marker is there. */
  lemma PairReplays(git: Git, head: string, safe: seq<Record>, v: View, tx: string, edits: seq<TableEdit>, k: nat)
    requires Covers(git, head, safe, v) && Tidy(safe) && k <= 2 && tx != ""
    ensures var all := safe + PairOf(v, tx, edits)[..k];
            && Orderly(git, head, all)
            && Safe(all) == (if k == 2 then |safe| + 2 else |safe|)
            && Loaded(git, head, all) == AfterPair(v, tx, edits, k)
  {
    var pair := PairOf(v, tx, edits)[..k];
    PairTidy(safe, v, tx, edits, k);
    PairRuns(git, v, tx, edits, k);
    assert Resumed(git, Some(v), head, pair, safe == []) == State(v, map[]);
    ResumedAlike(git, head, head, safe, v, pair);
    assert v.base == head;
    ResumeIsLoad(git, head, head, safe, v, pair);
  }

  /** The bytes of a transaction's two frames, as far as they were written. */
  function PairBytes(codec: Codec, v: View, tx: string, edits: seq<TableEdit>): seq<byte> {
    FrameBytes(codec, PrepareOf(v, tx, edits)) + FrameBytes(codec, MarkOf(v, tx))
  }

  ghost predicate PairFits(codec: Codec, v: View, tx: string, edits: seq<TableEdit>) {
    Fits(codec, PrepareOf(v, tx, edits)) && Fits(codec, MarkOf(v, tx))
  }

  /** How many of the two frames lie wholly before the cut. */
  function WholeFrames(codec: Codec, v: View, tx: string, edits: seq<TableEdit>, cut: nat): nat {
    if cut < |FrameBytes(codec, PrepareOf(v, tx, edits))| then 0
    else if cut < |PairBytes(codec, v, tx, edits)| then 1
    else 2
  }

  lemma PairFile(codec: Codec, v: View, tx: string, edits: seq<TableEdit>)
    ensures var pair := PairOf(v, tx, edits);
            && File(codec, pair) == PairBytes(codec, v, tx, edits)
            && File(codec, pair[..0]) == [] && File(codec, pair[..1]) == FrameBytes(codec, pair[0]) && pair[..2] == pair
  {
    var pair := PairOf(v, tx, edits);
    assert pair[1..] == [MarkOf(v, tx)] && pair[1..][1..] == [];
    assert pair[..1][1..] == [];
    assert File(codec, pair[1..]) == FrameBytes(codec, pair[1]) + [];
    assert File(codec, pair[..1]) == FrameBytes(codec, pair[0]) + [];
  }

  lemma PairCut(codec: Codec, v: View, tx: string, edits: seq<TableEdit>, cut: nat)
    requires Faithful(codec) && PairFits(codec, v, tx, edits) && cut <= |PairBytes(codec, v, tx, edits)|
    ensures WholeFrames(codec, v, tx, edits, cut) <= 2
    ensures ReadAll(codec, PairBytes(codec, v, tx, edits)[..cut]) == Some(PairOf(v, tx, edits)[..WholeFrames(codec, v, tx, edits, cut)])
  {
    var pair := PairOf(v, tx, edits);
    PairFile(codec, v, tx, edits);
    var k, tail := CutAnywhere(codec, pair, cut);
    assert |File(codec, pair[..0])| == 0;
    if k == 0 {
      assert cut < |File(codec, pair[..1])|;
    } else if k == 1 {
      assert cut < |File(codec, pair[..2])|;
    }
    assert k == WholeFrames(codec, v, tx, edits, cut);
    ReadFile(codec, pair[..k], tail);
  }

  /** A file's first bytes, and a transaction of which a part was written behind them. */
  lemma AppendReads(codec: Codec, file: seq<byte>, n: nat, safe: seq<Record>, v: View, tx: string, edits: seq<TableEdit>, cut: nat)
    requires Faithful(codec) && PairFits(codec, v, tx, edits) && cut <= |PairBytes(codec, v, tx, edits)|
    requires n <= |file| && EndsAt(codec, file, 0, safe, n)
    ensures WholeFrames(codec, v, tx, edits, cut) <= 2
    ensures var grown := file[..n] + PairBytes(codec, v, tx, edits)[..cut];
            && EndsAt(codec, grown, 0, safe, n)
            && ReadAll(codec, grown) == Some(safe + PairOf(v, tx, edits)[..WholeFrames(codec, v, tx, edits, cut)])
  {
    var written := PairBytes(codec, v, tx, edits)[..cut];
    var grown := file[..n] + written;
    assert grown[..n] == file[..n] && grown[n..] == written && grown[0..] == grown;
    EndsStable(codec, file, grown, 0, safe, n);
    ReadBeyond(codec, grown, 0, safe, n);
    PairCut(codec, v, tx, edits, cut);
  }

  /** Where the safe part of the records read so far ends. */
  lemma SafeEnd(codec: Codec, file: seq<byte>, before: seq<Record>, start: nat, frames: seq<Record>, ends: seq<nat>)
    requires start <= |file| && EndsAt(codec, file, 0, before, start) && AllEnd(codec, file, start, frames, ends)
    requires Safe(before) == |before|
    ensures var records := before + frames;
            var safe := if Safe(frames) == 0 then start else ends[Safe(frames) - 1];
            safe <= |file| && EndsAt(codec, file, 0, records[..Safe(records)], safe)
  {
    var n := Safe(frames);
    SafeAppend(before, frames);
    var records := before + frames;
    if n == 0 {
      assert records[..Safe(records)] == before;
    } else {
      assert records[..Safe(records)] == before + frames[..n];
      EndsJoin(codec, file, 0, before, start, frames[..n], ends[n - 1]);
    }
  }

  lemma {:induction false} EndsJoin(codec: Codec, file: seq<byte>, start: nat, a: seq<Record>, middle: nat, b: seq<Record>, end: nat)
    requires EndsAt(codec, file, start, a, middle) && EndsAt(codec, file, middle, b, end)
    ensures EndsAt(codec, file, start, a + b, end)
    decreases |a|
  {
    if a == [] {
      assert a + b == b;
    } else {
      var s := ScanFrame(codec, file[start..]);
      EndsJoin(codec, file, start + s.size, a[1..], middle, b, end);
      HeadOfConcat(a, b);
    }
  }

  /** A place to resume from: nothing cached and the start of the file, or a cached view and where its records end. */
  ghost predicate Resumable(git: Git, codec: Codec, file: seq<byte>, cached: Option<View>, start: nat, seen: seq<Record>, seenHead: string) {
    && start <= |file| && EndsAt(codec, file, 0, seen, start)
    && (if cached.Some? then Covers(git, seenHead, seen, cached.value) else start == 0 && seen == [])
  }

  lemma ResumedFile(git: Git, codec: Codec, head: string, file: seq<byte>, cached: Option<View>, start: nat, seen: seq<Record>, seenHead: string)
    requires Resumable(git, codec, file, cached, start, seen, seenHead) && OrderlyFile(git, codec, head, file)
    ensures ReadAll(codec, file) == Prepended(seen, ReadAll(codec, file[start..]))
    ensures (start == 0) == (seen == [])
    ensures var frames := ReadAll(codec, file[start..]);
            frames.Some? ==>
              var s := Run(git, Resumed(git, cached, head, frames.value, start == 0), frames.value);
              && LoadedFile(git, codec, head, file) == (if s.None? then None else Reconcile(git, s.value.view, head))
              && (s.Some? && s.value.view.dirty && cached.Some? ==> s.value.view.base == head)
  {
    assert file[0..] == file;
    ReadBeyond(codec, file, 0, seen, start);
    EndsForward(codec, file, 0, seen, start);
    var frames := ReadAll(codec, file[start..]);
    if frames.Some? {
      if cached.Some? {
        ResumeIsLoad(git, head, seenHead, seen, cached.value, frames.value);
      } else {
        FreshStart(git, head, frames.value);
        assert seen + frames.value == frames.value;
      }
    }
  }

  /** `load` without the cache bookkeeping: the view, where the last whole transaction or checkpoint ends, and the
      file's first header. A cached view of another file is put aside. */
  method ReplayFile(git: Git, codec: Codec, head: string, file: seq<byte>, cached: Option<View>, start: nat, wanted: Option<seq<byte>>,
                    ghost seen: seq<Record>, ghost seenHead: string) returns (view: Option<View>, safe: nat, first: seq<byte>)
    requires start <= |file| && OrderlyFile(git, codec, head, file)
    requires Replaced(file, start, wanted) || Resumable(git, codec, file, cached, start, seen, seenHead)
    ensures view == LoadedFile(git, codec, head, file) && first == FirstHeader(file)
    ensures view.Some? ==> Caught(git, codec, head, file, view.value, safe)
  {
    var reading;
    reading, first := ReadJournalFrames(codec, file, start, wanted);
    if reading.OtherFile? {
      assert EndsAt(codec, file, 0, [], 0);
      reading, first := ReadJournalFrames(codec, file, 0, None);
      view, safe := ReplayRead(git, codec, head, file, None, 0, reading, [], seenHead);
    } else {
      view, safe := ReplayRead(git, codec, head, file, cached, start, reading, seen, seenHead);
    }
  }

  /** The safe part of the file ends at `safe` and stands for the view. */
  ghost predicate Caught(git: Git, codec: Codec, head: string, file: seq<byte>, view: View, safe: nat) {
    && ReadAll(codec, file).Some?
    && var records := ReadAll(codec, file).value;
       safe <= |file| && EndsAt(codec, file, 0, records[..Safe(records)], safe) && Covers(git, head, records[..Safe(records)], view)
  }

  method ReplayRead(git: Git, codec: Codec, head: string, file: seq<byte>, cached: Option<View>, start: nat, reading: Reading,
                    ghost seen: seq<Record>, ghost seenHead: string) returns (view: Option<View>, safe: nat)
    requires Resumable(git, codec, file, cached, start, seen, seenHead) && OrderlyFile(git, codec, head, file)
    requires !reading.OtherFile? && (reading.Frames? <==> ReadAll(codec, file[start..]).Some?)
    requires reading.Frames? ==>
               ReadAll(codec, file[start..]) == Some(reading.records) && AllEnd(codec, file, start, reading.records, reading.ends)
    ensures view == LoadedFile(git, codec, head, file)
    ensures view.Some? ==> Caught(git, codec, head, file, view.value, safe)
  {
    safe := start;
    ResumedFile(git, codec, head, file, cached, start, seen, seenHead);
    if !reading.Frames? { return None, safe; }
    var frames, ends := reading.records, reading.ends;
    var initial := InitialLazy(git, cached, head, frames, start == 0);
    var replayed;
    replayed, safe := ReplayFrames(git, initial, frames, ends, start);
    if replayed.None? { return None, safe; }
    DeferredFields(EnsureBase(git, replayed.value), replayed.value.deferred);
    var compared := if cached.Some? && replayed.value.view.dirty then replayed.value.view.base else head;
    view := FinishReplay(git, replayed.value, compared);
    if view.Some? {
      CoversNow(git, head, seen + frames);
      SafeEnd(codec, file, seen, start, frames, ends);
    }
  }

  /** The frames of written records end where the bytes do. */
  lemma FirstWritten(codec: Codec, records: seq<Record>)
    requires records != [] && AllFit(codec, records)
    ensures Fits(codec, records[0]) && AllFit(codec, records[1..])
    ensures File(codec, records) == FrameBytes(codec, records[0]) + File(codec, records[1..])
  {
  }

  lemma EndsFirst(codec: Codec, file: seq<byte>, start: nat, records: seq<Record>, next: nat, end: nat)
    requires records != [] && start <= next && start <= |file| && ScanFrame(codec, file[start..]) == Whole(records[0], next - start)
    requires EndsAt(codec, file, next, records[1..], end)
    ensures EndsAt(codec, file, start, records, end)
  {
  }

  lemma {:induction false} WrittenEnds(codec: Codec, file: seq<byte>, start: nat, records: seq<Record>)
    requires Faithful(codec) && AllFit(codec, records) && start <= |file| && file[start..] == File(codec, records)
    ensures EndsAt(codec, file, start, records, |file|)
    decreases |records|
  {
    if records != [] {
      var first, rest := records[0], records[1..];
      FirstWritten(codec, records);
      WrittenFrame(codec, file, start, first, File(codec, rest));
      var next := start + |FrameBytes(codec, first)|;
      WrittenEnds(codec, file, next, rest);
      EndsFirst(codec, file, start, records, next, |file|);
    }
  }

  lemma WrittenFrame(codec: Codec, file: seq<byte>, start: nat, r: Record, rest: seq<byte>)
    requires Faithful(codec) && Fits(codec, r) && start <= |file| && file[start..] == FrameBytes(codec, r) + rest
    ensures var end := start + |FrameBytes(codec, r)|;
            ScanFrame(codec, file[start..]) == Whole(r, end - start) && end <= |file| && file[end..] == rest
  {
    var frame := FrameBytes(codec, r);
    FrameReadable(codec, r, rest);
    assert file[start + |frame|..] == file[start..][|frame|..] == rest;
  }

  /** A transaction written behind the safe part of a journal, up to a cut: the journal is orderly again, and
      loads with the transaction if and only if its commit marker is whole. */
  lemma CommitLands(git: Git, codec: Codec, head: string, file: seq<byte>, n: nat, safe: seq<Record>,
                    v: View, tx: string, edits: seq<TableEdit>, cut: nat)
    requires Faithful(codec) && PairFits(codec, v, tx, edits) && cut <= |PairBytes(codec, v, tx, edits)|
    requires n <= |file| && EndsAt(codec, file, 0, safe, n)
    requires Covers(git, head, safe, v) && Tidy(safe) && tx != ""
    ensures var grown := file[..n] + PairBytes(codec, v, tx, edits)[..cut];
            && OrderlyFile(git, codec, head, grown)
            && EndsAt(codec, grown, 0, safe, n)
            && LoadedFile(git, codec, head, grown) == AfterPair(v, tx, edits, WholeFrames(codec, v, tx, edits, cut))
  {
    AppendReads(codec, file, n, safe, v, tx, edits, cut);
    PairReplays(git, head, safe, v, tx, edits, WholeFrames(codec, v, tx, edits, cut));
  }

  /** And when it is written whole, the live view the committer keeps covers the file to its end. */
  lemma WholeCommitCovers(git: Git, codec: Codec, head: string, file: seq<byte>, n: nat, safe: seq<Record>,
                          v: View, tx: string, edits: seq<TableEdit>)
    requires Faithful(codec) && PairFits(codec, v, tx, edits)
    requires n <= |file| && EndsAt(codec, file, 0, safe, n)
    requires Covers(git, head, safe, v) && Tidy(safe) && tx != "" && edits != []
    ensures var grown := file[..n] + PairBytes(codec, v, tx, edits);
            && EndsAt(codec, grown, 0, safe + PairOf(v, tx, edits), |grown|)
            && Covers(git, head, safe + PairOf(v, tx, edits), ApplyCommit(v, PrepareOf(v, tx, edits)))
  {
    var pair := PairOf(v, tx, edits);
    var grown := file[..n] + PairBytes(codec, v, tx, edits);
    assert grown[..n] == file[..n] && grown[n..] == PairBytes(codec, v, tx, edits);
    EndsStable(codec, file, grown, 0, safe, n);
    PairFile(codec, v, tx, edits);
    WrittenEnds(codec, grown, n, pair);
    EndsJoin(codec, grown, 0, safe, n, pair, |grown|);
    assert pair[..2] == pair;
    PairReplays(git, head, safe, v, tx, edits, 2);
    CoversNow(git, head, safe + pair);
    assert (safe + pair)[..|safe + pair|] == safe + pair;
  }

  lemma SeenIsSafe(seen: seq<Record>, rest: seq<Record>)
    requires Safe(seen) == |seen|
    ensures seen <= (seen + rest)[..Safe(seen + rest)]
  {
    SafeAppend(seen, rest);
  }

  lemma TakeLess<T>(a: seq<T>, b: seq<T>, n: nat, k: nat)
    requires k <= n <= |a| && n <= |b| && a[..n] == b[..n]
    ensures a[..k] == b[..k]
  {
    assert a[..k] == a[..n][..k] && b[..k] == b[..n][..k];
  }

  /** Another process's records are a prefix of the safe part, so what is written behind that leaves them. */
  lemma SeenStays(codec: Codec, file: seq<byte>, seen: seq<Record>, offset: nat, safe: seq<Record>, n: nat, grown: seq<byte>)
    requires EndsAt(codec, file, 0, seen, offset) && EndsAt(codec, file, 0, safe, n)
    requires ReadAll(codec, file).Some? && safe == ReadAll(codec, file).value[..Safe(ReadAll(codec, file).value)]
    requires Safe(seen) == |seen|
    requires n <= |grown| && n <= |file| && grown[..n] == file[..n]
    ensures seen <= safe && offset <= n && EndsAt(codec, grown, 0, seen, offset)
  {
    assert file[0..] == file;
    ReadBeyond(codec, file, 0, seen, offset);
    SeenIsSafe(seen, ReadAll(codec, file[offset..]).value);
    EndsOrdered(codec, file, 0, seen, safe, offset, n);
    TakeLess(grown, file, n, offset);
    EndsStable(codec, file, grown, 0, seen, offset);
  }

  // Checkpoints.

  lemma AppendOne(codec: Codec, file: seq<byte>, records: seq<Record>, r: Record)
    requires Faithful(codec) && Fits(codec, r) && EndsAt(codec, file, 0, records, |file|)
    ensures var grown := file + FrameBytes(codec, r);
            EndsAt(codec, grown, 0, records + [r], |grown|) && ReadAll(codec, grown) == Some(records + [r])
  {
    var frame := FrameBytes(codec, r);
    var grown := file + frame;
    assert [r][1..] == [] && File(codec, [r]) == frame + [] == frame;
    assert grown[..|file|] == file == file[..|file|] && grown[|file|..] == frame && grown[0..] == grown && grown[|grown|..] == [];
    EndsStable(codec, file, grown, 0, records, |file|);
    WrittenEnds(codec, grown, |file|, [r]);
    EndsJoin(codec, grown, 0, records, |file|, [r], |grown|);
    ReadBeyond(codec, grown, 0, records + [r], |grown|);
    assert ReadAll(codec, []) == Some([]) && records + [r] + [] == records + [r];
  }

  lemma CheckpointLands(git: Git, head: string, records: seq<Record>, v: View, c: Record)
    requires Covers(git, head, records, v) && Tidy(records) && v.dirty
    requires c.Checkpoint? && c.generation == v.generation
    ensures Orderly(git, c.git, records + [c])
    ensures Loaded(git, c.git, records + [c]) == Some(CleanView(git, c.git, v.generation))
    ensures Covers(git, c.git, records + [c], CleanView(git, c.git, v.generation))
  {
    var all := records + [c];
    TidySnoc(records, c);
    assert records != [];
    assert [c][..0] == [] && Run(git, State(v, map[]), [c][..0]) == Some(State(v, map[]));
    ResumedAlike(git, c.git, head, records, v, [c]);
    assert Resumed(git, Some(v), c.git, [c], false) == State(v, map[]);
    assert Run(git, State(v, map[]), [c]) == Some(State(CleanView(git, c.git, v.generation), map[]));
    ResumeIsLoad(git, c.git, head, records, v, [c]);
    CoversNow(git, c.git, all);
    assert all[..|all|] == all;
  }

  lemma AnchorLands(git: Git, anchor: Record)
    requires anchor.Checkpoint?
    ensures Orderly(git, anchor.git, [anchor])
    ensures Covers(git, anchor.git, [anchor], CleanView(git, anchor.git, anchor.generation))
  {
    assert [anchor][..0] == [];
    assert Run(git, Start(git, anchor.git, [anchor]), [anchor][..0]) == Some(Start(git, anchor.git, [anchor]));
  }

  /** A checkpoint appended behind a prepare that was left without its marker makes the journal unreadable: it
      loads if and only if no prepare is open. */
  lemma CheckpointNeedsCleanTail(git: Git, head: string, records: seq<Record>, c: Record)
    requires FullReplay(git, head, records).Some? && Tidy(records) && c.Checkpoint?
    requires c.generation == FullReplay(git, head, records).value.view.generation && records != []
    ensures Loaded(git, c.git, records + [c]).Some? <==> !IsPrepare(records[|records| - 1])
  {
    var all := records + [c];
    SameStart(git, c.git, head, records, [c]);
    TidyPrepares(git, Start(git, head, records), records);
    assert all[..|records|] == records;
    var last := records[|records| - 1];
    var open := FullReplay(git, head, records).value.prepares;
    assert IsPrepare(last) <==> open != map[] by { if IsPrepare(last) { assert last.tx in open; } }
  }
}
