/** The replay loop of `load`: it keeps commits it has checked aside and applies them only when the view is
    needed. It refines replaying record by record. */
module LazyReplay {
  import opened Bytes
  import opened Sequences
  import opened Overlays
  import opened Pending
  import opened WriteLog
  import opened JournalFrames
  import opened Replay

  // Lazy replay.

  /** A view whose base snapshot may not be loaded and whose committed transactions may not be applied. */
  datatype Lazy = Lazy(view: View, baseLoaded: bool, deferred: seq<Record>)

  predicate Deferrable(p: Record) {
    (p.Prepare? && p.manifest.Some?) || (p.TypedPrepare? && p.generation > 0)
  }

  predicate AllDeferrable(ps: seq<Record>) {
    forall i :: 0 <= i < |ps| ==> Deferrable(ps[i])
  }

  /** One round of `materialize`: only the snapshot, the pending edits and the log change. */
  function ApplyDeferred(v: View, p: Record): View
    requires Deferrable(p)
  {
    var a := ApplyCommit(v, p);
    v.(snapshot := a.snapshot, pending := a.pending, writes := a.writes)
  }

  function ApplyAllDeferred(v: View, ps: seq<Record>): View
    requires AllDeferrable(ps)
  {
    if ps == [] then v else ApplyDeferred(ApplyAllDeferred(v, ps[..|ps| - 1]), ps[|ps| - 1])
  }

  function EnsureBase(git: Git, z: Lazy): View {
    if z.baseLoaded then z.view else z.view.(snapshot := BaseSnapshot(git, z.view.base, z.view.generation))
  }

  /** The view `materialize` would give. */
  function Materialized(git: Git, z: Lazy): View
    requires AllDeferrable(z.deferred)
  {
    ApplyAllDeferred(EnsureBase(git, z), z.deferred)
  }

  /** Deferring keeps apart what applying at once would have mixed: generation, dirty flag and base. */
  lemma {:induction false} DeferredFields(v: View, ps: seq<Record>)
    requires AllDeferrable(ps)
    ensures var r := ApplyAllDeferred(v, ps);
            r.generation == v.generation && r.dirty == v.dirty && r.base == v.base
  {
    if ps != [] { DeferredFields(v, ps[..|ps| - 1]); }
  }

  /** Applying a commit does not look at the generation or dirty flag it starts from, nor at the base
      snapshot's generation. */
  lemma {:induction false} DeferredIgnores(v: View, w: View, ps: seq<Record>)
    requires AllDeferrable(ps) && v.snapshot.commit == w.snapshot.commit && v.snapshot.tables == w.snapshot.tables
    requires v.pending == w.pending && v.writes == w.writes
    ensures var a, b := ApplyAllDeferred(v, ps), ApplyAllDeferred(w, ps);
            && a.snapshot.commit == b.snapshot.commit && a.snapshot.tables == b.snapshot.tables
            && a.pending == b.pending && a.writes == b.writes
            && (ps != [] ==> a.snapshot == b.snapshot)
  {
    if ps != [] { DeferredIgnores(v, w, ps[..|ps| - 1]); }
  }

  /** Deferring one more committed transaction is applying it. */
  lemma DeferOne(git: Git, z: Lazy, p: Record)
    requires AllDeferrable(z.deferred) && Deferrable(p)
    ensures var next := Lazy(z.view.(generation := p.generation, dirty := true), z.baseLoaded, z.deferred + [p]);
            && AllDeferrable(next.deferred)
            && Materialized(git, next) == ApplyCommit(Materialized(git, z), p)
  {
    var w := z.view.(generation := p.generation, dirty := true);
    var next := Lazy(w, z.baseLoaded, z.deferred + [p]);
    assert (z.deferred + [p])[..|z.deferred|] == z.deferred;
    DeferredIgnores(EnsureBase(git, z), EnsureBase(git, next), z.deferred);
    DeferredFields(EnsureBase(git, z), z.deferred);
    DeferredFields(EnsureBase(git, next), z.deferred);
  }

  /** One record of the replay loop. */
  function LazyStep(git: Git, z: Lazy, prepares: map<string, Record>, r: Record): Option<(Lazy, map<string, Record>)> {
    match r
    case Prepare(_, _, _, _, _, _) => if Complete(r) then Some((z, prepares[r.tx := r])) else None
    case TypedPrepare(_, _, _, _) => if Complete(r) then Some((z, prepares[r.tx := r])) else None
    case CommitMark(tx, _, _) =>
      if Commits(z.view, prepares, r) then
        var p := prepares[tx];
        var start := Moved(z, p.base);
        Some((Lazy(start.view.(generation := p.generation, dirty := true), start.baseLoaded, start.deferred + [p]), prepares - {tx}))
      else None
    case Checkpoint(generation, _, commit, _, _) =>
      if prepares == map[] && generation == z.view.generation then
        Some((Lazy(z.view.(base := commit, dirty := false, pending := map[], writes := None), false, []), prepares))
      else None
    case OtherKind => None
  }

  /** Moving to the transaction's base drops what was deferred. */
  function Moved(z: Lazy, base: string): Lazy {
    if base == z.view.base then z else Lazy(z.view.(base := base, pending := map[], writes := None), false, [])
  }

  lemma MovedIsRebased(git: Git, z: Lazy, s: View, base: string)
    requires AllDeferrable(z.deferred) && Materialized(git, z) == s && (base != z.view.base ==> !z.view.dirty)
    ensures AllDeferrable(Moved(z, base).deferred) && Materialized(git, Moved(z, base)) == Rebased(git, s, base)
  {
    DeferredFields(EnsureBase(git, z), z.deferred);
  }

  /** Lazy replay refines eager replay, record by record. */
  lemma LazyRefines(git: Git, z: Lazy, s: State, r: Record)
    requires AllDeferrable(z.deferred) && Materialized(git, z) == s.view
    ensures LazyStep(git, z, s.prepares, r).Some? <==> Step(git, s, r).Some?
    ensures LazyStep(git, z, s.prepares, r).Some? ==>
              var next := LazyStep(git, z, s.prepares, r).value;
              && AllDeferrable(next.0.deferred) && next.1 == Step(git, s, r).value.prepares
              && Materialized(git, next.0) == Step(git, s, r).value.view
  {
    DeferredFields(EnsureBase(git, z), z.deferred);
    if r.CommitMark? {
      if Commits(z.view, s.prepares, r) { LazyCommits(git, z, s, r); }
    }
  }

  lemma LazyCommits(git: Git, z: Lazy, s: State, r: Record)
    requires AllDeferrable(z.deferred) && Materialized(git, z) == s.view
    requires Commits(z.view, s.prepares, r) && Commits(s.view, s.prepares, r)
    ensures var p, next := s.prepares[r.tx], LazyStep(git, z, s.prepares, r).value.0;
            AllDeferrable(next.deferred) && Materialized(git, next) == ApplyCommit(Rebased(git, s.view, p.base), p)
  {
    var p := s.prepares[r.tx];
    MovedIsRebased(git, z, s.view, p.base);
    DeferOne(git, Moved(z, p.base), p);
  }

  // Well-formed journals.

  /** Writers append a transaction's prepare and commit marker together, and cut off a prepare left alone. */
  ghost predicate Tidy(records: seq<Record>) {
    forall i :: 0 <= i < |records| ==> TidyAt(records, i)
  }

  predicate TidyAt(records: seq<Record>, i: nat)
    requires i < |records|
  {
    if i > 0 && IsPrepare(records[i - 1]) then records[i].CommitMark? && records[i].tx == records[i - 1].tx
    else !records[i].CommitMark?
  }

  lemma TidyPrefix(records: seq<Record>, n: nat)
    requires Tidy(records) && n <= |records|
    ensures Tidy(records[..n])
  {
    forall i | 0 <= i < n ensures TidyAt(records[..n], i) {
      assert TidyAt(records, i);
    }
  }

  predicate IsPrepare(r: Record) { r.Prepare? || r.TypedPrepare? }

  lemma {:induction false} TidyPrepares(git: Git, s: State, records: seq<Record>)
    requires Tidy(records) && s.prepares == map[] && Run(git, s, records).Some?
    ensures var t := Run(git, s, records).value;
            t.prepares == if records != [] && IsPrepare(records[|records| - 1])
                          then map[records[|records| - 1].tx := records[|records| - 1]] else map[]
  {
    if records != [] {
      var n := |records| - 1;
      TidyPrefix(records, n);
      TidyPrepares(git, s, records[..n]);
      assert TidyAt(records, n);
    }
  }

  /** The records up to the last commit marker or checkpoint. */
  function Safe(records: seq<Record>): (k: nat)
    ensures k <= |records|
    ensures k > 0 ==> records[k - 1].CommitMark? || records[k - 1].Checkpoint?
    ensures forall i :: k <= i < |records| ==> !records[i].CommitMark? && !records[i].Checkpoint?
  {
    if records == [] then 0
    else if records[|records| - 1].CommitMark? || records[|records| - 1].Checkpoint? then |records|
    else Safe(records[..|records| - 1])
  }

  lemma SafeAppend(a: seq<Record>, b: seq<Record>)
    ensures Safe(a + b) == if Safe(b) > 0 then |a| + Safe(b) else Safe(a)
  {
    var ab := a + b;
    assert forall i :: 0 <= i < |b| ==> ab[|a| + i] == b[i];
    assert forall i :: 0 <= i < |a| ==> ab[i] == a[i];
  }

  /** Records behind the safe part change nothing but the set of open prepares. */
  lemma {:induction false} TailIsInert(git: Git, s: State, records: seq<Record>)
    requires Run(git, s, records).Some?
    ensures Run(git, s, records[..Safe(records)]).Some?
    ensures Run(git, s, records).value.view == Run(git, s, records[..Safe(records)]).value.view
  {
    if records != [] {
      var n := |records| - 1;
      if Safe(records) == |records| {
        assert records[..|records|] == records;
      } else {
        TailIsInert(git, s, records[..n]);
        assert records[..n][..Safe(records)] == records[..Safe(records)];
      }
    }
  }
}
