/** `common/repository/journal_compact.go` and `RecoverTransaction`: compaction forgets transactions, and the
    anchor it leaves still answers for those it dropped last. */
module Recovery {
  import opened Overlays
  import opened JournalFrames
  import opened LazyReplay

  // Transaction identifiers.

  const UINT64 := 0x1_0000_0000_0000_0000

  predicate IsDigit(c: char) { '0' <= c <= '9' }

  /** Decimal digits of a number, without leading zeros. */
  function Decimal(n: nat): (s: string)
    ensures s != [] && forall i :: 0 <= i < |s| ==> IsDigit(s[i])
  {
    var last := '0' + (n % 10) as char;
    if n < 10 then [last] else Decimal(n / 10) + [last]
  }

  function Value(digits: string): nat
    requires forall i :: 0 <= i < |digits| ==> IsDigit(digits[i])
  {
    if digits == [] then 0
    else
      var last := digits[|digits| - 1];
      assert IsDigit(last);
      10 * Value(digits[..|digits| - 1]) + (last - '0') as nat
  }

  lemma {:induction false} DecimalRoundTrip(n: nat)
    ensures Value(Decimal(n)) == n
  {
    if n >= 10 {
      DecimalRoundTrip(n / 10);
      var last := '0' + (n % 10) as char;
      assert (Decimal(n / 10) + [last])[..|Decimal(n / 10)|] == Decimal(n / 10);
    }
  }

  /** The part before the first dash, if there is a dash. */
  function Cut(id: string): Option<string> {
    if id == [] then None
    else if id[0] == '-' then Some([])
    else match Cut(id[1..]) case None => None case Some(rest) => Some([id[0]] + rest)
  }

  lemma {:induction false} CutAtDash(prefix: string, rest: string)
    requires '-' !in prefix
    ensures Cut(prefix + ['-'] + rest) == Some(prefix)
  {
    var id := prefix + ['-'] + rest;
    if prefix != [] {
      assert id[0] == prefix[0] && id[1..] == prefix[1..] + ['-'] + rest;
      CutAtDash(prefix[1..], rest);
      assert prefix == [prefix[0]] + prefix[1..];
    } else {
      assert id[0] == '-';
    }
  }

  /** `transactionGeneration`. */
  function TransactionGeneration(id: string): Option<nat> {
    match Cut(id)
    case None => None
    case Some(p) =>
      if p != [] && (forall i :: 0 <= i < |p| ==> IsDigit(p[i])) && Value(p) < UINT64 then Some(Value(p)) else None
  }

  /** `newTransactionID`, with the random part given. */
  function NewTransactionID(generation: nat, random: string): string { Decimal(generation) + ['-'] + random }

  /** An identifier tells the generation it was made for, whatever its random part. */
  lemma GenerationRoundTrip(generation: nat, random: string)
    ensures TransactionGeneration(NewTransactionID(generation, random)) == if generation < UINT64 then Some(generation) else None
  {
    CutAtDash(Decimal(generation), random);
    DecimalRoundTrip(generation);
  }

  // Compaction.

  function CommitTxs(records: seq<Record>): seq<string> {
    if records == [] then []
    else CommitTxs(records[..|records| - 1]) + (if records[|records| - 1].CommitMark? then [records[|records| - 1].tx] else [])
  }

  function AnchorOf(checkpoint: Record, records: seq<Record>): Record
    requires checkpoint.Checkpoint?
  {
    checkpoint.(txs := CommitTxs(records),
                from := if records != [] && records[0].Checkpoint? then records[0].generation else checkpoint.from)
  }

  /** `compactLocked`: the anchor it writes. */
  method Compact(checkpoint: Record, records: seq<Record>) returns (anchor: Record)
    requires checkpoint.Checkpoint?
    ensures anchor == AnchorOf(checkpoint, records)
  {
    anchor := checkpoint.(txs := []);
    if |records| > 0 && records[0].Checkpoint? { anchor := anchor.(from := records[0].generation); }
    ghost var start := anchor;
    assert records[..0] == [];
    for i := 0 to |records|
      invariant anchor == start.(txs := CommitTxs(records[..i]))
    {
      assert records[..i + 1][..i] == records[..i];
      if records[i].CommitMark? { anchor := anchor.(txs := anchor.txs + [records[i].tx]); }
    }
    assert records[..|records|] == records;
  }

  predicate Marked(records: seq<Record>, tx: string) {
    exists i :: 0 <= i < |records| && records[i].CommitMark? && records[i].tx == tx
  }

  lemma {:induction false} CommitTxsAre(records: seq<Record>, tx: string)
    ensures tx in CommitTxs(records) <==> Marked(records, tx)
  {
    if records != [] {
      var n := |records| - 1;
      CommitTxsAre(records[..n], tx);
      if Marked(records, tx) && !(records[n].CommitMark? && records[n].tx == tx) {
        var i :| 0 <= i < |records| && records[i].CommitMark? && records[i].tx == tx;
        assert records[..n][i] == records[i];
      }
    }
  }

  // Recovery.

  datatype Outcome = Committed | Rejected | Unknown

  /** The generation of the last prepare of a transaction. */
  function LastPrepare(records: seq<Record>, tx: string): Option<nat> {
    if records == [] then None
    else
      var r := records[|records| - 1];
      if IsPrepare(r) && r.tx == tx then Some(r.generation) else LastPrepare(records[..|records| - 1], tx)
  }

  predicate MarkedAt(records: seq<Record>, tx: string, i: nat)
    requires i < |records|
  {
    records[i].CommitMark? && records[i].tx == tx && LastPrepare(records[..i], tx) == Some(records[i].generation)
  }

  /** `recoverFromAnchor`. */
  function FromAnchor(records: seq<Record>, tx: string): Outcome {
    if records == [] || !records[0].Checkpoint? then Rejected
    else if tx in records[0].txs then Committed
    else match TransactionGeneration(tx)
         case None => Unknown
         case Some(g) => if g <= records[0].from then Unknown else Rejected
  }

  function OutcomeOf(records: seq<Record>, tx: string): Outcome {
    if exists i :: 0 <= i < |records| && MarkedAt(records, tx, i) then Committed
    else if LastPrepare(records, tx).Some? then Rejected
    else FromAnchor(records, tx)
  }

  /** `RecoverTransaction` over the records of the journal. */
  method RecoverTransaction(records: seq<Record>, tx: string) returns (outcome: Outcome)
    ensures outcome == OutcomeOf(records, tx)
  {
    var prepared, generation := false, 0;
    for i := 0 to |records|
      invariant (if prepared then Some(generation) else None) == LastPrepare(records[..i], tx)
      invariant forall j :: 0 <= j < i ==> !MarkedAt(records, tx, j)
    {
      var r := records[i];
      assert records[..i + 1][..i] == records[..i];
      match r
      case Prepare(_, _, _, _, _, _) => if r.tx == tx { prepared, generation := true, r.generation; }
      case TypedPrepare(_, _, _, _) => if r.tx == tx { prepared, generation := true, r.generation; }
      case CommitMark(_, _, _) =>
        if r.tx == tx && prepared && r.generation == generation {
          assert MarkedAt(records, tx, i);
          return Committed;
        }
      case _ =>
    }
    assert records[..|records|] == records;
    if prepared { return Rejected; }
    return FromAnchor(records, tx);
  }

  // Every run of commits, crashes, checkpoints and compactions.

  /** The journal, the current generation, and the identifiers handed out and committed so far; `anchored` is the generation of
      the last compaction and `bound` that of the one before it, 0 where there was none. */
  datatype History = History(records: seq<Record>, generation: nat, issued: set<string>, committed: set<string>, anchored: nat, bound: nat)

  datatype Event =
    | Commits(prepare: Record)
      // The process stops before the commit marker is whole: nothing or the prepare alone was written.
    | Fails(prepare: Record, written: bool)
    | Checkpoints(checkpoint: Record, compacted: bool)

  /** What the two commit methods and the checkpoint make sure of. A checkpoint behind an open prepare leaves a journal
      that can be read only if it is compacted. */
  predicate Allowed(h: History, e: Event) {
    match e
    case Commits(p) => IsPrepare(p) && Fresh(h, p)
    case Fails(p, _) => IsPrepare(p) && Fresh(h, p)
    case Checkpoints(c, compacted) =>
      && c.Checkpoint? && c.generation == h.generation && c.from == 0 && c.txs == []
      && Safe(h.records) > 0 && h.records[Safe(h.records) - 1].CommitMark? && (compacted || Safe(h.records) == |h.records|)
  }

  predicate Fresh(h: History, p: Record)
    requires IsPrepare(p)
  {
    p.generation == h.generation + 1 && p.tx !in h.issued && TransactionGeneration(p.tx) == Some(p.generation)
  }

  function SafePart(records: seq<Record>): seq<Record> { records[..Safe(records)] }

  function Next(h: History, e: Event): History
    requires Allowed(h, e)
  {
    match e
    case Commits(p) =>
      h.(records := SafePart(h.records) + [p, CommitMark(p.tx, p.generation, p.base)], generation := p.generation,
         issued := h.issued + {p.tx}, committed := h.committed + {p.tx})
    case Fails(p, written) =>
      h.(records := SafePart(h.records) + (if written then [p] else []), issued := h.issued + {p.tx})
    case Checkpoints(c, compacted) =>
      if compacted then h.(records := [AnchorOf(c, h.records + [c])], anchored := c.generation, bound := h.anchored)
      else h.(records := h.records + [c])
  }

  function Play(events: seq<Event>): Option<History> {
    if events == [] then Some(History([], 0, {}, {}, 0, 0))
    else
      match Play(events[..|events| - 1])
      case None => None
      case Some(h) => if Allowed(h, events[|events| - 1]) then Some(Next(h, events[|events| - 1])) else None
  }

  /** A commit marker follows its prepare, only the last prepare may lack its marker. */
  ghost predicate Paired(records: seq<Record>) {
    forall i :: 0 <= i < |records| ==> PairedAt(records, i)
  }

  predicate PairedAt(records: seq<Record>, i: nat)
    requires i < |records|
  {
    && (records[i].CommitMark? ==> i > 0 && IsPrepare(records[i - 1]) && records[i - 1].tx == records[i].tx
                                   && records[i - 1].generation == records[i].generation)
    && (i > 0 && IsPrepare(records[i - 1]) ==> records[i].CommitMark?)
  }

  /** What holds of one identifier. */
  ghost predicate Kept(h: History, tx: string) {
    && (Marked(h.records, tx) ==> tx in h.committed)
    && (Listed(h.records, tx) ==> tx in h.committed)
    && (tx in h.issued ==> TransactionGeneration(tx).Some? && TransactionGeneration(tx).value > 0)
    && (tx in h.committed ==>
          && tx in h.issued && TransactionGeneration(tx).value <= h.generation
          && (Marked(h.records, tx) || TransactionGeneration(tx).value <= h.anchored)
          && (Marked(h.records, tx) || Listed(h.records, tx) || TransactionGeneration(tx).value <= h.bound))
  }

  /** An anchor is of the last compaction, and answers for what came after the one before. */
  predicate AnchorReaches(h: History) {
    if h.records != [] && h.records[0].Checkpoint? then h.records[0].generation == h.anchored && h.records[0].from == h.bound
    else h.anchored == h.bound == 0
  }

  predicate Listed(records: seq<Record>, tx: string) {
    records != [] && records[0].Checkpoint? && tx in records[0].txs
  }

  /** A prepare without its marker is of a transaction that never committed. */
  ghost predicate Invariant(h: History) {
    && Paired(h.records) && AnchorReaches(h)
    && (forall tx {:trigger Kept(h, tx)} :: Kept(h, tx))
    && (h.records != [] && IsPrepare(h.records[|h.records| - 1]) ==> h.records[|h.records| - 1].tx !in h.committed
                                                                     && h.records[|h.records| - 1].tx in h.issued)
  }

  /** The outcomes, exactly: committed and rejected answers are true, and all transactions begun since the last compaction but
      one are answered: unknown is for older ones only, and for identifiers that were never handed out. */
  ghost predicate Truthful(h: History, tx: string) {
    var o := OutcomeOf(h.records, tx);
    && (o == Committed ==> tx in h.committed)
    && (o == Rejected ==> tx !in h.committed)
    && (o == Unknown ==> TransactionGeneration(tx).None? || TransactionGeneration(tx).value <= h.bound)
    && (tx in h.issued ==> TransactionGeneration(tx).Some?)
    && (tx in h.issued && TransactionGeneration(tx).value > h.bound ==> o == if tx in h.committed then Committed else Rejected)
  }

  lemma PairedPrefix(records: seq<Record>, n: nat)
    requires Paired(records) && n <= |records|
    ensures Paired(records[..n])
  {
    forall i | 0 <= i < n ensures PairedAt(records[..n], i) {
      assert PairedAt(records, i);
    }
  }

  lemma PairedSnoc(records: seq<Record>, r: Record)
    requires Paired(records)
    requires if records != [] && IsPrepare(records[|records| - 1])
             then r.CommitMark? && r.tx == records[|records| - 1].tx && r.generation == records[|records| - 1].generation
             else !r.CommitMark?
    ensures Paired(records + [r])
  {
    var all := records + [r];
    forall i | 0 <= i < |all| ensures PairedAt(all, i) {
      if i < |records| { assert PairedAt(records, i); }
    }
  }

  lemma MarkedSnoc(records: seq<Record>, r: Record, tx: string)
    ensures Marked(records + [r], tx) <==> Marked(records, tx) || (r.CommitMark? && r.tx == tx)
  {
    var all := records + [r];
    assert all[|records|] == r;
    assert forall i :: 0 <= i < |records| ==> all[i] == records[i];
  }

  /** Dropping the tail forgets no commit marker. */
  lemma MarkedSafe(records: seq<Record>, tx: string)
    ensures Marked(SafePart(records), tx) <==> Marked(records, tx)
  {
    var safe := SafePart(records);
    assert forall i :: 0 <= i < |safe| ==> safe[i] == records[i];
    if Marked(records, tx) {
      var i :| 0 <= i < |records| && records[i].CommitMark? && records[i].tx == tx;
      assert safe[i] == records[i];
    }
  }

  /** Nor the anchor. */
  lemma AnchorSafe(records: seq<Record>)
    requires records != [] && records[0].Checkpoint?
    ensures SafePart(records) != [] && SafePart(records)[0] == records[0]
    ensures forall tx :: Listed(SafePart(records), tx) <==> Listed(records, tx)
  {
    assert Safe(records) > 0;
  }

  lemma ListedSafe(records: seq<Record>, tx: string)
    ensures Listed(SafePart(records), tx) <==> Listed(records, tx)
  {
    if records != [] && records[0].Checkpoint? { AnchorSafe(records); }
  }

  lemma NextKept(h: History, e: Event, tx: string)
    requires Invariant(h) && Allowed(h, e)
    ensures Kept(Next(h, e), tx)
  {
    assert Kept(h, tx);
    var safe := SafePart(h.records);
    MarkedSafe(h.records, tx);
    ListedSafe(h.records, tx);
    match e
    case Commits(p) =>
      var mark := CommitMark(p.tx, p.generation, p.base);
      MarkedSnoc(safe, p, tx);
      MarkedSnoc(safe + [p], mark, tx);
      assert safe + [p, mark] == safe + [p] + [mark];
    case Fails(p, written) =>
      MarkedSnoc(safe, p, tx);
      assert safe + [] == safe;
    case Checkpoints(c, compacted) =>
      MarkedSnoc(h.records, c, tx);
      CommitTxsAre(h.records + [c], tx);
      if compacted { CompactionKeeps(h, c, tx); }
  }

  lemma CompactionKeeps(h: History, c: Record, tx: string)
    requires Kept(h, tx) && Allowed(h, Checkpoints(c, true))
    requires Marked(h.records + [c], tx) <==> Marked(h.records, tx)
    requires tx in CommitTxs(h.records + [c]) <==> Marked(h.records + [c], tx)
    ensures Kept(Next(h, Checkpoints(c, true)), tx)
  {
    var anchor := AnchorOf(c, h.records + [c]);
    assert (h.records + [c])[0] == h.records[0];
    assert !Marked([anchor], tx);
    assert Listed([anchor], tx) <==> Marked(h.records, tx);
  }

  lemma NextPaired(h: History, e: Event)
    requires Invariant(h) && Allowed(h, e)
    ensures Paired(Next(h, e).records)
  {
    var safe := SafePart(h.records);
    PairedPrefix(h.records, Safe(h.records));
    match e
    case Commits(p) =>
      var mark := CommitMark(p.tx, p.generation, p.base);
      PairedSnoc(safe, p);
      PairedSnoc(safe + [p], mark);
      assert safe + [p, mark] == safe + [p] + [mark];
    case Fails(p, written) =>
      if written { PairedSnoc(safe, p); } else { assert safe + [] == safe; }
    case Checkpoints(c, compacted) =>
      if !compacted { PairedSnoc(h.records, c); }
  }

  lemma NextKeeps(h: History, e: Event)
    requires Invariant(h) && Allowed(h, e)
    ensures Invariant(Next(h, e))
  {
    var n := Next(h, e);
    NextPaired(h, e);
    forall tx ensures Kept(n, tx) { NextKept(h, e, tx); }
    if e.Fails? {
      assert Kept(h, e.prepare.tx);
      assert SafePart(h.records) + [] == SafePart(h.records);
    }
  }

  lemma {:induction false} PlayKeeps(events: seq<Event>)
    requires Play(events).Some?
    ensures Invariant(Play(events).value)
  {
    if events != [] {
      PlayKeeps(events[..|events| - 1]);
      NextKeeps(Play(events[..|events| - 1]).value, events[|events| - 1]);
    }
  }

  lemma MarkedIsCommitted(records: seq<Record>, tx: string)
    requires Paired(records)
    ensures (exists i :: 0 <= i < |records| && MarkedAt(records, tx, i)) <==> Marked(records, tx)
  {
    if Marked(records, tx) {
      var i :| 0 <= i < |records| && records[i].CommitMark? && records[i].tx == tx;
      assert PairedAt(records, i);
      assert records[..i][|records[..i]| - 1] == records[i - 1];
      assert MarkedAt(records, tx, i);
    }
  }

  /** A prepare that is found without its marker is the last record. */
  lemma {:induction false} OpenPrepareIsLast(records: seq<Record>, tx: string)
    requires Paired(records) && LastPrepare(records, tx).Some?
    ensures Marked(records, tx) || (IsPrepare(records[|records| - 1]) && records[|records| - 1].tx == tx)
  {
    var n := |records| - 1;
    if !(IsPrepare(records[n]) && records[n].tx == tx) {
      PairedPrefix(records, n);
      OpenPrepareIsLast(records[..n], tx);
      assert PairedAt(records, n);
      if Marked(records[..n], tx) {
        var i :| 0 <= i < n && records[..n][i].CommitMark? && records[..n][i].tx == tx;
        assert records[i].CommitMark? && records[i].tx == tx;
      } else {
        assert records[n].CommitMark? && records[n].tx == tx;
      }
    }
  }

  /** In every run, with any crashes and any compactions, the recovered outcomes are the true ones. */
  lemma RecoveryIsTruthful(events: seq<Event>, tx: string)
    requires Play(events).Some?
    ensures Truthful(Play(events).value, tx)
  {
    PlayKeeps(events);
    var h := Play(events).value;
    assert Kept(h, tx);
    MarkedIsCommitted(h.records, tx);
    if LastPrepare(h.records, tx).Some? && !Marked(h.records, tx) { OpenPrepareIsLast(h.records, tx); }
  }

  lemma IssuedNext(h: History, e: Event, tx: string)
    requires Allowed(h, e) && tx in h.issued
    ensures tx in Next(h, e).issued && (tx in Next(h, e).committed <==> tx in h.committed)
  {
  }

  lemma PlayLast(events: seq<Event>, e: Event)
    requires Play(events + [e]).Some?
    ensures Play(events).Some? && Allowed(Play(events).value, e) && Play(events + [e]).value == Next(Play(events).value, e)
  {
    assert (events + [e])[..|events|] == events;
  }

  lemma {:induction false} IssuedGrows(events: seq<Event>, more: seq<Event>, tx: string)
    requires Play(events + more).Some?
    ensures Play(events).Some?
    ensures tx in Play(events).value.issued ==>
              && tx in Play(events + more).value.issued
              && (tx in Play(events + more).value.committed <==> tx in Play(events).value.committed)
  {
    if more == [] {
      assert events + more == events;
    } else {
      var n := |more| - 1;
      assert events + more == events + more[..n] + [more[n]];
      PlayLast(events + more[..n], more[n]);
      IssuedGrows(events, more[..n], tx);
      var past := Play(events + more[..n]).value;
      if tx in past.issued { IssuedNext(past, more[n], tx); }
    }
  }

  /** An answer is final: a transaction found rejected never commits later, and no later answer contradicts an
      earlier one, although compaction may make it unknown. */
  lemma RecoveryIsFinal(events: seq<Event>, more: seq<Event>, tx: string)
    requires Play(events + more).Some?
    ensures Play(events).Some?
    ensures var past, now := Play(events).value, Play(events + more).value;
            tx in past.issued ==>
              && (OutcomeOf(past.records, tx) == Rejected ==> OutcomeOf(now.records, tx) != Committed)
              && (OutcomeOf(past.records, tx) == Committed ==> OutcomeOf(now.records, tx) != Rejected)
  {
    IssuedGrows(events, more, tx);
    RecoveryIsTruthful(events, tx);
    RecoveryIsTruthful(events + more, tx);
  }
}
