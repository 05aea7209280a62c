/** First committer wins: the conflict check is exact, and over any run it admits exactly the transactions
    that are disjoint from everything committed since their snapshot. */
module FirstCommitter {
  import opened Bytes
  import opened Sorting
  import opened Overlays
  import opened Pending
  import opened WriteLog

  /** One table edit and the generation that committed it. */
  datatype Event = Event(te: TableEdit, generation: nat)

  function Tagged(edits: seq<TableEdit>, generation: nat): seq<Event> {
    seq(|edits|, i requires 0 <= i < |edits| => Event(edits[i], generation))
  }

  /** The history in commit order. */
  function Events(from: nat, commits: seq<seq<TableEdit>>): seq<Event> {
    if commits == [] then []
    else Events(from, commits[..|commits| - 1]) + Tagged(commits[|commits| - 1], from + |commits|)
  }

  function LogOf(from: nat, events: seq<Event>): Log {
    if events == [] then Log(from, map[], map[])
    else RecordOne(LogOf(from, events[..|events| - 1]), events[|events| - 1].te, events[|events| - 1].generation)
  }

  function RowsOf(events: seq<Event>): map<string, map<Key, RowEdit>> {
    if events == [] then map[]
    else RowsAfter(RowsOf(events[..|events| - 1]), events[|events| - 1].te, events[|events| - 1].generation)
  }

  lemma TaggedSnoc(events: seq<Event>, edits: seq<TableEdit>, generation: nat)
    requires edits != []
    ensures var n := |edits| - 1;
            events + Tagged(edits, generation) == events + Tagged(edits[..n], generation) + [Event(edits[n], generation)]
  {
  }

  lemma LogSnoc(from: nat, events: seq<Event>, e: Event)
    ensures LogOf(from, events + [e]) == RecordOne(LogOf(from, events), e.te, e.generation)
    ensures RowsOf(events + [e]) == RowsAfter(RowsOf(events), e.te, e.generation)
  {
    assert (events + [e])[..|events|] == events;
  }

  lemma {:induction false} OneCommit(from: nat, events: seq<Event>, edits: seq<TableEdit>, generation: nat)
    ensures LogOf(from, events + Tagged(edits, generation)) == RecordAll(LogOf(from, events), edits, generation)
    ensures RowsOf(events + Tagged(edits, generation)) == RowsAfterAll(RowsOf(events), edits, generation)
  {
    if edits == [] {
      assert events + Tagged(edits, generation) == events;
    } else {
      var n := |edits| - 1;
      OneCommit(from, events, edits[..n], generation);
      TaggedSnoc(events, edits, generation);
      LogSnoc(from, events + Tagged(edits[..n], generation), Event(edits[n], generation));
    }
  }

  lemma {:induction false} AfterIsEvents(from: nat, commits: seq<seq<TableEdit>>)
    ensures var v := After(from, commits);
            && v.rows == RowsOf(Events(from, commits))
            && (commits != [] ==> v.log == Some(LogOf(from, Events(from, commits))))
  {
    if commits != [] {
      var n := |commits| - 1;
      AfterIsEvents(from, commits[..n]);
      AfterGeneration(from, commits[..n]);
      if n == 0 { assert Events(from, commits[..n]) == []; }
      OneCommit(from, Events(from, commits[..n]), commits[n], from + |commits|);
    }
  }

  ghost predicate Ordered(events: seq<Event>) {
    forall i, j :: 0 <= i < j < |events| ==> events[i].generation <= events[j].generation
  }

  /** Some edit committed after `base` satisfies `p`. */
  ghost predicate Later(events: seq<Event>, base: nat, p: TableEdit -> bool) {
    exists i :: 0 <= i < |events| && events[i].generation > base && p(events[i].te)
  }

  /** In an ordered history only the last edit, or a later one before it, counts. */
  lemma LaterSnoc(events: seq<Event>, base: nat, p: TableEdit -> bool)
    requires events != []
    ensures var last := events[|events| - 1];
            Later(events, base, p)
            <==> (last.generation > base && p(last.te)) || Later(events[..|events| - 1], base, p)
    ensures Ordered(events) && events[|events| - 1].generation <= base ==> !Later(events, base, p)
  {
    var n := |events| - 1;
    if Later(events[..n], base, p) {
      var i :| 0 <= i < n && events[..n][i].generation > base && p(events[..n][i].te);
      assert events[i].generation > base && p(events[i].te);
    }
    if i :| 0 <= i < |events| && events[i].generation > base && p(events[i].te) {
      if i < n { assert events[..n][i] == events[i]; }
    }
  }

  function Touches(t: string): TableEdit -> bool { (te: TableEdit) => te.table == t }

  function Changes(t: string): TableEdit -> bool { (te: TableEdit) => te.table == t && te.ChangesSchema() }

  function Claims(t: string, c: Claim): TableEdit -> bool { (te: TableEdit) => te.table == t && c in te.claims }

  function WritesRow(t: string, k: Key): TableEdit -> bool {
    (te: TableEdit) => te.table == t && k in LastOf(RowKey, te.edits)
  }

  lemma {:induction false} TablesRecorded(from: nat, events: seq<Event>, t: string, base: nat)
    requires Ordered(events)
    ensures TableOf(LogOf(from, events), t).touched > base <==> Later(events, base, Touches(t))
    ensures TableOf(LogOf(from, events), t).schema > base <==> Later(events, base, Changes(t))
  {
    if events != [] {
      LaterSnoc(events, base, Touches(t));
      LaterSnoc(events, base, Changes(t));
      TablesRecorded(from, events[..|events| - 1], t, base);
    }
  }

  lemma {:induction false} WithClaimsIs(claims: map<ClaimKey, nat>, table: string, added: seq<Claim>, generation: nat, c: ClaimKey)
    ensures var r := WithClaims(claims, table, added, generation);
            if c.table == table && c.claim in added then c in r && r[c] == generation
            else (c in r <==> c in claims) && (c in r ==> r[c] == claims[c])
  {
    if added != [] {
      var n := |added| - 1;
      WithClaimsIs(claims, table, added[..n], generation, c);
      assert added == added[..n] + [added[n]];
    }
  }

  lemma {:induction false} ClaimsRecorded(from: nat, events: seq<Event>, t: string, c: Claim, base: nat)
    requires Ordered(events)
    ensures ClaimedAt(LogOf(from, events), ClaimKey(t, c)) > base <==> Later(events, base, Claims(t, c))
  {
    if events != [] {
      var n := |events| - 1;
      LaterSnoc(events, base, Claims(t, c));
      ClaimsRecorded(from, events[..n], t, c, base);
      WithClaimsIs(LogOf(from, events[..n]).claims, events[n].te.table, events[n].te.claims, events[n].generation, ClaimKey(t, c));
    }
  }

  /** Unless its table changed since, a row's newest pending edit is later than `base` exactly if a later
      commit wrote the row. */
  lemma {:induction false} RowsRecorded(events: seq<Event>, t: string, k: Key, base: nat)
    requires Ordered(events) && !Later(events, base, Changes(t))
    ensures (t in RowsOf(events) && k in RowsOf(events)[t] && RowsOf(events)[t][k].generation > base)
            <==> Later(events, base, WritesRow(t, k))
  {
    if events != [] {
      var n := |events| - 1;
      LaterSnoc(events, base, WritesRow(t, k));
      LaterSnoc(events, base, Changes(t));
      RowsRecorded(events[..n], t, k, base);
    }
  }

  lemma {:induction false} EventsOrdered(from: nat, commits: seq<seq<TableEdit>>)
    ensures Ordered(Events(from, commits))
    ensures forall i :: 0 <= i < |Events(from, commits)| ==> Events(from, commits)[i].generation <= from + |commits|
  {
    if commits != [] { EventsOrdered(from, commits[..|commits| - 1]); }
  }

  lemma LaterAppend(a: seq<Event>, b: seq<Event>, base: nat, p: TableEdit -> bool)
    ensures Later(a + b, base, p) <==> Later(a, base, p) || Later(b, base, p)
  {
    var ab := a + b;
    if i :| 0 <= i < |ab| && ab[i].generation > base && p(ab[i].te) {
      if i < |a| { assert a[i] == ab[i]; } else { assert b[i - |a|] == ab[i]; }
    }
    if i :| 0 <= i < |a| && a[i].generation > base && p(a[i].te) { assert ab[i] == a[i]; }
    if i :| 0 <= i < |b| && b[i].generation > base && p(b[i].te) { assert ab[|a| + i] == b[i]; }
  }

  ghost predicate SomeEdit(edits: seq<TableEdit>, p: TableEdit -> bool) {
    exists j :: 0 <= j < |edits| && p(edits[j])
  }

  lemma LaterTagged(edits: seq<TableEdit>, generation: nat, base: nat, p: TableEdit -> bool)
    ensures Later(Tagged(edits, generation), base, p) <==> generation > base && SomeEdit(edits, p)
  {
    var tagged := Tagged(edits, generation);
    if j :| 0 <= j < |edits| && p(edits[j]) { assert tagged[j].te == edits[j]; }
  }

  /** A later edit is an edit of a later commit. */
  lemma {:induction false} LaterCommit(from: nat, commits: seq<seq<TableEdit>>, base: nat, p: TableEdit -> bool)
    ensures Later(Events(from, commits), base, p) <==> SomeCommit(from, commits, base, p)
  {
    if commits != [] {
      var n := |commits| - 1;
      LaterCommit(from, commits[..n], base, p);
      LaterAppend(Events(from, commits[..n]), Tagged(commits[n], from + |commits|), base, p);
      LaterTagged(commits[n], from + |commits|, base, p);
      SomeSnoc(from, commits, base, p);
    }
  }

  ghost predicate SomeCommit(from: nat, commits: seq<seq<TableEdit>>, base: nat, p: TableEdit -> bool) {
    exists g :: 0 <= g < |commits| && from + g + 1 > base && SomeEdit(commits[g], p)
  }

  lemma SomeSnoc(from: nat, commits: seq<seq<TableEdit>>, base: nat, p: TableEdit -> bool)
    requires commits != []
    ensures var n := |commits| - 1;
            SomeCommit(from, commits, base, p) <==> SomeCommit(from, commits[..n], base, p) || (from + |commits| > base && SomeEdit(commits[n], p))
  {
    var n := |commits| - 1;
    assert forall g :: 0 <= g < n ==> commits[..n][g] == commits[g];
  }

  function ClashesWith(te: TableEdit): TableEdit -> bool
    ensures forall other: TableEdit :: ClashesWith(te)(other) <==> Clash(other, te)
  {
    (other: TableEdit) =>
      other.table == te.table &&
      (other.ChangesSchema() || te.ChangesSchema()
       || (exists i, j :: 0 <= i < |other.edits| && 0 <= j < |te.edits| && other.edits[i].key == te.edits[j].key)
       || exists c :: c in other.claims && c in te.claims)
  }

  lemma LaterImplies(events: seq<Event>, base: nat, p: TableEdit -> bool, q: TableEdit -> bool)
    requires forall te: TableEdit :: p(te) ==> q(te)
    ensures Later(events, base, p) ==> Later(events, base, q)
  {
    if i :| 0 <= i < |events| && events[i].generation > base && p(events[i].te) {
      assert q(events[i].te);
    }
  }

  lemma RowClashIs(events: seq<Event>, te: TableEdit, base: nat)
    requires Ordered(events) && !Later(events, base, Changes(te.table))
    ensures RowClash(RowsOf(events), te, base)
            <==> exists i :: 0 <= i < |te.edits| && Later(events, base, WritesRow(te.table, te.edits[i].key))
  {
    forall i | 0 <= i < |te.edits|
      ensures (te.table in RowsOf(events) && te.edits[i].key in RowsOf(events)[te.table]
               && RowsOf(events)[te.table][te.edits[i].key].generation > base)
              <==> Later(events, base, WritesRow(te.table, te.edits[i].key))
    {
      RowsRecorded(events, te.table, te.edits[i].key, base);
    }
  }

  lemma ClaimClashIs(from: nat, events: seq<Event>, te: TableEdit, base: nat)
    requires Ordered(events)
    ensures ClaimClash(LogOf(from, events), te, base)
            <==> exists i :: 0 <= i < |te.claims| && Later(events, base, Claims(te.table, te.claims[i]))
  {
    forall i | 0 <= i < |te.claims|
      ensures ClaimedAt(LogOf(from, events), ClaimKey(te.table, te.claims[i])) > base
              <==> Later(events, base, Claims(te.table, te.claims[i]))
    {
      ClaimsRecorded(from, events, te.table, te.claims[i], base);
    }
  }

  /** A clash, spelled out by its four reasons. */
  lemma LaterClash(events: seq<Event>, te: TableEdit, base: nat)
    ensures Later(events, base, ClashesWith(te)) <==>
              || Later(events, base, Changes(te.table))
              || (te.ChangesSchema() && Later(events, base, Touches(te.table)))
              || (exists i :: 0 <= i < |te.edits| && Later(events, base, WritesRow(te.table, te.edits[i].key)))
              || (exists i :: 0 <= i < |te.claims| && Later(events, base, Claims(te.table, te.claims[i])))
  {
    LaterImplies(events, base, Changes(te.table), ClashesWith(te));
    if te.ChangesSchema() { LaterImplies(events, base, Touches(te.table), ClashesWith(te)); }
    forall i | 0 <= i < |te.edits| && Later(events, base, WritesRow(te.table, te.edits[i].key))
      ensures Later(events, base, ClashesWith(te))
    {
      RowReason(te, i);
      LaterImplies(events, base, WritesRow(te.table, te.edits[i].key), ClashesWith(te));
    }
    forall i | 0 <= i < |te.claims| && Later(events, base, Claims(te.table, te.claims[i]))
      ensures Later(events, base, ClashesWith(te))
    {
      LaterImplies(events, base, Claims(te.table, te.claims[i]), ClashesWith(te));
    }
    if Later(events, base, ClashesWith(te)) {
      var e :| 0 <= e < |events| && events[e].generation > base && ClashesWith(te)(events[e].te);
      ClashReason(events, base, te, e);
    }
  }

  lemma RowReason(te: TableEdit, i: nat)
    requires i < |te.edits|
    ensures forall other: TableEdit :: WritesRow(te.table, te.edits[i].key)(other) ==> ClashesWith(te)(other)
  {
    forall other: TableEdit | WritesRow(te.table, te.edits[i].key)(other) ensures ClashesWith(te)(other) {
      LastOfKeys(RowKey, other.edits);
      var x := LastOf(RowKey, other.edits)[te.edits[i].key];
      var j :| 0 <= j < |other.edits| && other.edits[j] == x;
      assert other.edits[j].key == te.edits[i].key;
    }
  }

  lemma ClashReason(events: seq<Event>, base: nat, te: TableEdit, e: nat)
    requires e < |events| && events[e].generation > base && Clash(events[e].te, te)
    ensures || Later(events, base, Changes(te.table))
            || (te.ChangesSchema() && Later(events, base, Touches(te.table)))
            || (exists i :: 0 <= i < |te.edits| && Later(events, base, WritesRow(te.table, te.edits[i].key)))
            || (exists i :: 0 <= i < |te.claims| && Later(events, base, Claims(te.table, te.claims[i])))
  {
    var other := events[e].te;
    if other.ChangesSchema() {
      assert Changes(te.table)(other);
    } else if te.ChangesSchema() {
      assert Touches(te.table)(other);
    } else if i, j :| 0 <= i < |other.edits| && 0 <= j < |te.edits| && other.edits[i].key == te.edits[j].key {
      LastOfKeys(RowKey, other.edits);
      assert RowKey(other.edits[i]) in LastOf(RowKey, other.edits);
      assert WritesRow(te.table, te.edits[j].key)(other);
    } else {
      var c :| c in other.claims && c in te.claims;
      var i :| 0 <= i < |te.claims| && te.claims[i] == c;
      assert Claims(te.table, te.claims[i])(other);
    }
  }

  /** The check of one table against the whole history. */
  lemma TableConflictExact(from: nat, commits: seq<seq<TableEdit>>, base: nat, te: TableEdit)
    requires commits != []
    ensures TableConflict(After(from, commits), After(from, commits).log.value, te, base)
            <==> SomeCommit(from, commits, base, ClashesWith(te))
  {
    var events := Events(from, commits);
    AfterGeneration(from, commits);
    AfterIsEvents(from, commits);
    EventsOrdered(from, commits);
    TablesRecorded(from, events, te.table, base);
    LaterCommit(from, commits, base, ClashesWith(te));
    LaterClash(events, te, base);
    ClaimClashIs(from, events, te, base);
    if !Later(events, base, Changes(te.table)) { RowClashIs(events, te, base); }
    if !Later(events, base, Touches(te.table)) { Untouched(events, te, base); }
  }

  lemma Untouched(events: seq<Event>, te: TableEdit, base: nat)
    requires !Later(events, base, Touches(te.table))
    ensures !Later(events, base, ClashesWith(te))
  {
    LaterImplies(events, base, ClashesWith(te), Touches(te.table));
  }

  /** Two edits of one table that both change rows with one key, or claim one key of an index, or of which one creates, alters or
      drops the table. */
  ghost predicate Competes(a: TableEdit, b: TableEdit) {
    a.table == b.table
    && (a.drop || b.drop || |a.schema| > 0 || |b.schema| > 0
        || (exists i, j :: 0 <= i < |a.edits| && 0 <= j < |b.edits| && a.edits[i].key == b.edits[j].key)
        || exists i, j :: 0 <= i < |a.claims| && 0 <= j < |b.claims| && a.claims[i] == b.claims[j])
  }

  lemma ClashCompetes(a: TableEdit, b: TableEdit)
    ensures Clash(a, b) <==> Competes(a, b)
  {
    if c :| c in a.claims && c in b.claims {
      var i :| 0 <= i < |a.claims| && a.claims[i] == c;
      var j :| 0 <= j < |b.claims| && b.claims[j] == c;
      assert a.claims[i] == b.claims[j];
    }
    if i, j :| 0 <= i < |a.claims| && 0 <= j < |b.claims| && a.claims[i] == b.claims[j] { assert a.claims[i] in b.claims; }
  }

  /** The conflict check, said of the edits alone. */
  lemma RefusedExactly(commits: seq<seq<TableEdit>>, base: nat, edits: seq<TableEdit>)
    ensures Conflict(After(0, commits), base, edits) <==>
              base > |commits| || exists x, y :: CommittedSince(commits, base, x) && y in edits && Competes(x, y)
  {
    ConflictExact(0, commits, base, edits);
    if g :| base < 0 + g + 1 && 0 <= g < |commits| && Clashing(commits[g], edits) {
      var i, j :| 0 <= i < |commits[g]| && 0 <= j < |edits| && Clash(commits[g][i], edits[j]);
      ClashCompetes(commits[g][i], edits[j]);
      assert CommittedSince(commits, base, commits[g][i]) && edits[j] in edits;
    }
    if x, y :| CommittedSince(commits, base, x) && y in edits && Competes(x, y) {
      var g :| base <= g < |commits| && x in commits[g];
      var i :| 0 <= i < |commits[g]| && commits[g][i] == x;
      var j :| 0 <= j < |edits| && edits[j] == y;
      ClashCompetes(x, y);
      assert Clash(commits[g][i], edits[j]) && Clashing(commits[g], edits);
      assert base < 0 + g + 1;
    }
  }

  ghost predicate CommittedSince(commits: seq<seq<TableEdit>>, base: nat, x: TableEdit) {
    exists g :: base <= g < |commits| && x in commits[g]
  }

  /** The conflict check is exact: a transaction based at `base` is refused if and only if its snapshot is
      not one of this base's generations, or some commit after `base` clashes with it. */
  lemma ConflictExact(from: nat, commits: seq<seq<TableEdit>>, base: nat, edits: seq<TableEdit>)
    ensures var v := After(from, commits);
            Conflict(v, base, edits)
            <==> base < from || base > from + |commits|
                 || exists g :: base < from + g + 1 && 0 <= g < |commits| && Clashing(commits[g], edits)
  {
    AfterGeneration(from, commits);
    var v := After(from, commits);
    if commits != [] {
      forall i | 0 <= i < |edits|
        ensures TableConflict(v, v.log.value, edits[i], base)
                <==> SomeCommit(from, commits, base, ClashesWith(edits[i]))
      {
        TableConflictExact(from, commits, base, edits[i]);
      }
      if i :| 0 <= i < |edits| && TableConflict(v, v.log.value, edits[i], base) {
        var g :| 0 <= g < |commits| && from + g + 1 > base && SomeEdit(commits[g], ClashesWith(edits[i]));
        var j :| 0 <= j < |commits[g]| && ClashesWith(edits[i])(commits[g][j]);
        assert Clash(commits[g][j], edits[i]);
        assert Clashing(commits[g], edits);
      }
      if g :| base < from + g + 1 && 0 <= g < |commits| && Clashing(commits[g], edits) {
        var j, i :| 0 <= j < |commits[g]| && 0 <= i < |edits| && Clash(commits[g][j], edits[i]);
        assert ClashesWith(edits[i])(commits[g][j]);
        assert TableConflict(v, v.log.value, edits[i], base);
      }
    }
  }

  // Runs.

  /** A transaction: the generation of its snapshot and what it writes. */
  datatype Txn = Txn(base: nat, edits: seq<TableEdit>)

  function EditsOf(run: seq<Txn>): seq<seq<TableEdit>> {
    seq(|run|, i requires 0 <= i < |run| => run[i].edits)
  }

  /** Every transaction passed the check against the view it committed on. */
  ghost predicate Admitted(from: nat, run: seq<Txn>) {
    forall i :: 0 <= i < |run| ==> !Conflict(After(from, EditsOf(run[..i])), run[i].base, run[i].edits)
  }

  /** First committer wins: a run is admitted if and only if no transaction clashes with one that committed
      between its snapshot and its own commit, and no snapshot lies outside the run so far. */
  lemma FirstCommitterWins(from: nat, run: seq<Txn>)
    ensures Admitted(from, run) <==>
              forall i :: 0 <= i < |run| ==>
                && from <= run[i].base <= from + i
                && forall g :: 0 <= g < i && run[i].base < from + g + 1 ==> !Clashing(run[g].edits, run[i].edits)
  {
    forall i | 0 <= i < |run|
      ensures !Conflict(After(from, EditsOf(run[..i])), run[i].base, run[i].edits)
              <==> && from <= run[i].base <= from + i
                   && forall g :: 0 <= g < i && run[i].base < from + g + 1 ==> !Clashing(run[g].edits, run[i].edits)
    {
      ConflictExact(from, EditsOf(run[..i]), run[i].base, run[i].edits);
      assert forall g :: 0 <= g < i ==> EditsOf(run[..i])[g] == run[g].edits;
    }
  }

  /** A view whose log a later load extended can only see more conflicts. */
  lemma ExtendedLogOnlyAdds(v: Writes, base: nat, edits: seq<TableEdit>, later: seq<TableEdit>, generation: nat)
    requires v.log.Some? && generation > v.generation
    requires forall t :: t in v.log.value.tables ==> v.log.value.tables[t].touched <= v.generation && v.log.value.tables[t].schema <= v.generation
    requires forall c :: c in v.log.value.claims ==> v.log.value.claims[c] <= v.generation
    requires Conflict(v, base, edits)
    ensures Conflict(v.(log := Some(RecordAll(v.log.value, later, generation))), base, edits)
  {
    var log, log' := v.log.value, RecordAll(v.log.value, later, generation);
    LogGrows(log, later, generation);
    RecordKeepsFrom(log, later, generation);
    if i :| base != v.generation && 0 <= i < |edits| && TableConflict(v, log, edits[i], base) {
      var te := edits[i];
      assert TableOf(log, te.table).touched <= TableOf(log', te.table).touched;
      if j :| 0 <= j < |te.claims| && ClaimedAt(log, ClaimKey(te.table, te.claims[j])) > base {
        assert ClaimedAt(log', ClaimKey(te.table, te.claims[j])) > base;
      }
      assert TableConflict(v.(log := Some(log')), log', te, base);
    }
  }

  lemma {:induction false} LogGrows(log: Log, later: seq<TableEdit>, generation: nat)
    requires forall t :: t in log.tables ==> log.tables[t].touched <= generation && log.tables[t].schema <= generation
    requires forall c :: c in log.claims ==> log.claims[c] <= generation
    ensures var log' := RecordAll(log, later, generation);
            && (forall t :: TableOf(log, t).touched <= TableOf(log', t).touched <= generation
                         && TableOf(log, t).schema <= TableOf(log', t).schema <= generation)
            && (forall c :: ClaimedAt(log, c) <= ClaimedAt(log', c) <= generation)
  {
    if later != [] {
      var n := |later| - 1;
      LogGrows(log, later[..n], generation);
      var mid := RecordAll(log, later[..n], generation);
      forall c ensures ClaimedAt(mid, c) <= ClaimedAt(RecordAll(log, later, generation), c) <= generation {
        WithClaimsIs(mid.claims, later[n].table, later[n].claims, generation, c);
      }
    }
  }
}
