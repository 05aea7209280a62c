/** The condition of `UniqueRuns` is exact over runs: a commit is safe in every continuation if and only if it is quiet. */
module UniqueExact {
  import opened Bytes
  import opened Overlays
  import opened Pending
  import opened WriteLog
  import FirstCommitter
  import opened IndexAgreement
  import opened UniqueRuns

  /** The row behind a missed entry is another's, and its key is one that any row may take. */
  lemma MissedIsShared(def: IndexDef, table: string, s: State, t: Txn, te: TableEdit, cached: map<Key, Key>, k: Key)
    requires Separates(def) && Good(def, table, s) && TxnOk(def, s, t) && Describes(def, te, table, t.own) && Apart(s, t.base, te)
    requires Agree(def, s.rows[|s.history|], cached) && Misses(t, cached, k)
    ensures cached[k] !in t.own.edits && cached[k] in s.rows[|s.history|]
    ensures def.unique && !def.hasNull(s.rows[|s.history|][cached[k]])
  {
    var p, now, base := cached[k], s.rows[|s.history|], s.rows[t.base];
    assert def.key(now[p], p) == k;
    if p in base { assert def.key(base[p], p) in t.view; }
    if p in t.own.edits { CurrentRow(def, table, s, t, te, p); }
    LastIsAnEdit(t.own.local, k);
    var i :| 0 <= i < |t.own.local| && t.own.local[i] == IndexEdit(k, None);
    assert PutAmong(t.own.local, k);
    var j :| 0 <= j < |t.own.local| && t.own.local[j].key == k && t.own.local[j].pk.Some?;
    var q := t.own.local[j].pk.value;
    assert IsKey(def, q, k) && q in t.own.edits;
    var row :| def.key(row, q) == k;
    assert def.key(now[p], p) == def.key(row, q) && p != q;
  }

  lemma {:induction false} FreshKey(rows: map<Key, Row>) returns (q: Key)
    ensures forall p :: p in rows ==> |p| < |q|
    decreases |rows|
  {
    if rows == map[] {
      q := [];
    } else {
      var p :| p in rows;
      var less := FreshKey(rows - {p});
      q := if |p| < |less| then less else p + [0];
    }
  }

  function InsertOwn(def: IndexDef, q: Key, row: Row): Own {
    Own(map[q := Some(row)], [IndexEdit(def.key(row, q), Some(q))])
  }

  function InsertEdit(def: IndexDef, table: string, q: Key, row: Row): TableEdit {
    TableEdit(table, [], false, [RowEdit(q, [], false, 0)], if def.unique then [Claim(def.name, def.key(row, q))] else [])
  }

  lemma InsertDescribed(def: IndexDef, table: string, q: Key, row: Row)
    ensures Describes(def, InsertEdit(def, table, q, row), table, InsertOwn(def, q, row))
  {
    var local := InsertOwn(def, q, row).local;
    assert local[..0] == [];
    assert Last(local) == map[def.key(row, q) := Some(q)];
    assert InsertEdit(def, table, q, row).edits[0].key == q;
  }

  lemma OnOwnSnapshot(history: seq<TableEdit>, te: TableEdit)
    ensures !Conflict(After(0, Commits(history)), |history|, [te])
  {
    FirstCommitter.ConflictExact(0, Commits(history), |history|, [te]);
  }

  lemma PlayMore(def: IndexDef, table: string, rows: map<Key, Row>, events: seq<Event>, s: State, e: Event)
    requires Play(def, table, rows, events) == Some(s) && |s.rows| == |s.history| + 1 && Allowed(def, table, s, e)
    ensures Play(def, table, rows, events + [e]) == Some(Next(def, table, s, e))
  {
    assert (events + [e])[..|events|] == events;
  }

  /** A transaction on the newest generation that inserts one row. */
  function InsertAlone(def: IndexDef, table: string, id: nat, view: map<Key, Key>, q: Key, row: Row): seq<Event> {
    [Begin(id, view), Act(id, Insert(q, row)), Commit(id, InsertEdit(def, table, q, row))]
  }

  lemma InsertDone(def: IndexDef, rows: map<Key, Row>, view: map<Key, Key>, q: Key, row: Row)
    requires q !in rows && def.key(row, q) !in view
    ensures Possible(def, rows, view, Own(map[], []), Insert(q, row))
    ensures Do(def, rows, view, Own(map[], []), Insert(q, row)) == InsertOwn(def, q, row)
    ensures RowsIn(rows, InsertOwn(def, q, row)) == rows[q := row]
  {
    NothingDone(rows, view);
    var none: map<Key, Option<Row>> := map[];
    assert none[q := Some(row)] == map[q := Some(row)];
    assert [] + InsertOwn(def, q, row).local == InsertOwn(def, q, row).local;
  }

  function WithOpen(s: State, id: nat, t: Txn): State { s.(open := s.open[id := t]) }

  lemma InsertUnderWay(def: IndexDef, table: string, rows: map<Key, Row>, events: seq<Event>, s: State, id: nat,
                       view: map<Key, Key>, q: Key, row: Row)
    requires Play(def, table, rows, events) == Some(s) && |s.rows| == |s.history| + 1
    requires s.cache == Some(Cache(|s.history|, view)) && id !in s.open
    requires q !in s.rows[|s.history|] && def.key(row, q) !in view
    ensures Play(def, table, rows, events + [Begin(id, view)] + [Act(id, Insert(q, row))])
            == Some(WithOpen(s, id, Txn(|s.history|, view, InsertOwn(def, q, row))))
  {
    var n := |s.history|;
    var begun := WithOpen(s, id, Txn(n, view, Own(map[], [])));
    PlayMore(def, table, rows, events, s, Begin(id, view));
    InsertDone(def, s.rows[n], view, q, row);
    PlayMore(def, table, rows, events + [Begin(id, view)], begun, Act(id, Insert(q, row)));
    assert begun.open[id := Txn(n, view, InsertOwn(def, q, row))] == s.open[id := Txn(n, view, InsertOwn(def, q, row))];
  }

  /** It goes through whenever the cached view does not hold its key. */
  lemma InsertGoesThrough(def: IndexDef, table: string, rows: map<Key, Row>, events: seq<Event>, s: State, id: nat,
                          view: map<Key, Key>, q: Key, row: Row)
    requires Play(def, table, rows, events) == Some(s) && |s.rows| == |s.history| + 1
    requires s.cache == Some(Cache(|s.history|, view)) && id !in s.open
    requires q !in s.rows[|s.history|] && def.key(row, q) !in view
    ensures var end := Play(def, table, rows, events + InsertAlone(def, table, id, view, q, row));
            end.Some? && end.value.rows == s.rows + [s.rows[|s.history|][q := row]]
    ensures QuietAfter(def, table, rows, events + InsertAlone(def, table, id, view, q, row), |events|)
  {
    var more := InsertAlone(def, table, id, view, q, row);
    var acted := WithOpen(s, id, Txn(|s.history|, view, InsertOwn(def, q, row)));
    InsertUnderWay(def, table, rows, events, s, id, view, q, row);
    CommitsAlone(def, table, acted, id, view, q, row);
    PlayMore(def, table, rows, events + [more[0]] + [more[1]], acted, more[2]);
    assert events + more == events + [more[0]] + [more[1]] + [more[2]];
    InsertIsQuiet(def, table, rows, events, acted, id, more);
  }

  lemma CommitsAlone(def: IndexDef, table: string, s: State, id: nat, view: map<Key, Key>, q: Key, row: Row)
    requires |s.rows| == |s.history| + 1 && q !in s.rows[|s.history|] && def.key(row, q) !in view
    requires id in s.open && s.open[id] == Txn(|s.history|, view, InsertOwn(def, q, row))
    ensures Allowed(def, table, s, Commit(id, InsertEdit(def, table, q, row)))
    ensures Next(def, table, s, Commit(id, InsertEdit(def, table, q, row))).rows == s.rows + [s.rows[|s.history|][q := row]]
  {
    InsertDone(def, s.rows[|s.history|], view, q, row);
    InsertDescribed(def, table, q, row);
    OnOwnSnapshot(s.history, InsertEdit(def, table, q, row));
  }

  lemma InsertIsQuiet(def: IndexDef, table: string, rows: map<Key, Row>, events: seq<Event>, acted: State, id: nat, more: seq<Event>)
    requires |more| == 3 && !more[0].Commit? && !more[1].Commit? && more[2].Commit? && more[2].id == id
    requires Play(def, table, rows, events + [more[0]] + [more[1]]) == Some(acted)
    requires id in acted.open && acted.open[id].base == |acted.history|
    ensures QuietAfter(def, table, rows, events + more, |events|)
  {
    var all := events + more;
    assert all[..|events| + 2] == events + [more[0]] + [more[1]];
    forall i | |events| <= i < |all| && all[i].Commit? ensures QuietAt(def, table, rows, all, i) { assert i == |events| + 2; }
  }

  /** The commit at `i`, if there is one, is quiet. */
  ghost predicate QuietAt(def: IndexDef, table: string, rows: map<Key, Row>, events: seq<Event>, i: nat)
    requires i < |events|
  {
    var before := Play(def, table, rows, events[..i]);
    events[i].Commit? && before.Some? && events[i].id in before.value.open ==> Quiet(before.value, before.value.open[events[i].id])
  }

  ghost predicate QuietAfter(def: IndexDef, table: string, rows: map<Key, Row>, events: seq<Event>, n: nat) {
    forall i :: n <= i < |events| && events[i].Commit? ==> QuietAt(def, table, rows, events, i)
  }

  /** After a commit that is not quiet some row's key is missing from the cached view, and is free to be put again. */
  lemma LoudLeavesAGap(def: IndexDef, table: string, s: State, id: nat, te: TableEdit) returns (p: Key, q: Key)
    requires Separates(def) && SharesKeys(def) && Good(def, table, s)
    requires Allowed(def, table, s, Commit(id, te)) && !Quiet(s, s.open[id])
    ensures var after, index := RowsIn(s.rows[|s.history|], s.open[id].own), IndexIn(s.cache.value.view, s.open[id].own);
            && p in after && q !in after
            && def.key(after[p], q) == def.key(after[p], p) && def.key(after[p], q) !in index
  {
    var t, n, cached := s.open[id], |s.history|, s.cache.value.view;
    assert TxnOk(def, s, t);
    PassedIsApart(def, table, s, t.base, te);
    var k :| Misses(t, cached, k);
    MissedRow(def, table, s, t, te, cached, k);
    MissedIsShared(def, table, s, t, te, cached, k);
    p := cached[k];
    var after := RowsIn(s.rows[n], t.own);
    q := FreshKey(after);
    assert def.key(after[p], q) == def.key(after[p], p);
  }

  /** A commit that is not quiet: the next transaction that inserts a row under the missed key commits, and two rows
      have one unique key. */
  lemma LoudLosesUniqueness(def: IndexDef, table: string, rows: map<Key, Row>, events: seq<Event>, id: nat, te: TableEdit)
    returns (more: seq<Event>)
    requires Separates(def) && SharesKeys(def) && Distinct(def, rows)
    requires Play(def, table, rows, events).Some? && QuietRun(def, table, rows, events)
    requires var s := Play(def, table, rows, events).value;
             Allowed(def, table, s, Commit(id, te)) && !Quiet(s, s.open[id])
    ensures !StaysUnique(def, table, rows, events + [Commit(id, te)], more)
  {
    RunsStayUnique(def, table, rows, events);
    var s := Play(def, table, rows, events).value;
    var p, q := LoudLeavesAGap(def, table, s, id, te);
    PlayMore(def, table, rows, events, s, Commit(id, te));
    AfterLoud(def, table, s, id, te);
    more := Refills(def, table, rows, events + [Commit(id, te)], Next(def, table, s, Commit(id, te)), id,
                    IndexIn(s.cache.value.view, s.open[id].own), p, q);
  }

  lemma AfterLoud(def: IndexDef, table: string, s: State, id: nat, te: TableEdit)
    requires |s.rows| == |s.history| + 1 && Allowed(def, table, s, Commit(id, te)) && !Quiet(s, s.open[id])
    ensures var after := Next(def, table, s, Commit(id, te));
            && id !in after.open && |after.rows| == |after.history| + 1
            && after.rows[|after.history|] == RowsIn(s.rows[|s.history|], s.open[id].own)
            && after.cache == Some(Cache(|after.history|, IndexIn(s.cache.value.view, s.open[id].own)))
  {
  }

  lemma Refills(def: IndexDef, table: string, rows: map<Key, Row>, events: seq<Event>, s: State, id: nat,
                view: map<Key, Key>, p: Key, q: Key) returns (more: seq<Event>)
    requires Play(def, table, rows, events) == Some(s) && |s.rows| == |s.history| + 1
    requires s.cache == Some(Cache(|s.history|, view)) && id !in s.open
    requires var now := s.rows[|s.history|];
             p in now && q !in now && def.key(now[p], q) == def.key(now[p], p) && def.key(now[p], q) !in view
    ensures !StaysUnique(def, table, rows, events, more)
  {
    var now := s.rows[|s.history|];
    more := InsertAlone(def, table, id, view, q, now[p]);
    InsertGoesThrough(def, table, rows, events, s, id, view, q, now[p]);
    SameKeyTwice(def, now, p, q);
    var end := Play(def, table, rows, events + more).value;
    assert !Distinct(def, end.rows[|end.rows| - 1]);
  }

  lemma SameKeyTwice(def: IndexDef, rows: map<Key, Row>, p: Key, q: Key)
    requires p in rows && q !in rows && def.key(rows[p], q) == def.key(rows[p], p)
    ensures !Distinct(def, rows[q := rows[p]])
  {
    var after := rows[q := rows[p]];
    assert p in after && q in after && def.key(after[p], p) == def.key(after[q], q);
  }

  /** However the run goes on, as long as later commits are quiet, no two rows come under one key. */
  ghost predicate StaysUnique(def: IndexDef, table: string, rows: map<Key, Row>, before: seq<Event>, more: seq<Event>) {
    var end := Play(def, table, rows, before + more);
    end.Some? && QuietAfter(def, table, rows, before + more, |before|) ==> AllDistinct(def, end.value.rows)
  }

  lemma QuietAllTheWay(def: IndexDef, table: string, rows: map<Key, Row>, events: seq<Event>, e: Event, more: seq<Event>)
    requires Separates(def) && Distinct(def, rows)
    requires QuietRun(def, table, rows, events) && QuietAt(def, table, rows, events + [e], |events|)
    ensures StaysUnique(def, table, rows, events + [e], more)
  {
    var all := events + [e] + more;
    assert (events + [e])[..|events|] == events == all[..|events|];
    if Play(def, table, rows, all).Some? && QuietAfter(def, table, rows, all, |events| + 1) {
      forall i | 0 <= i < |all| && all[i].Commit? ensures QuietAt(def, table, rows, all, i) {
        if i < |events| { assert all[..i] == events[..i]; }
      }
      RunsStayUnique(def, table, rows, all);
    }
  }

  /** After a run of quiet commits, a commit is safe in every continuation if and only if it is quiet itself. */
  lemma SafeIffQuiet(def: IndexDef, table: string, rows: map<Key, Row>, events: seq<Event>, id: nat, te: TableEdit)
    requires Separates(def) && SharesKeys(def) && Distinct(def, rows)
    requires Play(def, table, rows, events).Some? && QuietRun(def, table, rows, events)
    requires Allowed(def, table, Play(def, table, rows, events).value, Commit(id, te))
    ensures var s := Play(def, table, rows, events).value;
            Quiet(s, s.open[id]) <==> forall more :: StaysUnique(def, table, rows, events + [Commit(id, te)], more)
  {
    var s := Play(def, table, rows, events).value;
    if Quiet(s, s.open[id]) {
      assert (events + [Commit(id, te)])[..|events|] == events;
      forall more ensures StaysUnique(def, table, rows, events + [Commit(id, te)], more) {
        QuietAllTheWay(def, table, rows, events, Commit(id, te), more);
      }
    } else {
      var more := LoudLosesUniqueness(def, table, rows, events, id, te);
    }
  }
}
