/** A run that is not quiet ends with two rows under one unique key: a transaction that puts and removes an entry
    within itself, commits rebased, and takes another transaction's entry out of the cached view. */
module StaleCache {
  import opened Bytes
  import opened Overlays
  import opened Pending
  import opened WriteLog
  import FirstCommitter
  import opened Sorting
  import opened IndexAgreement
  import opened IndexDerivation
  import opened IndexCheckpoint
  import opened UniqueRuns

  // One column, with a unique index on it.

  predicate IsNull(r: Row) { !(|r| == 1 && r[0].Some?) }

  function ColumnKey(r: Row, p: Key): Key { if IsNull(r) then [0] + p else [1] + r[0].value }

  const INDEX := IndexDef("u", true, ColumnKey, IsNull)

  lemma IndexSeparates()
    ensures Separates(INDEX)
  {
    forall r: Row, p: Key, s: Row, q: Key | ColumnKey(r, p) == ColumnKey(s, q) && p != q ensures !IsNull(r) && !IsNull(s) {
      KeyParts(r, p);
      KeyParts(s, q);
    }
  }

  lemma KeyParts(r: Row, p: Key)
    ensures ColumnKey(r, p)[0] == (if IsNull(r) then 0 else 1)
    ensures IsNull(r) ==> ColumnKey(r, p)[1..] == p
  {
  }

  const A: Key := [1]
  const B: Key := [2]
  const C: Key := [3]
  const ROW: Row := [Some([7])]
  const K: Key := [1, 7]

  function Put(p: Key): Own { Own(map[p := Some(ROW)], [IndexEdit(K, Some(p))]) }

  const TRANSIENT := Own(map[A := None], [IndexEdit(K, Some(A)), IndexEdit(K, None)])

  function Wrote(p: Key, delete: bool, claims: seq<Claim>): TableEdit {
    TableEdit("t", [], false, [RowEdit(p, [], delete, 0)], claims)
  }

  const TE_A := Wrote(A, true, [])
  const TE_B := Wrote(B, false, [Claim("u", K)])
  const TE_C := Wrote(C, false, [Claim("u", K)])

  /** Each event is allowed in its state and leads to the next. */
  ghost predicate Leads(s: State, e: Event, next: State) {
    |s.rows| == |s.history| + 1 && Allowed(INDEX, "t", s, e) && Next(INDEX, "t", s, e) == next
  }

  lemma {:induction false} PlayThrough(rows: map<Key, Row>, events: seq<Event>, states: seq<State>)
    requires |states| == |events| + 1 && states[0] == Opening(rows)
    requires forall i :: 0 <= i < |events| ==> Leads(states[i], events[i], states[i + 1])
    ensures Play(INDEX, "t", rows, events) == Some(states[|events|])
  {
    if events != [] {
      var n := |events| - 1;
      PlayThrough(rows, events[..n], states[..n + 1]);
      assert Leads(states[n], events[n], states[n + 1]);
    }
  }

  lemma Lasts()
    ensures forall p :: Last([IndexEdit(K, Some(p))]) == map[K := Some(p)]
    ensures Last(TRANSIENT.local) == map[K := None]
    ensures forall p :: ColumnKey(ROW, p) == K
  {
    forall p ensures Last([IndexEdit(K, Some(p))]) == map[K := Some(p)] {
      assert [IndexEdit(K, Some(p))][..0] == [];
    }
    assert TRANSIENT.local[..1] == [IndexEdit(K, Some(A))];
  }

  lemma Inserted(s: State, id: nat, p: Key)
    requires |s.rows| == |s.history| + 1 && id in s.open && s.open[id].base < |s.rows|
    requires s.open[id].own == Own(map[], []) && s.open[id].view == map[] && p !in s.rows[s.open[id].base]
    ensures Allowed(INDEX, "t", s, Act(id, Insert(p, ROW)))
    ensures Next(INDEX, "t", s, Act(id, Insert(p, ROW))) == s.(open := s.open[id := Txn(s.open[id].base, map[], Put(p))])
  {
    Lasts();
    NothingDone(s.rows[s.open[id].base], map[]);
    assert [] + [IndexEdit(K, Some(p))] == [IndexEdit(K, Some(p))];
  }

  lemma Described()
    ensures Describes(INDEX, TE_A, "t", TRANSIENT)
    ensures Describes(INDEX, TE_B, "t", Put(B)) && Describes(INDEX, TE_C, "t", Put(C))
  {
    Lasts();
    assert TE_A.edits[0].key == A && TE_B.edits[0].key == B && TE_C.edits[0].key == C;
  }

  /** A transaction that commits on its own snapshot passes, and the transient one clashes with nobody. */
  lemma Passed(history: seq<TableEdit>, base: nat, te: TableEdit)
    requires base <= |history|
    requires base == |history| || (base == 0 && history == [TE_B] && te == TE_A)
    ensures !Conflict(After(0, Commits(history)), base, [te])
  {
    FirstCommitter.ConflictExact(0, Commits(history), base, [te]);
    if base < |history| {
      assert Commits(history)[0] == [TE_B];
      assert TE_B.edits[0].key != TE_A.edits[0].key;
      assert !Clash(TE_B, TE_A);
      assert !Clashing([TE_B], [TE_A]);
    }
  }

  const EMPTY: map<Key, Row> := map[]
  const NO_ENTRY: map<Key, Key> := map[]
  const WITH_B: map<Key, Row> := map[B := ROW]
  const WITH_BOTH: map<Key, Row> := map[B := ROW, C := ROW]

  function Open(own: Own, base: nat): Txn { Txn(base, NO_ENTRY, own) }

  const NOTHING := Own(map[], [])

  /** One transaction inserts and deletes a row; another inserts a row with the same key and commits; the first
      commits rebased; a third finds the key free and inserts it again. */
  const EVENTS: seq<Event> := [
    Begin(0, NO_ENTRY), Act(0, Insert(A, ROW)), Act(0, Delete(A)),
    Begin(1, NO_ENTRY), Act(1, Insert(B, ROW)), Commit(1, TE_B),
    Commit(0, TE_A),
    Begin(2, NO_ENTRY), Act(2, Insert(C, ROW)), Commit(2, TE_C)]

  function Fresh(open: map<nat, Txn>): State { State([EMPTY], [], None, open) }

  const AFTER_B := State([EMPTY, WITH_B], [TE_B], Some(Cache(1, map[K := B])), map[0 := Open(TRANSIENT, 0)])

  function AfterA(open: map<nat, Txn>): State { State([EMPTY, WITH_B, WITH_B], [TE_B, TE_A], Some(Cache(2, NO_ENTRY)), open) }

  const LAST := State([EMPTY, WITH_B, WITH_B, WITH_BOTH], [TE_B, TE_A, TE_C], Some(Cache(3, map[K := C])), map[])

  lemma Begins(s: State, id: nat)
    requires |s.rows| == |s.history| + 1
    requires s.cache.Some? && s.cache.value.generation == |s.history| ==> s.cache.value.view == NO_ENTRY
    requires s.cache.None? ==> s.rows[|s.history|] == EMPTY
    requires s.cache.Some? ==> s.cache.value.generation == |s.history|
    ensures Leads(s, Begin(id, NO_ENTRY), s.(open := s.open[id := Open(NOTHING, |s.history|)]))
  {
  }

  lemma DeletesAgain()
    ensures Leads(Fresh(map[0 := Open(Put(A), 0)]), Act(0, Delete(A)), Fresh(map[0 := Open(TRANSIENT, 0)]))
  {
    Lasts();
    var s := Fresh(map[0 := Open(Put(A), 0)]);
    assert RowsIn(EMPTY, Put(A)) == map[A := ROW];
    assert [IndexEdit(K, Some(A))] + [IndexEdit(K, None)] == TRANSIENT.local;
    assert map[A := Some(ROW)][A := None] == TRANSIENT.edits;
    assert Do(INDEX, EMPTY, NO_ENTRY, Put(A), Delete(A)) == TRANSIENT;
    assert s.open[0 := Open(TRANSIENT, 0)] == map[0 := Open(TRANSIENT, 0)];
  }

  /** A commit's parts, put together. */
  lemma Committed(s: State, id: nat, te: TableEdit, after: State)
    requires |s.rows| == |s.history| + 1 && id in s.open && Describes(INDEX, te, "t", s.open[id].own)
    requires !Conflict(After(0, Commits(s.history)), s.open[id].base, [te])
    requires after.rows == s.rows + [RowsIn(s.rows[|s.history|], s.open[id].own)] && after.history == s.history + [te]
    requires after.cache == Stored(s, s.open[id]) && after.open == s.open - {id}
    ensures Leads(s, Commit(id, te), after)
  {
  }

  lemma WithB()
    ensures RowsIn(EMPTY, Put(B)) == WITH_B && IndexIn(NO_ENTRY, Put(B)) == map[K := B]
  {
    Lasts();
  }

  lemma WithTransient()
    ensures RowsIn(WITH_B, TRANSIENT) == WITH_B && IndexIn(map[K := B], TRANSIENT) == NO_ENTRY
  {
    Lasts();
  }

  lemma WithC()
    ensures RowsIn(WITH_B, Put(C)) == WITH_BOTH
    ensures IndexIn(NO_ENTRY, Put(C)) == map[K := C]
  {
    Lasts();
  }

  lemma CommitsB()
    ensures Leads(Fresh(map[0 := Open(TRANSIENT, 0), 1 := Open(Put(B), 0)]), Commit(1, TE_B), AFTER_B)
  {
    Described();
    WithB();
    Passed([], 0, TE_B);
    var s := Fresh(map[0 := Open(TRANSIENT, 0), 1 := Open(Put(B), 0)]);
    assert s.open - {1} == map[0 := Open(TRANSIENT, 0)];
    assert s.rows + [WITH_B] == [EMPTY, WITH_B] && s.history + [TE_B] == [TE_B];
    Committed(s, 1, TE_B, AFTER_B);
  }

  /** The cache forgets the row that is there. */
  lemma CommitsA()
    ensures Leads(AFTER_B, Commit(0, TE_A), AfterA(map[]))
  {
    Described();
    WithTransient();
    Passed([TE_B], 0, TE_A);
    assert AFTER_B.open - {0} == map[];
    assert Stored(AFTER_B, Open(TRANSIENT, 0)) == Some(Cache(2, NO_ENTRY));
    assert [EMPTY, WITH_B] + [WITH_B] == [EMPTY, WITH_B, WITH_B] && [TE_B] + [TE_A] == [TE_B, TE_A];
    Committed(AFTER_B, 0, TE_A, AfterA(map[]));
  }

  lemma CommitsC()
    ensures Leads(AfterA(map[2 := Open(Put(C), 2)]), Commit(2, TE_C), LAST)
  {
    Described();
    WithC();
    Passed([TE_B, TE_A], 2, TE_C);
    var s := AfterA(map[2 := Open(Put(C), 2)]);
    assert s.open - {2} == map[];
    assert Stored(s, Open(Put(C), 2)) == Some(Cache(3, map[K := C]));
    assert s.rows + [WITH_BOTH] == [EMPTY, WITH_B, WITH_B, WITH_BOTH] && s.history + [TE_C] == [TE_B, TE_A, TE_C];
    Committed(s, 2, TE_C, LAST);
  }

  lemma Insertions()
    ensures Leads(Fresh(map[0 := Open(NOTHING, 0)]), Act(0, Insert(A, ROW)), Fresh(map[0 := Open(Put(A), 0)]))
    ensures Leads(Fresh(map[0 := Open(TRANSIENT, 0), 1 := Open(NOTHING, 0)]), Act(1, Insert(B, ROW)),
                  Fresh(map[0 := Open(TRANSIENT, 0), 1 := Open(Put(B), 0)]))
    ensures Leads(AfterA(map[2 := Open(NOTHING, 2)]), Act(2, Insert(C, ROW)), AfterA(map[2 := Open(Put(C), 2)]))
  {
    var a, b, c := Fresh(map[0 := Open(NOTHING, 0)]), Fresh(map[0 := Open(TRANSIENT, 0), 1 := Open(NOTHING, 0)]), AfterA(map[2 := Open(NOTHING, 2)]);
    Inserted(a, 0, A);
    Inserted(b, 1, B);
    Inserted(c, 2, C);
    assert a.open[0 := Open(Put(A), 0)] == map[0 := Open(Put(A), 0)];
    assert b.open[1 := Open(Put(B), 0)] == map[0 := Open(TRANSIENT, 0), 1 := Open(Put(B), 0)];
    assert c.open[2 := Open(Put(C), 2)] == map[2 := Open(Put(C), 2)];
  }

  lemma Beginnings()
    ensures Leads(Fresh(map[]), Begin(0, NO_ENTRY), Fresh(map[0 := Open(NOTHING, 0)]))
    ensures Leads(Fresh(map[0 := Open(TRANSIENT, 0)]), Begin(1, NO_ENTRY), Fresh(map[0 := Open(TRANSIENT, 0), 1 := Open(NOTHING, 0)]))
    ensures Leads(AfterA(map[]), Begin(2, NO_ENTRY), AfterA(map[2 := Open(NOTHING, 2)]))
  {
    Begins(Fresh(map[]), 0);
    Begins(Fresh(map[0 := Open(TRANSIENT, 0)]), 1);
    Begins(AfterA(map[]), 2);
    var none: map<nat, Txn> := map[];
    assert none[0 := Open(NOTHING, 0)] == map[0 := Open(NOTHING, 0)];
    assert map[0 := Open(TRANSIENT, 0)][1 := Open(NOTHING, 0)] == map[0 := Open(TRANSIENT, 0), 1 := Open(NOTHING, 0)];
    assert none[2 := Open(NOTHING, 2)] == map[2 := Open(NOTHING, 2)];
  }

  const STATES: seq<State> := [
    Fresh(map[]), Fresh(map[0 := Open(NOTHING, 0)]), Fresh(map[0 := Open(Put(A), 0)]), Fresh(map[0 := Open(TRANSIENT, 0)]),
    Fresh(map[0 := Open(TRANSIENT, 0), 1 := Open(NOTHING, 0)]), Fresh(map[0 := Open(TRANSIENT, 0), 1 := Open(Put(B), 0)]),
    AFTER_B, AfterA(map[]), AfterA(map[2 := Open(NOTHING, 2)]), AfterA(map[2 := Open(Put(C), 2)]), LAST]

  lemma StepAt(i: nat)
    requires i < |EVENTS|
    ensures Leads(STATES[i], EVENTS[i], STATES[i + 1])
  {
    if i == 0 || i == 3 || i == 7 { Beginnings(); }
    else if i == 1 || i == 4 || i == 8 { Insertions(); }
    else if i == 2 { DeletesAgain(); }
    else if i == 5 { CommitsB(); }
    else if i == 6 { CommitsA(); }
    else { CommitsC(); }
  }

  /** Every event is allowed, the rows start out unique, and two rows end up under one unique key. */
  lemma UniquenessLost()
    ensures Separates(INDEX) && Distinct(INDEX, EMPTY)
    ensures Play(INDEX, "t", EMPTY, EVENTS) == Some(LAST)
    ensures !Distinct(INDEX, LAST.rows[|LAST.rows| - 1])
  {
    IndexSeparates();
    forall i | 0 <= i < |EVENTS| ensures Leads(STATES[i], EVENTS[i], STATES[i + 1]) { StepAt(i); }
    PlayThrough(EMPTY, EVENTS, STATES);
    TwoRows();
  }

  lemma TwoRows()
    ensures LAST.rows[|LAST.rows| - 1] == WITH_BOTH && !Distinct(INDEX, WITH_BOTH)
  {
    assert B in WITH_BOTH && C in WITH_BOTH && B != C;
    assert INDEX.key(WITH_BOTH[B], B) == INDEX.key(WITH_BOTH[C], C);
  }

  /** The same two rows at a checkpoint: if the first came with the base, its unedited entry is taken over unnoticed; if
      both are edits, they are refused. */
  lemma CheckpointMissesIt()
    ensures SomeTakesOver(INDEX, map[B := ROW], [RowChange(C, Some(ROW))]) && !SomeTaken(INDEX, map[B := ROW], [RowChange(C, Some(ROW))])
    ensures SomeTaken(INDEX, map[], [RowChange(B, Some(ROW)), RowChange(C, Some(ROW))])
  {
    var one := [RowChange(C, Some(ROW))];
    assert one[..0] == [];
    assert LastOf(ChangeKey, one[..0]) == map[];
    assert ChangesMap(one) == map[C := Some(ROW)];
    assert TakesOver(INDEX, map[B := ROW], one, 0, B);
    var both := [RowChange(B, Some(ROW)), RowChange(C, Some(ROW))];
    assert ColumnKey(ROW, B) == K && ColumnKey(ROW, C) == K;
    assert Takes(INDEX, map[], both[0], K) && Takes(INDEX, map[], both[1], K);
    assert TakenTwice(INDEX, map[], both, K);
  }
}
