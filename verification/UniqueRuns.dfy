/** Unique indexes over every interleaving of transactions. A transaction checks uniqueness against its own
    snapshot only; it may commit on later generations; and the index edits of a generation are cached
    (`storeIndexEdits`, `rebaseIndexViews`, `rememberIndexEdits` of `engine/catalog.go`). One table, one index. */
module UniqueRuns {
  import opened Bytes
  import opened Overlays
  import opened Pending
  import opened WriteLog
  import FirstCommitter
  import opened IndexAgreement

  // A transaction's own part.

  /** Row edits, and the edits of the index in order. */
  datatype Own = Own(edits: map<Key, Option<Row>>, local: seq<IndexEdit>)

  datatype Op =
    | Insert(p: Key, row: Row)
    | Delete(p: Key)
    | Update(oldKey: Key, row: Row, newKey: Key)

  function RowsIn(rows: map<Key, Row>, own: Own): map<Key, Row> { Overlaid(rows, own.edits) }

  function IndexIn(view: map<Key, Key>, own: Own): map<Key, Key> { Overlaid(view, Last(own.local)) }

  /** The operations of `editor` that succeed. */
  predicate Possible(def: IndexDef, rows: map<Key, Row>, view: map<Key, Key>, own: Own, op: Op) {
    var r, v := RowsIn(rows, own), IndexIn(view, own);
    match op
    case Insert(p, row) => p !in r && Free(def, v, row, def.key(row, p))
    case Delete(p) => p in r
    case Update(o, row, n) =>
      o in r && (n == o || n !in r) && (def.key(r[o], o) != def.key(row, n) ==> Free(def, v, row, def.key(row, n)))
  }

  function MovedEdits(edits: map<Key, Option<Row>>, o: Key, n: Key, row: Row): (r: map<Key, Option<Row>>)
    ensures edits.Keys <= r.Keys && n in r
  {
    (if n == o then edits else edits[o := None])[n := Some(row)]
  }

  function Do(def: IndexDef, rows: map<Key, Row>, view: map<Key, Key>, own: Own, op: Op): Own
    requires Possible(def, rows, view, own, op)
  {
    var r := RowsIn(rows, own);
    match op
    case Insert(p, row) => Own(own.edits[p := Some(row)], own.local + [IndexEdit(def.key(row, p), Some(p))])
    case Delete(p) => Own(own.edits[p := None], own.local + [IndexEdit(def.key(r[p], p), None)])
    case Update(o, row, n) =>
      Own(MovedEdits(own.edits, o, n, row), own.local + UpdateEdits(def, r[o], o, row, n))
  }

  /** What every transaction keeps, seen from its snapshot. */
  ghost predicate Sound(def: IndexDef, rows: map<Key, Row>, view: map<Key, Key>, own: Own) {
    Agree(def, RowsIn(rows, own), IndexIn(view, own)) && Written(own) && Grounded(def, view, own.local)
  }

  /** Keys that are put are keys of rows, and what is removed was in the view or put before. */
  ghost predicate Grounded(def: IndexDef, view: map<Key, Key>, local: seq<IndexEdit>) {
    forall i :: 0 <= i < |local| ==>
      if local[i].pk.Some? then IsKey(def, local[i].pk.value, local[i].key) else local[i].key in view || PutAmong(local, local[i].key)
  }

  ghost predicate IsKey(def: IndexDef, p: Key, k: Key) { exists row: Row :: def.key(row, p) == k }

  ghost predicate PutAmong(local: seq<IndexEdit>, k: Key) { exists i :: 0 <= i < |local| && local[i].key == k && local[i].pk.Some? }

  lemma GroundedGrows(def: IndexDef, view: map<Key, Key>, own: Own, more: seq<IndexEdit>)
    requires Grounded(def, view, own.local)
    requires forall i :: 0 <= i < |more| ==>
               if more[i].pk.Some? then IsKey(def, more[i].pk.value, more[i].key) else more[i].key in IndexIn(view, own)
    ensures Grounded(def, view, own.local + more)
  {
    var all := own.local + more;
    forall i | 0 <= i < |all| && all[i].pk.None? ensures all[i].key in view || PutAmong(all, all[i].key) {
      if i >= |own.local| { LastIsAnEdit(own.local, all[i].key); }
      if PutAmong(own.local, all[i].key) {
        var j :| 0 <= j < |own.local| && own.local[j].key == all[i].key && own.local[j].pk.Some?;
        assert all[j] == own.local[j];
      }
    }
  }

  /** Entries are put for rows the transaction writes. */
  ghost predicate Written(own: Own) {
    forall i :: 0 <= i < |own.local| && own.local[i].pk.Some? ==> own.local[i].pk.value in own.edits
  }

  lemma WrittenGrows(own: Own, edits: map<Key, Option<Row>>, more: seq<IndexEdit>)
    requires Written(own) && own.edits.Keys <= edits.Keys
    requires forall i :: 0 <= i < |more| && more[i].pk.Some? ==> more[i].pk.value in edits
    ensures Written(Own(edits, own.local + more))
  {
  }

  lemma LocalEdit(view: map<Key, Key>, local: seq<IndexEdit>, e: IndexEdit)
    ensures Overlaid(view, Last(local + [e])) == Edited(Overlaid(view, Last(local)), e)
  {
    assert (local + [e])[..|local|] == local;
    OverlaidOne(view, Last(local), e);
  }

  lemma {:induction false} LocalEdits(view: map<Key, Key>, local: seq<IndexEdit>, more: seq<IndexEdit>)
    ensures Overlaid(view, Last(local + more)) == EditedAll(Overlaid(view, Last(local)), more)
  {
    if more == [] {
      assert local + more == local;
    } else {
      var n := |more| - 1;
      LocalEdits(view, local, more[..n]);
      LocalEdit(view, local + more[..n], more[n]);
      assert local + more == (local + more[..n]) + [more[n]];
    }
  }

  lemma EditedRow(rows: map<Key, Row>, edits: map<Key, Option<Row>>, p: Key, row: Option<Row>)
    ensures Overlaid(rows, edits[p := row]) == if row.Some? then Overlaid(rows, edits)[p := row.value] else Overlaid(rows, edits) - {p}
  {
  }

  lemma MovedRow(rows: map<Key, Row>, edits: map<Key, Option<Row>>, o: Key, n: Key, row: Row)
    ensures Overlaid(rows, MovedEdits(edits, o, n, row)) == (Overlaid(rows, edits) - {o})[n := row]
  {
  }

  /** Sound again, given what the rows and the index have become. */
  lemma SoundAgain(def: IndexDef, rows: map<Key, Row>, view: map<Key, Key>, own: Own, edits: map<Key, Option<Row>>, more: seq<IndexEdit>)
    requires Written(own) && own.edits.Keys <= edits.Keys
    requires forall i :: 0 <= i < |more| && more[i].pk.Some? ==> more[i].pk.value in edits
    requires Agree(def, Overlaid(rows, edits), EditedAll(IndexIn(view, own), more))
    requires Grounded(def, view, own.local)
    requires forall i :: 0 <= i < |more| ==>
               if more[i].pk.Some? then IsKey(def, more[i].pk.value, more[i].key) else more[i].key in IndexIn(view, own)
    ensures Sound(def, rows, view, Own(edits, own.local + more))
  {
    GroundedGrows(def, view, own, more);
    LocalEdits(view, own.local, more);
    WrittenGrows(own, edits, more);
  }

  lemma InsertIsSound(def: IndexDef, rows: map<Key, Row>, view: map<Key, Key>, own: Own, p: Key, row: Row)
    requires Separates(def) && Sound(def, rows, view, own) && Possible(def, rows, view, own, Insert(p, row))
    ensures Sound(def, rows, view, Do(def, rows, view, own, Insert(p, row)))
  {
    EditedByFew(IndexIn(view, own));
    EditedRow(rows, own.edits, p, Some(row));
    InsertAgrees(def, RowsIn(rows, own), IndexIn(view, own), row, p);
    assert IsKey(def, p, def.key(row, p));
    SoundAgain(def, rows, view, own, own.edits[p := Some(row)], [IndexEdit(def.key(row, p), Some(p))]);
  }

  lemma DeleteIsSound(def: IndexDef, rows: map<Key, Row>, view: map<Key, Key>, own: Own, p: Key)
    requires Sound(def, rows, view, own) && Possible(def, rows, view, own, Delete(p))
    ensures Sound(def, rows, view, Do(def, rows, view, own, Delete(p)))
  {
    EditedByFew(IndexIn(view, own));
    EditedRow(rows, own.edits, p, None);
    DeleteAgrees(def, RowsIn(rows, own), IndexIn(view, own), p);
    SoundAgain(def, rows, view, own, own.edits[p := None], [IndexEdit(def.key(RowsIn(rows, own)[p], p), None)]);
  }

  lemma UpdateIsSound(def: IndexDef, rows: map<Key, Row>, view: map<Key, Key>, own: Own, o: Key, row: Row, n: Key)
    requires Separates(def) && Sound(def, rows, view, own)
    requires o in RowsIn(rows, own) && (n == o || n !in RowsIn(rows, own))
    requires def.key(RowsIn(rows, own)[o], o) != def.key(row, n) ==> Free(def, IndexIn(view, own), row, def.key(row, n))
    ensures Sound(def, rows, view, Own(MovedEdits(own.edits, o, n, row), own.local + UpdateEdits(def, RowsIn(rows, own)[o], o, row, n)))
  {
    var r := RowsIn(rows, own);
    MovedRow(rows, own.edits, o, n, row);
    UpdateAgrees(def, r, IndexIn(view, own), o, row, n);
    PutsOnly(def, r[o], o, row, n, MovedEdits(own.edits, o, n, row));
    UpdateIsGrounded(def, r[o], o, row, n);
    SoundAgain(def, rows, view, own, MovedEdits(own.edits, o, n, row), UpdateEdits(def, r[o], o, row, n));
  }

  lemma PutsOnly(def: IndexDef, oldRow: Row, o: Key, row: Row, n: Key, edits: map<Key, Option<Row>>)
    requires n in edits
    ensures forall i :: 0 <= i < |UpdateEdits(def, oldRow, o, row, n)| && UpdateEdits(def, oldRow, o, row, n)[i].pk.Some? ==>
              UpdateEdits(def, oldRow, o, row, n)[i].pk.value in edits
  {
  }

  lemma UpdateIsGrounded(def: IndexDef, oldRow: Row, o: Key, row: Row, n: Key)
    ensures forall i :: 0 <= i < |UpdateEdits(def, oldRow, o, row, n)| ==>
              var e := UpdateEdits(def, oldRow, o, row, n)[i];
              if e.pk.Some? then IsKey(def, e.pk.value, e.key) else e.key == def.key(oldRow, o)
  {
    assert IsKey(def, n, def.key(row, n));
  }

  lemma DoIsSound(def: IndexDef, rows: map<Key, Row>, view: map<Key, Key>, own: Own, op: Op)
    requires Separates(def) && Sound(def, rows, view, own) && Possible(def, rows, view, own, op)
    ensures Sound(def, rows, view, Do(def, rows, view, own, op))
  {
    match op
    case Insert(p, row) => InsertIsSound(def, rows, view, own, p, row);
    case Delete(p) => DeleteIsSound(def, rows, view, own, p);
    case Update(o, row, n) => UpdateIsSound(def, rows, view, own, o, row, n);
  }

  // Runs.

  datatype Txn = Txn(base: nat, view: map<Key, Key>, own: Own)

  datatype Cache = Cache(generation: nat, view: map<Key, Key>)

  /** The committed rows of every generation, what each commit wrote, the cache, and the open transactions. */
  datatype State = State(rows: seq<map<Key, Row>>, history: seq<TableEdit>, cache: Option<Cache>, open: map<nat, Txn>)

  datatype Event =
    | Begin(id: nat, view: map<Key, Key>)
    | Act(id: nat, op: Op)
    | Commit(id: nat, te: TableEdit)
      // A clean transaction leaves the index edits it derived in the cache.
    | Remember(id: nat)

  function Commits(history: seq<TableEdit>): seq<seq<TableEdit>> {
    seq(|history|, i requires 0 <= i < |history| => [history[i]])
  }

  /** What a transaction sends to the journal: its rows, and a claim for every key it put last. */
  ghost predicate Describes(def: IndexDef, te: TableEdit, table: string, own: Own) {
    && te.table == table && !te.ChangesSchema()
    && (forall p {:trigger p in own.edits} :: p in own.edits <==> exists i :: 0 <= i < |te.edits| && te.edits[i].key == p)
    && (forall k {:trigger Claim(def.name, k)} ::
          Claim(def.name, k) in te.claims <==> def.unique && k in Last(own.local) && Last(own.local)[k].Some?)
  }

  ghost predicate Allowed(def: IndexDef, table: string, s: State, e: Event)
    requires |s.rows| == |s.history| + 1
  {
    match e
    case Begin(id, view) =>
      if s.cache.Some? && s.cache.value.generation == |s.history| then view == s.cache.value.view
      else Agree(def, s.rows[|s.history|], view)
    case Act(id, op) => id in s.open && s.open[id].base < |s.rows| && Possible(def, s.rows[s.open[id].base], s.open[id].view, s.open[id].own, op)
    case Commit(id, te) =>
      && id in s.open && Describes(def, te, table, s.open[id].own)
      && !Conflict(After(0, Commits(s.history)), s.open[id].base, [te])
    case Remember(id) => id in s.open && s.open[id].own == Own(map[], [])
  }

  /** `storeIndexEdits`: the transaction's own view if it commits on its snapshot, else its edits on the view
      cached for the generation before, if there is one. */
  function Stored(s: State, t: Txn): Option<Cache> {
    var n := |s.history|;
    if t.base == n then Some(Cache(n + 1, IndexIn(t.view, t.own)))
    else if s.cache.Some? && s.cache.value.generation == n then Some(Cache(n + 1, IndexIn(s.cache.value.view, t.own)))
    else s.cache
  }

  ghost function Next(def: IndexDef, table: string, s: State, e: Event): State
    requires |s.rows| == |s.history| + 1 && Allowed(def, table, s, e)
  {
    match e
    case Begin(id, view) => s.(open := s.open[id := Txn(|s.history|, view, Own(map[], []))])
    case Act(id, op) =>
      var t := s.open[id];
      s.(open := s.open[id := t.(own := Do(def, s.rows[t.base], t.view, t.own, op))])
    case Commit(id, te) =>
      var t := s.open[id];
      State(s.rows + [RowsIn(s.rows[|s.history|], t.own)], s.history + [te], Stored(s, t), s.open - {id})
    case Remember(id) =>
      var t := s.open[id];
      if s.cache.Some? && s.cache.value.generation == t.base then s else s.(cache := Some(Cache(t.base, t.view)))
  }

  /** The one way a rebased view goes wrong: an entry removed that the snapshot never had, but another row has now. */
  ghost predicate Misses(t: Txn, cached: map<Key, Key>, k: Key) {
    k in Last(t.own.local) && Last(t.own.local)[k].None? && k !in t.view && k in cached
  }

  ghost predicate NoneMissed(t: Txn, cached: map<Key, Key>) { forall k :: !Misses(t, cached, k) }

  /** The condition under which a commit keeps the cache right. It asks something only of a commit that is
      rebased on a cached generation. */
  ghost predicate Quiet(s: State, t: Txn) {
    t.base != |s.history| && s.cache.Some? && s.cache.value.generation == |s.history| ==> NoneMissed(t, s.cache.value.view)
  }

  // What holds of every run.

  /** A commit writes a row under a key it claims, or that the row had before. */
  ghost predicate Step(def: IndexDef, before: map<Key, Row>, te: TableEdit, after: map<Key, Row>) {
    && (forall p {:trigger p in after} {:trigger p in before} :: !WritesRow(te, p) ==> (p in after <==> p in before) && (p in after ==> after[p] == before[p]))
    && (forall p {:trigger after[p]} :: p in after && WritesRow(te, p) && def.unique ==>
          Claim(def.name, def.key(after[p], p)) in te.claims || (p in before && def.key(before[p], p) == def.key(after[p], p)))
  }

  ghost predicate WritesRow(te: TableEdit, p: Key) { exists i :: 0 <= i < |te.edits| && te.edits[i].key == p }

  ghost predicate Chain(def: IndexDef, s: State) {
    && |s.rows| == |s.history| + 1
    && forall i {:trigger s.history[i]} :: 0 <= i < |s.history| ==> Step(def, s.rows[i], s.history[i], s.rows[i + 1])
  }

  ghost predicate TxnOk(def: IndexDef, s: State, t: Txn) {
    t.base < |s.rows| && Agree(def, s.rows[t.base], t.view) && Sound(def, s.rows[t.base], t.view, t.own)
  }

  ghost predicate Known(table: string, history: seq<TableEdit>) {
    forall i :: 0 <= i < |history| ==> history[i].table == table && !history[i].ChangesSchema()
  }

  ghost predicate AllDistinct(def: IndexDef, rows: seq<map<Key, Row>>) {
    forall i :: 0 <= i < |rows| ==> Distinct(def, rows[i])
  }

  ghost predicate CacheOk(def: IndexDef, rows: seq<map<Key, Row>>, cache: Option<Cache>) {
    cache.Some? ==> cache.value.generation < |rows| && Agree(def, rows[cache.value.generation], cache.value.view)
  }

  ghost predicate OpenOk(def: IndexDef, s: State) {
    forall id {:trigger s.open[id]} :: id in s.open ==> TxnOk(def, s, s.open[id])
  }

  ghost predicate Good(def: IndexDef, table: string, s: State) {
    Chain(def, s) && Known(table, s.history) && AllDistinct(def, s.rows) && CacheOk(def, s.rows, s.cache) && OpenOk(def, s)
  }

  // A commit on later generations.

  /** What the conflict check rules out between the snapshot and the commit. */
  ghost predicate Apart(s: State, base: nat, te: TableEdit)
  {
    && base <= |s.history|
    && forall i {:trigger s.history[i]} :: base <= i < |s.history| ==>
         && (forall p :: !(WritesRow(s.history[i], p) && WritesRow(te, p)))
         && (forall c :: !(c in s.history[i].claims && c in te.claims))
  }

  lemma PassedIsApart(def: IndexDef, table: string, s: State, base: nat, te: TableEdit)
    requires Good(def, table, s) && te.table == table
    requires !Conflict(After(0, Commits(s.history)), base, [te])
    ensures Apart(s, base, te)
  {
    FirstCommitter.ConflictExact(0, Commits(s.history), base, [te]);
    forall i | base <= i < |s.history|
      ensures (forall p :: !(WritesRow(s.history[i], p) && WritesRow(te, p))) && (forall c :: !(c in s.history[i].claims && c in te.claims))
    {
      assert Commits(s.history)[i] == [s.history[i]];
      assert !Clashing(Commits(s.history)[i], [te]);
      assert !Clash(Commits(s.history)[i][0], [te][0]);
    }
  }

  /** A row the transaction writes is as it was at the snapshot. */
  lemma {:induction false} OwnRowsUnchanged(def: IndexDef, s: State, base: nat, n: nat, te: TableEdit, p: Key)
    requires Chain(def, s) && Apart(s, base, te) && WritesRow(te, p) && base <= n <= |s.history|
    ensures p in s.rows[n] <==> p in s.rows[base]
    ensures p in s.rows[n] ==> s.rows[n][p] == s.rows[base][p]
  {
    if base < n {
      OwnRowsUnchanged(def, s, base, n - 1, te, p);
      assert Step(def, s.rows[n - 1], s.history[n - 1], s.rows[n]);
    }
  }

  /** A row has its key since the snapshot, or some commit in between claimed the key. */
  ghost predicate ClaimedBetween(def: IndexDef, s: State, base: nat, n: nat, k: Key)
    requires n <= |s.history|
  {
    exists i :: base <= i < n && Claim(def.name, k) in s.history[i].claims
  }

  lemma {:induction false} KeysAreClaimed(def: IndexDef, s: State, base: nat, n: nat, p: Key)
    requires Chain(def, s) && def.unique && base <= n <= |s.history| && p in s.rows[n]
    ensures var k := def.key(s.rows[n][p], p);
            (p in s.rows[base] && def.key(s.rows[base][p], p) == k) || ClaimedBetween(def, s, base, n, k)
  {
    if base < n {
      var k := def.key(s.rows[n][p], p);
      assert Step(def, s.rows[n - 1], s.history[n - 1], s.rows[n]);
      if p in s.rows[n - 1] && def.key(s.rows[n - 1][p], p) == k {
        KeysAreClaimed(def, s, base, n - 1, p);
      }
    }
  }

  /** Two rows of the rows after the commit share no key, though the transaction saw only its snapshot: what row
      conflicts miss, claims cover. */
  lemma CommitStaysDistinct(def: IndexDef, table: string, s: State, t: Txn, te: TableEdit)
    requires Separates(def) && Good(def, table, s) && TxnOk(def, s, t)
    requires Describes(def, te, table, t.own) && Apart(s, t.base, te)
    ensures Distinct(def, RowsIn(s.rows[|s.history|], t.own))
  {
    var after, mine := RowsIn(s.rows[|s.history|], t.own), RowsIn(s.rows[t.base], t.own);
    AgreeingIsDistinct(def, mine, IndexIn(t.view, t.own));
    forall p, q | p in after && q in after && p != q ensures def.key(after[p], p) != def.key(after[q], q) {
      if p in t.own.edits {
        if q in t.own.edits { assert mine[p] == after[p] && mine[q] == after[q]; } else { OwnAndOther(def, table, s, t, te, p, q); }
      } else if q in t.own.edits {
        OwnAndOther(def, table, s, t, te, q, p);
      }
    }
  }

  /** A row the transaction wrote and one it did not write have different keys. */
  lemma OwnAndOther(def: IndexDef, table: string, s: State, t: Txn, te: TableEdit, p: Key, q: Key)
    requires Separates(def) && Good(def, table, s) && TxnOk(def, s, t)
    requires Describes(def, te, table, t.own) && Apart(s, t.base, te)
    requires p in t.own.edits && t.own.edits[p].Some? && q !in t.own.edits && q in s.rows[|s.history|]
    ensures def.key(t.own.edits[p].value, p) != def.key(s.rows[|s.history|][q], q)
  {
    var base, now := s.rows[t.base], s.rows[|s.history|];
    var row := t.own.edits[p].value;
    var k := def.key(row, p);
    var mine, index := RowsIn(base, t.own), IndexIn(t.view, t.own);
    AgreeingIsDistinct(def, mine, index);
    assert p in mine && mine[p] == row && index[k] == p;
    if k !in Last(t.own.local) {
      assert def.key(base[p], p) == k;
      assert WritesRow(te, p);
      OwnRowsUnchanged(def, s, t.base, |s.history|, te, p);
    } else if def.unique {
      assert Claim(def.name, k) in te.claims;
      NotClaimed(def, s, t.base, te, k);
      KeysAreClaimed(def, s, t.base, |s.history|, q);
      if q in base && def.key(base[q], q) == def.key(now[q], q) { assert mine[q] == base[q]; }
    }
  }

  lemma NotClaimed(def: IndexDef, s: State, base: nat, te: TableEdit, k: Key)
    requires Apart(s, base, te) && Claim(def.name, k) in te.claims
    ensures !ClaimedBetween(def, s, base, |s.history|, k)
  {
    forall i | base <= i < |s.history| ensures Claim(def.name, k) !in s.history[i].claims {
      assert !(Claim(def.name, k) in s.history[i].claims && Claim(def.name, k) in te.claims);
    }
  }

  // The cache.

  /** A row of the current rows, as the transaction saw it if it is one it writes. */
  lemma CurrentRow(def: IndexDef, table: string, s: State, t: Txn, te: TableEdit, p: Key)
    requires Good(def, table, s) && Describes(def, te, table, t.own) && Apart(s, t.base, te) && p in t.own.edits
    ensures p in s.rows[|s.history|] <==> p in s.rows[t.base]
    ensures p in s.rows[|s.history|] ==> s.rows[|s.history|][p] == s.rows[t.base][p]
  {
    assert WritesRow(te, p);
    OwnRowsUnchanged(def, s, t.base, |s.history|, te, p);
  }

  /** A row's entry in the view with the transaction's edits on it. */
  lemma RebasedRow(def: IndexDef, table: string, s: State, t: Txn, te: TableEdit, cached: map<Key, Key>, p: Key)
    requires Separates(def) && Good(def, table, s) && TxnOk(def, s, t) && Describes(def, te, table, t.own) && Apart(s, t.base, te)
    requires Agree(def, s.rows[|s.history|], cached)
    requires p in RowsIn(s.rows[|s.history|], t.own)
    ensures var after, index := RowsIn(s.rows[|s.history|], t.own), IndexIn(cached, t.own);
            var k := def.key(after[p], p);
            if Misses(t, cached, k) then k !in index else k in index && index[k] == p
  {
    var base, now := s.rows[t.base], s.rows[|s.history|];
    var after, mine := RowsIn(now, t.own), RowsIn(base, t.own);
    var k := def.key(after[p], p);
    var index := IndexIn(t.view, t.own);
    if p in t.own.edits {
      CurrentRow(def, table, s, t, te, p);
      assert mine[p] == after[p] && index[k] == p;
      if k !in Last(t.own.local) { assert def.key(base[p], p) == k && cached[k] == p; }
    } else {
      assert cached[k] == p;
      if k in Last(t.own.local) {
        if Last(t.own.local)[k].Some? {
          PutElsewhere(def, table, s, t, te, p);
          assert false;
        } else if k in t.view {
          RemovedOwner(def, base, t, k);
          CurrentRow(def, table, s, t, te, t.view[k]);
        }
      }
    }
  }

  /** The row of an entry put last is one the transaction writes. */
  lemma PutOwner(def: IndexDef, base: map<Key, Row>, t: Txn, k: Key)
    requires Sound(def, base, t.view, t.own) && k in Last(t.own.local) && Last(t.own.local)[k].Some?
    ensures var p, mine := Last(t.own.local)[k].value, RowsIn(base, t.own);
            p in t.own.edits && p in mine && def.key(mine[p], p) == k
  {
    LastIsAnEdit(t.own.local, k);
    assert IndexIn(t.view, t.own)[k] == Last(t.own.local)[k].value;
  }

  /** No other row's key is put. */
  lemma PutElsewhere(def: IndexDef, table: string, s: State, t: Txn, te: TableEdit, p: Key)
    requires Separates(def) && Good(def, table, s) && TxnOk(def, s, t) && Describes(def, te, table, t.own) && Apart(s, t.base, te)
    requires p in RowsIn(s.rows[|s.history|], t.own) && p !in t.own.edits
    ensures var k := def.key(RowsIn(s.rows[|s.history|], t.own)[p], p);
            !(k in Last(t.own.local) && Last(t.own.local)[k].Some?)
  {
    var after := RowsIn(s.rows[|s.history|], t.own);
    var k := def.key(after[p], p);
    CommitStaysDistinct(def, table, s, t, te);
    if k in Last(t.own.local) && Last(t.own.local)[k].Some? {
      PutOwnerAfter(def, s, t, k);
    }
  }

  lemma PutOwnerAfter(def: IndexDef, s: State, t: Txn, k: Key)
    requires |s.rows| == |s.history| + 1 && t.base < |s.rows| && Sound(def, s.rows[t.base], t.view, t.own)
    requires k in Last(t.own.local) && Last(t.own.local)[k].Some?
    ensures var p, after := Last(t.own.local)[k].value, RowsIn(s.rows[|s.history|], t.own);
            p in t.own.edits && p in after && def.key(after[p], p) == k
  {
    PutOwner(def, s.rows[t.base], t, k);
  }

  /** The row of a snapshot entry removed last is one the transaction writes. */
  lemma RemovedOwner(def: IndexDef, base: map<Key, Row>, t: Txn, k: Key)
    requires Agree(def, base, t.view) && Sound(def, base, t.view, t.own)
    requires k in Last(t.own.local) && Last(t.own.local)[k].None? && k in t.view
    ensures t.view[k] in t.own.edits
  {
    var q, mine := t.view[k], RowsIn(base, t.own);
    assert k !in IndexIn(t.view, t.own) && def.key(base[q], q) == k;
    assert !(q in mine && mine[q] == base[q]);
  }

  lemma RebasedEntry(def: IndexDef, table: string, s: State, t: Txn, te: TableEdit, cached: map<Key, Key>, k: Key)
    requires Good(def, table, s) && TxnOk(def, s, t) && Describes(def, te, table, t.own) && Apart(s, t.base, te)
    requires Agree(def, s.rows[|s.history|], cached) && k in IndexIn(cached, t.own)
    ensures var after, p := RowsIn(s.rows[|s.history|], t.own), IndexIn(cached, t.own)[k];
            p in after && def.key(after[p], p) == k
  {
    var base, now := s.rows[t.base], s.rows[|s.history|];
    var after, mine := RowsIn(now, t.own), RowsIn(base, t.own);
    var p := IndexIn(cached, t.own)[k];
    if k in Last(t.own.local) {
      PutOwner(def, base, t, k);
      assert after[p] == mine[p];
    } else {
      assert def.key(now[p], p) == k;
      if p in t.own.edits {
        CurrentRow(def, table, s, t, te, p);
        assert t.view[k] == p && IndexIn(t.view, t.own)[k] == p;
      }
    }
  }

  lemma UnmissedAgrees(def: IndexDef, table: string, s: State, t: Txn, te: TableEdit, cached: map<Key, Key>)
    requires Separates(def) && Good(def, table, s) && TxnOk(def, s, t) && Describes(def, te, table, t.own) && Apart(s, t.base, te)
    requires Agree(def, s.rows[|s.history|], cached) && NoneMissed(t, cached)
    ensures Agree(def, RowsIn(s.rows[|s.history|], t.own), IndexIn(cached, t.own))
  {
    var after, index := RowsIn(s.rows[|s.history|], t.own), IndexIn(cached, t.own);
    forall p | p in after ensures def.key(after[p], p) in index && index[def.key(after[p], p)] == p {
      RebasedRow(def, table, s, t, te, cached, p);
      assert !Misses(t, cached, def.key(after[p], p));
    }
    forall k | k in index ensures index[k] in after && def.key(after[index[k]], index[k]) == k {
      RebasedEntry(def, table, s, t, te, cached, k);
    }
  }

  /** The cached view of a rebased commit is right if and only if no entry is missed. */
  lemma RebasedViewAgrees(def: IndexDef, table: string, s: State, t: Txn, te: TableEdit, cached: map<Key, Key>)
    requires Separates(def) && Good(def, table, s) && TxnOk(def, s, t) && Describes(def, te, table, t.own) && Apart(s, t.base, te)
    requires Agree(def, s.rows[|s.history|], cached)
    ensures Agree(def, RowsIn(s.rows[|s.history|], t.own), IndexIn(cached, t.own)) <==> NoneMissed(t, cached)
  {
    if NoneMissed(t, cached) {
      UnmissedAgrees(def, table, s, t, te, cached);
    } else {
      var k :| Misses(t, cached, k);
      MissedRow(def, table, s, t, te, cached, k);
    }
  }

  lemma MissedRow(def: IndexDef, table: string, s: State, t: Txn, te: TableEdit, cached: map<Key, Key>, k: Key)
    requires Good(def, table, s) && TxnOk(def, s, t) && Describes(def, te, table, t.own) && Apart(s, t.base, te)
    requires Agree(def, s.rows[|s.history|], cached) && Misses(t, cached, k)
    ensures var after := RowsIn(s.rows[|s.history|], t.own);
            cached[k] in after && def.key(after[cached[k]], cached[k]) == k && k !in IndexIn(cached, t.own)
  {
    var p := cached[k];
    var now := s.rows[|s.history|];
    var base := s.rows[t.base];
    assert def.key(now[p], p) == k;
    assert !(p in base && base[p] == now[p]);
    if p in t.own.edits { CurrentRow(def, table, s, t, te, p); }
  }

  // Every run.

  lemma CommitSteps(def: IndexDef, table: string, s: State, t: Txn, te: TableEdit)
    requires Good(def, table, s) && TxnOk(def, s, t) && Describes(def, te, table, t.own) && Apart(s, t.base, te)
    ensures Step(def, s.rows[|s.history|], te, RowsIn(s.rows[|s.history|], t.own))
  {
    var now, after, mine := s.rows[|s.history|], RowsIn(s.rows[|s.history|], t.own), RowsIn(s.rows[t.base], t.own);
    forall p | p in after && WritesRow(te, p) && def.unique
      ensures Claim(def.name, def.key(after[p], p)) in te.claims || (p in now && def.key(now[p], p) == def.key(after[p], p))
    {
      assert p in t.own.edits;
      var k := def.key(after[p], p);
      assert mine[p] == after[p] && IndexIn(t.view, t.own)[k] == p;
      CurrentRow(def, table, s, t, te, p);
      if k !in Last(t.own.local) { assert t.view[k] == p; }
    }
    forall p | !WritesRow(te, p) ensures (p in after <==> p in now) && (p in after ==> after[p] == now[p]) {
      assert p !in t.own.edits;
    }
  }

  /** The view cached by a commit is right if and only if the commit is quiet. */
  lemma CachedViewRight(def: IndexDef, table: string, s: State, t: Txn, te: TableEdit)
    requires Separates(def) && Good(def, table, s) && TxnOk(def, s, t) && Describes(def, te, table, t.own) && Apart(s, t.base, te)
    ensures var c, n := Stored(s, t), |s.history|;
            c.Some? && c.value.generation == n + 1 ==>
              (Agree(def, RowsIn(s.rows[n], t.own), c.value.view) <==> Quiet(s, t))
  {
    if t.base != |s.history| && s.cache.Some? && s.cache.value.generation == |s.history| {
      RebasedViewAgrees(def, table, s, t, te, s.cache.value.view);
    }
  }

  lemma ChainGrows(def: IndexDef, s: State, after: State, te: TableEdit, rows: map<Key, Row>)
    requires Chain(def, s) && Step(def, s.rows[|s.history|], te, rows)
    requires after.rows == s.rows + [rows] && after.history == s.history + [te]
    ensures Chain(def, after)
  {
    forall i | 0 <= i < |after.history| ensures Step(def, after.rows[i], after.history[i], after.rows[i + 1]) {
      if i < |s.history| { assert Step(def, s.rows[i], s.history[i], s.rows[i + 1]); }
    }
  }

  lemma DistinctGrows(def: IndexDef, rows: seq<map<Key, Row>>, more: map<Key, Row>)
    requires AllDistinct(def, rows) && Distinct(def, more)
    ensures AllDistinct(def, rows + [more])
  {
  }

  /** The cache after a commit: the new generation's, or an older one left alone. */
  lemma CacheGrows(def: IndexDef, table: string, s: State, t: Txn, te: TableEdit)
    requires Separates(def) && Good(def, table, s) && TxnOk(def, s, t) && Describes(def, te, table, t.own) && Apart(s, t.base, te)
    requires Quiet(s, t)
    ensures CacheOk(def, s.rows + [RowsIn(s.rows[|s.history|], t.own)], Stored(s, t))
  {
    CachedViewRight(def, table, s, t, te);
  }

  lemma CommitKeepsGood(def: IndexDef, table: string, s: State, id: nat, te: TableEdit)
    requires Separates(def) && Good(def, table, s) && Allowed(def, table, s, Commit(id, te)) && Quiet(s, s.open[id])
    ensures Good(def, table, Next(def, table, s, Commit(id, te)))
  {
    var t := s.open[id];
    var rows := RowsIn(s.rows[|s.history|], t.own);
    var after := Next(def, table, s, Commit(id, te));
    assert TxnOk(def, s, t);
    PassedIsApart(def, table, s, t.base, te);
    CommitStaysDistinct(def, table, s, t, te);
    CommitSteps(def, table, s, t, te);
    ChainGrows(def, s, after, te, rows);
    DistinctGrows(def, s.rows, rows);
    CacheGrows(def, table, s, t, te);
    OthersOk(def, s, after, id);
  }

  /** What an open transaction saw does not change. */
  lemma OthersOk(def: IndexDef, s: State, after: State, id: nat)
    requires OpenOk(def, s) && after.open == s.open - {id} && s.rows <= after.rows
    ensures OpenOk(def, after)
  {
    forall id | id in after.open ensures TxnOk(def, after, after.open[id]) { assert TxnOk(def, s, s.open[id]); }
  }

  /** One open transaction replaced. */
  lemma OneOpened(def: IndexDef, s: State, id: nat, t: Txn)
    requires OpenOk(def, s) && TxnOk(def, s, t)
    ensures OpenOk(def, s.(open := s.open[id := t]))
  {
    var after := s.(open := s.open[id := t]);
    forall i | i in after.open ensures TxnOk(def, after, after.open[i]) {
      if i != id { assert TxnOk(def, s, s.open[i]); }
    }
  }

  lemma ActKeepsGood(def: IndexDef, table: string, s: State, id: nat, op: Op)
    requires Separates(def) && Good(def, table, s) && Allowed(def, table, s, Act(id, op))
    ensures Good(def, table, Next(def, table, s, Act(id, op)))
  {
    var t := s.open[id];
    assert TxnOk(def, s, t);
    DoIsSound(def, s.rows[t.base], t.view, t.own, op);
    OneOpened(def, s, id, t.(own := Do(def, s.rows[t.base], t.view, t.own, op)));
  }

  lemma NothingDone(rows: map<Key, Row>, view: map<Key, Key>)
    ensures RowsIn(rows, Own(map[], [])) == rows && IndexIn(view, Own(map[], [])) == view
  {
  }

  lemma BeginKeepsGood(def: IndexDef, table: string, s: State, id: nat, view: map<Key, Key>)
    requires Good(def, table, s) && Allowed(def, table, s, Begin(id, view))
    ensures Good(def, table, Next(def, table, s, Begin(id, view)))
  {
    NothingDone(s.rows[|s.history|], view);
    OneOpened(def, s, id, Txn(|s.history|, view, Own(map[], [])));
  }

  lemma RememberKeepsGood(def: IndexDef, table: string, s: State, id: nat)
    requires Good(def, table, s) && Allowed(def, table, s, Remember(id))
    ensures Good(def, table, Next(def, table, s, Remember(id)))
  {
    assert TxnOk(def, s, s.open[id]);
    var after := Next(def, table, s, Remember(id));
    forall i | i in after.open ensures TxnOk(def, after, after.open[i]) { assert TxnOk(def, s, s.open[i]); }
  }

  function Opening(rows: map<Key, Row>): State { State([rows], [], None, map[]) }

  ghost function Play(def: IndexDef, table: string, rows: map<Key, Row>, events: seq<Event>): Option<State>
    ensures Play(def, table, rows, events).Some? ==>
              |Play(def, table, rows, events).value.rows| == |Play(def, table, rows, events).value.history| + 1
  {
    if events == [] then Some(Opening(rows))
    else
      match Play(def, table, rows, events[..|events| - 1])
      case None => None
      case Some(s) =>
        if Allowed(def, table, s, events[|events| - 1]) then Some(Next(def, table, s, events[|events| - 1])) else None
  }

  /** Every commit of a run is quiet. */
  ghost predicate QuietRun(def: IndexDef, table: string, rows: map<Key, Row>, events: seq<Event>) {
    forall i :: 0 <= i < |events| && events[i].Commit? && Play(def, table, rows, events[..i]).Some?
                && events[i].id in Play(def, table, rows, events[..i]).value.open ==>
      Quiet(Play(def, table, rows, events[..i]).value, Play(def, table, rows, events[..i]).value.open[events[i].id])
  }

  /** In every run of quiet commits, whatever interleaves and however commits are rebased, the rows of every
      generation respect the index, and the cache is the index of the generation it is for. */
  lemma {:induction false} RunsStayUnique(def: IndexDef, table: string, rows: map<Key, Row>, events: seq<Event>)
    requires Separates(def) && Distinct(def, rows)
    requires Play(def, table, rows, events).Some? && QuietRun(def, table, rows, events)
    ensures Good(def, table, Play(def, table, rows, events).value)
  {
    if events != [] {
      var n := |events| - 1;
      QuietPrefix(def, table, rows, events, n);
      RunsStayUnique(def, table, rows, events[..n]);
      var s := Play(def, table, rows, events[..n]).value;
      match events[n]
      case Begin(id, view) => BeginKeepsGood(def, table, s, id, view);
      case Act(id, op) => ActKeepsGood(def, table, s, id, op);
      case Commit(id, te) => CommitKeepsGood(def, table, s, id, te);
      case Remember(id) => RememberKeepsGood(def, table, s, id);
    }
  }

  lemma QuietPrefix(def: IndexDef, table: string, rows: map<Key, Row>, events: seq<Event>, n: nat)
    requires QuietRun(def, table, rows, events) && n <= |events|
    ensures QuietRun(def, table, rows, events[..n])
  {
    forall i | 0 <= i < n ensures events[..n][..i] == events[..i] {}
  }
}
