/** `common/repository/writelog.go`: which generations wrote what since the base commit, and the conflict
    check a stale transaction must pass. */
module WriteLog {
  import opened Bytes
  import opened Sorting
  import opened Overlays
  import opened Pending

  datatype Claim = Claim(index: string, key: Key)

  /** One table's part of a transaction. */
  datatype TableEdit = TableEdit(table: string, schema: seq<byte>, drop: bool, edits: seq<RowEdit>, claims: seq<Claim>) {
    /** Creates, alters or drops the table. */
    predicate ChangesSchema() { drop || |schema| > 0 }
  }

  datatype TableWrites = TableWrites(schema: nat, touched: nat)

  datatype ClaimKey = ClaimKey(table: string, claim: Claim)

  datatype Log = Log(from: nat, tables: map<string, TableWrites>, claims: map<ClaimKey, nat>)

  /** The zero value of a missing map entry. */
  function TableOf(log: Log, table: string): TableWrites {
    if table in log.tables then log.tables[table] else TableWrites(0, 0)
  }

  function ClaimedAt(log: Log, c: ClaimKey): nat {
    if c in log.claims then log.claims[c] else 0
  }

  function WithClaims(claims: map<ClaimKey, nat>, table: string, added: seq<Claim>, generation: nat): map<ClaimKey, nat> {
    if added == [] then claims
    else WithClaims(claims, table, added[..|added| - 1], generation)[ClaimKey(table, added[|added| - 1]) := generation]
  }

  function RecordOne(log: Log, te: TableEdit, generation: nat): Log {
    var tw := TableOf(log, te.table);
    Log(log.from,
        log.tables[te.table := TableWrites(if te.ChangesSchema() then generation else tw.schema, generation)],
        WithClaims(log.claims, te.table, te.claims, generation))
  }

  function RecordAll(log: Log, edits: seq<TableEdit>, generation: nat): Log {
    if edits == [] then log
    else RecordOne(RecordAll(log, edits[..|edits| - 1], generation), edits[|edits| - 1], generation)
  }

  /** `recorded`. A missing log starts at the generation before. */
  function Recorded(log: Option<Log>, edits: seq<TableEdit>, generation: nat): Log
    requires generation > 0
  {
    RecordAll(if log.None? then Log(generation - 1, map[], map[]) else log.value, edits, generation)
  }

  /** The log as the object every view of one base shares. */
  class SharedLog {
    const from: nat
    var tables: map<string, TableWrites>
    var claims: map<ClaimKey, nat>

    ghost function State(): Log
      reads this
    {
      Log(from, tables, claims)
    }

    constructor (generation: nat)
      requires generation > 0
      ensures State() == Log(generation - 1, map[], map[])
    {
      from, tables, claims := generation - 1, map[], map[];
    }

    method Record(edits: seq<TableEdit>, generation: nat)
      modifies this
      ensures State() == RecordAll(old(State()), edits, generation)
    {
      assert edits[..0] == [];
      for i := 0 to |edits|
        invariant State() == RecordAll(old(State()), edits[..i], generation)
      {
        var te := edits[i];
        assert edits[..i + 1][..i] == edits[..i];
        ghost var before := State();
        var tw := if te.table in tables then tables[te.table] else TableWrites(0, 0);
        tw := tw.(touched := generation);
        if te.drop || |te.schema| > 0 { tw := tw.(schema := generation); }
        tables := tables[te.table := tw];
        assert te.claims[..0] == [];
        for j := 0 to |te.claims|
          invariant claims == WithClaims(before.claims, te.table, te.claims[..j], generation)
          invariant tables == before.tables[te.table := tw]
        {
          assert te.claims[..j + 1][..j] == te.claims[..j];
          claims := claims[ClaimKey(te.table, te.claims[j]) := generation];
        }
        assert te.claims[..|te.claims|] == te.claims;
        assert State() == RecordOne(before, te, generation);
      }
      assert edits[..|edits|] == edits;
    }
  }

  /** What the check reads of a working view: rows stand for `PendingRows.Edits()`. */
  datatype Writes = Writes(generation: nat, log: Option<Log>, rows: map<string, map<Key, RowEdit>>)

  predicate RowClash(rows: map<string, map<Key, RowEdit>>, te: TableEdit, base: nat) {
    te.table in rows &&
    exists i :: 0 <= i < |te.edits| && te.edits[i].key in rows[te.table] && rows[te.table][te.edits[i].key].generation > base
  }

  predicate ClaimClash(log: Log, te: TableEdit, base: nat) {
    exists i :: 0 <= i < |te.claims| && ClaimedAt(log, ClaimKey(te.table, te.claims[i])) > base
  }

  predicate TableConflict(v: Writes, log: Log, te: TableEdit, base: nat) {
    var tw := TableOf(log, te.table);
    tw.touched > base && (tw.schema > base || te.ChangesSchema() || RowClash(v.rows, te, base) || ClaimClash(log, te, base))
  }

  predicate Conflict(v: Writes, base: nat, edits: seq<TableEdit>) {
    base != v.generation && (
      || base > v.generation || v.log.None? || base < v.log.value.from
      || exists i :: 0 <= i < |edits| && TableConflict(v, v.log.value, edits[i], base))
  }

  /** `writeConflict`: the loops over the transaction's tables, rows and claims. */
  method WriteConflict(v: Writes, base: nat, edits: seq<TableEdit>) returns (conflict: bool)
    ensures conflict <==> Conflict(v, base, edits)
  {
    if base == v.generation { return false; }
    if base > v.generation || v.log.None? || base < v.log.value.from { return true; }
    var log := v.log.value;
    for i := 0 to |edits|
      invariant forall j :: 0 <= j < i ==> !TableConflict(v, log, edits[j], base)
    {
      var te := edits[i];
      var tw := TableOf(log, te.table);
      if tw.touched <= base { continue; }
      if tw.schema > base { return true; }
      if te.drop || |te.schema| > 0 { return true; }
      if te.table in v.rows {
        for j := 0 to |te.edits|
          invariant forall k :: 0 <= k < j ==>
            !(te.edits[k].key in v.rows[te.table] && v.rows[te.table][te.edits[k].key].generation > base)
        {
          if te.edits[j].key in v.rows[te.table] && v.rows[te.table][te.edits[j].key].generation > base { return true; }
        }
      }
      for j := 0 to |te.claims|
        invariant forall k :: 0 <= k < j ==> ClaimedAt(log, ClaimKey(te.table, te.claims[k])) <= base
      {
        if ClaimedAt(log, ClaimKey(te.table, te.claims[j])) > base { return true; }
      }
    }
    return false;
  }

  // What the check is for.

  /** Two transactions that may not both commit from the same snapshot: one changes a table's schema and the
      other touches it, both write one row, or both claim one unique key. */
  ghost predicate Clash(a: TableEdit, b: TableEdit) {
    a.table == b.table &&
    (a.ChangesSchema() || b.ChangesSchema() || (exists i, j :: 0 <= i < |a.edits| && 0 <= j < |b.edits| && a.edits[i].key == b.edits[j].key)
     || exists c :: c in a.claims && c in b.claims)
  }

  ghost predicate Clashing(a: seq<TableEdit>, b: seq<TableEdit>) {
    exists i, j :: 0 <= i < |a| && 0 <= j < |b| && Clash(a[i], b[j])
  }

  /** The pending rows after one more table edit: a drop discards the table's rows. */
  function RowsAfter(rows: map<string, map<Key, RowEdit>>, te: TableEdit, generation: nat): map<string, map<Key, RowEdit>> {
    if te.drop then rows - {te.table}
    else
      var before := if te.table in rows then rows[te.table] else map[];
      rows[te.table := before + Stamped(LastOf(RowKey, te.edits), generation)]
  }

  function RowsAfterAll(rows: map<string, map<Key, RowEdit>>, edits: seq<TableEdit>, generation: nat): map<string, map<Key, RowEdit>> {
    if edits == [] then rows
    else RowsAfter(RowsAfterAll(rows, edits[..|edits| - 1], generation), edits[|edits| - 1], generation)
  }

  /** The view after the commits made on a base whose generation is `from`. */
  function After(from: nat, commits: seq<seq<TableEdit>>): Writes {
    if commits == [] then Writes(from, None, map[])
    else
      var n := |commits| - 1;
      var v := After(from, commits[..n]);
      Writes(v.generation + 1, Some(Recorded(v.log, commits[n], v.generation + 1)), RowsAfterAll(v.rows, commits[n], v.generation + 1))
  }

  lemma {:induction false} AfterGeneration(from: nat, commits: seq<seq<TableEdit>>)
    ensures After(from, commits).generation == from + |commits|
    ensures After(from, commits).log.Some? <==> commits != []
    ensures After(from, commits).log.Some? ==> After(from, commits).log.value.from == from
  {
    if commits != [] {
      var n := |commits| - 1;
      AfterGeneration(from, commits[..n]);
      var v := After(from, commits[..n]);
      var start := if v.log.None? then Log(from + |commits| - 1, map[], map[]) else v.log.value;
      RecordKeepsFrom(start, commits[n], from + |commits|);
    }
  }

  lemma {:induction false} RecordKeepsFrom(log: Log, edits: seq<TableEdit>, generation: nat)
    ensures RecordAll(log, edits, generation).from == log.from
  {
    if edits != [] { RecordKeepsFrom(log, edits[..|edits| - 1], generation); }
  }
}
