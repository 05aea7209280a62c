/** Unique indexes over every interleaving of transactions on a whole database: many tables, each with many indexes, and
    processes that each cache index edits by table and index (`storeIndexEdits`, `rebaseIndexViews` and
    `rememberIndexEdits` of `engine/catalog.go`). Seen from one process, one table and one index, a run is one of
    `UniqueRuns`. */
module DatabaseRuns {
  import opened Bytes
  import opened Overlays
  import opened Pending
  import opened WriteLog
  import FirstCommitter
  import opened IndexAgreement
  import opened UniqueRuns

  /** The indexes of every table, by name. */
  type Database = map<string, map<string, IndexDef>>

  ghost predicate WellNamed(db: Database) {
    forall table, name :: table in db && name in db[table] ==> db[table][name].name == name && Separates(db[table][name])
  }

  /** `indexOverlay`, the view being what the shared edits make of the persisted tree. */
  datatype IndexPart = IndexPart(view: map<Key, Key>, local: seq<IndexEdit>)

  /** A table in a transaction: its row edits, and its index edits once they are derived. */
  datatype Part = Part(edits: map<Key, Option<Row>>, indexes: Option<map<string, IndexPart>>)

  datatype Tx = Tx(process: nat, base: nat, parts: map<string, Part>)

  type Views = map<string, map<Key, Key>>

  /** The cache of one process: by table, then by index. */
  datatype Cached = Cached(generation: nat, tables: map<string, Views>)

  datatype World = World(rows: seq<map<string, map<Key, Row>>>, history: seq<seq<TableEdit>>, caches: map<nat, Cached>, open: map<nat, Tx>)

  datatype Step =
    | Start(id: nat, process: nat)
    | Derive(id: nat, table: string, views: Views)
    | Edit(id: nat, table: string, op: Op)
    | Send(id: nat, edits: seq<TableEdit>)
    | Leave(id: nat)

  function RowsAt(w: World, n: nat, table: string): map<Key, Row>
    requires n < |w.rows|
  {
    if table in w.rows[n] then w.rows[n][table] else map[]
  }

  // What a transaction may do.

  predicate RowPossible(r: map<Key, Row>, op: Op) {
    match op
    case Insert(p, _) => p !in r
    case Delete(p) => p in r
    case Update(o, _, n) => o in r && (n == o || n !in r)
  }

  function EditsAfter(edits: map<Key, Option<Row>>, op: Op): map<Key, Option<Row>> {
    match op
    case Insert(p, row) => edits[p := Some(row)]
    case Delete(p) => edits[p := None]
    case Update(o, row, n) => MovedEdits(edits, o, n, row)
  }

  function OwnOf(part: Part, name: string): Own
    requires part.indexes.Some? && name in part.indexes.value
  {
    Own(part.edits, part.indexes.value[name].local)
  }

  /** All indexes of a table are derived together. */
  predicate Covers(defs: map<string, IndexDef>, views: set<string>) { views == defs.Keys }

  /** A statement first derives the table's index edits, if it has indexes; every index must let it pass. */
  predicate EditPossible(defs: map<string, IndexDef>, rows: map<Key, Row>, part: Part, op: Op) {
    && RowPossible(Overlaid(rows, part.edits), op)
    && (defs != map[] ==> part.indexes.Some?)
    && (part.indexes.Some? ==>
          Covers(defs, part.indexes.value.Keys) &&
          forall name :: name in defs ==> Possible(defs[name], rows, part.indexes.value[name].view, OwnOf(part, name), op))
  }

  function Edited(defs: map<string, IndexDef>, rows: map<Key, Row>, part: Part, op: Op): Part
    requires EditPossible(defs, rows, part, op)
  {
    Part(EditsAfter(part.edits, op),
         if part.indexes.None? then None
         else Some(map name | name in defs ::
                     IndexPart(part.indexes.value[name].view, Do(defs[name], rows, part.indexes.value[name].view, OwnOf(part, name), op).local)))
  }

  /** What `uniqueClaims` gives. */
  predicate Claimed(defs: map<string, IndexDef>, part: Part, c: Claim) {
    && c.index in defs && defs[c.index].unique && part.indexes.Some? && c.index in part.indexes.value
    && c.key in Last(part.indexes.value[c.index].local) && Last(part.indexes.value[c.index].local)[c.key].Some?
  }

  /** One table's part of what is sent. */
  ghost predicate Tells(defs: map<string, IndexDef>, te: TableEdit, part: Part) {
    && !te.ChangesSchema()
    && (forall p {:trigger p in part.edits} :: p in part.edits <==> exists i :: 0 <= i < |te.edits| && te.edits[i].key == p)
    && (forall c {:trigger c in te.claims} :: c in te.claims <==> Claimed(defs, part, c))
  }

  /** The edits of every table that has some, and of no other. */
  ghost predicate Sends(db: Database, parts: map<string, Part>, edits: seq<TableEdit>) {
    && (forall i :: 0 <= i < |edits| ==> SendsOne(db, parts, edits[i]))
    && (forall i, j :: 0 <= i < j < |edits| ==> edits[i].table != edits[j].table)
    && (forall table :: table in parts && parts[table].edits != map[] ==> EditsTable(edits, table))
  }

  ghost predicate SendsOne(db: Database, parts: map<string, Part>, te: TableEdit) {
    te.table in parts && te.table in db && parts[te.table].edits != map[] && Tells(db[te.table], te, parts[te.table])
  }

  ghost predicate EditsTable(edits: seq<TableEdit>, table: string) { exists i :: 0 <= i < |edits| && edits[i].table == table }

  ghost predicate Allowed(db: Database, w: World, step: Step)
    requires |w.rows| == |w.history| + 1
  {
    match step
    case Start(_, _) => true
    case Derive(id, table, views) =>
      && id in w.open && w.open[id].base < |w.rows| && table in w.open[id].parts && table in db
      && w.open[id].parts[table] == Part(map[], None) && db[table] != map[] && Covers(db[table], views.Keys)
      && forall name :: name in views ==> Agree(db[table][name], RowsAt(w, w.open[id].base, table), views[name])
    case Edit(id, table, op) =>
      && id in w.open && w.open[id].base < |w.rows| && table in w.open[id].parts && table in db
      && EditPossible(db[table], RowsAt(w, w.open[id].base, table), w.open[id].parts[table], op)
    case Send(id, edits) =>
      && id in w.open && Sends(db, w.open[id].parts, edits)
      && !Conflict(After(0, w.history), w.open[id].base, edits)
    case Leave(id) => id in w.open && forall table :: table in w.open[id].parts ==> w.open[id].parts[table].edits == map[]
  }

  // The caches.

  function ViewsOf(indexes: map<string, IndexPart>): Views {
    map name | name in indexes :: Overlaid(indexes[name].view, Last(indexes[name].local))
  }

  /** `rebaseIndexViews`: nothing if either side lacks an index. */
  function Rebase(current: Option<Views>, indexes: Option<map<string, IndexPart>>): Option<Views> {
    if current.None? || indexes.None? || current.value.Keys != indexes.value.Keys then None
    else Some(map name | name in indexes.value :: Overlaid(current.value[name], Last(indexes.value[name].local)))
  }

  function Find<V>(m: map<string, V>, k: string): Option<V> { if k in m then Some(m[k]) else None }

  /** One table's views in the cache a commit leaves, `carried` being those of the generation before. */
  function StoredViews(part: Part, rebased: bool, carried: Option<Views>): Option<Views> {
    if rebased then if part.edits == map[] then carried else Rebase(carried, part.indexes)
    else if part.indexes.Some? then Some(ViewsOf(part.indexes.value))
    else if part.edits == map[] then carried
    else None
  }

  /** What a process has cached for the current generation. */
  function Carried(w: World, process: nat): Option<map<string, Views>> {
    if process in w.caches && w.caches[process].generation == |w.history| then Some(w.caches[process].tables) else None
  }

  function CarriedFor(w: World, process: nat, table: string): Option<Views> {
    var carried := Carried(w, process);
    if carried.Some? then Find(carried.value, table) else None
  }

  /** `storeIndexEdits`. */
  function StoreIn(w: World, tx: Tx): map<nat, Cached> {
    var rebased := tx.base != |w.history|;
    if rebased && Carried(w, tx.process).None? then w.caches
    else w.caches[tx.process := Cached(|w.history| + 1,
           map table | table in tx.parts && StoredViews(tx.parts[table], rebased, CarriedFor(w, tx.process, table)).Some? ::
             StoredViews(tx.parts[table], rebased, CarriedFor(w, tx.process, table)).value)]
  }

  /** `rememberIndexEdits`: what is cached for that generation is kept. */
  function Remembered(w: World, tx: Tx): map<nat, Cached> {
    var kept := if tx.process in w.caches && w.caches[tx.process].generation == tx.base then w.caches[tx.process].tables else map[];
    var derived := map table | table in tx.parts && tx.parts[table].indexes.Some? :: ViewsOf(tx.parts[table].indexes.value);
    if derived == map[] then w.caches else w.caches[tx.process := Cached(tx.base, derived + kept)]
  }

  /** The beginning of a transaction: the tables as they are, with the index edits that are cached. */
  function Begun(db: Database, w: World, process: nat): Tx {
    Tx(process, |w.history|, map table | table in db ::
         var views := CarriedFor(w, process, table);
         Part(map[], if views.None? then None else Some(map name | name in views.value :: IndexPart(views.value[name], []))))
  }

  function DerivedTx(tx: Tx, table: string, views: Views): Tx {
    tx.(parts := tx.parts[table := Part(map[], Some(map name | name in views :: IndexPart(views[name], [])))])
  }

  function EditedTx(db: Database, w: World, tx: Tx, table: string, op: Op): Tx
    requires table in db && table in tx.parts && tx.base < |w.rows| && EditPossible(db[table], RowsAt(w, tx.base, table), tx.parts[table], op)
  {
    tx.(parts := tx.parts[table := Edited(db[table], RowsAt(w, tx.base, table), tx.parts[table], op)])
  }

  function NextRows(db: Database, w: World, tx: Tx): map<string, map<Key, Row>>
    requires |w.rows| == |w.history| + 1
  {
    map table | table in db :: Overlaid(RowsAt(w, |w.history|, table), if table in tx.parts then tx.parts[table].edits else map[])
  }

  function SentWorld(db: Database, w: World, id: nat, edits: seq<TableEdit>): World
    requires id in w.open && |w.rows| == |w.history| + 1
  {
    World(w.rows + [NextRows(db, w, w.open[id])], w.history + [edits], StoreIn(w, w.open[id]), w.open - {id})
  }

  ghost function Next(db: Database, w: World, step: Step): World
    requires |w.rows| == |w.history| + 1 && Allowed(db, w, step)
  {
    match step
    case Start(id, process) => w.(open := w.open[id := Begun(db, w, process)])
    case Derive(id, table, views) =>
      w.(open := w.open[id := DerivedTx(w.open[id], table, views)])
    case Edit(id, table, op) =>
      w.(open := w.open[id := EditedTx(db, w, w.open[id], table, op)])
    case Send(id, edits) =>
      SentWorld(db, w, id, edits)
    case Leave(id) => w.(caches := Remembered(w, w.open[id]), open := w.open - {id})
  }

  // One process, one table and one index.

  function Blank(table: string): TableEdit { TableEdit(table, [], false, [], []) }

  /** What a commit did to one table. */
  function EditOf(edits: seq<TableEdit>, table: string): TableEdit {
    if edits == [] then Blank(table) else if edits[0].table == table then edits[0] else EditOf(edits[1..], table)
  }

  lemma {:induction false} EditOfIs(edits: seq<TableEdit>, table: string)
    ensures EditOf(edits, table) == Blank(table) || EditOf(edits, table) in edits
    ensures EditOf(edits, table).table == table
    ensures EditsTable(edits, table) ==> EditOf(edits, table) in edits
    ensures !EditsTable(edits, table) ==> EditOf(edits, table) == Blank(table)
  {
    if edits != [] {
      EditOfIs(edits[1..], table);
      if EditsTable(edits, table) && edits[0].table != table {
        var i :| 0 <= i < |edits| && edits[i].table == table;
        assert edits[1..][i - 1] == edits[i];
      }
      if EditsTable(edits[1..], table) {
        var i :| 0 <= i < |edits| - 1 && edits[1..][i].table == table;
        assert edits[i + 1].table == table;
      }
    }
  }

  predicate Has(tx: Tx, table: string, name: string) {
    table in tx.parts && tx.parts[table].indexes.Some? && name in tx.parts[table].indexes.value
  }

  function TxFor(tx: Tx, table: string, name: string): Txn
    requires Has(tx, table, name)
  {
    Txn(tx.base, tx.parts[table].indexes.value[name].view, OwnOf(tx.parts[table], name))
  }

  function OpenFor(w: World, table: string, name: string): map<nat, Txn> {
    map id | id in w.open && Has(w.open[id], table, name) :: TxFor(w.open[id], table, name)
  }

  function CacheFor(w: World, process: nat, table: string, name: string): Option<Cache> {
    if process in w.caches && table in w.caches[process].tables && name in w.caches[process].tables[table]
    then Some(Cache(w.caches[process].generation, w.caches[process].tables[table][name])) else None
  }

  function RowsFor(w: World, table: string): seq<map<Key, Row>> {
    seq(|w.rows|, n requires 0 <= n < |w.rows| => RowsAt(w, n, table))
  }

  function HistoryFor(w: World, table: string): seq<TableEdit> {
    seq(|w.history|, n requires 0 <= n < |w.history| => EditOf(w.history[n], table))
  }

  function Seen(w: World, process: nat, table: string, name: string): State {
    State(RowsFor(w, table), HistoryFor(w, table), CacheFor(w, process, table, name), OpenFor(w, table, name))
  }

  // What holds of every run.

  /** A table's index edits are derived for all its indexes at once and before it is edited. */
  ghost predicate PartWell(defs: map<string, IndexDef>, part: Part) {
    && (part.indexes.Some? ==> Covers(defs, part.indexes.value.Keys))
    && (part.indexes.None? && defs != map[] ==> part.edits == map[])
    && (part.edits == map[] && part.indexes.Some? ==> forall name :: name in part.indexes.value ==> part.indexes.value[name].local == [])
  }

  ghost predicate TxWell(db: Database, w: World, tx: Tx) {
    tx.base <= |w.history| && tx.parts.Keys == db.Keys && forall table :: table in db ==> PartWell(db[table], tx.parts[table])
  }

  /** A cached table has the views of all its indexes, so a view is never missing when others are there. */
  ghost predicate CacheWell(db: Database, w: World, c: Cached) {
    c.generation <= |w.history| && forall table :: table in c.tables ==> table in db && Covers(db[table], c.tables[table].Keys)
  }

  ghost predicate SentWell(edits: seq<TableEdit>) {
    forall te :: te in edits ==> !te.ChangesSchema()
  }

  ghost predicate Well(db: Database, w: World) {
    && |w.rows| == |w.history| + 1
    && (forall id :: id in w.open ==> TxWell(db, w, w.open[id]))
    && (forall process :: process in w.caches ==> CacheWell(db, w, w.caches[process]))
    && (forall n :: 0 <= n < |w.history| ==> SentWell(w.history[n]))
  }

  /** Seen through any index of any table by any process, all is good: every generation's rows respect the index, and the
      cached view and the views of open transactions are the indexes of the rows they are for. */
  ghost predicate AllGood(db: Database, w: World) {
    forall process, table, name {:trigger Seen(w, process, table, name)} ::
      table in db && name in db[table] ==> Good(db[table][name], table, Seen(w, process, table, name))
  }

  /** The transaction's commit misses no entry of any index. */
  ghost predicate QuietFor(w: World, tx: Tx) {
    forall table, name :: Has(tx, table, name) ==> Quiet(Seen(w, tx.process, table, name), TxFor(tx, table, name))
  }

  ghost predicate QuietStep(w: World, step: Step) { step.Send? && step.id in w.open ==> QuietFor(w, w.open[step.id]) }

  // Steps, through one index.

  lemma SeenOpened(w: World, id: nat, tx: Tx, process: nat, table: string, name: string)
    ensures var s := Seen(w, process, table, name);
            Seen(w.(open := w.open[id := tx]), process, table, name)
            == s.(open := if Has(tx, table, name) then s.open[id := TxFor(tx, table, name)] else s.open - {id})
  {
    var after := w.(open := w.open[id := tx]);
    assert RowsFor(after, table) == RowsFor(w, table) && HistoryFor(after, table) == HistoryFor(w, table);
    assert OpenFor(after, table, name)
           == if Has(tx, table, name) then OpenFor(w, table, name)[id := TxFor(tx, table, name)] else OpenFor(w, table, name) - {id};
  }

  lemma OpenedGood(def: IndexDef, w: World, id: nat, tx: Tx, process: nat, table: string, name: string)
    requires Good(def, table, Seen(w, process, table, name))
    requires Has(tx, table, name) ==> TxnOk(def, Seen(w, process, table, name), TxFor(tx, table, name))
    ensures Good(def, table, Seen(w.(open := w.open[id := tx]), process, table, name))
  {
    var s := Seen(w, process, table, name);
    SeenOpened(w, id, tx, process, table, name);
    if Has(tx, table, name) { OneOpened(def, s, id, TxFor(tx, table, name)); } else { OthersOk(def, s, s.(open := s.open - {id}), id); }
  }

  /** An index's views of a table that is not touched stay as they were. */
  lemma SameTx(def: IndexDef, w: World, id: nat, tx: Tx, process: nat, table: string, name: string)
    requires Good(def, table, Seen(w, process, table, name)) && id in w.open && Has(w.open[id], table, name)
    requires Has(tx, table, name) && TxFor(tx, table, name) == TxFor(w.open[id], table, name)
    ensures TxnOk(def, Seen(w, process, table, name), TxFor(tx, table, name))
  {
    var s := Seen(w, process, table, name);
    assert TxnOk(def, s, s.open[id]);
  }

  /** A fresh view of some generation's rows. */
  lemma FreshTx(def: IndexDef, w: World, n: nat, view: map<Key, Key>, process: nat, table: string, name: string)
    requires n < |w.rows| && Agree(def, RowsAt(w, n, table), view)
    ensures TxnOk(def, Seen(w, process, table, name), Txn(n, view, Own(map[], [])))
  {
    NothingDone(RowsAt(w, n, table), view);
  }

  lemma StartSeen(db: Database, w: World, id: nat, starting: nat, process: nat, table: string, name: string)
    requires Well(db, w) && AllGood(db, w) && table in db && name in db[table]
    ensures Good(db[table][name], table, Seen(Next(db, w, Start(id, starting)), process, table, name))
  {
    var def, tx := db[table][name], Begun(db, w, starting);
    if Has(tx, table, name) {
      assert Good(def, table, Seen(w, starting, table, name));
      FreshTx(def, w, tx.base, TxFor(tx, table, name).view, process, table, name);
    }
    assert Good(def, table, Seen(w, process, table, name));
    OpenedGood(def, w, id, tx, process, table, name);
  }

  lemma DeriveSeen(db: Database, w: World, id: nat, derived: string, views: Views, process: nat, table: string, name: string)
    requires Well(db, w) && AllGood(db, w) && table in db && name in db[table] && Allowed(db, w, Derive(id, derived, views))
    ensures Good(db[table][name], table, Seen(Next(db, w, Derive(id, derived, views)), process, table, name))
  {
    var def, tx := db[table][name], DerivedTx(w.open[id], derived, views);
    assert Good(def, table, Seen(w, process, table, name));
    if table == derived {
      FreshTx(def, w, tx.base, views[name], process, table, name);
    } else if Has(tx, table, name) {
      SameTx(def, w, id, tx, process, table, name);
    }
    OpenedGood(def, w, id, tx, process, table, name);
  }

  lemma EditedOk(db: Database, w: World, id: nat, table: string, op: Op, process: nat, name: string)
    requires table in db && name in db[table] && Separates(db[table][name]) && Good(db[table][name], table, Seen(w, process, table, name))
    requires |w.rows| == |w.history| + 1 && Allowed(db, w, Edit(id, table, op))
    ensures var tx := EditedTx(db, w, w.open[id], table, op);
            Has(tx, table, name) && TxnOk(db[table][name], Seen(w, process, table, name), TxFor(tx, table, name))
  {
    var def, tx := db[table][name], w.open[id];
    SameTx(def, w, id, tx, process, table, name);
    DoIsSound(def, RowsAt(w, tx.base, table), tx.parts[table].indexes.value[name].view, OwnOf(tx.parts[table], name), op);
  }

  lemma EditSeen(db: Database, w: World, id: nat, edited: string, op: Op, process: nat, table: string, name: string)
    requires table in db && name in db[table] && Separates(db[table][name]) && Good(db[table][name], table, Seen(w, process, table, name))
    requires |w.rows| == |w.history| + 1 && Allowed(db, w, Edit(id, edited, op))
    ensures Good(db[table][name], table, Seen(Next(db, w, Edit(id, edited, op)), process, table, name))
  {
    var def, tx := db[table][name], EditedTx(db, w, w.open[id], edited, op);
    if table == edited {
      EditedOk(db, w, id, table, op, process, name);
    } else if Has(tx, table, name) {
      SameTx(def, w, id, tx, process, table, name);
    }
    OpenedGood(def, w, id, tx, process, table, name);
  }

  // Commits, through one index.

  /** What the transaction sends for a table describes its own part, through every index. */
  lemma SentDescribes(db: Database, w: World, tx: Tx, edits: seq<TableEdit>, table: string, name: string)
    requires WellNamed(db) && TxWell(db, w, tx) && Sends(db, tx.parts, edits) && table in db && name in db[table]
    requires Has(tx, table, name)
    ensures Describes(db[table][name], EditOf(edits, table), table, TxFor(tx, table, name).own)
  {
    var te := EditOf(edits, table);
    EditOfIs(edits, table);
    if te in edits {
      SentOne(db, tx.parts, edits, te);
      OneDescribes(db[table], te, tx.parts[table], name);
    } else {
      assert PartWell(db[table], tx.parts[table]);
      BlankDescribes(db[table][name], table);
    }
  }

  lemma SentOne(db: Database, parts: map<string, Part>, edits: seq<TableEdit>, te: TableEdit)
    requires Sends(db, parts, edits) && te in edits
    ensures SendsOne(db, parts, te)
  {
  }

  lemma BlankDescribes(def: IndexDef, table: string)
    ensures Describes(def, Blank(table), table, Own(map[], []))
  {
  }

  lemma OneDescribes(defs: map<string, IndexDef>, te: TableEdit, part: Part, name: string)
    requires Tells(defs, te, part) && part.indexes.Some? && name in part.indexes.value && name in defs && defs[name].name == name
    ensures Describes(defs[name], te, te.table, OwnOf(part, name))
  {
    forall k
      ensures Claim(name, k) in te.claims <==> defs[name].unique && k in Last(OwnOf(part, name).local) && Last(OwnOf(part, name).local)[k].Some?
    {
      assert Claim(name, k) in te.claims <==> Claimed(defs, part, Claim(name, k));
    }
  }

  /** Two lists of table edits that do not clash are apart in every table. */
  lemma EditsApart(a: seq<TableEdit>, b: seq<TableEdit>, table: string)
    requires !Clashing(a, b)
    ensures var x, y := EditOf(a, table), EditOf(b, table);
            && (forall p :: !(UniqueRuns.WritesRow(x, p) && UniqueRuns.WritesRow(y, p)))
            && (forall c :: !(c in x.claims && c in y.claims))
  {
    EditOfIs(a, table);
    EditOfIs(b, table);
    var x, y := EditOf(a, table), EditOf(b, table);
    if x in a && y in b {
      var i :| 0 <= i < |a| && a[i] == x;
      var j :| 0 <= j < |b| && b[j] == y;
      assert !Clash(a[i], b[j]);
    }
  }

  lemma SentApart(w: World, base: nat, edits: seq<TableEdit>, process: nat, table: string, name: string)
    requires base <= |w.history| && !Conflict(After(0, w.history), base, edits)
    ensures Apart(Seen(w, process, table, name), base, EditOf(edits, table))
  {
    var s := Seen(w, process, table, name);
    FirstCommitter.ConflictExact(0, w.history, base, edits);
    forall i | base <= i < |s.history|
      ensures (forall p :: !(UniqueRuns.WritesRow(s.history[i], p) && UniqueRuns.WritesRow(EditOf(edits, table), p)))
              && (forall c :: !(c in s.history[i].claims && c in EditOf(edits, table).claims))
    {
      assert !Clashing(w.history[i], edits);
      EditsApart(w.history[i], edits, table);
    }
  }

  lemma RowsSent(db: Database, w: World, id: nat, edits: seq<TableEdit>, table: string)
    requires |w.rows| == |w.history| + 1 && id in w.open && table in db && table in w.open[id].parts
    ensures RowsFor(SentWorld(db, w, id, edits), table)
            == RowsFor(w, table) + [Overlaid(RowsAt(w, |w.history|, table), w.open[id].parts[table].edits)]
  {
  }

  lemma OpenSent(db: Database, w: World, id: nat, edits: seq<TableEdit>, table: string, name: string)
    requires |w.rows| == |w.history| + 1 && id in w.open
    ensures OpenFor(SentWorld(db, w, id, edits), table, name) == OpenFor(w, table, name) - {id}
    ensures HistoryFor(SentWorld(db, w, id, edits), table) == HistoryFor(w, table) + [EditOf(edits, table)]
  {
  }

  lemma SeenSent(db: Database, w: World, id: nat, edits: seq<TableEdit>, process: nat, table: string, name: string)
    requires |w.rows| == |w.history| + 1 && id in w.open && table in db && table in w.open[id].parts
    ensures var s, after := Seen(w, process, table, name), Seen(SentWorld(db, w, id, edits), process, table, name);
            && after.rows == s.rows + [Overlaid(s.rows[|w.history|], w.open[id].parts[table].edits)]
            && after.history == s.history + [EditOf(edits, table)] && after.open == s.open - {id}
  {
    RowsSent(db, w, id, edits, table);
    OpenSent(db, w, id, edits, table, name);
  }

  /** A commit seen from a table and an index it has its own part of. */
  lemma CommittedGood(def: IndexDef, table: string, s: State, t: Txn, te: TableEdit, id: nat, after: State)
    requires Separates(def) && Good(def, table, s) && TxnOk(def, s, t) && Describes(def, te, table, t.own) && Apart(s, t.base, te)
    requires after.rows == s.rows + [RowsIn(s.rows[|s.history|], t.own)] && after.history == s.history + [te] && after.open == s.open - {id}
    requires CacheOk(def, after.rows, after.cache)
    ensures Good(def, table, after)
  {
    var rows := RowsIn(s.rows[|s.history|], t.own);
    CommitStaysDistinct(def, table, s, t, te);
    CommitSteps(def, table, s, t, te);
    ChainGrows(def, s, after, te, rows);
    DistinctGrows(def, s.rows, rows);
    OthersOk(def, s, after, id);
  }

  /** A commit seen from a table it does not touch. */
  lemma PassedBy(def: IndexDef, table: string, s: State, id: nat, after: State)
    requires Good(def, table, s)
    requires after.rows == s.rows + [s.rows[|s.history|]] && after.history == s.history + [Blank(table)] && after.open == s.open - {id}
    requires CacheOk(def, after.rows, after.cache)
    ensures Good(def, table, after)
  {
    ChainGrows(def, s, after, Blank(table), s.rows[|s.history|]);
    DistinctGrows(def, s.rows, s.rows[|s.history|]);
    OthersOk(def, s, after, id);
  }

  /** The view a commit stores for an index: its own edits on its own view or on the carried one, or the carried one. */
  lemma StoredIs(part: Part, rebased: bool, carried: Option<Views>, name: string)
    requires var views := StoredViews(part, rebased, carried); views.Some? && name in views.value
    ensures var v := StoredViews(part, rebased, carried).value[name];
            if part.indexes.Some? && name in part.indexes.value && (!rebased || part.edits != map[]) then
              && (rebased ==> carried.Some? && name in carried.value)
              && v == Overlaid(if rebased then carried.value[name] else part.indexes.value[name].view, Last(part.indexes.value[name].local))
            else part.edits == map[] && carried.Some? && name in carried.value && v == carried.value[name]
  {
  }

  lemma CarriedIs(w: World, process: nat, table: string, name: string)
    requires CarriedFor(w, process, table).Some? && name in CarriedFor(w, process, table).value
    ensures CacheFor(w, process, table, name) == Some(Cache(|w.history|, CarriedFor(w, process, table).value[name]))
  {
  }

  /** A stored view is the index of the rows after the commit. */
  lemma StoredOwn(def: IndexDef, table: string, s: State, t: Txn, te: TableEdit, v: map<Key, Key>)
    requires Separates(def) && Good(def, table, s) && TxnOk(def, s, t) && Describes(def, te, table, t.own) && Apart(s, t.base, te) && Quiet(s, t)
    requires if t.base == |s.history| then v == IndexIn(t.view, t.own)
             else s.cache.Some? && s.cache.value.generation == |s.history| && v == IndexIn(s.cache.value.view, t.own)
    ensures Agree(def, RowsIn(s.rows[|s.history|], t.own), v)
  {
    CachedViewRight(def, table, s, t, te);
  }

  lemma StoredGood(db: Database, w: World, tx: Tx, edits: seq<TableEdit>, table: string, name: string, v: map<Key, Key>)
    requires WellNamed(db) && TxWell(db, w, tx) && table in db && name in db[table] && Good(db[table][name], table, Seen(w, tx.process, table, name))
    requires !Conflict(After(0, w.history), tx.base, edits) && Sends(db, tx.parts, edits)
    requires Has(tx, table, name) ==> TxnOk(db[table][name], Seen(w, tx.process, table, name), TxFor(tx, table, name))
                                      && Quiet(Seen(w, tx.process, table, name), TxFor(tx, table, name))
    requires var views := StoredViews(tx.parts[table], tx.base != |w.history|, CarriedFor(w, tx.process, table));
             views.Some? && name in views.value && v == views.value[name]
    ensures Agree(db[table][name], Overlaid(RowsFor(w, table)[|w.history|], tx.parts[table].edits), v)
  {
    var def, s, carried := db[table][name], Seen(w, tx.process, table, name), CarriedFor(w, tx.process, table);
    StoredIs(tx.parts[table], tx.base != |w.history|, carried, name);
    if carried.Some? && name in carried.value { CarriedIs(w, tx.process, table, name); }
    if Has(tx, table, name) && (tx.base == |w.history| || tx.parts[table].edits != map[]) {
      SentDescribes(db, w, tx, edits, table, name);
      SentApart(w, tx.base, edits, tx.process, table, name);
      StoredOwn(def, table, s, TxFor(tx, table, name), EditOf(edits, table), v);
    } else {
      assert Overlaid(s.rows[|w.history|], map[]) == s.rows[|w.history|];
    }
  }

  /** The cache of the world after a commit, seen through one index. */
  lemma CacheSent(db: Database, w: World, id: nat, edits: seq<TableEdit>, process: nat, table: string, name: string)
    requires |w.rows| == |w.history| + 1 && id in w.open && table in w.open[id].parts
    ensures var tx, cache := w.open[id], CacheFor(SentWorld(db, w, id, edits), process, table, name);
            var views := StoredViews(tx.parts[table], tx.base != |w.history|, CarriedFor(w, tx.process, table));
            || cache == CacheFor(w, process, table, name) || cache == None
            || (process == tx.process && views.Some? && name in views.value && cache == Some(Cache(|w.history| + 1, views.value[name])))
  {
  }

  lemma StoredByOwner(db: Database, w: World, id: nat, edits: seq<TableEdit>, table: string, name: string, v: map<Key, Key>)
    requires WellNamed(db) && id in w.open && TxWell(db, w, w.open[id]) && table in db && name in db[table]
    requires Good(db[table][name], table, Seen(w, w.open[id].process, table, name))
    requires !Conflict(After(0, w.history), w.open[id].base, edits) && Sends(db, w.open[id].parts, edits) && QuietFor(w, w.open[id])
    requires var tx := w.open[id];
             var views := StoredViews(tx.parts[table], tx.base != |w.history|, CarriedFor(w, tx.process, table));
             views.Some? && name in views.value && v == views.value[name]
    ensures Agree(db[table][name], Overlaid(RowsFor(w, table)[|w.history|], w.open[id].parts[table].edits), v)
  {
    var tx := w.open[id];
    if Has(tx, table, name) { SameTx(db[table][name], w, id, tx, tx.process, table, name); }
    StoredGood(db, w, tx, edits, table, name, v);
  }

  /** A cached view of a new generation, or an older one. */
  lemma CacheWith(def: IndexDef, rows: seq<map<Key, Row>>, more: map<Key, Row>, was: Option<Cache>, cache: Option<Cache>)
    requires CacheOk(def, rows, was)
    requires cache == was || cache == None || (cache.value.generation == |rows| && Agree(def, more, cache.value.view))
    ensures CacheOk(def, rows + [more], cache)
  {
  }

  lemma SendCache(db: Database, w: World, id: nat, edits: seq<TableEdit>, process: nat, table: string, name: string)
    requires WellNamed(db) && |w.rows| == |w.history| + 1 && id in w.open && TxWell(db, w, w.open[id]) && table in db && name in db[table]
    requires Good(db[table][name], table, Seen(w, process, table, name))
    requires !Conflict(After(0, w.history), w.open[id].base, edits) && Sends(db, w.open[id].parts, edits) && QuietFor(w, w.open[id])
    ensures CacheOk(db[table][name], RowsFor(w, table) + [Overlaid(RowsFor(w, table)[|w.history|], w.open[id].parts[table].edits)],
                    CacheFor(SentWorld(db, w, id, edits), process, table, name))
  {
    var was, cache := CacheFor(w, process, table, name), CacheFor(SentWorld(db, w, id, edits), process, table, name);
    CacheSent(db, w, id, edits, process, table, name);
    if cache != was && cache.Some? { StoredByOwner(db, w, id, edits, table, name, cache.value.view); }
    CacheWith(db[table][name], RowsFor(w, table), Overlaid(RowsFor(w, table)[|w.history|], w.open[id].parts[table].edits), was, cache);
  }

  lemma SendSeen(db: Database, w: World, id: nat, edits: seq<TableEdit>, process: nat, table: string, name: string)
    requires WellNamed(db) && |w.rows| == |w.history| + 1 && id in w.open && TxWell(db, w, w.open[id]) && table in db && name in db[table]
    requires Good(db[table][name], table, Seen(w, process, table, name))
    requires !Conflict(After(0, w.history), w.open[id].base, edits) && Sends(db, w.open[id].parts, edits) && QuietFor(w, w.open[id])
    ensures Good(db[table][name], table, Seen(SentWorld(db, w, id, edits), process, table, name))
  {
    var def, tx, s := db[table][name], w.open[id], Seen(w, process, table, name);
    var after := Seen(SentWorld(db, w, id, edits), process, table, name);
    SeenSent(db, w, id, edits, process, table, name);
    SendCache(db, w, id, edits, process, table, name);
    if Has(tx, table, name) {
      SameTx(def, w, id, tx, process, table, name);
      SentDescribes(db, w, tx, edits, table, name);
      SentApart(w, tx.base, edits, process, table, name);
      CommittedGood(def, table, s, TxFor(tx, table, name), EditOf(edits, table), id, after);
    } else {
      assert PartWell(db[table], tx.parts[table]);
      assert Overlaid(s.rows[|w.history|], map[]) == s.rows[|w.history|];
      UntouchedEdit(db, tx, edits, table);
      PassedBy(def, table, s, id, after);
    }
  }

  lemma UntouchedEdit(db: Database, tx: Tx, edits: seq<TableEdit>, table: string)
    requires Sends(db, tx.parts, edits) && table in tx.parts && tx.parts[table].edits == map[]
    ensures EditOf(edits, table) == Blank(table)
  {
    EditOfIs(edits, table);
    forall i | 0 <= i < |edits| ensures edits[i].table != table { assert SendsOne(db, tx.parts, edits[i]); }
  }

  /** What a clean transaction leaves in the cache, seen through one index. */
  lemma CacheLeft(w: World, tx: Tx, after: World, process: nat, table: string, name: string)
    requires after.caches == Remembered(w, tx)
    ensures var cache := CacheFor(after, process, table, name);
            || cache == CacheFor(w, process, table, name) || cache == None
            || (Has(tx, table, name) && cache == Some(Cache(tx.base, IndexIn(TxFor(tx, table, name).view, TxFor(tx, table, name).own))))
  {
  }

  lemma SeenLeft(w: World, id: nat, after: World, table: string, name: string)
    requires after.rows == w.rows && after.history == w.history && after.open == w.open - {id}
    ensures RowsFor(after, table) == RowsFor(w, table) && HistoryFor(after, table) == HistoryFor(w, table)
    ensures OpenFor(after, table, name) == OpenFor(w, table, name) - {id}
  {
  }

  lemma LeaveSeen(db: Database, w: World, id: nat, process: nat, table: string, name: string)
    requires |w.rows| == |w.history| + 1 && table in db && name in db[table] && Allowed(db, w, Leave(id)) && TxWell(db, w, w.open[id])
    requires Good(db[table][name], table, Seen(w, process, table, name))
    ensures Good(db[table][name], table, Seen(Next(db, w, Leave(id)), process, table, name))
  {
    var def, tx, s := db[table][name], w.open[id], Seen(w, process, table, name);
    var after := Next(db, w, Leave(id));
    CacheLeft(w, tx, after, process, table, name);
    SeenLeft(w, id, after, table, name);
    OthersOk(def, s, s.(open := s.open - {id}), id);
    if Has(tx, table, name) {
      SameTx(def, w, id, tx, process, table, name);
      NothingDone(s.rows[tx.base], TxFor(tx, table, name).view);
    }
  }

  // Every run.

  lemma BegunWell(db: Database, w: World, process: nat)
    requires Well(db, w)
    ensures TxWell(db, w, Begun(db, w, process))
  {
    var tx := Begun(db, w, process);
    forall table | table in db ensures PartWell(db[table], tx.parts[table]) {
      if CarriedFor(w, process, table).Some? { assert CacheWell(db, w, w.caches[process]); }
    }
  }

  lemma OpenedWell(db: Database, w: World, id: nat, tx: Tx)
    requires Well(db, w) && TxWell(db, w, tx)
    ensures Well(db, w.(open := w.open[id := tx]))
  {
    var after := w.(open := w.open[id := tx]);
    forall i | i in after.open ensures TxWell(db, after, after.open[i]) { if i != id { assert TxWell(db, w, w.open[i]); } }
    forall process | process in after.caches ensures CacheWell(db, after, after.caches[process]) {
      assert CacheWell(db, w, w.caches[process]);
    }
  }

  /** One table's part replaced. */
  lemma PartReplaced(db: Database, w: World, tx: Tx, table: string, part: Part)
    requires TxWell(db, w, tx) && table in db && PartWell(db[table], part)
    ensures TxWell(db, w, tx.(parts := tx.parts[table := part]))
  {
  }

  lemma EditedWell(defs: map<string, IndexDef>, rows: map<Key, Row>, part: Part, op: Op)
    requires EditPossible(defs, rows, part, op)
    ensures PartWell(defs, Edited(defs, rows, part, op))
  {
    match op
    case Insert(p, row) => assert p in EditsAfter(part.edits, op);
    case Delete(p) => assert p in EditsAfter(part.edits, op);
    case Update(o, row, n) => assert n in EditsAfter(part.edits, op);
  }

  /** A commit or a clean end: one process's cache replaced, and a transaction gone. */
  lemma ClosedWell(db: Database, w: World, id: nat, rows: seq<map<string, map<Key, Row>>>, history: seq<seq<TableEdit>>, caches: map<nat, Cached>)
    requires Well(db, w) && w.history <= history && |rows| == |history| + 1
    requires forall n :: |w.history| <= n < |history| ==> SentWell(history[n])
    requires forall process :: process in caches ==>
               || (process in w.caches && caches[process] == w.caches[process])
               || CacheWell(db, World(rows, history, caches, w.open - {id}), caches[process])
    ensures Well(db, World(rows, history, caches, w.open - {id}))
  {
    var after := World(rows, history, caches, w.open - {id});
    forall i | i in after.open ensures TxWell(db, after, after.open[i]) { assert TxWell(db, w, w.open[i]); }
    forall process | process in caches ensures CacheWell(db, after, caches[process]) {
      if process in w.caches && caches[process] == w.caches[process] { assert CacheWell(db, w, w.caches[process]); }
    }
    forall n | 0 <= n < |history| ensures SentWell(history[n]) { if n < |w.history| { assert SentWell(w.history[n]); } }
  }

  lemma StoredWell(defs: map<string, IndexDef>, part: Part, rebased: bool, carried: Option<Views>)
    requires PartWell(defs, part) && (carried.Some? ==> Covers(defs, carried.value.Keys))
    ensures StoredViews(part, rebased, carried).Some? ==> Covers(defs, StoredViews(part, rebased, carried).value.Keys)
  {
  }

  lemma SentIsWell(db: Database, parts: map<string, Part>, edits: seq<TableEdit>)
    requires Sends(db, parts, edits)
    ensures SentWell(edits)
  {
    forall te | te in edits ensures !te.ChangesSchema() {
      var i :| 0 <= i < |edits| && edits[i] == te;
      assert SendsOne(db, parts, edits[i]);
    }
  }

  lemma CarriedWell(db: Database, w: World, process: nat, table: string)
    requires forall p :: p in w.caches ==> CacheWell(db, w, w.caches[p])
    ensures CarriedFor(w, process, table).Some? ==> table in db && Covers(db[table], CarriedFor(w, process, table).value.Keys)
  {
    if process in w.caches { assert CacheWell(db, w, w.caches[process]); }
  }

  lemma StoreInWell(db: Database, w: World, tx: Tx, after: World)
    requires TxWell(db, w, tx) && (forall p :: p in w.caches ==> CacheWell(db, w, w.caches[p]))
    requires after.caches == StoreIn(w, tx) && |after.history| == |w.history| + 1
    ensures forall p :: p in after.caches ==> (p in w.caches && after.caches[p] == w.caches[p]) || CacheWell(db, after, after.caches[p])
  {
    forall table | table in tx.parts
      ensures var views := StoredViews(tx.parts[table], tx.base != |w.history|, CarriedFor(w, tx.process, table));
              views.Some? ==> table in db && Covers(db[table], views.value.Keys)
    {
      CarriedWell(db, w, tx.process, table);
      StoredWell(db[table], tx.parts[table], tx.base != |w.history|, CarriedFor(w, tx.process, table));
    }
  }

  lemma RememberedWell(db: Database, w: World, tx: Tx, after: World)
    requires TxWell(db, w, tx) && (forall p :: p in w.caches ==> CacheWell(db, w, w.caches[p]))
    requires after.caches == Remembered(w, tx) && after.history == w.history
    ensures forall p :: p in after.caches ==> (p in w.caches && after.caches[p] == w.caches[p]) || CacheWell(db, after, after.caches[p])
  {
    if tx.process in w.caches { assert CacheWell(db, w, w.caches[tx.process]); }
    forall table | table in tx.parts && tx.parts[table].indexes.Some?
      ensures table in db && Covers(db[table], ViewsOf(tx.parts[table].indexes.value).Keys)
    {
      assert PartWell(db[table], tx.parts[table]);
      assert ViewsOf(tx.parts[table].indexes.value).Keys == tx.parts[table].indexes.value.Keys;
    }
  }

  lemma SendWell(db: Database, w: World, id: nat, edits: seq<TableEdit>)
    requires Well(db, w) && id in w.open && Sends(db, w.open[id].parts, edits)
    ensures Well(db, SentWorld(db, w, id, edits))
  {
    var tx, after := w.open[id], SentWorld(db, w, id, edits);
    assert TxWell(db, w, tx);
    SentIsWell(db, tx.parts, edits);
    StoreInWell(db, w, tx, after);
    ClosedWell(db, w, id, after.rows, after.history, after.caches);
  }

  lemma LeaveWell(db: Database, w: World, id: nat)
    requires Well(db, w) && Allowed(db, w, Leave(id))
    ensures Well(db, Next(db, w, Leave(id)))
  {
    var tx, after := w.open[id], Next(db, w, Leave(id));
    assert TxWell(db, w, tx);
    RememberedWell(db, w, tx, after);
    ClosedWell(db, w, id, after.rows, after.history, after.caches);
  }

  lemma DeriveWell(db: Database, w: World, id: nat, table: string, views: Views)
    requires Well(db, w) && Allowed(db, w, Derive(id, table, views))
    ensures Well(db, Next(db, w, Derive(id, table, views)))
  {
    assert TxWell(db, w, w.open[id]);
    PartReplaced(db, w, w.open[id], table, DerivedTx(w.open[id], table, views).parts[table]);
    OpenedWell(db, w, id, DerivedTx(w.open[id], table, views));
  }

  lemma EditWell(db: Database, w: World, id: nat, table: string, op: Op)
    requires Well(db, w) && Allowed(db, w, Edit(id, table, op))
    ensures Well(db, Next(db, w, Edit(id, table, op)))
  {
    var tx := w.open[id];
    assert TxWell(db, w, tx);
    EditedWell(db[table], RowsAt(w, tx.base, table), tx.parts[table], op);
    PartReplaced(db, w, tx, table, Edited(db[table], RowsAt(w, tx.base, table), tx.parts[table], op));
    OpenedWell(db, w, id, EditedTx(db, w, tx, table, op));
  }

  lemma NextWell(db: Database, w: World, step: Step)
    requires Well(db, w) && Allowed(db, w, step)
    ensures Well(db, Next(db, w, step))
  {
    match step
    case Start(id, process) =>
      BegunWell(db, w, process);
      OpenedWell(db, w, id, Begun(db, w, process));
    case Derive(id, table, views) => DeriveWell(db, w, id, table, views);
    case Edit(id, table, op) => EditWell(db, w, id, table, op);
    case Send(id, edits) => SendWell(db, w, id, edits);
    case Leave(id) => LeaveWell(db, w, id);
  }

  lemma NextGood(db: Database, w: World, step: Step)
    requires WellNamed(db) && Well(db, w) && AllGood(db, w) && Allowed(db, w, step) && QuietStep(w, step)
    ensures AllGood(db, Next(db, w, step))
  {
    forall process, table, name | table in db && name in db[table]
      ensures Good(db[table][name], table, Seen(Next(db, w, step), process, table, name))
    {
      assert Good(db[table][name], table, Seen(w, process, table, name));
      match step
      case Start(id, starting) => StartSeen(db, w, id, starting, process, table, name);
      case Derive(id, derived, views) => DeriveSeen(db, w, id, derived, views, process, table, name);
      case Edit(id, edited, op) => EditSeen(db, w, id, edited, op, process, table, name);
      case Send(id, edits) => SendSeen(db, w, id, edits, process, table, name);
      case Leave(id) => LeaveSeen(db, w, id, process, table, name);
    }
  }

  function Opened(rows: map<string, map<Key, Row>>): World { World([rows], [], map[], map[]) }

  ghost function Plays(db: Database, rows: map<string, map<Key, Row>>, steps: seq<Step>): Option<World>
    ensures Plays(db, rows, steps).Some? ==> |Plays(db, rows, steps).value.rows| == |Plays(db, rows, steps).value.history| + 1
  {
    if steps == [] then Some(Opened(rows))
    else
      match Plays(db, rows, steps[..|steps| - 1])
      case None => None
      case Some(w) => if Allowed(db, w, steps[|steps| - 1]) then Some(Next(db, w, steps[|steps| - 1])) else None
  }

  /** No commit of the run misses an entry. */
  ghost predicate QuietSteps(db: Database, rows: map<string, map<Key, Row>>, steps: seq<Step>) {
    forall n :: 0 <= n < |steps| ==> QuietStepAt(db, rows, steps, n)
  }

  ghost predicate QuietStepAt(db: Database, rows: map<string, map<Key, Row>>, steps: seq<Step>, n: nat)
    requires n < |steps|
  {
    Plays(db, rows, steps[..n]).Some? ==> QuietStep(Plays(db, rows, steps[..n]).value, steps[n])
  }

  /** The rows respect every index of every table. */
  ghost predicate Respected(db: Database, rows: map<string, map<Key, Row>>) {
    forall table, name :: table in db && name in db[table] ==> Distinct(db[table][name], if table in rows then rows[table] else map[])
  }

  lemma OpenedGoodly(db: Database, rows: map<string, map<Key, Row>>)
    requires Respected(db, rows)
    ensures Well(db, Opened(rows)) && AllGood(db, Opened(rows))
  {
    forall process, table, name | table in db && name in db[table] ensures Good(db[table][name], table, Seen(Opened(rows), process, table, name)) {
      assert Seen(Opened(rows), process, table, name).rows == [if table in rows then rows[table] else map[]];
    }
  }

  lemma QuietStart(db: Database, rows: map<string, map<Key, Row>>, steps: seq<Step>)
    requires QuietSteps(db, rows, steps) && steps != []
    ensures QuietSteps(db, rows, steps[..|steps| - 1]) && QuietStepAt(db, rows, steps, |steps| - 1)
  {
    var n := |steps| - 1;
    forall i | 0 <= i < n ensures QuietStepAt(db, rows, steps[..n], i) {
      assert QuietStepAt(db, rows, steps, i) && steps[..n][..i] == steps[..i];
    }
  }

  /** In every run without such commits, of any processes over any tables and indexes: a cached table has all its indexes,
      and through every index of every table all is good. */
  lemma {:induction false} DatabaseStaysUnique(db: Database, rows: map<string, map<Key, Row>>, steps: seq<Step>)
    requires WellNamed(db) && Respected(db, rows) && Plays(db, rows, steps).Some? && QuietSteps(db, rows, steps)
    ensures Well(db, Plays(db, rows, steps).value) && AllGood(db, Plays(db, rows, steps).value)
  {
    if steps == [] {
      OpenedGoodly(db, rows);
    } else {
      var n := |steps| - 1;
      QuietStart(db, rows, steps);
      DatabaseStaysUnique(db, rows, steps[..n]);
      var w := Plays(db, rows, steps[..n]).value;
      NextWell(db, w, steps[n]);
      NextGood(db, w, steps[n]);
    }
  }

  /** So the rows of every generation respect every index. */
  lemma GenerationsRespected(db: Database, w: World, n: nat)
    requires AllGood(db, w) && n < |w.rows|
    ensures Respected(db, w.rows[n])
  {
    forall table, name | table in db && name in db[table] ensures Distinct(db[table][name], RowsAt(w, n, table)) {
      assert Good(db[table][name], table, Seen(w, 0, table, name));
      assert Seen(w, 0, table, name).rows[n] == RowsAt(w, n, table);
    }
  }

  // What is cached at all.

  /** The process has the table's views for the current generation. */
  predicate CachedNow(w: World, process: nat, table: string) {
    process in w.caches && w.caches[process].generation == |w.history| && table in w.caches[process].tables
  }

  lemma CarriedNow(w: World, process: nat, table: string)
    ensures CarriedFor(w, process, table).Some? <==> CachedNow(w, process, table)
  {
  }

  lemma StoredSome(defs: map<string, IndexDef>, part: Part, rebased: bool, carried: Option<Views>)
    requires PartWell(defs, part) && (carried.Some? ==> Covers(defs, carried.value.Keys))
    ensures StoredViews(part, rebased, carried).Some? <==>
              if rebased then carried.Some? && (part.edits == map[] || part.indexes.Some?)
              else part.indexes.Some? || (part.edits == map[] && carried.Some?)
  {
  }

  /** The caches a commit leaves, looked at for one table. */
  lemma StoreInIs(db: Database, w: World, tx: Tx, table: string, after: World)
    requires after.caches == StoreIn(w, tx) && |after.history| == |w.history| + 1 && table in tx.parts
    requires tx.process in w.caches ==> w.caches[tx.process].generation <= |w.history|
    ensures CachedNow(after, tx.process, table) <==>
              && (tx.base == |w.history| || Carried(w, tx.process).Some?)
              && StoredViews(tx.parts[table], tx.base != |w.history|, CarriedFor(w, tx.process, table)).Some?
  {
  }

  lemma BegunIs(db: Database, w: World, process: nat, table: string)
    requires table in db
    ensures Begun(db, w, process).parts[table].indexes.Some? <==> CachedNow(w, process, table)
  {
  }

  /** A commit leaves its process the views of exactly these tables, for the generation it made: on its own snapshot, those with
      derived index edits, and those it left alone and the process had; on a later generation, of those the process had, the
      ones it left alone or derived. A transaction that starts then finds them. */
  lemma CachedExactly(db: Database, w: World, id: nat, edits: seq<TableEdit>, table: string)
    requires Well(db, w) && id in w.open && table in db
    ensures var tx, after := w.open[id], SentWorld(db, w, id, edits);
            var part, had := tx.parts[table], CachedNow(w, tx.process, table);
            && (CachedNow(after, tx.process, table) <==>
                  if tx.base == |w.history| then part.indexes.Some? || (part.edits == map[] && had)
                  else had && (part.edits == map[] || part.indexes.Some?))
            && (Begun(db, after, tx.process).parts[table].indexes.Some? <==> CachedNow(after, tx.process, table))
  {
    var tx, after := w.open[id], SentWorld(db, w, id, edits);
    assert TxWell(db, w, tx) && PartWell(db[table], tx.parts[table]);
    if tx.process in w.caches { assert CacheWell(db, w, w.caches[tx.process]); }
    CarriedWell(db, w, tx.process, table);
    CarriedNow(w, tx.process, table);
    StoredSome(db[table], tx.parts[table], tx.base != |w.history|, CarriedFor(w, tx.process, table));
    StoreInIs(db, w, tx, table, after);
    BegunIs(db, after, tx.process, table);
  }

  predicate CachedFor(caches: map<nat, Cached>, process: nat, generation: nat, table: string) {
    process in caches && caches[process].generation == generation && table in caches[process].tables
  }

  predicate Derived(tx: Tx, table: string) { table in tx.parts && tx.parts[table].indexes.Some? }

  /** A clean transaction leaves its process the views it derived beside those cached for its generation, which stay as they are;
      one that derived none leaves the cache alone. */
  lemma RememberedExactly(w: World, tx: Tx, table: string)
    ensures var after, had := Remembered(w, tx), CachedFor(w.caches, tx.process, tx.base, table);
            && (CachedFor(after, tx.process, tx.base, table) <==> had || Derived(tx, table))
            && (had ==> after[tx.process].tables[table] == w.caches[tx.process].tables[table])
            && (!had && Derived(tx, table) ==> after[tx.process].tables[table] == ViewsOf(tx.parts[table].indexes.value))
    ensures (forall t :: !Derived(tx, t)) ==> Remembered(w, tx) == w.caches
  {
    var kept := if tx.process in w.caches && w.caches[tx.process].generation == tx.base then w.caches[tx.process].tables else map[];
    var derived := map t | t in tx.parts && tx.parts[t].indexes.Some? :: ViewsOf(tx.parts[t].indexes.value);
    assert forall t :: t in derived <==> Derived(tx, t);
    assert Remembered(w, tx) == if derived == map[] then w.caches else w.caches[tx.process := Cached(tx.base, derived + kept)];
    if derived == map[] { assert !Derived(tx, table) by { assert table !in derived; } }
  }
}
