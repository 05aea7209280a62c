/** Three-way merge of tables (`engine/merge.go`): a streaming merge of three row iterators refines a choice made
    key by key. */
module RowMerge {
  import opened Bytes
  import opened Sequences
  import opened Overlays
  import opened Sorting
  import opened Prolly
  import opened EditMerge
  import opened ProllyReads
  import opened ProllyIterators

  type Blob = seq<byte>

  datatype Resolution = TakeBase | TakeLocal | TakeRemote | TakeDelete | Unknown

  /** What becomes of one key. */
  datatype Choice = Take(value: Option<Blob>) | Conflict | Invalid

  /** The choice at one key: both sides agree, one side left the base alone, or a resolution decides. */
  function Choose(b: Option<Blob>, l: Option<Blob>, r: Option<Blob>, resolution: Option<Resolution>): Choice {
    if l == r then Take(l)
    else if l == b then Take(r)
    else if r == b then Take(l)
    else match resolution
         case None => Conflict
         case Some(TakeBase) => Take(b)
         case Some(TakeLocal) => Take(l)
         case Some(TakeRemote) => Take(r)
         case Some(TakeDelete) => Take(None)
         case Some(Unknown) => Invalid
  }

  /** A conflict is exactly three versions that differ pairwise, and no resolution. */
  lemma ConflictIsPairwise(b: Option<Blob>, l: Option<Blob>, r: Option<Blob>, resolution: Option<Resolution>)
    ensures Choose(b, l, r, resolution) == Conflict <==> b != l && l != r && r != b && resolution.None?
    ensures Choose(b, l, r, resolution) == Invalid <==> b != l && l != r && r != b && resolution == Some(Unknown)
  {
  }

  type Resolutions = map<Key, Resolution>

  function Resolved(res: Resolutions, k: Key): Option<Resolution> { if k in res then Some(res[k]) else None }

  datatype RowConflict = RowConflict(key: Key, base: Option<Blob>, local: Option<Blob>, remote: Option<Blob>)

  function ConflictKey(c: RowConflict): Key { c.key }

  // The streaming merge, on what the three cursors still hold.

  function Smaller(a: Option<Key>, rest: seq<Entry>): Option<Key> {
    if rest != [] && (a.None? || Less(rest[0].key, a.value)) then Some(rest[0].key) else a
  }

  function Least(bs: seq<Entry>, ls: seq<Entry>, rs: seq<Entry>): Option<Key> { Smaller(Smaller(Smaller(None, bs), ls), rs) }

  function Head(es: seq<Entry>, k: Key): Option<Blob> { if es != [] && es[0].key == k then Some(es[0].value) else None }

  function Tail(es: seq<Entry>, k: Key): seq<Entry> { if es != [] && es[0].key == k then es[1..] else es }

  datatype Merged = Merged(entries: seq<Entry>, conflicts: seq<RowConflict>) | Refused(key: Key)

  function Emitted(k: Key, c: Choice): seq<Entry> { if c.Take? && c.value.Some? then [Entry(k, c.value.value)] else [] }

  function Conflicting(k: Key, c: Choice, b: Option<Blob>, l: Option<Blob>, r: Option<Blob>): seq<RowConflict> {
    if c.Conflict? then [RowConflict(k, b, l, r)] else []
  }

  function Behind(entries: seq<Entry>, conflicts: seq<RowConflict>, rest: Merged): Merged {
    if rest.Refused? then rest else Merged(entries + rest.entries, conflicts + rest.conflicts)
  }

  function MergeFrom(bs: seq<Entry>, ls: seq<Entry>, rs: seq<Entry>, res: Resolutions): Merged
    decreases |bs| + |ls| + |rs|
  {
    match Least(bs, ls, rs)
    case None => Merged([], [])
    case Some(k) =>
      var b, l, r := Head(bs, k), Head(ls, k), Head(rs, k);
      var c := Choose(b, l, r, Resolved(res, k));
      if c.Invalid? then Refused(k)
      else Behind(Emitted(k, c), Conflicting(k, c, b, l, r), MergeFrom(Tail(bs, k), Tail(ls, k), Tail(rs, k), res))
  }

  /** `rowCursor`. An absent version has none. */
  class RowCursor {
    const rows: Iterator?
    var entry: Option<Entry>

    ghost predicate Valid()
      reads this, rows
    {
      (rows != null ==> rows.Valid()) && (entry.None? ==> rows == null || rows.Rest() == [])
    }

    ghost function Rest(): seq<Entry>
      requires Valid()
      reads this, rows
    {
      if entry.None? then [] else [entry.value] + if rows == null then [] else rows.Rest()
    }

    constructor (root: Option<Node>)
      requires root.Some? ==> WellLinked(root.value)
      ensures Valid() && fresh(this) && (rows != null ==> fresh(rows))
      ensures Rest() == if root.None? then [] else EntriesOf(root.value)
    {
      var it: Iterator? := null;
      if root.Some? { it := new Iterator.All(root.value); }
      rows, entry := it, None;
      new;
      if rows != null {
        ghost var all := rows.Rest();
        entry := rows.Next();
        if all != [] { assert all == [all[0]] + all[1..]; }
      }
    }

    method Advance()
      requires Valid() && entry.Some?
      modifies this, rows
      ensures Valid() && Rest() == old(Rest())[1..]
    {
      entry := None;
      if rows != null {
        ghost var all := rows.Rest();
        entry := rows.Next();
        if all != [] { assert all == [all[0]] + all[1..]; }
      }
    }

    /** The value at a key, and past it. */
    method Pass(k: Key) returns (value: Option<Blob>)
      requires Valid()
      modifies this, rows
      ensures Valid() && value == Head(old(Rest()), k) && Rest() == Tail(old(Rest()), k)
    {
      value := None;
      if entry.Some? && entry.value.key == k {
        value := Some(entry.value.value);
        Advance();
      }
    }
  }

  /** The three cursors of a merge, on iterators of their own. */
  class Cursors {
    const base: RowCursor
    const local: RowCursor
    const remote: RowCursor

    ghost predicate Valid()
      reads this, base, local, remote, base.rows, local.rows, remote.rows
    {
      && base.Valid() && local.Valid() && remote.Valid()
      && base != local && local != remote && base != remote
      && (base.rows != null ==> base.rows != local.rows && base.rows != remote.rows)
      && (local.rows != null ==> local.rows != remote.rows)
    }

    constructor (base: Option<Node>, local: Option<Node>, remote: Option<Node>)
      requires base.Some? ==> WellLinked(base.value)
      requires local.Some? ==> WellLinked(local.value)
      requires remote.Some? ==> WellLinked(remote.value)
      ensures Valid() && this.base.Rest() == RowsOf(base) && this.local.Rest() == RowsOf(local) && this.remote.Rest() == RowsOf(remote)
      ensures fresh(this.base) && fresh(this.local) && fresh(this.remote)
      ensures this.base.rows != null ==> fresh(this.base.rows)
      ensures this.local.rows != null ==> fresh(this.local.rows)
      ensures this.remote.rows != null ==> fresh(this.remote.rows)
    {
      this.base := new RowCursor(base);
      this.local := new RowCursor(local);
      this.remote := new RowCursor(remote);
    }

    /** The least key any cursor stands on. */
    method Key() returns (key: Option<Key>)
      requires Valid()
      ensures key == Least(base.Rest(), local.Rest(), remote.Rest())
    {
      key := None;
      if base.entry.Some? { key := Some(base.entry.value.key); }
      if local.entry.Some? && (key.None? || Less(local.entry.value.key, key.value)) { key := Some(local.entry.value.key); }
      if remote.entry.Some? && (key.None? || Less(remote.entry.value.key, key.value)) { key := Some(remote.entry.value.key); }
    }

    method Pass(k: Key) returns (b: Option<Blob>, l: Option<Blob>, r: Option<Blob>)
      requires Valid()
      modifies base, local, remote, base.rows, local.rows, remote.rows
      ensures Valid()
      ensures b == Head(old(base.Rest()), k) && base.Rest() == Tail(old(base.Rest()), k)
      ensures l == Head(old(local.Rest()), k) && local.Rest() == Tail(old(local.Rest()), k)
      ensures r == Head(old(remote.Rest()), k) && remote.Rest() == Tail(old(remote.Rest()), k)
    {
      b := base.Pass(k);
      l := local.Pass(k);
      r := remote.Pass(k);
    }

    /** What the merge of all that is left gives. */
    ghost function Left(res: Resolutions): Merged
      requires Valid()
      reads this, base, local, remote, base.rows, local.rows, remote.rows
    {
      MergeFrom(base.Rest(), local.Rest(), remote.Rest(), res)
    }

    ghost function Size(): nat
      requires Valid()
      reads this, base, local, remote, base.rows, local.rows, remote.rows
    {
      |base.Rest()| + |local.Rest()| + |remote.Rest()|
    }

    /** One round of the loop: the choice at the least key. */
    method Round(res: Resolutions) returns (key: Option<Key>, c: Choice, conflict: RowConflict)
      requires Valid()
      modifies base, local, remote, base.rows, local.rows, remote.rows
      ensures Valid()
      ensures key.None? ==> old(Left(res)) == Merged([], [])
      ensures key.Some? ==> Size() < old(Size()) && conflict.key == key.value
      ensures key.Some? ==> old(Left(res)) == if c.Invalid? then Refused(key.value)
                                              else Behind(Emitted(key.value, c), if c.Conflict? then [conflict] else [], Left(res))
    {
      key := Key();
      c, conflict := Conflict, RowConflict([], None, None, None);
      if key.None? { return; }
      LeastShrinks(base.Rest(), local.Rest(), remote.Rest(), key.value);
      var b, l, r := Pass(key.value);
      c, conflict := Choose(b, l, r, Resolved(res, key.value)), RowConflict(key.value, b, l, r);
    }
  }

  /** `mergeRows`. */
  method MergeRows(base: Option<Node>, local: Option<Node>, remote: Option<Node>, res: Resolutions) returns (m: Merged)
    requires base.Some? ==> WellLinked(base.value)
    requires local.Some? ==> WellLinked(local.value)
    requires remote.Some? ==> WellLinked(remote.value)
    ensures m == MergeFrom(RowsOf(base), RowsOf(local), RowsOf(remote), res)
  {
    var cursors := new Cursors(base, local, remote);
    m := MergeCursors(cursors, res);
  }

  method MergeCursors(cursors: Cursors, res: Resolutions) returns (m: Merged)
    requires cursors.Valid()
    modifies cursors.base, cursors.local, cursors.remote, cursors.base.rows, cursors.local.rows, cursors.remote.rows
    ensures m == old(cursors.Left(res))
  {
    var entries: seq<Entry>, conflicts: seq<RowConflict> := [], [];
    ghost var all := cursors.Left(res);
    BehindNothing(all);
    while true
      invariant cursors.Valid() && all == Behind(entries, conflicts, cursors.Left(res))
      decreases cursors.Size()
    {
      var key, c, conflict := cursors.Round(res);
      if key.None? { break; }
      if c.Invalid? { return Refused(key.value); }
      BehindTwice(entries, conflicts, Emitted(key.value, c), if c.Conflict? then [conflict] else [], cursors.Left(res));
      conflicts := conflicts + if c.Conflict? then [conflict] else [];
      entries := entries + Emitted(key.value, c);
    }
    assert entries + [] == entries && conflicts + [] == conflicts;
    m := Merged(entries, conflicts);
  }

  function RowsOf(root: Option<Node>): seq<Entry> { if root.None? then [] else EntriesOf(root.value) }

  lemma BehindNothing(m: Merged)
    ensures Behind([], [], m) == m
  {
    if m.Merged? { assert [] + m.entries == m.entries && [] + m.conflicts == m.conflicts; }
  }

  lemma BehindTwice(es: seq<Entry>, cs: seq<RowConflict>, e: seq<Entry>, c: seq<RowConflict>, rest: Merged)
    ensures Behind(es, cs, Behind(e, c, rest)) == Behind(es + e, cs + c, rest)
  {
    if rest.Merged? {
      Regroup(es, e, rest.entries);
      Regroup(cs, c, rest.conflicts);
    }
  }

  lemma LeastShrinks(bs: seq<Entry>, ls: seq<Entry>, rs: seq<Entry>, k: Key)
    requires Least(bs, ls, rs) == Some(k)
    ensures |Tail(bs, k)| + |Tail(ls, k)| + |Tail(rs, k)| < |bs| + |ls| + |rs|
  {
  }
}
