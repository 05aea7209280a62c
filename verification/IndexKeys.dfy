/** The keys of `encodeIndexKey` as an index definition: what the index theorems ask of a definition holds of them. */
module IndexKeys {
  import opened Bytes
  import opened Overlays
  import opened IndexAgreement
  import KeyCodec

  /** A column of an index: where its cell lies in a row, and its type. */
  datatype KeyColumn = KeyColumn(ordinal: nat, column: KeyCodec.Column)

  /** How the bytes of a cell are read as a value of its column. */
  type Reader = (KeyCodec.Column, seq<byte>) -> KeyCodec.Value

  /** The index's cells of a row; a missing one is NULL. */
  function CellsOf(columns: seq<KeyColumn>, read: Reader, row: Row): seq<KeyCodec.Cell> {
    seq(|columns|, i requires 0 <= i < |columns| =>
      var c := columns[i];
      if c.ordinal < |row| && row[c.ordinal].Some? then Some(read(c.column, row[c.ordinal].value)) else None)
  }

  function TypesOf(columns: seq<KeyColumn>): seq<KeyCodec.Column> {
    seq(|columns|, i requires 0 <= i < |columns| => columns[i].column)
  }

  /** The row has a key: its cells are of their columns' types and none is refused. */
  ghost predicate Keyed(columns: seq<KeyColumn>, unique: bool, read: Reader, row: Row) {
    var cs, xs := TypesOf(columns), CellsOf(columns, read, row);
    KeyCodec.AllFit(cs, xs) && KeyCodec.IndexKey(cs, xs, [], unique).Some?
  }

  /** The key `encodeIndexKey` gives. Rows without one are refused before they are written; they get keys apart from
      all others. */
  ghost function KeyOf(columns: seq<KeyColumn>, unique: bool, read: Reader, row: Row, pk: Key): Key {
    if Keyed(columns, unique, read, row) then
      var key := KeyCodec.IndexKey(TypesOf(columns), CellsOf(columns, read, row), pk, unique);
      if key.Some? then key.value else []
    else [0x02] + pk
  }

  ghost predicate NullIn(columns: seq<KeyColumn>, unique: bool, read: Reader, row: Row) {
    !Keyed(columns, unique, read, row) || KeyCodec.HasNull(CellsOf(columns, read, row))
  }

  ghost function DefOf(name: string, columns: seq<KeyColumn>, unique: bool, read: Reader): IndexDef {
    IndexDef(name, unique, (row: Row, pk: Key) => KeyOf(columns, unique, read, row, pk), (row: Row) => NullIn(columns, unique, read, row))
  }

  /** A keyed row's key is the encoded one under every primary key, and starts with a marker. */
  lemma KeyedKey(columns: seq<KeyColumn>, unique: bool, read: Reader, row: Row, pk: Key)
    requires columns != [] && Keyed(columns, unique, read, row)
    ensures var key := KeyCodec.IndexKey(TypesOf(columns), CellsOf(columns, read, row), pk, unique);
            && key == Some(KeyOf(columns, unique, read, row, pk))
            && key.value != [] && key.value[0] <= 1
  {
  }

  lemma UnkeyedKey(columns: seq<KeyColumn>, unique: bool, read: Reader, row: Row, pk: Key)
    requires !Keyed(columns, unique, read, row)
    ensures var key := KeyOf(columns, unique, read, row, pk);
            key != [] && key[0] == 2 && key[1..] == pk
  {
  }

  lemma KeysSeparate(columns: seq<KeyColumn>, unique: bool, read: Reader, r: Row, p: Key, s: Row, q: Key)
    requires columns != [] && p != q && KeyOf(columns, unique, read, r, p) == KeyOf(columns, unique, read, s, q)
    ensures unique && !NullIn(columns, unique, read, r) && !NullIn(columns, unique, read, s)
  {
    if Keyed(columns, unique, read, r) { KeyedKey(columns, unique, read, r, p); } else { UnkeyedKey(columns, unique, read, r, p); }
    if Keyed(columns, unique, read, s) { KeyedKey(columns, unique, read, s, q); } else { UnkeyedKey(columns, unique, read, s, q); }
    if Keyed(columns, unique, read, r) && Keyed(columns, unique, read, s) {
      KeyCodec.IndexKeysSeparate(TypesOf(columns), CellsOf(columns, read, r), p, CellsOf(columns, read, s), q, unique);
    }
  }

  /** What every index theorem asks holds of the encoded keys, whatever the columns, and their order and collations. */
  lemma EncodedKeysQualify(name: string, columns: seq<KeyColumn>, unique: bool, read: Reader)
    requires columns != []
    ensures var def := DefOf(name, columns, unique, read);
            Separates(def) && SharesKeys(def) && NonEmptyKeys(def)
  {
    var def := DefOf(name, columns, unique, read);
    forall r: Row, p: Key, s: Row, q: Key | def.key(r, p) == def.key(s, q) && p != q
      ensures def.unique && !def.hasNull(r) && !def.hasNull(s)
    {
      KeysSeparate(columns, unique, read, r, p, s, q);
    }
    forall r: Row, p: Key, q: Key | def.unique && !def.hasNull(r) ensures def.key(r, p) == def.key(r, q) {
      KeyedKey(columns, unique, read, r, p);
      KeyedKey(columns, unique, read, r, q);
    }
    forall r: Row, p: Key ensures def.key(r, p) != [] {
      if Keyed(columns, unique, read, r) { KeyedKey(columns, unique, read, r, p); }
    }
  }
}
