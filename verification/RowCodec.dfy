/** Stored rows (`engine/rowcodec.go`): width, NULL bitmap and cells; reading all of a row, or only some columns. */
module RowCodec {
  import opened Bytes
  import opened Overlays
  import opened Sequences
  import opened Varints
  import opened RowCells

  type Row = seq<Option<Value>>

  type Schema = seq<Type>

  ghost predicate RowFits(schema: Schema, row: Row) {
    |row| == |schema| && forall i :: 0 <= i < |row| && row[i].Some? ==> Fits(schema[i], row[i].value)
  }

  // The NULL bitmap.

  /** `b & (1 << j) != 0`. */
  predicate Bit(b: nat, j: nat) { if j == 0 then b % 2 == 1 else Bit(b / 2, j - 1) }

  /** `b | (1 << j)`. */
  function WithBit(b: nat, j: nat): nat { if j == 0 then 2 * (b / 2) + 1 else 2 * WithBit(b / 2, j - 1) + b % 2 }

  lemma {:induction false} BitSet(b: nat, j: nat, k: nat)
    ensures Bit(WithBit(b, j), k) <==> j == k || Bit(b, k)
    decreases j + k
  {
    if j > 0 && k > 0 {
      BitSet(b / 2, j - 1, k - 1);
      assert WithBit(b, j) / 2 == WithBit(b / 2, j - 1);
    }
  }

  lemma {:induction false} BitInByte(b: nat, j: nat, width: nat)
    requires j < width && b < TwoTo(width)
    ensures WithBit(b, j) < TwoTo(width)
    decreases j
  {
    if j > 0 { BitInByte(b / 2, j - 1, width - 1); }
  }

  function TwoTo(n: nat): nat { if n == 0 then 1 else 2 * TwoTo(n - 1) }

  lemma ByteIs8()
    ensures TwoTo(8) == 256
  {
    assert TwoTo(4) == 2 * TwoTo(3) == 4 * TwoTo(2) == 8 * TwoTo(1);
    assert TwoTo(8) == 2 * TwoTo(7) == 4 * TwoTo(6) == 8 * TwoTo(5);
  }

  function Marked(b: byte, j: nat): byte
    requires j < 8
  {
    ByteIs8();
    BitInByte(b, j, 8);
    WithBit(b, j)
  }

  function BitmapSize(width: nat): nat { (width + 7) / 8 }

  /** The bitmap of the first `n` columns' NULLs. */
  function Bitmap(row: Row, n: nat): (m: seq<byte>)
    requires n <= |row|
    ensures |m| == BitmapSize(|row|)
  {
    if n == 0 then seq(BitmapSize(|row|), i => 0)
    else
      var m := Bitmap(row, n - 1);
      if row[n - 1].None? then m[(n - 1) / 8 := Marked(m[(n - 1) / 8], (n - 1) % 8)] else m
  }

  predicate IsNull(nulls: seq<byte>, i: nat)
    requires i / 8 < |nulls|
  {
    Bit(nulls[i / 8], i % 8)
  }

  lemma {:induction false} NoBit(j: nat)
    ensures !Bit(0, j)
  {
    if j > 0 { NoBit(j - 1); }
  }

  lemma {:induction false} BitmapHolds(row: Row, n: nat, i: nat)
    requires n <= |row| && i < |row|
    ensures IsNull(Bitmap(row, n), i) <==> i < n && row[i].None?
  {
    if n == 0 {
      NoBit(i % 8);
    } else {
      BitmapHolds(row, n - 1, i);
      var m := Bitmap(row, n - 1);
      if row[n - 1].None? {
        BitSet(m[(n - 1) / 8], (n - 1) % 8, i % 8);
        assert i / 8 == (n - 1) / 8 && i % 8 == (n - 1) % 8 <==> i == n - 1;
      }
    }
  }

  // Rows.

  /** The cells of the columns from `i` on. */
  function CellsFrom(schema: Schema, row: Row, i: nat): seq<byte>
    requires RowFits(schema, row) && i <= |row|
    decreases |row| - i
  {
    if i == |row| then []
    else if row[i].None? then CellsFrom(schema, row, i + 1)
    else CellBytes(schema[i], row[i].value) + CellsFrom(schema, row, i + 1)
  }

  function RowBytes(schema: Schema, row: Row): seq<byte>
    requires RowFits(schema, row)
  {
    Uvarint(|row|) + (Bitmap(row, |row|) + CellsFrom(schema, row, 0))
  }

  /** How one column's cell is read. */
  type Reader = seq<byte> -> Option<(Value, nat)>

  function ReaderOf(t: Type): Reader { (b: seq<byte>) => ReadCell(t, b) }

  /** How one column's cell is skipped. */
  type Skipper = seq<byte> -> Option<nat>

  function SkipperOf(t: Type): Skipper { (b: seq<byte>) => SkipCell(t, b) }

  function Skippers(schema: Schema): seq<Skipper> {
    seq(|schema|, i requires 0 <= i < |schema| => SkipperOf(schema[i]))
  }

  function Readers(schema: Schema): seq<Reader> {
    seq(|schema|, i requires 0 <= i < |schema| => ReaderOf(schema[i]))
  }

  /** The NULL flags of the columns. */
  function Flags(nulls: seq<byte>, width: nat): (f: seq<bool>)
    requires |nulls| == BitmapSize(width)
    ensures |f| == width
  {
    seq(width, i requires 0 <= i < width => IsNull(nulls, i))
  }

  /** The columns from `i` on, and how many bytes they took. */
  function ReadCells(readers: seq<Reader>, flags: seq<bool>, i: nat, b: seq<byte>): Option<(Row, nat)>
    requires i <= |readers| == |flags|
    decreases |readers| - i
  {
    if i == |readers| then Some(([], 0))
    else if flags[i] then Prefixed([None], 0, ReadCells(readers, flags, i + 1, b))
    else
      match readers[i](b)
      case None => None
      case Some(c) => if c.1 > |b| then None else Prefixed([Some(c.0)], c.1, ReadCells(readers, flags, i + 1, b[c.1..]))
  }

  function Prefixed(front: Row, n: nat, rest: Option<(Row, nat)>): Option<(Row, nat)> {
    match rest case None => None case Some(r) => Some((front + r.0, n + r.1))
  }

  /** What comes before the cells: the bitmap, and where the cells start. */
  function ReadHead(schema: Schema, data: seq<byte>): (r: Option<(seq<byte>, nat)>)
    ensures r.Some? ==> |r.value.0| == BitmapSize(|schema|) && r.value.1 <= |data|
  {
    match ReadUvarint(data)
    case None => None
    case Some(w) =>
      ReadTakes(data, 0);
      if w.0 != |schema| || |data| - w.1 < BitmapSize(|schema|) then None
      else Some((data[w.1..w.1 + BitmapSize(|schema|)], w.1 + BitmapSize(|schema|)))
  }

  /** `decodeRow`. */
  function RowOf(schema: Schema, data: seq<byte>): Option<Row> {
    match ReadHead(schema, data)
    case None => None
    case Some(h) =>
      match ReadCells(Readers(schema), Flags(h.0, |schema|), 0, data[h.1..])
      case None => None
      case Some(r) => if h.1 + r.1 == |data| then Some(r.0) else None
  }

  // Round trip.

  function NormalRow(row: Row): Row {
    seq(|row|, i requires 0 <= i < |row| => if row[i].None? then None else Some(Normal(row[i].value)))
  }

  lemma {:induction false} CellsRoundTrip(schema: Schema, row: Row, flags: seq<bool>, i: nat)
    requires RowFits(schema, row) && i <= |row| == |flags| && forall j :: 0 <= j < |row| ==> flags[j] == row[j].None?
    ensures ReadCells(Readers(schema), flags, i, CellsFrom(schema, row, i)) == Some((NormalRow(row)[i..], |CellsFrom(schema, row, i)|))
    decreases |row| - i
  {
    if i < |row| {
      CellsRoundTrip(schema, row, flags, i + 1);
      HeadOfNormal(row, i);
      if row[i].Some? {
        var cell, rest := CellBytes(schema[i], row[i].value), CellsFrom(schema, row, i + 1);
        ReaderRoundTrip(schema[i], row[i].value, rest);
        OneMore(Readers(schema), flags, i, cell, rest, Normal(row[i].value), NormalRow(row)[i + 1..]);
      }
    }
  }

  lemma HeadOfNormal(row: Row, i: nat)
    requires i < |row|
    ensures NormalRow(row)[i..] == [if row[i].None? then None else Some(Normal(row[i].value))] + NormalRow(row)[i + 1..]
  {
  }

  lemma DropFront(a: seq<byte>, b: seq<byte>)
    ensures (a + b)[|a|..] == b
  {
  }

  lemma ReadOne(readers: seq<Reader>, flags: seq<bool>, i: nat, b: seq<byte>, c: (Value, nat))
    requires i < |readers| == |flags| && !flags[i] && readers[i](b) == Some(c) && c.1 <= |b|
    ensures ReadCells(readers, flags, i, b) == Prefixed([Some(c.0)], c.1, ReadCells(readers, flags, i + 1, b[c.1..]))
  {
  }

  lemma OneMore(readers: seq<Reader>, flags: seq<bool>, i: nat, cell: seq<byte>, rest: seq<byte>, v: Value, row: Row)
    requires i < |readers| == |flags| && !flags[i] && readers[i](cell + rest) == Some((v, |cell|))
    requires ReadCells(readers, flags, i + 1, rest) == Some((row, |rest|))
    ensures ReadCells(readers, flags, i, cell + rest) == Some(([Some(v)] + row, |cell + rest|))
  {
    DropFront(cell, rest);
    ReadOne(readers, flags, i, cell + rest, (v, |cell|));
  }

  lemma ReaderRoundTrip(t: Type, v: Value, rest: seq<byte>)
    requires Fits(t, v)
    ensures ReaderOf(t)(CellBytes(t, v) + rest) == Some((Normal(v), |CellBytes(t, v)|))
  {
    CellRoundTrip(t, v, rest);
  }

  lemma ThreeParts(a: seq<byte>, b: seq<byte>, c: seq<byte>)
    ensures var all := a + (b + c);
            all[|a|..|a| + |b|] == b && all[|a| + |b|..] == c && |all| == |a| + |b| + |c|
  {
  }

  lemma FlagsAreNulls(row: Row)
    ensures forall j :: 0 <= j < |row| ==> Flags(Bitmap(row, |row|), |row|)[j] == row[j].None?
  {
    forall j | 0 <= j < |row| ensures Flags(Bitmap(row, |row|), |row|)[j] == row[j].None? { BitmapHolds(row, |row|, j); }
  }

  lemma WholeRow(schema: Schema, data: seq<byte>, nulls: seq<byte>, start: nat, row: Row, n: nat, cells: seq<byte>)
    requires ReadHead(schema, data) == Some((nulls, start)) && |nulls| == BitmapSize(|schema|)
    requires start + n == |data| && cells == data[start..]
    requires ReadCells(Readers(schema), Flags(nulls, |schema|), 0, cells) == Some((row, n))
    ensures RowOf(schema, data) == Some(row)
  {
  }

  lemma AllCells(schema: Schema, row: Row)
    requires RowFits(schema, row)
    ensures var cells := CellsFrom(schema, row, 0);
            ReadCells(Readers(schema), Flags(Bitmap(row, |row|), |row|), 0, cells) == Some((NormalRow(row), |cells|))
  {
    FlagsAreNulls(row);
    CellsRoundTrip(schema, row, Flags(Bitmap(row, |row|), |row|), 0);
    assert NormalRow(row)[0..] == NormalRow(row);
  }

  /** Every row of every schema is read back, up to the sign of decimal zeros. */
  lemma RowRoundTrip(schema: Schema, row: Row)
    requires RowFits(schema, row) && |row| < TWO64
    ensures RowOf(schema, RowBytes(schema, row)) == Some(NormalRow(row))
  {
    var nulls, cells, data := Bitmap(row, |row|), CellsFrom(schema, row, 0), RowBytes(schema, row);
    var start := |Uvarint(|row|)| + |nulls|;
    HeadRoundTrip(schema, row);
    AllCells(schema, row);
    WholeRow(schema, data, nulls, start, NormalRow(row), |cells|, cells);
  }

  lemma HeadRoundTrip(schema: Schema, row: Row)
    requires RowFits(schema, row) && |row| < TWO64
    ensures var data, start := RowBytes(schema, row), |Uvarint(|row|)| + |Bitmap(row, |row|)|;
            && ReadHead(schema, data) == Some((Bitmap(row, |row|), start))
            && start + |CellsFrom(schema, row, 0)| == |data| && data[start..] == CellsFrom(schema, row, 0)
  {
    var nulls, cells := Bitmap(row, |row|), CellsFrom(schema, row, 0);
    UvarintRoundTrip(|row|, nulls + cells);
    ThreeParts(Uvarint(|row|), nulls, cells);
  }

  /** `encodeRow`. */
  method EncodeRow(schema: Schema, row: Row) returns (out: Option<seq<byte>>)
    requires |row| == |schema| ==> RowFits(schema, row)
    ensures out == if |row| != |schema| then None else Some(RowBytes(schema, row))
  {
    if |row| != |schema| { return None; }
    var nulls: seq<byte> := Bitmap(row, 0);
    var cells: seq<byte> := [];
    for i := 0 to |row|
      invariant Encoded(schema, row, i, nulls, cells)
    {
      EncodedOne(schema, row, i, nulls, cells);
      if row[i].None? {
        nulls := nulls[i / 8 := Marked(nulls[i / 8], i % 8)];
        continue;
      }
      cells := cells + CellBytes(schema[i], row[i].value);
    }
    assert cells + [] == cells;
    return Some(Uvarint(|row|) + (nulls + cells));
  }

  ghost predicate Encoded(schema: Schema, row: Row, i: nat, nulls: seq<byte>, cells: seq<byte>)
    requires RowFits(schema, row)
  {
    i <= |row| && nulls == Bitmap(row, i) && cells + CellsFrom(schema, row, i) == CellsFrom(schema, row, 0)
  }

  lemma EncodedOne(schema: Schema, row: Row, i: nat, nulls: seq<byte>, cells: seq<byte>)
    requires RowFits(schema, row) && i < |row| && Encoded(schema, row, i, nulls, cells)
    ensures i / 8 < |nulls|
    ensures if row[i].None? then Encoded(schema, row, i + 1, nulls[i / 8 := Marked(nulls[i / 8], i % 8)], cells)
            else Encoded(schema, row, i + 1, nulls, cells + CellBytes(schema[i], row[i].value))
  {
    if row[i].Some? { Regroup(cells, CellBytes(schema[i], row[i].value), CellsFrom(schema, row, i + 1)); }
  }

  // Reading in place.

  /** `rowDecoder`. */
  class RowDecoder {
    const data: seq<byte>
    var pos: nat

    ghost predicate Valid()
      reads this
    {
      pos <= |data|
    }

    constructor (data: seq<byte>, pos: nat)
      requires pos <= |data|
      ensures Valid() && this.data == data && this.pos == pos
    {
      this.data, this.pos := data, pos;
    }

    /** The bytes not yet read. */
    function Rest(): seq<byte>
      reads this
      requires Valid()
    {
      data[pos..]
    }

    /** `cell`, for a column read by `read`. */
    method Cell(read: Reader) returns (v: Option<Value>)
      requires Valid() && Bounded(read)
      modifies this
      ensures Valid()
      ensures v.Some? <==> read(old(Rest())).Some?
      ensures v.Some? ==> pos >= old(pos) && read(old(Rest())) == Some((v.value, pos - old(pos)))
      ensures v.Some? ==> pos - old(pos) <= |old(Rest())| && Rest() == old(Rest())[pos - old(pos)..]
    {
      var r := read(Rest());
      if r.None? { return None; }
      pos := pos + r.value.1;
      return Some(r.value.0);
    }

    /** `skip`, for a column skipped by `pass`. */
    method Skip(pass: Skipper) returns (ok: bool)
      requires Valid() && (pass(Rest()).Some? ==> pass(Rest()).value <= |Rest()|)
      modifies this
      ensures Valid()
      ensures ok <==> pass(old(Rest())).Some?
      ensures ok ==> pos >= old(pos) && pass(old(Rest())) == Some(pos - old(pos))
      ensures ok ==> pos - old(pos) <= |old(Rest())| && Rest() == old(Rest())[pos - old(pos)..]
    {
      var n := pass(Rest());
      if n.None? { return false; }
      pos := pos + n.value;
      return true;
    }
  }

  /** A reader takes no more than there is. */
  ghost predicate Bounded(read: Reader) {
    forall b {:trigger read(b)} :: read(b).Some? ==> read(b).value.1 <= |b|
  }

  ghost predicate AllBounded(readers: seq<Reader>) { forall i :: 0 <= i < |readers| ==> Bounded(readers[i]) }

  lemma ReadersBounded(schema: Schema)
    ensures AllBounded(Readers(schema))
  {
    forall i, b | 0 <= i < |schema| ensures Readers(schema)[i](b).Some? ==> Readers(schema)[i](b).value.1 <= |b| {
      SkipAsRead(schema[i], b);
    }
  }

  method DecodeRow(schema: Schema, data: seq<byte>) returns (row: Option<Row>)
    ensures row == RowOf(schema, data)
  {
    var head := ReadHead(schema, data);
    if head.None? { return None; }
    var nulls, start := head.value.0, head.value.1;
    ReadersBounded(schema);
    row := DecodeCells(Readers(schema), Flags(nulls, |schema|), data, start);
  }

  /** The cells, up to the last byte. */
  method DecodeCells(readers: seq<Reader>, flags: seq<bool>, data: seq<byte>, start: nat) returns (row: Option<Row>)
    requires |flags| == |readers| && start <= |data| && AllBounded(readers)
    ensures row == match ReadCells(readers, flags, 0, data[start..])
                   case None => None
                   case Some(r) => if start + r.1 == |data| then Some(r.0) else None
  {
    var d := new RowDecoder(data, start);
    var out: Row := [];
    ghost var all := ReadCells(readers, flags, 0, data[start..]);
    Nothing(all);
    for i := 0 to |readers|
      invariant d.Valid() && d.data == data && start <= d.pos
      invariant Decoded(all, readers, flags, i, out, d.pos - start, d.Rest())
    {
      if flags[i] {
        DecodedNull(all, readers, flags, i, out, d.pos - start, d.Rest());
        out := out + [None];
        continue;
      }
      DecodedNext(all, readers, flags, i, out, d.pos - start, d.Rest());
      var v := d.Cell(readers[i]);
      if v.None? { return None; }
      out := out + [v];
    }
    DecodedEnd(all, readers, flags, out, d.pos - start, d.Rest());
    if d.pos != |data| { return None; }
    return Some(out);
  }

  lemma DecodedEnd(all: Option<(Row, nat)>, readers: seq<Reader>, flags: seq<bool>, out: Row, n: nat, b: seq<byte>)
    requires Decoded(all, readers, flags, |readers|, out, n, b)
    ensures all == Some((out, n))
  {
    assert out + [] == out;
  }

  /** The columns before `i`, the bytes they took, and what is left. */
  ghost predicate Decoded(all: Option<(Row, nat)>, readers: seq<Reader>, flags: seq<bool>, i: nat, out: Row, n: nat, b: seq<byte>) {
    i <= |readers| == |flags| && all == Prefixed(out, n, ReadCells(readers, flags, i, b))
  }

  lemma DecodedNull(all: Option<(Row, nat)>, readers: seq<Reader>, flags: seq<bool>, i: nat, out: Row, n: nat, b: seq<byte>)
    requires Decoded(all, readers, flags, i, out, n, b) && i < |readers| && flags[i]
    ensures Decoded(all, readers, flags, i + 1, out + [None], n, b)
  {
    PrefixedOne(out, n, None, 0, ReadCells(readers, flags, i + 1, b));
  }

  lemma DecodedNext(all: Option<(Row, nat)>, readers: seq<Reader>, flags: seq<bool>, i: nat, out: Row, n: nat, b: seq<byte>)
    requires Decoded(all, readers, flags, i, out, n, b) && i < |readers| && !flags[i]
    ensures var c := readers[i](b);
            && (c.None? ==> all.None?)
            && (c.Some? && c.value.1 <= |b| ==> Decoded(all, readers, flags, i + 1, out + [Some(c.value.0)], n + c.value.1, b[c.value.1..]))
  {
    var c := readers[i](b);
    if c.Some? && c.value.1 <= |b| {
      PrefixedOne(out, n, Some(c.value.0), c.value.1, ReadCells(readers, flags, i + 1, b[c.value.1..]));
    }
  }

  lemma Nothing(rest: Option<(Row, nat)>)
    ensures Prefixed([], 0, rest) == rest
  {
    if rest.Some? { assert [] + rest.value.0 == rest.value.0; }
  }

  lemma PrefixedOne(front: Row, n: nat, cell: Option<Value>, m: nat, rest: Option<(Row, nat)>)
    ensures Prefixed(front, n, Prefixed([cell], m, rest)) == Prefixed(front + [cell], n + m, rest)
  {
    if rest.Some? { Regroup(front, [cell], rest.value.0); }
  }

  /** A row in bytes: three columns, the second NULL, a cell of -1 and one of 300. */
  lemma KnownRow()
    ensures var schema, row := [SignedType(32), BytesType, EnumType], [Some(Signed(0 - 1)), None, Some(Enum(300))];
            RowFits(schema, row) && RowBytes(schema, row) == [3, 0x02, 0x01, 0xAC, 0x02]
  {
    var schema, row := [SignedType(32), BytesType, EnumType], [Some(Signed(0 - 1)), None, Some(Enum(300))];
    assert Bitmap(row, 0) == [0];
    assert Bitmap(row, 1) == [0];
    assert WithBit(0, 1) == 2 * WithBit(0, 0) + 0 == 2;
    assert Bitmap(row, 2) == [2];
    assert Uvarint(300) == [More(300)] + Uvarint(2) == [0xAC, 0x02];
    assert CellsFrom(schema, row, 3) == [];
    assert CellsFrom(schema, row, 2) == [0xAC, 0x02];
    assert CellsFrom(schema, row, 1) == [0xAC, 0x02];
    assert CellBytes(schema[0], row[0].value) == Uvarint(1) == [1];
  }
}
