/** `engine/keycodec.go` and the composite keys of `engine/catalog.go`: byte order on keys is SQL order on values,
    column by column, NULL first. */
module KeyCodec {
  import opened Bytes
  import opened Overlays
  import opened Sequences
  import opened BigEndian
  import opened ByteOrder
  import FloatKeys
  import DecimalKeys
  import TextKeys

  /** Key column types. A text column is CHAR or not, with the weights of its collation unless it is the default. */
  datatype Column =
    | SignedColumn | UnsignedColumn | FloatColumn | DecimalColumn | MomentColumn | EnumColumn | BinaryColumn
    | TextColumn(padded: bool, weight: Option<TextKeys.Rune -> int>)

  /** Values. A moment is microseconds: since the epoch for dates, a span for TIME. */
  datatype Value =
    | Signed(i: int) | Unsigned(u: nat) | Float(f: FloatKeys.Double) | Decimal(d: DecimalKeys.Decimal) | Moment(t: int)
    | Enum(e: nat) | Binary(b: seq<byte>) | Text(s: seq<TextKeys.Rune>)

  predicate Int64(i: int) { -FloatKeys.TWO63 <= i < FloatKeys.TWO63 }

  /** The value is one of the column's type, within its width. */
  ghost predicate Fits(c: Column, v: Value) {
    match c
    case SignedColumn => v.Signed? && Int64(v.i)
    case UnsignedColumn => v.Unsigned? && v.u < FloatKeys.TWO64
    case FloatColumn => v.Float? && FloatKeys.Representable(v.f)
    case DecimalColumn => v.Decimal?
    case MomentColumn => v.Moment? && Int64(v.t)
    case EnumColumn => v.Enum? && v.e < 0x1_0000
    case BinaryColumn => v.Binary?
    case TextColumn(_, weight) => v.Text? && (weight.Some? ==> TextKeys.Narrow(weight.value))
  }

  function Compared(padded: bool, s: seq<TextKeys.Rune>): seq<TextKeys.Rune> { if padded then TextKeys.TrimRight(s) else s }

  function TextBytes(c: Column, s: seq<TextKeys.Rune>): seq<byte>
    requires c.TextColumn?
  {
    match c.weight
    case None => TextKeys.Utf8All(Compared(c.padded, s))
    case Some(w) => TextKeys.WeightBytes(w, Compared(c.padded, s))
  }

  function Flipped(i: int): seq<byte>
    requires Int64(i)
  {
    Widths();
    Encode(i + FloatKeys.TWO63, 8)
  }

  /** `None` is a refusal: NaN, a decimal exponent out of range. */
  ghost function ColumnKey(c: Column, v: Value): Option<seq<byte>>
    requires Fits(c, v)
  {
    Widths();
    match c
    case SignedColumn => Some(Flipped(v.i))
    case UnsignedColumn => Some(Encode(v.u, 8))
    case FloatColumn => if FloatKeys.IsNaN(v.f) then None else Some(FloatKeys.FloatKey(v.f))
    case DecimalColumn => DecimalKeys.DecimalKey(v.d)
    case MomentColumn => Some(Flipped(v.t))
    case EnumColumn => Some(Encode(v.e, 2))
    case BinaryColumn => Some(TextKeys.Escaped(v.b))
    case TextColumn(_, _) => Some(TextKeys.Escaped(TextBytes(c, v.s)))
  }

  /** `appendKeyColumn`. */
  method AppendKeyColumn(dst: seq<byte>, c: Column, v: Value) returns (r: Option<seq<byte>>)
    requires Fits(c, v)
    ensures r == match ColumnKey(c, v) case None => None case Some(k) => Some(dst + k)
  {
    Widths();
    match c {
      case SignedColumn => r := Some(dst + Flipped(v.i));
      case UnsignedColumn => r := Some(dst + Encode(v.u, 8));
      case FloatColumn => r := if FloatKeys.IsNaN(v.f) then None else Some(dst + FloatKeys.FloatKey(v.f));
      case DecimalColumn => r := DecimalKeys.AppendDecimalKey(dst, v.d);
      case MomentColumn => r := Some(dst + Flipped(v.t));
      case EnumColumn => r := Some(dst + Encode(v.e, 2));
      case BinaryColumn => var k := TextKeys.AppendEscaped(dst, v.b); r := Some(k);
      case TextColumn(_, _) => var k := TextKeys.AppendEscaped(dst, TextBytes(c, v.s)); r := Some(k);
    }
  }

  /** What has no key: not a number, or a decimal whose exponent does not fit 32 bits. */
  ghost predicate Keyless(v: Value) {
    match v
    case Float(f) => f.bits / FloatKeys.TWO52 == 2047 && f.bits % FloatKeys.TWO52 != 0
    case Decimal(d) => d.coeff > 0 && !(-0x8000_0000 <= d.exponent + DecimalKeys.DigitCount(d.coeff) <= 0x7FFF_FFFF)
    case _ => false
  }

  lemma KeylessExactly(c: Column, v: Value)
    requires Fits(c, v)
    ensures ColumnKey(c, v).None? <==> Keyless(v)
  {
    match c
    case FloatColumn => FloatKeys.NaNIs(v.f);
    case DecimalColumn => DecimalKeys.DecimalRefused(v.d);
    case _ =>
  }

  // The order of values.

  function WeightOf(c: Column): TextKeys.Rune -> int
    requires c.TextColumn?
  {
    if c.weight.None? then TextKeys.CodePoint else c.weight.value
  }

  ghost predicate Before(c: Column, v: Value, w: Value)
    requires Fits(c, v) && Fits(c, w)
  {
    match c
    case SignedColumn => v.i < w.i
    case UnsignedColumn => v.u < w.u
    case FloatColumn => FloatKeys.Number(v.f) < FloatKeys.Number(w.f)
    case DecimalColumn => DecimalKeys.Number(v.d) < DecimalKeys.Number(w.d)
    case MomentColumn => v.t < w.t
    case EnumColumn => v.e < w.e
    case BinaryColumn => Less(v.b, w.b)
    case TextColumn(padded, _) => TextKeys.Below(WeightOf(c), Compared(padded, v.s), Compared(padded, w.s))
  }

  ghost predicate Alike(c: Column, v: Value, w: Value)
    requires Fits(c, v) && Fits(c, w)
  {
    match c
    case FloatColumn => FloatKeys.Number(v.f) == FloatKeys.Number(w.f)
    case DecimalColumn => DecimalKeys.Number(v.d) == DecimalKeys.Number(w.d)
    case TextColumn(padded, _) => TextKeys.SameWeights(WeightOf(c), Compared(padded, v.s), Compared(padded, w.s))
    case _ => v == w
  }

  lemma FlippedOrder(i: int, j: int)
    requires Int64(i) && Int64(j) && i < j
    ensures Ahead(Flipped(i), Flipped(j))
  {
    Widths();
    IntegersAhead(i + FloatKeys.TWO63, j + FloatKeys.TWO63, 8);
  }

  lemma TextOrder(c: Column, v: Value, w: Value)
    requires c.TextColumn? && Fits(c, v) && Fits(c, w)
    ensures Before(c, v, w) ==> Ahead(TextKeys.Escaped(TextBytes(c, v.s)), TextKeys.Escaped(TextBytes(c, w.s)))
    ensures Alike(c, v, w) ==> TextBytes(c, v.s) == TextBytes(c, w.s)
    ensures Before(c, v, w) || Alike(c, v, w) || Before(c, w, v)
  {
    var a, b := Compared(c.padded, v.s), Compared(c.padded, w.s);
    TextKeys.BelowTotal(WeightOf(c), a, b);
    if Before(c, v, w) {
      if c.weight.None? { TextKeys.Utf8AllOrder(a, b); } else { TextKeys.WeightBytesOrder(c.weight.value, a, b); }
      TextKeys.EscapedOrder(TextBytes(c, v.s), TextBytes(c, w.s));
    }
    if Alike(c, v, w) {
      if c.weight.None? { assert a == b; } else { TextKeys.WeightBytesSame(c.weight.value, a, b); }
    }
  }

  /** One column: the smaller value's key is ahead whatever follows, equal values have one key, and there is no
      third case. So no key is a proper prefix of another. */
  lemma ColumnOrder(c: Column, v: Value, w: Value)
    requires Fits(c, v) && Fits(c, w) && ColumnKey(c, v).Some? && ColumnKey(c, w).Some?
    ensures Before(c, v, w) ==> Ahead(ColumnKey(c, v).value, ColumnKey(c, w).value)
    ensures Alike(c, v, w) ==> ColumnKey(c, v) == ColumnKey(c, w)
    ensures Before(c, v, w) || Alike(c, v, w) || Before(c, w, v)
  {
    Widths();
    match c
    case SignedColumn => if v.i < w.i { FlippedOrder(v.i, w.i); }
    case UnsignedColumn => if v.u < w.u { IntegersAhead(v.u, w.u, 8); }
    case FloatColumn => FloatKeys.FloatOrder(v.f, w.f);
    case DecimalColumn => DecimalKeys.DecimalOrder(v.d, w.d);
    case MomentColumn => if v.t < w.t { FlippedOrder(v.t, w.t); }
    case EnumColumn => if v.e < w.e { IntegersAhead(v.e, w.e, 2); }
    case BinaryColumn =>
      LessTotal(v.b, w.b);
      if Less(v.b, w.b) { TextKeys.EscapedOrder(v.b, w.b); }
    case TextColumn(_, _) => TextOrder(c, v, w);
  }

  /** Below, alike and above exclude each other. */
  lemma ColumnApart(c: Column, v: Value, w: Value)
    requires Fits(c, v) && Fits(c, w) && ColumnKey(c, v).Some? && ColumnKey(c, w).Some?
    ensures !(Before(c, v, w) && Before(c, w, v)) && !(Before(c, v, w) && Alike(c, v, w)) && !(Before(c, w, v) && Alike(c, v, w))
  {
    ColumnOrder(c, v, w);
    ColumnOrder(c, w, v);
    var j, k := ColumnKey(c, v).value, ColumnKey(c, w).value;
    if Ahead(j, k) { AheadAsymmetric(j, k); }
    if Ahead(k, j) { AheadAsymmetric(k, j); }
  }

  // Composite keys.

  /** A cell: a value or NULL. */
  type Cell = Option<Value>

  ghost predicate CellFits(c: Column, x: Cell) { x.Some? ==> Fits(c, x.value) }

  ghost predicate AllFit(cs: seq<Column>, xs: seq<Cell>) {
    |cs| == |xs| && forall i :: 0 <= i < |cs| ==> CellFits(cs[i], xs[i])
  }

  /** A cell of an index key: a marker, then the value. */
  ghost function CellKey(c: Column, x: Cell): Option<seq<byte>>
    requires CellFits(c, x)
  {
    match x
    case None => Some([0x00])
    case Some(v) => match ColumnKey(c, v) case None => None case Some(k) => Some([0x01] + k)
  }

  /** A primary key has no markers and no NULL. */
  ghost function PlainKey(c: Column, x: Cell): Option<seq<byte>>
    requires CellFits(c, x)
  {
    match x case None => None case Some(v) => ColumnKey(c, v)
  }

  ghost function CellOrPlain(marked: bool, c: Column, x: Cell): Option<seq<byte>>
    requires CellFits(c, x)
  {
    if marked then CellKey(c, x) else PlainKey(c, x)
  }

  /** The cells' keys, one after another. */
  ghost function Cells(marked: bool, cs: seq<Column>, xs: seq<Cell>): Option<seq<byte>>
    requires AllFit(cs, xs)
  {
    if cs == [] then Some([])
    else
      match CellOrPlain(marked, cs[0], xs[0])
      case None => None
      case Some(k) =>
        match Cells(marked, cs[1..], xs[1..])
        case None => None
        case Some(rest) => Some(k + rest)
  }

  /** A composite key is refused exactly for a value without a key or, where cells are not marked, for a NULL. */
  lemma {:induction false} CellsRefused(marked: bool, cs: seq<Column>, xs: seq<Cell>)
    requires AllFit(cs, xs)
    ensures Cells(marked, cs, xs).None? <==> exists i :: 0 <= i < |xs| && if xs[i].Some? then Keyless(xs[i].value) else !marked
  {
    if cs != [] {
      CellsRefused(marked, cs[1..], xs[1..]);
      if xs[0].Some? { KeylessExactly(cs[0], xs[0].value); }
      assert xs == [xs[0]] + xs[1..];
      if i :| 0 <= i < |xs| - 1 && if xs[1..][i].Some? then Keyless(xs[1..][i].value) else !marked { assert xs[i + 1] == xs[1..][i]; }
      if i :| 0 < i < |xs| && if xs[i].Some? then Keyless(xs[i].value) else !marked { assert xs[1..][i - 1] == xs[i]; }
    }
  }

  predicate HasNull(xs: seq<Cell>) { exists i :: 0 <= i < |xs| && xs[i].None? }

  /** NULL first, then by value. */
  ghost predicate CellBefore(c: Column, x: Cell, y: Cell)
    requires CellFits(c, x) && CellFits(c, y)
  {
    y.Some? && (x.None? || Before(c, x.value, y.value))
  }

  ghost predicate CellAlike(c: Column, x: Cell, y: Cell)
    requires CellFits(c, x) && CellFits(c, y)
  {
    x.Some? == y.Some? && (x.Some? ==> Alike(c, x.value, y.value))
  }

  /** Column by column. */
  ghost predicate RowBefore(cs: seq<Column>, xs: seq<Cell>, ys: seq<Cell>)
    requires AllFit(cs, xs) && AllFit(cs, ys)
  {
    cs != [] && (CellBefore(cs[0], xs[0], ys[0]) || (CellAlike(cs[0], xs[0], ys[0]) && RowBefore(cs[1..], xs[1..], ys[1..])))
  }

  ghost predicate RowAlike(cs: seq<Column>, xs: seq<Cell>, ys: seq<Cell>)
    requires AllFit(cs, xs) && AllFit(cs, ys)
  {
    forall i :: 0 <= i < |cs| ==> CellAlike(cs[i], xs[i], ys[i])
  }

  lemma CellOrder(marked: bool, c: Column, x: Cell, y: Cell)
    requires CellFits(c, x) && CellFits(c, y) && CellOrPlain(marked, c, x).Some? && CellOrPlain(marked, c, y).Some?
    ensures CellBefore(c, x, y) ==> Ahead(CellOrPlain(marked, c, x).value, CellOrPlain(marked, c, y).value)
    ensures CellAlike(c, x, y) ==> CellOrPlain(marked, c, x) == CellOrPlain(marked, c, y)
    ensures CellBefore(c, x, y) || CellAlike(c, x, y) || CellBefore(c, y, x)
  {
    if x.Some? && y.Some? {
      ColumnOrder(c, x.value, y.value);
      var j, k := ColumnKey(c, x.value).value, ColumnKey(c, y.value).value;
      if Ahead(j, k) { AheadBehind([0x01], j, k); }
    }
  }

  /** Composite keys: byte order is row order, equal rows have one key, and there is no third case. */
  lemma {:induction false} CellsOrder(marked: bool, cs: seq<Column>, xs: seq<Cell>, ys: seq<Cell>)
    requires AllFit(cs, xs) && AllFit(cs, ys) && Cells(marked, cs, xs).Some? && Cells(marked, cs, ys).Some?
    ensures RowBefore(cs, xs, ys) ==> Ahead(Cells(marked, cs, xs).value, Cells(marked, cs, ys).value)
    ensures RowAlike(cs, xs, ys) ==> Cells(marked, cs, xs) == Cells(marked, cs, ys)
    ensures RowBefore(cs, xs, ys) || RowAlike(cs, xs, ys) || RowBefore(cs, ys, xs)
  {
    if cs != [] {
      CellOrder(marked, cs[0], xs[0], ys[0]);
      CellsOrder(marked, cs[1..], xs[1..], ys[1..]);
      var j, k := CellOrPlain(marked, cs[0], xs[0]).value, CellOrPlain(marked, cs[0], ys[0]).value;
      var p, q := Cells(marked, cs[1..], xs[1..]).value, Cells(marked, cs[1..], ys[1..]).value;
      if CellBefore(cs[0], xs[0], ys[0]) {
        AheadExtends(j, k, p, q);
      } else if RowBefore(cs, xs, ys) {
        AheadBehind(j, p, q);
      }
      AlikeSplits(cs, xs, ys);
    }
  }

  lemma AlikeSplits(cs: seq<Column>, xs: seq<Cell>, ys: seq<Cell>)
    requires AllFit(cs, xs) && AllFit(cs, ys) && cs != []
    ensures RowAlike(cs, xs, ys) <==> CellAlike(cs[0], xs[0], ys[0]) && RowAlike(cs[1..], xs[1..], ys[1..])
  {
    if CellAlike(cs[0], xs[0], ys[0]) && RowAlike(cs[1..], xs[1..], ys[1..]) {
      forall i | 0 <= i < |cs| ensures CellAlike(cs[i], xs[i], ys[i]) {
        if i > 0 { assert CellAlike(cs[1..][i - 1], xs[1..][i - 1], ys[1..][i - 1]); }
      }
    }
    if RowAlike(cs, xs, ys) {
      forall i | 0 <= i < |cs| - 1 ensures CellAlike(cs[1..][i], xs[1..][i], ys[1..][i]) {
        assert CellAlike(cs[i + 1], xs[i + 1], ys[i + 1]);
      }
    }
  }

  /** Alike rows have their NULLs in the same columns. */
  lemma AlikeNulls(cs: seq<Column>, xs: seq<Cell>, ys: seq<Cell>)
    requires AllFit(cs, xs) && AllFit(cs, ys) && RowAlike(cs, xs, ys)
    ensures HasNull(xs) <==> HasNull(ys)
  {
    forall i | 0 <= i < |cs| ensures xs[i].Some? == ys[i].Some? { assert CellAlike(cs[i], xs[i], ys[i]); }
  }

  /** The index key: the marked cells, then the primary key unless the index is unique and no cell NULL. */
  ghost function IndexKey(cs: seq<Column>, xs: seq<Cell>, pk: seq<byte>, unique: bool): Option<seq<byte>>
    requires AllFit(cs, xs)
  {
    match Cells(true, cs, xs)
    case None => None
    case Some(k) => Some(if HasNull(xs) || !unique then k + pk else k)
  }

  /** Composite order, exactly. */
  lemma CellsExact(marked: bool, cs: seq<Column>, xs: seq<Cell>, ys: seq<Cell>)
    requires AllFit(cs, xs) && AllFit(cs, ys) && Cells(marked, cs, xs).Some? && Cells(marked, cs, ys).Some?
    ensures var j, k := Cells(marked, cs, xs).value, Cells(marked, cs, ys).value;
            && (RowBefore(cs, xs, ys) <==> Ahead(j, k)) && (RowAlike(cs, xs, ys) <==> j == k)
            && (Ahead(j, k) || j == k || Ahead(k, j))
  {
    var j, k := Cells(marked, cs, xs).value, Cells(marked, cs, ys).value;
    CellsOrder(marked, cs, xs, ys);
    CellsOrder(marked, cs, ys, xs);
    if Ahead(j, k) { AheadAsymmetric(j, k); }
    if Ahead(k, j) { AheadAsymmetric(k, j); }
  }

  /** Primary keys order as their rows. */
  lemma PrimaryKeyOrder(cs: seq<Column>, xs: seq<Cell>, ys: seq<Cell>)
    requires AllFit(cs, xs) && AllFit(cs, ys) && Cells(false, cs, xs).Some? && Cells(false, cs, ys).Some?
    ensures Less(Cells(false, cs, xs).value, Cells(false, cs, ys).value) <==> RowBefore(cs, xs, ys)
    ensures Cells(false, cs, xs) == Cells(false, cs, ys) <==> RowAlike(cs, xs, ys)
  {
    var j, k := Cells(false, cs, xs).value, Cells(false, cs, ys).value;
    CellsExact(false, cs, xs, ys);
    ComparesAs(j, k, [], []);
    assert j + [] == j && k + [] == k;
  }

  /** Row order, then primary-key order where it was appended. */
  lemma IndexKeyOrder(cs: seq<Column>, xs: seq<Cell>, p: seq<byte>, ys: seq<Cell>, q: seq<byte>, unique: bool)
    requires AllFit(cs, xs) && AllFit(cs, ys) && IndexKey(cs, xs, p, unique).Some? && IndexKey(cs, ys, q, unique).Some?
    ensures var a, b := IndexKey(cs, xs, p, unique).value, IndexKey(cs, ys, q, unique).value;
            && (Less(a, b) <==> RowBefore(cs, xs, ys) || (RowAlike(cs, xs, ys) && (HasNull(xs) || !unique) && Less(p, q)))
            && (a == b <==> RowAlike(cs, xs, ys) && ((HasNull(xs) || !unique) ==> p == q))
  {
    var j, k := Cells(true, cs, xs).value, Cells(true, cs, ys).value;
    CellsExact(true, cs, xs, ys);
    if RowAlike(cs, xs, ys) { AlikeNulls(cs, xs, ys); }
    var x, y := if HasNull(xs) || !unique then p else [], if HasNull(ys) || !unique then q else [];
    assert j + [] == j && k + [] == k;
    ComparesAs(j, k, x, y);
  }

  /** Entries of different rows have one key only in a unique index, without a NULL. */
  lemma IndexKeysSeparate(cs: seq<Column>, xs: seq<Cell>, p: seq<byte>, ys: seq<Cell>, q: seq<byte>, unique: bool)
    requires AllFit(cs, xs) && AllFit(cs, ys) && IndexKey(cs, xs, p, unique).Some? && IndexKey(cs, ys, q, unique).Some?
    requires p != q && IndexKey(cs, xs, p, unique) == IndexKey(cs, ys, q, unique)
    ensures unique && !HasNull(xs) && !HasNull(ys)
  {
    IndexKeyOrder(cs, xs, p, ys, q, unique);
    if RowAlike(cs, xs, ys) { AlikeNulls(cs, xs, ys); }
  }

  /** `encodeIndexKey`. */
  method EncodeIndexKey(cs: seq<Column>, xs: seq<Cell>, pk: seq<byte>, unique: bool) returns (r: Option<seq<byte>>, hasNull: bool)
    requires AllFit(cs, xs)
    ensures r == IndexKey(cs, xs, pk, unique)
    ensures r.Some? ==> hasNull == HasNull(xs)
  {
    var out: seq<byte> := [];
    hasNull := false;
    assert cs[0..] == cs && xs[0..] == xs && xs[..0] == [];
    EmptyHead(Cells(true, cs, xs));
    for i := 0 to |cs|
      invariant KeySoFar(cs, xs, i, out, hasNull)
    {
      KeyStep(cs, xs, i, out, hasNull);
      if xs[i].None? {
        out := out + [0x00];
        hasNull := true;
        continue;
      }
      var next := AppendKeyColumn(out + [0x01], cs[i], xs[i].value);
      if next.None? { return None, false; }
      out := next.value;
    }
    assert xs[..|cs|] == xs && out + [] == out;
    if hasNull || !unique { out := out + pk; }
    r := Some(out);
  }

  /** The key before cell `i`. */
  ghost predicate KeySoFar(cs: seq<Column>, xs: seq<Cell>, i: nat, out: seq<byte>, hasNull: bool)
    requires AllFit(cs, xs)
  {
    && i <= |cs| && hasNull == HasNull(xs[..i]) && AllFit(cs[i..], xs[i..])
    && After(out, Cells(true, cs[i..], xs[i..])) == Cells(true, cs, xs)
  }

  lemma KeyStep(cs: seq<Column>, xs: seq<Cell>, i: nat, out: seq<byte>, hasNull: bool)
    requires AllFit(cs, xs) && i < |cs| && KeySoFar(cs, xs, i, out, hasNull)
    ensures xs[i].None? ==> KeySoFar(cs, xs, i + 1, out + [0x00], true)
    ensures xs[i].Some? && ColumnKey(cs[i], xs[i].value).Some? ==>
              KeySoFar(cs, xs, i + 1, out + [0x01] + ColumnKey(cs[i], xs[i].value).value, hasNull)
    ensures xs[i].Some? && ColumnKey(cs[i], xs[i].value).None? ==> Cells(true, cs, xs).None?
  {
    assert cs[i..][1..] == cs[i + 1..] && xs[i..][1..] == xs[i + 1..];
    assert xs[..i + 1] == xs[..i] + [xs[i]];
    NullSnoc(xs[..i], xs[i]);
    AfterCell(out, cs[i..], xs[i..]);
    if xs[i].Some? && ColumnKey(cs[i], xs[i].value).Some? { Regroup(out, [0x01], ColumnKey(cs[i], xs[i].value).value); }
  }

  lemma NullSnoc(xs: seq<Cell>, x: Cell)
    ensures HasNull(xs + [x]) <==> HasNull(xs) || x.None?
  {
    var all := xs + [x];
    assert all[|xs|] == x;
    assert forall i :: 0 <= i < |xs| ==> all[i] == xs[i];
  }

  function After(head: seq<byte>, rest: Option<seq<byte>>): Option<seq<byte>> {
    match rest case None => None case Some(k) => Some(head + k)
  }

  lemma EmptyHead(rest: Option<seq<byte>>)
    ensures After([], rest) == rest
  {
    if rest.Some? { assert [] + rest.value == rest.value; }
  }

  lemma AfterCell(out: seq<byte>, cs: seq<Column>, xs: seq<Cell>)
    requires AllFit(cs, xs) && cs != []
    ensures AllFit(cs[1..], xs[1..])
    ensures After(out, Cells(true, cs, xs)) ==
              match CellKey(cs[0], xs[0]) case None => None case Some(k) => After(out + k, Cells(true, cs[1..], xs[1..]))
  {
    var rest := Cells(true, cs[1..], xs[1..]);
    if CellKey(cs[0], xs[0]).Some? && rest.Some? { Regroup(out, CellKey(cs[0], xs[0]).value, rest.value); }
  }
}
