/** The cells of stored rows (`engine/rowcodec.go`): writing, reading, and passing over one. */
module RowCells {
  import opened Bytes
  import opened Overlays
  import opened Sequences
  import opened Varints
  import BigEndian

  /** Column types by how their cells are stored. */
  datatype Type =
    | SignedType(bits: nat) | UnsignedType(bits: nat) | EnumType | FloatType | DoubleType | MomentType | SpanType
    | DecimalType | BytesType

  /** Values as decoded: floats by their bits, moments and spans in microseconds, decimals at the column's scale. */
  datatype Value =
    | Signed(i: int) | Unsigned(u: nat) | Enum(e: nat) | Float(w: nat) | Double(d: nat) | Moment(m: int) | Span(t: int)
    | Decimal(negative: bool, coeff: nat) | Bytes(b: seq<byte>)

  function Half(bits: nat): nat { if bits == 8 then 0x80 else if bits == 16 then 0x8000 else if bits == 32 then 0x8000_0000 else TWO63 }

  /** The value is one of the type. */
  predicate Fits(t: Type, v: Value) {
    match t
    case SignedType(bits) => v.Signed? && 0 - Half(bits) <= v.i < Half(bits)
    case UnsignedType(bits) => v.Unsigned? && v.u < 2 * Half(bits)
    case EnumType => v.Enum? && v.e < 0x1_0000
    case FloatType => v.Float? && v.w < 0x1_0000_0000
    case DoubleType => v.Double? && v.d < TWO64
    case MomentType => v.Moment? && Int64(v.m)
    case SpanType => v.Span? && Int64(v.t)
    case DecimalType => v.Decimal? && |Magnitude(v.coeff)| < TWO64
    case BytesType => v.Bytes? && |v.b| < TWO64
  }

  /** A negative zero decimal comes back as zero. */
  function Normal(v: Value): Value { if v.Decimal? && v.coeff == 0 then v.(negative := false) else v }

  function SignedCoeff(v: Value): int
    requires v.Decimal?
  {
    if v.negative then 0 - v.coeff else v.coeff
  }

  /** `appendCell`. */
  function CellBytes(t: Type, v: Value): seq<byte>
    requires Fits(t, v)
  {
    match t
    case SignedType(_) => Varint(v.i)
    case UnsignedType(_) => Uvarint(v.u)
    case EnumType => Uvarint(v.e)
    case FloatType => Little(v.w, 4)
    case DoubleType => Little(v.d, 8)
    case MomentType => Little(if v.m < 0 then v.m + TWO64 else v.m, 8)
    case SpanType => Varint(v.t)
    case DecimalType =>
      if v.coeff < TWO63 then [0] + Varint(SignedCoeff(v))
      else [1] + ([if v.negative then 1 else 0] + Counted(Magnitude(v.coeff)))
    case BytesType => Counted(v.b)
  }

  // Reading.

  function Wrapped(i: int, bits: nat): int { (i + Half(bits)) % (2 * Half(bits)) - Half(bits) }

  function ReadFixed(b: seq<byte>, size: nat): Option<nat> { if |b| < size then None else Some(ReadLittle(b[..size])) }

  function ReadDecimal(b: seq<byte>): Option<(Value, nat)> {
    if b == [] then None
    else if b[0] == 0 then
      match ReadVarint(b[1..])
      case None => None
      case Some(r) => Some((if r.0 < 0 then Decimal(true, -r.0) else Decimal(false, r.0), 1 + r.1))
    else if b[0] == 1 then
      if |b| < 2 then None
      else match ReadSpan(b[2..])
           case None => None
           case Some(s) => Some((Decimal(b[1] != 0, ReadMagnitude(b[2..][s.0..s.1])), 2 + s.1))
    else None
  }

  /** `rowDecoder.cell`: the value and how many bytes it took. */
  function ReadCell(t: Type, b: seq<byte>): Option<(Value, nat)> {
    match t
    case SignedType(bits) => (match ReadVarint(b) case None => None case Some(r) => Some((Signed(Wrapped(r.0, bits)), r.1)))
    case UnsignedType(bits) => (match ReadUvarint(b) case None => None case Some(r) => Some((Unsigned(r.0 % (2 * Half(bits))), r.1)))
    case EnumType => (match ReadUvarint(b) case None => None case Some(r) => if r.0 >= 0x1_0000 then None else Some((Enum(r.0), r.1)))
    case FloatType => (match ReadFixed(b, 4) case None => None case Some(n) => Some((Float(n), 4)))
    case DoubleType => (match ReadFixed(b, 8) case None => None case Some(n) => Some((Double(n), 8)))
    case MomentType => (match ReadFixed(b, 8) case None => None case Some(n) => Some((Moment(if n >= TWO63 then n - TWO64 else n), 8)))
    case SpanType => (match ReadVarint(b) case None => None case Some(r) => Some((Span(r.0), r.1)))
    case DecimalType => ReadDecimal(b)
    case BytesType => (match ReadSpan(b) case None => None case Some(s) => Some((Bytes(b[s.0..s.1]), s.1)))
  }

  /** `rowDecoder.skip`. */
  function SkipCell(t: Type, b: seq<byte>): Option<nat> {
    match t
    case SignedType(_) => SkipNumber(b)
    case SpanType => SkipNumber(b)
    case UnsignedType(_) => SkipNumber(b)
    case EnumType => SkipNumber(b)
    case FloatType => if |b| < 4 then None else Some(4)
    case DoubleType => if |b| < 8 then None else Some(8)
    case MomentType => if |b| < 8 then None else Some(8)
    case DecimalType =>
      if b == [] then None
      else if b[0] == 0 then (match SkipNumber(b[1..]) case None => None case Some(n) => Some(1 + n))
      else if b[0] == 1 && |b| >= 2 then (match ReadSpan(b[2..]) case None => None case Some(s) => Some(2 + s.1))
      else None
    case BytesType => (match ReadSpan(b) case None => None case Some(s) => Some(s.1))
  }

  function SkipNumber(b: seq<byte>): Option<nat> {
    match ReadUvarint(b) case None => None case Some(r) => Some(r.1)
  }

  /** Whatever can be read is skipped by as many bytes. */
  lemma SkipAsRead(t: Type, b: seq<byte>)
    ensures ReadCell(t, b).Some? ==> SkipCell(t, b) == Some(ReadCell(t, b).value.1)
    ensures SkipCell(t, b).Some? ==> SkipCell(t, b).value <= |b|
  {
    ReadTakes(b, 0);
    if b != [] { ReadTakes(b[1..], 0); }
  }

  // Round trips.

  lemma FixedRoundTrip(n: nat, width: nat, rest: seq<byte>)
    requires n < BigEndian.Pow256(width)
    ensures ReadFixed(Little(n, width) + rest, width) == Some(n)
  {
    LittleRoundTrip(n, width);
    assert (Little(n, width) + rest)[..width] == Little(n, width);
  }

  lemma SmallDecimal(v: Value, rest: seq<byte>)
    requires Fits(DecimalType, v) && v.coeff < TWO63
    ensures ReadDecimal(CellBytes(DecimalType, v) + rest) == Some((Normal(v), |CellBytes(DecimalType, v)|))
  {
    var body := Varint(SignedCoeff(v));
    VarintRoundTrip(SignedCoeff(v), rest);
    var b := [0] + body + rest;
    assert b[1..] == body + rest && b[0] == 0;
  }

  lemma BigDecimal(v: Value, rest: seq<byte>)
    requires Fits(DecimalType, v) && v.coeff >= TWO63
    ensures ReadDecimal(CellBytes(DecimalType, v) + rest) == Some((Normal(v), |CellBytes(DecimalType, v)|))
  {
    var m := Magnitude(v.coeff);
    MagnitudeRoundTrip(v.coeff);
    SpanRoundTrip(m, rest);
    var sign: byte := if v.negative then 1 else 0;
    var b := [1] + ([sign] + Counted(m)) + rest;
    assert b[2..] == Counted(m) + rest && b[0] == 1 && b[1] == sign;
  }

  lemma SignedRoundTrip(bits: nat, v: Value, rest: seq<byte>)
    requires Fits(SignedType(bits), v)
    ensures ReadCell(SignedType(bits), Varint(v.i) + rest) == Some((v, |Varint(v.i)|))
  {
    VarintRoundTrip(v.i, rest);
    NotWrapped(v.i, bits);
  }

  lemma NotWrapped(i: int, bits: nat)
    requires 0 - Half(bits) <= i < Half(bits)
    ensures Wrapped(i, bits) == i
  {
    InModulus(i + Half(bits), 2 * Half(bits));
  }

  lemma InModulus(n: int, m: int)
    requires 0 <= n < m
    ensures n % m == n
  {
  }

  lemma UnsignedRoundTrip(bits: nat, v: Value, rest: seq<byte>)
    requires Fits(UnsignedType(bits), v)
    ensures ReadCell(UnsignedType(bits), Uvarint(v.u) + rest) == Some((v, |Uvarint(v.u)|))
  {
    UvarintRoundTrip(v.u, rest);
    InModulus(v.u, 2 * Half(bits));
  }

  lemma MomentRoundTrip(v: Value, rest: seq<byte>)
    requires Fits(MomentType, v)
    ensures ReadCell(MomentType, CellBytes(MomentType, v) + rest) == Some((v, 8))
  {
    BigEndian.Widths();
    FixedRoundTrip(if v.m < 0 then v.m + TWO64 else v.m, 8, rest);
  }

  lemma FloatRoundTrip(v: Value, rest: seq<byte>)
    requires v.Float? && Fits(FloatType, v)
    ensures ReadCell(FloatType, CellBytes(FloatType, v) + rest) == Some((v, 4))
  {
    BigEndian.Widths();
    FixedRoundTrip(v.w, 4, rest);
  }

  lemma DoubleRoundTrip(v: Value, rest: seq<byte>)
    requires v.Double? && Fits(DoubleType, v)
    ensures ReadCell(DoubleType, CellBytes(DoubleType, v) + rest) == Some((v, 8))
  {
    BigEndian.Widths();
    FixedRoundTrip(v.d, 8, rest);
  }

  /** A cell is read back as it was written, up to the sign of a decimal zero, whatever follows. */
  lemma CellRoundTrip(t: Type, v: Value, rest: seq<byte>)
    requires Fits(t, v)
    ensures ReadCell(t, CellBytes(t, v) + rest) == Some((Normal(v), |CellBytes(t, v)|))
  {
    match t
    case SignedType(bits) => SignedRoundTrip(bits, v, rest);
    case UnsignedType(bits) => UnsignedRoundTrip(bits, v, rest);
    case EnumType => UvarintRoundTrip(v.e, rest);
    case FloatType => FloatRoundTrip(v, rest);
    case DoubleType => DoubleRoundTrip(v, rest);
    case MomentType => MomentRoundTrip(v, rest);
    case SpanType => VarintRoundTrip(v.t, rest);
    case DecimalType => if v.coeff < TWO63 { SmallDecimal(v, rest); } else { BigDecimal(v, rest); }
    case BytesType => SpanRoundTrip(v.b, rest);
  }
}
