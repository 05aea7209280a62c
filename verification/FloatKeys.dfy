/** Keys of FLOAT and DOUBLE columns: the bits of section 3.4 of IEEE 754-2008, reordered so that byte order is
    numeric order, with one key for both zeros. */
module FloatKeys {
  import opened Bytes
  import opened BigEndian
  import opened ByteOrder

  const TWO52 := 0x10_0000_0000_0000
  const TWO63 := 0x8000_0000_0000_0000
  const TWO64 := 0x1_0000_0000_0000_0000
  const INFINITY := 2047 * TWO52

  /** A double as its sign and the 63 bits of exponent and fraction. */
  datatype Double = Double(negative: bool, bits: nat)

  predicate Representable(d: Double) { d.bits < TWO63 }

  predicate IsNaN(d: Double) { d.bits > INFINITY }

  /** NaN: every exponent bit is set, and some fraction bit. */
  lemma NaNIs(d: Double)
    requires Representable(d)
    ensures IsNaN(d) <==> d.bits / TWO52 == 2047 && d.bits % TWO52 != 0
  {
  }

  function TwoTo(n: nat): (p: nat)
    ensures p > 0
  {
    if n == 0 then 1 else 2 * TwoTo(n - 1)
  }

  /** The magnitude in units of the least subnormal: the fraction, scaled by the exponent. Infinity comes out
      above every finite double. */
  function Magnitude(bits: nat): int {
    var exponent, fraction := bits / TWO52, bits % TWO52;
    if exponent == 0 then fraction else (TWO52 + fraction) * TwoTo(exponent - 1)
  }

  function Number(d: Double): int { if d.negative then -Magnitude(d.bits) else Magnitude(d.bits) }

  lemma {:induction false} TwoToGrows(a: nat, b: nat)
    requires a < b
    ensures 2 * TwoTo(a) <= TwoTo(b)
  {
    if a + 1 < b { TwoToGrows(a, b - 1); }
  }

  lemma ProductsBelow(f: nat, g: nat, p: nat, q: nat, limit: nat)
    requires f < 2 * limit && limit <= g && 2 * p <= q && p > 0
    ensures f * p < g * q
  {
    assert f * p < 2 * limit * p;
    assert 2 * limit * p == limit * (2 * p);
    assert limit * (2 * p) <= limit * q;
    assert limit * q <= g * q;
  }

  /** Larger bits are a larger magnitude. */
  lemma MagnitudeGrows(a: nat, b: nat)
    requires a < b
    ensures Magnitude(a) < Magnitude(b)
  {
    var e, f := a / TWO52, a % TWO52;
    var g, h := b / TWO52, b % TWO52;
    if e == g {
      if e > 0 { SameScale(TWO52 + f, TWO52 + h, TwoTo(e - 1)); }
    } else if e == 0 {
      OneTimes(TWO52 + h, TwoTo(g - 1));
    } else {
      TwoToGrows(e - 1, g - 1);
      ProductsBelow(TWO52 + f, TWO52 + h, TwoTo(e - 1), TwoTo(g - 1), TWO52);
    }
  }

  lemma SameScale(f: nat, g: nat, p: nat)
    requires f < g && p > 0
    ensures f * p < g * p
  {
  }

  lemma OneTimes(f: nat, p: nat)
    requires p > 0
    ensures f <= f * p
  {
  }

  /** The reordered bits. */
  function Rank(d: Double): (r: nat)
    requires Representable(d)
    ensures r < TWO64
  {
    if d.negative && d.bits > 0 then TWO64 - 1 - (TWO63 + d.bits) else TWO63 + d.bits
  }

  /** The key of a double that is no NaN: as `appendKeyColumn` computes it from the bits. */
  function FloatKey(d: Double): (key: seq<byte>)
    requires Representable(d)
    ensures |key| == 8
  {
    Widths();
    Encode(Rank(d), 8)
  }

  lemma ZeroMagnitude(bits: nat)
    ensures Magnitude(bits) == 0 <==> bits == 0
  {
    if bits > 0 { MagnitudeGrows(0, bits); }
  }

  lemma RankOrder(a: Double, b: Double)
    requires Representable(a) && Representable(b)
    ensures Number(a) < Number(b) ==> Rank(a) < Rank(b)
    ensures Number(a) == Number(b) ==> Rank(a) == Rank(b)
  {
    ZeroMagnitude(a.bits);
    ZeroMagnitude(b.bits);
    if a.bits > 0 { MagnitudeGrows(0, a.bits); }
    if b.bits > 0 { MagnitudeGrows(0, b.bits); }
    if a.bits < b.bits { MagnitudeGrows(a.bits, b.bits); }
    if b.bits < a.bits { MagnitudeGrows(b.bits, a.bits); }
  }

  /** Byte order is numeric order, and only the zeros share a key. */
  lemma FloatOrder(a: Double, b: Double)
    requires Representable(a) && Representable(b)
    ensures Number(a) < Number(b) ==> Ahead(FloatKey(a), FloatKey(b))
    ensures Number(a) == Number(b) ==> FloatKey(a) == FloatKey(b)
  {
    Widths();
    RankOrder(a, b);
    if Number(a) < Number(b) { IntegersAhead(Rank(a), Rank(b), 8); }
  }
}
