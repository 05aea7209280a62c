/** Keys of DECIMAL columns (`appendDecimalKey`): numbers of any coefficient and exponent, normalised so that
    equal numbers have equal keys and byte order is numeric order. */
module DecimalKeys {
  import opened Bytes
  import opened Overlays
  import opened Sequences
  import opened BigEndian
  import opened ByteOrder

  /** A finite decimal: coefficient times a power of ten. */
  datatype Decimal = Decimal(negative: bool, coeff: nat, exponent: int)

  /** A number times a power of ten. */
  function Scaled(x: real, e: int): real
    decreases if e >= 0 then e else -e
  {
    if e == 0 then x else if e > 0 then 10.0 * Scaled(x, e - 1) else Scaled(x, e + 1) / 10.0
  }

  function Magnitude(d: Decimal): real { Scaled(d.coeff as real, d.exponent) }

  function Number(d: Decimal): real { if d.negative then -Magnitude(d) else Magnitude(d) }

  lemma {:induction false} ScaledLess(x: real, y: real, e: int)
    requires x < y
    ensures Scaled(x, e) < Scaled(y, e)
    decreases if e >= 0 then e else -e
  {
    if e > 0 { ScaledLess(x, y, e - 1); } else if e < 0 { ScaledLess(x, y, e + 1); }
  }

  lemma {:induction false} ScaledSum(x: real, y: real, e: int)
    ensures Scaled(x + y, e) == Scaled(x, e) + Scaled(y, e)
    decreases if e >= 0 then e else -e
  {
    if e > 0 { ScaledSum(x, y, e - 1); } else if e < 0 { ScaledSum(x, y, e + 1); }
  }

  lemma {:induction false} ScaledTen(x: real, e: int)
    ensures Scaled(10.0 * x, e) == 10.0 * Scaled(x, e) == Scaled(x, e + 1)
    decreases if e >= 0 then e else -e
  {
    if e > 0 { ScaledTen(x, e - 1); } else if e < 0 { ScaledTen(x, e + 1); }
  }

  lemma {:induction false} ScaledTwice(x: real, a: int, b: int)
    ensures Scaled(Scaled(x, a), b) == Scaled(x, a + b)
    decreases if b >= 0 then b else -b
  {
    if b > 0 {
      ScaledTwice(x, a, b - 1);
      ScaledTen(x, a + b - 1);
    } else if b < 0 {
      ScaledTwice(x, a, b + 1);
      ScaledTen(x, a + b);
    }
  }

  lemma {:induction false} ScaledGrows(x: real, a: int, b: int)
    requires x > 0.0 && a <= b
    ensures 0.0 < Scaled(x, a) <= Scaled(x, b)
    decreases b - a
  {
    ScaledLess(0.0, x, a);
    ScaledSum(0.0, 0.0, a);
    if a < b {
      ScaledGrows(x, a, b - 1);
      ScaledTen(x, b - 1);
    }
  }

  // Digits and the fraction they stand for.

  type digit = d: int | 0 <= d < 10

  function LastDigit(n: nat): digit { n % 10 }

  function Digits(n: nat): (ds: seq<digit>)
    ensures n > 0 ==> ds != [] && ds[0] > 0
  {
    if n == 0 then [] else Digits(n / 10) + [LastDigit(n)]
  }

  /** `0.d1 d2 ...` */
  function Fraction(ds: seq<digit>): (f: real)
    ensures 0.0 <= f < 1.0
  {
    if ds == [] then 0.0 else (ds[0] as real + Fraction(ds[1..])) / 10.0
  }

  /** `d1 d2 ...` as a whole number. */
  function Whole(ds: seq<digit>): real { Scaled(Fraction(ds), |ds|) }

  lemma TenthScaled(y: real, e: int)
    ensures Scaled(y / 10.0, e + 1) == Scaled(y, e)
  {
    var z := y / 10.0;
    assert 10.0 * z == y;
    ScaledTen(z, e);
  }

  lemma FractionCons(d: digit, ds: seq<digit>)
    ensures Fraction([d] + ds) == (d as real + Fraction(ds)) / 10.0
  {
    assert ([d] + ds)[1..] == ds;
  }

  lemma WholeIs(ds: seq<digit>, f: real, n: int)
    requires Fraction(ds) == f && |ds| == n
    ensures Whole(ds) == Scaled(f, n)
  {
  }

  lemma TenthOfSum(a: real, b: real, e: int)
    ensures Scaled((a + b) / 10.0, e + 1) == Scaled(a, e) + Scaled(b, e)
  {
    TenthScaled(a + b, e);
    ScaledSum(a, b, e);
  }

  lemma WholeCons(d: digit, ds: seq<digit>)
    ensures Whole([d] + ds) == Scaled(d as real, |ds|) + Whole(ds)
  {
    var first, rest, n := d as real, Fraction(ds), |ds|;
    FractionCons(d, ds);
    WholeIs([d] + ds, (first + rest) / 10.0, n + 1);
    WholeIs(ds, rest, n);
    TenthOfSum(first, rest, n);
  }

  lemma {:induction false} WholeSnoc(ds: seq<digit>, d: digit)
    ensures Whole(ds + [d]) == 10.0 * Whole(ds) + d as real
  {
    if ds == [] {
      WholeCons(d, []);
      assert [d] + [] == [d] && [] + [d] == [d];
    } else {
      WholeSnoc(ds[1..], d);
      WholeCons(ds[0], ds[1..]);
      WholeCons(ds[0], ds[1..] + [d]);
      assert ds == [ds[0]] + ds[1..] && ds + [d] == [ds[0]] + (ds[1..] + [d]);
      ScaledTen(ds[0] as real, |ds| - 1);
    }
  }

  /** The digits of a number stand for it. */
  lemma {:induction false} DigitsValue(n: nat)
    ensures n as real == Whole(Digits(n))
  {
    if n > 0 {
      DigitsValue(n / 10);
      WholeSnoc(Digits(n / 10), LastDigit(n));
      assert n == 10 * (n / 10) + n % 10;
    }
  }

  /** Trailing zeros dropped. */
  function Trimmed(ds: seq<digit>): (r: seq<digit>)
    ensures r != [] ==> r[|r| - 1] != 0
    ensures ds != [] && ds[0] > 0 ==> r != [] && r[0] == ds[0]
  {
    if ds == [] then [] else if ds[|ds| - 1] == 0 then Trimmed(ds[..|ds| - 1]) else ds
  }

  lemma {:induction false} TrailingZero(ds: seq<digit>)
    ensures Fraction(ds + [0]) == Fraction(ds)
  {
    if ds == [] {
      assert ds + [0] == [0];
    } else {
      TrailingZero(ds[1..]);
      assert (ds + [0])[1..] == ds[1..] + [0];
    }
  }

  lemma {:induction false} TrimmedFraction(ds: seq<digit>)
    ensures Fraction(Trimmed(ds)) == Fraction(ds)
  {
    if ds != [] && ds[|ds| - 1] == 0 {
      var n := |ds| - 1;
      TrimmedFraction(ds[..n]);
      TrailingZero(ds[..n]);
      assert ds == ds[..n] + [0];
    }
  }

  // Keys.

  const INT31 := 0x8000_0000

  /** The position of the decimal point, before the first digit. */
  function Point(d: Decimal): int { d.exponent + |Digits(d.coeff)| }

  function DigitByte(d: digit): byte { d as int + 1 }

  function DigitBytes(ds: seq<digit>): (b: seq<byte>) {
    if ds == [] then [0] else [DigitByte(ds[0])] + DigitBytes(ds[1..])
  }

  predicate InRange(d: Decimal) { d.coeff == 0 || -INT31 <= Point(d) < INT31 }

  function DigitCount(n: nat): nat { if n < 10 then 1 else 1 + DigitCount(n / 10) }

  lemma {:induction false} CountsDigits(n: nat)
    requires n > 0
    ensures |Digits(n)| == DigitCount(n)
  {
    if n >= 10 { CountsDigits(n / 10); } else { assert Digits(n / 10) == []; }
  }

  /** A decimal has a key unless its exponent, the point taken in front of its digits, does not fit 32 bits. Zero always has. */
  lemma DecimalRefused(d: Decimal)
    ensures DecimalKey(d).None? <==> d.coeff > 0 && !(-0x8000_0000 <= d.exponent + DigitCount(d.coeff) <= 0x7FFF_FFFF)
  {
    if d.coeff > 0 { CountsDigits(d.coeff); }
  }

  function Body(d: Decimal): seq<byte>
    requires -INT31 <= Point(d) < INT31
  {
    assert Pow256(4) == 0x1_0000_0000 by { Widths(); }
    Encode(Point(d) + INT31, 4) + DigitBytes(Trimmed(Digits(d.coeff)))
  }

  function DecimalKey(d: Decimal): Option<seq<byte>> {
    if d.coeff == 0 then Some([2])
    else if !InRange(d) then None
    else if d.negative then Some([1] + Inverted(Body(d)))
    else Some([3] + Body(d))
  }

  /** `appendDecimalKey`. */
  method AppendDecimalKey(dst: seq<byte>, d: Decimal) returns (r: Option<seq<byte>>)
    ensures r == match DecimalKey(d) case None => None case Some(k) => Some(dst + k)
  {
    if d.coeff == 0 { return Some(dst + [2]); }
    var digits := Digits(d.coeff);
    var exponent := d.exponent + |digits|;
    digits := Trim(digits);
    if exponent < -INT31 || exponent >= INT31 { return None; }
    var body := AppendBody(d, exponent, digits);
    if d.negative {
      var inverted := Invert(body);
      return Some(dst + ([1] + inverted));
    }
    return Some(dst + ([3] + body));
  }

  method AppendBody(d: Decimal, exponent: int, digits: seq<digit>) returns (body: seq<byte>)
    requires -INT31 <= exponent < INT31 && exponent == Point(d) && digits == Trimmed(Digits(d.coeff))
    ensures body == Body(d)
  {
    Widths();
    body := AppendDigits(Encode(exponent + INT31, 4), digits);
  }

  method Trim(digits: seq<digit>) returns (trimmed: seq<digit>)
    ensures trimmed == Trimmed(digits)
  {
    var end := |digits|;
    assert digits[..end] == digits;
    while end > 0 && digits[end - 1] == 0
      invariant 0 <= end <= |digits|
      invariant Trimmed(digits[..end]) == Trimmed(digits)
    {
      assert digits[..end][..end - 1] == digits[..end - 1];
      end := end - 1;
    }
    trimmed := digits[..end];
  }

  method AppendDigits(head: seq<byte>, digits: seq<digit>) returns (body: seq<byte>)
    ensures body == head + DigitBytes(digits)
  {
    body := head;
    assert digits[0..] == digits;
    for i := 0 to |digits|
      invariant body + DigitBytes(digits[i..]) == head + DigitBytes(digits)
    {
      assert digits[i..][1..] == digits[i + 1..];
      Regroup(body, [DigitByte(digits[i])], DigitBytes(digits[i + 1..]));
      body := body + [DigitByte(digits[i])];
    }
    body := body + [0];
  }

  method Invert(body: seq<byte>) returns (out: seq<byte>)
    ensures out == Inverted(body)
  {
    out := [];
    for i := 0 to |body|
      invariant out == Inverted(body)[..i]
    {
      out := out + [Flip(body[i])];
    }
  }

  // Order.

  /** Digit strings without trailing zeros order as fractions. */
  lemma {:induction false} DigitsOrder(a: seq<digit>, b: seq<digit>)
    requires (a != [] ==> a[|a| - 1] != 0) && (b != [] ==> b[|b| - 1] != 0)
    ensures Fraction(a) < Fraction(b) ==> Ahead(DigitBytes(a), DigitBytes(b))
    ensures Fraction(a) == Fraction(b) ==> a == b
  {
    if a == [] || b == [] {
      if a != [] { PositiveFraction(a); }
      if b != [] { PositiveFraction(b); }
    } else {
      AheadCons(DigitByte(a[0]), DigitBytes(a[1..]), DigitByte(b[0]), DigitBytes(b[1..]));
      if a[0] == b[0] {
        DigitsOrder(a[1..], b[1..]);
        assert a == [a[0]] + a[1..] && b == [b[0]] + b[1..];
      }
    }
  }

  lemma {:induction false} PositiveFraction(a: seq<digit>)
    requires a != [] && a[|a| - 1] != 0
    ensures Fraction(a) > 0.0
  {
    if |a| > 1 { PositiveFraction(a[1..]); }
  }

  /** A decimal that is not zero, as a fraction of at least a tenth and the place of its point. */
  lemma Normalised(d: Decimal)
    requires d.coeff > 0
    ensures var f := Fraction(Trimmed(Digits(d.coeff)));
            0.1 <= f < 1.0 && Magnitude(d) == Scaled(f, Point(d))
  {
    var ds := Digits(d.coeff);
    DigitsValue(d.coeff);
    TrimmedFraction(ds);
    ScaledTwice(Fraction(ds), |ds|, d.exponent);
    assert ds[0] as real >= 1.0;
  }

  lemma SmallerPoint(a: Decimal, b: Decimal)
    requires a.coeff > 0 && b.coeff > 0 && Point(a) < Point(b)
    ensures Magnitude(a) < Magnitude(b)
  {
    Normalised(a);
    Normalised(b);
    var f, g := Fraction(Trimmed(Digits(a.coeff))), Fraction(Trimmed(Digits(b.coeff)));
    ScaledLess(f, 1.0, Point(a));
    ScaledTen(0.1, Point(a));
    ScaledGrows(0.1, Point(a) + 1, Point(b));
    if g > 0.1 { ScaledLess(0.1, g, Point(b)); }
  }

  lemma SamePoint(a: Decimal, b: Decimal)
    requires a.coeff > 0 && b.coeff > 0 && Point(a) == Point(b)
    ensures var x, y := Trimmed(Digits(a.coeff)), Trimmed(Digits(b.coeff));
            && (Magnitude(a) < Magnitude(b) ==> Ahead(DigitBytes(x), DigitBytes(y)))
            && (Magnitude(a) == Magnitude(b) ==> x == y)
  {
    var x, y := Trimmed(Digits(a.coeff)), Trimmed(Digits(b.coeff));
    Normalised(a);
    Normalised(b);
    if Fraction(x) < Fraction(y) { ScaledLess(Fraction(x), Fraction(y), Point(a)); }
    if Fraction(y) < Fraction(x) { ScaledLess(Fraction(y), Fraction(x), Point(a)); }
    DigitsOrder(x, y);
  }

  lemma BodyAhead(a: Decimal, b: Decimal)
    requires a.coeff > 0 && b.coeff > 0 && InRange(a) && InRange(b)
    requires Point(a) < Point(b) || (Point(a) == Point(b) && Ahead(DigitBytes(Trimmed(Digits(a.coeff))), DigitBytes(Trimmed(Digits(b.coeff)))))
    ensures Ahead(Body(a), Body(b))
  {
    Widths();
    var x, y := DigitBytes(Trimmed(Digits(a.coeff))), DigitBytes(Trimmed(Digits(b.coeff)));
    if Point(a) < Point(b) {
      IntegersAhead(Point(a) + INT31, Point(b) + INT31, 4);
      AheadExtends(Encode(Point(a) + INT31, 4), Encode(Point(b) + INT31, 4), x, y);
    } else {
      AheadBehind(Encode(Point(a) + INT31, 4), x, y);
    }
  }

  /** Bodies order as magnitudes. */
  lemma BodyOrder(a: Decimal, b: Decimal)
    requires a.coeff > 0 && b.coeff > 0 && InRange(a) && InRange(b)
    ensures Magnitude(a) < Magnitude(b) ==> Ahead(Body(a), Body(b))
    ensures Magnitude(a) == Magnitude(b) ==> Body(a) == Body(b)
  {
    if Point(a) < Point(b) {
      SmallerPoint(a, b);
      BodyAhead(a, b);
    } else if Point(b) < Point(a) {
      SmallerPoint(b, a);
    } else {
      SamePoint(a, b);
      if Magnitude(a) < Magnitude(b) { BodyAhead(a, b); }
    }
  }

  lemma MagnitudeSign(d: Decimal)
    ensures if d.coeff == 0 then Magnitude(d) == 0.0 else Magnitude(d) > 0.0
  {
    ScaledSum(0.0, 0.0, d.exponent);
    if d.coeff > 0 { ScaledLess(0.0, d.coeff as real, d.exponent); }
  }

  /** Byte order is numeric order, and equal numbers, however written, have one key. */
  lemma DecimalOrder(a: Decimal, b: Decimal)
    requires DecimalKey(a).Some? && DecimalKey(b).Some?
    ensures Number(a) < Number(b) ==> Ahead(DecimalKey(a).value, DecimalKey(b).value)
    ensures Number(a) == Number(b) ==> DecimalKey(a) == DecimalKey(b)
  {
    MagnitudeSign(a);
    MagnitudeSign(b);
    if a.coeff > 0 && b.coeff > 0 {
      BodyOrder(a, b);
      BodyOrder(b, a);
      if a.negative && b.negative && Magnitude(b) < Magnitude(a) {
        InvertedReverses(Body(b), Body(a));
        AheadBehind([1], Inverted(Body(a)), Inverted(Body(b)));
      } else if !a.negative && !b.negative && Magnitude(a) < Magnitude(b) {
        AheadBehind([3], Body(a), Body(b));
      }
    }
  }
}
