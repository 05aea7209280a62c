/** Keys of string and binary columns (`appendEscaped`, `appendStringKey`): escaped bytes, UTF-8 for the default
    collation, code point weights for any other. */
module TextKeys {
  import opened Bytes
  import opened Sequences
  import opened BigEndian
  import opened ByteOrder

  // Escaping.

  function Escaped(b: seq<byte>): (r: seq<byte>)
    ensures |r| >= 2
  {
    if b == [] then [0x00, 0x01]
    else (if b[0] == 0 then [0x00, 0xFF] else [b[0]]) + Escaped(b[1..])
  }

  /** `appendEscaped`. */
  method AppendEscaped(dst: seq<byte>, b: seq<byte>) returns (r: seq<byte>)
    ensures r == dst + Escaped(b)
  {
    r := dst;
    assert b[0..] == b;
    for i := 0 to |b|
      invariant r + Escaped(b[i..]) == dst + Escaped(b)
    {
      assert b[i..][1..] == b[i + 1..];
      var c := b[i];
      Regroup(r, if c == 0 then [0x00, 0xFF] else [c], Escaped(b[i + 1..]));
      if c == 0x00 {
        r := r + [0x00, 0xFF];
        continue;
      }
      r := r + [c];
    }
    r := r + [0x00, 0x01];
  }

  /** A string sorts before every string it prefixes, and no escaped string is a prefix of another. */
  lemma {:induction false} EscapedOrder(a: seq<byte>, b: seq<byte>)
    requires Less(a, b)
    ensures Ahead(Escaped(a), Escaped(b))
  {
    if a == [] {
      if b[0] == 0 { AheadCons(0, [0x01], 0, [0xFF] + Escaped(b[1..])); }
    } else if a[0] < b[0] {
    } else if a[0] == 0 {
      EscapedOrder(a[1..], b[1..]);
      AheadBehind([0x00, 0xFF], Escaped(a[1..]), Escaped(b[1..]));
    } else {
      EscapedOrder(a[1..], b[1..]);
      AheadBehind([a[0]], Escaped(a[1..]), Escaped(b[1..]));
    }
  }

  // Strings of code points.

  type Rune = r: int | 0 <= r < 0x11_0000

  /** Rune by rune by weight, a prefix first. */
  predicate Below(weight: Rune -> int, a: seq<Rune>, b: seq<Rune>) {
    b != [] && (a == [] || weight(a[0]) < weight(b[0]) || (weight(a[0]) == weight(b[0]) && Below(weight, a[1..], b[1..])))
  }

  predicate SameWeights(weight: Rune -> int, a: seq<Rune>, b: seq<Rune>) {
    |a| == |b| && forall i :: 0 <= i < |a| ==> weight(a[i]) == weight(b[i])
  }

  function CodePoint(r: Rune): int { r }

  /** Section 3 of RFC 3629. */
  function Utf8(r: Rune): (b: seq<byte>)
    ensures 1 <= |b| <= 4
  {
    if r < 0x80 then [r as byte]
    else if r < 0x800 then [0xC0 + r / 0x40, 0x80 + r % 0x40]
    else if r < 0x1_0000 then [0xE0 + r / 0x1000, 0x80 + r / 0x40 % 0x40, 0x80 + r % 0x40]
    else [0xF0 + r / 0x4_0000, 0x80 + r / 0x1000 % 0x40, 0x80 + r / 0x40 % 0x40, 0x80 + r % 0x40]
  }

  /** A letter, an accented one, a currency sign and one beyond the basic plane. */
  lemma KnownUtf8()
    ensures Utf8(0x41) == [0x41] && Utf8(0xE9) == [0xC3, 0xA9] && Utf8(0x20AC) == [0xE2, 0x82, 0xAC]
    ensures Utf8(0x1F600) == [0xF0, 0x9F, 0x98, 0x80]
  {
  }

  function Utf8All(s: seq<Rune>): seq<byte> {
    if s == [] then [] else Utf8(s[0]) + Utf8All(s[1..])
  }

  /** The weight of a rune in four bytes, sign bit flipped. */
  function WeightBytes(weight: Rune -> int, s: seq<Rune>): seq<byte> {
    if s == [] then [] else WeightKey(weight(s[0])) + WeightBytes(weight, s[1..])
  }

  const INT31 := 0x8000_0000

  /** `uint32(weight(r)) ^ (1<<31)`, big-endian: the truncation to 32 bits included. */
  function WeightKey(w: int): (b: seq<byte>)
    ensures |b| == 4
  {
    Widths();
    Encode((w + INT31) % 0x1_0000_0000, 4)
  }

  /** Code point order is UTF-8 byte order. */
  lemma Utf8Order(a: Rune, b: Rune)
    requires a < b
    ensures Ahead(Utf8(a), Utf8(b))
  {
    if a < 0x80 {
    } else if a < 0x800 {
      if b < 0x800 { TwoBytes(a, b); }
    } else if a < 0x1_0000 {
      if b < 0x1_0000 { ThreeBytes(a, b); }
    } else {
      FourLong(a, b);
    }
  }

  lemma SplitOrder(a: int, b: int, n: int)
    requires n > 0 && a < b
    ensures a / n <= b / n && (a / n == b / n ==> a % n < b % n)
  {
    assert a == n * (a / n) + a % n && b == n * (b / n) + b % n;
    if a / n > b / n { Multiples(n, a / n, b / n + 1); }
  }

  lemma Multiples(n: int, x: int, y: int)
    requires n > 0 && x >= y
    ensures n * x >= n * y
  {
  }

  lemma TwoBytes(a: Rune, b: Rune)
    requires 0x80 <= a < b < 0x800
    ensures Ahead(Utf8(a), Utf8(b))
  {
    SplitOrder(a, b, 0x40);
    assert Utf8(a)[1..] == [0x80 + a % 0x40] && Utf8(b)[1..] == [0x80 + b % 0x40];
  }

  lemma Quotients(a: int)
    ensures a / 0x40 / 0x40 == a / 0x1000 && a / 0x1000 / 0x40 == a / 0x4_0000
  {
  }

  lemma ThreeBytes(a: Rune, b: Rune)
    requires 0x800 <= a < b < 0x1_0000
    ensures Ahead(Utf8(a), Utf8(b))
  {
    Quotients(a);
    Quotients(b);
    SplitOrder(a, b, 0x40);
    if a / 0x40 < b / 0x40 { SplitOrder(a / 0x40, b / 0x40, 0x40); }
    var x, y := Utf8(a), Utf8(b);
    assert x[1..] == [0x80 + a / 0x40 % 0x40, 0x80 + a % 0x40] && y[1..] == [0x80 + b / 0x40 % 0x40, 0x80 + b % 0x40];
    assert x[1..][1..] == [0x80 + a % 0x40] && y[1..][1..] == [0x80 + b % 0x40];
  }

  predicate Lexical(p: int, q: int, r: int, s: int, t: int, u: int, v: int, w: int) {
    p < t || (p == t && (q < u || (q == u && (r < v || (r == v && s < w)))))
  }

  lemma FourAhead(p: byte, q: byte, r: byte, s: byte, t: byte, u: byte, v: byte, w: byte)
    requires Lexical(p, q, r, s, t, u, v, w)
    ensures Ahead([p, q, r, s], [t, u, v, w])
  {
    AheadCons(r, [s], v, [w]);
    AheadCons(q, [r, s], u, [v, w]);
    AheadCons(p, [q, r, s], t, [u, v, w]);
    assert [r] + [s] == [r, s] && [v] + [w] == [v, w];
    assert [q] + [r, s] == [q, r, s] && [u] + [v, w] == [u, v, w];
    assert [p] + [q, r, s] == [p, q, r, s] && [t] + [u, v, w] == [t, u, v, w];
  }

  lemma SixBitDigits(a: int, b: int)
    requires a < b
    ensures Lexical(a / 0x4_0000, a / 0x1000 % 0x40, a / 0x40 % 0x40, a % 0x40, b / 0x4_0000, b / 0x1000 % 0x40, b / 0x40 % 0x40, b % 0x40)
  {
    Quotients(a);
    Quotients(b);
    SplitOrder(a, b, 0x40);
    if a / 0x40 < b / 0x40 { SplitOrder(a / 0x40, b / 0x40, 0x40); }
    if a / 0x1000 < b / 0x1000 { SplitOrder(a / 0x1000, b / 0x1000, 0x40); }
  }

  lemma FourLong(a: Rune, b: Rune)
    requires 0x1_0000 <= a < b
    ensures Ahead(Utf8(a), Utf8(b))
  {
    SixBitDigits(a, b);
    FourAhead(0xF0 + a / 0x4_0000, 0x80 + a / 0x1000 % 0x40, 0x80 + a / 0x40 % 0x40, 0x80 + a % 0x40,
              0xF0 + b / 0x4_0000, 0x80 + b / 0x1000 % 0x40, 0x80 + b / 0x40 % 0x40, 0x80 + b % 0x40);
  }

  /** Strings compare by code point as their UTF-8 bytes do. */
  lemma {:induction false} Utf8AllOrder(a: seq<Rune>, b: seq<Rune>)
    requires Below(CodePoint, a, b)
    ensures Less(Utf8All(a), Utf8All(b))
  {
    if a != [] {
      if a[0] == b[0] {
        Utf8AllOrder(a[1..], b[1..]);
        LessBehind(Utf8(a[0]), Utf8All(a[1..]), Utf8All(b[1..]));
      } else {
        Utf8Order(a[0], b[0]);
        AheadExtends(Utf8(a[0]), Utf8(b[0]), Utf8All(a[1..]), Utf8All(b[1..]));
        AheadIsLess(Utf8All(a), Utf8All(b));
      }
    }
  }

  ghost predicate Narrow(weight: Rune -> int) {
    forall r: Rune {:trigger weight(r)} :: -INT31 <= weight(r) < INT31
  }

  lemma NotWrapped(w: int)
    requires -INT31 <= w < INT31
    ensures 0 <= w + INT31 < Pow256(4) && WeightKey(w) == Encode(w + INT31, 4)
  {
    Widths();
    assert (w + INT31) % 0x1_0000_0000 == w + INT31;
  }

  lemma WeightOrder(v: int, w: int)
    requires -INT31 <= v < w < INT31
    ensures Ahead(WeightKey(v), WeightKey(w))
  {
    NotWrapped(v);
    NotWrapped(w);
    IntegersAhead(v + INT31, w + INT31, 4);
  }

  /** Strings compare by weight as their weight bytes do. */
  lemma {:induction false} WeightBytesOrder(weight: Rune -> int, a: seq<Rune>, b: seq<Rune>)
    requires Narrow(weight) && Below(weight, a, b)
    ensures Less(WeightBytes(weight, a), WeightBytes(weight, b))
  {
    if a != [] {
      if weight(a[0]) == weight(b[0]) {
        WeightBytesOrder(weight, a[1..], b[1..]);
        LessBehind(WeightKey(weight(a[0])), WeightBytes(weight, a[1..]), WeightBytes(weight, b[1..]));
      } else {
        WeightOrder(weight(a[0]), weight(b[0]));
        AheadExtends(WeightKey(weight(a[0])), WeightKey(weight(b[0])), WeightBytes(weight, a[1..]), WeightBytes(weight, b[1..]));
        AheadIsLess(WeightBytes(weight, a), WeightBytes(weight, b));
      }
    }
  }

  lemma {:induction false} WeightBytesSame(weight: Rune -> int, a: seq<Rune>, b: seq<Rune>)
    requires SameWeights(weight, a, b)
    ensures WeightBytes(weight, a) == WeightBytes(weight, b)
  {
    if a != [] { WeightBytesSame(weight, a[1..], b[1..]); }
  }

  const SPACE: Rune := 32

  /** Trailing spaces dropped, as CHAR compares. */
  function TrimRight(s: seq<Rune>): seq<Rune> {
    if s != [] && s[|s| - 1] == SPACE then TrimRight(s[..|s| - 1]) else s
  }

  /** What is dropped is spaces, all there are at the end. */
  lemma {:induction false} TrimRightDropsSpaces(s: seq<Rune>)
    ensures var t := TrimRight(s);
            && t <= s && (t != [] ==> t[|t| - 1] != SPACE)
            && forall i :: |t| <= i < |s| ==> s[i] == SPACE
  {
    if s != [] && s[|s| - 1] == SPACE { TrimRightDropsSpaces(s[..|s| - 1]); }
  }

  /** Two strings are below, alike or above. */
  lemma {:induction false} BelowTotal(weight: Rune -> int, a: seq<Rune>, b: seq<Rune>)
    ensures Below(weight, a, b) || SameWeights(weight, a, b) || Below(weight, b, a)
  {
    if a != [] && b != [] && weight(a[0]) == weight(b[0]) {
      BelowTotal(weight, a[1..], b[1..]);
      if SameWeights(weight, a[1..], b[1..]) {
        forall i | 0 <= i < |a| ensures weight(a[i]) == weight(b[i]) {
          if i > 0 { assert a[i] == a[1..][i - 1] && b[i] == b[1..][i - 1]; }
        }
      }
    }
  }
}
