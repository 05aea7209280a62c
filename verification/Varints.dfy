/** Variable-length and little-endian integers, as row and node blobs store them. */
module Varints {
  import opened Bytes
  import opened Overlays
  import opened Sequences
  import BigEndian

  const TWO63 := 0x8000_0000_0000_0000
  const TWO64 := 0x1_0000_0000_0000_0000

  function Low(n: nat): byte { n % 128 }

  function More(n: nat): byte { n % 128 + 128 }

  /** Seven bits a byte, least significant first, the high bit set on all but the last. */
  function Uvarint(n: nat): (b: seq<byte>)
    ensures b != []
  {
    if n < 128 then [Low(n)] else [More(n)] + Uvarint(n / 128)
  }

  /** The number that groups of seven bits stand for, the least significant first. */
  function Weighed(b: seq<byte>): nat { if b == [] then 0 else b[0] as nat % 128 + 128 * Weighed(b[1..]) }

  /** The layout: groups of seven bits that add up to the number, the high bit set on all bytes but the last, and no last byte
      of zeros but that of zero itself. */
  lemma {:induction false} UvarintLayout(n: nat)
    ensures var b := Uvarint(n);
            && Weighed(b) == n && b[|b| - 1] < 128 && (|b| > 1 ==> b[|b| - 1] > 0)
            && forall i :: 0 <= i < |b| - 1 ==> b[i] >= 128
  {
    if n >= 128 {
      UvarintLayout(n / 128);
      var rest := Uvarint(n / 128);
      assert Uvarint(n)[1..] == rest;
      forall i | 0 <= i < |Uvarint(n)| - 1 ensures Uvarint(n)[i] >= 128 { if i > 0 { assert Uvarint(n)[i] == rest[i - 1]; } }
    }
  }

  /** What reading gives: the number and how many bytes it took. `k` bytes were read before; at most ten are, and
      the tenth may hold one bit. */
  function ReadFrom(b: seq<byte>, k: nat): Option<(nat, nat)> {
    if b == [] || k >= 10 then None
    else if b[0] < 128 then (if k == 9 && b[0] > 1 then None else Some((b[0] as nat, 1)))
    else match ReadFrom(b[1..], k + 1)
         case None => None
         case Some(r) => Some((b[0] as nat - 128 + 128 * r.0, r.1 + 1))
  }

  function ReadUvarint(b: seq<byte>): Option<(nat, nat)> { ReadFrom(b, 0) }

  lemma {:induction false} ReadTakes(b: seq<byte>, k: nat)
    ensures ReadFrom(b, k).Some? ==> 1 <= ReadFrom(b, k).value.1 <= |b|
  {
    if b != [] && k < 10 && b[0] >= 128 { ReadTakes(b[1..], k + 1); }
  }

  /** How large a number may still be after `k` bytes. */
  function Room(k: nat): nat
    requires k <= 9
    decreases 9 - k
  {
    if k == 9 then 2 else 128 * Room(k + 1)
  }

  lemma RoomIs64()
    ensures Room(0) == TWO64
  {
    assert Room(8) == 128 * Room(9) && Room(7) == 128 * Room(8) && Room(6) == 128 * Room(7) && Room(5) == 128 * Room(6);
    assert Room(4) == 128 * Room(5) && Room(3) == 128 * Room(4) && Room(2) == 128 * Room(3) && Room(1) == 128 * Room(2);
  }

  lemma {:induction false} UvarintAt(n: nat, k: nat, rest: seq<byte>)
    requires k <= 9 && n < Room(k)
    ensures ReadFrom(Uvarint(n) + rest, k) == Some((n, |Uvarint(n)|))
    decreases n
  {
    var b := Uvarint(n) + rest;
    if n >= 128 {
      assert b[1..] == Uvarint(n / 128) + rest;
      UvarintAt(n / 128, k + 1, rest);
    }
  }

  /** A 64-bit number is read back, whatever follows. */
  lemma UvarintRoundTrip(n: nat, rest: seq<byte>)
    requires n < TWO64
    ensures ReadUvarint(Uvarint(n) + rest) == Some((n, |Uvarint(n)|))
  {
    RoomIs64();
    UvarintAt(n, 0, rest);
  }

  // Signed numbers.

  function Zigzag(i: int): nat { if i >= 0 then 2 * i else -2 * i - 1 }

  function Unzigzag(n: nat): int { if n % 2 == 0 then n / 2 else -((n + 1) / 2) }

  predicate Int64(i: int) { -TWO63 <= i < TWO63 }

  function Varint(i: int): (b: seq<byte>)
    ensures b != []
  {
    Uvarint(Zigzag(i))
  }

  function ReadVarint(b: seq<byte>): Option<(int, nat)> {
    match ReadUvarint(b) case None => None case Some(r) => Some((Unzigzag(r.0), r.1))
  }

  lemma VarintRoundTrip(i: int, rest: seq<byte>)
    requires Int64(i)
    ensures ReadVarint(Varint(i) + rest) == Some((i, |Varint(i)|))
  {
    UvarintRoundTrip(Zigzag(i), rest);
  }

  // Little-endian.

  function Last8(n: nat): byte { n % 256 }

  function Little(n: nat, width: nat): (b: seq<byte>)
    ensures |b| == width
    decreases width
  {
    if width == 0 then [] else [Last8(n)] + Little(n / 256, width - 1)
  }

  function ReadLittle(b: seq<byte>): nat { if b == [] then 0 else b[0] as nat + 256 * ReadLittle(b[1..]) }

  lemma {:induction false} LittleRoundTrip(n: nat, width: nat)
    requires n < BigEndian.Pow256(width)
    ensures ReadLittle(Little(n, width)) == n
    decreases width
  {
    if width > 0 {
      LittleRoundTrip(n / 256, width - 1);
      assert Little(n, width)[1..] == Little(n / 256, width - 1);
    }
  }

  // Magnitudes of any size, big-endian without leading zeros.

  function Magnitude(n: nat): seq<byte> { if n == 0 then [] else Magnitude(n / 256) + [Last8(n)] }

  function ReadMagnitude(b: seq<byte>): nat { if b == [] then 0 else 256 * ReadMagnitude(b[..|b| - 1]) + b[|b| - 1] as nat }

  lemma {:induction false} MagnitudeRoundTrip(n: nat)
    ensures ReadMagnitude(Magnitude(n)) == n
  {
    if n > 0 {
      MagnitudeRoundTrip(n / 256);
      assert Magnitude(n)[..|Magnitude(n)| - 1] == Magnitude(n / 256);
    }
  }

  // Length-prefixed bytes.

  function Counted(b: seq<byte>): seq<byte> { Uvarint(|b|) + b }

  /** Where a length-prefixed string's bytes lie. */
  function ReadSpan(b: seq<byte>): (r: Option<(nat, nat)>)
    ensures r.Some? ==> r.value.0 <= r.value.1 <= |b|
  {
    match ReadUvarint(b)
    case None => None
    case Some(r) =>
      ReadTakes(b, 0);
      if r.0 > |b| - r.1 then None else Some((r.1, r.1 + r.0))
  }

  lemma SpanRoundTrip(x: seq<byte>, rest: seq<byte>)
    requires |x| < TWO64
    ensures var b, n := Counted(x) + rest, |Uvarint(|x|)|;
            ReadSpan(b) == Some((n, n + |x|)) && b[n..n + |x|] == x && |Counted(x)| == n + |x|
  {
    UvarintRoundTrip(|x|, x + rest);
    Regroup(Uvarint(|x|), x, rest);
  }
}
