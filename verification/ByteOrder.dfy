/** When one encoding decides a comparison against another, whatever bytes follow either. */
module ByteOrder {
  import opened Bytes
  import opened BigEndian

  /** The strings differ at some byte both have, and the first such byte is smaller in `a`. */
  predicate Ahead(a: seq<byte>, b: seq<byte>) {
    a != [] && b != [] && (a[0] < b[0] || (a[0] == b[0] && Ahead(a[1..], b[1..])))
  }

  lemma AheadCons(p: byte, a: seq<byte>, q: byte, b: seq<byte>)
    ensures Ahead([p] + a, [q] + b) <==> p < q || (p == q && Ahead(a, b))
  {
    assert ([p] + a)[1..] == a && ([q] + b)[1..] == b;
  }

  lemma {:induction false} AheadExtends(a: seq<byte>, b: seq<byte>, x: seq<byte>, y: seq<byte>)
    requires Ahead(a, b)
    ensures Ahead(a + x, b + y)
  {
    assert (a + x)[1..] == a[1..] + x && (b + y)[1..] == b[1..] + y;
    if a[0] == b[0] { AheadExtends(a[1..], b[1..], x, y); }
  }

  lemma {:induction false} AheadBehind(p: seq<byte>, a: seq<byte>, b: seq<byte>)
    requires Ahead(a, b)
    ensures Ahead(p + a, p + b)
  {
    if p == [] {
      assert p + a == a && p + b == b;
    } else {
      AheadBehind(p[1..], a, b);
      assert (p + a)[1..] == p[1..] + a && (p + b)[1..] == p[1..] + b;
    }
  }

  lemma {:induction false} AheadIsLess(a: seq<byte>, b: seq<byte>)
    requires Ahead(a, b)
    ensures Less(a, b)
  {
    if a[0] == b[0] { AheadIsLess(a[1..], b[1..]); }
  }

  lemma {:induction false} AheadAsymmetric(a: seq<byte>, b: seq<byte>)
    requires Ahead(a, b)
    ensures !Ahead(b, a) && a != b
  {
    if a[0] == b[0] { AheadAsymmetric(a[1..], b[1..]); }
  }

  function Flip(b: byte): byte { 255 - b as int }

  /** Every byte inverted. */
  function Inverted(a: seq<byte>): (r: seq<byte>)
    ensures |r| == |a|
  {
    seq(|a|, i requires 0 <= i < |a| => Flip(a[i]))
  }

  lemma {:induction false} InvertedReverses(a: seq<byte>, b: seq<byte>)
    requires Ahead(a, b)
    ensures Ahead(Inverted(b), Inverted(a))
  {
    assert Inverted(a)[1..] == Inverted(a[1..]) && Inverted(b)[1..] == Inverted(b[1..]);
    if a[0] == b[0] { InvertedReverses(a[1..], b[1..]); }
  }

  /** A comparison of two strings that continue. */
  lemma ComparesAs(a: seq<byte>, b: seq<byte>, x: seq<byte>, y: seq<byte>)
    requires Ahead(a, b) || a == b || Ahead(b, a)
    ensures Less(a + x, b + y) <==> Ahead(a, b) || (a == b && Less(x, y))
    ensures a + x == b + y <==> a == b && x == y
  {
    if Ahead(a, b) {
      AheadExtends(a, b, x, y);
      AheadIsLess(a + x, b + y);
      AheadAsymmetric(a + x, b + y);
    } else if Ahead(b, a) {
      AheadExtends(b, a, y, x);
      AheadIsLess(b + y, a + x);
      LessAsymmetric(b + y, a + x);
      AheadAsymmetric(b, a);
    } else {
      LessBehind(a, x, y);
    }
  }

  lemma {:induction false} LessBehind(a: seq<byte>, x: seq<byte>, y: seq<byte>)
    ensures Less(a + x, a + y) <==> Less(x, y)
    ensures a + x == a + y <==> x == y
  {
    if a == [] {
      assert a + x == x && a + y == y;
    } else {
      LessBehind(a[1..], x, y);
      assert (a + x)[1..] == a[1..] + x && (a + y)[1..] == a[1..] + y;
      assert a + x == [a[0]] + (a[1..] + x) && a + y == [a[0]] + (a[1..] + y);
    }
  }

  /** Fixed-width integers. */
  lemma {:induction false} IntegersAhead(a: nat, b: nat, width: nat)
    requires a < b < Pow256(width)
    ensures Ahead(Encode(a, width), Encode(b, width))
    decreases width
  {
    if a / 256 == b / 256 {
      AheadCons(a % 256, [], b % 256, []);
      assert [a % 256] + [] == [a % 256] && [b % 256] + [] == [b % 256];
      AheadBehind(Encode(a / 256, width - 1), [a % 256], [b % 256]);
    } else {
      IntegersAhead(a / 256, b / 256, width - 1);
      AheadExtends(Encode(a / 256, width - 1), Encode(b / 256, width - 1), [a % 256], [b % 256]);
    }
  }
}
