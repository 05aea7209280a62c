/** A SQL range over index columns as one interval of encoded keys (`engine/ranges.go`), exactly. */
module Ranges {
  import opened Bytes
  import opened Overlays
  import opened Sequences
  import opened Sorting
  import opened ByteOrder
  import opened KeyCodec
  import opened KeyIntervals

  /** A place between values: around NULL, around a value, or behind everything. */
  datatype Cut = BelowNull | AboveNull | Below(v: Value) | Above(v: Value) | AboveAll

  predicate Bounded(cut: Cut) { cut.Below? || cut.Above? }

  /** What one column of a range admits: what lies between two cuts. */
  datatype ColumnRange = ColumnRange(lower: Cut, upper: Cut)

  ghost predicate CutFits(c: Column, cut: Cut) { cut.Below? || cut.Above? ==> Fits(c, cut.v) }

  ghost predicate RangeFits(cs: seq<Column>, r: seq<ColumnRange>) {
    |r| <= |cs| && forall i :: 0 <= i < |r| ==> CutFits(cs[i], r[i].lower) && CutFits(cs[i], r[i].upper)
  }

  // What a range selects.

  ghost predicate AtLeast(c: Column, x: Cell, cut: Cut)
    requires CellFits(c, x) && CutFits(c, cut)
  {
    match cut
    case BelowNull => true
    case AboveNull => x.Some?
    case Below(v) => !CellBefore(c, x, Some(v))
    case Above(v) => !CellBefore(c, x, Some(v)) && !CellAlike(c, x, Some(v))
    case AboveAll => false
  }

  ghost predicate AtMost(c: Column, x: Cell, cut: Cut)
    requires CellFits(c, x) && CutFits(c, cut)
  {
    match cut
    case BelowNull => false
    case AboveNull => x.None?
    case Below(v) => CellBefore(c, x, Some(v))
    case Above(v) => CellBefore(c, x, Some(v)) || CellAlike(c, x, Some(v))
    case AboveAll => true
  }

  ghost predicate Satisfies(cs: seq<Column>, xs: seq<Cell>, r: seq<ColumnRange>)
    requires AllFit(cs, xs) && RangeFits(cs, r)
  {
    forall i :: 0 <= i < |r| ==> AtLeast(cs[i], xs[i], r[i].lower) && AtMost(cs[i], xs[i], r[i].upper)
  }

  /** A cut parts the cells in two: NULL from values, those below a value from it, it and those below from the rest, or none. */
  lemma CutsPart(c: Column, x: Cell, cut: Cut)
    requires CellFits(c, x) && CutFits(c, cut)
    ensures AtLeast(c, x, cut) <==> !AtMost(c, x, cut)
    ensures cut == BelowNull ==> AtLeast(c, x, cut)
    ensures cut == AboveNull ==> (AtLeast(c, x, cut) <==> x.Some?)
    ensures cut == AboveAll ==> AtMost(c, x, cut)
    ensures Bounded(cut) && x.None? ==> AtMost(c, x, cut)
    ensures Bounded(cut) && x.Some? && Before(c, x.value, cut.v) ==> AtMost(c, x, cut)
    ensures Bounded(cut) && x.Some? && ColumnKey(c, x.value).Some? && ColumnKey(c, cut.v).Some? && Before(c, cut.v, x.value) ==> AtLeast(c, x, cut)
    ensures Bounded(cut) && x.Some? && ColumnKey(c, x.value).Some? && ColumnKey(c, cut.v).Some? && Alike(c, x.value, cut.v) ==>
              (AtLeast(c, x, cut) <==> cut.Below?)
  {
    if Bounded(cut) && x.Some? && ColumnKey(c, x.value).Some? && ColumnKey(c, cut.v).Some? { ColumnApart(c, x.value, cut.v); }
  }

  // The supported shape.

  predicate IsAll(col: ColumnRange, nullable: bool) {
    col.upper == AboveAll && (col.lower == BelowNull || (col.lower == AboveNull && !nullable))
  }

  predicate IsPoint(col: ColumnRange) {
    if col.lower == BelowNull then col.upper == AboveNull
    else col.lower.Below? && col.upper.Above? && col.lower.v == col.upper.v
  }

  /** Points, then at most one ranged column, then unconstrained ones. */
  predicate Shaped(r: seq<ColumnRange>, nullable: bool) {
    r == [] || (if IsAll(r[0], nullable) then Free(r[1..], nullable)
                else if IsPoint(r[0]) then Shaped(r[1..], nullable)
                else Free(r[1..], nullable))
  }

  /** The same, without recursion. */
  ghost predicate PointsFirst(r: seq<ColumnRange>, nullable: bool) {
    exists n :: 0 <= n <= |r| && PointsUpTo(r, nullable, n)
  }

  predicate PointsUpTo(r: seq<ColumnRange>, nullable: bool, n: nat)
    requires n <= |r|
  {
    AllPoints(r[..n]) && (n < |r| ==> Free(r[n + 1..], nullable))
  }

  predicate AllPoints(r: seq<ColumnRange>) { forall i :: 0 <= i < |r| ==> IsPoint(r[i]) }

  lemma {:induction false} ShapedExactly(r: seq<ColumnRange>, nullable: bool)
    ensures Shaped(r, nullable) <==> PointsFirst(r, nullable)
  {
    if r == [] {
      assert PointsUpTo(r, nullable, 0);
    } else {
      ShapedExactly(r[1..], nullable);
      if Free(r[1..], nullable) { assert PointsUpTo(r, nullable, 0); }
      if IsPoint(r[0]) && PointsFirst(r[1..], nullable) {
        var n :| 0 <= n <= |r| - 1 && PointsUpTo(r[1..], nullable, n);
        PointFirst(r, nullable, n);
      }
      if PointsFirst(r, nullable) {
        var n :| 0 <= n <= |r| && PointsUpTo(r, nullable, n);
        if n > 0 { LaterPoints(r, nullable, n); }
      }
    }
  }

  lemma PointFirst(r: seq<ColumnRange>, nullable: bool, n: nat)
    requires r != [] && IsPoint(r[0]) && n <= |r| - 1 && PointsUpTo(r[1..], nullable, n)
    ensures PointsUpTo(r, nullable, n + 1)
  {
    assert r[..n + 1] == [r[0]] + r[1..][..n];
    if n + 1 < |r| { assert r[1..][n + 1..] == r[n + 2..]; }
  }

  lemma LaterPoints(r: seq<ColumnRange>, nullable: bool, n: nat)
    requires 0 < n <= |r| && PointsUpTo(r, nullable, n)
    ensures IsPoint(r[0]) && PointsFirst(r[1..], nullable)
  {
    assert r[..n][0] == r[0];
    assert r[1..][..n - 1] == r[..n][1..];
    if n < |r| { assert r[1..][n..] == r[n + 1..]; }
    assert PointsUpTo(r[1..], nullable, n - 1);
  }

  predicate Free(r: seq<ColumnRange>, nullable: bool) {
    forall i :: 0 <= i < |r| ==> IsAll(r[i], nullable)
  }

  /** `rangeShapeSupported`. */
  method RangeShapeSupported(r: seq<ColumnRange>, nullable: bool) returns (supported: bool)
    ensures supported <==> Shaped(r, nullable)
    ensures supported <==> PointsFirst(r, nullable)
  {
    var ranged := false;
    assert r[0..] == r;
    ShapedExactly(r, nullable);
    for i := 0 to |r|
      invariant Shaped(r, nullable) <==> if ranged then Free(r[i..], nullable) else Shaped(r[i..], nullable)
    {
      var col, rest := r[i], r[i..];
      assert rest[1..] == r[i + 1..] && rest[0] == col;
      FreeCons(rest, nullable);
      if IsAll(col, nullable) {
        ranged := true;
      } else if ranged {
        return false;
      } else if !IsPoint(col) {
        ranged := true;
      }
    }
    return true;
  }

  lemma FreeCons(r: seq<ColumnRange>, nullable: bool)
    requires r != []
    ensures Free(r, nullable) <==> IsAll(r[0], nullable) && Free(r[1..], nullable)
  {
    if IsAll(r[0], nullable) && Free(r[1..], nullable) {
      forall i | 0 <= i < |r| ensures IsAll(r[i], nullable) { if i > 0 { assert IsAll(r[1..][i - 1], nullable); } }
    }
    if Free(r, nullable) {
      forall i | 0 <= i < |r| - 1 ensures IsAll(r[1..][i], nullable) { assert IsAll(r[i + 1], nullable); }
    }
  }

  // The interval of a range.

  /** `Nothing` when no key can be in range, `Refused` when a bound has no key. */
  datatype KeyRange = Keys(iv: Interval) | Nothing | Refused

  predicate Admits(kr: KeyRange, k: Key) { kr.Keys? && kr.iv.Contains(k) }

  function Marker(nullable: bool, b: byte): Key { if nullable then [b] else [] }

  ghost function BoundKey(nullable: bool, c: Column, v: Value): Option<Key>
    requires Fits(c, v)
  {
    match ColumnKey(c, v) case None => None case Some(k) => Some(Marker(nullable, 0x01) + k)
  }

  /** `lowerCutKey`: the outer `None` is a refusal, the inner one "no key". */
  ghost function LowerKey(prefix: Key, nullable: bool, c: Column, cut: Cut): Option<Option<Key>>
    requires CutFits(c, cut)
  {
    match cut
    case BelowNull => Some(Some(prefix + Marker(nullable, 0x00)))
    case AboveNull => Some(Some(prefix + Marker(nullable, 0x01)))
    case Below(v) => (match BoundKey(nullable, c, v) case None => None case Some(k) => Some(Some(prefix + k)))
    case Above(v) => (match BoundKey(nullable, c, v) case None => None case Some(k) => Some(PrefixEnd(prefix + k)))
    case AboveAll => Some(PrefixEnd(prefix))
  }

  /** `upperCutKey`: the inner `None` is "no end". */
  ghost function UpperKey(prefix: Key, nullable: bool, c: Column, cut: Cut): Option<Option<Key>>
    requires CutFits(c, cut)
  {
    match cut
    case AboveAll => Some(PrefixEnd(prefix))
    case Below(v) => (match BoundKey(nullable, c, v) case None => None case Some(k) => Some(Some(prefix + k)))
    case Above(v) => (match BoundKey(nullable, c, v) case None => None case Some(k) => Some(PrefixEnd(prefix + k)))
    case AboveNull => Some(Some(prefix + Marker(nullable, 0x01)))
    case BelowNull => Some(Some(prefix + Marker(nullable, 0x00)))
  }

  ghost function RangedKeys(prefix: Key, nullable: bool, c: Column, col: ColumnRange): KeyRange
    requires CutFits(c, col.lower) && CutFits(c, col.upper)
  {
    match LowerKey(prefix, nullable, c, col.lower)
    case None => Refused
    case Some(start) =>
      if start.None? then Nothing
      else match UpperKey(prefix, nullable, c, col.upper)
           case None => Refused
           case Some(end) => Keys(Interval(start.value, end))
  }

  /** The key of a point column. */
  ghost function PointKey(nullable: bool, c: Column, col: ColumnRange): Option<Key>
    requires CutFits(c, col.lower) && IsPoint(col) && (col.lower == BelowNull ==> nullable)
  {
    if col.lower == BelowNull then Some([0x00]) else BoundKey(nullable, c, col.lower.v)
  }

  ghost function RangeFrom(prefix: Key, cs: seq<Column>, nullable: bool, r: seq<ColumnRange>): KeyRange
    requires RangeFits(cs, r)
    decreases |r|
  {
    if r == [] || IsAll(r[0], nullable) then Keys(Interval(prefix, PrefixEnd(prefix)))
    else if !IsPoint(r[0]) then RangedKeys(prefix, nullable, cs[0], r[0])
    else if r[0].lower == BelowNull && !nullable then Nothing
    else match PointKey(nullable, cs[0], r[0])
         case None => Refused
         case Some(k) => RangeFrom(prefix + k, cs[1..], nullable, r[1..])
  }

  // When a range is refused.

  /** A bound of the column is a value without a key. */
  ghost predicate KeylessBound(col: ColumnRange) {
    (Bounded(col.lower) && Keyless(col.lower.v)) || (Bounded(col.upper) && Keyless(col.upper.v))
  }

  ghost predicate SomeKeyless(r: seq<ColumnRange>) { exists i :: 0 <= i < |r| && KeylessBound(r[i]) }

  lemma BoundRefused(nullable: bool, c: Column, v: Value)
    requires Fits(c, v)
    ensures BoundKey(nullable, c, v).None? <==> Keyless(v)
  {
    KeylessExactly(c, v);
  }

  lemma RangedRefused(prefix: Key, nullable: bool, c: Column, col: ColumnRange)
    requires CutFits(c, col.lower) && CutFits(c, col.upper)
    ensures RangedKeys(prefix, nullable, c, col).Refused? ==> KeylessBound(col)
    ensures Bounded(col.lower) && Keyless(col.lower.v) ==> RangedKeys(prefix, nullable, c, col).Refused?
  {
    if Bounded(col.lower) { BoundRefused(nullable, c, col.lower.v); }
    if Bounded(col.upper) { BoundRefused(nullable, c, col.upper.v); }
  }

  /** A range is refused only if one of its bounds is a value without a key, and it is if the first column's lower one is. */
  lemma {:induction false} RangeRefused(prefix: Key, cs: seq<Column>, nullable: bool, r: seq<ColumnRange>)
    requires RangeFits(cs, r)
    ensures RangeFrom(prefix, cs, nullable, r).Refused? ==> SomeKeyless(r)
    ensures r != [] && Bounded(r[0].lower) && Keyless(r[0].lower.v) ==> RangeFrom(prefix, cs, nullable, r).Refused?
    decreases |r|
  {
    if r != [] && !IsAll(r[0], nullable) {
      if !IsPoint(r[0]) {
        RangedRefused(prefix, nullable, cs[0], r[0]);
      } else if !(r[0].lower == BelowNull && !nullable) {
        if r[0].lower.Below? { BoundRefused(nullable, cs[0], r[0].lower.v); }
        var k := PointKey(nullable, cs[0], r[0]);
        if k.Some? {
          RangeRefused(prefix + k.value, cs[1..], nullable, r[1..]);
          if SomeKeyless(r[1..]) {
            var i :| 0 <= i < |r| - 1 && KeylessBound(r[1..][i]);
            assert r[i + 1] == r[1..][i];
          }
        }
      }
    }
  }

  method AppendBoundValue(prefix: Key, nullable: bool, c: Column, v: Value) returns (r: Option<Key>)
    requires Fits(c, v)
    ensures r == match BoundKey(nullable, c, v) case None => None case Some(k) => Some(prefix + k)
  {
    var out := if nullable then prefix + [0x01] else prefix;
    r := AppendKeyColumn(out, c, v);
    assert prefix + [] == prefix;
    if r.Some? { Regroup(prefix, Marker(nullable, 0x01), ColumnKey(c, v).value); }
  }

  method LowerCutKey(prefix: Key, nullable: bool, c: Column, cut: Cut) returns (refused: bool, start: Option<Key>)
    requires CutFits(c, cut)
    ensures refused <==> LowerKey(prefix, nullable, c, cut).None?
    ensures !refused ==> LowerKey(prefix, nullable, c, cut) == Some(start)
  {
    match cut {
      case BelowNull => return false, Some(prefix + Marker(nullable, 0x00));
      case AboveNull => return false, Some(prefix + Marker(nullable, 0x01));
      case Below(v) =>
        start := AppendBoundValue(prefix, nullable, c, v);
        return start.None?, start;
      case Above(v) =>
        var key := AppendBoundValue(prefix, nullable, c, v);
        if key.None? { return true, None; }
        start := KeyPrefixEnd(key.value);
        return false, start;
      case AboveAll =>
        start := KeyPrefixEnd(prefix);
        return false, start;
    }
  }

  method UpperCutKey(prefix: Key, nullable: bool, c: Column, cut: Cut) returns (refused: bool, end: Option<Key>)
    requires CutFits(c, cut)
    ensures refused <==> UpperKey(prefix, nullable, c, cut).None?
    ensures !refused ==> UpperKey(prefix, nullable, c, cut) == Some(end)
  {
    match cut {
      case AboveAll =>
        end := KeyPrefixEnd(prefix);
        return false, end;
      case Below(v) =>
        end := AppendBoundValue(prefix, nullable, c, v);
        return end.None?, end;
      case Above(v) =>
        var key := AppendBoundValue(prefix, nullable, c, v);
        if key.None? { return true, None; }
        end := KeyPrefixEnd(key.value);
        return false, end;
      case AboveNull => return false, Some(prefix + Marker(nullable, 0x01));
      case BelowNull => return false, Some(prefix + Marker(nullable, 0x00));
    }
  }

  /** `rangeInterval`. */
  method RangeInterval(cs: seq<Column>, nullable: bool, r: seq<ColumnRange>) returns (kr: KeyRange)
    requires RangeFits(cs, r)
    ensures kr == RangeFrom([], cs, nullable, r)
  {
    var prefix: Key := [];
    assert r[0..] == r && cs[0..] == cs;
    for i := 0 to |r|
      invariant RangeFits(cs[i..], r[i..])
      invariant RangeFrom(prefix, cs[i..], nullable, r[i..]) == RangeFrom([], cs, nullable, r)
    {
      var col := r[i];
      assert r[i..][1..] == r[i + 1..] && cs[i..][1..] == cs[i + 1..];
      if IsAll(col, nullable) {
        var end := KeyPrefixEnd(prefix);
        return Keys(Interval(prefix, end));
      }
      if !IsPoint(col) {
        var refused, start := LowerCutKey(prefix, nullable, cs[i], col.lower);
        if refused { return Refused; }
        if start.None? { return Nothing; }
        var end;
        refused, end := UpperCutKey(prefix, nullable, cs[i], col.upper);
        if refused { return Refused; }
        return Keys(Interval(start.value, end));
      }
      if col.lower == BelowNull {
        if !nullable { return Nothing; }
        prefix := prefix + [0x00];
        continue;
      }
      var next := AppendBoundValue(prefix, nullable, cs[i], col.lower.v);
      if next.None? { return Refused; }
      prefix := next.value;
    }
    var end := KeyPrefixEnd(prefix);
    return Keys(Interval(prefix, end));
  }

  // Exactness.

  /** A key compared with a bound behind a common prefix. */
  lemma {:induction false} BehindPrefix(p: Key, tail: Key, q: Key)
    ensures Less(p + tail, p + q) <==> Less(tail, q)
    ensures PrefixEnd(p + q).Some? ==> (Less(p + tail, PrefixEnd(p + q).value) <==> Less(tail, q) || q <= tail)
    ensures PrefixEnd(p + q).None? ==> Less(tail, q) || q <= tail
  {
    LessBehind(p, tail, q);
    BelowPrefixEnd(p + tail, p + q);
    SamePrefix(p, q, tail);
  }

  lemma SamePrefix(p: Key, q: Key, tail: Key)
    ensures p + q <= p + tail <==> q <= tail
  {
    if q <= tail { assert p + tail == (p + q) + tail[|q|..]; }
    if p + q <= p + tail { assert q == (p + q)[|p|..] && tail == (p + tail)[|p|..] && (p + tail)[..|p + q|] == p + q; assert tail[..|q|] == q; }
  }

  /** A cell's key, whatever follows, against a bound's key. */
  lemma CellAgainst(marked: bool, c: Column, x: Cell, v: Value, rest: Key)
    requires CellFits(c, x) && Fits(c, v) && (!marked ==> x.Some?)
    requires CellOrPlain(marked, c, x).Some? && BoundKey(marked, c, v).Some?
    ensures var tail, q := CellOrPlain(marked, c, x).value + rest, BoundKey(marked, c, v).value;
            && (Less(tail, q) <==> CellBefore(c, x, Some(v)))
            && (q <= tail <==> CellAlike(c, x, Some(v)))
  {
    var k, q := CellOrPlain(marked, c, x).value, BoundKey(marked, c, v).value;
    assert q == CellOrPlain(marked, c, Some(v)).value by { assert [] + ColumnKey(c, v).value == ColumnKey(c, v).value; }
    CellOrder(marked, c, x, Some(v));
    CellOrder(marked, c, Some(v), x);
    assert q + [] == q;
    ComparesAs(k, q, rest, []);
    if Ahead(k, q) { AheadAsymmetric(k, q); NotPrefix(k, q, rest); }
    if Ahead(q, k) { AheadAsymmetric(q, k); NotPrefix(k, q, rest); }
  }

  lemma NotPrefix(k: Key, q: Key, rest: Key)
    requires Ahead(k, q) || Ahead(q, k)
    ensures !(q <= k + rest)
  {
    if q <= k + rest {
      var more := (k + rest)[|q|..];
      assert k + rest == q + more;
      if Ahead(k, q) {
        AheadExtends(k, q, rest, more);
        AheadAsymmetric(k + rest, q + more);
      } else {
        AheadExtends(q, k, more, rest);
        AheadAsymmetric(q + more, k + rest);
      }
    }
  }

  /** The start of a ranged column keeps exactly the cells its lower bound admits. */
  lemma LowerExact(prefix: Key, nullable: bool, c: Column, x: Cell, cut: Cut, rest: Key)
    requires CellFits(c, x) && CutFits(c, cut) && (!nullable ==> x.Some?) && CellOrPlain(nullable, c, x).Some?
    requires LowerKey(prefix, nullable, c, cut).Some?
    ensures var key, start := prefix + (CellOrPlain(nullable, c, x).value + rest), LowerKey(prefix, nullable, c, cut).value;
            (start.Some? && !Less(key, start.value)) <==> AtLeast(c, x, cut)
  {
    var tail := CellOrPlain(nullable, c, x).value + rest;
    match cut
    case BelowNull => MarkerAgainst(nullable, c, x, rest); BehindPrefix(prefix, tail, Marker(nullable, 0x00));
    case AboveNull => MarkerAgainst(nullable, c, x, rest); BehindPrefix(prefix, tail, Marker(nullable, 0x01));
    case Below(v) => CellAgainst(nullable, c, x, v, rest); BehindPrefix(prefix, tail, BoundKey(nullable, c, v).value);
    case Above(v) => CellAgainst(nullable, c, x, v, rest); BehindPrefix(prefix, tail, BoundKey(nullable, c, v).value);
    case AboveAll => BehindPrefix(prefix, tail, []); assert prefix + [] == prefix;
  }

  /** And its end, the cells its upper bound admits. */
  lemma UpperExact(prefix: Key, nullable: bool, c: Column, x: Cell, cut: Cut, rest: Key)
    requires CellFits(c, x) && CutFits(c, cut) && (!nullable ==> x.Some?) && CellOrPlain(nullable, c, x).Some?
    requires UpperKey(prefix, nullable, c, cut).Some?
    ensures var key, end := prefix + (CellOrPlain(nullable, c, x).value + rest), UpperKey(prefix, nullable, c, cut).value;
            (end.Some? ==> Less(key, end.value)) <==> AtMost(c, x, cut)
  {
    var tail := CellOrPlain(nullable, c, x).value + rest;
    match cut
    case BelowNull => MarkerAgainst(nullable, c, x, rest); BehindPrefix(prefix, tail, Marker(nullable, 0x00));
    case AboveNull => MarkerAgainst(nullable, c, x, rest); BehindPrefix(prefix, tail, Marker(nullable, 0x01));
    case Below(v) => CellAgainst(nullable, c, x, v, rest); BehindPrefix(prefix, tail, BoundKey(nullable, c, v).value);
    case Above(v) => CellAgainst(nullable, c, x, v, rest); BehindPrefix(prefix, tail, BoundKey(nullable, c, v).value);
    case AboveAll => BehindPrefix(prefix, tail, []); assert prefix + [] == prefix;
  }

  /** The markers split cells into NULL and not; without markers there is no NULL to split off. */
  lemma MarkerAgainst(nullable: bool, c: Column, x: Cell, rest: Key)
    requires CellFits(c, x) && (!nullable ==> x.Some?) && CellOrPlain(nullable, c, x).Some?
    ensures var tail := CellOrPlain(nullable, c, x).value + rest;
            !Less(tail, Marker(nullable, 0x00)) && (Less(tail, Marker(nullable, 0x01)) <==> x.None?)
  {
    if nullable {
      var tail := CellOrPlain(nullable, c, x).value + rest;
      assert tail[0] == if x.None? then 0x00 else 0x01;
    }
  }

  // Keys outside the prefix.

  lemma {:induction false} PrefixOrApart(p: Key, k: Key)
    ensures Less(k, p) || p <= k || Ahead(p, k)
  {
    if p != [] && k != [] && p[0] == k[0] {
      PrefixOrApart(p[1..], k[1..]);
      assert p == [p[0]] + p[1..] && k == [k[0]] + k[1..];
      PrefixCons(p[0], p[1..], k[0], k[1..]);
    }
  }

  /** Below an extension of a prefix is below the prefix or starts with it. */
  lemma BelowExtension(k: Key, p: Key, u: Key)
    ensures Less(k, p + u) || p + u <= k ==> Less(k, p) || p <= k
  {
    PrefixOrApart(p, k);
    if Ahead(p, k) {
      AheadExtends(p, k, u, []);
      assert k + [] == k;
      AheadIsLess(p + u, k);
      LessAsymmetric(p + u, k);
      NotPrefix(p, k, u);
      if p + u <= k { AheadExtends(p, k, u, []); PrefixNotAhead(p + u, k); }
    }
  }

  lemma {:induction false} PrefixNotAhead(p: Key, k: Key)
    requires p <= k
    ensures !Ahead(p, k)
  {
    if p != [] {
      assert p[1..] <= k[1..];
      PrefixNotAhead(p[1..], k[1..]);
    }
  }

  lemma NotBelowExtension(k: Key, p: Key, u: Key)
    ensures !Less(k, p + u) ==> !Less(k, p)
  {
    NotBelowPrefix(p, p + u);
    if !Less(k, p + u) { AtMostTransitive(p, p + u, k); }
  }

  lemma StartBehind(prefix: Key, nullable: bool, c: Column, cut: Cut, k: Key)
    requires CutFits(c, cut) && LowerKey(prefix, nullable, c, cut).Some?
    ensures var start := LowerKey(prefix, nullable, c, cut).value;
            start.Some? && !Less(k, start.value) ==> !Less(k, prefix)
  {
    match cut
    case BelowNull => NotBelowExtension(k, prefix, Marker(nullable, 0x00));
    case AboveNull => NotBelowExtension(k, prefix, Marker(nullable, 0x01));
    case Below(v) => NotBelowExtension(k, prefix, BoundKey(nullable, c, v).value);
    case Above(v) =>
      var q := BoundKey(nullable, c, v).value;
      NotBelowExtension(k, prefix, q);
      BelowPrefixEnd(k, prefix + q);
    case AboveAll => BelowPrefixEnd(k, prefix);
  }

  lemma EndBehind(prefix: Key, nullable: bool, c: Column, cut: Cut, k: Key)
    requires CutFits(c, cut) && UpperKey(prefix, nullable, c, cut).Some?
    ensures var end := UpperKey(prefix, nullable, c, cut).value;
            (end.Some? ==> Less(k, end.value)) ==> Less(k, prefix) || prefix <= k
  {
    match cut
    case BelowNull => BelowExtension(k, prefix, Marker(nullable, 0x00));
    case AboveNull => BelowExtension(k, prefix, Marker(nullable, 0x01));
    case Below(v) => BelowExtension(k, prefix, BoundKey(nullable, c, v).value);
    case Above(v) =>
      var q := BoundKey(nullable, c, v).value;
      BelowExtension(k, prefix, q);
      BelowPrefixEnd(k, prefix + q);
    case AboveAll => BelowPrefixEnd(k, prefix);
  }

  /** A range behind a prefix admits only keys that start with the prefix. */
  lemma {:induction false} AdmitsPrefixed(prefix: Key, cs: seq<Column>, nullable: bool, r: seq<ColumnRange>, k: Key)
    requires RangeFits(cs, r) && Admits(RangeFrom(prefix, cs, nullable, r), k)
    ensures prefix <= k
    decreases |r|
  {
    if r == [] || IsAll(r[0], nullable) {
      PrefixInterval(prefix, k);
    } else if !IsPoint(r[0]) {
      StartBehind(prefix, nullable, cs[0], r[0].lower, k);
      EndBehind(prefix, nullable, cs[0], r[0].upper, k);
    } else {
      var p := PointKey(nullable, cs[0], r[0]).value;
      AdmitsPrefixed(prefix + p, cs[1..], nullable, r[1..], k);
      assert prefix <= prefix + p;
    }
  }

  // The theorem.

  lemma FreeSatisfies(cs: seq<Column>, xs: seq<Cell>, nullable: bool, r: seq<ColumnRange>)
    requires AllFit(cs, xs) && RangeFits(cs, r) && Cells(nullable, cs, xs).Some? && Free(r, nullable)
    ensures Satisfies(cs, xs, r)
  {
    forall i | 0 <= i < |r| ensures AtLeast(cs[i], xs[i], r[i].lower) && AtMost(cs[i], xs[i], r[i].upper) {
      assert IsAll(r[i], nullable);
      if !nullable { CellsNotNull(cs, xs, i); }
    }
  }

  /** A primary key has no NULL. */
  lemma {:induction false} CellsNotNull(cs: seq<Column>, xs: seq<Cell>, i: nat)
    requires AllFit(cs, xs) && Cells(false, cs, xs).Some? && i < |cs|
    ensures xs[i].Some?
  {
    if i > 0 { CellsNotNull(cs[1..], xs[1..], i - 1); }
  }

  lemma SatisfiesCons(cs: seq<Column>, xs: seq<Cell>, r: seq<ColumnRange>)
    requires AllFit(cs, xs) && RangeFits(cs, r) && r != []
    ensures RangeFits(cs[1..], r[1..])
    ensures Satisfies(cs, xs, r) <==>
              AtLeast(cs[0], xs[0], r[0].lower) && AtMost(cs[0], xs[0], r[0].upper) && Satisfies(cs[1..], xs[1..], r[1..])
  {
    forall i | 0 <= i < |r| - 1 ensures r[1..][i] == r[i + 1] && cs[1..][i] == cs[i + 1] && xs[1..][i] == xs[i + 1] {}
    if AtLeast(cs[0], xs[0], r[0].lower) && AtMost(cs[0], xs[0], r[0].upper) && Satisfies(cs[1..], xs[1..], r[1..]) {
      forall i | 0 <= i < |r| ensures AtLeast(cs[i], xs[i], r[i].lower) && AtMost(cs[i], xs[i], r[i].upper) {
        if i > 0 { assert AtLeast(cs[1..][i - 1], xs[1..][i - 1], r[1..][i - 1].lower) && AtMost(cs[1..][i - 1], xs[1..][i - 1], r[1..][i - 1].upper); }
      }
    }
    if Satisfies(cs, xs, r) {
      forall i | 0 <= i < |r| - 1
        ensures AtLeast(cs[1..][i], xs[1..][i], r[1..][i].lower) && AtMost(cs[1..][i], xs[1..][i], r[1..][i].upper)
      {
        assert AtLeast(cs[i + 1], xs[i + 1], r[i + 1].lower) && AtMost(cs[i + 1], xs[i + 1], r[i + 1].upper);
      }
    }
  }

  /** A point column: the cell meets it if and only if the point's key begins the rest of the row's key. */
  lemma PointExact(nullable: bool, c: Column, x: Cell, col: ColumnRange, rest: Key)
    requires CellFits(c, x) && CutFits(c, col.lower) && CutFits(c, col.upper) && (!nullable ==> x.Some?)
    requires IsPoint(col) && (col.lower == BelowNull ==> nullable) && PointKey(nullable, c, col).Some? && CellOrPlain(nullable, c, x).Some?
    ensures var k, p := CellOrPlain(nullable, c, x).value, PointKey(nullable, c, col).value;
            var met := AtLeast(c, x, col.lower) && AtMost(c, x, col.upper);
            (met ==> k == p) && (met <==> p <= k + rest)
  {
    if col.lower == BelowNull {
      var k := CellOrPlain(nullable, c, x).value;
      assert (k + rest)[0] == if x.None? then 0x00 else 0x01;
      if x.None? { assert (k + rest)[..1] == [0x00]; }
    } else {
      ValueExact(nullable, c, x, col.lower.v, rest);
    }
  }

  lemma ValueExact(nullable: bool, c: Column, x: Cell, v: Value, rest: Key)
    requires CellFits(c, x) && Fits(c, v) && (!nullable ==> x.Some?)
    requires BoundKey(nullable, c, v).Some? && CellOrPlain(nullable, c, x).Some?
    ensures var k, p := CellOrPlain(nullable, c, x).value, BoundKey(nullable, c, v).value;
            var met := AtLeast(c, x, Below(v)) && AtMost(c, x, Above(v));
            (met ==> k == p) && (met <==> p <= k + rest)
  {
    CellAgainst(nullable, c, x, v, rest);
    assert BoundKey(nullable, c, v) == CellOrPlain(nullable, c, Some(v)) by { assert [] + ColumnKey(c, v).value == ColumnKey(c, v).value; }
    CellOrder(nullable, c, x, Some(v));
    BeforeNotAlike(nullable, c, x, v);
  }

  lemma BeforeNotAlike(nullable: bool, c: Column, x: Cell, v: Value)
    requires CellFits(c, x) && Fits(c, v) && (!nullable ==> x.Some?)
    requires CellOrPlain(nullable, c, x).Some? && BoundKey(nullable, c, v).Some?
    ensures !(CellBefore(c, x, Some(v)) && CellAlike(c, x, Some(v)))
  {
    assert CellOrPlain(nullable, c, Some(v)) == BoundKey(nullable, c, v) by { assert [] + ColumnKey(c, v).value == ColumnKey(c, v).value; }
    CellOrder(nullable, c, x, Some(v));
    if CellBefore(c, x, Some(v)) { AheadAsymmetric(CellOrPlain(nullable, c, x).value, CellOrPlain(nullable, c, Some(v)).value); }
  }

  /** A range of the supported shape admits a row's key, whatever follows it, if and only if the row is in range. */
  lemma {:induction false} RangeExact(prefix: Key, cs: seq<Column>, xs: seq<Cell>, nullable: bool, r: seq<ColumnRange>, tail: Key)
    requires AllFit(cs, xs) && RangeFits(cs, r) && Cells(nullable, cs, xs).Some? && Shaped(r, nullable)
    requires !RangeFrom(prefix, cs, nullable, r).Refused?
    ensures Admits(RangeFrom(prefix, cs, nullable, r), prefix + (Cells(nullable, cs, xs).value + tail)) <==> Satisfies(cs, xs, r)
    decreases |r|
  {
    var all := Cells(nullable, cs, xs).value;
    var key := prefix + (all + tail);
    if r == [] || IsAll(r[0], nullable) {
      if r != [] { FreeCons(r, nullable); }
      FreeSatisfies(cs, xs, nullable, r);
      PrefixInterval(prefix, key);
      assert prefix <= key;
    } else {
      SatisfiesCons(cs, xs, r);
      if !nullable { CellsNotNull(cs, xs, 0); }
      var k, more := CellOrPlain(nullable, cs[0], xs[0]).value, Cells(nullable, cs[1..], xs[1..]).value;
      Regroup(k, more, tail);
      if !IsPoint(r[0]) {
        FreeSatisfies(cs[1..], xs[1..], nullable, r[1..]);
        RangedExact(prefix, nullable, cs[0], xs[0], r[0], more + tail);
      } else if !(r[0].lower == BelowNull && !nullable) {
        var p := PointKey(nullable, cs[0], r[0]).value;
        PointExact(nullable, cs[0], xs[0], r[0], more + tail);
        if p <= k + (more + tail) {
          RangeExact(prefix + p, cs[1..], xs[1..], nullable, r[1..], tail);
          Regroup(prefix, p, more + tail);
        } else {
          SamePrefix(prefix, p, k + (more + tail));
          if Admits(RangeFrom(prefix + p, cs[1..], nullable, r[1..]), key) { AdmitsPrefixed(prefix + p, cs[1..], nullable, r[1..], key); }
        }
      }
    }
  }

  lemma RangedExact(prefix: Key, nullable: bool, c: Column, x: Cell, col: ColumnRange, rest: Key)
    requires CellFits(c, x) && CutFits(c, col.lower) && CutFits(c, col.upper) && (!nullable ==> x.Some?)
    requires CellOrPlain(nullable, c, x).Some? && !RangedKeys(prefix, nullable, c, col).Refused?
    ensures Admits(RangedKeys(prefix, nullable, c, col), prefix + (CellOrPlain(nullable, c, x).value + rest))
            <==> AtLeast(c, x, col.lower) && AtMost(c, x, col.upper)
  {
    LowerExact(prefix, nullable, c, x, col.lower, rest);
    if UpperKey(prefix, nullable, c, col.upper).Some? { UpperExact(prefix, nullable, c, x, col.upper, rest); }
  }

  // All ranges of a scan.

  ghost predicate AllRangesFit(cs: seq<Column>, ranges: seq<seq<ColumnRange>>) {
    forall i :: 0 <= i < |ranges| ==> RangeFits(cs, ranges[i])
  }

  ghost predicate InSomeRange(cs: seq<Column>, nullable: bool, ranges: seq<seq<ColumnRange>>, k: Key)
    requires AllRangesFit(cs, ranges)
  {
    exists i :: 0 <= i < |ranges| && Admits(RangeFrom([], cs, nullable, ranges[i]), k)
  }

  /** `rangeIntervals`: ascending intervals with gaps between them, holding the keys of all the ranges. */
  method RangeIntervals(cs: seq<Column>, nullable: bool, ranges: seq<seq<ColumnRange>>) returns (refused: bool, out: seq<Interval>)
    requires AllRangesFit(cs, ranges)
    ensures refused <==> exists i :: 0 <= i < |ranges| && RangeFrom([], cs, nullable, ranges[i]).Refused?
    ensures refused ==> exists i :: 0 <= i < |ranges| && SomeKeyless(ranges[i])
    ensures !refused ==> Apart(out) && NoneEmpty(out)
    ensures !refused ==> forall k :: InSome(out, k) <==> InSomeRange(cs, nullable, ranges, k)
  {
    var list: seq<Interval> := [];
    for i := 0 to |ranges|
      invariant Collected(cs, nullable, ranges, i, list)
    {
      var kr := RangeInterval(cs, nullable, ranges[i]);
      RangeRefused([], cs, nullable, ranges[i]);
      if kr.Refused? { return true, []; }
      NextRange(cs, nullable, ranges, i, list);
      if kr.Keys? && !kr.iv.Empty() { list := list + [kr.iv]; }
    }
    assert ranges[..|ranges|] == ranges;
    out := SortAndMerge(list);
    refused := false;
  }

  method SortAndMerge(list: seq<Interval>) returns (out: seq<Interval>)
    requires NoneEmpty(list)
    ensures Apart(out) && NoneEmpty(out) && forall k :: InSome(out, k) <==> InSome(list, k)
  {
    StableSortCorrect(StartOf, list);
    SortKeepsIntervals(list);
    out := MergeIntervals(StableSort(StartOf, list));
  }

  /** The non-empty intervals of the first `n` ranges, none of them refused. */
  ghost predicate Collected(cs: seq<Column>, nullable: bool, ranges: seq<seq<ColumnRange>>, n: nat, list: seq<Interval>)
    requires AllRangesFit(cs, ranges)
  {
    && n <= |ranges| && NoneEmpty(list)
    && (forall j :: 0 <= j < n ==> !RangeFrom([], cs, nullable, ranges[j]).Refused?)
    && forall k :: InSome(list, k) <==> InSomeRange(cs, nullable, ranges[..n], k)
  }

  lemma NextRange(cs: seq<Column>, nullable: bool, ranges: seq<seq<ColumnRange>>, i: nat, list: seq<Interval>)
    requires AllRangesFit(cs, ranges) && i < |ranges| && Collected(cs, nullable, ranges, i, list)
    requires !RangeFrom([], cs, nullable, ranges[i]).Refused?
    ensures var kr := RangeFrom([], cs, nullable, ranges[i]);
            Collected(cs, nullable, ranges, i + 1, if kr.Keys? && !kr.iv.Empty() then list + [kr.iv] else list)
  {
    var kr := RangeFrom([], cs, nullable, ranges[i]);
    var next := if kr.Keys? && !kr.iv.Empty() then list + [kr.iv] else list;
    forall k ensures InSome(next, k) <==> InSomeRange(cs, nullable, ranges[..i + 1], k) {
      RangesSnoc(cs, nullable, ranges, i, k);
      if kr.Keys? {
        InSnoc(list, kr.iv, k);
        EmptyHoldsNothing(kr.iv, k);
      }
    }
  }

  lemma RangesSnoc(cs: seq<Column>, nullable: bool, ranges: seq<seq<ColumnRange>>, i: nat, k: Key)
    requires AllRangesFit(cs, ranges) && i < |ranges|
    ensures InSomeRange(cs, nullable, ranges[..i + 1], k) <==>
              InSomeRange(cs, nullable, ranges[..i], k) || Admits(RangeFrom([], cs, nullable, ranges[i]), k)
  {
    assert forall j :: 0 <= j < i ==> ranges[..i + 1][j] == ranges[..i][j];
    assert ranges[..i + 1][i] == ranges[i];
  }

  lemma EmptyHoldsNothing(iv: Interval, k: Key)
    ensures iv.Empty() ==> !iv.Contains(k)
  {
    if iv.Empty() { if !Less(k, iv.start) { AtMostTransitive(iv.end.value, iv.start, k); } }
  }

  lemma SortKeepsIntervals(list: seq<Interval>)
    requires NoneEmpty(list)
    ensures NoneEmpty(StableSort(StartOf, list)) && forall k :: InSome(StableSort(StartOf, list), k) <==> InSome(list, k)
  {
    var sorted := StableSort(StartOf, list);
    StableSortPermutes(StartOf, list);
    SameMembers(sorted, list);
    assert forall i :: 0 <= i < |sorted| ==> sorted[i] in list;
    assert forall i :: 0 <= i < |list| ==> list[i] in sorted;
  }

  lemma SameMembers(a: seq<Interval>, b: seq<Interval>)
    requires multiset(a) == multiset(b)
    ensures forall x :: x in a <==> x in b
  {
    forall x ensures x in a <==> x in b { assert x in multiset(a) <==> x in multiset(b); }
  }

  /** The intervals of a scan hold a row's key if and only if the row is in one of the ranges. */
  lemma IntervalsExact(cs: seq<Column>, xs: seq<Cell>, nullable: bool, ranges: seq<seq<ColumnRange>>, tail: Key)
    requires AllFit(cs, xs) && Cells(nullable, cs, xs).Some? && AllRangesFit(cs, ranges)
    requires forall i :: 0 <= i < |ranges| ==> Shaped(ranges[i], nullable) && !RangeFrom([], cs, nullable, ranges[i]).Refused?
    ensures InSomeRange(cs, nullable, ranges, Cells(nullable, cs, xs).value + tail)
            <==> exists i :: 0 <= i < |ranges| && Satisfies(cs, xs, ranges[i])
  {
    var key := Cells(nullable, cs, xs).value + tail;
    assert [] + key == key;
    forall i | 0 <= i < |ranges|
      ensures Admits(RangeFrom([], cs, nullable, ranges[i]), key) <==> Satisfies(cs, xs, ranges[i])
    {
      RangeExact([], cs, xs, nullable, ranges[i], tail);
    }
  }
}
