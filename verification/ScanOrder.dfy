/** Layers of changes in scan order: what a merge of two ordered layers yields, ascending or descending. */
module ScanOrder {
  import opened Bytes
  import opened Sequences
  import opened Overlays

  /** A key and what a layer says of it: a value, or `None` for a delete. */
  datatype Item<V> = Item(key: Key, value: Option<V>)

  /** `before`. */
  predicate Before(a: Key, b: Key, reverse: bool) { if reverse then Less(b, a) else Less(a, b) }

  ghost predicate Ordered<V>(items: seq<Item<V>>, reverse: bool) {
    forall i, j :: 0 <= i < j < |items| ==> Before(items[i].key, items[j].key, reverse)
  }

  ghost predicate HasKey<V>(items: seq<Item<V>>, k: Key) { exists i :: 0 <= i < |items| && items[i].key == k }

  lemma BeforeTransitive(a: Key, b: Key, c: Key, reverse: bool)
    requires Before(a, b, reverse) && Before(b, c, reverse)
    ensures Before(a, c, reverse)
  {
    if reverse { LessTransitive(c, b, a); } else { LessTransitive(a, b, c); }
  }

  lemma BeforeTotal(a: Key, b: Key, reverse: bool)
    ensures Before(a, b, reverse) || a == b || Before(b, a, reverse)
    ensures Before(a, b, reverse) ==> a != b && !Before(b, a, reverse)
  {
    LessTotal(a, b);
    if Less(a, b) { LessAsymmetric(a, b); }
    if Less(b, a) { LessAsymmetric(b, a); }
  }

  /** Two layers as one, the upper winning. */
  function Layered<V>(upper: seq<Item<V>>, lower: seq<Item<V>>, reverse: bool): seq<Item<V>> {
    if upper == [] then lower
    else if lower == [] then upper
    else if Before(lower[0].key, upper[0].key, reverse) then [lower[0]] + Layered(upper, lower[1..], reverse)
    else [upper[0]] + Layered(upper[1..], if lower[0].key == upper[0].key then lower[1..] else lower, reverse)
  }

  ghost predicate AllAfter<V>(items: seq<Item<V>>, k: Key, reverse: bool) {
    forall i :: 0 <= i < |items| ==> Before(k, items[i].key, reverse)
  }

  lemma TailAfter<V>(items: seq<Item<V>>, reverse: bool)
    requires Ordered(items, reverse) && items != []
    ensures Ordered(items[1..], reverse) && AllAfter(items[1..], items[0].key, reverse)
  {
  }

  lemma AllAfterMore<V>(items: seq<Item<V>>, k: Key, reverse: bool)
    requires Ordered(items, reverse) && items != [] && Before(k, items[0].key, reverse)
    ensures AllAfter(items, k, reverse)
  {
    forall i | 0 <= i < |items| ensures Before(k, items[i].key, reverse) {
      if i > 0 { BeforeTransitive(k, items[0].key, items[i].key, reverse); }
    }
  }

  lemma {:induction false} LayeredAfter<V>(upper: seq<Item<V>>, lower: seq<Item<V>>, k: Key, reverse: bool)
    requires AllAfter(upper, k, reverse) && AllAfter(lower, k, reverse)
    ensures AllAfter(Layered(upper, lower, reverse), k, reverse)
    decreases |upper| + |lower|
  {
    if upper != [] && lower != [] {
      if Before(lower[0].key, upper[0].key, reverse) {
        LayeredAfter(upper, lower[1..], k, reverse);
      } else {
        LayeredAfter(upper[1..], if lower[0].key == upper[0].key then lower[1..] else lower, k, reverse);
      }
    }
  }

  lemma ConsOrdered<V>(x: Item<V>, items: seq<Item<V>>, reverse: bool)
    requires Ordered(items, reverse) && AllAfter(items, x.key, reverse)
    ensures Ordered([x] + items, reverse)
  {
  }

  /** The merge is in order. */
  lemma {:induction false} LayeredOrdered<V>(upper: seq<Item<V>>, lower: seq<Item<V>>, reverse: bool)
    requires Ordered(upper, reverse) && Ordered(lower, reverse)
    ensures Ordered(Layered(upper, lower, reverse), reverse)
    decreases |upper| + |lower|
  {
    if upper != [] && lower != [] {
      var u, l := upper[0], lower[0];
      TailAfter(upper, reverse);
      TailAfter(lower, reverse);
      if Before(l.key, u.key, reverse) {
        AllAfterMore(upper, l.key, reverse);
        LayeredOrdered(upper, lower[1..], reverse);
        LayeredAfter(upper, lower[1..], l.key, reverse);
        ConsOrdered(l, Layered(upper, lower[1..], reverse), reverse);
      } else {
        BeforeTotal(l.key, u.key, reverse);
        var rest := if l.key == u.key then lower[1..] else lower;
        if l.key != u.key { AllAfterMore(lower, u.key, reverse); }
        LayeredOrdered(upper[1..], rest, reverse);
        LayeredAfter(upper[1..], rest, u.key, reverse);
        ConsOrdered(u, Layered(upper[1..], rest, reverse), reverse);
      }
    }
  }

  lemma NoKey<V>(items: seq<Item<V>>, k: Key, reverse: bool)
    requires AllAfter(items, k, reverse)
    ensures !HasKey(items, k)
  {
    forall i | 0 <= i < |items| ensures items[i].key != k { BeforeTotal(k, items[i].key, reverse); }
  }

  lemma KeyCons<V>(x: Item<V>, items: seq<Item<V>>, k: Key)
    ensures HasKey([x] + items, k) <==> x.key == k || HasKey(items, k)
  {
    var all := [x] + items;
    assert all[0] == x;
    assert forall i :: 0 <= i < |items| ==> all[i + 1] == items[i];
  }

  /** What the merge holds: the upper layer's items, and the lower layer's of other keys. */
  lemma {:induction false} LayeredHolds<V>(upper: seq<Item<V>>, lower: seq<Item<V>>, reverse: bool, x: Item<V>)
    requires Ordered(upper, reverse) && Ordered(lower, reverse)
    ensures x in Layered(upper, lower, reverse) <==> x in upper || (x in lower && !HasKey(upper, x.key))
    decreases |upper| + |lower|
  {
    if upper != [] && lower != [] {
      var u, l := upper[0], lower[0];
      var us, ls := upper[1..], lower[1..];
      assert upper == [u] + us && lower == [l] + ls;
      TailAfter(upper, reverse);
      TailAfter(lower, reverse);
      KeyCons(u, us, x.key);
      if Before(l.key, u.key, reverse) {
        AllAfterMore(upper, l.key, reverse);
        NoKey(upper, l.key, reverse);
        LayeredHolds(upper, ls, reverse, x);
      } else {
        BeforeTotal(l.key, u.key, reverse);
        var rest := if l.key == u.key then ls else lower;
        LayeredHolds(us, rest, reverse, x);
        if l.key != u.key { AllAfterMore(lower, u.key, reverse); }
        NoKey(rest, u.key, reverse);
      }
    }
  }

  // The rows a layer shows.

  /** The items that are no deletes. */
  function Shown<V>(items: seq<Item<V>>): seq<Item<V>> {
    if items == [] then [] else (if items[0].value.Some? then [items[0]] else []) + Shown(items[1..])
  }

  lemma {:induction false} ShownAfter<V>(items: seq<Item<V>>, k: Key, reverse: bool)
    requires AllAfter(items, k, reverse)
    ensures AllAfter(Shown(items), k, reverse)
  {
    if items != [] { ShownAfter(items[1..], k, reverse); }
  }

  lemma {:induction false} ShownOrdered<V>(items: seq<Item<V>>, reverse: bool)
    requires Ordered(items, reverse)
    ensures Ordered(Shown(items), reverse)
  {
    if items != [] {
      TailAfter(items, reverse);
      ShownOrdered(items[1..], reverse);
      ShownAfter(items[1..], items[0].key, reverse);
      if items[0].value.Some? { ConsOrdered(items[0], Shown(items[1..]), reverse); }
    }
  }

  lemma {:induction false} ShownHolds<V>(items: seq<Item<V>>, x: Item<V>)
    ensures x in Shown(items) <==> x in items && x.value.Some?
  {
    if items != [] {
      ShownHolds(items[1..], x);
      assert items == [items[0]] + items[1..];
    }
  }

  lemma {:induction false} ShownConcat<V>(a: seq<Item<V>>, b: seq<Item<V>>)
    ensures Shown(a + b) == Shown(a) + Shown(b)
  {
    if a == [] {
      assert a + b == b;
    } else {
      ShownConcat(a[1..], b);
      HeadOfConcat(a, b);
      Regroup(if a[0].value.Some? then [a[0]] else [], Shown(a[1..]), Shown(b));
    }
  }

  /** An ordered list is determined by what it holds. */
  lemma {:induction false} OrderedUnique<V>(a: seq<Item<V>>, b: seq<Item<V>>, reverse: bool)
    requires Ordered(a, reverse) && Ordered(b, reverse) && forall x :: x in a <==> x in b
    ensures a == b
  {
    HeadIsMember(b);
    if a != [] {
      assert a[0] in b;
      assert b != [] && b[0] in a;
      FirstIsFirst(a, b, reverse);
      TailAfter(a, reverse);
      TailAfter(b, reverse);
      NoKey(a[1..], a[0].key, reverse);
      NoKey(b[1..], b[0].key, reverse);
      assert a == [a[0]] + a[1..] && b == [b[0]] + b[1..];
      forall x ensures x in a[1..] <==> x in b[1..] {
        assert x in a <==> x == a[0] || x in a[1..];
        assert x in b <==> x == b[0] || x in b[1..];
      }
      OrderedUnique(a[1..], b[1..], reverse);
    }
  }

  lemma HeadIsMember<V>(items: seq<Item<V>>)
    ensures items == [] || items[0] in items
  {
  }

  lemma HeadIsFirst<V>(items: seq<Item<V>>, x: Item<V>, reverse: bool)
    requires Ordered(items, reverse) && x in items
    ensures x == items[0] || Before(items[0].key, x.key, reverse)
  {
  }

  lemma FirstIsFirst<V>(a: seq<Item<V>>, b: seq<Item<V>>, reverse: bool)
    requires Ordered(a, reverse) && Ordered(b, reverse) && a != [] && b != [] && a[0] in b && b[0] in a
    ensures a[0] == b[0]
  {
    HeadIsFirst(b, a[0], reverse);
    HeadIsFirst(a, b[0], reverse);
    BeforeTotal(a[0].key, b[0].key, reverse);
  }
}
