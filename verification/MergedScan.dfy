/** What the layers under a table scan yield, merged: a tree, a `PendingRows` and own edits, over intervals. */
module MergedScan {
  import opened Bytes
  import opened Sequences
  import opened Overlays
  import opened Sorting
  import opened Prolly
  import opened EditMerge
  import opened ProllyReads
  import opened ProllyIterators
  import opened Pending
  import opened PendingCursor
  import opened KeyIntervals
  import opened ScanOrder
  import opened Scan
  import opened IndexAgreement

  type Blob = seq<byte>

  function Reversed<T>(xs: seq<T>): seq<T> { seq(|xs|, i requires 0 <= i < |xs| => xs[|xs| - 1 - i]) }

  lemma ReversedMembers<T>(xs: seq<T>)
    ensures forall x :: x in Reversed(xs) <==> x in xs
  {
    var r := Reversed(xs);
    forall x | x in xs ensures x in r {
      var i :| 0 <= i < |xs| && xs[i] == x;
      assert r[|xs| - 1 - i] == x;
    }
  }

  // What the iterators yield.

  function PendingItem(e: RowEdit): Item<Blob> { Item(e.key, if e.delete then None else Some(e.value)) }

  function PendingItems(es: seq<RowEdit>): seq<Item<Blob>> {
    seq(|es|, i requires 0 <= i < |es| => PendingItem(es[i]))
  }

  function EntryItem(e: Entry): Item<Blob> { Item(e.key, Some(e.value)) }

  function EntryItems(es: seq<Entry>): seq<Item<Blob>> {
    seq(|es|, i requires 0 <= i < |es| => EntryItem(es[i]))
  }

  /** The pending edits as a layer. */
  function PendingLayer(edits: map<Key, RowEdit>): map<Key, Option<Blob>> {
    map k | k in edits :: if edits[k].delete then None else Some(edits[k].value)
  }

  /** What an iterator yielded and what it has left, together all. */
  ghost predicate Split<T>(all: seq<T>, rest: seq<T>, out: seq<T>, reverse: bool) {
    if reverse then |rest| <= |all| && rest == all[..|rest|] && out == Reversed(all[|rest|..])
    else |rest| <= |all| && rest == all[|all| - |rest|..] && out == all[..|all| - |rest|]
  }

  lemma SplitStart<T>(all: seq<T>, reverse: bool)
    ensures Split(all, all, [], reverse)
  {
    assert all[|all|..] == [];
  }

  lemma SplitOne<T>(all: seq<T>, rest: seq<T>, out: seq<T>, reverse: bool)
    requires Split(all, rest, out, reverse) && rest != []
    ensures reverse ==> Split(all, rest[..|rest| - 1], out + [rest[|rest| - 1]], reverse)
    ensures !reverse ==> Split(all, rest[1..], out + [rest[0]], reverse)
  {
    if reverse {
      var n := |rest| - 1;
      assert all[n..] == [all[n]] + all[n + 1..];
      assert Reversed(all[n..]) == Reversed(all[n + 1..]) + [all[n]];
    } else {
      var n := |all| - |rest|;
      assert all[..n + 1] == all[..n] + [all[n]];
    }
  }

  lemma SplitEnd<T>(all: seq<T>, out: seq<T>, reverse: bool)
    requires Split(all, [], out, reverse)
    ensures out == if reverse then Reversed(all) else all
  {
    assert all[0..] == all && all[..|all|] == all;
  }

  method DrainPending(p: PendingRows, iv: Interval, reverse: bool) returns (items: seq<Item<Blob>>)
    requires p.Valid()
    ensures Yields(items, PendingLayer(p.Edits()), iv, reverse)
  {
    var it: PendingIter;
    if reverse { it := new PendingIter.Backward(p, iv.start, iv.end); } else { it := new PendingIter.Forward(p, iv.start, iv.end); }
    ghost var all := it.Rest();
    var list := DrainPendingIter(it);
    PendingYields(all, p.Edits(), iv, reverse);
    items := PendingItems(list);
  }

  method DrainPendingIter(it: PendingIter) returns (out: seq<RowEdit>)
    requires it.Valid()
    modifies it
    ensures out == if it.reverse then Reversed(old(it.Rest())) else old(it.Rest())
  {
    ghost var all, reverse := it.Rest(), it.reverse;
    SplitStart(all, reverse);
    out := [];
    while true
      invariant it.Valid() && it.reverse == reverse && Split(all, it.Rest(), out, reverse)
      decreases |it.Rest()|
    {
      ghost var rest := it.Rest();
      var e := it.Next();
      if e.None? { break; }
      SplitOne(all, rest, out, reverse);
      out := out + [e.value];
    }
    SplitEnd(all, out, reverse);
  }

  lemma ReversedOrdered(rest: seq<RowEdit>, reverse: bool)
    requires Sorted(RowKey, rest)
    ensures Ordered(PendingItems(if reverse then Reversed(rest) else rest), reverse)
  {
    var list := if reverse then Reversed(rest) else rest;
    forall i, j | 0 <= i < j < |list| ensures ScanOrder.Before(list[i].key, list[j].key, reverse) {
      if reverse { assert Less(RowKey(rest[|rest| - 1 - j]), RowKey(rest[|rest| - 1 - i])); } else { assert Less(RowKey(rest[i]), RowKey(rest[j])); }
    }
  }

  /** A list of edits holds an item if one of its edits makes it. */
  lemma PendingItemsHold(list: seq<RowEdit>, x: Item<Blob>)
    ensures x in PendingItems(list) <==> exists e :: e in list && PendingItem(e) == x
  {
    var items := PendingItems(list);
    if x in items {
      var i :| 0 <= i < |items| && items[i] == x;
      assert list[i] in list;
    }
    if e :| e in list && PendingItem(e) == x {
      var i :| 0 <= i < |list| && list[i] == e;
      assert items[i] == x;
    }
  }

  lemma PendingHeld(rest: seq<RowEdit>, edits: map<Key, RowEdit>, iv: Interval, x: Item<Blob>)
    requires Sorted(RowKey, rest) && LastOf(RowKey, rest) == Within(edits, iv.start, iv.end)
    ensures (exists e :: e in rest && PendingItem(e) == x)
            <==> iv.Contains(x.key) && x.key in PendingLayer(edits) && PendingLayer(edits)[x.key] == x.value
  {
    LastOfSorted(RowKey, rest);
    LastOfKeys(RowKey, rest);
    if e :| e in rest && PendingItem(e) == x {
      var j :| 0 <= j < |rest| && rest[j] == e;
      assert RowKey(rest[j]) in Within(edits, iv.start, iv.end);
    }
    if iv.Contains(x.key) && x.key in PendingLayer(edits) && PendingLayer(edits)[x.key] == x.value {
      assert x.key in Within(edits, iv.start, iv.end);
      var e := LastOf(RowKey, rest)[x.key];
      assert e in rest && PendingItem(e) == x;
    }
  }

  lemma PendingYields(rest: seq<RowEdit>, edits: map<Key, RowEdit>, iv: Interval, reverse: bool)
    requires Sorted(RowKey, rest) && LastOf(RowKey, rest) == Within(edits, iv.start, iv.end)
    ensures Yields(PendingItems(if reverse then Reversed(rest) else rest), PendingLayer(edits), iv, reverse)
  {
    var list := if reverse then Reversed(rest) else rest;
    ReversedOrdered(rest, reverse);
    ReversedMembers(rest);
    forall x
      ensures x in PendingItems(list) <==> iv.Contains(x.key) && x.key in PendingLayer(edits) && PendingLayer(edits)[x.key] == x.value
    {
      PendingItemsHold(list, x);
      PendingHeld(rest, edits, iv, x);
    }
  }

  /** The entries from the near end of the interval on, in scan order. */
  ghost predicate TreeYields<V(!new)>(items: seq<Item<V>>, tree: map<Key, V>, iv: Interval, reverse: bool) {
    && Ordered(items, reverse)
    && forall x :: x in items <==> x.key in tree && x.value == Some(tree[x.key]) && Reached(x.key, iv, reverse)
  }

  predicate Reached(k: Key, iv: Interval, reverse: bool) {
    if reverse then iv.end.Some? ==> Less(k, iv.end.value) else !Less(k, iv.start)
  }

  method DrainTree(root: Node, iv: Interval, reverse: bool, ghost entries: seq<Entry>) returns (items: seq<Item<Blob>>)
    requires WellLinked(root) && EntriesOf(root) == entries && Sorted(EntryKey, entries)
    ensures TreeYields(items, Contents(entries), iv, reverse)
  {
    var list;
    if reverse {
      var it := new ReverseIterator.UpTo(root, iv.end);
      BackwardYields(entries, it.Rest(), iv);
      list := DrainReverseIterator(it);
    } else {
      var it := new Iterator.From(root, iv.start);
      ForwardYields(entries, it.Rest(), iv);
      list := DrainIterator(it);
    }
    items := EntryItems(list);
  }

  method DrainIterator(it: Iterator) returns (out: seq<Entry>)
    requires it.Valid()
    modifies it
    ensures out == old(it.Rest())
  {
    ghost var all := it.Rest();
    SplitStart(all, false);
    out := [];
    while true
      invariant it.Valid() && Split(all, it.Rest(), out, false)
      decreases |it.Rest()|
    {
      if it.Rest() != [] { SplitOne(all, it.Rest(), out, false); }
      var e := it.Next();
      if e.None? { break; }
      out := out + [e.value];
    }
    SplitEnd(all, out, false);
  }

  method DrainReverseIterator(it: ReverseIterator) returns (out: seq<Entry>)
    requires it.Valid()
    modifies it
    ensures out == Reversed(old(it.Rest()))
  {
    ghost var all := it.Rest();
    SplitStart(all, true);
    out := [];
    while true
      invariant it.Valid() && Split(all, it.Rest(), out, true)
      decreases |it.Rest()|
    {
      if it.Rest() != [] { SplitOne(all, it.Rest(), out, true); }
      var e := it.Next();
      if e.None? { break; }
      out := out + [e.value];
    }
    SplitEnd(all, out, true);
  }

  lemma EntryHeld(entries: seq<Entry>, x: Item<Blob>)
    requires Sorted(EntryKey, entries)
    ensures (x.value.Some? && Entry(x.key, x.value.value) in entries) <==> x.key in Contents(entries) && x.value == Some(Contents(entries)[x.key])
  {
    LastOfSorted(EntryKey, entries);
    LastOfKeys(EntryKey, entries);
    if x.key in Contents(entries) && x.value == Some(Contents(entries)[x.key]) {
      var e := LastOf(EntryKey, entries)[x.key];
      assert e in entries && e == Entry(x.key, x.value.value);
    }
    if x.value.Some? && Entry(x.key, x.value.value) in entries {
      var i :| 0 <= i < |entries| && entries[i] == Entry(x.key, x.value.value);
      assert EntryKey(entries[i]) == x.key;
    }
  }

  lemma ItemsHold(es: seq<Entry>, x: Item<Blob>)
    ensures x in EntryItems(es) <==> x.value.Some? && Entry(x.key, x.value.value) in es
  {
    if x in EntryItems(es) {
      var i :| 0 <= i < |es| && EntryItems(es)[i] == x;
      assert es[i] == Entry(x.key, x.value.value);
    }
    if x.value.Some? && Entry(x.key, x.value.value) in es {
      var i :| 0 <= i < |es| && es[i] == Entry(x.key, x.value.value);
      assert EntryItems(es)[i] == x;
    }
  }

  lemma ForwardYields(entries: seq<Entry>, rest: seq<Entry>, iv: Interval)
    requires Sorted(EntryKey, entries) && rest == OnFrom(entries, iv.start)
    ensures TreeYields(EntryItems(rest), Contents(entries), iv, false)
  {
    SeekSplits(entries, iv.start);
    var items := EntryItems(rest);
    forall i, j | 0 <= i < j < |items| ensures Less(items[i].key, items[j].key) {
      assert Less(EntryKey(rest[i]), EntryKey(rest[j]));
    }
    forall x ensures x in items <==> x.key in Contents(entries) && x.value == Some(Contents(entries)[x.key]) && !Less(x.key, iv.start) {
      ItemsHold(rest, x);
      EntryHeld(entries, x);
    }
  }

  lemma BackwardYields(entries: seq<Entry>, rest: seq<Entry>, iv: Interval)
    requires Sorted(EntryKey, entries) && rest == if iv.end.None? then entries else Below(entries, iv.end.value)
    ensures TreeYields(EntryItems(Reversed(rest)), Contents(entries), iv, true)
  {
    if iv.end.Some? { SeekSplits(entries, iv.end.value); }
    var items := EntryItems(Reversed(rest));
    forall i, j | 0 <= i < j < |items| ensures Less(items[j].key, items[i].key) {
      assert Less(EntryKey(rest[|rest| - 1 - j]), EntryKey(rest[|rest| - 1 - i]));
    }
    ReversedMembers(rest);
    forall x ensures x in items <==> x.key in Contents(entries) && x.value == Some(Contents(entries)[x.key]) && Reached(x.key, iv, true) {
      ItemsHold(Reversed(rest), x);
      EntryHeld(entries, x);
    }
  }

  // One interval.

  lemma {:induction false} CutHolds<V(!new)>(items: seq<Item<V>>, iv: Interval, reverse: bool, x: Item<V>)
    requires Ordered(items, reverse)
    ensures x in Cut(items, iv, reverse) <==> x in items && !Past(x.key, iv, reverse)
  {
    if items != [] {
      assert items == [items[0]] + items[1..];
      TailAfter(items, reverse);
      if Past(items[0].key, iv, reverse) {
        forall i | 0 <= i < |items| ensures Past(items[i].key, iv, reverse) { if i > 0 { PastAfter(items[0].key, items[i].key, iv, reverse); } }
      } else {
        CutHolds(items[1..], iv, reverse, x);
      }
    }
  }

  lemma PastAfter(a: Key, b: Key, iv: Interval, reverse: bool)
    requires Past(a, iv, reverse) && ScanOrder.Before(a, b, reverse)
    ensures Past(b, iv, reverse)
  {
    if reverse {
      LessTransitive(b, a, iv.start);
    } else {
      LessAsymmetric(a, b);
      AtMostTransitive(iv.end.value, a, b);
    }
  }

  lemma {:induction false} CutOrdered<V(!new)>(items: seq<Item<V>>, iv: Interval, reverse: bool)
    requires Ordered(items, reverse)
    ensures Ordered(Cut(items, iv, reverse), reverse)
  {
    if items != [] && !Past(items[0].key, iv, reverse) {
      TailAfter(items, reverse);
      CutOrdered(items[1..], iv, reverse);
      CutAfter(items[1..], items[0].key, iv, reverse);
      ConsOrdered(items[0], Cut(items[1..], iv, reverse), reverse);
    }
  }

  lemma {:induction false} CutAfter<V(!new)>(items: seq<Item<V>>, k: Key, iv: Interval, reverse: bool)
    requires AllAfter(items, k, reverse)
    ensures AllAfter(Cut(items, iv, reverse), k, reverse)
  {
    if items != [] && !Past(items[0].key, iv, reverse) { CutAfter(items[1..], k, iv, reverse); }
  }

  /** The visible rows: own edits over pending edits over the tree. */
  function Visible<V>(tree: map<Key, V>, pending: map<Key, Option<V>>, own: map<Key, Option<V>>): map<Key, V> {
    Overlaid(Overlaid(tree, pending), own)
  }

  /** The list holds exactly the rows of an interval, in order. */
  ghost predicate RowsOfInterval<V(!new)>(out: seq<Item<V>>, rows: map<Key, V>, iv: Interval, reverse: bool) {
    && Ordered(out, reverse)
    && forall x :: x in out <==> iv.Contains(x.key) && x.key in rows && x.value == Some(rows[x.key])
  }

  lemma HasKeyHolds<V(!new)>(items: seq<Item<V>>, layer: map<Key, Option<V>>, iv: Interval, reverse: bool, k: Key)
    requires Yields(items, layer, iv, reverse)
    ensures HasKey(items, k) <==> iv.Contains(k) && k in layer
  {
    if HasKey(items, k) {
      var i :| 0 <= i < |items| && items[i].key == k;
      assert items[i] in items;
    }
    if iv.Contains(k) && k in layer {
      assert Item(k, layer[k]) in items;
    }
  }

  /** Two layers merged yield the layer of both. */
  lemma OverlayYields<V(!new)>(own: seq<Item<V>>, ownLayer: map<Key, Option<V>>, pending: seq<Item<V>>, pendingLayer: map<Key, Option<V>>,
                      iv: Interval, reverse: bool)
    requires Yields(own, ownLayer, iv, reverse) && Yields(pending, pendingLayer, iv, reverse)
    ensures Yields(Layered(own, pending, reverse), pendingLayer + ownLayer, iv, reverse)
  {
    LayeredOrdered(own, pending, reverse);
    forall x
      ensures x in Layered(own, pending, reverse)
              <==> iv.Contains(x.key) && x.key in pendingLayer + ownLayer && (pendingLayer + ownLayer)[x.key] == x.value
    {
      LayeredHolds(own, pending, reverse, x);
      HasKeyHolds(own, ownLayer, iv, reverse, x.key);
    }
  }

  /** An overlay merged with the tree, without its deletes, is the rows of the interval. */
  lemma MergeShows<V(!new)>(overlay: seq<Item<V>>, layer: map<Key, Option<V>>, entries: seq<Item<V>>, tree: map<Key, V>,
                   iv: Interval, reverse: bool)
    requires Yields(overlay, layer, iv, reverse) && TreeYields(entries, tree, iv, reverse)
    ensures RowsOfInterval(Shown(Layered(overlay, Cut(entries, iv, reverse), reverse)), Overlaid(tree, layer), iv, reverse)
  {
    var cut := Cut(entries, iv, reverse);
    CutOrdered(entries, iv, reverse);
    LayeredOrdered(overlay, cut, reverse);
    var all := Layered(overlay, cut, reverse);
    ShownOrdered(all, reverse);
    forall x
      ensures x in Shown(all) <==> iv.Contains(x.key) && x.key in Overlaid(tree, layer) && x.value == Some(Overlaid(tree, layer)[x.key])
    {
      ShownHolds(all, x);
      LayeredHolds(overlay, cut, reverse, x);
      HasKeyHolds(overlay, layer, iv, reverse, x.key);
      CutHolds(entries, iv, reverse, x);
    }
  }

  lemma ThreeLayers<V(!new)>(own: seq<Item<V>>, ownLayer: map<Key, Option<V>>, pending: seq<Item<V>>, pendingLayer: map<Key, Option<V>>,
                    entries: seq<Item<V>>, tree: map<Key, V>, iv: Interval, reverse: bool)
    requires Yields(own, ownLayer, iv, reverse) && Yields(pending, pendingLayer, iv, reverse) && TreeYields(entries, tree, iv, reverse)
    ensures RowsOfInterval(Shown(Layered(Layered(own, pending, reverse), Cut(entries, iv, reverse), reverse)),
                           Visible(tree, pendingLayer, ownLayer), iv, reverse)
  {
    OverlayYields(own, ownLayer, pending, pendingLayer, iv, reverse);
    MergeShows(Layered(own, pending, reverse), pendingLayer + ownLayer, entries, tree, iv, reverse);
    OverlaidTwice(tree, pendingLayer, ownLayer);
  }

  // Own edits in scan order.

  function Itself(k: Key): Key { k }

  /** `sortedOverlayKeys`. */
  method SortedOverlayKeys<V>(overlay: map<Key, V>, iv: Interval, reverse: bool) returns (keys: seq<Key>)
    ensures forall i, j :: 0 <= i < j < |keys| ==> ScanOrder.Before(keys[i], keys[j], reverse)
    ensures forall k :: k in keys <==> k in overlay && iv.Contains(k)
  {
    keys := KeysWithin(overlay, iv);
    SortDiffering(Itself, keys);
    StableSortPermutes(Itself, keys);
    var sorted := StableSort(Itself, keys);
    assert forall k :: k in sorted <==> k in multiset(sorted);
    assert forall k :: k in keys <==> k in multiset(keys);
    ReversedMembers(sorted);
    SortedBothWays(sorted);
    keys := if reverse then Reversed(sorted) else sorted;
  }

  lemma SortedBothWays(sorted: seq<Key>)
    requires Sorted(Itself, sorted)
    ensures forall i, j :: 0 <= i < j < |sorted| ==> Less(sorted[i], sorted[j])
    ensures forall i, j :: 0 <= i < j < |Reversed(sorted)| ==> Less(Reversed(sorted)[j], Reversed(sorted)[i])
  {
    forall i, j | 0 <= i < j < |sorted| ensures Less(sorted[i], sorted[j]) { assert Less(Itself(sorted[i]), Itself(sorted[j])); }
    forall i, j | 0 <= i < j < |Reversed(sorted)| ensures Less(Reversed(sorted)[j], Reversed(sorted)[i]) {
      assert Less(sorted[|sorted| - 1 - j], sorted[|sorted| - 1 - i]);
    }
  }

  method KeysWithin<V>(overlay: map<Key, V>, iv: Interval) returns (keys: seq<Key>)
    ensures KeysDiffer(Itself, keys) && forall k :: k in keys <==> k in overlay && iv.Contains(k)
  {
    keys := [];
    var left := overlay.Keys;
    while left != {}
      invariant left <= overlay.Keys && KeysDiffer(Itself, keys)
      invariant forall k :: k in keys <==> k in overlay && k !in left && iv.Contains(k)
    {
      var k :| k in left;
      if iv.Contains(k) { keys := keys + [k]; }
      left := left - {k};
    }
  }

  lemma LocalYields<V(!new)>(keys: seq<Key>, edits: map<Key, Option<V>>, iv: Interval, reverse: bool)
    requires forall i, j :: 0 <= i < j < |keys| ==> ScanOrder.Before(keys[i], keys[j], reverse)
    requires forall k :: k in keys <==> k in edits && iv.Contains(k)
    ensures forall i :: 0 <= i < |keys| ==> keys[i] in edits
    ensures Yields(Local(keys, edits), edits, iv, reverse)
  {
    forall i | 0 <= i < |keys| ensures keys[i] in edits { assert keys[i] in keys; }
    var items := Local(keys, edits);
    forall x ensures x in items <==> iv.Contains(x.key) && x.key in edits && edits[x.key] == x.value {
      if x in items {
        var i :| 0 <= i < |items| && items[i] == x;
        assert keys[i] in keys;
      }
      if iv.Contains(x.key) && x.key in edits && edits[x.key] == x.value {
        assert x.key in keys;
        var i :| 0 <= i < |keys| && keys[i] == x.key;
        assert items[i] == x;
      }
    }
  }

  // The scans.

  /** The list holds exactly the rows of some intervals, in order. */
  ghost predicate RowsOfIntervals<V(!new)>(out: seq<Item<V>>, rows: map<Key, V>, ivs: seq<Interval>, reverse: bool) {
    && Ordered(out, reverse)
    && forall x :: x in out <==> InSome(ivs, x.key) && x.key in rows && x.value == Some(rows[x.key])
  }

  /** `scanOrder`. */
  function ScanOrderOf(ivs: seq<Interval>, reverse: bool): seq<Interval> { if reverse then Reversed(ivs) else ivs }

  /** Intervals one after the other in scan order. */
  ghost predicate InScanOrder(ivs: seq<Interval>, reverse: bool) {
    forall i, j {:trigger AllBefore(ivs[i], ivs[j], reverse)} :: 0 <= i < j < |ivs| ==> AllBefore(ivs[i], ivs[j], reverse)
  }

  ghost predicate AllBefore(a: Interval, b: Interval, reverse: bool) {
    forall j, k :: a.Contains(j) && b.Contains(k) ==> ScanOrder.Before(j, k, reverse)
  }

  lemma ApartInScanOrder(ivs: seq<Interval>, reverse: bool)
    requires Apart(ivs)
    ensures InScanOrder(ScanOrderOf(ivs, reverse), reverse)
    ensures forall k :: InSome(ScanOrderOf(ivs, reverse), k) <==> InSome(ivs, k)
  {
    var list := ScanOrderOf(ivs, reverse);
    forall i, j | 0 <= i < j < |list| ensures AllBefore(list[i], list[j], reverse) {
      forall a, b | list[i].Contains(a) && list[j].Contains(b) ensures ScanOrder.Before(a, b, reverse) {
        if reverse { ApartBefore(ivs, |ivs| - 1 - j, |ivs| - 1 - i, b, a); } else { ApartBefore(ivs, i, j, a, b); }
      }
    }
    forall k ensures InSome(list, k) <==> InSome(ivs, k) {
      if reverse && InSome(ivs, k) {
        var i :| 0 <= i < |ivs| && ivs[i].Contains(k);
        assert list[|ivs| - 1 - i].Contains(k);
      }
    }
  }

  lemma ApartBefore(ivs: seq<Interval>, i: nat, j: nat, a: Key, b: Key)
    requires Apart(ivs) && i < j < |ivs| && ivs[i].Contains(a) && ivs[j].Contains(b)
    ensures Less(a, b)
  {
    LessTransitive(a, ivs[i].end.value, ivs[j].start);
    LessTotal(ivs[j].start, b);
    if Less(ivs[j].start, b) { LessTransitive(a, ivs[j].start, b); }
  }

  lemma MaterialisedHolds<V(!new)>(rows: map<Key, V>, iv: Interval, keys: seq<Key>, out: seq<Item<V>>)
    requires |out| == |keys| && forall k :: k in keys <==> k in rows && iv.Contains(k)
    requires forall i :: 0 <= i < |keys| ==> keys[i] in rows && out[i] == Item(keys[i], Some(rows[keys[i]]))
    ensures forall x :: x in out <==> iv.Contains(x.key) && x.key in rows && x.value == Some(rows[x.key])
  {
    forall x ensures x in out <==> iv.Contains(x.key) && x.key in rows && x.value == Some(rows[x.key]) {
      if x in out {
        var i :| 0 <= i < |out| && out[i] == x;
        assert keys[i] in keys;
      }
      if iv.Contains(x.key) && x.key in rows && x.value == Some(rows[x.key]) {
        assert x.key in keys;
        var i :| 0 <= i < |keys| && keys[i] == x.key;
        assert out[i] == x;
      }
    }
  }

  // The rows of an interval as a list.

  /** One more row among ordered ones. */
  lemma RowInserted<V(!new)>(rows: map<Key, V>, k: Key, rest: seq<Item<V>>, iv: Interval, reverse: bool)
    requires k in rows && iv.Contains(k) && RowsOfInterval(rest, rows - {k}, iv, reverse)
    ensures RowsOfInterval(Layered([Item(k, Some(rows[k]))], rest, reverse), rows, iv, reverse)
  {
    var one := [Item(k, Some(rows[k]))];
    LayeredOrdered(one, rest, reverse);
    forall x
      ensures x in Layered(one, rest, reverse) <==> iv.Contains(x.key) && x.key in rows && x.value == Some(rows[x.key])
    {
      LayeredHolds(one, rest, reverse, x);
      assert HasKey(one, x.key) <==> x.key == k by { assert one[0].key == k; }
    }
  }

  /** The rows of an interval in scan order. */
  ghost function RowList<V(!new)>(rows: map<Key, V>, iv: Interval, reverse: bool): (out: seq<Item<V>>)
    ensures RowsOfInterval(out, rows, iv, reverse)
    decreases |rows|
  {
    if rows == map[] then []
    else
      var k :| k in rows;
      var rest := RowList(rows - {k}, iv, reverse);
      if iv.Contains(k) then
        RowInserted(rows, k, rest, iv, reverse);
        Layered([Item(k, Some(rows[k]))], rest, reverse)
      else rest
  }

  lemma RowListIs<V(!new)>(out: seq<Item<V>>, rows: map<Key, V>, iv: Interval, reverse: bool)
    requires RowsOfInterval(out, rows, iv, reverse)
    ensures out == RowList(rows, iv, reverse)
  {
    OrderedUnique(out, RowList(rows, iv, reverse), reverse);
  }

  /** The rows of intervals, one interval after the other. */
  ghost function RowLists<V(!new)>(rows: map<Key, V>, ivs: seq<Interval>, reverse: bool): seq<Item<V>> {
    if ivs == [] then [] else RowList(rows, ivs[0], reverse) + RowLists(rows, ivs[1..], reverse)
  }

  lemma InCons(iv: Interval, ivs: seq<Interval>, k: Key)
    ensures InSome([iv] + ivs, k) <==> iv.Contains(k) || InSome(ivs, k)
  {
    var all := [iv] + ivs;
    assert all[0] == iv;
    assert forall i :: 0 <= i < |ivs| ==> all[i + 1] == ivs[i];
  }

  lemma LaterInOrder(ivs: seq<Interval>, n: nat, reverse: bool)
    requires InScanOrder(ivs, reverse) && n <= |ivs|
    ensures InScanOrder(ivs[n..], reverse)
  {
    forall i, j | 0 <= i < j < |ivs| - n ensures AllBefore(ivs[n..][i], ivs[n..][j], reverse) {
      assert AllBefore(ivs[n + i], ivs[n + j], reverse);
    }
  }

  lemma {:induction false} RowListsAre<V(!new)>(rows: map<Key, V>, ivs: seq<Interval>, reverse: bool)
    requires InScanOrder(ivs, reverse)
    ensures RowsOfIntervals(RowLists(rows, ivs, reverse), rows, ivs, reverse)
  {
    if ivs != [] {
      LaterInOrder(ivs, 1, reverse);
      RowListsAre(rows, ivs[1..], reverse);
      assert ivs == [ivs[0]] + ivs[1..];
      FirstInterval(ivs, RowList(rows, ivs[0], reverse), RowLists(rows, ivs[1..], reverse), rows, reverse);
    }
  }

  lemma FirstInterval<V(!new)>(ivs: seq<Interval>, first: seq<Item<V>>, rest: seq<Item<V>>, rows: map<Key, V>, reverse: bool)
    requires ivs != [] && InScanOrder(ivs, reverse)
    requires RowsOfInterval(first, rows, ivs[0], reverse) && RowsOfIntervals(rest, rows, ivs[1..], reverse)
    ensures RowsOfIntervals(first + rest, rows, ivs, reverse)
  {
    var all := first + rest;
    forall i, j | 0 <= i < j < |all| ensures ScanOrder.Before(all[i].key, all[j].key, reverse) {
      if i < |first| && j >= |first| {
        assert first[i] in first && rest[j - |first|] in rest;
        var m :| 0 <= m < |ivs| - 1 && ivs[1..][m].Contains(rest[j - |first|].key);
        assert AllBefore(ivs[0], ivs[m + 1], reverse) && ivs[0].Contains(first[i].key) && ivs[m + 1].Contains(rest[j - |first|].key);
      }
    }
    assert ivs == [ivs[0]] + ivs[1..];
    forall x ensures x in all <==> InSome(ivs, x.key) && x.key in rows && x.value == Some(rows[x.key]) {
      InCons(ivs[0], ivs[1..], x.key);
    }
  }

  // Decoded values.

  function DecodedValue<V>(read: Blob -> V, value: Option<Blob>): Option<V> { if value.Some? then Some(read(value.value)) else None }

  function Decoded<V>(read: Blob -> V, items: seq<Item<Blob>>): seq<Item<V>> {
    seq(|items|, i requires 0 <= i < |items| => Item(items[i].key, DecodedValue(read, items[i].value)))
  }

  function DecodedRows<V>(read: Blob -> V, rows: map<Key, Blob>): map<Key, V> { map k | k in rows :: read(rows[k]) }

  function DecodedLayer<V>(read: Blob -> V, layer: map<Key, Option<Blob>>): map<Key, Option<V>> {
    map k | k in layer :: DecodedValue(read, layer[k])
  }

  lemma DecodedHolds<V>(read: Blob -> V, items: seq<Item<Blob>>, x: Item<V>)
    ensures x in Decoded(read, items) <==> exists y :: y in items && y.key == x.key && DecodedValue(read, y.value) == x.value
  {
    var list := Decoded(read, items);
    if x in list {
      var i :| 0 <= i < |list| && list[i] == x;
      assert items[i] in items;
    }
    if y :| y in items && y.key == x.key && DecodedValue(read, y.value) == x.value {
      var i :| 0 <= i < |items| && items[i] == y;
      assert list[i] == x;
    }
  }

  lemma DecodedYields<V(!new)>(read: Blob -> V, items: seq<Item<Blob>>, layer: map<Key, Option<Blob>>, iv: Interval, reverse: bool)
    requires Yields(items, layer, iv, reverse)
    ensures Yields(Decoded(read, items), DecodedLayer(read, layer), iv, reverse)
  {
    var list, decoded := Decoded(read, items), DecodedLayer(read, layer);
    forall x ensures x in list <==> iv.Contains(x.key) && x.key in decoded && decoded[x.key] == x.value {
      DecodedHolds(read, items, x);
      if iv.Contains(x.key) && x.key in layer { assert Item(x.key, layer[x.key]) in items; }
    }
  }

  lemma DecodedTree<V(!new)>(read: Blob -> V, items: seq<Item<Blob>>, tree: map<Key, Blob>, iv: Interval, reverse: bool)
    requires TreeYields(items, tree, iv, reverse)
    ensures TreeYields(Decoded(read, items), DecodedRows(read, tree), iv, reverse)
  {
    var list, decoded := Decoded(read, items), DecodedRows(read, tree);
    forall x ensures x in list <==> x.key in decoded && x.value == Some(decoded[x.key]) && Reached(x.key, iv, reverse) {
      DecodedHolds(read, items, x);
      if x.key in tree && Reached(x.key, iv, reverse) { assert Item(x.key, Some(tree[x.key])) in items; }
    }
  }
}
