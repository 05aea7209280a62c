/** `primaryRowIter` and `indexRowIter` of `engine/ranges.go` over a table state that other readers and the
    transaction itself change between their steps. */
module TableScan {
  import opened Bytes
  import opened Sequences
  import opened Overlays
  import opened Sorting
  import opened Prolly
  import opened EditMerge
  import opened ProllyReads
  import opened Pending
  import opened KeyIntervals
  import opened ScanOrder
  import opened Scan
  import opened MergedScan
  import opened IndexAgreement
  import opened IndexOverlays
  import opened TableEditor

  // Own edits that change under a merge.

  ghost predicate SameKeys<V>(a: seq<Item<V>>, b: seq<Item<V>>) {
    |a| == |b| && forall i :: 0 <= i < |a| ==> a[i].key == b[i].key
  }

  /** The same but for what one key says. */
  ghost predicate Changed<V>(a: seq<Item<V>>, b: seq<Item<V>>, k: Key) {
    SameKeys(a, b) && forall i :: 0 <= i < |a| && a[i].key != k ==> a[i] == b[i]
  }

  lemma ChangedTail<V>(a: seq<Item<V>>, b: seq<Item<V>>, k: Key)
    requires Changed(a, b, k) && a != []
    ensures b != [] && a[0].key == b[0].key && (a[0].key != k ==> a[0] == b[0]) && Changed(a[1..], b[1..], k)
  {
  }

  lemma ChangedCons<V>(x: Item<V>, y: Item<V>, a: seq<Item<V>>, b: seq<Item<V>>, k: Key)
    requires x.key == y.key && (x.key != k ==> x == y) && Changed(a, b, k)
    ensures Changed([x] + a, [y] + b, k)
  {
  }

  lemma {:induction false} LayeredChange<V>(u: seq<Item<V>>, v: seq<Item<V>>, l: seq<Item<V>>, m: seq<Item<V>>, k: Key, reverse: bool)
    requires Changed(u, v, k) && Changed(l, m, k)
    ensures Changed(Layered(u, l, reverse), Layered(v, m, reverse), k)
    decreases |u| + |l|
  {
    if u != [] && l != [] {
      ChangedTail(u, v, k);
      ChangedTail(l, m, k);
      if ScanOrder.Before(l[0].key, u[0].key, reverse) {
        LayeredChange(u, v, l[1..], m[1..], k, reverse);
        ChangedCons(l[0], m[0], Layered(u, l[1..], reverse), Layered(v, m[1..], reverse), k);
      } else {
        var a, b := if l[0].key == u[0].key then l[1..] else l, if l[0].key == u[0].key then m[1..] else m;
        LayeredChange(u[1..], v[1..], a, b, k, reverse);
        ChangedCons(u[0], v[0], Layered(u[1..], a, reverse), Layered(v[1..], b, reverse), k);
      }
    }
  }

  lemma {:induction false} UpperStays<V>(upper: seq<Item<V>>, lower: seq<Item<V>>, x: Item<V>, reverse: bool)
    requires x in upper
    ensures x in Layered(upper, lower, reverse)
    decreases |upper| + |lower|
  {
    if lower != [] {
      if ScanOrder.Before(lower[0].key, upper[0].key, reverse) {
        UpperStays(upper, lower[1..], x, reverse);
      } else if x != upper[0] {
        assert upper == [upper[0]] + upper[1..];
        UpperStays(upper[1..], if lower[0].key == upper[0].key then lower[1..] else lower, x, reverse);
      }
    }
  }

  /** One own edit changed under a merge of own edits, pending ones and the tree's: it shows exactly if its key was among
      those merged. */
  lemma MergeChange<V(!new)>(keys: seq<Key>, edits: map<Key, Option<V>>, changes: seq<Item<V>>, stored: seq<Item<V>>, iv: Interval,
                             k: Key, row: Option<V>, reverse: bool)
    requires forall i :: 0 <= i < |keys| ==> keys[i] in edits
    requires InPlace(Layered(Layered(Local(keys, edits), changes, reverse), stored, reverse), iv, reverse)
    ensures var a := Layered(Layered(Local(keys, edits), changes, reverse), stored, reverse);
            var b := Layered(Layered(Local(keys, edits[k := row]), changes, reverse), stored, reverse);
            && InPlace(b, iv, reverse) && SameKeys(a, b)
            && (forall x: Item<V> :: x in b <==> if x.key == k && k in keys then x.value == row else x in a)
  {
    var after := edits[k := row];
    var u, v := Local(keys, edits), Local(keys, after);
    var a, b := Layered(Layered(u, changes, reverse), stored, reverse), Layered(Layered(v, changes, reverse), stored, reverse);
    LayeredChange(u, v, changes, changes, k, reverse);
    LayeredChange(Layered(u, changes, reverse), Layered(v, changes, reverse), stored, stored, k, reverse);
    SameKeysInPlace(a, b, iv, reverse);
    if k in keys {
      var i :| 0 <= i < |keys| && keys[i] == k;
      assert v[i] == Item(k, row);
      UpperStays(v, changes, v[i], reverse);
      UpperStays(Layered(v, changes, reverse), stored, v[i], reverse);
      ChangedAt(a, b, k, row, reverse);
    } else {
      assert u == v;
    }
  }

  lemma ChangedAt<V(!new)>(a: seq<Item<V>>, b: seq<Item<V>>, k: Key, row: Option<V>, reverse: bool)
    requires Changed(a, b, k) && Ordered(b, reverse) && Item(k, row) in b
    ensures forall x: Item<V> :: x in b <==> if x.key == k then x.value == row else x in a
  {
    var j :| 0 <= j < |b| && b[j] == Item(k, row);
    forall i | 0 <= i < |b| && b[i].key == k ensures i == j {
      if i < j { BeforeTotal(b[i].key, b[j].key, reverse); }
      if j < i { BeforeTotal(b[j].key, b[i].key, reverse); }
    }
    forall x: Item<V> | x.key != k && x in a ensures x in b {
      var i :| 0 <= i < |a| && a[i] == x;
      assert b[i] == x;
    }
  }

  /** Ordered items of one interval. */
  ghost predicate InPlace<V(!new)>(items: seq<Item<V>>, iv: Interval, reverse: bool) {
    Ordered(items, reverse) && forall i :: 0 <= i < |items| ==> iv.Contains(items[i].key)
  }

  lemma SameKeysInPlace<V(!new)>(a: seq<Item<V>>, b: seq<Item<V>>, iv: Interval, reverse: bool)
    requires SameKeys(a, b) && InPlace(a, iv, reverse)
    ensures InPlace(b, iv, reverse)
  {
  }

  /** The intervals of a scan, each opened in turn and merged: what both iterators do. Own edits are passed in as they
      are at each step. */
  class LayerWalk<V(!new)> {
    const root: Node
    const pending: PendingRows
    const read: Blob -> V
    const list: seq<Interval>
    const reverse: bool
    ghost const entries: seq<Entry>
    var next: nat
    const cur: MergedEntries<V>
    var live: bool

    /** The layers can be read. */
    ghost predicate Readable() {
      WellLinked(root) && EntriesOf(root) == entries && Sorted(EntryKey, entries) && pending.Valid()
    }

    ghost predicate Valid(edits: map<Key, Option<V>>)
      reads this, cur, cur.overlay
    {
      && InScanOrder(list, reverse) && next <= |list| && cur.overlay.reverse == reverse
      && (live ==> next > 0 && cur.Valid(edits) && InPlace(cur.Rest(edits), list[next - 1], reverse))
    }

    /** The committed rows below the own edits. */
    ghost function Below(): map<Key, V> {
      Overlaid(DecodedRows(read, Contents(entries)), DecodedLayer(read, PendingLayer(pending.Edits())))
    }

    /** What is left of the open interval, deletes and all. */
    ghost function Coming(edits: map<Key, Option<V>>): seq<Item<V>>
      reads this, cur, cur.overlay
      requires Valid(edits)
    {
      if live then cur.Rest(edits) else []
    }

    /** The rows still to come, should the own edits stay as they are. */
    ghost function Ahead(edits: map<Key, Option<V>>): seq<Item<V>>
      reads this, cur, cur.overlay
      requires Valid(edits)
    {
      RowsAhead(Coming(edits), Overlaid(Below(), edits), list[next..], reverse)
    }

    constructor (ghost edits: map<Key, Option<V>>, root: Node, pending: PendingRows, read: Blob -> V, ivs: seq<Interval>, reverse: bool,
                 ghost entries: seq<Entry>)
      requires WellLinked(root) && EntriesOf(root) == entries && Sorted(EntryKey, entries) && pending.Valid() && Apart(ivs)
      ensures Readable() && Valid(edits) && fresh(cur) && fresh(cur.overlay) && !live
      ensures this.root == root && this.pending == pending && this.read == read && this.reverse == reverse && this.entries == entries
      ensures list == ScanOrderOf(ivs, reverse) && next == 0
      ensures Ahead(edits) == RowLists(Overlaid(Below(), edits), list, reverse)
    {
      ApartInScanOrder(ivs, reverse);
      this.root, this.pending, this.read, this.reverse, this.entries := root, pending, read, reverse, entries;
      list, next, live := ScanOrderOf(ivs, reverse), 0, false;
      cur := new MergedEntries(reverse);
      new;
      assert list[0..] == list;
    }

    /** The merge of one interval. */
    method Merge(edits: map<Key, Option<V>>, n: nat)
      requires Readable() && cur.overlay.reverse == reverse && n < |list|
      modifies cur, cur.overlay
      ensures cur.Valid(edits) && InPlace(cur.Rest(edits), list[n], reverse)
      ensures Moved(Overlaid(Below(), edits), list, [], n, cur.Rest(edits), n + 1, None, reverse)
    {
      var iv := list[n];
      var keys := SortedOverlayKeys(edits, iv, reverse);
      LocalYields(keys, edits, iv, reverse);
      var changes := DrainPending(pending, iv, reverse);
      DecodedYields(read, changes, PendingLayer(pending.Edits()), iv, reverse);
      var stored := DrainTree(root, iv, reverse, entries);
      DecodedTree(read, stored, Contents(entries), iv, reverse);
      OpenedRows(Local(keys, edits), edits, Decoded(read, changes), DecodedLayer(read, PendingLayer(pending.Edits())),
                 Decoded(read, stored), DecodedRows(read, Contents(entries)), iv, reverse);
      cur.Open(edits, keys, Decoded(read, changes), Decoded(read, stored), iv);
      OpenedMoves(cur.Rest(edits), Overlaid(Below(), edits), list, n, reverse);
    }

    /** Opens the next interval. The keys of the own edits in it are those of now. It does not change what is ahead. */
    method Open(edits: map<Key, Option<V>>)
      requires Readable() && Valid(edits) && !live && next < |list|
      modifies this`next, this`live, cur, cur.overlay
      ensures Valid(edits) && next == old(next) + 1
      ensures Moved(Overlaid(Below(), edits), list, [], old(next), Coming(edits), next, None, reverse)
    {
      next, live := next + 1, true;
      Merge(edits, next - 1);
    }

    /** Every key still to come lies after `k`, with whatever edits. */
    ghost predicate Behind(edits: map<Key, Option<V>>, k: Key)
      reads this, cur, cur.overlay
      requires Valid(edits)
    {
      Precedes(k, Coming(edits), list[next..], reverse)
    }

    /** One step of the open merge: an item, a delete to pass over, or its end. */
    method Step(edits: map<Key, Option<V>>) returns (item: Item<V>, ok: bool)
      requires Valid(edits) && live
      modifies this`next, this`live, cur, cur.overlay
      ensures Valid(edits) && next == old(next)
      ensures ok <==> old(Coming(edits)) != []
      ensures !live <==> !ok
      ensures Coming(edits) == if ok then old(Coming(edits))[1..] else old(Coming(edits))
      ensures ok ==> item == old(Coming(edits))[0]
    {
      ghost var rest := cur.Rest(edits);
      var key, value, fromOverlay;
      key, value, fromOverlay, ok := cur.Next(edits);
      item := Item(key, if fromOverlay then cur.overlay.edit else value);
      if !ok {
        live := false;
      } else {
        TailInPlace(rest, list[next - 1], reverse);
      }
    }

    /** What one step does to what is ahead: a row is taken from its front, or nothing changes. */
    method Advance(edits: map<Key, Option<V>>) returns (r: Option<Item<V>>)
      requires Valid(edits) && live
      modifies this`next, this`live, cur, cur.overlay
      ensures Valid(edits) && next == old(next)
      ensures live ==> |Coming(edits)| < |old(Coming(edits))|
      ensures Moved(Overlaid(Below(), edits), list, old(Coming(edits)), next, Coming(edits), next, r, reverse)
    {
      ghost var rest, rows := Coming(edits), Overlaid(Below(), edits);
      StepMoves(rest, rows, list, next, reverse);
      var item, ok := Step(edits);
      r := if ok && item.value.Some? then Some(item) else None;
    }

    /** The next row, and the walk past it. */
    method Next(edits: map<Key, Option<V>>) returns (r: Option<Item<V>>)
      requires Readable() && Valid(edits)
      modifies this`next, this`live, cur, cur.overlay
      ensures Valid(edits)
      ensures r.None? ==> Ahead(edits) == []
      ensures Moved(Overlaid(Below(), edits), list, old(Coming(edits)), old(next), Coming(edits), next, r, reverse)
    {
      ghost var rows, coming, start := Overlaid(Below(), edits), Coming(edits), next;
      NotMoved(coming, rows, list, next, reverse);
      while true
        invariant Valid(edits) && start <= next
        invariant Moved(rows, list, coming, start, Coming(edits), next, None, reverse)
        decreases |list| - next, if live then |Coming(edits)| + 1 else 0
      {
        ghost var before, n := Coming(edits), next;
        if !live {
          if next >= |list| { return None; }
          Open(edits);
          MovedOn(rows, list, coming, start, before, n, Coming(edits), next, None, reverse);
        } else {
          r := Advance(edits);
          MovedOn(rows, list, coming, start, before, n, Coming(edits), next, r, reverse);
          if r.Some? { return r; }
        }
      }
    }

    /** The walk still shows an own edit of this key, if one is made now: its interval is not open yet, or the key had an
        edit when it was opened and has not been passed. */
    ghost predicate Sees(edits: map<Key, Option<V>>, k: Key)
      reads this, cur, cur.overlay
      requires Valid(edits)
    {
      InSome(list[next..], k) || (live && k in cur.overlay.keys[cur.overlay.pos..])
    }

    lemma OpenChange(edits: map<Key, Option<V>>, k: Key, row: Option<V>)
      requires Valid(edits) && live
      ensures Valid(edits[k := row]) && SameKeys(Coming(edits), Coming(edits[k := row]))
      ensures forall x: Item<V> :: x in Coming(edits[k := row]) <==>
                if x.key == k && k in cur.overlay.keys[cur.overlay.pos..] then x.value == row else x in Coming(edits)
    {
      var o := cur.overlay;
      var left := o.keys[o.pos..];
      assert forall i :: 0 <= i < |left| ==> left[i] == o.keys[o.pos + i];
      assert Local(o.keys, edits)[o.pos..] == Local(left, edits);
      assert Local(o.keys, edits[k := row])[o.pos..] == Local(left, edits[k := row]);
      MergeChange(left, edits, o.pending[o.at..], Cut(cur.entries[cur.next..], cur.iv, reverse), list[next - 1], k, row, reverse);
    }

    /** An own edit does not change which keys are to come. */
    lemma BehindStays(edits: map<Key, Option<V>>, k: Key, row: Option<V>)
      requires Valid(edits)
      ensures Valid(edits[k := row])
      ensures forall j :: Behind(edits, j) ==> Behind(edits[k := row], j)
    {
      if live { OpenChange(edits, k, row); }
      forall j | Behind(edits, j) ensures Behind(edits[k := row], j) {
        SameKeysAfter(Coming(edits), Coming(edits[k := row]), j, reverse);
      }
    }

    lemma ComingIsNow(edits: map<Key, Option<V>>)
      requires Valid(edits)
      ensures forall x :: x in Coming(edits) ==> !InSome(list[next..], x.key)
    {
      forall x | x in Coming(edits) ensures !InSome(list[next..], x.key) { NotLater(list, next, x.key, reverse); }
    }

    /** After an own edit the walk is where it was, and what is ahead differs in that key's row, if the walk sees it. */
    lemma EditedAhead(edits: map<Key, Option<V>>, k: Key, row: Option<V>)
      requires Valid(edits)
      ensures Valid(edits[k := row])
      ensures forall x: Item<V> :: x in Ahead(edits[k := row]) <==>
                if x.key == k && Sees(edits, k) then row.Some? && x.value == row else x in Ahead(edits)
    {
      ghost var seen := live && k in cur.overlay.keys[cur.overlay.pos..];
      if live { OpenChange(edits, k, row); }
      ComingIsNow(edits);
      ComingIsNow(edits[k := row]);
      LaterInOrder(list, next, reverse);
      AheadChange(Coming(edits), Coming(edits[k := row]), Below(), edits, k, row, list[next..], seen, reverse);
    }
  }

  lemma SameKeysAfter<V>(a: seq<Item<V>>, b: seq<Item<V>>, k: Key, reverse: bool)
    requires SameKeys(a, b) && AllAfter(a, k, reverse)
    ensures AllAfter(b, k, reverse)
  {
  }

  lemma NotLater(ivs: seq<Interval>, n: nat, k: Key, reverse: bool)
    requires 0 < n <= |ivs| && InScanOrder(ivs, reverse) && ivs[n - 1].Contains(k)
    ensures !InSome(ivs[n..], k)
  {
    BeforeTotal(k, k, reverse);
    forall i | 0 <= i < |ivs| - n ensures !ivs[n..][i].Contains(k) { assert AllBefore(ivs[n - 1], ivs[n + i], reverse); }
  }

  lemma HeldAhead<V(!new)>(coming: seq<Item<V>>, rows: map<Key, V>, ivs: seq<Interval>, reverse: bool, x: Item<V>)
    requires InScanOrder(ivs, reverse)
    ensures x in RowsAhead(coming, rows, ivs, reverse) <==>
              (x in coming && x.value.Some?) || (InSome(ivs, x.key) && x.key in rows && x.value == Some(rows[x.key]))
  {
    ShownHolds(coming, x);
    RowListsAre(rows, ivs, reverse);
  }

  /** One own edit changed: what is ahead changes in its row, if the open interval or a later one shows it. */
  lemma AheadChange<V(!new)>(a: seq<Item<V>>, b: seq<Item<V>>, below: map<Key, V>, edits: map<Key, Option<V>>, k: Key, row: Option<V>,
                             ivs: seq<Interval>, seen: bool, reverse: bool)
    requires InScanOrder(ivs, reverse)
    requires forall x: Item<V> :: x in b <==> if x.key == k && seen then x.value == row else x in a
    requires (forall x :: x in a ==> !InSome(ivs, x.key)) && (forall x :: x in b ==> !InSome(ivs, x.key))
    ensures forall x: Item<V> :: x in RowsAhead(b, Overlaid(below, edits[k := row]), ivs, reverse) <==>
              if x.key == k && (InSome(ivs, k) || seen) then row.Some? && x.value == row
              else x in RowsAhead(a, Overlaid(below, edits), ivs, reverse)
  {
    if seen { assert Item(k, row) in b; }
    forall x: Item<V>
      ensures x in RowsAhead(b, Overlaid(below, edits[k := row]), ivs, reverse) <==>
                if x.key == k && (InSome(ivs, k) || seen) then row.Some? && x.value == row
                else x in RowsAhead(a, Overlaid(below, edits), ivs, reverse)
    {
      HeldAhead(a, Overlaid(below, edits), ivs, reverse, x);
      HeldAhead(b, Overlaid(below, edits[k := row]), ivs, reverse, x);
    }
  }

  /** The rows left of an open interval, and those of the intervals behind it. */
  ghost function RowsAhead<V(!new)>(coming: seq<Item<V>>, rows: map<Key, V>, ivs: seq<Interval>, reverse: bool): seq<Item<V>> {
    Shown(coming) + RowLists(rows, ivs, reverse)
  }

  /** What precedes the items before a step precedes them after it, and so does the key passed. */
  ghost predicate Passed<V(!new)>(before: seq<Item<V>>, after: seq<Item<V>>, ivs: seq<Interval>, later: seq<Interval>,
                                  key: Option<Key>, reverse: bool)
  {
    && (key.Some? ==> Precedes(key.value, after, later, reverse))
    && forall k :: Precedes(k, before, ivs, reverse) ==>
         Precedes(k, after, later, reverse) && (key.Some? ==> ScanOrder.Before(k, key.value, reverse))
  }

  /** The key lies before all of these items and intervals. */
  ghost predicate Precedes<V(!new)>(k: Key, items: seq<Item<V>>, ivs: seq<Interval>, reverse: bool) {
    && AllAfter(items, k, reverse)
    && forall a :: InSome(ivs, a) ==> ScanOrder.Before(k, a, reverse)
  }

  lemma OpenedPrecedes<V(!new)>(items: seq<Item<V>>, ivs: seq<Interval>, n: nat, reverse: bool)
    requires n < |ivs| && InPlace(items, ivs[n], reverse)
    ensures Passed([], items, ivs[n..], ivs[n + 1..], None, reverse)
  {
    assert ivs[n..] == [ivs[n]] + ivs[n + 1..];
    forall k | Precedes<V>(k, [], ivs[n..], reverse) ensures Precedes(k, items, ivs[n + 1..], reverse) {
      forall i | 0 <= i < |items| ensures ScanOrder.Before(k, items[i].key, reverse) {
        InCons(ivs[n], ivs[n + 1..], items[i].key);
      }
      forall a | InSome(ivs[n + 1..], a) ensures ScanOrder.Before(k, a, reverse) { InCons(ivs[n], ivs[n + 1..], a); }
    }
  }

  lemma StepPrecedes<V(!new)>(items: seq<Item<V>>, ivs: seq<Interval>, n: nat, reverse: bool)
    requires 0 < n <= |ivs| && items != [] && InPlace(items, ivs[n - 1], reverse) && InScanOrder(ivs, reverse)
    ensures InSome(ivs, items[0].key) && Passed(items, items[1..], ivs[n..], ivs[n..], Some(items[0].key), reverse)
  {
    TailInPlace(items, ivs[n - 1], reverse);
    forall a | InSome(ivs[n..], a) ensures ScanOrder.Before(items[0].key, a, reverse) {
      var i :| 0 <= i < |ivs| - n && ivs[n..][i].Contains(a);
      assert AllBefore(ivs[n - 1], ivs[n + i], reverse) && ivs[n + i].Contains(a);
    }
  }

  /** The walk has moved on: `r` is the row it yielded, if it did, and what was ahead is that row and what is ahead. */
  ghost predicate Moved<V(!new)>(rows: map<Key, V>, ivs: seq<Interval>, a: seq<Item<V>>, i: nat, b: seq<Item<V>>, j: nat,
                                 r: Option<Item<V>>, reverse: bool)
    requires i <= |ivs| && j <= |ivs|
  {
    && RowsAhead(a, rows, ivs[i..], reverse) == (if r.Some? then [r.value] else []) + RowsAhead(b, rows, ivs[j..], reverse)
    && Passed(a, b, ivs[i..], ivs[j..], if r.Some? then Some(r.value.key) else None, reverse)
    && (r.Some? ==> InSome(ivs, r.value.key) && r.value.value.Some?)
  }

  lemma NotMoved<V(!new)>(a: seq<Item<V>>, rows: map<Key, V>, ivs: seq<Interval>, i: nat, reverse: bool)
    requires i <= |ivs|
    ensures Moved(rows, ivs, a, i, a, i, None, reverse)
  {
    assert [] + RowsAhead(a, rows, ivs[i..], reverse) == RowsAhead(a, rows, ivs[i..], reverse);
  }

  lemma MovedOn<V(!new)>(rows: map<Key, V>, ivs: seq<Interval>, a: seq<Item<V>>, i: nat, b: seq<Item<V>>, j: nat, c: seq<Item<V>>, k: nat,
                         r: Option<Item<V>>, reverse: bool)
    requires i <= |ivs| && j <= |ivs| && k <= |ivs|
    requires Moved(rows, ivs, a, i, b, j, None, reverse) && Moved(rows, ivs, b, j, c, k, r, reverse)
    ensures Moved(rows, ivs, a, i, c, k, r, reverse)
  {
    assert [] + RowsAhead(b, rows, ivs[j..], reverse) == RowsAhead(b, rows, ivs[j..], reverse);
  }

  lemma OpenedMoves<V(!new)>(coming: seq<Item<V>>, rows: map<Key, V>, ivs: seq<Interval>, n: nat, reverse: bool)
    requires n < |ivs| && Shown(coming) == RowList(rows, ivs[n], reverse) && InPlace(coming, ivs[n], reverse)
    ensures Moved(rows, ivs, [], n, coming, n + 1, None, reverse)
  {
    assert ivs[n..] == [ivs[n]] + ivs[n + 1..];
    OpenedPrecedes(coming, ivs, n, reverse);
  }

  /** A step takes the first item, which is a row or a delete; at the end there is none. */
  lemma StepMoves<V(!new)>(coming: seq<Item<V>>, rows: map<Key, V>, ivs: seq<Interval>, n: nat, reverse: bool)
    requires 0 < n <= |ivs| && InPlace(coming, ivs[n - 1], reverse) && InScanOrder(ivs, reverse)
    ensures if coming == [] then Moved(rows, ivs, coming, n, [], n, None, reverse)
            else Moved(rows, ivs, coming, n, coming[1..], n, if coming[0].value.Some? then Some(coming[0]) else None, reverse)
  {
    if coming == [] {
      NotMoved(coming, rows, ivs, n, reverse);
    } else {
      var later := RowLists(rows, ivs[n..], reverse);
      StepPrecedes(coming, ivs, n, reverse);
      Regroup(if coming[0].value.Some? then [coming[0]] else [], Shown(coming[1..]), later);
    }
  }

  lemma TailInPlace<V(!new)>(items: seq<Item<V>>, iv: Interval, reverse: bool)
    requires InPlace(items, iv, reverse) && items != []
    ensures InPlace(items[1..], iv, reverse) && AllAfter(items[1..], items[0].key, reverse) && iv.Contains(items[0].key)
  {
  }

  /** The merge of an interval's layers: its keys in order, its rows the visible ones. */
  lemma OpenedRows<V(!new)>(own: seq<Item<V>>, edits: map<Key, Option<V>>, changes: seq<Item<V>>, pending: map<Key, Option<V>>,
                            stored: seq<Item<V>>, tree: map<Key, V>, iv: Interval, reverse: bool)
    requires Yields(own, edits, iv, reverse) && Yields(changes, pending, iv, reverse) && TreeYields(stored, tree, iv, reverse)
    ensures var all := Layered(Layered(own, changes, reverse), Cut(stored, iv, reverse), reverse);
            && InPlace(all, iv, reverse)
            && Shown(all) == RowList(Overlaid(Overlaid(tree, pending), edits), iv, reverse)
  {
    var overlay, cut := Layered(own, changes, reverse), Cut(stored, iv, reverse);
    var all := Layered(overlay, cut, reverse);
    ThreeLayers(own, edits, changes, pending, stored, tree, iv, reverse);
    RowListIs(Shown(all), Visible(tree, pending, edits), iv, reverse);
    LayeredOrdered(own, changes, reverse);
    CutOrdered(stored, iv, reverse);
    LayeredOrdered(overlay, cut, reverse);
    forall i | 0 <= i < |all| ensures iv.Contains(all[i].key) {
      assert all[i] in all;
      LayeredHolds(overlay, cut, reverse, all[i]);
      LayeredHolds(own, changes, reverse, all[i]);
      CutHolds(stored, iv, reverse, all[i]);
      ReachedAndNotPast(all[i].key, iv, reverse);
    }
  }

  lemma ReachedAndNotPast(k: Key, iv: Interval, reverse: bool)
    ensures Reached(k, iv, reverse) && !Past(k, iv, reverse) <==> iv.Contains(k)
  {
  }

  // Scans by primary key.

  /** Keys looked up among materialised rows. One that is gone gives an item without a row. */
  function KeyRows<V>(keys: seq<Key>, rows: map<Key, V>): seq<Item<V>> {
    seq(|keys|, i requires 0 <= i < |keys| => Item(keys[i], if keys[i] in rows then Some(rows[keys[i]]) else None))
  }

  method IntervalKeys<V(!new)>(rows: map<Key, V>, iv: Interval, reverse: bool) returns (keys: seq<Key>)
    ensures KeyRows(keys, rows) == RowList(rows, iv, reverse)
  {
    keys := SortedOverlayKeys(rows, iv, reverse);
    forall i | 0 <= i < |keys| ensures keys[i] in rows { assert keys[i] in keys; }
    MaterialisedHolds(rows, iv, keys, KeyRows(keys, rows));
    RowListIs(KeyRows(keys, rows), rows, iv, reverse);
  }

  /** The matching keys of materialised rows, interval after interval. */
  method ScanKeys<V(!new)>(rows: map<Key, V>, list: seq<Interval>, reverse: bool) returns (keys: seq<Key>)
    ensures KeyRows(keys, rows) == RowLists(rows, list, reverse)
  {
    keys := [];
    assert list[0..] == list;
    for n := 0 to |list|
      invariant KeyRows(keys, rows) + RowLists(rows, list[n..], reverse) == RowLists(rows, list, reverse)
    {
      var more := IntervalKeys(rows, list[n], reverse);
      assert list[n..] == [list[n]] + list[n + 1..];
      assert KeyRows(keys + more, rows) == KeyRows(keys, rows) + KeyRows(more, rows);
      Regroup(KeyRows(keys, rows), KeyRows(more, rows), RowLists(rows, list[n + 1..], reverse));
      keys := keys + more;
    }
  }

  /** The walk reads the layers the table state stands for. */
  ghost predicate Backs(walk: LayerWalk<Row>, state: TableState) {
    && state.tree == DecodedRows(walk.read, Contents(walk.entries))
    && state.pending == DecodedLayer(walk.read, PendingLayer(walk.pending.Edits()))
  }

  /** The next lookup by index materialises rows: an index is not persisted, and nobody looked yet. */
  ghost predicate Materialises(state: TableState)
    reads state
  {
    state.rows.None? && !state.indexed && exists i :: 0 <= i < |state.persisted| && !state.persisted[i]
  }

  /** What another reader does to the rows when it opens a scan by index. */
  method OtherLookup(state: TableState)
    requires state.Valid() && (!state.indexed ==> state.Derivable())
    modifies state`overlays, state`indexed, state`rows
    ensures state.Valid() && state.Visible() == old(state.Visible())
    ensures state.rows.Some? <==> old(state.rows.Some?) || old(Materialises(state))
  {
    state.EnsureIndexEdits();
  }

  /** The first two rows of a scan with a lookup in between. */
  ghost predicate JoinGives(all: seq<Item<Row>>, materialises: bool, first: Option<Item<Row>>, second: Option<Item<Row>>) {
    && first == (if all == [] then None else Some(all[0]))
    && second == if |all| < 2 || materialises then None else Some(all[1])
  }

  // What may happen between two steps of a scan.

  datatype Event = Pull | Materialise | Edit(key: Key, row: Option<Row>)

  ghost predicate NoEdits(events: seq<Event>) { forall e :: e in events ==> !e.Edit? }

  ghost predicate NoneMaterialised(events: seq<Event>) { Event.Materialise !in events }

  ghost predicate Touches(events: seq<Event>, k: Key) { exists row :: Event.Edit(k, row) in events }

  /** How many rows are asked for before rows are materialised, if they ever are. */
  function PullsFirst(events: seq<Event>): (n: Option<nat>)
    ensures n.None? <==> NoneMaterialised(events)
  {
    assert events != [] ==> events == [events[0]] + events[1..];
    if events == [] then None
    else match events[0]
         case Pull => (var n := PullsFirst(events[1..]); if n.Some? then Some(n.value + 1) else None)
         case Materialise => Some(0)
         case Edit(_, _) => PullsFirst(events[1..])
  }

  /** What comes of the rows ahead: all, but of a scan that began without materialised rows, if they are materialised under
      it, only as many as were asked for before. */
  function Spared<T>(ahead: seq<T>, events: seq<Event>, materialised: bool): seq<T> {
    var n := PullsFirst(events);
    if !materialised && n.Some? && n.value < |ahead| then ahead[..n.value] else ahead
  }

  /** What an iterator has to go on with: `ahead` is what it yields should the table state stay as it is, and every key it
      may yet yield, whatever becomes of the table state, lies after those in `passed`. */
  datatype View = View(ahead: seq<Item<Row>>, materialised: bool, passed: iset<Key>)

  /** One event: an item is yielded on a pull only, it is the first one ahead, and it lies behind all passed. Rows
      materialised under the iterator cost it what was ahead. */
  ghost predicate Follows(a: View, e: Event, r: Option<Item<Row>>, b: View, ivs: seq<Interval>, reverse: bool) {
    && (r.Some? ==> r.value.key in b.passed && InSome(ivs, r.value.key))
    && (forall k :: k in a.passed ==> k in b.passed && (r.Some? ==> ScanOrder.Before(k, r.value.key, reverse)))
    && match e
       case Pull => b.materialised == a.materialised && if r.Some? then a.ahead == [r.value] + b.ahead else a.ahead == b.ahead == []
       case Materialise => r.None? && b.materialised && b.ahead == if a.materialised then a.ahead else []
       case Edit(k, _) => r.None? && b.materialised == a.materialised && forall x: Item<Row> :: x.key != k ==> (x in a.ahead <==> x in b.ahead)
  }

  /** A scan with these events in it: the rows visible when it was made, and what should come of it. */
  datatype Course = Course(all: seq<Item<Row>>, goal: seq<Item<Row>>, events: seq<Event>, steady: bool, ivs: seq<Interval>, reverse: bool)

  ghost function CourseOf(v: View, events: seq<Event>, ivs: seq<Interval>, reverse: bool): Course {
    Course(v.ahead, Spared(v.ahead, events, v.materialised), events, v.materialised || NoneMaterialised(events), ivs, reverse)
  }

  /** A scan under way: its items are in order and passed; without edits it is on the way to the goal; and as for rows that
      are not edited, it yields only such as were visible, and all of them if rows are not materialised under it. */
  ghost predicate Running(c: Course, v: View, out: seq<Item<Row>>, left: seq<Event>) {
    && Ordered(out, c.reverse) && (forall i :: 0 <= i < |out| ==> InSome(c.ivs, out[i].key) && out[i].key in v.passed)
    && (forall e :: e in left && e.Edit? ==> e in c.events)
    && (NoEdits(c.events) ==> c.goal == out + Spared(v.ahead, left, v.materialised))
    && (c.steady ==> v.materialised || NoneMaterialised(left))
    && (forall x: Item<Row> :: !Touches(c.events, x.key) && (x in out || x in v.ahead) ==> x in c.all)
    && (c.steady ==> forall x: Item<Row> :: !Touches(c.events, x.key) && x in c.all ==> x in out || x in v.ahead)
  }

  lemma RunStarts(v: View, events: seq<Event>, ivs: seq<Interval>, reverse: bool)
    ensures Running(CourseOf(v, events, ivs, reverse), v, [], events)
  {
    NothingYet(Spared(v.ahead, events, v.materialised));
  }

  lemma SparedOn(a: View, e: Event, r: Option<Item<Row>>, b: View, left: seq<Event>, ivs: seq<Interval>, reverse: bool)
    requires left != [] && left[0] == e && !e.Edit? && Follows(a, e, r, b, ivs, reverse)
    ensures Spared(a.ahead, left, a.materialised) == (if r.Some? then [r.value] else []) + Spared(b.ahead, left[1..], b.materialised)
  {
  }

  lemma RunsOn(c: Course, a: View, e: Event, r: Option<Item<Row>>, b: View, out: seq<Item<Row>>, left: seq<Event>)
    requires left != [] && left[0] == e && Follows(a, e, r, b, c.ivs, c.reverse) && Running(c, a, out, left)
    ensures Running(c, b, out + if r.Some? then [r.value] else [], left[1..])
  {
    var one := if r.Some? then [r.value] else [];
    assert left == [e] + left[1..];
    if NoEdits(c.events) {
      assert e in left;
      SparedOn(a, e, r, b, left, c.ivs, c.reverse);
      Regroup(out, one, Spared(b.ahead, left[1..], b.materialised));
    }
    RowsOn(c, a, e, r, b, left);
  }

  /** Of a row that is not edited: what was to come is the item yielded or still to come. */
  lemma RowsOn(c: Course, a: View, e: Event, r: Option<Item<Row>>, b: View, left: seq<Event>)
    requires left != [] && left[0] == e && (e.Edit? ==> e in c.events) && Follows(a, e, r, b, c.ivs, c.reverse)
    ensures forall x: Item<Row> :: !Touches(c.events, x.key) && (r == Some(x) || x in b.ahead) ==> x in a.ahead
    ensures a.materialised || NoneMaterialised(left) ==>
              (b.materialised || NoneMaterialised(left[1..]))
              && forall x: Item<Row> :: !Touches(c.events, x.key) && x in a.ahead ==> r == Some(x) || x in b.ahead
  {
  }

  lemma RunPulls(c: Course, v: View, out: seq<Item<Row>>)
    requires Running(c, v, out, [])
    ensures Running(c, v, out, [Pull])
  {
    assert [Pull][1..] == [];
  }

  /** What a whole scan comes to. */
  ghost predicate Whole(c: Course, out: seq<Item<Row>>) {
    && Ordered(out, c.reverse) && (forall i :: 0 <= i < |out| ==> InSome(c.ivs, out[i].key))
    && (NoEdits(c.events) ==> out == c.goal)
    && (forall x: Item<Row> :: !Touches(c.events, x.key) && x in out ==> x in c.all)
    && (c.steady ==> forall x: Item<Row> :: !Touches(c.events, x.key) && x in c.all ==> x in out)
  }

  lemma RunEnds(c: Course, v: View, out: seq<Item<Row>>)
    requires Running(c, v, out, []) && v.ahead == []
    ensures Whole(c, out)
  {
    NothingYet(out);
  }

  /** `primaryRowIter`. It looks at the table state anew at every step: once rows are materialised it serves them by the
      keys it collected when it was made, and there are none unless they were materialised then. */
  class PrimaryRowIter {
    const state: TableState
    const walk: LayerWalk<Row>
    var keys: seq<Key>
    var next: nat
    ghost const served: bool

    ghost predicate Valid()
      reads this, state, walk, walk.cur, walk.cur.overlay
    {
      && state.Valid() && Backs(walk, state) && walk.Readable() && walk.Valid(state.edits)
      && next <= |keys|
      && (if served then state.rows.Some? && InScan(keys, walk.list, walk.reverse) else keys == [])
    }

    /** What it yields from here on, should the table state stay as it is. */
    ghost function Ahead(): seq<Item<Row>>
      reads this, state, walk, walk.cur, walk.cur.overlay
      requires Valid()
    {
      AheadUnder(state.edits, state.rows.Some?, state.Visible())
    }

    ghost function Passed(): iset<Key>
      reads this, state, walk, walk.cur, walk.cur.overlay
      requires Valid()
    {
      iset k | Behind(k)
    }

    ghost function Now(): View
      reads this, state, walk, walk.cur, walk.cur.overlay
      requires Valid()
    {
      View(Ahead(), state.rows.Some?, Passed())
    }

    ghost function AheadUnder(edits: map<Key, Option<Row>>, materialised: bool, visible: map<Key, Row>): seq<Item<Row>>
      reads this, walk, walk.cur, walk.cur.overlay
      requires walk.Valid(edits) && next <= |keys|
    {
      if materialised then KeyRows(keys[next..], visible) else walk.Ahead(edits)
    }

    constructor (state: TableState, root: Node, pending: PendingRows, read: Blob -> Row, ivs: seq<Interval>, reverse: bool, ghost entries: seq<Entry>)
      requires state.Valid() && WellLinked(root) && EntriesOf(root) == entries && Sorted(EntryKey, entries) && pending.Valid() && Apart(ivs)
      requires state.tree == DecodedRows(read, Contents(entries)) && state.pending == DecodedLayer(read, PendingLayer(pending.Edits()))
      ensures Valid() && fresh(walk) && fresh(walk.cur) && fresh(walk.cur.overlay) && this.state == state && served == state.rows.Some?
      ensures walk.list == ScanOrderOf(ivs, reverse) && walk.reverse == reverse
      ensures RowsOfIntervals(Ahead(), state.Visible(), ivs, reverse)
    {
      var w := new LayerWalk(state.edits, root, pending, read, ivs, reverse, entries);
      this.state, walk, keys, next, served := state, w, [], 0, state.rows.Some?;
      new;
      ScanRows(state.Visible(), ivs, reverse);
      if state.rows.Some? {
        keys := ScanKeys(state.rows.value, walk.list, reverse);
        KeysInScan(keys, state.rows.value, walk.list, reverse);
        assert keys[0..] == keys;
      }
    }

    /** Every key it may still yield, whatever becomes of the table state, lies after `k`. */
    ghost predicate Behind(k: Key)
      reads this, state, walk, walk.cur, walk.cur.overlay
      requires Valid()
    {
      if served then forall i :: next <= i < |keys| ==> ScanOrder.Before(k, keys[i], walk.reverse) else walk.Behind(state.edits, k)
    }

    /** A row by its key. */
    method NextKey() returns (r: Option<Item<Row>>)
      requires Valid() && state.rows.Some?
      modifies this`next
      ensures Valid() && Follows(old(Now()), Pull, r, Now(), walk.list, walk.reverse)
    {
      if next >= |keys| { return None; }
      var key := keys[next];
      KeyTaken(keys, next, state.rows.value);
      KeyPasses(keys, next, walk.list, walk.reverse);
      next := next + 1;
      return Some(Item(key, if key in state.rows.value then Some(state.rows.value[key]) else None));
    }

    /** A row of the merged layers. */
    method NextMerged() returns (r: Option<Item<Row>>)
      requires Valid() && state.rows.None?
      modifies walk`next, walk`live, walk.cur, walk.cur.overlay
      ensures Valid() && Follows(old(Now()), Pull, r, Now(), walk.list, walk.reverse)
    {
      ghost var ahead := Ahead();
      r := walk.Next(state.edits);
      assert ahead == (if r.Some? then [r.value] else []) + Ahead();
    }

    /** `Next`: one more item of what is ahead as the table state is now. */
    method Next() returns (r: Option<Item<Row>>)
      requires Valid()
      modifies this`next, walk`next, walk`live, walk.cur, walk.cur.overlay
      ensures Valid() && Follows(old(Now()), Pull, r, Now(), walk.list, walk.reverse)
    {
      if state.rows.Some? { r := NextKey(); } else { r := NextMerged(); }
    }

    // What others do to the table state in between.

    /** Rows are materialised, as another reader's `ensureIndexEdits` does: what was ahead is lost, unless the iterator was
        made on materialised rows. */
    method Materialise()
      requires Valid()
      modifies state`rows
      ensures Valid() && Follows(old(Now()), Event.Materialise, None, Now(), walk.list, walk.reverse)
    {
      state.EnsureRows();
    }

    /** Another reader opens a scan by index. */
    method LookupBeside()
      requires Valid() && (!state.indexed ==> state.Derivable())
      modifies state`overlays, state`indexed, state`rows
      ensures Valid() && state.Visible() == old(state.Visible())
      ensures Ahead() == if old(Materialises(state)) then [] else old(Ahead())
    {
      OtherLookup(state);
    }

    /** A row, a lookup by another reader, and the next row. */
    method Joined() returns (first: Option<Item<Row>>, second: Option<Item<Row>>)
      requires Valid() && (!state.indexed ==> state.Derivable())
      modifies this`next, walk`next, walk`live, walk.cur, walk.cur.overlay, state`overlays, state`indexed, state`rows
      ensures state.Valid() && state.Visible() == old(state.Visible())
      ensures JoinGives(old(Ahead()), old(Materialises(state)), first, second)
    {
      first := Next();
      LookupBeside();
      second := Next();
    }

    /** An own edit of the table still shows an edit of this key, if one is made now. */
    ghost predicate Sees(k: Key)
      reads this, state, walk, walk.cur, walk.cur.overlay
      requires Valid()
    {
      if state.rows.Some? then k in keys[next..] else walk.Sees(state.edits, k)
    }

    /** The transaction edits a row: what is ahead changes in that row, if the iterator sees it, and otherwise not. A row
        deleted ahead is passed over, except that materialised rows yield an item without a row for it. */
    method Edit(k: Key, row: Option<Row>)
      requires Valid()
      modifies state`edits, state`rows
      ensures Valid() && state.edits == old(state.edits)[k := row]
      ensures Follows(old(Now()), Event.Edit(k, row), None, Now(), walk.list, walk.reverse)
      ensures EditShows(old(Ahead()), Ahead(), k, row, old(Sees(k)), state.rows.Some?)
    {
      EditedAhead(k, row);
      EditedBehind(k, row);
      state.SetEdit(k, row);
    }

    lemma EditedAhead(k: Key, row: Option<Row>)
      requires Valid()
      ensures walk.Valid(state.edits[k := row])
      ensures var edits := state.edits[k := row];
              EditShows(Ahead(), AheadUnder(edits, state.rows.Some?, Overlaid(Overlaid(state.tree, state.pending), edits)), k, row,
                        Sees(k), state.rows.Some?)
    {
      walk.EditedAhead(state.edits, k, row);
      EditVisible(Overlaid(state.tree, state.pending), state.edits, k, row);
      if state.rows.Some? {
        EditedKeys(keys[next..], state.Visible(), Overlaid(Overlaid(state.tree, state.pending), state.edits[k := row]), k, row);
      }
    }

    lemma EditedBehind(k: Key, row: Option<Row>)
      requires Valid()
      ensures walk.Valid(state.edits[k := row])
      ensures forall j :: walk.Behind(state.edits, j) ==> walk.Behind(state.edits[k := row], j)
    {
      walk.BehindStays(state.edits, k, row);
    }

    /** One event, and the item it gave, if any. */
    method Happens(e: Event) returns (r: Option<Item<Row>>)
      requires Valid()
      modifies this`next, walk`next, walk`live, walk.cur, walk.cur.overlay, state`edits, state`rows
      ensures Valid() && Follows(old(Now()), e, r, Now(), walk.list, walk.reverse)
    {
      r := None;
      match e
      case Pull => r := Next();
      case Materialise => Materialise();
      case Edit(k, row) => Edit(k, row);
    }

    /** Many events. */
    method HappenAll(events: seq<Event>, ghost c: Course) returns (out: seq<Item<Row>>)
      requires Valid() && c == CourseOf(Now(), events, walk.list, walk.reverse)
      modifies this`next, walk`next, walk`live, walk.cur, walk.cur.overlay, state`edits, state`rows
      ensures Valid() && Running(c, Now(), out, [])
    {
      out := [];
      RunStarts(Now(), events, walk.list, walk.reverse);
      NothingYet(events);
      for i := 0 to |events|
        invariant Valid() && Running(c, Now(), out, events[i..])
      {
        FirstOf(events, i);
        out := Collect(events[i], events[i..], c, out);
      }
    }

    /** One event of many: its item goes behind those before. */
    method Collect(e: Event, ghost left: seq<Event>, ghost c: Course, before: seq<Item<Row>>) returns (out: seq<Item<Row>>)
      requires Valid() && c.ivs == walk.list && c.reverse == walk.reverse && left != [] && left[0] == e && Running(c, Now(), before, left)
      modifies this`next, walk`next, walk`live, walk.cur, walk.cur.overlay, state`edits, state`rows
      ensures Valid() && Running(c, Now(), out, left[1..])
    {
      ghost var v := Now();
      var r := Happens(e);
      out := before + if r.Some? then [r.value] else [];
      RunsOn(c, v, e, r, Now(), before, left);
    }

    /** And on to the end, the table state left alone. */
    method Finish(ghost c: Course, before: seq<Item<Row>>) returns (out: seq<Item<Row>>)
      requires Valid() && c.ivs == walk.list && c.reverse == walk.reverse && Running(c, Now(), before, [])
      modifies this`next, walk`next, walk`live, walk.cur, walk.cur.overlay
      ensures Valid() && Whole(c, out)
    {
      out := before;
      while true
        invariant Valid() && Running(c, Now(), out, [])
        decreases |Now().ahead|
      {
        ghost var v, sofar := Now(), out;
        var r := Next();
        RunPulls(c, v, out);
        RunsOn(c, v, Pull, r, Now(), out, [Pull]);
        NothingYet(out);
        if r.None? { break; }
        out := out + [r.value];
      }
      RunEnds(c, Now(), out);
    }
  }

  lemma NothingYet<T>(xs: seq<T>)
    ensures [] + xs == xs + [] == xs
  {
  }

  /** What an own edit of `k` makes of what is ahead. */
  ghost predicate EditShows<V(!new)>(before: seq<Item<V>>, after: seq<Item<V>>, k: Key, row: Option<V>, seen: bool, materialised: bool) {
    forall x: Item<V> :: x in after <==> if x.key == k && seen then x.value == row && (materialised || row.Some?) else x in before
  }

  lemma EditedKeys<V(!new)>(keys: seq<Key>, rows: map<Key, V>, after: map<Key, V>, k: Key, row: Option<V>)
    requires after == if row.Some? then rows[k := row.value] else rows - {k}
    ensures forall x: Item<V> :: x in KeyRows(keys, after) <==> if x.key == k && k in keys then x.value == row else x in KeyRows(keys, rows)
  {
    var a, b := KeyRows(keys, rows), KeyRows(keys, after);
    forall x: Item<V> ensures x in b <==> if x.key == k && k in keys then x.value == row else x in a {
      KeyRowsHold(keys, rows, x);
      KeyRowsHold(keys, after, x);
    }
  }

  lemma KeyRowsHold<V>(keys: seq<Key>, rows: map<Key, V>, x: Item<V>)
    ensures x in KeyRows(keys, rows) <==> x.key in keys && x.value == if x.key in rows then Some(rows[x.key]) else None
  {
    var items := KeyRows(keys, rows);
    if x.key in keys && x.value == (if x.key in rows then Some(rows[x.key]) else None) {
      var i :| 0 <= i < |keys| && keys[i] == x.key;
      assert items[i] == x;
    }
  }

  lemma KeyTaken<V>(keys: seq<Key>, n: nat, rows: map<Key, V>)
    requires n < |keys|
    ensures KeyRows(keys[n..], rows)
            == [Item(keys[n], if keys[n] in rows then Some(rows[keys[n]]) else None)] + KeyRows(keys[n + 1..], rows)
  {
    assert keys[n..] == [keys[n]] + keys[n + 1..];
  }

  lemma KeyPasses(keys: seq<Key>, n: nat, ivs: seq<Interval>, reverse: bool)
    requires n < |keys| && InScan(keys, ivs, reverse)
    ensures InSome(ivs, keys[n]) && forall i :: n < i < |keys| ==> ScanOrder.Before(keys[n], keys[i], reverse)
  {
  }

  /** Keys in scan order, within the intervals. */
  ghost predicate InScan(keys: seq<Key>, ivs: seq<Interval>, reverse: bool) {
    && (forall i, j :: 0 <= i < j < |keys| ==> ScanOrder.Before(keys[i], keys[j], reverse))
    && (forall i :: 0 <= i < |keys| ==> InSome(ivs, keys[i]))
  }

  lemma KeysInScan(keys: seq<Key>, rows: map<Key, Row>, list: seq<Interval>, reverse: bool)
    requires KeyRows(keys, rows) == RowLists(rows, list, reverse) && RowsOfIntervals(RowLists(rows, list, reverse), rows, list, reverse)
    ensures InScan(keys, list, reverse)
  {
    var items := KeyRows(keys, rows);
    forall i, j | 0 <= i < j < |keys| ensures ScanOrder.Before(keys[i], keys[j], reverse) {
      assert ScanOrder.Before(items[i].key, items[j].key, reverse);
    }
    forall i | 0 <= i < |keys| ensures InSome(list, keys[i]) { assert items[i] in items; }
  }

  lemma ScanRows<V(!new)>(rows: map<Key, V>, ivs: seq<Interval>, reverse: bool)
    requires Apart(ivs)
    ensures var list := ScanOrderOf(ivs, reverse);
            && RowsOfIntervals(RowLists(rows, list, reverse), rows, list, reverse)
            && RowsOfIntervals(RowLists(rows, list, reverse), rows, ivs, reverse)
  {
    ApartInScanOrder(ivs, reverse);
    RowListsAre(rows, ScanOrderOf(ivs, reverse), reverse);
  }

  lemma FirstOf<T>(xs: seq<T>, i: nat)
    requires i < |xs|
    ensures xs[i..] == [xs[i]] + xs[i + 1..]
  {
  }

  /** A scan by primary key with anything in between: some of its steps, other readers that materialise rows and own
      edits, in any order, and then the rest of its steps. Whatever happens, its keys come in order, each at most once, from
      the intervals, and a row that is not edited comes only if it was visible when the scan was made. All such rows come
      if rows are never materialised under it. If they are, and nothing is edited, as many of the visible rows come as were
      asked for before, from the first: all of them exactly if there are no more. */
  method ScanAmid(state: TableState, root: Node, pending: PendingRows, read: Blob -> Row, ivs: seq<Interval>, reverse: bool,
                  events: seq<Event>, ghost entries: seq<Entry>) returns (out: seq<Item<Row>>, ghost all: seq<Item<Row>>)
    requires state.Valid() && WellLinked(root) && EntriesOf(root) == entries && Sorted(EntryKey, entries) && pending.Valid() && Apart(ivs)
    requires state.tree == DecodedRows(read, Contents(entries)) && state.pending == DecodedLayer(read, PendingLayer(pending.Edits()))
    modifies state`edits, state`rows
    ensures state.Valid() && Ordered(out, reverse) && forall i :: 0 <= i < |out| ==> InSome(ivs, out[i].key)
    ensures RowsOfIntervals(all, old(state.Visible()), ivs, reverse)
    ensures NoEdits(events) ==> out == Spared(all, events, old(state.rows.Some?))
    ensures NoEdits(events) ==>
              (out == all <==> old(state.rows.Some?) || NoneMaterialised(events) || PullsFirst(events).value >= |all|)
    ensures forall x: Item<Row> :: !Touches(events, x.key) && x in out ==> x in all
    ensures old(state.rows.Some?) || NoneMaterialised(events) ==>
              forall x: Item<Row> :: !Touches(events, x.key) && x in all ==> x in out
  {
    var it := new PrimaryRowIter(state, root, pending, read, ivs, reverse, entries);
    all := it.Ahead();
    ghost var c := CourseOf(it.Now(), events, it.walk.list, reverse);
    out := it.HappenAll(events, c);
    out := it.Finish(c, out);
    ApartInScanOrder(ivs, reverse);
  }

  /** A scan by primary key from the start to its end, the table state left alone: exactly the visible rows of the
      intervals, each once, in order, ascending or descending, materialised or not. */
  method PrimaryScan(state: TableState, root: Node, pending: PendingRows, read: Blob -> Row, ivs: seq<Interval>, reverse: bool,
                     ghost entries: seq<Entry>) returns (out: seq<Item<Row>>)
    requires state.Valid() && WellLinked(root) && EntriesOf(root) == entries && Sorted(EntryKey, entries) && pending.Valid() && Apart(ivs)
    requires state.tree == DecodedRows(read, Contents(entries)) && state.pending == DecodedLayer(read, PendingLayer(pending.Edits()))
    ensures RowsOfIntervals(out, state.Visible(), ivs, reverse)
  {
    var it := new PrimaryRowIter(state, root, pending, read, ivs, reverse, entries);
    ghost var c := CourseOf(it.Now(), [], it.walk.list, reverse);
    RunStarts(it.Now(), [], it.walk.list, reverse);
    out := it.Finish(c, []);
  }

  /** A join of a table with itself by an index: a row of a scan by primary key, a lookup by index, and the next row. There
      is none exactly if there is none to come or the lookup materialised rows. */
  method SelfJoin(state: TableState, root: Node, pending: PendingRows, read: Blob -> Row, ivs: seq<Interval>, reverse: bool,
                  ghost entries: seq<Entry>)
    returns (first: Option<Item<Row>>, second: Option<Item<Row>>, ghost all: seq<Item<Row>>)
    requires state.Valid() && WellLinked(root) && EntriesOf(root) == entries && Sorted(EntryKey, entries) && pending.Valid() && Apart(ivs)
    requires state.tree == DecodedRows(read, Contents(entries)) && state.pending == DecodedLayer(read, PendingLayer(pending.Edits()))
    requires !state.indexed ==> state.Derivable()
    modifies state`overlays, state`indexed, state`rows
    ensures state.Valid() && state.Visible() == old(state.Visible()) && RowsOfIntervals(all, state.Visible(), ivs, reverse)
    ensures JoinGives(all, old(Materialises(state)), first, second)
  {
    var it := new PrimaryRowIter(state, root, pending, read, ivs, reverse, entries);
    all := it.Ahead();
    first, second := it.Joined();
  }

  const TwoEntries: seq<Entry> := [Entry([1], []), Entry([2], [])]
  const TwoRows: map<Key, Row> := map[[1] := [None], [2] := [None]]
  const ByKey: IndexDef := IndexDef("i", false, (row: Row, pk: Key) => pk, (row: Row) => true)

  function NullRow(b: Blob): Row { [None] }

  lemma TwoRowsHeld()
    ensures Sorted(EntryKey, TwoEntries) && DecodedRows(NullRow, Contents(TwoEntries)) == TwoRows
    ensures DecodedLayer(NullRow, PendingLayer(PendingRows([]).Edits())) == map[]
    ensures Overlaid(Overlaid(TwoRows, map[]), map[]) == TwoRows
  {
    assert TwoEntries[..1] == [TwoEntries[0]] && TwoEntries[0..0] == [];
    assert LastOf(EntryKey, TwoEntries[..1]) == map[[1] := TwoEntries[0]];
    assert LastOf(EntryKey, TwoEntries) == map[[1] := TwoEntries[0], [2] := TwoEntries[1]];
  }

  lemma TwoRowsListed(all: seq<Item<Row>>)
    requires RowsOfIntervals(all, TwoRows, [Interval([], None)], false)
    ensures all == [Item([1], Some([None])), Item([2], Some([None]))]
  {
    var two: seq<Item<Row>> := [Item([1], Some([None])), Item([2], Some([None]))];
    var whole := Interval([], None);
    assert [whole][0] == whole;
    assert forall k :: InSome([whole], k) <==> !Less(k, []);
    assert two[0] in two && two[1] in two;
    forall x ensures x in all <==> x in two { assert x.key in TwoRows ==> x.key == [1] || x.key == [2]; }
    OrderedUnique(all, two, false);
  }

  /** In a table of two rows, with an index that is not persisted, the scan ends behind the first row. */
  method SelfJoinLosesARow() returns (first: Option<Item<Row>>, second: Option<Item<Row>>, missed: Option<Row>)
    ensures first == Some(Item([1], Some([None]))) && second == None && missed == Some([None])
  {
    var state := new TableState(Schema((row: Row) => None, [ByKey]), TwoRows, map[], [map[]], [false]);
    ghost var all;
    TwoRowsHeld();
    assert state.Visible() == TwoRows && !state.persisted[0];
    first, second, all := SelfJoin(state, Leaf(TwoEntries), PendingRows([]), NullRow, [Interval([], None)], false, TwoEntries);
    TwoRowsListed(all);
    missed := state.LookupRow([2]);
  }

  // Scans by a secondary index.

  datatype Found = Found(pk: Key, row: Row)

  function FoundKey(def: IndexDef, f: Found): Key { def.key(f.row, f.pk) }

  /** The rows with their key in the intervals, in index order. */
  ghost predicate FoundByIndex(def: IndexDef, out: seq<Found>, rows: map<Key, Row>, ivs: seq<Interval>, reverse: bool) {
    && (forall i, j :: 0 <= i < j < |out| ==> ScanOrder.Before(FoundKey(def, out[i]), FoundKey(def, out[j]), reverse))
    && forall f :: f in out <==> f.pk in rows && rows[f.pk] == f.row && InSome(ivs, FoundKey(def, f))
  }

  /** Entries followed to their rows; one without a row is passed over. */
  function Following(entries: seq<Item<Blob>>, rows: map<Key, Row>): seq<Found> {
    if entries == [] then []
    else (if entries[0].value.Some? && entries[0].value.value in rows
          then [Found(entries[0].value.value, rows[entries[0].value.value])] else []) + Following(entries[1..], rows)
  }

  function Same(b: Blob): Blob { b }

  lemma SameDecoded(tree: map<Key, Blob>, pending: map<Key, Option<Blob>>)
    ensures Overlaid(Overlaid(DecodedRows(Same, tree), DecodedLayer(Same, pending)), map[]) == Overlaid(tree, pending)
  {
  }

  /** `indexRowIter`. The entries are those of when it was made; the rows are looked up at every step. */
  class IndexRowIter {
    const state: TableState
    const walk: LayerWalk<Blob>

    ghost predicate Valid()
      reads this, state, walk, walk.cur, walk.cur.overlay
    {
      state.Valid() && walk.Readable() && walk.Valid(map[])
    }

    ghost function Entries(): seq<Item<Blob>>
      reads this, state, walk, walk.cur, walk.cur.overlay
      requires Valid()
    {
      walk.Ahead(map[])
    }

    /** `newIndexRowIter`, behind its `ensureIndexEdits`. */
    constructor (state: TableState, i: nat, root: Node, pending: PendingRows, ivs: seq<Interval>, reverse: bool, ghost entries: seq<Entry>)
      requires state.Valid() && state.indexed && i < |state.overlays|
      requires WellLinked(root) && EntriesOf(root) == entries && Sorted(EntryKey, entries) && pending.Valid() && Apart(ivs)
      requires Overlaid(Contents(entries), PendingLayer(pending.Edits())) == IndexOver(state.trees[i], state.overlays[i])
      ensures Valid() && fresh(walk) && fresh(walk.cur) && fresh(walk.cur.overlay) && this.state == state
      ensures RowsOfIntervals(Entries(), IndexOver(state.trees[i], state.overlays[i]), ivs, reverse)
    {
      ghost var none: map<Key, Option<Blob>> := map[];
      var w := new LayerWalk(none, root, pending, Same, ivs, reverse, entries);
      this.state, walk := state, w;
      new;
      SameDecoded(Contents(entries), PendingLayer(pending.Edits()));
      ScanRows(IndexOver(state.trees[i], state.overlays[i]), ivs, reverse);
    }

    /** `Next`: the next entry whose row is there now. */
    method Next() returns (r: Option<Found>)
      requires Valid()
      modifies walk`next, walk`live, walk.cur, walk.cur.overlay
      ensures Valid() && FollowedTo(old(Entries()), state.Visible(), r, Entries())
    {
      ghost var all, rows := Entries(), state.Visible();
      var done := false;
      r := None;
      while !done
        invariant Valid() && if done then FollowedTo(all, rows, r, Entries()) else Skipped(all, rows, Entries())
        decreases |Entries()|, !done
      {
        ghost var before := Entries();
        r, done := Look(rows);
        FollowedFrom(all, before, rows, r, Entries());
      }
    }

    /** One entry, looked up. */
    method Look(ghost rows: map<Key, Row>) returns (r: Option<Found>, done: bool)
      requires Valid() && rows == state.Visible()
      modifies walk`next, walk`live, walk.cur, walk.cur.overlay
      ensures Valid() && if done then FollowedTo(old(Entries()), rows, r, Entries()) else Skipped(old(Entries()), rows, Entries())
      ensures !done ==> |Entries()| < |old(Entries())|
    {
      var e := NextEntry();
      if e.None? { return None, true; }
      var pk := e.value.value.value;
      var row := state.LookupRow(pk);
      FollowOne(e.value, Entries(), rows);
      r, done := if row.Some? then Some(Found(pk, row.value)) else None, row.Some?;
    }

    method Drain(ghost rows: map<Key, Row>) returns (out: seq<Found>)
      requires Valid() && rows == state.Visible()
      modifies walk`next, walk`live, walk.cur, walk.cur.overlay
      ensures out == Following(old(Entries()), rows)
    {
      out := [];
      ghost var goal := Following(Entries(), rows);
      NothingYet(goal);
      while true
        invariant Valid() && rows == state.Visible() && goal == out + Following(Entries(), rows)
        decreases |Entries()|
      {
        ghost var before := Entries();
        var r := Next();
        FollowedOn(before, rows, r, Entries(), out);
        if r.None? { break; }
        out := out + [r.value];
      }
    }

    method NextEntry() returns (e: Option<Item<Blob>>)
      requires Valid()
      modifies walk`next, walk`live, walk.cur, walk.cur.overlay
      ensures Valid()
      ensures e.None? ==> old(Entries()) == [] && Entries() == []
      ensures e.Some? ==> e.value.value.Some? && old(Entries()) == [e.value] + Entries()
    {
      ghost var before := Entries();
      e := walk.Next(map[]);
      assert before == (if e.Some? then [e.value] else []) + Entries();
    }
  }

  /** Entries without a row passed over. */
  ghost predicate Skipped(a: seq<Item<Blob>>, rows: map<Key, Row>, b: seq<Item<Blob>>) {
    |b| <= |a| && Following(a, rows) == Following(b, rows)
  }

  /** The first entry with a row, and what is left behind it. */
  ghost predicate FollowedTo(a: seq<Item<Blob>>, rows: map<Key, Row>, r: Option<Found>, b: seq<Item<Blob>>) {
    if r.Some? then |b| < |a| && Following(a, rows) == [r.value] + Following(b, rows) else Following(a, rows) == [] && b == []
  }

  lemma FollowedOn(a: seq<Item<Blob>>, rows: map<Key, Row>, r: Option<Found>, b: seq<Item<Blob>>, out: seq<Found>)
    requires FollowedTo(a, rows, r, b)
    ensures r.None? ==> out + Following(a, rows) == out
    ensures r.Some? ==> out + Following(a, rows) == out + [r.value] + Following(b, rows)
  {
  }

  lemma FollowedFrom(a: seq<Item<Blob>>, b: seq<Item<Blob>>, rows: map<Key, Row>, r: Option<Found>, c: seq<Item<Blob>>)
    requires Skipped(a, rows, b)
    ensures FollowedTo(b, rows, r, c) ==> FollowedTo(a, rows, r, c)
    ensures Skipped(b, rows, c) ==> Skipped(a, rows, c)
  {
  }

  /** The first entry followed. */
  lemma FollowOne(e: Item<Blob>, rest: seq<Item<Blob>>, rows: map<Key, Row>)
    requires e.value.Some?
    ensures e.value.value in rows ==> FollowedTo([e] + rest, rows, Some(Found(e.value.value, rows[e.value.value])), rest)
    ensures e.value.value !in rows ==> Skipped([e] + rest, rows, rest)
  {
    assert ([e] + rest)[1..] == rest;
  }

  // A scan by index from its start to its end.

  ghost predicate Leads(def: IndexDef, rows: map<Key, Row>, e: Item<Blob>) {
    e.value.Some? && e.value.value in rows && def.key(rows[e.value.value], e.value.value) == e.key
  }

  /** If every entry leads to its row, the rows found are those of the entries, one by one. */
  lemma {:induction false} FollowingAll(def: IndexDef, rows: map<Key, Row>, list: seq<Item<Blob>>)
    requires forall e :: e in list ==> Leads(def, rows, e)
    ensures |Following(list, rows)| == |list|
    ensures forall i :: 0 <= i < |list| ==>
              Leads(def, rows, list[i]) && Following(list, rows)[i] == Found(list[i].value.value, rows[list[i].value.value])
  {
    if list != [] {
      assert list == [list[0]] + list[1..] && Leads(def, rows, list[0]);
      FollowingAll(def, rows, list[1..]);
      var first := Found(list[0].value.value, rows[list[0].value.value]);
      assert Following(list, rows) == [first] + Following(list[1..], rows);
      forall i | 0 < i < |list|
        ensures Leads(def, rows, list[i]) && Following(list, rows)[i] == Found(list[i].value.value, rows[list[i].value.value])
      {
        assert list[i] == list[1..][i - 1] && Following(list, rows)[i] == Following(list[1..], rows)[i - 1];
      }
    }
  }

  lemma AgreeingFinds(def: IndexDef, rows: map<Key, Row>, index: map<Key, Key>, list: seq<Item<Blob>>, ivs: seq<Interval>, reverse: bool)
    requires Agree(def, rows, index) && RowsOfIntervals(list, index, ivs, reverse)
    ensures FoundByIndex(def, Following(list, rows), rows, ivs, reverse)
  {
    forall e | e in list ensures Leads(def, rows, e) { assert index[e.key] in rows; }
    FollowingAll(def, rows, list);
    var out := Following(list, rows);
    forall f ensures f in out <==> f.pk in rows && rows[f.pk] == f.row && InSome(ivs, FoundKey(def, f)) {
      if f in out {
        var i :| 0 <= i < |out| && out[i] == f;
        assert list[i] in list;
      }
      if f.pk in rows && rows[f.pk] == f.row && InSome(ivs, FoundKey(def, f)) {
        var x: Item<Blob> := Item(FoundKey(def, f), Some(f.pk));
        assert def.key(rows[f.pk], f.pk) in index;
        assert x in list;
        var i :| 0 <= i < |list| && list[i] == x;
        assert out[i] == f;
      }
    }
  }

  /** When the index agrees with the rows, these are the rows with their key in the intervals, each once, in index order. */
  method IndexScan(state: TableState, i: nat, root: Node, pending: PendingRows, ivs: seq<Interval>, reverse: bool, ghost entries: seq<Entry>)
    returns (out: seq<Found>)
    requires state.Valid() && state.indexed && i < |state.overlays|
    requires WellLinked(root) && EntriesOf(root) == entries && Sorted(EntryKey, entries) && pending.Valid() && Apart(ivs)
    requires Overlaid(Contents(entries), PendingLayer(pending.Edits())) == IndexOver(state.trees[i], state.overlays[i])
    ensures var def := state.schema.indexes[i];
            Agree(def, state.Visible(), IndexOver(state.trees[i], state.overlays[i])) ==> FoundByIndex(def, out, state.Visible(), ivs, reverse)
  {
    var it := new IndexRowIter(state, i, root, pending, ivs, reverse, entries);
    ghost var rows, index, list := state.Visible(), IndexOver(state.trees[i], state.overlays[i]), it.Entries();
    out := it.Drain(rows);
    if Agree(state.schema.indexes[i], rows, index) { AgreeingFinds(state.schema.indexes[i], rows, index, list, ivs, reverse); }
  }
}
