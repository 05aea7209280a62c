/** Merged scans (`engine/ranges.go`): a transaction's own edits over the journal's pending edits over a tree, in
    either direction, yield exactly the visible rows of the intervals, each once, in order. */
module Scan {
  import opened Bytes
  import opened Sequences
  import opened Overlays
  import opened Sorting
  import opened KeyIntervals
  import opened ScanOrder

  /** A layer's items in an interval, in scan order: what its iterator yields. */
  ghost predicate Yields<V(!new)>(items: seq<Item<V>>, layer: map<Key, Option<V>>, iv: Interval, reverse: bool) {
    && Ordered(items, reverse)
    && forall x :: x in items <==> iv.Contains(x.key) && x.key in layer && layer[x.key] == x.value
  }

  // The overlay: own edits over pending ones.

  function Local<V>(keys: seq<Key>, edits: map<Key, Option<V>>): seq<Item<V>>
    requires forall i :: 0 <= i < |keys| ==> keys[i] in edits
  {
    seq(|keys|, i requires 0 <= i < |keys| => Item(keys[i], edits[keys[i]]))
  }

  /** `rowOverlayCursor`, and `pendingCursor` when there are no own edits. The keys of the own edits are those of when it
      was made; the edits themselves are looked up as it passes them. */
  class OverlayCursor<V> {
    const reverse: bool
    var keys: seq<Key>
    var pending: seq<Item<V>>
    var pos: nat
    var at: nat
    var edit: Option<V>

    ghost predicate Valid(edits: map<Key, Option<V>>)
      reads this
    {
      && pos <= |keys| && at <= |pending|
      && (forall i :: 0 <= i < |keys| ==> keys[i] in edits)
    }

    /** What is still to come, the edits being these. */
    ghost function Rest(edits: map<Key, Option<V>>): seq<Item<V>>
      reads this
      requires Valid(edits)
    {
      Layered(Local(keys, edits)[pos..], pending[at..], reverse)
    }

    constructor (reverse: bool)
      ensures this.reverse == reverse
    {
      this.reverse := reverse;
      keys, pending, pos, at, edit := [], [], 0, 0, None;
    }

    /** `newRowOverlayCursor`, for one interval. */
    method Open(ghost edits: map<Key, Option<V>>, keys: seq<Key>, pending: seq<Item<V>>)
      requires forall i :: 0 <= i < |keys| ==> keys[i] in edits
      modifies this
      ensures Valid(edits) && Rest(edits) == Layered(Local(keys, edits), pending, reverse)
    {
      this.keys, this.pending, pos, at, edit := keys, pending, 0, 0, None;
      assert Local(keys, edits)[0..] == Local(keys, edits) && pending[0..] == pending;
    }

    method Peek(ghost edits: map<Key, Option<V>>) returns (key: Key, ok: bool)
      requires Valid(edits)
      ensures ok <==> Rest(edits) != []
      ensures ok ==> key == Rest(edits)[0].key
    {
      if at >= |pending| {
        if pos < |keys| { return keys[pos], true; } else { return [], false; }
      } else if pos >= |keys| || Before(pending[at].key, keys[pos], reverse) {
        return pending[at].key, true;
      } else {
        return keys[pos], true;
      }
    }

    method Advance(edits: map<Key, Option<V>>)
      requires Valid(edits) && Rest(edits) != []
      modifies this
      ensures Valid(edits) && Rest(edits) == old(Rest(edits))[1..] && edit == old(Rest(edits))[0].value
    {
      ghost var local := Local(keys, edits);
      LayeredStep(local, pos, pending, at, reverse);
      if pos < |keys| && (at >= |pending| || !Before(pending[at].key, keys[pos], reverse)) {
        edit := edits[keys[pos]];
        if at < |pending| && keys[pos] == pending[at].key { at := at + 1; }
        pos := pos + 1;
      } else {
        edit := pending[at].value;
        at := at + 1;
      }
    }
  }

  /** One step of a merge of two lists, by position. */
  lemma LayeredStep<V>(upper: seq<Item<V>>, i: nat, lower: seq<Item<V>>, j: nat, reverse: bool)
    requires i <= |upper| && j <= |lower| && Layered(upper[i..], lower[j..], reverse) != []
    ensures var all := Layered(upper[i..], lower[j..], reverse);
            if i < |upper| && (j >= |lower| || !Before(lower[j].key, upper[i].key, reverse)) then
              all[0] == upper[i]
              && all[1..] == Layered(upper[i + 1..], lower[if j < |lower| && upper[i].key == lower[j].key then j + 1 else j..], reverse)
            else j < |lower| && all[0] == lower[j] && all[1..] == Layered(upper[i..], lower[j + 1..], reverse)
  {
    if i < |upper| { assert upper[i..][1..] == upper[i + 1..]; }
    if j < |lower| { assert lower[j..][1..] == lower[j + 1..]; }
    if j >= |lower| { assert lower[j..] == []; }
    if i + 1 >= |upper| { assert i >= |upper| || upper[i + 1..] == []; }
  }

  // The merge with the tree.

  /** The entries up to the far end of the interval. */
  function Cut<V>(items: seq<Item<V>>, iv: Interval, reverse: bool): seq<Item<V>> {
    if items == [] || Past(items[0].key, iv, reverse) then [] else [items[0]] + Cut(items[1..], iv, reverse)
  }

  predicate Past(k: Key, iv: Interval, reverse: bool) {
    if reverse then Less(k, iv.start) else iv.end.Some? && !Less(k, iv.end.value)
  }

  /** `mergedEntries`. `entries` is what the tree's iterator yields from the near end of the interval on. */
  class MergedEntries<V> {
    const overlay: OverlayCursor<V>
    var entries: seq<Item<V>>
    var iv: Interval
    var next: nat
    var treeOK: bool

    ghost predicate Valid(edits: map<Key, Option<V>>)
      reads this, overlay
    {
      && overlay.Valid(edits) && next <= |entries| && (treeOK ==> next < |entries| && !Past(entries[next].key, iv, overlay.reverse))
      && (!treeOK ==> Cut(entries[next..], iv, overlay.reverse) == [])
    }

    ghost function Rest(edits: map<Key, Option<V>>): seq<Item<V>>
      reads this, overlay
      requires Valid(edits)
    {
      Layered(overlay.Rest(edits), Cut(entries[next..], iv, overlay.reverse), overlay.reverse)
    }

    constructor (reverse: bool)
      ensures fresh(overlay) && overlay.reverse == reverse
    {
      overlay := new OverlayCursor(reverse);
      entries, iv, next, treeOK := [], Interval([], None), 0, false;
    }

    /** `newMergedEntries`, for one interval. */
    method Open(ghost edits: map<Key, Option<V>>, keys: seq<Key>, pending: seq<Item<V>>, entries: seq<Item<V>>, iv: Interval)
      requires forall i :: 0 <= i < |keys| ==> keys[i] in edits
      modifies this, overlay
      ensures Valid(edits)
      ensures Rest(edits) == Layered(Layered(Local(keys, edits), pending, overlay.reverse), Cut(entries, iv, overlay.reverse), overlay.reverse)
    {
      overlay.Open(edits, keys, pending);
      this.entries, this.iv, next := entries, iv, 0;
      treeOK := |entries| > 0 && !Past(entries[0].key, iv, overlay.reverse);
      assert entries[0..] == entries;
    }

    /** `advanceTree`. */
    method AdvanceTree()
      requires treeOK && next < |entries|
      modifies this`next, this`treeOK
      ensures next == old(next) + 1
      ensures treeOK <==> next < |entries| && !Past(entries[next].key, iv, overlay.reverse)
    {
      next := next + 1;
      treeOK := next < |entries| && !Past(entries[next].key, iv, overlay.reverse);
    }

    /** `next`: the key and, if it is not the overlay's, the tree's value. An overlay key's edit is in `overlay`. */
    method Next(edits: map<Key, Option<V>>) returns (key: Key, value: Option<V>, fromOverlay: bool, ok: bool)
      requires Valid(edits)
      modifies this, overlay
      ensures Valid(edits)
      ensures ok <==> old(Rest(edits)) != []
      ensures ok ==> Rest(edits) == old(Rest(edits))[1..] && Item(key, if fromOverlay then overlay.edit else value) == old(Rest(edits))[0]
      ensures !ok ==> Rest(edits) == []
    {
      ghost var upper, lower := overlay.Rest(edits), Cut(entries[next..], iv, overlay.reverse);
      CutStep(entries, next, iv, overlay.reverse);
      var overlayKey, hasOverlay := overlay.Peek(edits);
      if !hasOverlay && !treeOK { return [], None, false, false; }
      LayerStep(upper, lower, overlay.reverse);
      if hasOverlay && (!treeOK || !Before(entries[next].key, overlayKey, overlay.reverse)) {
        key := overlayKey;
        overlay.Advance(edits);
        if treeOK && key == entries[next].key { AdvanceTree(); }
        return key, None, true, true;
      }
      key, value := entries[next].key, entries[next].value;
      AdvanceTree();
      return key, value, false, true;
    }
  }

  lemma CutStep<V>(entries: seq<Item<V>>, n: nat, iv: Interval, reverse: bool)
    requires n <= |entries|
    ensures n == |entries| || Past(entries[n].key, iv, reverse) ==> Cut(entries[n..], iv, reverse) == []
    ensures n < |entries| && !Past(entries[n].key, iv, reverse) ==>
              Cut(entries[n..], iv, reverse) == [entries[n]] + Cut(entries[n + 1..], iv, reverse)
    ensures n + 1 == |entries| ==> Cut(entries[n + 1..], iv, reverse) == []
    ensures n + 1 < |entries| && Past(entries[n + 1].key, iv, reverse) ==> Cut(entries[n + 1..], iv, reverse) == []
  {
    if n < |entries| { assert entries[n..][1..] == entries[n + 1..]; }
  }

  /** One step of a merge. */
  lemma LayerStep<V>(upper: seq<Item<V>>, lower: seq<Item<V>>, reverse: bool)
    requires upper != [] || lower != []
    ensures var all := Layered(upper, lower, reverse);
            all != [] &&
            if upper != [] && (lower == [] || !Before(lower[0].key, upper[0].key, reverse)) then
              all[0] == upper[0]
              && all[1..] == Layered(upper[1..], if lower != [] && upper[0].key == lower[0].key then lower[1..] else lower, reverse)
            else lower != [] && all[0] == lower[0] && all[1..] == Layered(upper, lower[1..], reverse)
  {
  }
}
