/** Merging a sorted edit list into a sorted entry list, and the map the result stands for. */
module EditMerge {
  import opened Bytes
  import opened Sorting
  import opened Prolly
  import opened Overlays

  datatype Edit = Edit(key: Key, value: seq<byte>, delete: bool)

  function EditKey(e: Edit): Key { e.key }

  function Puts(edits: seq<Edit>): seq<Entry> {
    if edits == [] then []
    else (if edits[0].delete then [] else [Entry(edits[0].key, edits[0].value)]) + Puts(edits[1..])
  }

  /** The entry list with the edits merged in. */
  function Merge(entries: seq<Entry>, edits: seq<Edit>): seq<Entry> {
    if edits == [] then entries
    else if entries == [] then Puts(edits)
    else if Less(edits[0].key, entries[0].key) then Puts(edits[..1]) + Merge(entries, edits[1..])
    else if edits[0].key == entries[0].key then Puts(edits[..1]) + Merge(entries[1..], edits[1..])
    else [entries[0]] + Merge(entries[1..], edits)
  }

  // The merged list stands for the edited map.

  function Contents(entries: seq<Entry>): map<Key, seq<byte>> {
    var m := LastOf(EntryKey, entries);
    map k | k in m :: m[k].value
  }

  function Effects(edits: seq<Edit>): map<Key, Option<seq<byte>>> {
    var m := LastOf(EditKey, edits);
    map k | k in m :: if m[k].delete then None else Some(m[k].value)
  }

  ghost predicate AllAbove<T>(key: T -> Key, xs: seq<T>, k: Key) {
    forall i :: 0 <= i < |xs| ==> Less(k, key(xs[i]))
  }

  lemma TailAbove<T>(key: T -> Key, xs: seq<T>, k: Key)
    requires Sorted(key, xs) && xs != [] && !Less(key(xs[0]), k)
    ensures Sorted(key, xs[1..]) && AllAbove(key, xs[1..], k)
  {
    LessTotal(k, key(xs[0]));
    forall i | 1 <= i < |xs| ensures Less(k, key(xs[i])) {
      assert Less(key(xs[0]), key(xs[i]));
      if Less(k, key(xs[0])) { LessTransitive(k, key(xs[0]), key(xs[i])); }
    }
  }

  lemma {:induction false} PutsAbove(edits: seq<Edit>, k: Key)
    requires AllAbove(EditKey, edits, k)
    ensures AllAbove(EntryKey, Puts(edits), k)
  {
    if edits != [] {
      assert Less(k, EditKey(edits[0]));
      PutsAbove(edits[1..], k);
    }
  }

  lemma {:induction false} MergeAbove(entries: seq<Entry>, edits: seq<Edit>, k: Key)
    requires AllAbove(EntryKey, entries, k) && AllAbove(EditKey, edits, k)
    ensures AllAbove(EntryKey, Merge(entries, edits), k)
    decreases |entries| + |edits|
  {
    if edits == [] {
    } else if entries == [] {
      PutsAbove(edits, k);
    } else {
      PutsAbove(edits[..1], k);
      if Less(edits[0].key, entries[0].key) {
        MergeAbove(entries, edits[1..], k);
      } else if edits[0].key == entries[0].key {
        MergeAbove(entries[1..], edits[1..], k);
      } else {
        assert Less(k, EntryKey(entries[0]));
        MergeAbove(entries[1..], edits, k);
      }
    }
  }

  lemma SortedCons<T>(key: T -> Key, x: T, xs: seq<T>)
    requires Sorted(key, xs) && AllAbove(key, xs, key(x))
    ensures Sorted(key, [x] + xs)
  {
  }

  lemma HeadAbove<T>(key: T -> Key, xs: seq<T>, k: Key)
    requires Sorted(key, xs) && xs != [] && Less(k, key(xs[0]))
    ensures AllAbove(key, xs, k)
  {
    forall i | 0 <= i < |xs| ensures Less(k, key(xs[i])) {
      if i > 0 { LessTransitive(k, key(xs[0]), key(xs[i])); }
    }
  }

  lemma PutsOne(e: Edit)
    ensures Puts([e]) == if e.delete then [] else [Entry(e.key, e.value)]
  {
    assert Puts([e][1..]) == [];
  }

  lemma PutFirst(e: Edit, rest: seq<Entry>)
    requires Sorted(EntryKey, rest) && AllAbove(EntryKey, rest, e.key)
    ensures Sorted(EntryKey, Puts([e]) + rest)
  {
    PutsOne(e);
    if e.delete {
      assert [] + rest == rest;
    } else {
      SortedCons(EntryKey, Entry(e.key, e.value), rest);
    }
  }

  lemma {:induction false} PutsSorted(edits: seq<Edit>)
    requires Sorted(EditKey, edits)
    ensures Sorted(EntryKey, Puts(edits))
  {
    if edits != [] {
      LessIrreflexive(edits[0].key);
      TailAbove(EditKey, edits, edits[0].key);
      PutsSorted(edits[1..]);
      PutsAbove(edits[1..], edits[0].key);
      PutsOne(edits[0]);
      PutFirst(edits[0], Puts(edits[1..]));
    }
  }

  lemma {:induction false} MergeSorted(entries: seq<Entry>, edits: seq<Edit>)
    requires Sorted(EntryKey, entries) && Sorted(EditKey, edits)
    ensures Sorted(EntryKey, Merge(entries, edits))
    decreases |entries| + |edits|
  {
    if edits == [] {
    } else if entries == [] {
      PutsSorted(edits);
    } else {
      var e, x := edits[0], entries[0];
      assert edits[..1] == [e];
      LessIrreflexive(e.key);
      LessIrreflexive(x.key);
      if Less(e.key, x.key) {
        TailAbove(EditKey, edits, e.key);
        HeadAbove(EntryKey, entries, e.key);
        MergeSorted(entries, edits[1..]);
        MergeAbove(entries, edits[1..], e.key);
        PutFirst(e, Merge(entries, edits[1..]));
      } else if e.key == x.key {
        TailAbove(EditKey, edits, e.key);
        TailAbove(EntryKey, entries, x.key);
        MergeSorted(entries[1..], edits[1..]);
        MergeAbove(entries[1..], edits[1..], e.key);
        PutFirst(e, Merge(entries[1..], edits[1..]));
      } else {
        LessTotal(e.key, x.key);
        HeadAbove(EditKey, edits, x.key);
        TailAbove(EntryKey, entries, x.key);
        MergeSorted(entries[1..], edits);
        MergeAbove(entries[1..], edits, x.key);
        SortedCons(EntryKey, x, Merge(entries[1..], edits));
      }
    }
  }

  lemma ContentsCons(x: Entry, rest: seq<Entry>)
    requires AllAbove(EntryKey, rest, x.key)
    ensures Contents([x] + rest) == Contents(rest)[x.key := x.value]
    ensures x.key !in Contents(rest)
  {
    LastOfAppend(EntryKey, [x], rest);
    assert LastOf(EntryKey, [x]) == map[x.key := x];
    forall i | 0 <= i < |rest| ensures EntryKey(rest[i]) != x.key { LessAsymmetric(x.key, rest[i].key); }
    LastOfLacks(EntryKey, rest, x.key);
  }

  lemma EffectsCons(e: Edit, rest: seq<Edit>)
    requires AllAbove(EditKey, rest, e.key)
    ensures Effects([e] + rest) == Effects(rest)[e.key := if e.delete then None else Some(e.value)]
    ensures e.key !in Effects(rest)
  {
    LastOfAppend(EditKey, [e], rest);
    assert LastOf(EditKey, [e]) == map[e.key := e];
    forall i | 0 <= i < |rest| ensures EditKey(rest[i]) != e.key { LessAsymmetric(e.key, rest[i].key); }
    LastOfLacks(EditKey, rest, e.key);
  }

  lemma ContentsLacks(entries: seq<Entry>, k: Key)
    requires AllAbove(EntryKey, entries, k)
    ensures k !in Contents(entries)
  {
    forall i | 0 <= i < |entries| ensures EntryKey(entries[i]) != k { LessAsymmetric(k, entries[i].key); }
    LastOfLacks(EntryKey, entries, k);
  }

  lemma EffectsLacks(edits: seq<Edit>, k: Key)
    requires AllAbove(EditKey, edits, k)
    ensures k !in Effects(edits)
  {
    forall i | 0 <= i < |edits| ensures EditKey(edits[i]) != k { LessAsymmetric(k, edits[i].key); }
    LastOfLacks(EditKey, edits, k);
  }

  /** Putting one edit in front of a list it precedes. */
  lemma PutFirstContents(e: Edit, rest: seq<Entry>, base: map<Key, seq<byte>>, effects: map<Key, Option<seq<byte>>>)
    requires AllAbove(EntryKey, rest, e.key) && Contents(rest) == Overlaid(base, effects)
    requires e.key !in base && e.key !in effects
    ensures Contents(Puts([e]) + rest)
            == Overlaid(base, effects[e.key := if e.delete then None else Some(e.value)])
  {
    PutsOne(e);
    if e.delete {
      assert [] + rest == rest;
    } else {
      ContentsCons(Entry(e.key, e.value), rest);
    }
  }

  lemma {:induction false} PutsContents(edits: seq<Edit>)
    requires Sorted(EditKey, edits)
    ensures Contents(Puts(edits)) == Overlaid(map[], Effects(edits))
  {
    if edits != [] {
      LessIrreflexive(edits[0].key);
      TailAbove(EditKey, edits, edits[0].key);
      PutsContents(edits[1..]);
      PutsAbove(edits[1..], edits[0].key);
      PutsOne(edits[0]);
      EffectsCons(edits[0], edits[1..]);
      assert edits == [edits[0]] + edits[1..];
      PutFirstContents(edits[0], Puts(edits[1..]), map[], Effects(edits[1..]));
    }
  }

  /** The map of the merged list is the old map with the edits over it. */
  lemma {:induction false} MergeContents(entries: seq<Entry>, edits: seq<Edit>)
    requires Sorted(EntryKey, entries) && Sorted(EditKey, edits)
    ensures Contents(Merge(entries, edits)) == Overlaid(Contents(entries), Effects(edits))
    decreases |entries| + |edits|
  {
    if edits == [] {
    } else if entries == [] {
      PutsContents(edits);
    } else {
      var e, x := edits[0], entries[0];
      assert edits == [e] + edits[1..] && entries == [x] + entries[1..] && edits[..1] == [e];
      LessIrreflexive(e.key);
      LessIrreflexive(x.key);
      TailAbove(EditKey, edits, e.key);
      TailAbove(EntryKey, entries, x.key);
      EffectsCons(e, edits[1..]);
      ContentsCons(x, entries[1..]);
      if Less(e.key, x.key) {
        HeadAbove(EntryKey, entries, e.key);
        MergeContents(entries, edits[1..]);
        MergeAbove(entries, edits[1..], e.key);
        ContentsLacks(entries, e.key);
        PutFirstContents(e, Merge(entries, edits[1..]), Contents(entries), Effects(edits[1..]));
      } else if e.key == x.key {
        MergeContents(entries[1..], edits[1..]);
        MergeAbove(entries[1..], edits[1..], e.key);
        PutFirstContents(e, Merge(entries[1..], edits[1..]), Contents(entries[1..]), Effects(edits[1..]));
        OverlaidUpdate(Contents(entries[1..]), Effects(edits), x.key, x.value);
      } else {
        LessTotal(e.key, x.key);
        HeadAbove(EditKey, edits, x.key);
        MergeContents(entries[1..], edits);
        MergeAbove(entries[1..], edits, x.key);
        EffectsLacks(edits, x.key);
        ContentsCons(x, Merge(entries[1..], edits));
        OverlaidUpdate(Contents(entries[1..]), Effects(edits), x.key, x.value);
      }
    }
  }

  /** Sorted entries are determined by the map they stand for. */
  lemma ContentsDetermine(a: seq<Entry>, b: seq<Entry>)
    requires Sorted(EntryKey, a) && Sorted(EntryKey, b) && Contents(a) == Contents(b)
    ensures a == b
  {
    LastOfKeys(EntryKey, a);
    LastOfKeys(EntryKey, b);
    var ma, mb := LastOf(EntryKey, a), LastOf(EntryKey, b);
    forall k ensures (k in ma <==> k in mb) && (k in ma ==> ma[k] == mb[k]) {
      assert k in ma <==> k in Contents(a);
      assert k in mb <==> k in Contents(b);
      if k in ma { assert Contents(a)[k] == ma[k].value && Contents(b)[k] == mb[k].value; }
    }
    assert ma == mb;
    SortedUnique(EntryKey, a, b);
  }
}
