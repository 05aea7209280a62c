/** `common/repository/pending.go`: an immutable set of row edits kept as sorted runs, newest first, that
    are merged size-tiered. */
module Pending {
  import opened Bytes
  import opened Sequences
  import opened Sorting
  import opened Overlays
  import opened Chunking

  /** A typed row edit with the journal generation that wrote it. */
  datatype RowEdit = RowEdit(key: Key, value: seq<byte>, delete: bool, generation: nat)

  function RowKey(e: RowEdit): Key { e.key }

  function Stamp(e: RowEdit, generation: nat): RowEdit { e.(generation := generation) }

  function Stamped(m: map<Key, RowEdit>, generation: nat): map<Key, RowEdit> {
    map k | k in m :: Stamp(m[k], generation)
  }

  // Merging two runs.

  /** The union of two sorted runs, the newer one winning. */
  function Merged(newer: seq<RowEdit>, older: seq<RowEdit>): seq<RowEdit> {
    if newer == [] then older
    else if older == [] then newer
    else if Less(newer[0].key, older[0].key) then [newer[0]] + Merged(newer[1..], older)
    else if Less(older[0].key, newer[0].key) then [older[0]] + Merged(newer, older[1..])
    else [newer[0]] + Merged(newer[1..], older[1..])
  }

  ghost predicate Above(xs: seq<RowEdit>, k: Key) {
    forall i :: 0 <= i < |xs| ==> Less(k, xs[i].key)
  }

  lemma HeadBelowTail(xs: seq<RowEdit>)
    requires Sorted(RowKey, xs) && xs != []
    ensures Sorted(RowKey, xs[1..]) && Above(xs[1..], xs[0].key)
  {
    forall i | 1 <= i < |xs| ensures Less(xs[0].key, xs[i].key) { assert Less(RowKey(xs[0]), RowKey(xs[i])); }
  }

  lemma AboveLess(xs: seq<RowEdit>, k: Key, j: Key)
    requires Above(xs, j) && Less(k, j)
    ensures Above(xs, k)
  {
    forall i | 0 <= i < |xs| ensures Less(k, xs[i].key) { LessTransitive(k, j, xs[i].key); }
  }

  lemma AboveAll(xs: seq<RowEdit>, k: Key)
    requires Sorted(RowKey, xs) && xs != [] && Less(k, xs[0].key)
    ensures Above(xs, k)
  {
    HeadBelowTail(xs);
    AboveLess(xs[1..], k, xs[0].key);
    forall i | 0 <= i < |xs| ensures Less(k, xs[i].key) { if i > 0 { assert xs[i] == xs[1..][i - 1]; } }
  }

  lemma {:induction false} MergedAbove(newer: seq<RowEdit>, older: seq<RowEdit>, k: Key)
    requires Above(newer, k) && Above(older, k)
    ensures Above(Merged(newer, older), k)
    decreases |newer| + |older|
  {
    if newer != [] && older != [] {
      if Less(newer[0].key, older[0].key) {
        MergedAbove(newer[1..], older, k);
      } else if Less(older[0].key, newer[0].key) {
        MergedAbove(newer, older[1..], k);
      } else {
        MergedAbove(newer[1..], older[1..], k);
      }
    }
  }

  lemma ConsSorted(x: RowEdit, xs: seq<RowEdit>)
    requires Sorted(RowKey, xs) && Above(xs, x.key)
    ensures Sorted(RowKey, [x] + xs)
  {
  }

  lemma ConsLastOf(x: RowEdit, xs: seq<RowEdit>)
    requires Above(xs, x.key)
    ensures LastOf(RowKey, [x] + xs) == LastOf(RowKey, xs)[x.key := x]
    ensures x.key !in LastOf(RowKey, xs)
  {
    LastOfAppend(RowKey, [x], xs);
    assert LastOf(RowKey, [x]) == map[x.key := x];
    AboveLacks(xs, x.key);
  }

  lemma AboveLacks(xs: seq<RowEdit>, k: Key)
    requires Above(xs, k)
    ensures k !in LastOf(RowKey, xs)
  {
    forall i | 0 <= i < |xs| ensures RowKey(xs[i]) != k { LessAsymmetric(k, xs[i].key); }
    LastOfLacks(RowKey, xs, k);
  }

  lemma {:induction false} MergedSorted(newer: seq<RowEdit>, older: seq<RowEdit>)
    requires Sorted(RowKey, newer) && Sorted(RowKey, older)
    ensures Sorted(RowKey, Merged(newer, older))
    decreases |newer| + |older|
  {
    if newer != [] && older != [] {
      var n, o := newer[0], older[0];
      HeadBelowTail(newer);
      HeadBelowTail(older);
      if Less(n.key, o.key) {
        AboveAll(older, n.key);
        MergedSorted(newer[1..], older);
        MergedAbove(newer[1..], older, n.key);
        ConsSorted(n, Merged(newer[1..], older));
      } else if Less(o.key, n.key) {
        AboveAll(newer, o.key);
        MergedSorted(newer, older[1..]);
        MergedAbove(newer, older[1..], o.key);
        ConsSorted(o, Merged(newer, older[1..]));
      } else {
        LessTotal(n.key, o.key);
        MergedSorted(newer[1..], older[1..]);
        MergedAbove(newer[1..], older[1..], n.key);
        ConsSorted(n, Merged(newer[1..], older[1..]));
      }
    }
  }

  lemma MapsUnderCons(a: map<Key, RowEdit>, b: map<Key, RowEdit>, k: Key, x: RowEdit)
    ensures a + b[k := x] == (a + b)[k := x]
    ensures k !in b ==> a[k := x] + b == (a + b)[k := x]
  {
  }

  lemma {:induction false} MergedLastOf(newer: seq<RowEdit>, older: seq<RowEdit>)
    requires Sorted(RowKey, newer) && Sorted(RowKey, older)
    ensures LastOf(RowKey, Merged(newer, older)) == LastOf(RowKey, older) + LastOf(RowKey, newer)
    decreases |newer| + |older|
  {
    if newer != [] && older != [] {
      var n, o := newer[0], older[0];
      HeadBelowTail(newer);
      HeadBelowTail(older);
      var ns, os := newer[1..], older[1..];
      assert newer == [n] + ns && older == [o] + os;
      ConsLastOf(n, ns);
      ConsLastOf(o, os);
      if Less(n.key, o.key) {
        AboveAll(older, n.key);
        MergedLastOf(ns, older);
        MergedAbove(ns, older, n.key);
        ConsLastOf(n, Merged(ns, older));
        MapsUnderCons(LastOf(RowKey, older), LastOf(RowKey, ns), n.key, n);
      } else if Less(o.key, n.key) {
        AboveAll(newer, o.key);
        AboveLacks(newer, o.key);
        MergedLastOf(newer, os);
        MergedAbove(newer, os, o.key);
        ConsLastOf(o, Merged(newer, os));
        MapsUnderCons(LastOf(RowKey, os), LastOf(RowKey, newer), o.key, o);
      } else {
        LessTotal(n.key, o.key);
        MergedLastOf(ns, os);
        MergedAbove(ns, os, n.key);
        ConsLastOf(n, Merged(ns, os));
        SameKeyCons(LastOf(RowKey, os), LastOf(RowKey, ns), n.key, o, n);
      }
    }
  }

  lemma SameKeyCons(a: map<Key, RowEdit>, b: map<Key, RowEdit>, k: Key, x: RowEdit, y: RowEdit)
    ensures a[k := x] + b[k := y] == (a + b)[k := y]
  {
  }

  /** `mergeRuns`. */
  method MergeRuns(newer: seq<RowEdit>, older: seq<RowEdit>) returns (out: seq<RowEdit>)
    ensures out == Merged(newer, older)
  {
    out := [];
    var i, j := 0, 0;
    assert newer[0..] == newer && older[0..] == older;
    while i < |newer| && j < |older|
      invariant 0 <= i <= |newer| && 0 <= j <= |older|
      invariant out + Merged(newer[i..], older[j..]) == Merged(newer, older)
    {
      MergedStep(out, newer, i, older, j);
      if Less(newer[i].key, older[j].key) {
        out := out + [newer[i]];
        i := i + 1;
      } else if Less(older[j].key, newer[i].key) {
        out := out + [older[j]];
        j := j + 1;
      } else {
        out := out + [newer[i]];
        i, j := i + 1, j + 1;
      }
    }
    MergedEnd(out, newer[i..], older[j..]);
    out := out + newer[i..];
    out := out + older[j..];
  }

  lemma MergedStep(out: seq<RowEdit>, newer: seq<RowEdit>, i: nat, older: seq<RowEdit>, j: nat)
    requires i < |newer| && j < |older|
    ensures var n, o, all := newer[i], older[j], out + Merged(newer[i..], older[j..]);
            if Less(n.key, o.key) then all == (out + [n]) + Merged(newer[i + 1..], older[j..])
            else if Less(o.key, n.key) then all == (out + [o]) + Merged(newer[i..], older[j + 1..])
            else all == (out + [n]) + Merged(newer[i + 1..], older[j + 1..])
  {
    var n, o := newer[i], older[j];
    assert newer[i..][1..] == newer[i + 1..] && older[j..][1..] == older[j + 1..];
    if Less(n.key, o.key) {
      Regroup(out, [n], Merged(newer[i + 1..], older[j..]));
    } else if Less(o.key, n.key) {
      Regroup(out, [o], Merged(newer[i..], older[j + 1..]));
    } else {
      Regroup(out, [n], Merged(newer[i + 1..], older[j + 1..]));
    }
  }

  lemma MergedEnd(out: seq<RowEdit>, newer: seq<RowEdit>, older: seq<RowEdit>)
    requires newer == [] || older == []
    ensures out + Merged(newer, older) == (out + newer) + older
  {
    if newer == [] { assert out + newer == out; } else { assert out + newer + older == out + newer; }
  }

  // The whole set.

  ghost predicate ValidRuns(runs: seq<seq<RowEdit>>) {
    forall i :: 0 <= i < |runs| ==> runs[i] != [] && Sorted(RowKey, runs[i])
  }

  predicate Tiered(runs: seq<seq<RowEdit>>) {
    forall i :: 0 <= i < |runs| - 1 ==> 2 * |runs[i]| < |runs[i + 1]|
  }

  /** The edit of every key in the newest run holding it. */
  function Newest(runs: seq<seq<RowEdit>>): map<Key, RowEdit> {
    if runs == [] then map[] else Newest(runs[1..]) + LastOf(RowKey, runs[0])
  }

  function Len(runs: seq<seq<RowEdit>>): nat {
    if runs == [] then 0 else |runs[0]| + Len(runs[1..])
  }

  /** `n` runs hold at least `2^n - 1` edits, so there are at most `log2(Len + 1)` of them. */
  lemma {:induction false} FewRuns(runs: seq<seq<RowEdit>>)
    requires ValidRuns(runs) && Tiered(runs)
    ensures Pow(2, |runs|) - 1 <= Len(runs)
    ensures runs != [] ==> Pow(2, |runs| - 1) <= |runs[|runs| - 1]|
  {
    if runs != [] {
      var n := |runs| - 1;
      FewRuns(runs[..n]);
      LenSnoc(runs);
      assert n > 0 ==> 2 * |runs[n - 1]| < |runs[n]| && runs[..n][n - 1] == runs[n - 1];
    }
  }

  lemma {:induction false} LenSnoc(runs: seq<seq<RowEdit>>)
    requires runs != []
    ensures Len(runs) == Len(runs[..|runs| - 1]) + |runs[|runs| - 1]|
  {
    if |runs| > 1 {
      LenSnoc(runs[1..]);
      assert runs[1..][..|runs| - 2] == runs[..|runs| - 1][1..];
    }
  }

  datatype PendingRows = PendingRows(runs: seq<seq<RowEdit>>) {

    ghost predicate Valid() { ValidRuns(runs) && Tiered(runs) }

    /** The edits the set stands for. */
    ghost function Edits(): map<Key, RowEdit> { Newest(runs) }

    predicate Empty() { runs == [] }

    /** `with`: the set overlaid with `edits`, the last one for a key winning. */
    method With(edits: seq<RowEdit>, generation: nat) returns (r: PendingRows)
      requires Valid()
      ensures r.Valid()
      ensures r.Edits() == Edits() + Stamped(LastOf(RowKey, edits), generation)
    {
      if edits == [] { return this; }
      var unique := Unique(edits, generation);
      var merged := [unique] + runs;
      assert merged[1..] == runs;
      while |merged| > 1 && 2 * |merged[0]| >= |merged[1]|
        invariant merged != [] && ValidRuns(merged) && Tiered(merged[1..])
        invariant Newest(merged) == Edits() + Stamped(LastOf(RowKey, edits), generation)
        decreases |merged|
      {
        MergedSorted(merged[0], merged[1]);
        MergedLastOf(merged[0], merged[1]);
        var first := MergeRuns(merged[0], merged[1]);
        CollapseTwo(merged, first);
        merged := [first] + merged[2..];
      }
      assert forall i :: 1 <= i < |merged| - 1 ==> merged[i] == merged[1..][i - 1] && merged[i + 1] == merged[1..][i];
      r := PendingRows(merged);
    }

    /** `Get`. */
    method Get(key: Key) returns (r: Option<RowEdit>)
      requires Valid()
      ensures r == if key in Edits() then Some(Edits()[key]) else None
    {
      for i := 0 to |runs|
        invariant key in Newest(runs) <==> key in Newest(runs[i..])
        invariant key in Newest(runs) ==> Newest(runs)[key] == Newest(runs[i..])[key]
      {
        SortedIsWeak(RowKey, runs[i]);
        var j := LowerBound(RowKey, runs[i], key);
        LastOfSorted(RowKey, runs[i]);
        assert runs[i..][1..] == runs[i + 1..];
        if j < |runs[i]| && runs[i][j].key == key {
          assert RowKey(runs[i][j]) == key;
          return Some(runs[i][j]);
        }
        NotAt(runs[i], key, j);
      }
      return None;
    }
  }

  lemma NotAt(run: seq<RowEdit>, key: Key, j: nat)
    requires Sorted(RowKey, run) && WeaklySorted(RowKey, run) && j == LowerBound(RowKey, run, key)
    requires j < |run| ==> run[j].key != key
    ensures key !in LastOf(RowKey, run)
  {
    forall i | 0 <= i < |run| ensures RowKey(run[i]) != key {
      LessIrreflexive(key);
      if i > j {
        LessTotal(run[j].key, key);
        assert Less(RowKey(run[j]), RowKey(run[i])) && !Less(RowKey(run[j]), key);
      }
    }
    LastOfLacks(RowKey, run, key);
  }

  lemma MapsRegroup<K, V>(a: map<K, V>, b: map<K, V>, c: map<K, V>)
    ensures a + (b + c) == (a + b) + c
  {
  }

  /** Merging the two newest runs changes nothing. */
  lemma CollapseTwo(runs: seq<seq<RowEdit>>, first: seq<RowEdit>)
    requires |runs| > 1 && ValidRuns(runs) && Tiered(runs[1..])
    requires Sorted(RowKey, first) && LastOf(RowKey, first) == LastOf(RowKey, runs[1]) + LastOf(RowKey, runs[0])
    ensures ValidRuns([first] + runs[2..]) && Newest([first] + runs[2..]) == Newest(runs)
    ensures Tiered(([first] + runs[2..])[1..])
  {
    var rest := runs[2..];
    assert ([first] + rest)[1..] == rest && runs[1..][1..] == rest;
    MapsRegroup(Newest(rest), LastOf(RowKey, runs[1]), LastOf(RowKey, runs[0]));
    assert forall i :: 0 <= i < |rest| ==> rest[i] == runs[1..][i + 1];
    MergedNonEmpty(runs[1], runs[0], first);
  }

  lemma MergedNonEmpty(older: seq<RowEdit>, newer: seq<RowEdit>, first: seq<RowEdit>)
    requires older != [] && LastOf(RowKey, first) == LastOf(RowKey, older) + LastOf(RowKey, newer)
    ensures first != []
  {
    LastOfKeys(RowKey, older);
    assert RowKey(older[0]) in LastOf(RowKey, first);
  }

  /** Sorting the edits and keeping the last one of each key. */
  method Unique(edits: seq<RowEdit>, generation: nat) returns (unique: seq<RowEdit>)
    requires edits != []
    ensures unique != [] && Sorted(RowKey, unique)
    ensures LastOf(RowKey, unique) == Stamped(LastOf(RowKey, edits), generation)
  {
    StableSortCorrect(RowKey, edits);
    unique := KeepLastOfEach(StableSort(RowKey, edits), generation);
    NonEmptyMap(edits);
  }

  method KeepLastOfEach(order: seq<RowEdit>, generation: nat) returns (unique: seq<RowEdit>)
    requires WeaklySorted(RowKey, order)
    ensures Sorted(RowKey, unique) && LastOf(RowKey, unique) == Stamped(LastOf(RowKey, order), generation)
  {
    unique := [];
    assert order[..0] == [] && DoneAt(order, 0, generation) == map[];
    for i := 0 to |order|
      invariant KeptTo(order, i, unique, generation)
    {
      if i + 1 < |order| && order[i].key == order[i + 1].key {
        SkipSame(order, i, unique, generation);
        continue;
      }
      KeepLast(order, i, unique, generation);
      unique := unique + [Stamp(order[i], generation)];
    }
    assert order[..|order|] == order;
  }

  /** Up to position `i` the last edit of every key that does not come again is kept. */
  ghost predicate KeptTo(order: seq<RowEdit>, i: nat, unique: seq<RowEdit>, generation: nat)
    requires i <= |order|
  {
    && Sorted(RowKey, unique)
    && (unique != [] && i < |order| ==> Less(unique[|unique| - 1].key, order[i].key))
    && LastOf(RowKey, unique) == DoneAt(order, i, generation)
  }

  lemma NonEmptyMap(edits: seq<RowEdit>)
    requires edits != []
    ensures LastOf(RowKey, edits) != map[]
  {
    assert edits[|edits| - 1].key in LastOf(RowKey, edits);
  }

  /** What is kept before position `i`: the keys seen so far, except one that is seen again at `i`. */
  function DoneAt(order: seq<RowEdit>, i: nat, generation: nat): map<Key, RowEdit>
    requires i <= |order|
  {
    var seen := Stamped(LastOf(RowKey, order[..i]), generation);
    if i < |order| then seen - {order[i].key} else seen
  }

  lemma SkipSame(order: seq<RowEdit>, i: nat, unique: seq<RowEdit>, generation: nat)
    requires i + 1 < |order| && order[i].key == order[i + 1].key && KeptTo(order, i, unique, generation)
    ensures KeptTo(order, i + 1, unique, generation)
  {
    assert order[..i + 1][..i] == order[..i];
    assert DoneAt(order, i + 1, generation) == DoneAt(order, i, generation);
  }

  lemma SeenOnce(order: seq<RowEdit>, i: nat, generation: nat)
    requires WeaklySorted(RowKey, order) && i < |order|
    requires i + 1 < |order| ==> order[i].key != order[i + 1].key
    ensures DoneAt(order, i + 1, generation) == DoneAt(order, i, generation)[order[i].key := Stamp(order[i], generation)]
    ensures i + 1 < |order| ==> Less(order[i].key, order[i + 1].key)
  {
    var seen := order[..i + 1];
    assert seen[..i] == order[..i];
    if i + 1 < |order| {
      var next := order[i + 1].key;
      assert !Less(RowKey(order[i + 1]), RowKey(order[i]));
      LessTotal(order[i].key, next);
      forall j | 0 <= j < |seen| ensures RowKey(seen[j]) != next {
        LessIrreflexive(next);
        if j < i { assert !Less(RowKey(order[i]), RowKey(order[j])); }
      }
      LastOfLacks(RowKey, seen, next);
    }
  }

  lemma KeepLast(order: seq<RowEdit>, i: nat, unique: seq<RowEdit>, generation: nat)
    requires WeaklySorted(RowKey, order) && i < |order|
    requires i + 1 < |order| ==> order[i].key != order[i + 1].key
    requires KeptTo(order, i, unique, generation)
    ensures KeptTo(order, i + 1, unique + [Stamp(order[i], generation)], generation)
  {
    SeenOnce(order, i, generation);
    SortedSnoc(RowKey, unique, Stamp(order[i], generation));
    LastOfSnoc(RowKey, unique, Stamp(order[i], generation));
  }
}
