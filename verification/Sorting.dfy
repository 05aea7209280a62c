/** Key-sorted sequences, the finite map such a sequence stands for, and the library calls RepoDB makes on
    them: `sort.Search` and the stable sorts. */
module Sorting {
  import opened Bytes

  ghost predicate Sorted<T>(key: T -> Key, xs: seq<T>) {
    forall i, j :: 0 <= i < j < |xs| ==> Less(key(xs[i]), key(xs[j]))
  }

  ghost predicate WeaklySorted<T>(key: T -> Key, xs: seq<T>) {
    forall i, j :: 0 <= i < j < |xs| ==> !Less(key(xs[j]), key(xs[i]))
  }

  /** The map from each key to the last item carrying it. */
  function LastOf<T>(key: T -> Key, xs: seq<T>): map<Key, T> {
    if xs == [] then map[] else LastOf(key, xs[..|xs| - 1])[key(xs[|xs| - 1]) := xs[|xs| - 1]]
  }

  lemma LastOfSnoc<T>(key: T -> Key, xs: seq<T>, x: T)
    ensures LastOf(key, xs + [x]) == LastOf(key, xs)[key(x) := x]
  {
    assert (xs + [x])[..|xs|] == xs;
  }

  lemma SortedSnoc<T>(key: T -> Key, xs: seq<T>, x: T)
    requires Sorted(key, xs) && (xs != [] ==> Less(key(xs[|xs| - 1]), key(x)))
    ensures Sorted(key, xs + [x])
  {
    forall i | 0 <= i < |xs| ensures Less(key(xs[i]), key(x)) {
      if i < |xs| - 1 { LessTransitive(key(xs[i]), key(xs[|xs| - 1]), key(x)); }
    }
  }

  lemma {:induction false} LastOfAppend<T>(key: T -> Key, xs: seq<T>, ys: seq<T>)
    ensures LastOf(key, xs + ys) == LastOf(key, xs) + LastOf(key, ys)
  {
    if ys == [] {
      assert xs + ys == xs;
    } else {
      var n := |ys| - 1;
      LastOfAppend(key, xs, ys[..n]);
      assert (xs + ys)[..|xs + ys| - 1] == xs + ys[..n];
    }
  }

  lemma {:induction false} LastOfKeys<T>(key: T -> Key, xs: seq<T>)
    ensures forall i :: 0 <= i < |xs| ==> key(xs[i]) in LastOf(key, xs)
    ensures forall k :: k in LastOf(key, xs) ==> key(LastOf(key, xs)[k]) == k && LastOf(key, xs)[k] in xs
  {
    if xs != [] {
      LastOfKeys(key, xs[..|xs| - 1]);
      assert xs == xs[..|xs| - 1] + [xs[|xs| - 1]];
    }
  }

  lemma {:induction false} LastOfLacks<T>(key: T -> Key, xs: seq<T>, k: Key)
    requires forall i :: 0 <= i < |xs| ==> key(xs[i]) != k
    ensures k !in LastOf(key, xs)
  {
    if xs != [] { LastOfLacks(key, xs[..|xs| - 1], k); }
  }

  lemma LastKeyFresh<T>(key: T -> Key, xs: seq<T>)
    requires Sorted(key, xs) && xs != []
    ensures key(xs[|xs| - 1]) !in LastOf(key, xs[..|xs| - 1])
    ensures LastOf(key, xs[..|xs| - 1]) == LastOf(key, xs) - {key(xs[|xs| - 1])}
  {
    var n := |xs| - 1;
    forall i | 0 <= i < n ensures key(xs[..n][i]) != key(xs[n]) {
      LessAsymmetric(key(xs[i]), key(xs[n]));
    }
    LastOfLacks(key, xs[..n], key(xs[n]));
    UndoUpdate(LastOf(key, xs[..n]), key(xs[n]), xs[n]);
  }

  lemma UndoUpdate<K, V>(m: map<K, V>, k: K, v: V)
    requires k !in m
    ensures m[k := v] - {k} == m
  {
  }

  lemma {:induction false} LastOfSorted<T>(key: T -> Key, xs: seq<T>)
    requires Sorted(key, xs)
    ensures forall i :: 0 <= i < |xs| ==> key(xs[i]) in LastOf(key, xs) && LastOf(key, xs)[key(xs[i])] == xs[i]
    ensures |LastOf(key, xs)| == |xs|
  {
    if xs != [] {
      var n := |xs| - 1;
      LastKeyFresh(key, xs);
      LastOfSorted(key, xs[..n]);
      forall i | 0 <= i < |xs|
        ensures key(xs[i]) in LastOf(key, xs) && LastOf(key, xs)[key(xs[i])] == xs[i]
      {
        if i < n { assert xs[..n][i] == xs[i]; }
      }
    }
  }

  lemma LastIsGreatest<T>(key: T -> Key, xs: seq<T>, k: Key)
    requires Sorted(key, xs) && k in LastOf(key, xs)
    ensures xs != [] && !Less(key(xs[|xs| - 1]), k)
  {
    LastOfKeys(key, xs);
    var i :| 0 <= i < |xs| && xs[i] == LastOf(key, xs)[k];
    if i < |xs| - 1 { LessAsymmetric(k, key(xs[|xs| - 1])); } else { LessIrreflexive(k); }
  }

  /** A strictly sorted sequence is determined by its map. */
  lemma {:induction false} SortedUnique<T>(key: T -> Key, xs: seq<T>, ys: seq<T>)
    requires Sorted(key, xs) && Sorted(key, ys) && LastOf(key, xs) == LastOf(key, ys)
    ensures xs == ys
  {
    LastOfSorted(key, xs);
    LastOfSorted(key, ys);
    if xs != [] {
      var n := |xs| - 1;
      LastIsGreatest(key, ys, key(xs[n]));
      LastIsGreatest(key, xs, key(ys[n]));
      LessTotal(key(xs[n]), key(ys[n]));
      LastKeyFresh(key, xs);
      LastKeyFresh(key, ys);
      SortedUnique(key, xs[..n], ys[..n]);
      assert xs == xs[..n] + [xs[n]] && ys == ys[..n] + [ys[n]];
    }
  }

  lemma AllBelow<T>(key: T -> Key, xs: seq<T>, k: Key)
    requires WeaklySorted(key, xs) && xs != [] && Less(key(xs[|xs| - 1]), k)
    ensures forall i :: 0 <= i < |xs| ==> Less(key(xs[i]), k)
  {
    forall i | 0 <= i < |xs| ensures Less(key(xs[i]), k) {
      var top := key(xs[|xs| - 1]);
      if i < |xs| - 1 {
        LessTotal(key(xs[i]), top);
        if Less(key(xs[i]), top) { LessTransitive(key(xs[i]), top, k); }
      }
    }
  }

  lemma SortedIsWeak<T>(key: T -> Key, xs: seq<T>)
    requires Sorted(key, xs)
    ensures WeaklySorted(key, xs)
  {
    forall i, j | 0 <= i < j < |xs| ensures !Less(key(xs[j]), key(xs[i])) {
      LessAsymmetric(key(xs[i]), key(xs[j]));
    }
  }

  /** `sort.Search` for the first item whose key is at least `k`. */
  function LowerBound<T>(key: T -> Key, xs: seq<T>, k: Key): (i: nat)
    requires WeaklySorted(key, xs)
    ensures i <= |xs|
    ensures forall j :: 0 <= j < i ==> Less(key(xs[j]), k)
    ensures forall j :: i <= j < |xs| ==> !Less(key(xs[j]), k)
  {
    if xs == [] then 0
    else if Less(key(xs[|xs| - 1]), k) then AllBelow(key, xs, k); |xs|
    else LowerBound(key, xs[..|xs| - 1], k)
  }

  /** A position is the lower bound if only smaller keys precede it and no smaller key stands on it. */
  lemma LowerBoundIs<T>(key: T -> Key, xs: seq<T>, k: Key, i: nat)
    requires Sorted(key, xs) && i <= |xs|
    requires i > 0 ==> Less(key(xs[i - 1]), k)
    requires i < |xs| ==> !Less(key(xs[i]), k)
    ensures WeaklySorted(key, xs) && LowerBound(key, xs, k) == i
  {
    SortedIsWeak(key, xs);
    var b := LowerBound(key, xs, k);
    if i > 0 {
      var before := xs[i - 1];
      assert b <= i - 1 <==> !Less(key(before), k);
    }
    if i < |xs| {
      var at := xs[i];
      assert i < b <==> Less(key(at), k);
    }
  }

  /** The maps on either side of a lower bound. */
  lemma LowerBoundSplits<T>(key: T -> Key, xs: seq<T>, k: Key)
    requires Sorted(key, xs) && WeaklySorted(key, xs)
    ensures var m, i := LastOf(key, xs), LowerBound(key, xs, k);
            && LastOf(key, xs[i..]) == (map q | q in m && !Less(q, k) :: m[q])
            && LastOf(key, xs[..i]) == (map q | q in m && Less(q, k) :: m[q])
  {
    var i := LowerBound(key, xs, k);
    SplitKeys(key, xs[..i], xs[i..], k);
    assert xs == xs[..i] + xs[i..];
    LastOfAppend(key, xs[..i], xs[i..]);
    SplitMap(LastOf(key, xs[..i]), LastOf(key, xs[i..]), k);
  }

  lemma SplitMap<T>(below: map<Key, T>, above: map<Key, T>, k: Key)
    requires forall q :: q in below ==> Less(q, k)
    requires forall q :: q in above ==> !Less(q, k)
    ensures var m := below + above;
            && above == (map q | q in m && !Less(q, k) :: m[q])
            && below == (map q | q in m && Less(q, k) :: m[q])
  {
  }

  lemma SplitKeys<T>(key: T -> Key, below: seq<T>, above: seq<T>, k: Key)
    requires forall j :: 0 <= j < |below| ==> Less(key(below[j]), k)
    requires forall j :: 0 <= j < |above| ==> !Less(key(above[j]), k)
    ensures forall q :: q in LastOf(key, below) ==> Less(q, k)
    ensures forall q :: q in LastOf(key, above) ==> !Less(q, k)
  {
    LastOfKeys(key, below);
    LastOfKeys(key, above);
  }

  function Insert<T>(key: T -> Key, xs: seq<T>, x: T): seq<T> {
    if xs != [] && Less(key(x), key(xs[|xs| - 1])) then Insert(key, xs[..|xs| - 1], x) + [xs[|xs| - 1]]
    else xs + [x]
  }

  /** A stable sort by key. */
  function StableSort<T>(key: T -> Key, xs: seq<T>): seq<T> {
    if xs == [] then [] else Insert(key, StableSort(key, xs[..|xs| - 1]), xs[|xs| - 1])
  }

  lemma {:induction false} InsertPermutes<T>(key: T -> Key, xs: seq<T>, x: T)
    ensures multiset(Insert(key, xs, x)) == multiset(xs) + multiset{x}
  {
    if xs != [] && Less(key(x), key(xs[|xs| - 1])) {
      var n := |xs| - 1;
      InsertPermutes(key, xs[..n], x);
      assert xs == xs[..n] + [xs[n]];
    }
  }

  lemma {:induction false} InsertBounded<T>(key: T -> Key, xs: seq<T>, x: T, k: Key)
    requires !Less(k, key(x)) && forall i :: 0 <= i < |xs| ==> !Less(k, key(xs[i]))
    ensures forall i :: 0 <= i < |Insert(key, xs, x)| ==> !Less(k, key(Insert(key, xs, x)[i]))
  {
    if xs != [] && Less(key(x), key(xs[|xs| - 1])) { InsertBounded(key, xs[..|xs| - 1], x, k); }
  }

  lemma {:induction false} InsertSorts<T>(key: T -> Key, xs: seq<T>, x: T)
    requires WeaklySorted(key, xs)
    ensures WeaklySorted(key, Insert(key, xs, x))
  {
    if xs != [] {
      var n := |xs| - 1;
      var top := key(xs[n]);
      if Less(key(x), top) {
        LessAsymmetric(key(x), top);
        InsertSorts(key, xs[..n], x);
        InsertBounded(key, xs[..n], x, top);
      } else {
        forall i | 0 <= i < |xs| ensures !Less(key(x), key(xs[i])) {
          if i < n { AtMostTransitive(key(xs[i]), top, key(x)); }
        }
      }
    }
  }

  lemma {:induction false} InsertLast<T>(key: T -> Key, xs: seq<T>, x: T)
    ensures LastOf(key, Insert(key, xs, x)) == LastOf(key, xs)[key(x) := x]
  {
    if xs != [] && Less(key(x), key(xs[|xs| - 1])) {
      var n := |xs| - 1;
      LessAsymmetric(key(x), key(xs[n]));
      InsertLast(key, xs[..n], x);
      var r := Insert(key, xs[..n], x);
      assert (r + [xs[n]])[..|r|] == r;
    } else {
      assert (xs + [x])[..|xs|] == xs;
    }
  }

  lemma {:induction false} StableSortPermutes<T>(key: T -> Key, xs: seq<T>)
    ensures multiset(StableSort(key, xs)) == multiset(xs)
  {
    if xs != [] {
      var n := |xs| - 1;
      StableSortPermutes(key, xs[..n]);
      InsertPermutes(key, StableSort(key, xs[..n]), xs[n]);
      assert xs == xs[..n] + [xs[n]];
    }
  }

  /** Sorting permutes the items and keeps, for every key, which of its items comes last. */
  lemma {:induction false} StableSortCorrect<T>(key: T -> Key, xs: seq<T>)
    ensures WeaklySorted(key, StableSort(key, xs))
    ensures LastOf(key, StableSort(key, xs)) == LastOf(key, xs)
  {
    if xs != [] {
      var n := |xs| - 1;
      StableSortCorrect(key, xs[..n]);
      InsertSorts(key, StableSort(key, xs[..n]), xs[n]);
      InsertLast(key, StableSort(key, xs[..n]), xs[n]);
    }
  }

  // Items whose keys all differ.

  ghost predicate KeysDiffer<T>(key: T -> Key, xs: seq<T>) {
    forall i, j :: 0 <= i < j < |xs| ==> key(xs[i]) != key(xs[j])
  }

  lemma {:induction false} InsertFresh<T>(key: T -> Key, xs: seq<T>, x: T)
    requires Sorted(key, xs) && forall i :: 0 <= i < |xs| ==> key(xs[i]) != key(x)
    ensures Sorted(key, Insert(key, xs, x))
  {
    if xs != [] {
      var n := |xs| - 1;
      LessTotal(key(x), key(xs[n]));
      if Less(key(x), key(xs[n])) {
        InsertFresh(key, xs[..n], x);
        var before := Insert(key, xs[..n], x);
        InsertPermutes(key, xs[..n], x);
        if before != [] {
          var last := before[|before| - 1];
          assert last in multiset(before);
          assert last in multiset(xs[..n]) || last == x;
        }
        SortedSnoc(key, before, xs[n]);
      } else {
        SortedSnoc(key, xs, x);
      }
    }
  }

  /** Sorting such items sorts them strictly. */
  lemma {:induction false} SortDiffering<T>(key: T -> Key, xs: seq<T>)
    requires KeysDiffer(key, xs)
    ensures Sorted(key, StableSort(key, xs))
  {
    if xs != [] {
      var n := |xs| - 1;
      SortDiffering(key, xs[..n]);
      StableSortPermutes(key, xs[..n]);
      var before := StableSort(key, xs[..n]);
      forall i | 0 <= i < |before| ensures key(before[i]) != key(xs[n]) {
        assert before[i] in multiset(before);
        assert before[i] in multiset(xs[..n]);
        var j :| 0 <= j < n && xs[..n][j] == before[i];
        assert key(xs[j]) != key(xs[n]);
      }
      InsertFresh(key, before, xs[n]);
    }
  }
}
