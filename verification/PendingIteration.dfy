/** `PendingIter` of `common/repository/pending.go`: a cursor per run, in either direction. Both directions
    give the newest edit of every key of the interval, once and in order. */
module PendingIteration {
  import opened Bytes
  import opened Sequences
  import opened Sorting
  import opened Overlays
  import opened Pending

  /** All runs merged, the earlier run winning: the newest edit of every key, in key order. */
  function Flatten(runs: seq<seq<RowEdit>>): seq<RowEdit> {
    if runs == [] then [] else Merged(runs[0], Flatten(runs[1..]))
  }

  ghost predicate AllSorted(runs: seq<seq<RowEdit>>) {
    forall r :: 0 <= r < |runs| ==> Sorted(RowKey, runs[r])
  }

  lemma {:induction false} FlattenIs(runs: seq<seq<RowEdit>>)
    requires AllSorted(runs)
    ensures Sorted(RowKey, Flatten(runs)) && LastOf(RowKey, Flatten(runs)) == Newest(runs)
  {
    if runs != [] {
      FlattenIs(runs[1..]);
      MergedSorted(runs[0], Flatten(runs[1..]));
      MergedLastOf(runs[0], Flatten(runs[1..]));
    }
  }

  /** Dropping one key from every run drops it from the newest edits. */
  lemma {:induction false} DropKey(runs: seq<seq<RowEdit>>, fewer: seq<seq<RowEdit>>, k: Key)
    requires |fewer| == |runs|
    requires forall r :: 0 <= r < |runs| ==> LastOf(RowKey, fewer[r]) == LastOf(RowKey, runs[r]) - {k}
    ensures Newest(fewer) == Newest(runs) - {k}
  {
    if runs != [] {
      DropKey(runs[1..], fewer[1..], k);
      MinusBoth(Newest(runs[1..]), LastOf(RowKey, runs[0]), k);
    }
  }

  lemma MinusBoth(a: map<Key, RowEdit>, b: map<Key, RowEdit>, k: Key)
    ensures (a - {k}) + (b - {k}) == (a + b) - {k}
  {
  }

  /** Of the runs holding a key, the first one decides. */
  lemma {:induction false} FirstRunWins(runs: seq<seq<RowEdit>>, b: nat, k: Key)
    requires b < |runs| && k in LastOf(RowKey, runs[b])
    requires forall r :: 0 <= r < b ==> k !in LastOf(RowKey, runs[r])
    ensures k in Newest(runs) && Newest(runs)[k] == LastOf(RowKey, runs[b])[k]
  {
    if b > 0 { FirstRunWins(runs[1..], b - 1, k); }
  }

  lemma {:induction false} NewestFrom(runs: seq<seq<RowEdit>>, k: Key) returns (r: nat)
    requires k in Newest(runs)
    ensures r < |runs| && k in LastOf(RowKey, runs[r])
  {
    if k in LastOf(RowKey, runs[0]) {
      r := 0;
    } else {
      r := NewestFrom(runs[1..], k);
      r := r + 1;
    }
  }

  // Positions counting up.

  /** The run at `best` has the smallest head, and no earlier run has the same one. */
  ghost predicate SmallestHead(runs: seq<seq<RowEdit>>, best: int, upTo: nat)
    requires upTo <= |runs|
  {
    && (best < 0 ==> forall r :: 0 <= r < upTo ==> runs[r] == [])
    && (best >= 0 ==>
          && best < upTo && runs[best] != []
          && (forall r :: 0 <= r < upTo && runs[r] != [] ==> !Less(runs[r][0].key, runs[best][0].key))
          && (forall r :: 0 <= r < best && runs[r] != [] ==> runs[r][0].key != runs[best][0].key))
  }

  lemma HeadIsLeast(xs: seq<RowEdit>, k: Key)
    requires Sorted(RowKey, xs) && k in LastOf(RowKey, xs)
    ensures xs != [] && !Less(k, xs[0].key)
    ensures k == xs[0].key ==> LastOf(RowKey, xs)[k] == xs[0]
  {
    LastOfKeys(RowKey, xs);
    LastOfSorted(RowKey, xs);
    var i :| 0 <= i < |xs| && xs[i] == LastOf(RowKey, xs)[k];
    assert RowKey(xs[i]) == k;
    if i > 0 { LessAsymmetric(RowKey(xs[0]), k); } else { LessIrreflexive(k); }
    assert RowKey(xs[0]) in LastOf(RowKey, xs) && LastOf(RowKey, xs)[RowKey(xs[0])] == xs[0];
  }

  lemma {:induction false} NothingLeft(runs: seq<seq<RowEdit>>)
    requires forall r :: 0 <= r < |runs| ==> runs[r] == []
    ensures Flatten(runs) == []
  {
    if runs != [] { NothingLeft(runs[1..]); }
  }

  /** The smallest head is the next newest edit. */
  lemma BestHead(runs: seq<seq<RowEdit>>, best: nat)
    requires AllSorted(runs) && SmallestHead(runs, best, |runs|)
    ensures Flatten(runs) != [] && Flatten(runs)[0] == runs[best][0]
  {
    var x := runs[best][0];
    LastOfSorted(RowKey, runs[best]);
    assert RowKey(x) in LastOf(RowKey, runs[best]);
    forall r | 0 <= r < best ensures x.key !in LastOf(RowKey, runs[r]) {
      if x.key in LastOf(RowKey, runs[r]) {
        HeadIsLeast(runs[r], x.key);
        LessTotal(x.key, runs[r][0].key);
      }
    }
    FirstRunWins(runs, best, x.key);
    var all := Flatten(runs);
    FlattenIs(runs);
    HeadIsLeast(all, x.key);
    LastOfSorted(RowKey, all);
    assert RowKey(all[0]) in Newest(runs);
    var r := NewestFrom(runs, all[0].key);
    HeadIsLeast(runs[r], all[0].key);
    AtMostTransitive(x.key, runs[r][0].key, all[0].key);
    LessTotal(x.key, all[0].key);
  }

  /** Without its head a sorted run holds the same map but for that key. */
  lemma FirstKeyGone(xs: seq<RowEdit>)
    requires Sorted(RowKey, xs) && xs != []
    ensures Sorted(RowKey, xs[1..])
    ensures LastOf(RowKey, xs[1..]) == LastOf(RowKey, xs) - {xs[0].key}
  {
    HeadBelowTail(xs);
    ConsLastOf(xs[0], xs[1..]);
    assert xs == [xs[0]] + xs[1..];
    UndoUpdate(LastOf(RowKey, xs[1..]), xs[0].key, xs[0]);
  }

  /** The runs with the head `k` removed where it stands. */
  function DropHeads(runs: seq<seq<RowEdit>>, k: Key): seq<seq<RowEdit>> {
    seq(|runs|, r requires 0 <= r < |runs| => if runs[r] != [] && runs[r][0].key == k then runs[r][1..] else runs[r])
  }

  lemma HeadDropped(run: seq<RowEdit>, k: Key)
    requires Sorted(RowKey, run) && (run != [] ==> !Less(run[0].key, k))
    ensures var rest := if run != [] && run[0].key == k then run[1..] else run;
            Sorted(RowKey, rest) && LastOf(RowKey, rest) == LastOf(RowKey, run) - {k}
  {
    if run != [] && run[0].key == k {
      FirstKeyGone(run);
    } else if k in LastOf(RowKey, run) {
      HeadIsLeast(run, k);
      LessTotal(k, run[0].key);
    }
  }

  /** Passing the smallest key in every run leaves the rest of the newest edits. */
  lemma AdvanceHeads(runs: seq<seq<RowEdit>>, best: nat)
    requires AllSorted(runs) && SmallestHead(runs, best, |runs|)
    ensures AllSorted(DropHeads(runs, runs[best][0].key)) && Flatten(runs) != []
    ensures Flatten(DropHeads(runs, runs[best][0].key)) == Flatten(runs)[1..]
  {
    var k := runs[best][0].key;
    var fewer := DropHeads(runs, k);
    forall r | 0 <= r < |runs|
      ensures Sorted(RowKey, fewer[r]) && LastOf(RowKey, fewer[r]) == LastOf(RowKey, runs[r]) - {k}
    {
      HeadDropped(runs[r], k);
    }
    DropKey(runs, fewer, k);
    BestHead(runs, best);
    FlattenIs(runs);
    FlattenIs(fewer);
    FirstKeyGone(Flatten(runs));
    SortedUnique(RowKey, Flatten(fewer), Flatten(runs)[1..]);
  }

  // Positions counting down.

  ghost predicate GreatestEnd(runs: seq<seq<RowEdit>>, best: int, upTo: nat)
    requires upTo <= |runs|
  {
    && (best < 0 ==> forall r :: 0 <= r < upTo ==> runs[r] == [])
    && (best >= 0 ==>
          && best < upTo && runs[best] != []
          && (forall r :: 0 <= r < upTo && runs[r] != [] ==> !Less(End(runs[best]).key, End(runs[r]).key))
          && (forall r :: 0 <= r < best && runs[r] != [] ==> End(runs[r]).key != End(runs[best]).key))
  }

  function End(run: seq<RowEdit>): RowEdit
    requires run != []
  {
    run[|run| - 1]
  }

  lemma EndIsGreatest(xs: seq<RowEdit>, k: Key)
    requires Sorted(RowKey, xs) && k in LastOf(RowKey, xs)
    ensures xs != [] && !Less(End(xs).key, k)
    ensures k == End(xs).key ==> LastOf(RowKey, xs)[k] == End(xs)
  {
    LastIsGreatest(RowKey, xs, k);
  }

  lemma BestEnd(runs: seq<seq<RowEdit>>, best: nat)
    requires AllSorted(runs) && GreatestEnd(runs, best, |runs|)
    ensures Flatten(runs) != [] && End(Flatten(runs)) == End(runs[best])
  {
    var x := End(runs[best]);
    assert RowKey(x) in LastOf(RowKey, runs[best]);
    forall r | 0 <= r < best ensures x.key !in LastOf(RowKey, runs[r]) {
      if x.key in LastOf(RowKey, runs[r]) {
        EndIsGreatest(runs[r], x.key);
        LessTotal(x.key, End(runs[r]).key);
      }
    }
    FirstRunWins(runs, best, x.key);
    var all := Flatten(runs);
    FlattenIs(runs);
    EndIsGreatest(all, x.key);
    assert RowKey(End(all)) in Newest(runs);
    var r := NewestFrom(runs, End(all).key);
    EndIsGreatest(runs[r], End(all).key);
    AtMostTransitive(End(all).key, End(runs[r]).key, x.key);
    LessTotal(x.key, End(all).key);
  }

  function DropEnds(runs: seq<seq<RowEdit>>, k: Key): seq<seq<RowEdit>> {
    seq(|runs|, r requires 0 <= r < |runs| =>
      if runs[r] != [] && runs[r][|runs[r]| - 1].key == k then runs[r][..|runs[r]| - 1] else runs[r])
  }

  lemma EndDropped(run: seq<RowEdit>, k: Key)
    requires Sorted(RowKey, run) && (run != [] ==> !Less(k, End(run).key))
    ensures var rest := if run != [] && run[|run| - 1].key == k then run[..|run| - 1] else run;
            Sorted(RowKey, rest) && LastOf(RowKey, rest) == LastOf(RowKey, run) - {k}
  {
    if run != [] && End(run).key == k {
      LastKeyFresh(RowKey, run);
    } else if k in LastOf(RowKey, run) {
      EndIsGreatest(run, k);
      LessTotal(k, End(run).key);
    }
  }

  lemma RetreatEnds(runs: seq<seq<RowEdit>>, best: nat)
    requires AllSorted(runs) && GreatestEnd(runs, best, |runs|)
    ensures AllSorted(DropEnds(runs, End(runs[best]).key)) && Flatten(runs) != []
    ensures Flatten(DropEnds(runs, End(runs[best]).key)) == Flatten(runs)[..|Flatten(runs)| - 1]
  {
    var k := End(runs[best]).key;
    var fewer := DropEnds(runs, k);
    forall r | 0 <= r < |runs|
      ensures Sorted(RowKey, fewer[r]) && LastOf(RowKey, fewer[r]) == LastOf(RowKey, runs[r]) - {k}
    {
      EndDropped(runs[r], k);
    }
    DropKey(runs, fewer, k);
    BestEnd(runs, best);
    FlattenIs(runs);
    FlattenIs(fewer);
    SameButLast(Flatten(runs), Flatten(fewer));
  }

  lemma SameButLast(all: seq<RowEdit>, fewer: seq<RowEdit>)
    requires Sorted(RowKey, all) && Sorted(RowKey, fewer) && all != []
    requires LastOf(RowKey, fewer) == LastOf(RowKey, all) - {End(all).key}
    ensures fewer == all[..|all| - 1]
  {
    LastKeyFresh(RowKey, all);
    SortedUnique(RowKey, fewer, all[..|all| - 1]);
  }
}
