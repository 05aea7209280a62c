/** The iterator object of `common/repository/pending.go`. */
module PendingCursor {
  import opened Bytes
  import opened Sorting
  import opened Overlays
  import opened Pending
  import opened PendingIteration

  predicate InInterval(k: Key, start: Key, end: Option<Key>) {
    !Less(k, start) && (end.Some? ==> Less(k, end.value))
  }

  /** The part of a map in `[start, end)`. */
  ghost function Within<V>(m: map<Key, V>, start: Key, end: Option<Key>): map<Key, V> {
    map k | k in m && InInterval(k, start, end) :: m[k]
  }

  ghost function KeepFrom(xs: seq<RowEdit>, start: Key): seq<RowEdit>
    requires Sorted(RowKey, xs)
  {
    SortedIsWeak(RowKey, xs);
    xs[LowerBound(RowKey, xs, start)..]
  }

  ghost function KeepBelow(xs: seq<RowEdit>, end: Option<Key>): seq<RowEdit>
    requires Sorted(RowKey, xs)
  {
    SortedIsWeak(RowKey, xs);
    if end.None? then xs else xs[..LowerBound(RowKey, xs, end.value)]
  }

  lemma KeepFromIs(xs: seq<RowEdit>, start: Key)
    requires Sorted(RowKey, xs)
    ensures Sorted(RowKey, KeepFrom(xs, start))
    ensures LastOf(RowKey, KeepFrom(xs, start)) == Within(LastOf(RowKey, xs), start, None)
  {
    SortedIsWeak(RowKey, xs);
    LowerBoundSplits(RowKey, xs, start);
  }

  lemma KeepBelowIs(xs: seq<RowEdit>, end: Option<Key>)
    requires Sorted(RowKey, xs)
    ensures Sorted(RowKey, KeepBelow(xs, end))
    ensures LastOf(RowKey, KeepBelow(xs, end)) == Within(LastOf(RowKey, xs), [], end)
  {
    SortedIsWeak(RowKey, xs);
    if end.Some? { LowerBoundSplits(RowKey, xs, end.value); }
  }

  /** Cutting every run at the interval's bound cuts the newest edits there. */
  lemma {:induction false} CutRuns(runs: seq<seq<RowEdit>>, cut: seq<seq<RowEdit>>, start: Key, end: Option<Key>)
    requires |cut| == |runs|
    requires forall r :: 0 <= r < |runs| ==> LastOf(RowKey, cut[r]) == Within(LastOf(RowKey, runs[r]), start, end)
    ensures Newest(cut) == Within(Newest(runs), start, end)
  {
    if runs != [] {
      CutRuns(runs[1..], cut[1..], start, end);
      WithinBoth(Newest(runs[1..]), LastOf(RowKey, runs[0]), start, end);
    }
  }

  lemma WithinBoth(a: map<Key, RowEdit>, b: map<Key, RowEdit>, start: Key, end: Option<Key>)
    ensures Within(a, start, end) + Within(b, start, end) == Within(a + b, start, end)
  {
  }

  lemma BothBounds(m: map<Key, RowEdit>, start: Key, end: Option<Key>)
    ensures Within(Within(m, start, None), [], end) == Within(m, start, end)
    ensures Within(Within(m, [], end), start, None) == Within(m, start, end)
  {
  }

  lemma BelowHead(xs: seq<RowEdit>, end: Option<Key>)
    requires Sorted(RowKey, xs) && xs != []
    ensures end.Some? && !Less(xs[0].key, end.value) ==> KeepBelow(xs, end) == []
    ensures end.None? || Less(xs[0].key, end.value) ==>
              var kept := KeepBelow(xs, end);
              kept != [] && kept[0] == xs[0] && Sorted(RowKey, xs[1..]) && KeepBelow(xs[1..], end) == kept[1..]
  {
    HeadBelowTail(xs);
    SortedIsWeak(RowKey, xs);
    if end.Some? {
      var i := LowerBound(RowKey, xs, end.value);
      assert i > 0 <==> Less(RowKey(xs[0]), end.value);
      if i > 0 {
        LowerBoundIs(RowKey, xs[1..], end.value, i - 1);
      }
    }
  }

  lemma FromEnd(xs: seq<RowEdit>, start: Key)
    requires Sorted(RowKey, xs) && xs != []
    ensures Less(End(xs).key, start) ==> KeepFrom(xs, start) == []
    ensures !Less(End(xs).key, start) ==>
              var kept := KeepFrom(xs, start);
              && kept != [] && End(kept) == End(xs)
              && KeepFrom(xs[..|xs| - 1], start) == kept[..|kept| - 1]
  {
    var n := |xs| - 1;
    SortedIsWeak(RowKey, xs);
    var i := LowerBound(RowKey, xs, start);
    var last := xs[n];
    assert i == |xs| <==> Less(RowKey(last), start);
    if i < |xs| {
      BoundWithoutLast(xs, start, i);
      assert xs[i..][..|xs[i..]| - 1] == xs[..n][i..];
    }
  }

  lemma BoundWithoutLast(xs: seq<RowEdit>, start: Key, i: nat)
    requires Sorted(RowKey, xs) && i < |xs| && WeaklySorted(RowKey, xs) && i == LowerBound(RowKey, xs, start)
    ensures WeaklySorted(RowKey, xs[..|xs| - 1]) && LowerBound(RowKey, xs[..|xs| - 1], start) == i
  {
    var n := |xs| - 1;
    assert i > 0 ==> Less(RowKey(xs[i - 1]), start);
    assert i < n ==> !Less(RowKey(xs[i]), start);
    LowerBoundIs(RowKey, xs[..n], start, i);
  }

  predicate Upward(runs: seq<seq<RowEdit>>, pos: seq<int>) {
    |pos| == |runs| && forall r :: 0 <= r < |runs| ==> 0 <= pos[r] <= |runs[r]|
  }

  predicate Downward(runs: seq<seq<RowEdit>>, pos: seq<int>) {
    |pos| == |runs| && forall r :: 0 <= r < |runs| ==> -1 <= pos[r] < |runs[r]|
  }

  function LeftAbove(runs: seq<seq<RowEdit>>, pos: seq<int>): seq<seq<RowEdit>>
    requires Upward(runs, pos)
  {
    seq(|runs|, r requires 0 <= r < |runs| => runs[r][pos[r]..])
  }

  function LeftBelow(runs: seq<seq<RowEdit>>, pos: seq<int>): seq<seq<RowEdit>>
    requires Downward(runs, pos)
  {
    seq(|runs|, r requires 0 <= r < |runs| => runs[r][..pos[r] + 1])
  }

  /** Every position standing on `k` moves past it. */
  function PastUp(runs: seq<seq<RowEdit>>, pos: seq<int>, k: Key): (next: seq<int>)
    requires Upward(runs, pos)
    ensures Upward(runs, next) && LeftAbove(runs, next) == DropHeads(LeftAbove(runs, pos), k)
  {
    var next := seq(|runs|, r requires 0 <= r < |runs| =>
      if pos[r] < |runs[r]| && runs[r][pos[r]].key == k then pos[r] + 1 else pos[r]);
    next
  }

  function PastDown(runs: seq<seq<RowEdit>>, pos: seq<int>, k: Key): (next: seq<int>)
    requires Downward(runs, pos)
    ensures Downward(runs, next) && LeftBelow(runs, next) == DropEnds(LeftBelow(runs, pos), k)
  {
    var next := seq(|runs|, r requires 0 <= r < |runs| =>
      if pos[r] >= 0 && runs[r][pos[r]].key == k then pos[r] - 1 else pos[r]);
    assert forall r :: 0 <= r < |runs| ==> LeftBelow(runs, next)[r] == DropEnds(LeftBelow(runs, pos), k)[r] by {
      forall r | 0 <= r < |runs| ensures LeftBelow(runs, next)[r] == DropEnds(LeftBelow(runs, pos), k)[r] {
        var left := runs[r][..pos[r] + 1];
        if pos[r] >= 0 { assert left[|left| - 1] == runs[r][pos[r]] && left[..|left| - 1] == runs[r][..pos[r]]; }
      }
    }
    next
  }

  /** The cut runs of a new iterator give the interval's edits. */
  lemma OpenedForward(runs: seq<seq<RowEdit>>, left: seq<seq<RowEdit>>, start: Key, end: Option<Key>)
    requires AllSorted(runs) && |left| == |runs|
    requires forall r :: 0 <= r < |runs| ==> left[r] == KeepFrom(runs[r], start)
    ensures AllSorted(left) && Sorted(RowKey, Flatten(left)) && Sorted(RowKey, KeepBelow(Flatten(left), end))
    ensures LastOf(RowKey, KeepBelow(Flatten(left), end)) == Within(Newest(runs), start, end)
  {
    forall r | 0 <= r < |runs|
      ensures Sorted(RowKey, left[r]) && LastOf(RowKey, left[r]) == Within(LastOf(RowKey, runs[r]), start, None)
    {
      KeepFromIs(runs[r], start);
    }
    CutRuns(runs, left, start, None);
    FlattenIs(left);
    KeepBelowIs(Flatten(left), end);
    BothBounds(Newest(runs), start, end);
  }

  lemma OpenedBackward(runs: seq<seq<RowEdit>>, left: seq<seq<RowEdit>>, start: Key, end: Option<Key>)
    requires AllSorted(runs) && |left| == |runs|
    requires forall r :: 0 <= r < |runs| ==> left[r] == KeepBelow(runs[r], end)
    ensures AllSorted(left) && Sorted(RowKey, Flatten(left)) && Sorted(RowKey, KeepFrom(Flatten(left), start))
    ensures LastOf(RowKey, KeepFrom(Flatten(left), start)) == Within(Newest(runs), start, end)
  {
    forall r | 0 <= r < |runs|
      ensures Sorted(RowKey, left[r]) && LastOf(RowKey, left[r]) == Within(LastOf(RowKey, runs[r]), [], end)
    {
      KeepBelowIs(runs[r], end);
    }
    CutRuns(runs, left, [], end);
    FlattenIs(left);
    KeepFromIs(Flatten(left), start);
    BothBounds(Newest(runs), start, end);
  }

  /** A position in every run; counting up it is the next index, counting down too. */
  class PendingIter {
    const runs: seq<seq<RowEdit>>
    var pos: seq<int>
    const start: Key
    const end: Option<Key>
    const reverse: bool

    ghost predicate Valid()
      reads this
    {
      AllSorted(runs) && if reverse then Downward(runs, pos) else Upward(runs, pos)
    }

    /** What each run still has to offer. */
    ghost function Left(): seq<seq<RowEdit>>
      requires Valid()
      reads this
    {
      if reverse then LeftBelow(runs, pos) else LeftAbove(runs, pos)
    }

    lemma LeftSorted()
      requires Valid()
      ensures AllSorted(Left()) && Sorted(RowKey, Flatten(Left()))
    {
      FlattenIs(Left());
    }

    /** The edits still to come, ascending: the next one is the first, or, when reverse, the last. */
    ghost function Rest(): seq<RowEdit>
      requires Valid()
      reads this
    {
      LeftSorted();
      if reverse then KeepFrom(Flatten(Left()), start) else KeepBelow(Flatten(Left()), end)
    }

    /** `Iter`. A nil `start` is the empty key. */
    constructor Forward(p: PendingRows, start: Key, end: Option<Key>)
      requires p.Valid()
      ensures Valid() && !reverse
      ensures Sorted(RowKey, Rest()) && LastOf(RowKey, Rest()) == Within(p.Edits(), start, end)
    {
      runs, this.start, this.end, reverse := p.runs, start, end, false;
      pos := seq(|p.runs|, r => 0);
      new;
      for r := 0 to |runs|
        invariant Valid() && forall q :: 0 <= q < r ==> runs[q][pos[q]..] == KeepFrom(runs[q], start)
      {
        SortedIsWeak(RowKey, runs[r]);
        pos := pos[r := LowerBound(RowKey, runs[r], start)];
      }
      OpenedForward(runs, Left(), start, end);
    }

    /** `IterReverse`. */
    constructor Backward(p: PendingRows, start: Key, end: Option<Key>)
      requires p.Valid()
      ensures Valid() && reverse
      ensures Sorted(RowKey, Rest()) && LastOf(RowKey, Rest()) == Within(p.Edits(), start, end)
    {
      runs, this.start, this.end, reverse := p.runs, start, end, true;
      pos := seq(|p.runs|, r => -1);
      new;
      for r := 0 to |runs|
        invariant Valid() && forall q :: 0 <= q < r ==> runs[q][..pos[q] + 1] == KeepBelow(runs[q], end)
      {
        SortedIsWeak(RowKey, runs[r]);
        if end.Some? {
          pos := pos[r := LowerBound(RowKey, runs[r], end.value) - 1];
        } else {
          pos := pos[r := |runs[r]| - 1];
        }
      }
      OpenedBackward(runs, Left(), start, end);
    }

    /** `Next`, with its reverse form `prev`. */
    method Next() returns (r: Option<RowEdit>)
      requires Valid()
      modifies this
      ensures Valid()
      ensures old(Rest()) == [] ==> r == None && Rest() == []
      ensures var rest := old(Rest());
              rest != [] ==>
                if reverse then r == Some(End(rest)) && Rest() == rest[..|rest| - 1]
                else r == Some(rest[0]) && Rest() == rest[1..]
    {
      if reverse { r := Prev(); } else { r := Succ(); }
    }

    method Succ() returns (r: Option<RowEdit>)
      requires Valid() && !reverse
      modifies this
      ensures Valid()
      ensures old(Rest()) == [] ==> r == None && Rest() == []
      ensures old(Rest()) != [] ==> r == Some(old(Rest())[0]) && Rest() == old(Rest())[1..]
    {
      ghost var left := Left();
      LeftSorted();
      var best := FindSmallest();
      if best < 0 {
        NothingLeft(left);
        return None;
      }
      BestHead(left, best);
      BelowHead(Flatten(left), end);
      var edit := runs[best][pos[best]];
      if end.Some? && !Less(edit.key, end.value) {
        pos := seq(|runs|, i requires 0 <= i < |runs| => |runs[i]|);
        NothingLeft(Left());
        return None;
      }
      AdvanceHeads(left, best);
      pos := PastUp(runs, pos, edit.key);
      return Some(edit);
    }

    method FindSmallest() returns (best: int)
      requires Valid() && !reverse
      ensures best < |runs| && SmallestHead(Left(), best, |runs|)
    {
      ghost var left := Left();
      best := -1;
      for r := 0 to |runs|
        invariant best < r && SmallestHead(left, best, r)
      {
        SmallestStep(left, best, r);
        if pos[r] < |runs[r]| {
          if best < 0 || Less(runs[r][pos[r]].key, runs[best][pos[best]].key) {
            best := r;
          }
        }
      }
    }

    method Prev() returns (r: Option<RowEdit>)
      requires Valid() && reverse
      modifies this
      ensures Valid()
      ensures old(Rest()) == [] ==> r == None && Rest() == []
      ensures var rest := old(Rest());
              rest != [] ==> r == Some(End(rest)) && Rest() == rest[..|rest| - 1]
    {
      ghost var left := Left();
      LeftSorted();
      var best := FindGreatest();
      if best < 0 {
        NothingLeft(left);
        return None;
      }
      BestEnd(left, best);
      FromEnd(Flatten(left), start);
      var edit := runs[best][pos[best]];
      if Less(edit.key, start) {
        pos := seq(|runs|, i => -1);
        NothingLeft(Left());
        return None;
      }
      RetreatEnds(left, best);
      pos := PastDown(runs, pos, edit.key);
      return Some(edit);
    }

    method FindGreatest() returns (best: int)
      requires Valid() && reverse
      ensures best < |runs| && GreatestEnd(Left(), best, |runs|)
    {
      ghost var left := Left();
      best := -1;
      for r := 0 to |runs|
        invariant best < r && GreatestEnd(left, best, r)
      {
        GreatestStep(left, best, r);
        if pos[r] >= 0 {
          if best < 0 || Less(runs[best][pos[best]].key, runs[r][pos[r]].key) {
            best := r;
          }
        }
      }
    }
  }

  lemma SmallestStep(runs: seq<seq<RowEdit>>, best: int, r: nat)
    requires r < |runs| && SmallestHead(runs, best, r)
    ensures var better := runs[r] != [] && (best < 0 || Less(runs[r][0].key, runs[best][0].key));
            SmallestHead(runs, if better then r else best, r + 1)
  {
    if runs[r] != [] {
      LessIrreflexive(runs[r][0].key);
      if best >= 0 && Less(runs[r][0].key, runs[best][0].key) { NewSmallest(runs, best, r); }
    }
  }

  lemma GreatestStep(runs: seq<seq<RowEdit>>, best: int, r: nat)
    requires r < |runs| && GreatestEnd(runs, best, r)
    ensures var better := runs[r] != [] && (best < 0 || Less(End(runs[best]).key, End(runs[r]).key));
            GreatestEnd(runs, if better then r else best, r + 1)
  {
    if runs[r] != [] {
      LessIrreflexive(End(runs[r]).key);
      if best >= 0 && Less(End(runs[best]).key, End(runs[r]).key) { NewGreatest(runs, best, r); }
    }
  }

  lemma NewSmallest(runs: seq<seq<RowEdit>>, best: nat, r: nat)
    requires best < r < |runs| && SmallestHead(runs, best, r) && runs[r] != [] && Less(runs[r][0].key, runs[best][0].key)
    ensures SmallestHead(runs, r, r + 1)
  {
    LessIrreflexive(runs[r][0].key);
    forall q | 0 <= q < r && runs[q] != []
      ensures !Less(runs[q][0].key, runs[r][0].key) && runs[q][0].key != runs[r][0].key
    {
      if Less(runs[q][0].key, runs[r][0].key) { LessTransitive(runs[q][0].key, runs[r][0].key, runs[best][0].key); }
    }
  }

  lemma NewGreatest(runs: seq<seq<RowEdit>>, best: nat, r: nat)
    requires best < r < |runs| && GreatestEnd(runs, best, r) && runs[r] != [] && Less(End(runs[best]).key, End(runs[r]).key)
    ensures GreatestEnd(runs, r, r + 1)
  {
    LessIrreflexive(End(runs[r]).key);
    forall q | 0 <= q < r && runs[q] != []
      ensures !Less(End(runs[r]).key, End(runs[q]).key) && End(runs[q]).key != End(runs[r]).key
    {
      if Less(End(runs[r]).key, End(runs[q]).key) {
        LessTransitive(End(runs[best]).key, End(runs[r]).key, End(runs[q]).key);
      }
    }
  }
}
