/** Half-open intervals of keys (`keyInterval`, `keyPrefixEnd`, `mergeIntervals`). */
module KeyIntervals {
  import opened Bytes
  import opened Overlays
  import opened Sorting
  import opened ByteOrder

  /** From `start` up to `end`, or without end. */
  datatype Interval = Interval(start: Key, end: Option<Key>) {
    predicate Empty() { end.Some? && !Less(start, end.value) }

    predicate Contains(k: Key) { !Less(k, start) && (end.Some? ==> Less(k, end.value)) }
  }

  // The end of a prefix.

  /** The least key above every key with this prefix, if there is one. */
  function PrefixEnd(p: Key): Option<Key> {
    if p == [] then None
    else if p[|p| - 1] != 0xFF then Some(p[..|p| - 1] + [Up(p[|p| - 1])])
    else PrefixEnd(p[..|p| - 1])
  }

  function Up(b: byte): byte
    requires b != 0xFF
  {
    b as int + 1
  }

  /** `keyPrefixEnd`. */
  method KeyPrefixEnd(prefix: Key) returns (end: Option<Key>)
    ensures end == PrefixEnd(prefix)
  {
    var i := |prefix|;
    assert prefix[..i] == prefix;
    while i > 0
      invariant 0 <= i <= |prefix|
      invariant PrefixEnd(prefix[..i]) == PrefixEnd(prefix)
    {
      i := i - 1;
      assert prefix[..i + 1][..i] == prefix[..i];
      if prefix[i] != 0xFF { return Some(prefix[..i] + [Up(prefix[i])]); }
    }
    return None;
  }

  lemma {:induction false} PrefixEndCons(a: byte, p: Key)
    ensures PrefixEnd([a] + p) == match PrefixEnd(p)
                                  case Some(e) => Some([a] + e)
                                  case None => if a == 0xFF then None else Some([Up(a)])
  {
    var all := [a] + p;
    if p == [] {
      assert all == [a] && all[..0] == [] && [] + [a] == [a];
      if a != 0xFF { assert [] + [Up(a)] == [Up(a)]; }
    } else {
      var n := |p| - 1;
      assert all[..|p|] == [a] + p[..n] && all[|p|] == p[n];
      if p[n] == 0xFF {
        PrefixEndCons(a, p[..n]);
      } else {
        assert [a] + p[..n] + [Up(p[n])] == [a] + (p[..n] + [Up(p[n])]);
      }
    }
  }

  /** Below a prefix's end are the keys below the prefix and those that start with it. */
  lemma {:induction false} BelowPrefixEnd(k: Key, p: Key)
    ensures (PrefixEnd(p).Some? ==> Less(k, PrefixEnd(p).value)) <==> Less(k, p) || p <= k
  {
    if p != [] {
      assert p == [p[0]] + p[1..];
      PrefixEndCons(p[0], p[1..]);
      if k != [] {
        assert k == [k[0]] + k[1..];
        BelowPrefixEnd(k[1..], p[1..]);
        PrefixCons(p[0], p[1..], k[0], k[1..]);
        match PrefixEnd(p[1..])
        case Some(e) => assert ([p[0]] + e)[1..] == e;
        case None =>
      }
    }
  }

  lemma PrefixCons(a: byte, p: Key, b: byte, k: Key)
    ensures [a] + p <= [b] + k <==> a == b && p <= k
  {
    if [a] + p <= [b] + k {
      assert ([b] + k)[..|p| + 1] == [a] + p;
      assert ([b] + k)[0] == b && ([b] + k)[1..][..|p|] == p;
    }
    if a == b && p <= k { assert ([b] + k)[..|p| + 1] == [b] + k[..|p|]; }
  }

  /** A prefix's keys are exactly the interval up to its end. */
  lemma PrefixInterval(p: Key, k: Key)
    ensures Interval(p, PrefixEnd(p)).Contains(k) <==> p <= k
  {
    BelowPrefixEnd(k, p);
    if p <= k { NotBelowPrefix(p, k); }
  }

  lemma {:induction false} NotBelowPrefix(p: Key, k: Key)
    requires p <= k
    ensures !Less(k, p)
  {
    if p != [] {
      assert k == [k[0]] + k[1..] && p == [p[0]] + p[1..];
      PrefixCons(p[0], p[1..], k[0], k[1..]);
      NotBelowPrefix(p[1..], k[1..]);
    }
  }

  // Merging intervals.

  function StartOf(iv: Interval): Key { iv.start }

  ghost predicate InSome(ivs: seq<Interval>, k: Key) { exists i :: 0 <= i < |ivs| && ivs[i].Contains(k) }

  /** Ascending, with a gap between neighbours. */
  ghost predicate Apart(ivs: seq<Interval>) {
    forall i, j :: 0 <= i < j < |ivs| ==> ivs[i].end.Some? && Less(ivs[i].end.value, ivs[j].start)
  }

  ghost predicate NoneEmpty(ivs: seq<Interval>) { forall i :: 0 <= i < |ivs| ==> !ivs[i].Empty() }

  /** `mergeIntervals` behind its sort; the order of equal starts does not matter. */
  method MergeIntervals(sorted: seq<Interval>) returns (out: seq<Interval>)
    requires WeaklySorted(StartOf, sorted) && NoneEmpty(sorted)
    ensures Apart(out) && NoneEmpty(out)
    ensures forall k :: InSome(out, k) <==> InSome(sorted, k)
  {
    if |sorted| < 2 { return sorted; }
    out := [sorted[0]];
    LessIrreflexive(sorted[0].start);
    assert sorted[..1] == [sorted[0]];
    for n := 1 to |sorted|
      invariant MergedUpTo(sorted, n, out)
    {
      MergeOne(sorted, n, out);
      var iv, last := sorted[n], out[|out| - 1];
      if last.end.Some? && Less(last.end.value, iv.start) {
        out := out + [iv];
        continue;
      }
      if last.end.Some? && (iv.end.None? || Less(last.end.value, iv.end.value)) {
        out := out[|out| - 1 := last.(end := iv.end)];
      }
    }
    assert sorted[..|sorted|] == sorted;
  }

  /** One round of the loop. */
  function MergeStep(out: seq<Interval>, iv: Interval): seq<Interval>
    requires out != []
  {
    var last := out[|out| - 1];
    if last.end.Some? && Less(last.end.value, iv.start) then out + [iv]
    else if last.end.Some? && (iv.end.None? || Less(last.end.value, iv.end.value)) then out[|out| - 1 := last.(end := iv.end)]
    else out
  }

  ghost predicate MergedUpTo(sorted: seq<Interval>, n: nat, out: seq<Interval>) {
    && 0 < n <= |sorted| && out != [] && Apart(out) && NoneEmpty(out)
    && (forall k :: InSome(out, k) <==> InSome(sorted[..n], k))
    && !Less(sorted[n - 1].start, out[|out| - 1].start)
  }

  lemma InSnoc(ivs: seq<Interval>, iv: Interval, k: Key)
    ensures InSome(ivs + [iv], k) <==> InSome(ivs, k) || iv.Contains(k)
  {
    var all := ivs + [iv];
    assert all[|ivs|] == iv;
    assert forall i :: 0 <= i < |ivs| ==> all[i] == ivs[i];
  }

  /** Two intervals of which the second starts in or right behind the first, as one. */
  lemma Joined(a: Interval, b: Interval, k: Key)
    requires !a.Empty() && !b.Empty() && !Less(b.start, a.start) && (a.end.Some? ==> !Less(a.end.value, b.start))
    ensures var end := if a.end.Some? && (b.end.None? || Less(a.end.value, b.end.value)) then b.end else a.end;
            && !a.(end := end).Empty()
            && (a.(end := end).Contains(k) <==> a.Contains(k) || b.Contains(k))
  {
    var end := if a.end.Some? && (b.end.None? || Less(a.end.value, b.end.value)) then b.end else a.end;
    if a.end.Some? {
      var e := a.end.value;
      LessTotal(k, e);
      if b.end.Some? {
        if Less(e, b.end.value) {
          LessTransitive(a.start, e, b.end.value);
          if Less(k, e) { LessTransitive(k, e, b.end.value); }
        } else {
          if !Less(k, e) { AtMostTransitive(b.end.value, e, k); }
        }
      }
      if !Less(k, e) { AtMostTransitive(b.start, e, k); }
    }
    if !Less(k, b.start) { AtMostTransitive(a.start, b.start, k); }
  }

  lemma MergeOne(sorted: seq<Interval>, n: nat, out: seq<Interval>)
    requires WeaklySorted(StartOf, sorted) && NoneEmpty(sorted) && MergedUpTo(sorted, n, out) && n < |sorted|
    ensures MergedUpTo(sorted, n + 1, MergeStep(out, sorted[n]))
  {
    var iv, last := sorted[n], out[|out| - 1];
    assert sorted[..n + 1] == sorted[..n] + [iv];
    assert !Less(StartOf(sorted[n]), StartOf(sorted[n - 1]));
    AtMostTransitive(last.start, sorted[n - 1].start, iv.start);
    forall k ensures InSome(sorted[..n + 1], k) <==> InSome(sorted[..n], k) || iv.Contains(k) { InSnoc(sorted[..n], iv, k); }
    if last.end.Some? && Less(last.end.value, iv.start) {
      MergeApart(out, iv);
    } else {
      MergeInto(out, iv);
    }
  }

  lemma MergeApart(out: seq<Interval>, iv: Interval)
    requires out != [] && Apart(out) && NoneEmpty(out) && !iv.Empty()
    requires out[|out| - 1].end.Some? && Less(out[|out| - 1].end.value, iv.start)
    ensures Apart(out + [iv]) && NoneEmpty(out + [iv])
    ensures forall k :: InSome(out + [iv], k) <==> InSome(out, k) || iv.Contains(k)
    ensures !Less(iv.start, iv.start)
  {
    LessIrreflexive(iv.start);
    forall k ensures InSome(out + [iv], k) <==> InSome(out, k) || iv.Contains(k) { InSnoc(out, iv, k); }
    var last := out[|out| - 1];
    forall i | 0 <= i < |out| ensures out[i].end.Some? && Less(out[i].end.value, iv.start) {
      if i < |out| - 1 {
        LessTransitive(out[i].end.value, last.start, last.end.value);
        LessTransitive(out[i].end.value, last.end.value, iv.start);
      }
    }
  }

  lemma MergeInto(out: seq<Interval>, iv: Interval)
    requires out != [] && Apart(out) && NoneEmpty(out) && !iv.Empty()
    requires !Less(iv.start, out[|out| - 1].start)
    requires out[|out| - 1].end.Some? ==> !Less(out[|out| - 1].end.value, iv.start)
    ensures var next := MergeStep(out, iv);
            && Apart(next) && NoneEmpty(next) && |next| == |out| && next[|out| - 1].start == out[|out| - 1].start
            && forall k :: InSome(next, k) <==> InSome(out, k) || iv.Contains(k)
  {
    var m := |out| - 1;
    var last := out[m];
    var next := MergeStep(out, iv);
    assert forall i :: 0 <= i < |out| ==> next[i].start == out[i].start && (i < m ==> next[i] == out[i]);
    var before := out[..m];
    assert out == before + [last] && next == before + [next[m]];
    Joined(last, iv, []);
    forall k ensures InSome(next, k) <==> InSome(out, k) || iv.Contains(k) {
      Joined(last, iv, k);
      InSnoc(before, last, k);
      InSnoc(before, next[m], k);
    }
  }
}
