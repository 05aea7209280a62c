/** Content-defined chunking: where `chunk`, `leafChunker` and `SortedBuilder` end a group. The boundary
    hash is an arbitrary function of the key, so every result holds for whatever hash the tree uses. */
module Chunking {
  import opened Bytes
  import opened Sequences

  datatype Options = Options(minEntries: int, maxEntries: int, boundaryBits: nat, hash: Key -> nat)

  function Pow(base: nat, exp: nat): (p: nat)
    ensures base > 0 ==> p > 0
  {
    if exp == 0 then 1 else base * Pow(base, exp - 1)
  }

  /** `Options.validate`. */
  predicate Accepted(o: Options) {
    1 <= o.minEntries <= o.maxEntries && 2 <= o.maxEntries && 1 <= o.boundaryBits <= 63
  }

  /** The low `boundaryBits` bits of the key's hash are zero. */
  predicate IsBoundary(o: Options, key: Key) {
    o.hash(key) % Pow(2, o.boundaryBits) == 0
  }

  predicate ShouldCut(o: Options, size: int, key: Key) {
    size >= o.maxEntries || (size >= o.minEntries && IsBoundary(o, key))
  }

  /** Groups already closed and the group still open, as a streaming chunker holds them. */
  datatype Chunker<T> = Chunker(groups: seq<seq<T>>, open: seq<T>)

  function Add<T>(o: Options, key: T -> Key, c: Chunker<T>, x: T): Chunker<T> {
    var open := c.open + [x];
    if ShouldCut(o, |open|, key(x)) then Chunker(c.groups + [open], []) else Chunker(c.groups, open)
  }

  function Flush<T>(c: Chunker<T>): seq<seq<T>> {
    if c.open == [] then c.groups else c.groups + [c.open]
  }

  /** The chunker after streaming `xs` into `c`. */
  function RunFrom<T>(o: Options, key: T -> Key, c: Chunker<T>, xs: seq<T>): Chunker<T> {
    if xs == [] then c else Add(o, key, RunFrom(o, key, c, xs[..|xs| - 1]), xs[|xs| - 1])
  }

  function Run<T>(o: Options, key: T -> Key, xs: seq<T>): Chunker<T> {
    RunFrom(o, key, Chunker([], []), xs)
  }

  function Chunks<T>(o: Options, key: T -> Key, xs: seq<T>): seq<seq<T>> {
    Flush(Run(o, key, xs))
  }

  function Concat<T>(groups: seq<seq<T>>): seq<T> {
    if groups == [] then [] else groups[0] + Concat(groups[1..])
  }

  lemma {:induction false} ConcatAppend<T>(a: seq<seq<T>>, b: seq<seq<T>>)
    ensures Concat(a + b) == Concat(a) + Concat(b)
  {
    if a == [] {
      assert a + b == b;
    } else {
      ConcatAppend(a[1..], b);
      HeadOfConcat(a, b);
      Regroup(a[0], Concat(a[1..]), Concat(b));
    }
  }

  lemma ConcatSplit<T>(groups: seq<seq<T>>, i: nat)
    requires i <= |groups|
    ensures Concat(groups) == Concat(groups[..i]) + Concat(groups[i..])
  {
    assert groups == groups[..i] + groups[i..];
    ConcatAppend(groups[..i], groups[i..]);
  }

  lemma {:induction false} RunAppend<T>(o: Options, key: T -> Key, c: Chunker<T>, xs: seq<T>, ys: seq<T>)
    ensures RunFrom(o, key, c, xs + ys) == RunFrom(o, key, RunFrom(o, key, c, xs), ys)
  {
    if ys == [] {
      assert xs + ys == xs;
    } else {
      var n := |ys| - 1;
      RunAppend(o, key, c, xs, ys[..n]);
      assert (xs + ys)[..|xs + ys| - 1] == xs + ys[..n];
    }
  }

  /** Closed groups never influence what comes after them. */
  lemma {:induction false} RunShift<T>(o: Options, key: T -> Key, done: seq<seq<T>>, c: Chunker<T>, xs: seq<T>)
    ensures var r := RunFrom(o, key, c, xs);
            RunFrom(o, key, Chunker(done + c.groups, c.open), xs) == Chunker(done + r.groups, r.open)
  {
    if xs != [] {
      var n := |xs| - 1;
      RunShift(o, key, done, c, xs[..n]);
      var r := RunFrom(o, key, c, xs[..n]);
      assert done + (r.groups + [r.open + [xs[n]]]) == (done + r.groups) + [r.open + [xs[n]]];
    }
  }

  /** Greedy chunking resynchronises at a cut: behind a cut the chunks are those of the rest alone. */
  lemma Resynchronise<T>(o: Options, key: T -> Key, xs: seq<T>, ys: seq<T>)
    requires Run(o, key, xs).open == []
    ensures Chunks(o, key, xs + ys) == Chunks(o, key, xs) + Chunks(o, key, ys)
    ensures Run(o, key, xs + ys).groups == Run(o, key, xs).groups + Run(o, key, ys).groups
    ensures Run(o, key, xs + ys).open == Run(o, key, ys).open
  {
    var r := Run(o, key, xs);
    RunAppend(o, key, Chunker([], []), xs, ys);
    RunShift(o, key, r.groups, Chunker([], []), ys);
    assert r.groups + [] == r.groups;
  }

  /** A group that no earlier item of it would have closed, and that (unless it is the last one) its own
      last item closes. */
  predicate Greedy<T>(o: Options, key: T -> Key, group: seq<T>, last: bool) {
    && group != []
    && (forall i :: 0 <= i < |group| - 1 ==> !ShouldCut(o, i + 1, key(group[i])))
    && (last || ShouldCut(o, |group|, key(group[|group| - 1])))
  }

  /** What a chunking of `xs` is, said without running a chunker. */
  ghost predicate IsChunking<T>(o: Options, key: T -> Key, groups: seq<seq<T>>, xs: seq<T>) {
    && Concat(groups) == xs
    && (forall i :: 0 <= i < |groups| ==> Greedy(o, key, groups[i], i == |groups| - 1))
  }

  lemma {:induction false} RunOpen<T>(o: Options, key: T -> Key, group: seq<T>)
    requires Undivided(o, key, group)
    ensures Run(o, key, group) == Chunker([], group)
  {
    if group != [] {
      var n := |group| - 1;
      RunOpen(o, key, group[..n]);
      assert group == group[..n] + [group[n]];
    }
  }

  lemma RunGroup<T>(o: Options, key: T -> Key, group: seq<T>)
    requires Greedy(o, key, group, true)
    ensures Chunks(o, key, group) == [group]
    ensures Greedy(o, key, group, false) ==> Run(o, key, group) == Chunker([group], [])
  {
    var n := |group| - 1;
    RunOpen(o, key, group[..n]);
    assert group == group[..n] + [group[n]];
  }

  lemma {:induction false} RunClosed<T>(o: Options, key: T -> Key, groups: seq<seq<T>>)
    requires forall i :: 0 <= i < |groups| ==> Greedy(o, key, groups[i], false)
    ensures Run(o, key, Concat(groups)) == Chunker(groups, [])
  {
    if groups != [] {
      RunGroup(o, key, groups[0]);
      RunClosed(o, key, groups[1..]);
      Resynchronise(o, key, groups[0], Concat(groups[1..]));
      assert groups == [groups[0]] + groups[1..];
    }
  }

  /** At most one chunking exists ... */
  lemma {:induction false} ChunkingUnique<T>(o: Options, key: T -> Key, groups: seq<seq<T>>, xs: seq<T>)
    requires IsChunking(o, key, groups, xs)
    ensures groups == Chunks(o, key, xs)
  {
    if |groups| == 1 {
      RunGroup(o, key, groups[0]);
      assert xs == groups[0];
    } else if |groups| > 1 {
      RunGroup(o, key, groups[0]);
      ChunkingUnique(o, key, groups[1..], Concat(groups[1..]));
      Resynchronise(o, key, groups[0], Concat(groups[1..]));
    }
  }

  predicate Undivided<T>(o: Options, key: T -> Key, open: seq<T>) {
    forall i :: 0 <= i < |open| ==> !ShouldCut(o, i + 1, key(open[i]))
  }

  predicate AllClosed<T>(o: Options, key: T -> Key, groups: seq<seq<T>>) {
    forall i :: 0 <= i < |groups| ==> Greedy(o, key, groups[i], false)
  }

  lemma {:induction false} RunIsGreedy<T>(o: Options, key: T -> Key, xs: seq<T>)
    requires Accepted(o)
    ensures var c := Run(o, key, xs);
            Concat(c.groups) + c.open == xs && AllClosed(o, key, c.groups) && Undivided(o, key, c.open)
  {
    if xs != [] {
      var n := |xs| - 1;
      RunIsGreedy(o, key, xs[..n]);
      var c := Run(o, key, xs[..n]);
      var open := c.open + [xs[n]];
      assert xs == xs[..n] + [xs[n]];
      if ShouldCut(o, |open|, key(xs[n])) {
        assert Greedy(o, key, open, false);
        ConcatAppend(c.groups, [open]);
        assert Concat([open]) == open;
      } else {
        assert Undivided(o, key, open);
      }
    }
  }

  /** ... and the greedy one is it. */
  lemma ChunksAreChunking<T>(o: Options, key: T -> Key, xs: seq<T>)
    requires Accepted(o)
    ensures IsChunking(o, key, Chunks(o, key, xs), xs)
  {
    RunIsGreedy(o, key, xs);
    var c := Run(o, key, xs);
    if c.open != [] {
      ConcatAppend(c.groups, [c.open]);
      assert Concat([c.open]) == c.open;
    }
  }

  /** Every proper prefix of the groups is closed, and every suffix is the chunking of its own items. */
  lemma ChunksSplit<T>(o: Options, key: T -> Key, xs: seq<T>, i: nat)
    requires Accepted(o) && i <= |Chunks(o, key, xs)|
    ensures var gs := Chunks(o, key, xs);
            && xs == Concat(gs[..i]) + Concat(gs[i..])
            && (i < |gs| ==> Run(o, key, Concat(gs[..i])) == Chunker(gs[..i], []))
            && Chunks(o, key, Concat(gs[i..])) == gs[i..]
  {
    var gs := Chunks(o, key, xs);
    ChunksAreChunking(o, key, xs);
    ConcatSplit(gs, i);
    if i < |gs| { RunClosed(o, key, gs[..i]); }
    ChunkingUnique(o, key, gs[i..], Concat(gs[i..]));
  }

  // What a chunking is, said of the bits of the hash and the two sizes.

  /** The low bits of a number, looked at one by one, are zero. */
  predicate ZeroBits(n: nat, bits: nat) { bits == 0 || (n % 2 == 0 && ZeroBits(n / 2, bits - 1)) }

  lemma HalfOfProduct(n: nat, m: nat)
    requires m > 0
    ensures n % (2 * m) == 0 <==> n % 2 == 0 && (n / 2) % m == 0
  {
    if n % (2 * m) == 0 {
      var q := n / (2 * m);
      assert n == 2 * m * q == 2 * (m * q);
      assert n / 2 == m * q;
      MultipleOf(m, q);
    }
    if n % 2 == 0 && (n / 2) % m == 0 {
      var q := (n / 2) / m;
      assert n == 2 * (m * q) == (2 * m) * q;
      MultipleOf(2 * m, q);
    }
  }

  lemma MultipleOf(m: nat, q: nat)
    requires m > 0
    ensures (m * q) % m == 0
  {
    var x := m * q;
    assert x == m * (x / m) + x % m;
    if x / m < q { Times(m, x / m + 1, q); }
    if x / m > q { Times(m, q + 1, x / m); }
  }

  lemma Times(m: nat, a: nat, b: nat)
    requires a <= b
    ensures m * a <= m * b
  {
  }

  lemma {:induction false} ZeroBitsExact(n: nat, bits: nat)
    ensures ZeroBits(n, bits) <==> n % Pow(2, bits) == 0
  {
    if bits > 0 {
      ZeroBitsExact(n / 2, bits - 1);
      HalfOfProduct(n, Pow(2, bits - 1));
    }
  }

  /** Sizes within the bounds, only the last group below the minimum; a group below the maximum that is not the last ends in
      a key whose low hash bits are zero, and no such key stands inside a group at the minimum or past it. */
  ghost predicate Shaped<T>(o: Options, key: T -> Key, groups: seq<seq<T>>) {
    forall i :: 0 <= i < |groups| ==> ShapedAt(o, key, groups[i], i == |groups| - 1)
  }

  ghost predicate ShapedAt<T>(o: Options, key: T -> Key, group: seq<T>, last: bool) {
    && 1 <= |group| <= o.maxEntries
    && (!last ==> |group| >= o.minEntries)
    && (!last && |group| < o.maxEntries ==> ZeroBits(o.hash(key(group[|group| - 1])), o.boundaryBits))
    && (forall j :: o.minEntries - 1 <= j < |group| - 1 && 0 <= j ==> !ZeroBits(o.hash(key(group[j])), o.boundaryBits))
  }

  lemma GreedyIsShaped<T>(o: Options, key: T -> Key, group: seq<T>, last: bool)
    requires Accepted(o)
    ensures Greedy(o, key, group, last) <==> ShapedAt(o, key, group, last)
  {
    forall i | 0 <= i < |group| ensures IsBoundary(o, key(group[i])) <==> ZeroBits(o.hash(key(group[i])), o.boundaryBits) {
      ZeroBitsExact(o.hash(key(group[i])), o.boundaryBits);
    }
    if Greedy(o, key, group, last) {
      if |group| > 1 { assert !ShouldCut(o, |group| - 1, key(group[|group| - 2])); }
      forall j | o.minEntries - 1 <= j < |group| - 1 && 0 <= j ensures !ZeroBits(o.hash(key(group[j])), o.boundaryBits) {
        assert !ShouldCut(o, j + 1, key(group[j]));
      }
    }
  }

  /** The chunks are the one division of a list into groups of that shape. */
  lemma ChunksShaped<T>(o: Options, key: T -> Key, groups: seq<seq<T>>, xs: seq<T>)
    requires Accepted(o)
    ensures groups == Chunks(o, key, xs) <==> Concat(groups) == xs && Shaped(o, key, groups)
  {
    ChunksAreChunking(o, key, xs);
    forall i | 0 <= i < |groups| ensures Greedy(o, key, groups[i], i == |groups| - 1) <==> ShapedAt(o, key, groups[i], i == |groups| - 1) {
      GreedyIsShaped(o, key, groups[i], i == |groups| - 1);
    }
    if Concat(groups) == xs && Shaped(o, key, groups) { ChunkingUnique(o, key, groups, xs); }
  }

  /** Cuts are local: behind a key whose low hash bits are zero, with the minimum reached, the groups are the chunks of the
      rest alone, whatever came before. */
  lemma CutsAreLocal<T>(o: Options, key: T -> Key, xs: seq<T>, e: T, ys: seq<T>)
    requires Accepted(o) && ZeroBits(o.hash(key(e)), o.boundaryBits)
    requires var before := Chunks(o, key, xs + [e]); before != [] && |before[|before| - 1]| >= o.minEntries
    ensures Chunks(o, key, xs + [e] + ys) == Chunks(o, key, xs + [e]) + Chunks(o, key, ys)
  {
    var head := xs + [e];
    assert head[..|head| - 1] == xs;
    ZeroBitsExact(o.hash(key(e)), o.boundaryBits);
    var c := Run(o, key, xs);
    assert Run(o, key, head) == Add(o, key, c, e);
    Resynchronise(o, key, head, ys);
  }

  /** `chunk`: the index loop over a slice. */
  method Chunk<T>(o: Options, key: T -> Key, xs: seq<T>) returns (groups: seq<seq<T>>)
    requires Accepted(o)
    ensures Concat(groups) == xs && Shaped(o, key, groups)
    ensures groups == Chunks(o, key, xs)
  {
    groups := [];
    var start := 0;
    for i := 0 to |xs|
      invariant 0 <= start <= i
      invariant Run(o, key, xs[..i]) == Chunker(groups, xs[start..i])
    {
      assert xs[..i + 1][..i] == xs[..i] && xs[start..i] + [xs[i]] == xs[start..i + 1];
      if ShouldCut(o, i - start + 1, key(xs[i])) {
        groups := groups + [xs[start..i + 1]];
        start := i + 1;
      }
    }
    assert xs[..|xs|] == xs;
    if start < |xs| {
      groups := groups + [xs[start..]];
    }
    ChunksShaped(o, key, groups, xs);
  }

  // Sizes of groups, and with them how fast a level of the tree shrinks.

  /** No item but the last one has a boundary key. */
  predicate NoInnerBoundary<T>(o: Options, key: T -> Key, xs: seq<T>) {
    forall i :: 0 <= i < |xs| - 1 ==> !IsBoundary(o, key(xs[i]))
  }

  /** The smallest size of a closed group: the configured minimum, or, when that is 1 and no inner key is
      a boundary, the maximum, which alone then closes groups. */
  function Fanout(o: Options): int {
    if o.minEntries >= 2 then o.minEntries else o.maxEntries
  }

  predicate Shrinks<T>(o: Options, key: T -> Key, xs: seq<T>) {
    o.minEntries >= 2 || NoInnerBoundary(o, key, xs)
  }

  lemma {:induction false} ConcatAtLeast<T>(groups: seq<seq<T>>, m: nat)
    requires groups != [] && m >= 1
    requires forall i :: 0 <= i < |groups| ==> groups[i] != []
    requires forall i :: 0 <= i < |groups| - 1 ==> |groups[i]| >= m
    ensures m * (|groups| - 1) + 1 <= |Concat(groups)|
  {
    if |groups| > 1 { ConcatAtLeast(groups[1..], m); }
  }

  /** A key inside the concatenation but not at its end is not the last one. */
  lemma {:induction false} GroupEnd<T>(groups: seq<seq<T>>, i: nat) returns (at: nat)
    requires i < |groups| && forall j :: 0 <= j < |groups| ==> groups[j] != []
    ensures at < |Concat(groups)| && Concat(groups)[at] == groups[i][|groups[i]| - 1]
    ensures i < |groups| - 1 <==> at < |Concat(groups)| - 1
    ensures at == |Concat(groups[..i + 1])| - 1
  {
    if i == 0 {
      at := |groups[0]| - 1;
      assert groups[..1] == [groups[0]] && Concat([groups[0]]) == groups[0];
      if |groups| > 1 { assert groups[1..][0] != []; }
    } else {
      var rest := GroupEnd(groups[1..], i - 1);
      at := |groups[0]| + rest;
      assert groups[..i + 1][1..] == groups[1..][..i];
    }
  }

  lemma ChunksShrink<T>(o: Options, key: T -> Key, xs: seq<T>)
    requires Accepted(o) && xs != [] && Shrinks(o, key, xs)
    ensures var gs := Chunks(o, key, xs);
            gs != [] && Fanout(o) * (|gs| - 1) + 1 <= |xs|
  {
    ChunksAreChunking(o, key, xs);
    var gs := Chunks(o, key, xs);
    forall i | 0 <= i < |gs| - 1 ensures |gs[i]| >= Fanout(o) {
      var at := GroupEnd(gs, i);
      assert ShouldCut(o, |gs[i]|, key(gs[i][|gs[i]| - 1]));
    }
    ConcatAtLeast(gs, Fanout(o));
  }
}
