/** What the row merge of `RowMerge` gives, key by key, and what follows: symmetry, and the table-level
    shortcuts. */
module RowMergeSpec {
  import opened Bytes
  import opened Overlays
  import opened Sorting
  import opened Prolly
  import opened EditMerge
  import opened ProllyReads
  import opened RowMerge

  function Lookup(es: seq<Entry>, k: Key): Option<Blob> { if k in Contents(es) then Some(Contents(es)[k]) else None }

  /** The choice at a key of three versions. */
  function ChoiceAt(bs: seq<Entry>, ls: seq<Entry>, rs: seq<Entry>, res: Resolutions, k: Key): Choice {
    Choose(Lookup(bs, k), Lookup(ls, k), Lookup(rs, k), Resolved(res, k))
  }

  function Selected(c: Choice): Option<Blob> { if c.Take? then c.value else None }

  ghost predicate NotBelow(es: seq<Entry>, k: Key) { es != [] ==> !Less(es[0].key, k) }

  /** Passing a key that no entry is below. */
  lemma TailOf(es: seq<Entry>, k: Key, j: Key)
    requires Sorted(EntryKey, es) && NotBelow(es, k)
    ensures Head(es, k) == Lookup(es, k) && Lookup(Tail(es, k), k) == None
    ensures j != k ==> Lookup(Tail(es, k), j) == Lookup(es, j)
    ensures Sorted(EntryKey, Tail(es, k)) && AllAbove(EntryKey, Tail(es, k), k)
  {
    if es != [] {
      LessTotal(es[0].key, k);
      TailAbove(EntryKey, es, k);
      if es[0].key == k {
        ContentsCons(es[0], es[1..]);
        assert es == [es[0]] + es[1..];
        ContentsLacks(es[1..], k);
      } else {
        HeadAbove(EntryKey, es, k);
        ContentsLacks(es, k);
      }
    }
  }

  lemma LeastIsLeast(bs: seq<Entry>, ls: seq<Entry>, rs: seq<Entry>)
    ensures var k := Least(bs, ls, rs);
            && (k.None? <==> bs == [] && ls == [] && rs == [])
            && (k.Some? ==> NotBelow(bs, k.value) && NotBelow(ls, k.value) && NotBelow(rs, k.value))
  {
    var a := Smaller(None, bs);
    var b := Smaller(a, ls);
    var k := Least(bs, ls, rs);
    if bs != [] { LessIrreflexive(bs[0].key); }
    if ls != [] { LessIrreflexive(ls[0].key); }
    if rs != [] { LessIrreflexive(rs[0].key); }
    if bs != [] && ls != [] && Less(ls[0].key, bs[0].key) { LessAsymmetric(ls[0].key, bs[0].key); }
    if b.Some? && rs != [] && Less(rs[0].key, b.value) {
      if bs != [] { BelowBoth(rs[0].key, b.value, bs[0].key); }
      if ls != [] { BelowBoth(rs[0].key, b.value, ls[0].key); }
    }
  }

  lemma BelowBoth(k: Key, b: Key, x: Key)
    requires Less(k, b) && !Less(x, b)
    ensures !Less(x, k)
  {
    LessAsymmetric(k, b);
    AtMostTransitive(k, b, x);
  }

  /** Everything merged lies above what all versions lie above. */
  lemma {:induction false} MergedAbove(bs: seq<Entry>, ls: seq<Entry>, rs: seq<Entry>, res: Resolutions, k: Key)
    requires AllAbove(EntryKey, bs, k) && AllAbove(EntryKey, ls, k) && AllAbove(EntryKey, rs, k)
    requires MergeFrom(bs, ls, rs, res).Merged?
    ensures AllAbove(EntryKey, MergeFrom(bs, ls, rs, res).entries, k)
    ensures AllAbove(ConflictKey, MergeFrom(bs, ls, rs, res).conflicts, k)
    decreases |bs| + |ls| + |rs|
  {
    match Least(bs, ls, rs)
    case None =>
    case Some(j) =>
      LeastShrinks(bs, ls, rs, j);
      LeastAbove(bs, ls, rs, j, k);
      MergedAbove(Tail(bs, j), Tail(ls, j), Tail(rs, j), res, k);
      var b, l, r := Head(bs, j), Head(ls, j), Head(rs, j);
      AboveBehind(j, Choose(b, l, r, Resolved(res, j)), b, l, r, MergeFrom(Tail(bs, j), Tail(ls, j), Tail(rs, j), res), k);
  }

  lemma AboveBehind(j: Key, c: Choice, b: Option<Blob>, l: Option<Blob>, r: Option<Blob>, rest: Merged, k: Key)
    requires rest.Merged? && Less(k, j) && AllAbove(EntryKey, rest.entries, k) && AllAbove(ConflictKey, rest.conflicts, k)
    ensures var m := Behind(Emitted(j, c), Conflicting(j, c, b, l, r), rest);
            AllAbove(EntryKey, m.entries, k) && AllAbove(ConflictKey, m.conflicts, k)
  {
  }

  lemma LeastAbove(bs: seq<Entry>, ls: seq<Entry>, rs: seq<Entry>, j: Key, k: Key)
    requires AllAbove(EntryKey, bs, k) && AllAbove(EntryKey, ls, k) && AllAbove(EntryKey, rs, k)
    requires Least(bs, ls, rs) == Some(j)
    ensures Less(k, j)
    ensures AllAbove(EntryKey, Tail(bs, j), k) && AllAbove(EntryKey, Tail(ls, j), k) && AllAbove(EntryKey, Tail(rs, j), k)
  {
    if bs != [] { assert Less(k, EntryKey(bs[0])); }
    if ls != [] { assert Less(k, EntryKey(ls[0])); }
    if rs != [] { assert Less(k, EntryKey(rs[0])); }
  }

  ghost predicate ConflictsAt(cs: seq<RowConflict>, k: Key) { exists i :: 0 <= i < |cs| && cs[i].key == k }

  /** What a merge says of one key. */
  ghost predicate Answers(m: Merged, c: Choice, k: Key, b: Option<Blob>, l: Option<Blob>, r: Option<Blob>) {
    && m.Merged? && !c.Invalid?
    && Lookup(m.entries, k) == Selected(c)
    && (ConflictsAt(m.conflicts, k) <==> c.Conflict?)
    && forall i :: 0 <= i < |m.conflicts| && m.conflicts[i].key == k ==> m.conflicts[i] == RowConflict(k, b, l, r)
  }

  ghost predicate InOrder(m: Merged) {
    m.Merged? && Sorted(EntryKey, m.entries) && Sorted(ConflictKey, m.conflicts)
  }

  /** One key's part in front of the rest. */
  lemma InFront(k: Key, c: Choice, b: Option<Blob>, l: Option<Blob>, r: Option<Blob>, rest: Merged)
    requires InOrder(rest) && AllAbove(EntryKey, rest.entries, k) && AllAbove(ConflictKey, rest.conflicts, k) && !c.Invalid?
    ensures var m := Behind(Emitted(k, c), Conflicting(k, c, b, l, r), rest);
            && InOrder(m) && Answers(m, c, k, b, l, r)
            && forall j :: j != k ==> Lookup(m.entries, j) == Lookup(rest.entries, j)
                                      && (ConflictsAt(m.conflicts, j) <==> ConflictsAt(rest.conflicts, j))
  {
    EntriesInFront(k, c, rest.entries);
    ConflictsInFront(k, c, b, l, r, rest.conflicts);
  }

  lemma EntriesInFront(k: Key, c: Choice, rest: seq<Entry>)
    requires Sorted(EntryKey, rest) && AllAbove(EntryKey, rest, k)
    ensures Sorted(EntryKey, Emitted(k, c) + rest)
    ensures Lookup(Emitted(k, c) + rest, k) == Selected(c)
    ensures forall j :: j != k ==> Lookup(Emitted(k, c) + rest, j) == Lookup(rest, j)
  {
    LessIrreflexive(k);
    ContentsLacks(rest, k);
    if c.Take? && c.value.Some? {
      SortedCons(EntryKey, Entry(k, c.value.value), rest);
      ContentsCons(Entry(k, c.value.value), rest);
    } else {
      assert [] + rest == rest;
    }
  }

  lemma ConflictsInFront(k: Key, c: Choice, b: Option<Blob>, l: Option<Blob>, r: Option<Blob>, rest: seq<RowConflict>)
    requires Sorted(ConflictKey, rest) && AllAbove(ConflictKey, rest, k)
    ensures var all := Conflicting(k, c, b, l, r) + rest;
            && Sorted(ConflictKey, all) && (ConflictsAt(all, k) <==> c.Conflict?)
            && (forall i :: 0 <= i < |all| && all[i].key == k ==> all[i] == RowConflict(k, b, l, r))
            && forall j :: j != k ==> (ConflictsAt(all, j) <==> ConflictsAt(rest, j))
  {
    LessIrreflexive(k);
    forall i | 0 <= i < |rest| ensures rest[i].key != k { assert Less(k, ConflictKey(rest[i])); }
    var all := Conflicting(k, c, b, l, r) + rest;
    if c.Conflict? {
      SortedCons(ConflictKey, RowConflict(k, b, l, r), rest);
      assert all[0].key == k;
      forall j | j != k ensures ConflictsAt(all, j) <==> ConflictsAt(rest, j) {
        if ConflictsAt(rest, j) {
          var i :| 0 <= i < |rest| && rest[i].key == j;
          assert all[i + 1].key == j;
        }
      }
    } else {
      assert all == rest;
    }
  }

  /** The merge refines the choice key by key: in order, the chosen value of every key, a conflict exactly where the
      versions differ pairwise without a resolution; and it is refused exactly if some key has an unknown resolution. */
  lemma {:induction false} MergeIsPointwise(bs: seq<Entry>, ls: seq<Entry>, rs: seq<Entry>, res: Resolutions, k: Key)
    requires Sorted(EntryKey, bs) && Sorted(EntryKey, ls) && Sorted(EntryKey, rs)
    ensures var m := MergeFrom(bs, ls, rs, res);
            if m.Refused? then ChoiceAt(bs, ls, rs, res, m.key).Invalid?
            else InOrder(m) && Answers(m, ChoiceAt(bs, ls, rs, res, k), k, Lookup(bs, k), Lookup(ls, k), Lookup(rs, k))
    decreases |bs| + |ls| + |rs|
  {
    LeastIsLeast(bs, ls, rs);
    match Least(bs, ls, rs)
    case None =>
    case Some(j) =>
      LeastShrinks(bs, ls, rs, j);
      Unrolled(bs, ls, rs, res, j);
      TailOf(bs, j, k);
      TailOf(ls, j, k);
      TailOf(rs, j, k);
      var bt, lt, rt := Tail(bs, j), Tail(ls, j), Tail(rs, j);
      var rest := MergeFrom(bt, lt, rt, res);
      MergeIsPointwise(bt, lt, rt, res, k);
      var c := ChoiceAt(bs, ls, rs, res, j);
      if !c.Invalid? {
        if rest.Refused? {
          RefusedBehind(bs, ls, rs, res, j, rest.key);
        } else {
          MergedAbove(bt, lt, rt, res, j);
          InFront(j, c, Lookup(bs, j), Lookup(ls, j), Lookup(rs, j), rest);
          if k != j {
            OtherKey(j, c, Lookup(bs, j), Lookup(ls, j), Lookup(rs, j), rest, k,
                     ChoiceAt(bs, ls, rs, res, k), Lookup(bs, k), Lookup(ls, k), Lookup(rs, k));
          }
        }
      }
  }

  /** The merge of sorted versions, one key unrolled. */
  lemma Unrolled(bs: seq<Entry>, ls: seq<Entry>, rs: seq<Entry>, res: Resolutions, j: Key)
    requires Sorted(EntryKey, bs) && Sorted(EntryKey, ls) && Sorted(EntryKey, rs)
    requires Least(bs, ls, rs) == Some(j) && NotBelow(bs, j) && NotBelow(ls, j) && NotBelow(rs, j)
    ensures var c := ChoiceAt(bs, ls, rs, res, j);
            MergeFrom(bs, ls, rs, res) ==
              if c.Invalid? then Refused(j)
              else Behind(Emitted(j, c), Conflicting(j, c, Lookup(bs, j), Lookup(ls, j), Lookup(rs, j)),
                          MergeFrom(Tail(bs, j), Tail(ls, j), Tail(rs, j), res))
  {
    TailOf(bs, j, j);
    TailOf(ls, j, j);
    TailOf(rs, j, j);
  }

  /** What the rest of a merge answers for a key is what the whole answers. */
  lemma OtherKey(j: Key, c: Choice, b: Option<Blob>, l: Option<Blob>, r: Option<Blob>, rest: Merged,
                 k: Key, ck: Choice, kb: Option<Blob>, kl: Option<Blob>, kr: Option<Blob>)
    requires k != j && InOrder(rest) && Answers(rest, ck, k, kb, kl, kr)
    requires AllAbove(EntryKey, rest.entries, j) && AllAbove(ConflictKey, rest.conflicts, j) && !c.Invalid?
    ensures Answers(Behind(Emitted(j, c), Conflicting(j, c, b, l, r), rest), ck, k, kb, kl, kr)
  {
    InFront(j, c, b, l, r, rest);
    SameConflicts(Conflicting(j, c, b, l, r), rest.conflicts, j, k);
  }

  /** A key refused behind another keeps its versions. */
  lemma RefusedBehind(bs: seq<Entry>, ls: seq<Entry>, rs: seq<Entry>, res: Resolutions, j: Key, k: Key)
    requires Sorted(EntryKey, bs) && Sorted(EntryKey, ls) && Sorted(EntryKey, rs)
    requires NotBelow(bs, j) && NotBelow(ls, j) && NotBelow(rs, j)
    requires ChoiceAt(Tail(bs, j), Tail(ls, j), Tail(rs, j), res, k).Invalid?
    ensures ChoiceAt(bs, ls, rs, res, k).Invalid?
  {
    TailOf(bs, j, k);
    TailOf(ls, j, k);
    TailOf(rs, j, k);
  }

  lemma SameConflicts(front: seq<RowConflict>, rest: seq<RowConflict>, j: Key, k: Key)
    requires forall i :: 0 <= i < |front| ==> front[i].key == j
    ensures k != j ==> forall i :: 0 <= i < |front + rest| && (front + rest)[i].key == k ==> exists n :: 0 <= n < |rest| && rest[n] == (front + rest)[i]
  {
    if k != j {
      forall i | 0 <= i < |front + rest| && (front + rest)[i].key == k ensures exists n :: 0 <= n < |rest| && rest[n] == (front + rest)[i] {
        assert i >= |front| && rest[i - |front|] == (front + rest)[i];
      }
    }
  }

  /** Conversely, a merge with an unknown resolution at a contested key is refused. */
  lemma RefusedExactly(bs: seq<Entry>, ls: seq<Entry>, rs: seq<Entry>, res: Resolutions)
    requires Sorted(EntryKey, bs) && Sorted(EntryKey, ls) && Sorted(EntryKey, rs)
    ensures MergeFrom(bs, ls, rs, res).Refused? <==> exists k :: ChoiceAt(bs, ls, rs, res, k).Invalid?
  {
    MergeIsPointwise(bs, ls, rs, res, []);
    if k :| ChoiceAt(bs, ls, rs, res, k).Invalid? { MergeIsPointwise(bs, ls, rs, res, k); }
  }

  // What a merge gives, said of the versions alone.

  /** Three versions of which no two are the same. */
  predicate Contested<T(==)>(b: T, l: T, r: T) { b != l && l != r && r != b }

  /** The outcome at one key: the side that changed, or what both made of it; where all three differ, what the resolution
      names, and without one a conflict of the three and no row. */
  lemma ResolutionsMean(bs: seq<Entry>, ls: seq<Entry>, rs: seq<Entry>, res: Resolutions, k: Key)
    requires Sorted(EntryKey, bs) && Sorted(EntryKey, ls) && Sorted(EntryKey, rs) && MergeFrom(bs, ls, rs, res).Merged?
    ensures var m, b, l, r := MergeFrom(bs, ls, rs, res), Lookup(bs, k), Lookup(ls, k), Lookup(rs, k);
            && (l == r ==> Lookup(m.entries, k) == l)
            && (l == b ==> Lookup(m.entries, k) == r)
            && (r == b ==> Lookup(m.entries, k) == l)
            && (Contested(b, l, r) && k in res ==>
                  && (res[k] == TakeBase ==> Lookup(m.entries, k) == b)
                  && (res[k] == TakeLocal ==> Lookup(m.entries, k) == l)
                  && (res[k] == TakeRemote ==> Lookup(m.entries, k) == r)
                  && (res[k] == TakeDelete ==> Lookup(m.entries, k) == None)
                  && res[k] != Unknown)
            && (Contested(b, l, r) && k !in res ==> Lookup(m.entries, k) == None && RowConflict(k, b, l, r) in m.conflicts)
            && (forall c :: c in m.conflicts && c.key == k ==> Contested(b, l, r) && k !in res && c == RowConflict(k, b, l, r))
  {
    MergeIsPointwise(bs, ls, rs, res, k);
    ConflictsAre(MergeFrom(bs, ls, rs, res), ChoiceAt(bs, ls, rs, res, k), k, Lookup(bs, k), Lookup(ls, k), Lookup(rs, k));
  }

  lemma ConflictsAre(m: Merged, c: Choice, k: Key, b: Option<Blob>, l: Option<Blob>, r: Option<Blob>)
    requires Answers(m, c, k, b, l, r)
    ensures forall x :: x in m.conflicts && x.key == k ==> c.Conflict? && x == RowConflict(k, b, l, r)
    ensures c.Conflict? ==> RowConflict(k, b, l, r) in m.conflicts
  {
    forall x | x in m.conflicts && x.key == k ensures ConflictsAt(m.conflicts, k) && x == RowConflict(k, b, l, r) {
      var i :| 0 <= i < |m.conflicts| && m.conflicts[i] == x;
    }
  }

  /** The merge is refused if and only if some key has three different versions and an unknown resolution. */
  lemma RefusedForUnknown(bs: seq<Entry>, ls: seq<Entry>, rs: seq<Entry>, res: Resolutions)
    requires Sorted(EntryKey, bs) && Sorted(EntryKey, ls) && Sorted(EntryKey, rs)
    ensures MergeFrom(bs, ls, rs, res).Refused? <==>
              exists k :: k in res && res[k] == Unknown && Contested(Lookup(bs, k), Lookup(ls, k), Lookup(rs, k))
  {
    RefusedExactly(bs, ls, rs, res);
    forall k
      ensures ChoiceAt(bs, ls, rs, res, k).Invalid? <==>
                k in res && res[k] == Unknown && Contested(Lookup(bs, k), Lookup(ls, k), Lookup(rs, k))
    {
      ConflictIsPairwise(Lookup(bs, k), Lookup(ls, k), Lookup(rs, k), Resolved(res, k));
    }
  }

  // Symmetry.

  function Mirror(r: Resolution): Resolution {
    match r case TakeLocal => TakeRemote case TakeRemote => TakeLocal case _ => r
  }

  function MirrorAll(res: Resolutions): Resolutions { map k | k in res :: Mirror(res[k]) }

  function MirrorConflict(c: RowConflict): RowConflict { RowConflict(c.key, c.base, c.remote, c.local) }

  function MirrorMerged(m: Merged): Merged {
    if m.Refused? then m
    else Merged(m.entries, seq(|m.conflicts|, i requires 0 <= i < |m.conflicts| => MirrorConflict(m.conflicts[i])))
  }

  lemma LeastMirrored(bs: seq<Entry>, ls: seq<Entry>, rs: seq<Entry>)
    ensures Least(bs, ls, rs) == Least(bs, rs, ls)
  {
    LeastIsLeast(bs, ls, rs);
    LeastIsLeast(bs, rs, ls);
    var a, b := Least(bs, ls, rs), Least(bs, rs, ls);
    if a.Some? && b.Some? { LessTotal(a.value, b.value); }
  }

  lemma ChooseMirrored(b: Option<Blob>, l: Option<Blob>, r: Option<Blob>, res: Resolutions, k: Key)
    ensures Choose(b, r, l, Resolved(MirrorAll(res), k)) == Choose(b, l, r, Resolved(res, k))
  {
  }

  lemma OneKey(bs: seq<Entry>, ls: seq<Entry>, rs: seq<Entry>, res: Resolutions, k: Key)
    requires Least(bs, ls, rs) == Some(k)
    ensures var b, l, r := Head(bs, k), Head(ls, k), Head(rs, k);
            var c := Choose(b, l, r, Resolved(res, k));
            MergeFrom(bs, ls, rs, res) ==
              if c.Invalid? then Refused(k)
              else Behind(Emitted(k, c), Conflicting(k, c, b, l, r), MergeFrom(Tail(bs, k), Tail(ls, k), Tail(rs, k), res))
  {
  }

  lemma MirrorBehind(k: Key, c: Choice, b: Option<Blob>, l: Option<Blob>, r: Option<Blob>, rest: Merged)
    ensures MirrorMerged(Behind(Emitted(k, c), Conflicting(k, c, b, l, r), rest))
            == Behind(Emitted(k, c), Conflicting(k, c, b, r, l), MirrorMerged(rest))
  {
  }

  /** Swapping the two sides, and their resolutions with them, swaps the conflicts' sides and changes nothing else. */
  lemma {:induction false} MergeIsSymmetric(bs: seq<Entry>, ls: seq<Entry>, rs: seq<Entry>, res: Resolutions)
    ensures MergeFrom(bs, rs, ls, MirrorAll(res)) == MirrorMerged(MergeFrom(bs, ls, rs, res))
    decreases |bs| + |ls| + |rs|
  {
    LeastMirrored(bs, ls, rs);
    match Least(bs, ls, rs)
    case None =>
    case Some(k) =>
      LeastShrinks(bs, ls, rs, k);
      MergeIsSymmetric(Tail(bs, k), Tail(ls, k), Tail(rs, k), res);
      var b, l, r := Head(bs, k), Head(ls, k), Head(rs, k);
      ChooseMirrored(b, l, r, res, k);
      OneKey(bs, ls, rs, res, k);
      OneKey(bs, rs, ls, MirrorAll(res), k);
      MirrorBehind(k, Choose(b, l, r, Resolved(res, k)), b, l, r, MergeFrom(Tail(bs, k), Tail(ls, k), Tail(rs, k), res));
  }

  // The table-level shortcuts.

  lemma NothingContested(bs: seq<Entry>, ls: seq<Entry>, rs: seq<Entry>, res: Resolutions, kept: seq<Entry>)
    requires Sorted(EntryKey, bs) && Sorted(EntryKey, ls) && Sorted(EntryKey, rs) && Sorted(EntryKey, kept)
    requires forall k :: ChoiceAt(bs, ls, rs, res, k) == Take(Lookup(kept, k))
    ensures MergeFrom(bs, ls, rs, res) == Merged(kept, [])
  {
    var m := MergeFrom(bs, ls, rs, res);
    MergeIsPointwise(bs, ls, rs, res, []);
    if m.Merged? {
      forall k ensures Lookup(m.entries, k) == Lookup(kept, k) && !ConflictsAt(m.conflicts, k) { MergeIsPointwise(bs, ls, rs, res, k); }
      if m.conflicts != [] { assert ConflictsAt(m.conflicts, m.conflicts[0].key); }
      assert forall k :: k in Contents(m.entries) <==> Lookup(m.entries, k).Some?;
      assert forall k :: k in Contents(kept) <==> Lookup(kept, k).Some?;
      SameLookups(m.entries, kept);
      ContentsDetermine(m.entries, kept);
    }
  }

  lemma SameLookups(a: seq<Entry>, b: seq<Entry>)
    requires forall k :: Lookup(a, k) == Lookup(b, k)
    ensures Contents(a) == Contents(b)
  {
    forall k ensures k in Contents(a) <==> k in Contents(b) { assert Lookup(a, k) == Lookup(b, k); }
    forall k | k in Contents(a) ensures Contents(a)[k] == Contents(b)[k] { assert Lookup(a, k) == Lookup(b, k); }
  }

  /** Keeping a whole table where both sides agree, or where one side left the base alone, gives the rows the row
      merge would give, whatever the resolutions. */
  lemma ShortcutsAgree(bs: seq<Entry>, ls: seq<Entry>, rs: seq<Entry>, res: Resolutions)
    requires Sorted(EntryKey, bs) && Sorted(EntryKey, ls) && Sorted(EntryKey, rs)
    ensures ls == rs ==> MergeFrom(bs, ls, rs, res) == Merged(ls, [])
    ensures ls == bs ==> MergeFrom(bs, ls, rs, res) == Merged(rs, [])
    ensures rs == bs ==> MergeFrom(bs, ls, rs, res) == Merged(ls, [])
  {
    if ls == rs { NothingContested(bs, ls, rs, res, ls); }
    if ls == bs { NothingContested(bs, ls, rs, res, rs); }
    if rs == bs { NothingContested(bs, ls, rs, res, ls); }
  }

  // One table of `MergeSnapshots`.

  datatype Table = Table(schema: Blob, root: Node, indexes: map<string, Node>)

  datatype TableOutcome = Kept(version: Option<Table>) | SchemaConflict | BadResolution | Rows(merged: Merged)

  function RootOf(v: Option<Table>): Option<Node> { if v.Some? then Some(v.value.root) else None }

  ghost predicate Readable(v: Option<Table>) {
    v.Some? ==> WellLinked(v.value.root) && Sorted(EntryKey, EntriesOf(v.value.root))
  }

  /** Rows of the three versions mean the same. */
  predicate Comparable(b: Option<Table>, l: Option<Table>, r: Option<Table>) {
    b.Some? && l.Some? && r.Some? && b.value.schema == l.value.schema && b.value.schema == r.value.schema
  }

  /** What `MergeTable` makes of three versions. */
  ghost predicate TableMerges(b: Option<Table>, l: Option<Table>, r: Option<Table>, choice: Option<Resolution>, res: Resolutions, o: TableOutcome)
    requires Readable(b) && Readable(l) && Readable(r)
  {
    && (l == r ==> o == Kept(l)) && (l == b ==> o == Kept(r)) && (r == b ==> o == Kept(l))
    && (Comparable(b, l, r) ==>
          var m := MergeFrom(RowsOf(RootOf(b)), RowsOf(RootOf(l)), RowsOf(RootOf(r)), res);
          if Contested(b, l, r) then o == Rows(m) else o.Kept? && o.version.Some? && m == Merged(RowsOf(RootOf(o.version)), []))
    && (!Comparable(b, l, r) && Contested(b, l, r) ==>
          o == match choice
               case None => SchemaConflict
               case Some(TakeBase) => Kept(b)
               case Some(TakeLocal) => Kept(l)
               case Some(TakeRemote) => Kept(r)
               case Some(TakeDelete) => Kept(None)
               case Some(Unknown) => BadResolution)
  }

  /** The table-level cases: a version is kept whole, or the rows are merged, and either way comparable versions
      come out as the row merge of their rows. Versions that are not comparable conflict exactly when they differ
      pairwise and nothing was chosen. */
  method MergeTable(b: Option<Table>, l: Option<Table>, r: Option<Table>, choice: Option<Resolution>, res: Resolutions) returns (o: TableOutcome)
    requires Readable(b) && Readable(l) && Readable(r)
    ensures TableMerges(b, l, r, choice, res, o)
    ensures o.Rows? <==> Contested(b, l, r) && b.Some? && l.Some? && r.Some? && b.value.schema == l.value.schema == r.value.schema
    ensures o.SchemaConflict? <==> !Comparable(b, l, r) && Contested(b, l, r) && choice.None?
  {
    if Comparable(b, l, r) { ShortcutsAgree(RowsOf(RootOf(b)), RowsOf(RootOf(l)), RowsOf(RootOf(r)), res); }
    if l == r { return Kept(l); }
    if l == b { return Kept(r); }
    if r == b { return Kept(l); }
    if !Comparable(b, l, r) {
      match choice
      case None => return SchemaConflict;
      case Some(TakeBase) => return Kept(b);
      case Some(TakeLocal) => return Kept(l);
      case Some(TakeRemote) => return Kept(r);
      case Some(TakeDelete) => return Kept(None);
      case Some(Unknown) => return BadResolution;
    }
    var m := MergeRows(RootOf(b), RootOf(l), RootOf(r), res);
    return Rows(m);
  }

  // The default database.

  datatype DefaultOutcome = Default(name: Blob) | DefaultConflict | BadDefault

  /** The name that comes of three: that of the side that changed it, or, where all three differ, the one chosen. */
  predicate DefaultIs(b: Blob, l: Blob, r: Blob, choice: Option<Resolution>, name: Blob) {
    && (l == r ==> name == l) && (l == b ==> name == r) && (r == b ==> name == l)
    && (Contested(b, l, r) ==>
          || (choice == Some(TakeBase) && name == b)
          || (choice == Some(TakeLocal) && name == l)
          || (choice == Some(TakeRemote) && name == r))
  }

  /** The catalog's part of `MergeSnapshots`: the default database. It cannot be deleted. */
  method MergeDefault(b: Blob, l: Blob, r: Blob, choice: Option<Resolution>) returns (o: DefaultOutcome)
    ensures o.Default? ==> DefaultIs(b, l, r, choice, o.name)
    ensures o.DefaultConflict? <==> Contested(b, l, r) && choice.None?
    ensures o.BadDefault? <==> Contested(b, l, r) && (choice == Some(TakeDelete) || choice == Some(Unknown))
  {
    if l == r { return Default(l); }
    if l == b { return Default(r); }
    if r == b { return Default(l); }
    match choice
    case Some(TakeBase) => return Default(b);
    case Some(TakeLocal) => return Default(l);
    case Some(TakeRemote) => return Default(r);
    case None => return DefaultConflict;
    case Some(_) => return BadDefault;
  }

  // All of `MergeSnapshots`.

  datatype Catalog = Catalog(default: Blob, tables: map<string, Table>)

  /** The caller's choices: for the default database, for whole tables, and for each table's rows. */
  datatype Choices = Choices(default: Option<Resolution>, tables: map<string, Resolution>, rows: map<string, Resolutions>)

  datatype CatalogOutcome = CatalogMerged(default: Blob, tables: map<string, TableOutcome>) | CatalogConflict | CatalogRefused

  function VersionOf(c: Catalog, name: string): Option<Table> { if name in c.tables then Some(c.tables[name]) else None }

  function TableChoice(choices: Choices, name: string): Option<Resolution> {
    if name in choices.tables then Some(choices.tables[name]) else None
  }

  function RowChoices(choices: Choices, name: string): Resolutions { if name in choices.rows then choices.rows[name] else map[] }

  predicate Refusal(o: TableOutcome) { o.BadResolution? || (o.Rows? && o.merged.Refused?) }

  ghost predicate AllReadable(c: Catalog) { forall name :: Readable(VersionOf(c, name)) }

  ghost predicate MergesAt(b: Catalog, l: Catalog, r: Catalog, choices: Choices, name: string, o: TableOutcome)
    requires AllReadable(b) && AllReadable(l) && AllReadable(r)
  {
    TableMerges(VersionOf(b, name), VersionOf(l, name), VersionOf(r, name), TableChoice(choices, name), RowChoices(choices, name), o)
  }

  /** The default database differs in all three and the choice names none of them. */
  predicate BadChoice(b: Catalog, l: Catalog, r: Catalog, choices: Choices) {
    Contested(b.default, l.default, r.default) && (choices.default == Some(TakeDelete) || choices.default == Some(Unknown))
  }

  /** Some contested row, or the table itself, has an unknown resolution. */
  ghost predicate BadTable(b: Catalog, l: Catalog, r: Catalog, choices: Choices, name: string)
    requires AllReadable(b) && AllReadable(l) && AllReadable(r)
  {
    var x, y, z := VersionOf(b, name), VersionOf(l, name), VersionOf(r, name);
    if Comparable(x, y, z) then MergeFrom(RowsOf(RootOf(x)), RowsOf(RootOf(y)), RowsOf(RootOf(z)), RowChoices(choices, name)).Refused?
    else Contested(x, y, z) && TableChoice(choices, name) == Some(Unknown)
  }

  lemma RefusalIsBad(b: Catalog, l: Catalog, r: Catalog, choices: Choices, name: string, o: TableOutcome)
    requires AllReadable(b) && AllReadable(l) && AllReadable(r) && MergesAt(b, l, r, choices, name, o)
    ensures Refusal(o) <==> BadTable(b, l, r, choices, name)
  {
  }

  /** A table that none of the three has is not bad. */
  lemma BadIsNamed(b: Catalog, l: Catalog, r: Catalog, choices: Choices, name: string)
    requires AllReadable(b) && AllReadable(l) && AllReadable(r) && BadTable(b, l, r, choices, name)
    ensures name in b.tables.Keys + l.tables.Keys + r.tables.Keys
  {
  }

  /** `MergeSnapshots`: a conflict over the default database ends the merge, and so does a choice that makes no sense
      somewhere; otherwise every table of the three versions is merged as it would be alone. */
  method MergeSnapshots(b: Catalog, l: Catalog, r: Catalog, choices: Choices) returns (o: CatalogOutcome)
    requires AllReadable(b) && AllReadable(l) && AllReadable(r)
    ensures o.CatalogConflict? <==> Contested(b.default, l.default, r.default) && choices.default.None?
    ensures o.CatalogMerged? ==>
              && DefaultIs(b.default, l.default, r.default, choices.default, o.default)
              && o.tables.Keys == b.tables.Keys + l.tables.Keys + r.tables.Keys
              && forall name :: name in o.tables ==> MergesAt(b, l, r, choices, name, o.tables[name]) && !Refusal(o.tables[name])
    ensures o.CatalogRefused? <==>
              && !(Contested(b.default, l.default, r.default) && choices.default.None?)
              && (BadChoice(b, l, r, choices) || exists name :: BadTable(b, l, r, choices, name))
  {
    var default := MergeDefault(b.default, l.default, r.default, choices.default);
    if default.DefaultConflict? { return CatalogConflict; }
    if default.BadDefault? { return CatalogRefused; }
    var names := b.tables.Keys + l.tables.Keys + r.tables.Keys;
    var tables: map<string, TableOutcome> := map[];
    var left := names;
    while left != {}
      invariant left <= names && tables.Keys == names - left
      invariant forall name :: name in tables ==> MergesAt(b, l, r, choices, name, tables[name]) && !Refusal(tables[name])
    {
      var name :| name in left;
      var t := MergeTable(VersionOf(b, name), VersionOf(l, name), VersionOf(r, name), TableChoice(choices, name), RowChoices(choices, name));
      RefusalIsBad(b, l, r, choices, name, t);
      if Refusal(t) { return CatalogRefused; }
      tables, left := tables[name := t], left - {name};
    }
    forall name ensures !BadTable(b, l, r, choices, name) {
      if BadTable(b, l, r, choices, name) {
        BadIsNamed(b, l, r, choices, name);
        RefusalIsBad(b, l, r, choices, name, tables[name]);
      }
    }
    o := CatalogMerged(default.name, tables);
  }
}
