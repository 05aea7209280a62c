/** `WorkingState` of `common/repository/working.go`: a journal file that several processes append to, and a
    cached view in each. Whatever is cached, `Load` gives what replaying the whole file gives, and what
    `CommitTypedEdits` and `CheckpointPrepared` report is what a later load finds, even after a crash. */
module WorkingState {
  import opened Bytes
  import opened Overlays
  import opened WriteLog
  import opened JournalFrames
  import opened Replay
  import opened LazyReplay
  import opened ResumedReplay
  import Recovery

  /** The file, its inode number and the data head: what the processes share. A replaced file may have the number of an
      earlier one. */
  class Disk {
    var file: seq<byte>
    var inode: nat
    var head: string

    constructor (head: string)
      ensures file == [] && inode == 0 && this.head == head
    {
      file, inode := [], 0;
      this.head := head;
    }
  }

  /** A view, where its records end, and what tells the file: the inode number and the first header. */
  datatype Cache = Cache(view: View, offset: nat, inode: nat, first: seq<byte>)

  /** The cache takes the file for its own. */
  predicate Recognised(c: Cache, file: seq<byte>, inode: nat) {
    c.inode == inode && !Replaced(file, c.offset, Some(c.first))
  }

  /** The file starts with whole transactions or checkpoints, so its first header stays what it is. */
  ghost predicate Settled(codec: Codec, file: seq<byte>) {
    exists records, end :: Settles(codec, file, records, end)
  }

  ghost predicate Settles(codec: Codec, file: seq<byte>, records: seq<Record>, end: nat) {
    records != [] && Safe(records) == |records| && end <= |file| && EndsAt(codec, file, 0, records, end)
  }

  /** A cache says what some records lead to, and they are the first ones of a file it recognises. A file with its inode
      number that it does not recognise is settled, and will not come to look like its own. */
  ghost predicate CacheFits(git: Git, codec: Codec, file: seq<byte>, inode: nat, cache: Option<Cache>, seen: seq<Record>, seenHead: string) {
    cache.Some? ==>
      var c := cache.value;
      && Covers(git, seenHead, seen, c.view) && (c.offset == 0 <==> seen == [])
      && (c.inode == inode ==>
            if Recognised(c, file, inode) then c.offset <= |file| && EndsAt(codec, file, 0, seen, c.offset) else Settled(codec, file))
  }

  /** The records of a file up to its last whole transaction or checkpoint. */
  function SafePart(codec: Codec, file: seq<byte>): seq<Record>
    requires ReadAll(codec, file).Some?
  {
    var records := ReadAll(codec, file).value;
    records[..Safe(records)]
  }

  datatype CommitResult = Broken | Conflicting | Committed(view: View) | Unknown

  /** One process's view of the working state. */
  class WorkingState {
    const git: Git
    const codec: Codec
    const disk: Disk
    var cache: Option<Cache>
    ghost var seen: seq<Record>
    ghost var seenHead: string

    constructor (git: Git, codec: Codec, disk: Disk)
      requires Faithful(codec)
      ensures this.git == git && this.codec == codec && this.disk == disk && Valid() && cache == None
    {
      this.git, this.codec, this.disk := git, codec, disk;
      cache, seen, seenHead := None, [], "";
    }

    ghost predicate Valid()
      reads this, disk
    {
      Faithful(codec) && CacheFits(git, codec, disk.file, disk.inode, cache, seen, seenHead)
    }

    /** `load`: replays what the cache does not cover. */
    method Load() returns (view: Option<View>)
      requires Valid() && OrderlyFile(git, codec, disk.head, disk.file)
      modifies this`cache, this`seen, this`seenHead
      ensures Valid()
      ensures view == LoadedFile(git, codec, disk.head, disk.file)
      ensures view.None? ==> cache == old(cache)
      ensures view.Some? ==> UpToDate(git, codec, disk.head, disk.file, disk.inode, cache, seen, seenHead) && cache.value.view == view.value
    {
      var usable := cache.Some? && cache.value.inode == disk.inode && cache.value.offset <= |disk.file|;
      ghost var before := if usable then seen else [];
      if !usable { assert EndsAt(codec, disk.file, 0, [], 0); }
      var safe, first;
      view, safe, first := ReplayFile(git, codec, disk.head, disk.file, if usable then Some(cache.value.view) else None,
                                      if usable then cache.value.offset else 0, if usable then Some(cache.value.first) else None,
                                      before, seenHead);
      if view.Some? {
        LoadedUpToDate(git, codec, disk.head, disk.file, disk.inode, view.value, safe, seenHead);
        cache := Some(Cache(view.value, safe, disk.inode, first));
        seen, seenHead := SafePart(codec, disk.file), disk.head;
      }
    }

    /** `CommitTypedEdits`. With a crash, only so many bytes of the two frames reach the file. */
    method CommitTypedEdits(baseCommit: string, baseGeneration: nat, edits: seq<TableEdit>, tx: string, crash: Option<nat>)
      returns (result: CommitResult, ghost kept: nat)
      requires Valid() && OrderlyFile(git, codec, disk.head, disk.file) && tx != ""
      requires forall v :: LoadedFile(git, codec, disk.head, disk.file) == Some(v) ==>
                 PairFits(codec, v, tx, edits) && (crash.Some? ==> crash.value < |PairBytes(codec, v, tx, edits)|)
      modifies this`cache, this`seen, this`seenHead, disk`file
      ensures edits != [] ==> Valid()
      ensures OrderlyFile(git, codec, disk.head, disk.file)
      ensures var loaded := old(LoadedFile(git, codec, disk.head, disk.file));
              && (result.Broken? <==> loaded.None?)
              && (result.Conflicting? <==>
                    loaded.Some? && (baseCommit != loaded.value.snapshot.commit || Conflict(WritesOf(loaded.value), baseGeneration, edits)))
              && (result.Broken? || result.Conflicting? ==> disk.file == old(disk.file))
              && (result.Committed? || result.Unknown? ==>
                    && EndsAt(codec, old(disk.file), 0, SafePart(codec, old(disk.file)), kept)
                    && Lands(git, codec, disk.head, old(disk.file), kept, loaded.value, tx, edits, CutOf(codec, loaded.value, tx, edits, crash), disk.file)
                    && result == (if crash.Some? then Unknown else Committed(ApplyCommit(loaded.value, PrepareOf(loaded.value, tx, edits)))))
    {
      kept := 0;
      var loaded := Load();
      if loaded.None? { return Broken, kept; }
      var v := loaded.value;
      if baseCommit != v.snapshot.commit { return Conflicting, kept; }
      var conflict := WriteConflict(WritesOf(v), baseGeneration, edits);
      if conflict { return Conflicting, kept; }
      kept := cache.value.offset;
      result := AppendPair(v, edits, tx, crash);
    }

    /** The append itself: the incomplete tail is cut off and the two frames are written. */
    method AppendPair(v: View, edits: seq<TableEdit>, tx: string, crash: Option<nat>) returns (result: CommitResult)
      requires Valid() && UpToDate(git, codec, disk.head, disk.file, disk.inode, cache, seen, seenHead) && cache.value.view == v && tx != ""
      requires PairFits(codec, v, tx, edits) && (crash.Some? ==> crash.value < |PairBytes(codec, v, tx, edits)|)
      modifies this`cache, this`seen, disk`file
      ensures edits != [] ==> Valid()
      ensures Lands(git, codec, disk.head, old(disk.file), old(cache.value.offset), v, tx, edits, CutOf(codec, v, tx, edits, crash), disk.file)
      ensures result == (if crash.Some? then Unknown else Committed(ApplyCommit(v, PrepareOf(v, tx, edits))))
    {
      ghost var was := disk.file;
      ghost var cut := CutOf(codec, v, tx, edits, crash);
      WritePair(cache.value.offset, v, tx, edits, crash);
      Landed(git, codec, disk.head, was, cache.value.offset, seen, v, tx, edits, cut, disk.file);
      if crash.Some? {
        StillFits(git, codec, disk.head, was, disk.inode, cache, seen, seenHead, disk.file);
        return Unknown;
      }
      ghost var n := cache.value.offset;
      var first := if cache.value.first != NO_HEADER then cache.value.first else FirstHeader(disk.file);
      if edits != [] { WholeLanded(git, codec, disk.head, was, n, seen, v, tx, edits, disk.file, disk.inode, first); }
      var live := LiveView(v, tx, edits);
      result := Committed(live);
      cache, seen := Some(Cache(live, |disk.file|, disk.inode, first)), seen + PairOf(v, tx, edits);
    }

    method WritePair(kept: nat, v: View, tx: string, edits: seq<TableEdit>, crash: Option<nat>)
      requires kept <= |disk.file| && CutOf(codec, v, tx, edits, crash) <= |PairBytes(codec, v, tx, edits)|
      modifies disk`file
      ensures disk.file == old(disk.file)[..kept] + PairBytes(codec, v, tx, edits)[..CutOf(codec, v, tx, edits, crash)]
    {
      ghost var was := disk.file;
      if |disk.file| > kept { disk.file := disk.file[..kept]; }
      assert disk.file == was[..kept];
      var bytes := FrameBytes(codec, PrepareOf(v, tx, edits)) + FrameBytes(codec, MarkOf(v, tx));
      disk.file := disk.file + bytes[..if crash.Some? then crash.value else |bytes|];
    }

    /** `CheckpointPrepared` and the compaction behind it, which may fail. `commit` is what was published in Git, `inode`
        the number the replacing file gets. Nothing is cut off before the checkpoint is written. */
    method CheckpointPrepared(commit: string, compacts: bool, inode: nat) returns (published: bool)
      requires Valid() && OrderlyFile(git, codec, disk.head, disk.file)
      requires forall v :: LoadedFile(git, codec, disk.head, disk.file) == Some(v) ==> CheckpointFits(codec, disk.file, CheckpointOf(v, commit))
      modifies this`cache, this`seen, this`seenHead, disk`file, disk`inode, disk`head
      ensures Valid()
      ensures var loaded := old(LoadedFile(git, codec, disk.head, disk.file));
              && published == (loaded.Some? && loaded.value.dirty)
              && (published ==>
                    && disk.head == commit
                    && Checkpointed(git, codec, old(disk.file), CheckpointOf(loaded.value, commit), compacts, disk.file)
                    && disk.inode == if Compacts(codec, old(disk.file), CheckpointOf(loaded.value, commit), compacts) then inode else old(disk.inode))
      ensures !published ==> disk.file == old(disk.file) && disk.inode == old(disk.inode) && disk.head == old(disk.head)
    {
      var loaded := Load();
      if loaded.None? || !loaded.value.dirty { return false; }
      var c := CheckpointOf(loaded.value, commit);
      disk.head, disk.file := commit, disk.file + FrameBytes(codec, c);
      published, cache := true, None;
      if compacts { Replace(c, inode); }
    }

    /** `compactLocked`: the journal becomes the anchor alone, and the cache follows. A journal that cannot be read stays. */
    method Replace(c: Record, inode: nat)
      requires Faithful(codec) && c.Checkpoint? && c.git == disk.head
      requires ReadAll(codec, disk.file).Some? ==> Fits(codec, Recovery.AnchorOf(c, ReadAll(codec, disk.file).value))
      modifies this`cache, this`seen, this`seenHead, disk`file, disk`inode
      ensures Valid()
      ensures if old(ReadAll(codec, disk.file)).Some? then
                && Anchors(git, codec, c, old(ReadAll(codec, disk.file)).value, disk.file)
                && disk.inode == inode
              else disk.file == old(disk.file) && disk.inode == old(disk.inode)
    {
      var reading, before := ReadJournalFrames(codec, disk.file, 0, None);
      assert disk.file[0..] == disk.file;
      if !reading.Frames? {
        cache := None;
        return;
      }
      var anchor := Recovery.Compact(c, reading.records);
      AnchorLands(git, anchor);
      AppendOne(codec, [], [], anchor);
      var frame := FrameBytes(codec, anchor);
      assert [] + frame == frame && [] + [anchor] == [anchor];
      disk.file, disk.inode := frame, inode;
      cache := Some(Cache(CleanView(git, c.git, c.generation), |frame|, inode, FirstHeader(frame)));
      seen, seenHead := [anchor], disk.head;
    }
  }

  function CheckpointOf(v: View, commit: string): Record { Checkpoint(v.generation, v.base, commit, [], 0) }

  ghost predicate CheckpointFits(codec: Codec, file: seq<byte>, c: Record) {
    Fits(codec, c) && c.Checkpoint? &&
    var all := ReadAll(codec, file + FrameBytes(codec, c));
    all.Some? ==> Fits(codec, Recovery.AnchorOf(c, all.value))
  }

  /** The compaction behind a checkpoint can read the journal. */
  predicate Compacts(codec: Codec, was: seq<byte>, c: Record, compacts: bool) {
    compacts && ReadAll(codec, was + FrameBytes(codec, c)).Some?
  }

  /** The file holds the anchor for some records and nothing else. */
  ghost predicate Anchors(git: Git, codec: Codec, c: Record, records: seq<Record>, file: seq<byte>)
    requires c.Checkpoint?
  {
    && ReadAll(codec, file) == Some([Recovery.AnchorOf(c, records)]) && CleanTail(codec, file)
    && OrderlyFile(git, codec, c.git, file) && LoadedFile(git, codec, c.git, file) == Some(CleanView(git, c.git, c.generation))
  }

  /** The file after a checkpoint: the checkpoint behind what was there, or the anchor that stands for all of it. */
  ghost predicate Checkpointed(git: Git, codec: Codec, was: seq<byte>, c: Record, compacts: bool, file: seq<byte>)
    requires c.Checkpoint?
  {
    if Compacts(codec, was, c, compacts) then Anchors(git, codec, c, ReadAll(codec, was + FrameBytes(codec, c)).value, file)
    else file == was + FrameBytes(codec, c)
  }

  /** Behind a torn frame a checkpoint may be unreadable. Behind whole frames it is read, and the journal then loads as the
      clean new base if and only if it was compacted or no prepare was left open. */
  lemma CheckpointReads(git: Git, codec: Codec, head: string, was: seq<byte>, records: seq<Record>, v: View, commit: string,
                        compacts: bool, file: seq<byte>)
    requires Faithful(codec) && EndsAt(codec, was, 0, records, |was|) && ReadAll(codec, was) == Some(records)
    requires OrderlyFile(git, codec, head, was) && LoadedFile(git, codec, head, was) == Some(v) && v.dirty
    requires var c := CheckpointOf(v, commit); CheckpointFits(codec, was, c) && Checkpointed(git, codec, was, c, compacts, file)
    ensures var c := CheckpointOf(v, commit);
            ReadAll(codec, file) == Some(if compacts then [Recovery.AnchorOf(c, records + [c])] else records + [c])
    ensures LoadedFile(git, codec, commit, file)
            == if compacts || Safe(records) == |records| then Some(CleanView(git, commit, v.generation)) else None
    ensures compacts || Safe(records) == |records| ==> OrderlyFile(git, codec, commit, file)
  {
    var c := CheckpointOf(v, commit);
    AppendOne(codec, was, records, c);
    if !compacts {
      if Safe(records) == |records| {
        assert records[..|records|] == records;
        CoversNow(git, head, records);
        CheckpointLands(git, head, records, v, c);
      } else {
        CheckpointNeedsCleanTail(git, head, records, c);
        OpenAtEnd(git, Start(git, head, records), records);
      }
    }
  }

  /** What lies behind the safe part of a journal that replays is a prepare. */
  lemma OpenAtEnd(git: Git, s: State, records: seq<Record>)
    requires Run(git, s, records).Some? && Safe(records) < |records|
    ensures IsPrepare(records[|records| - 1])
  {
  }

  /** Nothing lies behind the last whole transaction or checkpoint. */
  ghost predicate CleanTail(codec: Codec, file: seq<byte>) {
    ReadAll(codec, file).Some? ==> EndsAt(codec, file, 0, SafePart(codec, file), |file|)
  }

  const NO_HEADER: seq<byte> := seq(12, _ => 0)

  /** After a load the cache is the safe part of the file as it is. */
  ghost predicate UpToDate(git: Git, codec: Codec, head: string, file: seq<byte>, inode: nat, cache: Option<Cache>, seen: seq<Record>, seenHead: string) {
    && cache.Some? && cache.value.inode == inode && cache.value.first == FirstHeader(file) && seenHead == head
    && ReadAll(codec, file).Some? && seen == SafePart(codec, file) && Tidy(seen)
    && cache.value.offset <= |file| && EndsAt(codec, file, 0, seen, cache.value.offset) && Covers(git, head, seen, cache.value.view)
  }

  lemma LoadedUpToDate(git: Git, codec: Codec, head: string, file: seq<byte>, inode: nat, view: View, safe: nat, seenHead: string)
    requires OrderlyFile(git, codec, head, file) && Caught(git, codec, head, file, view, safe)
    ensures var cache := Some(Cache(view, safe, inode, FirstHeader(file)));
            && UpToDate(git, codec, head, file, inode, cache, SafePart(codec, file), head)
            && CacheFits(git, codec, file, inode, cache, SafePart(codec, file), head)
  {
    var records := ReadAll(codec, file).value;
    TidyPrefix(records, Safe(records));
    EndsForward(codec, file, 0, SafePart(codec, file), safe);
  }

  /** A whole frame holds at least a header. */
  lemma HeaderWithin(codec: Codec, file: seq<byte>, records: seq<Record>, end: nat)
    requires EndsAt(codec, file, 0, records, end) && records != []
    ensures 12 <= end <= |file|
  {
    EndsForward(codec, file, 0, records, end);
    EndsForward(codec, file, ScanFrame(codec, file[0..]).size, records[1..], end);
  }

  lemma SameHeader(file: seq<byte>, grown: seq<byte>, n: nat)
    requires 12 <= n <= |file| && n <= |grown| && grown[..n] == file[..n]
    ensures FirstHeader(grown) == FirstHeader(file)
  {
    assert grown[..12] == grown[..n][..12] && file[..12] == file[..n][..12];
  }

  /** What is behind the safe part of a settled file may change, and it is settled still, under the same first header. */
  lemma SettledStays(codec: Codec, file: seq<byte>, records: seq<Record>, end: nat, n: nat, grown: seq<byte>)
    requires Settles(codec, file, records, end)
    requires ReadAll(codec, file).Some? && EndsAt(codec, file, 0, SafePart(codec, file), n)
    requires n <= |file| && n <= |grown| && grown[..n] == file[..n]
    ensures Settles(codec, grown, records, end) && FirstHeader(grown) == FirstHeader(file)
  {
    SeenStays(codec, file, records, end, SafePart(codec, file), n, grown);
    HeaderWithin(codec, file, records, end);
    SameHeader(file, grown, n);
  }

  /** What one process appends leaves every other process's cache right: its records come before. */
  lemma OthersStayValid(git: Git, codec: Codec, file: seq<byte>, inode: nat, kept: nat, grown: seq<byte>,
                        other: Option<Cache>, seen: seq<Record>, seenHead: string)
    requires CacheFits(git, codec, file, inode, other, seen, seenHead)
    requires ReadAll(codec, file).Some? && EndsAt(codec, file, 0, SafePart(codec, file), kept)
    requires kept <= |file| && kept <= |grown| && grown[..kept] == file[..kept]
    ensures CacheFits(git, codec, grown, inode, other, seen, seenHead)
  {
    if other.Some? && other.value.inode == inode && other.value.offset > 0 {
      var c := other.value;
      if Recognised(c, file, inode) {
        SettledStays(codec, file, seen, c.offset, kept, grown);
      } else {
        var records, end :| Settles(codec, file, records, end);
        SettledStays(codec, file, records, end, kept, grown);
      }
    }
  }

  /** A cut and an append behind the safe part leave the cache as it is right. */
  lemma StillFits(git: Git, codec: Codec, head: string, file: seq<byte>, inode: nat, cache: Option<Cache>, seen: seq<Record>,
                  seenHead: string, grown: seq<byte>)
    requires UpToDate(git, codec, head, file, inode, cache, seen, seenHead)
    requires var n := cache.value.offset; n <= |grown| && grown[..n] == file[..n]
    ensures CacheFits(git, codec, grown, inode, cache, seen, seenHead)
  {
    EndsForward(codec, file, 0, seen, cache.value.offset);
    OthersStayValid(git, codec, file, inode, cache.value.offset, grown, cache, seen, seenHead);
  }

  /** A replaced journal is mistaken for the one a cache describes only if it has its inode number, and its first frame
      the length and the checksum of the other's. */
  ghost predicate Mistaken(codec: Codec, c: Cache, anchor: Record, inode: nat) {
    && c.offset > 0 && c.inode == inode
    && c.first == MAGIC + WordBytes(|codec.enc(anchor)| % 0x1_0000_0000) + WordBytes(codec.crc(codec.enc(anchor)))
  }

  /** After a compaction every other cache is right about the new file, unless it mistakes it for its own. */
  lemma ReplacedIsNoticed(git: Git, codec: Codec, file: seq<byte>, was: nat, anchor: Record, inode: nat, other: Option<Cache>,
                          seen: seq<Record>, seenHead: string)
    requires Faithful(codec) && Fits(codec, anchor) && anchor.Checkpoint?
    requires CacheFits(git, codec, file, was, other, seen, seenHead)
    ensures var replaced := FrameBytes(codec, anchor);
            CacheFits(git, codec, replaced, inode, other, seen, seenHead) <==>
              (other.Some? && Mistaken(codec, other.value, anchor, inode) ==>
                 other.value.offset <= |replaced| && EndsAt(codec, replaced, 0, seen, other.value.offset))
  {
    var replaced := FrameBytes(codec, anchor);
    assert FirstHeader(replaced) == MAGIC + WordBytes(|codec.enc(anchor)| % 0x1_0000_0000) + WordBytes(codec.crc(codec.enc(anchor)));
    AppendOne(codec, [], [], anchor);
    assert [] + replaced == replaced && [] + [anchor] == [anchor];
    assert Settles(codec, replaced, [anchor], |replaced|);
    assert other.Some? && other.value.offset == 0 ==> EndsAt(codec, replaced, 0, seen, 0);
  }

  /** The view a commit leaves in memory, made without replaying. */
  method LiveView(v: View, tx: string, edits: seq<TableEdit>) returns (live: View)
    ensures live == ApplyCommit(v, PrepareOf(v, tx, edits))
  {
    var generation := v.generation + 1;
    var tables, pending := ApplyTypedEdits(v.snapshot.tables, v.pending, edits, generation);
    live := View(Snapshot(v.snapshot.commit, generation, tables), generation, true, v.base, pending,
                 Some(Recorded(v.writes, edits, generation)));
  }

  function CutOf(codec: Codec, v: View, tx: string, edits: seq<TableEdit>, crash: Option<nat>): nat {
    if crash.Some? then crash.value else |PairBytes(codec, v, tx, edits)|
  }

  /** A file grown by a transaction, up to a cut, behind its first `kept` bytes: it loads with the transaction if and
      only if the commit marker is whole. */
  ghost predicate Lands(git: Git, codec: Codec, head: string, file: seq<byte>, kept: nat, v: View, tx: string, edits: seq<TableEdit>,
                        cut: nat, grown: seq<byte>)
  {
    && kept <= |file| && cut <= |PairBytes(codec, v, tx, edits)|
    && grown == file[..kept] + PairBytes(codec, v, tx, edits)[..cut]
    && OrderlyFile(git, codec, head, grown)
    && LoadedFile(git, codec, head, grown) == AfterPair(v, tx, edits, WholeFrames(codec, v, tx, edits, cut))
  }

  lemma Landed(git: Git, codec: Codec, head: string, file: seq<byte>, n: nat, safe: seq<Record>,
               v: View, tx: string, edits: seq<TableEdit>, cut: nat, grown: seq<byte>)
    requires Faithful(codec) && PairFits(codec, v, tx, edits) && cut <= |PairBytes(codec, v, tx, edits)|
    requires n <= |file| && EndsAt(codec, file, 0, safe, n) && Covers(git, head, safe, v) && Tidy(safe) && tx != ""
    requires grown == file[..n] + PairBytes(codec, v, tx, edits)[..cut]
    ensures Lands(git, codec, head, file, n, v, tx, edits, cut, grown) && n <= |grown| && EndsAt(codec, grown, 0, safe, n)
  {
    CommitLands(git, codec, head, file, n, safe, v, tx, edits, cut);
  }

  lemma WholeLanded(git: Git, codec: Codec, head: string, file: seq<byte>, n: nat, safe: seq<Record>,
                    v: View, tx: string, edits: seq<TableEdit>, grown: seq<byte>, inode: nat, first: seq<byte>)
    requires Faithful(codec) && PairFits(codec, v, tx, edits)
    requires n <= |file| && EndsAt(codec, file, 0, safe, n) && Covers(git, head, safe, v) && Tidy(safe) && tx != "" && edits != []
    requires var bytes := PairBytes(codec, v, tx, edits); grown == file[..n] + bytes[..|bytes|]
    ensures CacheFits(git, codec, grown, inode, Some(Cache(ApplyCommit(v, PrepareOf(v, tx, edits)), |grown|, inode, first)),
                      safe + PairOf(v, tx, edits), head)
  {
    var bytes := PairBytes(codec, v, tx, edits);
    assert bytes[..|bytes|] == bytes;
    WholeCommitCovers(git, codec, head, file, n, safe, v, tx, edits);
    HeaderWithin(codec, grown, safe + PairOf(v, tx, edits), |grown|);
    assert Settles(codec, grown, safe + PairOf(v, tx, edits), |grown|);
  }
}
