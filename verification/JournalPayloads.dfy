/** Payload encodings that read back. The repository writes a record as JSON; here a record is a tree of numbers,
    written so that no tree's bytes begin another's. What the results about the journal ask of an encoding can be met,
    and there is a record whose frame no reader accepts. */
module JournalPayloads {
  import opened Bytes
  import opened Overlays
  import opened Sequences
  import opened Pending
  import opened WriteLog
  import opened JournalFrames

  datatype Tree = Leaf(n: nat) | Node(items: seq<Tree>)

  function Number(n: nat): (b: seq<byte>)
    ensures |b| == n + 1
  {
    if n == 0 then [0] else [1] + Number(n - 1)
  }

  function Flat(t: Tree): seq<byte> {
    match t
    case Leaf(n) => [0] + Number(n)
    case Node(items) => [1] + (Number(|items|) + FlatAll(items))
  }

  function FlatAll(items: seq<Tree>): seq<byte> {
    if items == [] then [] else Flat(items[0]) + FlatAll(items[1..])
  }

  // What was written first is read first.

  lemma SameRest<T>(head: seq<T>, s: seq<T>, t: seq<T>)
    requires head + s == head + t
    ensures s == t
  {
    assert (head + s)[|head|..] == s && (head + t)[|head|..] == t;
  }

  lemma {:induction false} NumberFirst(m: nat, n: nat, s: seq<byte>, t: seq<byte>)
    requires Number(m) + s == Number(n) + t
    ensures m == n && s == t
  {
    assert (Number(m) + s)[0] == Number(m)[0] && (Number(n) + t)[0] == Number(n)[0];
    if m == 0 {
      SameRest([0], s, t);
    } else {
      Regroup([1], Number(m - 1), s);
      Regroup([1], Number(n - 1), t);
      SameRest([1], Number(m - 1) + s, Number(n - 1) + t);
      NumberFirst(m - 1, n - 1, s, t);
    }
  }

  lemma {:induction false} FlatFirst(a: Tree, b: Tree, s: seq<byte>, t: seq<byte>)
    requires Flat(a) + s == Flat(b) + t
    ensures a == b && s == t
    decreases a, 0
  {
    assert (Flat(a) + s)[0] == Flat(a)[0] && (Flat(b) + t)[0] == Flat(b)[0];
    match a
    case Leaf(m) =>
      Regroup([0], Number(m), s);
      Regroup([0], Number(b.n), t);
      SameRest([0], Number(m) + s, Number(b.n) + t);
      NumberFirst(m, b.n, s, t);
    case Node(items) =>
      NodeParts(items, s);
      NodeParts(b.items, t);
      SameRest([1], Number(|items|) + (FlatAll(items) + s), Number(|b.items|) + (FlatAll(b.items) + t));
      NumberFirst(|items|, |b.items|, FlatAll(items) + s, FlatAll(b.items) + t);
      FlatAllFirst(items, b.items, s, t);
  }

  lemma NodeParts(items: seq<Tree>, s: seq<byte>)
    ensures Flat(Node(items)) + s == [1] + (Number(|items|) + (FlatAll(items) + s))
  {
    Regroup([1], Number(|items|) + FlatAll(items), s);
    Regroup(Number(|items|), FlatAll(items), s);
  }

  lemma {:induction false} FlatAllFirst(a: seq<Tree>, b: seq<Tree>, s: seq<byte>, t: seq<byte>)
    requires |a| == |b| && FlatAll(a) + s == FlatAll(b) + t
    ensures a == b && s == t
    decreases a, 1
  {
    if a != [] {
      Regroup(Flat(a[0]), FlatAll(a[1..]), s);
      Regroup(Flat(b[0]), FlatAll(b[1..]), t);
      FlatFirst(a[0], b[0], FlatAll(a[1..]) + s, FlatAll(b[1..]) + t);
      FlatAllFirst(a[1..], b[1..], s, t);
      assert a == [a[0]] + a[1..] && b == [b[0]] + b[1..];
    } else {
      assert [] + s == s && [] + t == t;
    }
  }

  // Records as trees.

  function OfAll<T>(f: T -> Tree, xs: seq<T>): Tree { Node(seq(|xs|, i requires 0 <= i < |xs| => f(xs[i]))) }

  function OfByte(b: byte): Tree { Leaf(b) }

  function OfChar(c: char): Tree { Leaf(c as nat) }

  function OfFlag(b: bool): Tree { Leaf(if b then 1 else 0) }

  function OfBytes(b: seq<byte>): Tree { OfAll(OfByte, b) }

  function OfText(s: string): Tree { OfAll(OfChar, s) }

  function OfRow(e: RowEdit): Tree { Node([OfBytes(e.key), OfBytes(e.value), OfFlag(e.delete), Leaf(e.generation)]) }

  function OfClaim(c: Claim): Tree { Node([OfText(c.index), OfBytes(c.key)]) }

  function OfTable(te: TableEdit): Tree {
    Node([OfText(te.table), OfBytes(te.schema), OfFlag(te.drop), OfAll(OfRow, te.edits), OfAll(OfClaim, te.claims)])
  }

  function OfEntry(table: string, roots: Roots): Tree { Node([OfText(table), OfBytes(roots.schema), OfBytes(roots.data)]) }

  /** The entries of a manifest in some order, the same one every time. */
  ghost function Listed(m: Manifest): seq<Tree> {
    if m == map[] then []
    else
      var k :| k in m;
      [OfEntry(k, m[k])] + Listed(m - {k})
  }

  ghost function OfRecord(r: Record): Tree {
    match r
    case Prepare(tx, generation, base, manifest, intact, inventoried) =>
      Node([Leaf(0), OfText(tx), Leaf(generation), OfText(base), OfFlag(intact), OfFlag(inventoried), OfFlag(manifest.Some?),
            Node(if manifest.Some? then Listed(manifest.value) else [])])
    case TypedPrepare(tx, generation, base, edits) =>
      Node([Leaf(1), OfText(tx), Leaf(generation), OfText(base), OfAll(OfTable, edits)])
    case CommitMark(tx, generation, base) => Node([Leaf(2), OfText(tx), Leaf(generation), OfText(base)])
    case Checkpoint(generation, base, git, txs, from) =>
      Node([Leaf(3), Leaf(generation), OfText(base), OfText(git), OfAll(OfText, txs), Leaf(from)])
    case OtherKind => Leaf(0)
  }

  /** Different values are different trees. */
  ghost predicate Apart<T(!new)>(f: T -> Tree) { forall a, b :: f(a) == f(b) ==> a == b }

  lemma AllApart<T(!new)>(f: T -> Tree, a: seq<T>, b: seq<T>)
    requires Apart(f) && OfAll(f, a) == OfAll(f, b)
    ensures a == b
  {
    var x, y := OfAll(f, a).items, OfAll(f, b).items;
    assert |x| == |a| && |y| == |b|;
    forall i | 0 <= i < |a| ensures a[i] == b[i] { assert x[i] == f(a[i]) && y[i] == f(b[i]); }
  }

  lemma BytesApart()
    ensures Apart(OfBytes)
  {
    assert Apart(OfByte);
    forall a, b | OfBytes(a) == OfBytes(b) ensures a == b { AllApart(OfByte, a, b); }
  }

  lemma TextsApart()
    ensures Apart(OfText)
  {
    assert Apart(OfChar);
    forall a, b | OfText(a) == OfText(b) ensures a == b { AllApart(OfChar, a, b); }
  }

  lemma RowsApart()
    ensures Apart(OfRow)
  {
    BytesApart();
    forall a, b | OfRow(a) == OfRow(b) ensures a == b {
      var x, y := OfRow(a).items, OfRow(b).items;
      assert x[0] == y[0] && x[1] == y[1] && x[2] == y[2] && x[3] == y[3];
    }
  }

  lemma ClaimsApart()
    ensures Apart(OfClaim)
  {
    BytesApart();
    TextsApart();
    forall a, b | OfClaim(a) == OfClaim(b) ensures a == b {
      var x, y := OfClaim(a).items, OfClaim(b).items;
      assert x[0] == y[0] && x[1] == y[1];
    }
  }

  lemma TablesApart()
    ensures Apart(OfTable)
  {
    BytesApart();
    TextsApart();
    RowsApart();
    ClaimsApart();
    forall a, b | OfTable(a) == OfTable(b) ensures a == b {
      var x, y := OfTable(a).items, OfTable(b).items;
      assert x[0] == y[0] && x[1] == y[1] && x[2] == y[2] && x[3] == y[3] && x[4] == y[4];
      AllApart(OfRow, a.edits, b.edits);
      AllApart(OfClaim, a.claims, b.claims);
    }
  }

  lemma {:induction false} ManifestsApart(a: Manifest, b: Manifest)
    requires Listed(a) == Listed(b)
    ensures a == b
    decreases |a|
  {
    if a == map[] {
      assert b == map[];
    } else {
      var k :| k in a && Listed(a) == [OfEntry(k, a[k])] + Listed(a - {k});
      var j :| j in b && Listed(b) == [OfEntry(j, b[j])] + Listed(b - {j});
      SameHead(OfEntry(k, a[k]), Listed(a - {k}), OfEntry(j, b[j]), Listed(b - {j}));
      BytesApart();
      TextsApart();
      var x, y := OfEntry(k, a[k]).items, OfEntry(j, b[j]).items;
      assert x[0] == y[0] && x[1] == y[1] && x[2] == y[2];
      ManifestsApart(a - {k}, b - {j});
      PutBack(a, k);
      PutBack(b, k);
    }
  }

  lemma SameHead<T>(x: T, xs: seq<T>, y: T, ys: seq<T>)
    requires [x] + xs == [y] + ys
    ensures x == y && xs == ys
  {
    assert ([x] + xs)[0] == x && ([y] + ys)[0] == y;
    SameRest([x], xs, ys);
  }

  lemma PutBack<K, V>(m: map<K, V>, k: K)
    requires k in m
    ensures m == (m - {k})[k := m[k]]
  {
  }

  lemma RecordApart(a: Record, b: Record)
    requires OfRecord(a) == OfRecord(b)
    ensures a == b
  {
    TextsApart();
    TablesApart();
    if a != OtherKind {
      var x, y := OfRecord(a).items, OfRecord(b).items;
      assert x[0] == y[0] && x[1] == y[1] && x[2] == y[2] && x[3] == y[3];
      match a
      case Prepare(_, _, _, manifest, _, _) =>
        assert x[4] == y[4] && x[5] == y[5] && x[6] == y[6] && x[7] == y[7];
        if manifest.Some? { ManifestsApart(manifest.value, b.manifest.value); }
      case TypedPrepare(_, _, _, edits) =>
        assert x[4] == y[4];
        AllApart(OfTable, edits, b.edits);
      case CommitMark(_, _, _) =>
      case Checkpoint(_, _, _, txs, _) =>
        assert x[4] == y[4] && x[5] == y[5];
        AllApart(OfText, txs, b.txs);
    }
  }

  // Codecs.

  /** The record that an encoding writes as these bytes. */
  ghost function Decoded(enc: Record -> seq<byte>, data: seq<byte>): Option<Record> {
    if exists r :: enc(r) == data then
      var r :| enc(r) == data;
      Some(r)
    else None
  }

  ghost function CodecOf(enc: Record -> seq<byte>): Codec { Codec(enc, data => Decoded(enc, data), data => 0) }

  lemma CodecIsFaithful(enc: Record -> seq<byte>)
    requires forall a, b :: enc(a) == enc(b) ==> a == b
    ensures Faithful(CodecOf(enc))
  {
    forall r: Record ensures Decoded(enc, enc(r)) == Some(r) { assert enc(r) == enc(r); }
  }

  ghost function Payload(r: Record): seq<byte> { Flat(OfRecord(r)) }

  lemma PayloadsApart(a: Record, b: Record)
    requires Payload(a) == Payload(b)
    ensures a == b
  {
    assert Payload(a) + [] == Payload(b) + [];
    FlatFirst(OfRecord(a), OfRecord(b), [], []);
    RecordApart(a, b);
  }

  /** A codec with these payloads. */
  lemma PlainCodec() returns (codec: Codec)
    ensures Faithful(codec) && forall r :: codec.enc(r) == Payload(r)
  {
    forall a, b | Payload(a) == Payload(b) ensures a == b { PayloadsApart(a, b); }
    codec := CodecOf(r => Payload(r));
    CodecIsFaithful(r => Payload(r));
  }

  function IndexOf(records: seq<Record>, r: Record): nat
    requires r in records
    ensures IndexOf(records, r) < |records| && records[IndexOf(records, r)] == r
  {
    if records[0] == r then 0 else 1 + IndexOf(records[1..], r)
  }

  /** Payloads short for some records. */
  ghost function ShortPayload(records: seq<Record>, r: Record): seq<byte> {
    if r in records then Number(IndexOf(records, r)) else [2] + Payload(r)
  }

  lemma ShortPayloadsApart(records: seq<Record>, a: Record, b: Record)
    requires ShortPayload(records, a) == ShortPayload(records, b)
    ensures a == b
  {
    assert a in records <==> ShortPayload(records, a)[0] != 2;
    assert b in records <==> ShortPayload(records, b)[0] != 2;
    if a in records && b in records {
      var m, n := IndexOf(records, a), IndexOf(records, b);
      assert Number(m) + [] == Number(n) + [];
      NumberFirst(m, n, [], []);
    } else if a !in records && b !in records {
      SameRest([2], Payload(a), Payload(b));
      PayloadsApart(a, b);
    }
  }

  /** For every journal of up to 2^30 records there is a codec that reads back everything and under which all of its
      records fit. */
  lemma SomeCodecFits(records: seq<Record>) returns (codec: Codec)
    requires |records| <= MAX_PAYLOAD
    ensures Faithful(codec) && AllFit(codec, records)
  {
    forall a, b | ShortPayload(records, a) == ShortPayload(records, b) ensures a == b { ShortPayloadsApart(records, a, b); }
    var enc := r => ShortPayload(records, r);
    codec := CodecOf(enc);
    CodecIsFaithful(enc);
    forall i | 0 <= i < |records| ensures Fits(codec, records[i]) { assert records[i] in records; }
  }

  // A frame that no reader accepts.

  lemma {:induction false} FlatZeros(items: seq<Tree>)
    requires forall i :: 0 <= i < |items| ==> items[i] == Leaf(0)
    ensures |FlatAll(items)| == 2 * |items|
  {
    if items != [] {
      FlatZeros(items[1..]);
      assert |Flat(items[0])| == 2;
    }
  }

  lemma FlatPut(t: Tree, items: seq<Tree>)
    ensures |FlatAll([t] + items)| == |Flat(t)| + |FlatAll(items)|
  {
    HeadOfConcat([t], items);
  }

  lemma FlatNode(items: seq<Tree>)
    ensures |Flat(Node(items))| == |items| + 2 + |FlatAll(items)|
  {
  }

  /** How many bytes the items of a short list take. */
  lemma FlatShort(a: Tree, b: Tree, c: Tree, d: Tree, e: Tree)
    ensures |FlatAll([a])| == |Flat(a)|
    ensures |FlatAll([a, b, c, d])| == |Flat(a)| + |Flat(b)| + |Flat(c)| + |Flat(d)|
    ensures |FlatAll([a, b, c, d, e])| == |Flat(a)| + |Flat(b)| + |Flat(c)| + |Flat(d)| + |Flat(e)|
  {
    FlatPut(e, []);
    FlatPut(d, []);
    FlatPut(a, []);
    assert [e] + [] == [e] && [d] + [] == [d] && [a] + [] == [a];
    FlatPut(d, [e]);
    FlatPut(c, [d]);
    assert [d] + [e] == [d, e] && [c] + [d] == [c, d];
    FlatPut(c, [d, e]);
    FlatPut(b, [c, d]);
    assert [c] + [d, e] == [c, d, e] && [b] + [c, d] == [b, c, d];
    FlatPut(b, [c, d, e]);
    FlatPut(a, [b, c, d]);
    assert [b] + [c, d, e] == [b, c, d, e] && [a] + [b, c, d] == [a, b, c, d];
    FlatPut(a, [b, c, d, e]);
    assert [a] + [b, c, d, e] == [a, b, c, d, e];
  }

  /** A transaction that puts one row of zeros. */
  function ZeroRow(size: nat): Record {
    TypedPrepare("", 1, "", [TableEdit("", [], false, [RowEdit([], seq(size, _ => 0), false, 0)], [])])
  }

  lemma ZeroValueSize(value: seq<byte>)
    requires forall i :: 0 <= i < |value| ==> value[i] == 0
    ensures |Flat(OfBytes(value))| == 3 * |value| + 2
  {
    var items := OfBytes(value).items;
    forall i | 0 <= i < |items| ensures items[i] == Leaf(0) { assert items[i] == OfByte(value[i]); }
    FlatZeros(items);
    FlatNode(items);
  }

  const NONE := Node([])

  lemma RowsSize(e: RowEdit)
    requires e.key == [] && !e.delete && e.generation == 0
    ensures |Flat(OfAll(OfRow, [e]))| == |Flat(OfBytes(e.value))| + 15
  {
    FlatNode([]);
    assert OfBytes([]) == NONE;
    var row := Node([NONE, OfBytes(e.value), Leaf(0), Leaf(0)]);
    FlatShort(NONE, OfBytes(e.value), Leaf(0), Leaf(0), NONE);
    FlatNode(row.items);
    var rows := OfAll(OfRow, [e]);
    assert rows.items == [row];
    FlatShort(row, NONE, NONE, NONE, NONE);
    FlatNode(rows.items);
  }

  lemma TablesSize(te: TableEdit)
    requires te.table == "" && te.schema == [] && !te.drop && te.claims == []
    ensures |Flat(OfAll(OfTable, [te]))| == |Flat(OfAll(OfRow, te.edits))| + 18
  {
    FlatNode([]);
    assert OfText("") == NONE && OfBytes([]) == NONE && OfAll(OfClaim, []) == NONE;
    var rows := OfAll(OfRow, te.edits);
    var table := Node([NONE, NONE, Leaf(0), rows, NONE]);
    FlatShort(NONE, NONE, Leaf(0), rows, NONE);
    FlatNode(table.items);
    var tables := OfAll(OfTable, [te]);
    assert tables.items == [table];
    FlatShort(table, NONE, NONE, NONE, NONE);
    FlatNode(tables.items);
  }

  lemma ZeroRowSize(size: nat)
    ensures |Payload(ZeroRow(size))| == 3 * size + 52
  {
    var r := ZeroRow(size);
    var te := r.edits[0];
    ZeroValueSize(te.edits[0].value);
    RowsSize(te.edits[0]);
    TablesSize(te);
    FlatNode([]);
    assert OfText("") == NONE;
    var tables := OfAll(OfTable, r.edits);
    FlatShort(Leaf(1), NONE, Leaf(1), NONE, tables);
    FlatNode(OfRecord(r).items);
  }

  /** A row that makes its transaction's payload larger than the limit: the frame is written and reads as corrupt,
      and so does every journal in which it comes first. */
  lemma HugeRowUnreadable(rest: seq<byte>) returns (codec: Codec, r: Record)
    ensures Faithful(codec) && r.TypedPrepare? && |r.edits| == 1 && |codec.enc(r)| > MAX_PAYLOAD
    ensures ScanFrame(codec, FrameBytes(codec, r) + rest) == Corrupt && ReadAll(codec, FrameBytes(codec, r) + rest) == None
  {
    codec := PlainCodec();
    r := ZeroRow(0x2000_0000);
    ZeroRowSize(0x2000_0000);
    FrameReadable(codec, r, rest);
  }
}
