/** The journal file of `common/repository/working.go`: a concatenation of frames "RDBJ", payload length,
    CRC, payload. The payload text and the CRC are a parameter; the framing is what survives a crash. */
module JournalFrames {
  import opened Bytes
  import opened Sequences
  import opened Overlays
  import opened WriteLog
  import BigEndian

  datatype Roots = Roots(schema: seq<byte>, data: seq<byte>)

  /** A table manifest. An empty root is an absent one. */
  type Manifest = map<string, Roots>

  /** The journal records. `intact` says that a prepare's objects hash to their names, `inventoried` that
      its manifest lists what it refers to. */
  datatype Record =
    | Prepare(tx: string, generation: nat, base: string, manifest: Option<Manifest>, intact: bool, inventoried: bool)
    | TypedPrepare(tx: string, generation: nat, base: string, edits: seq<TableEdit>)
    | CommitMark(tx: string, generation: nat, base: string)
    | Checkpoint(generation: nat, base: string, git: string, txs: seq<string>, from: nat)
    | OtherKind

  type Word = n: nat | n < 0x1_0000_0000

  /** How a record is written as a payload, and the checksum. */
  datatype Codec = Codec(enc: Record -> seq<byte>, dec: seq<byte> -> Option<Record>, crc: seq<byte> -> Word)

  const MAX_PAYLOAD := 0x4000_0000

  /** Payloads read back as what was written. `JournalPayloads` gives codecs that do. */
  ghost predicate Faithful(codec: Codec) {
    forall r: Record {:trigger codec.enc(r)} :: codec.dec(codec.enc(r)) == Some(r)
  }

  /** The payload length the reader accepts. */
  predicate Fits(codec: Codec, r: Record) { 0 < |codec.enc(r)| <= MAX_PAYLOAD }

  const MAGIC: seq<byte> := [0x52, 0x44, 0x42, 0x4A]

  /** A number in four bytes. */
  function WordBytes(n: Word): (bytes: seq<byte>)
    ensures |bytes| == 4
  {
    BigEndian.Widths();
    BigEndian.Encode(n, 4)
  }

  lemma WordRoundTrip(n: Word)
    ensures BigEndian.Decode(WordBytes(n)) == n
  {
    BigEndian.Widths();
    BigEndian.RoundTrip(n, 4);
  }

  /** `appendRecords`, one record. The length of the payload is truncated to 32 bits. */
  function FrameBytes(codec: Codec, r: Record): seq<byte> {
    var data := codec.enc(r);
    MAGIC + WordBytes(|data| % 0x1_0000_0000) + WordBytes(codec.crc(data)) + data
  }

  function File(codec: Codec, records: seq<Record>): seq<byte> {
    if records == [] then [] else FrameBytes(codec, records[0]) + File(codec, records[1..])
  }

  /** What the reader makes of the bytes from a frame boundary on. */
  datatype Scan = AtEnd | Corrupt | Whole(record: Record, size: nat)

  function ScanFrame(codec: Codec, bytes: seq<byte>): Scan {
    if |bytes| < 12 then AtEnd
    else if bytes[..4] != MAGIC then Corrupt
    else
      var length := BigEndian.Decode(bytes[4..8]);
      if length == 0 || length > MAX_PAYLOAD then Corrupt
      else if |bytes| < 12 + length then AtEnd
      else
        var data := bytes[12..12 + length];
        if codec.crc(data) != BigEndian.Decode(bytes[8..12]) then Corrupt
        else match codec.dec(data)
             case None => Corrupt
             case Some(r) => Whole(r, 12 + length)
  }

  lemma HeaderParts(codec: Codec, r: Record, rest: seq<byte>)
    ensures var data := codec.enc(r);
            var bytes := FrameBytes(codec, r) + rest;
            && |FrameBytes(codec, r)| == 12 + |data|
            && bytes[..4] == MAGIC && BigEndian.Decode(bytes[4..8]) == |data| % 0x1_0000_0000
            && BigEndian.Decode(bytes[8..12]) == codec.crc(data) && bytes[12..12 + |data|] == data
  {
    var data := codec.enc(r);
    var length, crc := WordBytes(|data| % 0x1_0000_0000), WordBytes(codec.crc(data));
    WordRoundTrip(|data| % 0x1_0000_0000);
    WordRoundTrip(codec.crc(data));
    var bytes := FrameBytes(codec, r) + rest;
    assert bytes[4..8] == length && bytes[8..12] == crc;
  }

  /** The value of four bytes, the most significant first. */
  function Word4(b: seq<byte>): nat
    requires |b| == 4
  {
    0x100_0000 * b[0] as nat + 0x1_0000 * b[1] as nat + 0x100 * b[2] as nat + b[3] as nat
  }

  lemma Word4Is(b: seq<byte>)
    requires |b| == 4
    ensures BigEndian.Decode(b) == Word4(b)
  {
    assert b[..3][..2] == b[..2] && b[..2][..1] == b[..1] && b[..1][..0] == [];
    assert BigEndian.Decode(b[..1]) == b[0] as nat;
    assert BigEndian.Decode(b[..2]) == 256 * b[0] as nat + b[1] as nat;
    assert BigEndian.Decode(b[..3]) == 256 * (256 * b[0] as nat + b[1] as nat) + b[2] as nat;
  }

  /** The layout: the letters RDBJ, the length of the payload, its checksum, and the payload. */
  lemma FrameLayout(codec: Codec, r: Record)
    ensures var data, f := codec.enc(r), FrameBytes(codec, r);
            && |f| == 12 + |data| && f[..4] == ['R' as int, 'D' as int, 'B' as int, 'J' as int]
            && Word4(f[4..8]) == |data| % 0x1_0000_0000 && Word4(f[8..12]) == codec.crc(data) && f[12..] == data
  {
    var f := FrameBytes(codec, r);
    HeaderParts(codec, r, []);
    assert f + [] == f;
    Word4Is(f[4..8]);
    Word4Is(f[8..12]);
  }

  /** A written frame is read back if and only if its payload is not empty and not larger than the reader admits. A
      larger one reads as corrupt, unless its length does not fit 32 bits. */
  lemma FrameReadable(codec: Codec, r: Record, rest: seq<byte>)
    requires Faithful(codec)
    ensures Fits(codec, r) <==> ScanFrame(codec, FrameBytes(codec, r) + rest) == Whole(r, |FrameBytes(codec, r)|)
    ensures !Fits(codec, r) && |codec.enc(r)| < 0x1_0000_0000 ==> ScanFrame(codec, FrameBytes(codec, r) + rest) == Corrupt
  {
    HeaderParts(codec, r, rest);
  }

  /** A frame cut short reads as the end of the file. */
  lemma TornFrame(codec: Codec, r: Record, torn: seq<byte>)
    requires Fits(codec, r) && torn < FrameBytes(codec, r)
    ensures ScanFrame(codec, torn) == AtEnd
  {
    HeaderParts(codec, r, []);
    var whole := FrameBytes(codec, r);
    assert whole + [] == whole;
    if |torn| >= 12 {
      assert torn[..4] == whole[..4] && torn[4..8] == whole[4..8];
    }
  }

  /** The records a reader gets, or `None` for a corrupt file. */
  function ReadAll(codec: Codec, bytes: seq<byte>): Option<seq<Record>>
    decreases |bytes|
  {
    match ScanFrame(codec, bytes)
    case AtEnd => Some([])
    case Corrupt => None
    case Whole(r, size) =>
      match ReadAll(codec, bytes[size..])
      case None => None
      case Some(rest) => Some([r] + rest)
  }

  ghost predicate AllFit(codec: Codec, records: seq<Record>) {
    forall i :: 0 <= i < |records| ==> Fits(codec, records[i])
  }

  /** Bytes that a crash can leave behind whole frames: none, or the beginning of a frame. */
  ghost predicate Torn(codec: Codec, tail: seq<byte>) {
    tail == [] || exists r :: Fits(codec, r) && tail < FrameBytes(codec, r)
  }

  lemma TornReadsNothing(codec: Codec, tail: seq<byte>)
    requires Torn(codec, tail)
    ensures ScanFrame(codec, tail) == AtEnd
  {
    if tail != [] {
      var r :| Fits(codec, r) && tail < FrameBytes(codec, r);
      TornFrame(codec, r, tail);
    }
  }

  /** Whole frames are read, a torn tail is not. */
  lemma {:induction false} ReadFile(codec: Codec, records: seq<Record>, tail: seq<byte>)
    requires Faithful(codec) && AllFit(codec, records) && Torn(codec, tail)
    ensures ReadAll(codec, File(codec, records) + tail) == Some(records)
  {
    if records == [] {
      TornReadsNothing(codec, tail);
      assert [] + tail == tail;
    } else {
      var rest := File(codec, records[1..]) + tail;
      ReadFile(codec, records[1..], tail);
      ReadOneFrame(codec, records[0], rest, records[1..]);
      Regroup(FrameBytes(codec, records[0]), File(codec, records[1..]), tail);
      assert records == [records[0]] + records[1..];
    }
  }

  lemma ReadOneFrame(codec: Codec, r: Record, rest: seq<byte>, records: seq<Record>)
    requires Faithful(codec) && Fits(codec, r) && ReadAll(codec, rest) == Some(records)
    ensures ReadAll(codec, FrameBytes(codec, r) + rest) == Some([r] + records)
  {
    var frame := FrameBytes(codec, r);
    FrameReadable(codec, r, rest);
    assert (frame + rest)[|frame|..] == rest;
  }

  lemma {:induction false} FileAppend(codec: Codec, a: seq<Record>, b: seq<Record>)
    ensures File(codec, a + b) == File(codec, a) + File(codec, b)
  {
    if a == [] {
      assert a + b == b && File(codec, b) == [] + File(codec, b);
    } else {
      HeadOfConcat(a, b);
      FileAppend(codec, a[1..], b);
      Regroup(FrameBytes(codec, a[0]), File(codec, a[1..]), File(codec, b));
    }
  }

  lemma FileCons(codec: Codec, records: seq<Record>, k: nat)
    requires records != [] && k < |records|
    ensures File(codec, records[..k + 1]) == FrameBytes(codec, records[0]) + File(codec, records[1..][..k])
  {
    assert records[..k + 1][1..] == records[1..][..k];
  }

  lemma TakeBehind(frame: seq<byte>, rest: seq<byte>, cut: nat, head: seq<byte>, tail: seq<byte>)
    requires |frame| <= cut <= |frame| + |rest| && rest[..cut - |frame|] == head + tail
    ensures (frame + rest)[..cut] == (frame + head) + tail
  {
    assert (frame + rest)[..cut] == frame + rest[..cut - |frame|];
  }

  /** Cutting a journal anywhere leaves the frames that lie wholly before the cut, and a torn one. */
  lemma {:induction false} CutAnywhere(codec: Codec, records: seq<Record>, cut: nat) returns (k: nat, tail: seq<byte>)
    requires AllFit(codec, records) && cut <= |File(codec, records)|
    ensures k <= |records| && Torn(codec, tail)
    ensures File(codec, records)[..cut] == File(codec, records[..k]) + tail
    ensures |File(codec, records[..k])| <= cut
    ensures k < |records| ==> cut < |File(codec, records[..k + 1])|
  {
    if records == [] {
      k, tail := 0, [];
    } else {
      var frame := FrameBytes(codec, records[0]);
      FileCons(codec, records, 0);
      if cut < |frame| {
        k, tail := 0, frame[..cut];
        CutInFrame(codec, records, cut);
      } else {
        var j, t := CutAnywhere(codec, records[1..], cut - |frame|);
        k, tail := j + 1, t;
        CutLater(codec, records, cut, j, t);
      }
    }
  }

  lemma CutInFrame(codec: Codec, records: seq<Record>, cut: nat)
    requires AllFit(codec, records) && records != [] && cut < |FrameBytes(codec, records[0])|
    ensures var tail := FrameBytes(codec, records[0])[..cut];
            Torn(codec, tail) && cut <= |File(codec, records)| && File(codec, records)[..cut] == File(codec, records[..0]) + tail
    ensures cut < |File(codec, records[..1])|
  {
    FileCons(codec, records, 0);
    var frame := FrameBytes(codec, records[0]);
    assert frame[..cut] < frame;
    assert File(codec, records)[..cut] == [] + frame[..cut];
  }

  lemma CutLater(codec: Codec, records: seq<Record>, cut: nat, j: nat, tail: seq<byte>)
    requires records != [] && j < |records| && |FrameBytes(codec, records[0])| <= cut <= |File(codec, records)|
    requires var rest, at := records[1..], cut - |FrameBytes(codec, records[0])|;
             && File(codec, rest)[..at] == File(codec, rest[..j]) + tail && |File(codec, rest[..j])| <= at
             && (j < |rest| ==> at < |File(codec, rest[..j + 1])|)
    ensures File(codec, records)[..cut] == File(codec, records[..j + 1]) + tail && |File(codec, records[..j + 1])| <= cut
    ensures j + 1 < |records| ==> cut < |File(codec, records[..j + 2])|
  {
    var frame, rest := FrameBytes(codec, records[0]), records[1..];
    FileCons(codec, records, j);
    TakeBehind(frame, File(codec, rest), cut, File(codec, rest[..j]), tail);
    if j + 1 < |records| { FileCons(codec, records, j + 1); }
  }

  /** The first twelve bytes of a file, zeros where it is shorter. They identify it. */
  function FirstHeader(file: seq<byte>): seq<byte> {
    if |file| >= 12 then file[..12] else file + seq(12 - |file|, _ => 0)
  }

  /** The cached header is not the one of this file, so an offset into the cached file means nothing here. */
  predicate Replaced(file: seq<byte>, start: nat, wanted: Option<seq<byte>>) {
    wanted.Some? && start > 0 && FirstHeader(file) != wanted.value
  }

  datatype Reading = OtherFile | Unreadable | Frames(records: seq<Record>, ends: seq<nat>)

  /** `readJournalFrames`: refuses another file than the one expected, else gives the frames from an offset on and
      where each one ends. */
  method ReadJournalFrames(codec: Codec, file: seq<byte>, start: nat, wanted: Option<seq<byte>>) returns (r: Reading, first: seq<byte>)
    requires start <= |file|
    ensures first == FirstHeader(file)
    ensures r.OtherFile? <==> Replaced(file, start, wanted)
    ensures !r.OtherFile? ==> (r.Frames? <==> ReadAll(codec, file[start..]).Some?)
    ensures r.Frames? ==> ReadAll(codec, file[start..]) == Some(r.records) && AllEnd(codec, file, start, r.records, r.ends)
  {
    first := if |file| >= 12 then file[..12] else file + seq(12 - |file|, _ => 0);
    if wanted.Some? && start > 0 && first != wanted.value { return OtherFile, first; }
    r := ReadFrames(codec, file, start);
  }

  method ReadFrames(codec: Codec, file: seq<byte>, start: nat) returns (r: Reading)
    requires start <= |file|
    ensures !r.OtherFile? && (r.Frames? <==> ReadAll(codec, file[start..]).Some?)
    ensures r.Frames? ==> ReadAll(codec, file[start..]) == Some(r.records) && AllEnd(codec, file, start, r.records, r.ends)
  {
    var records: seq<Record>, ends: seq<nat> := [], [];
    var offset := start;
    PrependedNothing(ReadAll(codec, file[start..]));
    while true
      invariant start <= offset <= |file| && |ends| == |records|
      invariant ReadAll(codec, file[start..]) == Prepended(records, ReadAll(codec, file[offset..]))
      invariant AllEnd(codec, file, start, records, ends)
      invariant EndsAt(codec, file, start, records, offset)
      decreases |file| - offset
    {
      match ScanFrame(codec, file[offset..])
      case AtEnd => assert records + [] == records; return Frames(records, ends);
      case Corrupt => return Unreadable;
      case Whole(r, size) =>
        assert file[offset..][size..] == file[offset + size..];
        StepEnds(codec, file, start, records, offset, r, size);
        PrependedSnoc(records, r, ReadAll(codec, file[offset + size..]));
        KeepEnds(codec, file, start, records, ends, r, offset + size);
        offset := offset + size;
        records, ends := records + [r], ends + [offset];
    }
  }

  function Prepended(records: seq<Record>, rest: Option<seq<Record>>): Option<seq<Record>> {
    match rest
    case None => None
    case Some(more) => Some(records + more)
  }

  lemma PrependedNothing(rest: Option<seq<Record>>)
    ensures Prepended([], rest) == rest
  {
    if rest.Some? { assert [] + rest.value == rest.value; }
  }

  lemma PrependedSnoc(records: seq<Record>, r: Record, rest: Option<seq<Record>>)
    ensures Prepended(records, Prepended([r], rest)) == Prepended(records + [r], rest)
  {
    if rest.Some? { Regroup(records, [r], rest.value); }
  }

  /** Reading from `start` passes exactly `records` by the time it reaches `end`. */
  ghost predicate EndsAt(codec: Codec, file: seq<byte>, start: nat, records: seq<Record>, end: nat)
    decreases |records|
  {
    if records == [] then end == start
    else
      && start <= |file|
      && var s := ScanFrame(codec, file[start..]);
         s.Whole? && s.record == records[0] && EndsAt(codec, file, start + s.size, records[1..], end)
  }

  ghost predicate AllEnd(codec: Codec, file: seq<byte>, start: nat, records: seq<Record>, ends: seq<nat>) {
    && |ends| == |records|
    && forall i :: 0 <= i < |ends| ==> ends[i] <= |file| && EndsAt(codec, file, start, records[..i + 1], ends[i])
  }

  lemma KeepEnds(codec: Codec, file: seq<byte>, start: nat, records: seq<Record>, ends: seq<nat>, r: Record, end: nat)
    requires AllEnd(codec, file, start, records, ends) && end <= |file|
    requires EndsAt(codec, file, start, records + [r], end)
    ensures AllEnd(codec, file, start, records + [r], ends + [end])
  {
    forall i | 0 <= i <= |ends| ensures EndsAt(codec, file, start, (records + [r])[..i + 1], (ends + [end])[i]) {
      if i < |ends| {
        assert (records + [r])[..i + 1] == records[..i + 1];
      } else {
        assert (records + [r])[..i + 1] == records + [r];
      }
    }
  }

  lemma {:induction false} StepEnds(codec: Codec, file: seq<byte>, start: nat, records: seq<Record>, offset: nat, r: Record, size: nat)
    requires offset <= |file| && EndsAt(codec, file, start, records, offset) && ScanFrame(codec, file[offset..]) == Whole(r, size)
    ensures EndsAt(codec, file, start, records + [r], offset + size)
    decreases |records|
  {
    if records == [] {
      assert (records + [r])[1..] == [];
    } else {
      var s := ScanFrame(codec, file[start..]);
      StepEnds(codec, file, start + s.size, records[1..], offset, r, size);
      assert (records + [r])[1..] == records[1..] + [r];
    }
  }
}
