/** Reading only some columns of a stored row (`newRowProjection`, `decodeRowProjected`). */
module RowProjection {
  import opened Bytes
  import opened Overlays
  import opened RowCells
  import opened RowCodec

  /** `rowProjection`: for every column its first place in the output or -1, and the last column needed. */
  datatype Projection =
    | Whole
    | Part(ordinals: seq<nat>, slot: seq<int>, last: int, repeats: bool)

  function Project(row: Row, ordinals: seq<nat>): Row
    requires forall j :: 0 <= j < |ordinals| ==> ordinals[j] < |row|
  {
    seq(|ordinals|, j requires 0 <= j < |ordinals| => row[ordinals[j]])
  }

  ghost predicate Within(ordinals: seq<nat>, width: nat) { forall j :: 0 <= j < |ordinals| ==> ordinals[j] < width }

  /** Every column's slot is the first place that asks for it. */
  ghost predicate FirstSlots(ordinals: seq<nat>, n: nat, slot: seq<int>, width: nat)
    requires n <= |ordinals|
  {
    && |slot| == width
    && (forall c :: 0 <= c < width ==> -1 <= slot[c] < n && (slot[c] >= 0 ==> ordinals[slot[c]] == c))
    && (forall j :: 0 <= j < n && ordinals[j] < width ==> 0 <= slot[ordinals[j]] <= j)
  }

  ghost predicate Covers(p: Projection, ordinals: seq<nat>, width: nat) {
    if p.Whole? then |ordinals| == width && forall j :: 0 <= j < width ==> ordinals[j] == j
    else
      && p.ordinals == ordinals && FirstSlots(ordinals, |ordinals|, p.slot, width)
      && -1 <= p.last < width && (p.last < 0 ==> ordinals == []) && (forall j :: 0 <= j < |ordinals| ==> ordinals[j] <= p.last)
      && (!p.repeats ==> forall j :: 0 <= j < |ordinals| && ordinals[j] < width ==> p.slot[ordinals[j]] == j)
  }

  /** `newRowProjection`. */
  method NewRowProjection(width: nat, ordinals: seq<nat>) returns (p: Projection)
    requires Within(ordinals, width)
    ensures Covers(p, ordinals, width)
    ensures p.Whole? <==> |ordinals| == width && forall j :: 0 <= j < width ==> ordinals[j] == j
  {
    if |ordinals| == width {
      var identity := true;
      for i := 0 to |ordinals|
        invariant identity <==> forall j :: 0 <= j < i ==> ordinals[j] == j
      {
        identity := identity && ordinals[i] == i;
      }
      if identity { return Whole; }
    }
    var slot: seq<int> := seq(width, i => -1);
    var last, repeats := -1, false;
    for i := 0 to |ordinals|
      invariant FirstSlots(ordinals, i, slot, width)
      invariant -1 <= last < width && (last < 0 ==> i == 0) && forall j :: 0 <= j < i ==> ordinals[j] <= last
      invariant !repeats ==> forall j :: 0 <= j < i && ordinals[j] < width ==> slot[ordinals[j]] == j
    {
      var ordinal := ordinals[i];
      if slot[ordinal] >= 0 {
        repeats := true;
        continue;
      }
      slot := slot[ordinal := i];
      if ordinal > last { last := ordinal; }
    }
    p := Part(ordinals, slot, last, repeats);
  }

  /** Skipping takes what reading takes, whenever reading succeeds. */
  ghost predicate SkipsAlike(readers: seq<Reader>, skippers: seq<Skipper>) {
    && |readers| == |skippers|
    && (forall i, b {:trigger readers[i](b)} {:trigger skippers[i](b)} :: 0 <= i < |readers| && readers[i](b).Some? ==>
          skippers[i](b) == Some(readers[i](b).value.1))
    && (forall i, b {:trigger skippers[i](b)} :: 0 <= i < |readers| && skippers[i](b).Some? ==> skippers[i](b).value <= |b|)
  }

  lemma SchemaSkipsAlike(schema: Schema)
    ensures SkipsAlike(Readers(schema), Skippers(schema))
  {
    forall i, b | 0 <= i < |schema|
      ensures Readers(schema)[i](b).Some? ==> Skippers(schema)[i](b) == Some(Readers(schema)[i](b).value.1)
      ensures Skippers(schema)[i](b).Some? ==> Skippers(schema)[i](b).value <= |b|
    {
      SkipAsRead(schema[i], b);
    }
  }

  /** Before column `i` of a row that reads in full: what is left reads as the rest of the row. */
  ghost predicate Remaining(readers: seq<Reader>, flags: seq<bool>, i: nat, b: seq<byte>, row: Row) {
    && i <= |readers| == |flags| == |row|
    && ReadCells(readers, flags, i, b).Some? && ReadCells(readers, flags, i, b).value.0 == row[i..]
  }

  lemma {:induction false} ReadWidth(readers: seq<Reader>, flags: seq<bool>, i: nat, b: seq<byte>)
    requires i <= |readers| == |flags| && ReadCells(readers, flags, i, b).Some?
    ensures |ReadCells(readers, flags, i, b).value.0| == |readers| - i
    decreases |readers| - i
  {
    if i < |readers| {
      if flags[i] { ReadWidth(readers, flags, i + 1, b); } else { ReadWidth(readers, flags, i + 1, b[readers[i](b).value.1..]); }
    }
  }

  lemma RemainingNull(readers: seq<Reader>, flags: seq<bool>, i: nat, b: seq<byte>, row: Row)
    requires Remaining(readers, flags, i, b, row) && i < |readers| && flags[i]
    ensures row[i] == None && Remaining(readers, flags, i + 1, b, row)
  {
    HeadTail(None, ReadCells(readers, flags, i + 1, b).value.0, row, i);
  }

  lemma RemainingCell(readers: seq<Reader>, flags: seq<bool>, i: nat, b: seq<byte>, row: Row)
    requires Remaining(readers, flags, i, b, row) && i < |readers| && !flags[i]
    ensures var c := readers[i](b);
            c.Some? && c.value.1 <= |b| && row[i] == Some(c.value.0) && Remaining(readers, flags, i + 1, b[c.value.1..], row)
  {
    var c := readers[i](b).value;
    HeadTail(Some(c.0), ReadCells(readers, flags, i + 1, b[c.1..]).value.0, row, i);
  }

  lemma HeadTail<T>(x: T, rest: seq<T>, row: seq<T>, i: nat)
    requires i < |row| && [x] + rest == row[i..]
    ensures x == row[i] && rest == row[i + 1..]
  {
    assert ([x] + rest)[0] == row[i..][0] && ([x] + rest)[1..] == row[i..][1..];
  }

  /** The output once the columns before `i` are passed: first slots filled, everything else still NULL. */
  ghost predicate Filled(p: Projection, i: nat, out: Row, row: Row)
    requires p.Part?
  {
    && |out| == |p.ordinals|
    && forall j :: 0 <= j < |out| && p.ordinals[j] < |row| && p.ordinals[j] < |p.slot| ==>
         out[j] == if p.slot[p.ordinals[j]] == j && p.ordinals[j] < i then row[p.ordinals[j]] else None
  }

  /** One more column passed. */
  lemma FilledNext(p: Projection, i: nat, out: Row, row: Row)
    requires p.Part? && Covers(p, p.ordinals, |row|) && Within(p.ordinals, |row|) && i < |row| && Filled(p, i, out, row)
    ensures row[i].None? || p.slot[i] < 0 ==> Filled(p, i + 1, out, row)
    ensures p.slot[i] >= 0 ==> p.slot[i] < |out| && Filled(p, i + 1, out[p.slot[i] := row[i]], row)
  {
  }

  lemma FilledEnd(p: Projection, out: Row, row: Row)
    requires p.Part? && Covers(p, p.ordinals, |row|) && Within(p.ordinals, |row|) && !p.repeats && Filled(p, p.last + 1, out, row)
    ensures out == Project(row, p.ordinals)
  {
  }

  /** `decodeRowProjected` behind the head of the row. */
  method ProjectCells(readers: seq<Reader>, skippers: seq<Skipper>, flags: seq<bool>, data: seq<byte>, start: nat, p: Projection)
    returns (out: Option<Row>)
    requires p.Part? && Covers(p, p.ordinals, |readers|) && Within(p.ordinals, |readers|)
    requires |flags| == |readers| && start <= |data| && AllBounded(readers) && SkipsAlike(readers, skippers)
    ensures var all := ReadCells(readers, flags, 0, data[start..]);
            all.Some? ==> |all.value.0| == |readers| && out == Some(Project(all.value.0, p.ordinals))
  {
    var d := new RowDecoder(data, start);
    var cells: Row := seq(|p.ordinals|, j => None);
    ghost var all := ReadCells(readers, flags, 0, data[start..]);
    ghost var row: Row := if all.Some? then all.value.0 else [];
    if all.Some? {
      ReadWidth(readers, flags, 0, data[start..]);
      assert row[0..] == row;
    }
    for i := 0 to p.last + 1
      invariant d.Valid() && |cells| == |p.ordinals|
      invariant all.Some? ==> Remaining(readers, flags, i, d.Rest(), row) && Filled(p, i, cells, row)
    {
      if all.Some? { FilledNext(p, i, cells, row); }
      if flags[i] {
        if all.Some? { RemainingNull(readers, flags, i, d.Rest(), row); }
        continue;
      }
      if all.Some? { RemainingCell(readers, flags, i, d.Rest(), row); }
      var slot := p.slot[i];
      if slot >= 0 {
        var v := d.Cell(readers[i]);
        if v.None? { return None; }
        cells := cells[slot := v];
      } else {
        var ok := d.Skip(skippers[i]);
        if !ok { return None; }
      }
    }
    if p.repeats { cells := Repeat(p, cells, |readers|, row, all.Some?); } else { ghost var whole := all.Some?; if whole { FilledEnd(p, cells, row); } }
    return Some(cells);
  }

  /** A column asked for again takes the value of its first place. */
  method Repeat(p: Projection, cells: Row, width: nat, ghost row: Row, ghost full: bool) returns (out: Row)
    requires p.Part? && Covers(p, p.ordinals, width) && Within(p.ordinals, width) && |cells| == |p.ordinals|
    requires full ==> |row| == width && Filled(p, p.last + 1, cells, row)
    ensures |out| == |cells|
    ensures full ==> out == Project(row, p.ordinals)
  {
    out := cells;
    for j := 0 to |p.ordinals|
      invariant |out| == |cells|
      invariant full ==> forall k :: 0 <= k < j ==> out[k] == row[p.ordinals[k]]
      invariant full ==> forall k :: j <= k < |out| ==> out[k] == cells[k]
    {
      out := out[j := out[p.slot[p.ordinals[j]]]];
    }
  }

  /** `decodeRowProjected`: whenever the whole row reads, exactly its projection, for any columns in any order, with
      repeats. */
  method DecodeRowProjected(schema: Schema, data: seq<byte>, p: Projection, ghost ordinals: seq<nat>) returns (out: Option<Row>)
    requires Covers(p, ordinals, |schema|) && Within(ordinals, |schema|)
    ensures RowOf(schema, data).Some? ==> |RowOf(schema, data).value| == |schema| && out == Some(Project(RowOf(schema, data).value, ordinals))
  {
    if p.Whole? {
      out := DecodeRow(schema, data);
      if out.Some? {
        RowWidth(schema, data);
        assert Project(out.value, ordinals) == out.value;
      }
      return;
    }
    if p.last < 0 {
      if RowOf(schema, data).Some? {
        RowWidth(schema, data);
        assert Project(RowOf(schema, data).value, ordinals) == [];
      }
      return Some([]);
    }
    var head := ReadHead(schema, data);
    if head.None? { return None; }
    ReadersBounded(schema);
    SchemaSkipsAlike(schema);
    out := ProjectCells(Readers(schema), Skippers(schema), Flags(head.value.0, |schema|), data, head.value.1, p);
  }

  lemma RowWidth(schema: Schema, data: seq<byte>)
    requires RowOf(schema, data).Some?
    ensures |RowOf(schema, data).value| == |schema|
  {
    var h := ReadHead(schema, data).value;
    ReadWidth(Readers(schema), Flags(h.0, |schema|), 0, data[h.1..]);
  }
}
