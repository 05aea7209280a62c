/** Stored Prolly nodes (`common/prolly/codec.go`, `common/prolly/offsets.go`): encoding, decoding, and a binary
    search over cached item offsets that reads only the items it looks at. */
module NodeCodec {
  import opened Bytes
  import opened Overlays
  import opened Sequences
  import opened Varints

  /** A leaf's entry, or an interior node's link with its child's 32-byte hash. */
  datatype Item = Row(key: Key, value: seq<byte>) | Link(key: Key, count: nat, hash: seq<byte>)

  datatype Stored = Stored(level: byte, items: seq<Item>)

  const HASH_SIZE := 32

  /** Level 0 holds entries, any other level links, and lengths fit in 64 bits. */
  predicate ItemFits(level: byte, x: Item) {
    |x.key| < TWO64 && if level == 0 then x.Row? && |x.value| < TWO64 else x.Link? && x.count < TWO64 && |x.hash| == HASH_SIZE
  }

  ghost predicate Fits(n: Stored) { |n.items| < TWO64 && AllFit(n.level, n.items) }

  ghost predicate AllFit(level: byte, items: seq<Item>) { forall i :: 0 <= i < |items| ==> ItemFits(level, items[i]) }

  function ItemBytes(x: Item): seq<byte> {
    match x
    case Row(key, value) => Counted(key) + Counted(value)
    case Link(key, count, hash) => Counted(key) + (Uvarint(count) + hash)
  }

  function ItemsBytes(items: seq<Item>): seq<byte> {
    if items == [] then [] else ItemBytes(items[0]) + ItemsBytes(items[1..])
  }

  function NodeBytes(n: Stored): seq<byte> { [0x50, 1, n.level] + (Uvarint(|n.items|) + ItemsBytes(n.items)) }

  /** `encodeNode`. */
  method EncodeNode(n: Stored) returns (b: seq<byte>)
    ensures b == NodeBytes(n)
  {
    b := [0x50, 1, n.level] + Uvarint(|n.items|);
    ghost var head := b;
    assert n.items[0..] == n.items;
    Regroup([0x50, 1, n.level], Uvarint(|n.items|), ItemsBytes(n.items));
    for i := 0 to |n.items|
      invariant b + ItemsBytes(n.items[i..]) == NodeBytes(n)
    {
      assert n.items[i..][1..] == n.items[i + 1..];
      Regroup(b, ItemBytes(n.items[i]), ItemsBytes(n.items[i + 1..]));
      b := b + ItemBytes(n.items[i]);
    }
    assert b + [] == b;
  }

  // Reading.

  /** `field`. */
  function ReadField(b: seq<byte>): (r: Option<(Key, nat)>)
    ensures r.Some? ==> 1 <= r.value.1 <= |b|
  {
    match ReadSpan(b)
    case None => None
    case Some(s) => ReadTakes(b, 0); Some((b[s.0..s.1], s.1))
  }

  /** `nextEntry` and `nextLinkRaw`. */
  function ReadItem(level: byte, b: seq<byte>): (r: Option<(Item, nat)>)
    ensures r.Some? ==> 2 <= r.value.1 <= |b|
  {
    match ReadField(b)
    case None => None
    case Some(k) =>
      if level == 0 then
        match ReadField(b[k.1..])
        case None => None
        case Some(v) => Some((Row(k.0, v.0), k.1 + v.1))
      else
        match ReadUvarint(b[k.1..])
        case None => None
        case Some(c) =>
          ReadTakes(b[k.1..], 0);
          var at := k.1 + c.1;
          if |b| - at < HASH_SIZE then None else Some((Link(k.0, c.0, b[at..at + HASH_SIZE]), at + HASH_SIZE))
  }

  /** How a node's items are read. */
  type Reader = seq<byte> -> Option<(Item, nat)>

  function ReaderOf(level: byte): Reader { (b: seq<byte>) => ReadItem(level, b) }

  function Behind(x: Item, n: nat, rest: Option<(seq<Item>, nat)>): Option<(seq<Item>, nat)> {
    match rest case None => None case Some(r) => Some(([x] + r.0, n + r.1))
  }

  function ReadItems(read: Reader, count: nat, b: seq<byte>): Option<(seq<Item>, nat)>
    decreases count
  {
    if count == 0 then Some(([], 0))
    else match read(b)
         case None => None
         case Some(x) => if x.1 > |b| then None else Behind(x.0, x.1, ReadItems(read, count - 1, b[x.1..]))
  }

  datatype Header = Header(level: byte, count: nat, start: nat)

  /** `newNodeReader`. */
  function ReadHeader(data: seq<byte>): (h: Option<Header>)
    ensures h.Some? ==> h.value.start <= |data|
  {
    if |data| < 4 || data[0] != 0x50 || data[1] != 1 then None
    else match ReadUvarint(data[3..])
         case None => None
         case Some(c) =>
           ReadTakes(data[3..], 0);
           if c.0 > (|data| - 3 - c.1) / 2 then None else Some(Header(data[2], c.0, 3 + c.1))
  }

  /** `decodeNode`. */
  function NodeOf(data: seq<byte>): Option<Stored> {
    match ReadHeader(data)
    case None => None
    case Some(h) =>
      match ReadItems(ReaderOf(h.level), h.count, data[h.start..])
      case None => None
      case Some(r) => if h.start + r.1 == |data| then Some(Stored(h.level, r.0)) else None
  }

  // Round trip.

  lemma FieldRoundTrip(x: seq<byte>, rest: seq<byte>)
    requires |x| < TWO64
    ensures ReadField(Counted(x) + rest) == Some((x, |Counted(x)|)) && (Counted(x) + rest)[|Counted(x)|..] == rest
  {
    SpanRoundTrip(x, rest);
  }

  lemma ItemRoundTrip(level: byte, x: Item, rest: seq<byte>)
    requires ItemFits(level, x)
    ensures ReadItem(level, ItemBytes(x) + rest) == Some((x, |ItemBytes(x)|)) && (ItemBytes(x) + rest)[|ItemBytes(x)|..] == rest
    ensures |ItemBytes(x)| >= 2
  {
    match x
    case Row(key, value) =>
      Regroup(Counted(key), Counted(value), rest);
      FieldRoundTrip(key, Counted(value) + rest);
      FieldRoundTrip(value, rest);
    case Link(key, count, hash) =>
      Regroup(Counted(key), Uvarint(count) + hash, rest);
      FieldRoundTrip(key, (Uvarint(count) + hash) + rest);
      Regroup(Uvarint(count), hash, rest);
      UvarintRoundTrip(count, hash + rest);
      HashBehind(Counted(key), Uvarint(count), hash, rest);
  }

  lemma HashBehind(a: seq<byte>, b: seq<byte>, hash: seq<byte>, rest: seq<byte>)
    requires |hash| == HASH_SIZE
    ensures var all := a + (b + hash) + rest;
            |all| - |a| - |b| >= HASH_SIZE && all[|a| + |b|..|a| + |b| + HASH_SIZE] == hash
  {
  }

  /** A reader that gives back every item of the level. */
  ghost predicate Inverts(read: Reader, level: byte) {
    forall x: Item, rest: seq<byte> {:trigger read(ItemBytes(x) + rest)} :: ItemFits(level, x) ==> read(ItemBytes(x) + rest) == Some((x, |ItemBytes(x)|))
  }

  lemma ReaderInverts(level: byte)
    ensures Inverts(ReaderOf(level), level)
  {
    forall x: Item, rest: seq<byte> | ItemFits(level, x) ensures ReaderOf(level)(ItemBytes(x) + rest) == Some((x, |ItemBytes(x)|)) {
      ItemRoundTrip(level, x, rest);
    }
  }

  lemma DropFront(a: seq<byte>, b: seq<byte>)
    ensures (a + b)[|a|..] == b
  {
  }

  lemma {:induction false} ItemsRead(read: Reader, level: byte, items: seq<Item>)
    requires Inverts(read, level) && AllFit(level, items)
    ensures ReadItems(read, |items|, ItemsBytes(items)) == Some((items, |ItemsBytes(items)|))
  {
    if items != [] {
      var x, rest := ItemBytes(items[0]), ItemsBytes(items[1..]);
      ItemsRead(read, level, items[1..]);
      OneMore(read, |items| - 1, items[0], x, items[1..], rest);
      assert items == [items[0]] + items[1..];
    }
  }

  lemma OneMore(read: Reader, count: nat, item: Item, x: seq<byte>, items: seq<Item>, rest: seq<byte>)
    requires read(x + rest) == Some((item, |x|)) && ReadItems(read, count, rest) == Some((items, |rest|))
    ensures ReadItems(read, count + 1, x + rest) == Some(([item] + items, |x + rest|))
  {
    DropFront(x, rest);
    ReadOne(read, count + 1, x + rest, item, |x|);
  }

  lemma ItemsRoundTrip(level: byte, items: seq<Item>)
    requires AllFit(level, items)
    ensures ReadItems(ReaderOf(level), |items|, ItemsBytes(items)) == Some((items, |ItemsBytes(items)|))
  {
    ReaderInverts(level);
    ItemsRead(ReaderOf(level), level, items);
  }

  /** Two bytes an item at least, which bounds the count a header may claim. */
  lemma {:induction false} ItemsSize(level: byte, items: seq<Item>)
    requires AllFit(level, items)
    ensures |ItemsBytes(items)| >= 2 * |items|
  {
    if items != [] {
      ItemRoundTrip(level, items[0], []);
      ItemsSize(level, items[1..]);
    }
  }

  lemma ReadOne(read: Reader, count: nat, b: seq<byte>, x: Item, n: nat)
    requires count > 0 && read(b) == Some((x, n)) && n <= |b|
    ensures ReadItems(read, count, b) == Behind(x, n, ReadItems(read, count - 1, b[n..]))
  {
  }

  /** Every node is decoded to what was encoded. */
  lemma NodeRoundTrip(n: Stored)
    requires Fits(n)
    ensures NodeOf(NodeBytes(n)) == Some(n)
  {
    HeaderRoundTrip(n);
    ItemsRoundTrip(n.level, n.items);
  }

  lemma HeaderRoundTrip(n: Stored)
    requires Fits(n)
    ensures var data, start := NodeBytes(n), 3 + |Uvarint(|n.items|)|;
            && ReadHeader(data) == Some(Header(n.level, |n.items|, start))
            && data[start..] == ItemsBytes(n.items) && |data| == start + |ItemsBytes(n.items)|
  {
    var count, items := Uvarint(|n.items|), ItemsBytes(n.items);
    HeaderParts(n.level, count, items);
    UvarintRoundTrip(|n.items|, items);
    ItemsSize(n.level, n.items);
  }

  lemma HeaderParts(level: byte, count: seq<byte>, items: seq<byte>)
    requires count != []
    ensures var data := [0x50, 1, level] + (count + items);
            && data[0] == 0x50 && data[1] == 1 && data[2] == level && data[3..] == count + items
            && data[3 + |count|..] == items && |data| == 3 + |count| + |items| >= 4
  {
    var data := [0x50, 1, level] + (count + items);
    assert data[3..] == count + items;
    assert data[3 + |count|..] == (count + items)[|count|..];
  }

  // Offsets and search.

  /** Each offset is where its item starts. */
  ghost predicate OffsetsOf(data: seq<byte>, read: Reader, items: seq<Item>, offsets: seq<nat>) {
    && |offsets| == |items|
    && forall i :: 0 <= i < |items| ==> offsets[i] <= |data| && ItemAt(data, read, offsets[i], items[i])
  }

  predicate ItemAt(data: seq<byte>, read: Reader, at: nat, x: Item)
    requires at <= |data|
  {
    read(data[at..]).Some? && read(data[at..]).value.0 == x
  }

  /** What parsing a node gives: its items, and their offsets. */
  ghost predicate ParsedNode(data: seq<byte>, n: Option<Stored>, offsets: seq<nat>) {
    n == NodeOf(data) && (n.Some? ==> OffsetsOf(data, ReaderOf(n.value.level), n.value.items, offsets))
  }

  /** The parse loop of `itemOffsets`, which is that of `decode` too: all items, and nothing behind them. */
  method ParseNode(data: seq<byte>) returns (n: Option<Stored>, offsets: seq<nat>)
    ensures ParsedNode(data, n, offsets)
  {
    var h := ReadHeader(data);
    if h.None? { return None, []; }
    var ok, items;
    ok, items, offsets := ParseItems(ReaderOf(h.value.level), h.value.count, data, h.value.start);
    n := if ok then Some(Stored(h.value.level, items)) else None;
  }

  method ParseItems(read: Reader, count: nat, data: seq<byte>, start: nat) returns (ok: bool, items: seq<Item>, offsets: seq<nat>)
    requires start <= |data|
    ensures var all := ReadItems(read, count, data[start..]);
            && ok == (all.Some? && start + all.value.1 == |data|)
            && (ok ==> items == all.value.0 && OffsetsOf(data, read, items, offsets))
  {
    items, offsets := [], [];
    var pos, remaining := start, count;
    ghost var all := ReadItems(read, count, data[start..]);
    NoItems(all);
    while remaining > 0
      invariant start <= pos <= |data| && Parsed(all, read, items, pos - start, remaining, data[pos..])
      invariant OffsetsOf(data, read, items, offsets)
    {
      var rest := data[pos..];
      ParsedOne(all, read, items, pos - start, remaining, rest);
      var x := read(rest);
      if x.None? || x.value.1 > |rest| { return false, items, offsets; }
      Further(data, pos, x.value.1);
      OffsetsOne(data, read, items, offsets, pos, x.value.0);
      offsets := offsets + [pos];
      items, pos, remaining := items + [x.value.0], pos + x.value.1, remaining - 1;
    }
    assert items + [] == items;
    ok := pos == |data|;
  }

  lemma Further(data: seq<byte>, pos: nat, n: nat)
    requires pos + n <= |data|
    ensures data[pos..][n..] == data[pos + n..]
  {
  }

  lemma OffsetsOne(data: seq<byte>, read: Reader, items: seq<Item>, offsets: seq<nat>, at: nat, x: Item)
    requires OffsetsOf(data, read, items, offsets) && at <= |data| && ItemAt(data, read, at, x)
    ensures OffsetsOf(data, read, items + [x], offsets + [at])
  {
  }

  ghost predicate Parsed(all: Option<(seq<Item>, nat)>, read: Reader, items: seq<Item>, n: nat, remaining: nat, b: seq<byte>) {
    all == match ReadItems(read, remaining, b) case None => None case Some(r) => Some((items + r.0, n + r.1))
  }

  lemma NoItems(all: Option<(seq<Item>, nat)>)
    ensures all == match all case None => None case Some(r) => Some(([] + r.0, 0 + r.1))
  {
    if all.Some? { assert [] + all.value.0 == all.value.0; }
  }

  lemma ParsedOne(all: Option<(seq<Item>, nat)>, read: Reader, items: seq<Item>, n: nat, remaining: nat, b: seq<byte>)
    requires remaining > 0 && Parsed(all, read, items, n, remaining, b)
    ensures var x := read(b);
            if x.None? || x.value.1 > |b| then all.None?
            else Parsed(all, read, items + [x.value.0], n + x.value.1, remaining - 1, b[x.value.1..])
  {
    var x := read(b);
    if x.Some? && x.value.1 <= |b| {
      var rest := ReadItems(read, remaining - 1, b[x.value.1..]);
      if rest.Some? { Regroup(items, [x.value.0], rest.value.0); }
    }
  }

  /** Stored nodes by hash. */
  type Store = map<seq<byte>, seq<byte>>

  /** The offsets of a node that parses. */
  ghost predicate Right(data: seq<byte>, offsets: seq<nat>) { NodeOf(data).Some? && ParsedNode(data, NodeOf(data), offsets) }

  ghost predicate AllRight(store: Store, entries: map<seq<byte>, seq<nat>>) {
    forall h {:trigger entries[h]} :: h in entries ==> h in store && Right(store[h], entries[h])
  }

  lemma RightStays(store: Store, entries: map<seq<byte>, seq<nat>>, hash: seq<byte>, offsets: seq<nat>)
    requires AllRight(store, entries) && hash in store && Right(store[hash], offsets)
    ensures AllRight(store, entries[hash := offsets])
  {
  }

  lemma FewerRight(store: Store, entries: map<seq<byte>, seq<nat>>, evict: seq<byte>)
    requires AllRight(store, entries)
    ensures AllRight(store, entries - {evict})
  {
    forall h | h in entries - {evict} ensures h in store && Right(store[h], (entries - {evict})[h]) { assert (entries - {evict})[h] == entries[h]; }
  }

  /** The process-wide cache of offsets, bounded, evicting arbitrary entries. */
  class OffsetCache {
    const bound: nat
    var entries: map<seq<byte>, seq<nat>>

    /** Content is immutable, so what was parsed once is right for ever. */
    ghost predicate Valid(store: Store)
      reads this
    {
      bound > 0 && |entries| <= bound && AllRight(store, entries)
    }

    constructor (bound: nat, ghost store: Store)
      requires bound > 0
      ensures Valid(store) && this.bound == bound
    {
      this.bound, entries := bound, map[];
    }

    /** `itemOffsets`. */
    method ItemOffsets(hash: seq<byte>, data: seq<byte>, ghost store: Store) returns (offsets: Option<seq<nat>>)
      requires Valid(store) && hash in store && store[hash] == data
      modifies this
      ensures Valid(store)
      ensures offsets.Some? <==> NodeOf(data).Some?
      ensures offsets.Some? ==> Right(data, offsets.value)
    {
      if hash in entries {
        assert Right(store[hash], entries[hash]);
        return Some(entries[hash]);
      }
      var n, parsed := ParseNode(data);
      if n.None? { return None; }
      if |entries| >= bound {
        var evict :| evict in entries;
        Evicted(entries, evict);
        FewerRight(store, entries, evict);
        entries := entries - {evict};
      }
      Cached(entries, hash, parsed);
      RightStays(store, entries, hash, parsed);
      entries := entries[hash := parsed];
      return Some(parsed);
    }

    /** `nodeReader.search`: the first item whose key is not below `key`, read in place. */
    method Search(hash: seq<byte>, data: seq<byte>, key: Key, ghost store: Store) returns (i: Option<nat>)
      requires Valid(store) && hash in store && store[hash] == data
      requires NodeOf(data).Some? ==> KeysSorted(NodeOf(data).value.items)
      modifies this
      ensures Valid(store)
      ensures i.Some? <==> NodeOf(data).Some?
      ensures i.Some? ==> FirstAtLeast(NodeOf(data).value.items, key, i.value)
    {
      var offsets := ItemOffsets(hash, data, store);
      if offsets.None? { return None; }
      ghost var n := NodeOf(data).value;
      var at := SearchOffsets(data, n.level, n.items, offsets.value, key);
      return Some(at);
    }
  }

  /** `sort.Search` over the offsets, decoding the key of each probed item. */
  method SearchOffsets(data: seq<byte>, ghost level: byte, ghost items: seq<Item>, offsets: seq<nat>, key: Key) returns (i: nat)
    requires OffsetsOf(data, ReaderOf(level), items, offsets) && KeysSorted(items)
    ensures FirstAtLeast(items, key, i)
  {
    var lo, hi := 0, |offsets|;
    while lo < hi
      invariant 0 <= lo <= hi <= |items|
      invariant BelowTo(items, key, lo) && NotBelowFrom(items, key, hi)
    {
      var mid := (lo + hi) / 2;
      KeyInPlace(data, level, offsets[mid], items[mid]);
      var field := ReadField(data[offsets[mid]..]);
      SplitAt(items, key, lo, hi, mid);
      if Less(field.value.0, key) { lo := mid + 1; } else { hi := mid; }
    }
    return lo;
  }

  lemma Evicted<K, V>(m: map<K, V>, k: K)
    requires k in m
    ensures |m - {k}| == |m| - 1
  {
    assert (m - {k}).Keys == m.Keys - {k};
    assert |m - {k}| == |(m - {k}).Keys| && |m| == |m.Keys|;
  }

  lemma Cached<K, V>(m: map<K, V>, k: K, v: V)
    requires k !in m
    ensures |m[k := v]| == |m| + 1
  {
    assert m[k := v].Keys == m.Keys + {k};
    assert |m[k := v]| == |m[k := v].Keys| && |m| == |m.Keys|;
  }

  ghost predicate KeysSorted(items: seq<Item>) { forall i, j :: 0 <= i < j < |items| ==> Less(items[i].key, items[j].key) }

  ghost predicate BelowTo(items: seq<Item>, key: Key, n: nat) { n <= |items| && forall i :: 0 <= i < n ==> Less(items[i].key, key) }

  ghost predicate NotBelowFrom(items: seq<Item>, key: Key, n: nat) { n <= |items| && forall i :: n <= i < |items| ==> !Less(items[i].key, key) }

  ghost predicate FirstAtLeast(items: seq<Item>, key: Key, i: nat) { BelowTo(items, key, i) && NotBelowFrom(items, key, i) }

  lemma KeyInPlace(data: seq<byte>, level: byte, at: nat, x: Item)
    requires at <= |data| && ItemAt(data, ReaderOf(level), at, x)
    ensures ReadField(data[at..]).Some? && ReadField(data[at..]).value.0 == x.key
  {
  }

  lemma SplitAt(items: seq<Item>, key: Key, lo: nat, hi: nat, mid: nat)
    requires KeysSorted(items) && lo <= mid < hi <= |items| && BelowTo(items, key, lo) && NotBelowFrom(items, key, hi)
    ensures Less(items[mid].key, key) ==> BelowTo(items, key, mid + 1)
    ensures !Less(items[mid].key, key) ==> NotBelowFrom(items, key, mid)
  {
    if Less(items[mid].key, key) {
      forall i | 0 <= i < mid + 1 ensures Less(items[i].key, key) { if i < mid { LessTransitive(items[i].key, items[mid].key, key); } }
    } else {
      forall i | mid <= i < |items| ensures !Less(items[i].key, key) {
        if i > mid {
          LessAsymmetric(items[mid].key, items[i].key);
          AtMostTransitive(key, items[mid].key, items[i].key);
        }
      }
    }
  }

  /** A leaf in bytes. */
  lemma KnownLeaf()
    ensures NodeBytes(Stored(0, [Row([7], [8, 9])])) == [0x50, 1, 0, 1, 1, 7, 2, 8, 9]
  {
    var items := [Row([7], [8, 9])];
    assert items[1..] == [] && ItemsBytes(items[1..]) == [];
    assert ItemBytes(items[0]) == [1, 7] + [2, 8, 9];
  }
}
