/** A map with edits laid over it: what a tree plus pending edits, or pending edits plus a transaction's own
    edits, stand for. An edit is `Some(new value)` or `None` for a delete. */
module Overlays {
  import opened Bytes

  datatype Option<+T> = None | Some(value: T)

  function Overlaid<V>(base: map<Key, V>, edits: map<Key, Option<V>>): map<Key, V> {
    map k | k in base.Keys + edits.Keys && (k in edits ==> edits[k].Some?) ::
      if k in edits then edits[k].value else base[k]
  }

  /** Two layers of edits act as their union, the upper one winning. */
  lemma OverlaidTwice<V>(base: map<Key, V>, lower: map<Key, Option<V>>, upper: map<Key, Option<V>>)
    ensures Overlaid(Overlaid(base, lower), upper) == Overlaid(base, lower + upper)
  {
  }

  /** An edited key hides the base's value of it; any other key shows it. */
  lemma OverlaidUpdate<V>(base: map<Key, V>, edits: map<Key, Option<V>>, k: Key, v: V)
    ensures Overlaid(base[k := v], edits) == if k in edits then Overlaid(base, edits) else Overlaid(base, edits)[k := v]
  {
  }
}
