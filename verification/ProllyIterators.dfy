/** The forward iterator of `common/prolly/tree.go` and the descending one of `reverse.go`: explicit stacks
    of half-visited nodes that stand for a suffix, respectively a prefix, of the entry list. */
module ProllyIterators {
  import opened Bytes
  import opened Sequences
  import opened Sorting
  import opened Prolly
  import opened Overlays
  import opened ProllyReads

  /** An interior node being visited, and the index of its next child. */
  datatype Frame = Frame(children: seq<Link>, next: int)

  // Forward.

  ghost predicate ValidStack(stack: seq<Frame>) {
    forall i :: 0 <= i < |stack| ==> 0 <= stack[i].next <= |stack[i].children| && AllWellLinked(stack[i].children)
  }

  /** The entries still to come once the current leaf is exhausted. */
  ghost function StackRest(stack: seq<Frame>): seq<Entry>
    requires ValidStack(stack)
  {
    if stack == [] then []
    else
      var top := stack[|stack| - 1];
      EntriesUnder(top.children[top.next..]) + StackRest(stack[..|stack| - 1])
  }

  lemma PushRest(stack: seq<Frame>, f: Frame)
    requires ValidStack(stack) && 0 <= f.next <= |f.children| && AllWellLinked(f.children)
    ensures ValidStack(stack + [f])
    ensures StackRest(stack + [f]) == EntriesUnder(f.children[f.next..]) + StackRest(stack)
  {
    assert (stack + [f])[..|stack|] == stack;
  }

  /** Pushing a node's frame and going on in its child `i` covers the children from `i` on. */
  lemma StepDown(stack: seq<Frame>, children: seq<Link>, i: nat)
    requires ValidStack(stack) && AllWellLinked(children) && i < |children|
    ensures ValidStack(stack + [Frame(children, i + 1)])
    ensures EntriesOf(children[i].child) + StackRest(stack + [Frame(children, i + 1)])
            == EntriesUnder(children[i..]) + StackRest(stack)
    ensures WellLinked(children[i].child) && EntriesOf(children[i].child) != []
  {
    ChildLinked(children, i);
    ExtendBy(children, i);
    PushRest(stack, Frame(children, i + 1));
    Regroup(EntriesOf(children[i].child), EntriesUnder(children[i + 1..]), StackRest(stack));
  }

  lemma ChildLinked(children: seq<Link>, i: nat)
    requires AllWellLinked(children) && i < |children|
    ensures WellLinked(children[i].child) && EntriesOf(children[i].child) != []
  {
    SplitAt(children, i);
  }

  lemma DropInto<T>(before: seq<T>, middle: seq<T>, after: seq<T>, tail: seq<T>, f: nat)
    requires f <= |middle|
    ensures (before + middle + after)[|before| + f..] + tail == middle[f..] + (after + tail)
  {
  }

  lemma TakeInto<T>(head: seq<T>, before: seq<T>, middle: seq<T>, after: seq<T>, f: nat)
    requires f <= |middle|
    ensures head + (before + middle + after)[..|before| + f] == (head + before) + middle[..f]
  {
  }

  lemma SeekDown(stack: seq<Frame>, children: seq<Link>, i: nat, start: Key)
    requires ValidStack(stack) && AllWellLinked(children) && i < |children|
    requires Sorted(EntryKey, EntriesUnder(children)) && Sorted(EntryKey, EntriesOf(children[i].child))
    requires ProllyReads.From(EntriesUnder(children), start)
             == |EntriesUnder(children[..i])| + ProllyReads.From(EntriesOf(children[i].child), start)
    ensures ValidStack(stack + [Frame(children, i + 1)])
    ensures OnFrom(EntriesOf(children[i].child), start) + StackRest(stack + [Frame(children, i + 1)])
            == OnFrom(EntriesUnder(children), start) + StackRest(stack)
  {
    PushRest(stack, Frame(children, i + 1));
    DropInto(EntriesUnder(children[..i]), EntriesOf(children[i].child), EntriesUnder(children[i + 1..]),
             StackRest(stack), ProllyReads.From(EntriesOf(children[i].child), start));
    SplitAt(children, i);
  }

  /** The entries from a key on, and those below it. */
  ghost function OnFrom(entries: seq<Entry>, k: Key): seq<Entry>
    requires Sorted(EntryKey, entries)
  {
    entries[ProllyReads.From(entries, k)..]
  }

  ghost function Below(entries: seq<Entry>, k: Key): seq<Entry>
    requires Sorted(EntryKey, entries)
  {
    entries[..ProllyReads.From(entries, k)]
  }

  lemma EndOfConcat<T>(a: seq<T>, b: seq<T>, i: nat)
    requires i < |b|
    ensures var ab := a + b[..i + 1];
            ab != [] && ab[|ab| - 1] == b[i] && ab[..|ab| - 1] == a + b[..i]
  {
  }

  class Iterator {
    var stack: seq<Frame>
    var leaf: seq<Entry>
    var done: bool

    ghost predicate Valid()
      reads this
    {
      ValidStack(stack)
    }

    /** What successive calls of `Next` will still return. */
    ghost function Rest(): seq<Entry>
      requires Valid()
      reads this
    {
      if done then [] else leaf + StackRest(stack)
    }

    /** `Tree.Iterator`. */
    constructor All(root: Node)
      requires WellLinked(root)
      ensures Valid() && Rest() == EntriesOf(root)
    {
      stack, leaf, done := [], [], false;
      new;
      Descend(root);
      assert EntriesOf(root) + StackRest([]) == EntriesOf(root);
    }

    /** `Tree.IteratorFrom`. */
    constructor From(root: Node, start: Key)
      requires WellLinked(root) && Sorted(EntryKey, EntriesOf(root))
      ensures Valid() && Rest() == OnFrom(EntriesOf(root), start)
    {
      stack, leaf, done := [], [], false;
      new;
      SeekTo(root, start);
    }

    /** `descend`: to the first leaf below a node. */
    method Descend(root: Node)
      requires Valid() && WellLinked(root) && !done
      modifies this
      ensures Valid() && !done && Rest() == EntriesOf(root) + StackRest(old(stack))
      ensures EntriesOf(root) != [] ==> leaf != []
    {
      var n := root;
      while n.Interior?
        invariant Valid() && WellLinked(n) && !done
        invariant EntriesOf(n) + StackRest(stack) == EntriesOf(root) + StackRest(old(stack))
        invariant EntriesOf(root) != [] ==> EntriesOf(n) != []
        decreases n
      {
        StepDown(stack, n.children, 0);
        assert n.children[0..] == n.children;
        stack := stack + [Frame(n.children, 1)];
        n := n.children[0].child;
      }
      leaf := n.entries;
    }

    /** `seekTo`. */
    method SeekTo(root: Node, start: Key)
      requires Valid() && WellLinked(root) && Sorted(EntryKey, EntriesOf(root)) && !done && stack == []
      modifies this
      ensures Valid() && Rest() == OnFrom(EntriesOf(root), start)
    {
      var n := root;
      ghost var wanted := OnFrom(EntriesOf(root), start);
      while n.Interior?
        invariant Valid() && WellLinked(n) && Sorted(EntryKey, EntriesOf(n)) && !done
        invariant OnFrom(EntriesOf(n), start) + StackRest(stack) == wanted
        invariant stack != [] ==> ProllyReads.From(EntriesOf(n), start) < |EntriesOf(n)|
        decreases n
      {
        var i := FindChild(n.children, start);
        if i == |n.children| {
          done := true;
          return;
        }
        SeekDown(stack, n.children, i, start);
        stack := stack + [Frame(n.children, i + 1)];
        n := n.children[i].child;
      }
      SortedIsWeak(EntryKey, n.entries);
      var i := LowerBound(EntryKey, n.entries, start);
      if i < |n.entries| {
        leaf := n.entries[i..];
      } else {
        Advance();
      }
    }

    /** `advance`: to the next leaf. */
    method Advance()
      requires Valid() && !done
      modifies this
      ensures Valid() && Rest() == StackRest(old(stack))
      ensures done || leaf != []
    {
      leaf := [];
      while stack != []
        invariant Valid() && !done && StackRest(stack) == StackRest(old(stack))
        decreases |stack|
      {
        var n := |stack| - 1;
        var top := stack[n];
        if top.next < |top.children| {
          StepDown(stack[..n], top.children, top.next);
          stack := stack[..n] + [Frame(top.children, top.next + 1)];
          Descend(top.children[top.next].child);
          return;
        }
        stack := stack[..n];
      }
      done := true;
    }

    /** `Next`. */
    method Next() returns (r: Option<Entry>)
      requires Valid()
      modifies this
      ensures Valid()
      ensures old(Rest()) == [] ==> r == None && Rest() == []
      ensures old(Rest()) != [] ==> r == Some(old(Rest())[0]) && Rest() == old(Rest())[1..]
    {
      if done { return None; }
      while true
        invariant Valid() && !done && Rest() == old(Rest())
        decreases |leaf| == 0
      {
        if leaf != [] {
          HeadOfConcat(leaf, StackRest(stack));
          r := Some(leaf[0]);
          leaf := leaf[1..];
          return;
        }
        Advance();
        if done { return None; }
      }
    }
  }

  // Backward.

  ghost predicate ValidBack(stack: seq<Frame>) {
    forall i :: 0 <= i < |stack| ==> -1 <= stack[i].next < |stack[i].children| && AllWellLinked(stack[i].children)
  }

  /** The entries below the current leaf, still in ascending order. */
  ghost function StackBefore(stack: seq<Frame>): seq<Entry>
    requires ValidBack(stack)
  {
    if stack == [] then []
    else
      var top := stack[|stack| - 1];
      StackBefore(stack[..|stack| - 1]) + EntriesUnder(top.children[..top.next + 1])
  }

  lemma PushBefore(stack: seq<Frame>, f: Frame)
    requires ValidBack(stack) && -1 <= f.next < |f.children| && AllWellLinked(f.children)
    ensures ValidBack(stack + [f])
    ensures StackBefore(stack + [f]) == StackBefore(stack) + EntriesUnder(f.children[..f.next + 1])
  {
    assert (stack + [f])[..|stack|] == stack;
  }

  lemma StepDownRight(stack: seq<Frame>, children: seq<Link>, i: nat)
    requires ValidBack(stack) && AllWellLinked(children) && i < |children|
    ensures ValidBack(stack + [Frame(children, i - 1)])
    ensures StackBefore(stack + [Frame(children, i - 1)]) + EntriesOf(children[i].child)
            == StackBefore(stack) + EntriesUnder(children[..i + 1])
    ensures WellLinked(children[i].child) && EntriesOf(children[i].child) != []
  {
    ChildLinked(children, i);
    ExtendBy(children, i);
    PushBefore(stack, Frame(children, i - 1));
    Regroup(StackBefore(stack), EntriesUnder(children[..i]), EntriesOf(children[i].child));
  }

  lemma SeekDownRight(stack: seq<Frame>, children: seq<Link>, i: nat, end: Key)
    requires ValidBack(stack) && AllWellLinked(children) && i < |children|
    requires Sorted(EntryKey, EntriesUnder(children)) && Sorted(EntryKey, EntriesOf(children[i].child))
    requires ProllyReads.From(EntriesUnder(children), end)
             == |EntriesUnder(children[..i])| + ProllyReads.From(EntriesOf(children[i].child), end)
    ensures ValidBack(stack + [Frame(children, i - 1)])
    ensures StackBefore(stack + [Frame(children, i - 1)]) + Below(EntriesOf(children[i].child), end)
            == StackBefore(stack) + Below(EntriesUnder(children), end)
  {
    PushBefore(stack, Frame(children, i - 1));
    TakeInto(StackBefore(stack), EntriesUnder(children[..i]), EntriesOf(children[i].child),
             EntriesUnder(children[i + 1..]), ProllyReads.From(EntriesOf(children[i].child), end));
    SplitAt(children, i);
  }

  /** The children still to be visited. */
  ghost function Pending(stack: seq<Frame>): nat
    requires ValidBack(stack)
  {
    if stack == [] then 0 else Pending(stack[..|stack| - 1]) + stack[|stack| - 1].next + 1
  }

  /** Which child `seekBelow` enters: the first one reaching `end`, else the last one. */
  method FindChildBelow(children: seq<Link>, end: Key) returns (i: nat)
    requires AllWellLinked(children) && children != [] && Sorted(EntryKey, EntriesUnder(children))
    ensures i < |children| && WellLinked(children[i].child) && Sorted(EntryKey, EntriesOf(children[i].child))
    ensures ProllyReads.From(EntriesUnder(children), end)
            == |EntriesUnder(children[..i])| + ProllyReads.From(EntriesOf(children[i].child), end)
  {
    i := FindChild(children, end);
    if i == |children| {
      LastChild(children, end);
      i := |children| - 1;
    }
  }

  lemma LastChild(children: seq<Link>, end: Key)
    requires AllWellLinked(children) && children != [] && Sorted(EntryKey, EntriesUnder(children))
    requires ProllyReads.From(EntriesUnder(children), end) == |EntriesUnder(children)|
    ensures var i := |children| - 1;
            && WellLinked(children[i].child) && Sorted(EntryKey, EntriesOf(children[i].child))
            && ProllyReads.From(EntriesUnder(children), end)
               == |EntriesUnder(children[..i])| + ProllyReads.From(EntriesOf(children[i].child), end)
  {
    LastChildBelow(children, end);
    ChildLinked(children, |children| - 1);
  }

  /** Leaving a frame whose children are all visited, or visiting one more of them. */
  lemma PopBefore(stack: seq<Frame>)
    requires ValidBack(stack) && stack != []
    ensures var top, below := stack[|stack| - 1], stack[..|stack| - 1];
            && ValidBack(below) && Pending(below) <= Pending(stack)
            && StackBefore(stack) == StackBefore(below) + EntriesUnder(top.children[..top.next + 1])
            && (top.next < 0 ==> StackBefore(stack) == StackBefore(below))
            && (top.next >= 0 ==>
                  var visited := below + [Frame(top.children, top.next - 1)];
                  ValidBack(visited) && Pending(visited) < Pending(stack))
  {
    var top, below := stack[|stack| - 1], stack[..|stack| - 1];
    if top.next >= 0 {
      assert (below + [Frame(top.children, top.next - 1)])[..|below|] == below;
    }
  }

  class ReverseIterator {
    var stack: seq<Frame>
    var leaf: seq<Entry>
    var index: int
    var done: bool

    ghost predicate Valid()
      reads this
    {
      ValidBack(stack) && -1 <= index < |leaf| && (done ==> index == -1 && stack == [])
    }

    /** What is still to come, the next entry last. */
    ghost function Rest(): seq<Entry>
      requires Valid()
      reads this
    {
      StackBefore(stack) + leaf[..index + 1]
    }

    /** `Tree.ReverseIterator`: the entries below `end`, or all of them. */
    constructor UpTo(root: Node, end: Option<Key>)
      requires WellLinked(root) && Sorted(EntryKey, EntriesOf(root))
      ensures Valid()
      ensures Rest() == if end.None? then EntriesOf(root) else Below(EntriesOf(root), end.value)
    {
      stack, leaf, index, done := [], [], -1, false;
      new;
      match end
      case None => DescendRight(root);
      case Some(key) => SeekBelow(root, key);
    }

    /** `seekBelow` with a bound: the first child reaching `end` may still hold smaller keys. */
    method SeekBelow(root: Node, end: Key)
      requires Valid() && WellLinked(root) && Sorted(EntryKey, EntriesOf(root)) && stack == [] && !done
      modifies this
      ensures Valid() && Rest() == Below(EntriesOf(root), end)
    {
      var n := root;
      ghost var wanted := Below(EntriesOf(root), end);
      while n.Interior?
        invariant ValidBack(stack) && WellLinked(n) && Sorted(EntryKey, EntriesOf(n)) && !done
        invariant StackBefore(stack) + Below(EntriesOf(n), end) == wanted
        decreases n
      {
        var i: int := FindChildBelow(n.children, end);
        SeekDownRight(stack, n.children, i, end);
        stack := stack + [Frame(n.children, i - 1)];
        n := n.children[i].child;
      }
      EnterLeafBelow(n.entries, end);
    }

    /** At the leaf `seekBelow` stops at the last entry below `end`, or goes on to the previous leaf. */
    method EnterLeafBelow(entries: seq<Entry>, end: Key)
      requires ValidBack(stack) && !done && Sorted(EntryKey, entries)
      modifies this
      ensures Valid() && Rest() == StackBefore(old(stack)) + Below(entries, end)
    {
      SortedIsWeak(EntryKey, entries);
      leaf, index := entries, LowerBound(EntryKey, entries, end) - 1;
      if index < 0 { Retreat(); }
    }

    /** `descendRight`, and `seekBelow` without a bound: to the last entry below a node. */
    method DescendRight(root: Node)
      requires ValidBack(stack) && WellLinked(root) && !done
      modifies this
      ensures Valid() && Rest() == StackBefore(old(stack)) + EntriesOf(root)
      ensures EntriesOf(root) != [] ==> index >= 0
      decreases Pending(stack), 1
    {
      var n := root;
      while n.Interior?
        invariant ValidBack(stack) && WellLinked(n) && !done
        invariant StackBefore(stack) + EntriesOf(n) == StackBefore(old(stack)) + EntriesOf(root)
        invariant EntriesOf(root) != [] ==> EntriesOf(n) != []
        invariant root.Leaf? ==> n == root && stack == old(stack)
        invariant root.Interior? ==> EntriesOf(root) != []
        decreases n
      {
        var last := |n.children| - 1;
        StepDownRight(stack, n.children, last);
        assert n.children[..last + 1] == n.children;
        stack := stack + [Frame(n.children, last - 1)];
        n := n.children[last].child;
      }
      leaf, index := n.entries, |n.entries| - 1;
      if index < 0 { Retreat(); }
    }

    /** `retreat`: to the last entry of the previous leaf. */
    method Retreat()
      requires ValidBack(stack) && !done
      modifies this
      ensures Valid() && Rest() == StackBefore(old(stack))
      ensures done || index >= 0
      decreases Pending(stack), 0
    {
      leaf, index := [], -1;
      while stack != []
        invariant ValidBack(stack) && !done && StackBefore(stack) == StackBefore(old(stack)) && Pending(stack) <= Pending(old(stack))
        invariant leaf == [] && index == -1
        decreases |stack|
      {
        var top := stack[|stack| - 1];
        PopBefore(stack);
        if top.next >= 0 {
          var visited := stack[..|stack| - 1] + [Frame(top.children, top.next - 1)];
          StepDownRight(stack[..|stack| - 1], top.children, top.next);
          stack := visited;
          DescendRight(top.children[top.next].child);
          return;
        }
        stack := stack[..|stack| - 1];
      }
      done := true;
    }

    /** `Next`. */
    method Next() returns (r: Option<Entry>)
      requires Valid()
      modifies this
      ensures Valid()
      ensures old(Rest()) == [] ==> r == None && Rest() == []
      ensures var rest := old(Rest());
              rest != [] ==> r == Some(rest[|rest| - 1]) && Rest() == rest[..|rest| - 1]
    {
      while true
        invariant Valid() && Rest() == old(Rest())
        decreases index < 0 && !done
      {
        if index >= 0 {
          EndOfConcat(StackBefore(stack), leaf, index);
          r := Some(leaf[index]);
          index := index - 1;
          return;
        }
        if done { return None; }
        Retreat();
      }
    }
  }

  /** When every key is smaller than the bound, so is every key of the last child. */
  lemma LastChildBelow(links: seq<Link>, end: Key)
    requires AllWellLinked(links) && links != [] && Sorted(EntryKey, EntriesUnder(links))
    requires ProllyReads.From(EntriesUnder(links), end) == |EntriesUnder(links)|
    ensures var i := |links| - 1;
            && Sorted(EntryKey, EntriesOf(links[i].child))
            && ProllyReads.From(EntriesUnder(links), end)
               == |EntriesUnder(links[..i])| + ProllyReads.From(EntriesOf(links[i].child), end)
  {
    var i := |links| - 1;
    ExtendBy(links, i);
    ChildLinked(links, i);
    assert links[..i + 1] == links;
    var all, before, child := EntriesUnder(links), EntriesUnder(links[..i]), EntriesOf(links[i].child);
    SortedSlice(all, |before|, |all|);
    assert child == all[|before|..|all|];
    SortedIsWeak(EntryKey, all);
    assert Less(EntryKey(all[|all| - 1]), end);
    LowerBoundIs(EntryKey, child, end, |child|);
  }

  /** Forwards and backwards cover the same entries: those from a key on, and those below it. */
  lemma SeekSplits(entries: seq<Entry>, k: Key)
    requires Sorted(EntryKey, entries)
    ensures Below(entries, k) + OnFrom(entries, k) == entries
    ensures forall e :: e in OnFrom(entries, k) <==> e in entries && !Less(e.key, k)
    ensures forall e :: e in Below(entries, k) <==> e in entries && Less(e.key, k)
  {
    SortedIsWeak(EntryKey, entries);
    var i := LowerBound(EntryKey, entries, k);
    assert forall j :: 0 <= j < i ==> Less(EntryKey(entries[j]), k);
    assert forall j :: i <= j < |entries| ==> !Less(EntryKey(entries[j]), k);
  }
}
