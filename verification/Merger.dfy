/**
 * The merging iterator (table/merger.cc): several sorted cursors shown as one.
 *
 * Each child is a cursor on a sorted list; keys are internal keys.  No key is in two children.
 */
module Merger {
  import opened Basics
  import E = Entries

  type Key = E.InternalKey

  predicate Lt(a: Key, b: Key) {
    E.Before(a, b)
  }

  predicate Le(a: Key, b: Key) {
    !E.Before(b, a)
  }

  // ---------------------------------------------------------------------------------------
  // Children

  predicate Sorted(l: seq<Key>) {
    forall i, j :: 0 <= i < j < |l| ==> Lt(l[i], l[j])
  }

  function FirstOf(l: seq<Key>): (p: Option<nat>) {
    if |l| > 0 then Some(0) else None
  }

  function LastOf(l: seq<Key>): (p: Option<nat>) {
    if |l| > 0 then Some(|l| - 1) else None
  }

  function NextOf(l: seq<Key>, p: nat): (p': Option<nat>) {
    if p + 1 < |l| then Some(p + 1) else None
  }

  function PrevOf(p: nat): (p': Option<nat>) {
    if p > 0 then Some(p - 1) else None
  }

  /** The position of the first key at or after the target. */
  function SeekOf(l: seq<Key>, target: Key): (p: Option<nat>)
    ensures p.Some? ==> p.value < |l| && Le(target, l[p.value]) && forall j :: 0 <= j < p.value ==> Lt(l[j], target)
    ensures p.None? ==> forall j :: 0 <= j < |l| ==> Lt(l[j], target)
  {
    if |l| == 0 then None
    else if Le(target, l[0]) then Some(0)
    else
      var p := SeekOf(l[1..], target);
      assert forall j :: 0 < j < |l| ==> l[j] == l[1..][j - 1];
      if p.Some? then Some(p.value + 1) else None
  }

  // ---------------------------------------------------------------------------------------
  // Where children stand

  /** Child position p is at the first key for which the lower bound holds. */
  ghost predicate AtFirst(l: seq<Key>, p: Option<nat>, lower: Key -> bool) {
    match p
    case None => forall j :: 0 <= j < |l| ==> !lower(l[j])
    case Some(n) => n < |l| && lower(l[n]) && forall j :: 0 <= j < n ==> !lower(l[j])
  }

  ghost predicate AtLast(l: seq<Key>, p: Option<nat>, upper: Key -> bool) {
    match p
    case None => forall j :: 0 <= j < |l| ==> !upper(l[j])
    case Some(n) => n < |l| && upper(l[n]) && forall j :: n < j < |l| ==> !upper(l[j])
  }

  ghost function Any(): (b: Key -> bool) {
    k => true
  }

  ghost function From(target: Key): (b: Key -> bool) {
    k => Le(target, k)
  }

  ghost function Above(key: Key): (b: Key -> bool) {
    k => Lt(key, k)
  }

  ghost function Under(key: Key): (b: Key -> bool) {
    k => Lt(k, key)
  }

  ghost predicate AllAtFirst(lists: seq<seq<Key>>, pos: seq<Option<nat>>, lower: Key -> bool) {
    |pos| == |lists| && forall i :: 0 <= i < |lists| ==> AtFirst(lists[i], pos[i], lower)
  }

  ghost predicate AllAtLast(lists: seq<seq<Key>>, pos: seq<Option<nat>>, upper: Key -> bool) {
    |pos| == |lists| && forall i :: 0 <= i < |lists| ==> AtLast(lists[i], pos[i], upper)
  }

  // ---------------------------------------------------------------------------------------
  // The union

  ghost predicate InUnion(lists: seq<seq<Key>>, k: Key) {
    exists i :: 0 <= i < |lists| && k in lists[i]
  }

  /** r is the smallest key of the union with the bound, None when there is none. */
  ghost predicate IsSmallest(lists: seq<seq<Key>>, lower: Key -> bool, r: Option<Key>) {
    match r
    case None => forall k :: InUnion(lists, k) ==> !lower(k)
    case Some(n) => InUnion(lists, n) && lower(n) && forall k :: InUnion(lists, k) && lower(k) ==> Le(n, k)
  }

  ghost predicate IsLargest(lists: seq<seq<Key>>, upper: Key -> bool, r: Option<Key>) {
    match r
    case None => forall k :: InUnion(lists, k) ==> !upper(k)
    case Some(n) => InUnion(lists, n) && upper(n) && forall k :: InUnion(lists, k) && upper(k) ==> Le(k, n)
  }

  ghost predicate Apart(lists: seq<seq<Key>>) {
    forall i, j, k :: 0 <= i < j < |lists| && k in lists[i] ==> k !in lists[j]
  }

  /** The key at the position of child i. */
  function KeyAt(lists: seq<seq<Key>>, pos: seq<Option<nat>>, i: nat): (k: Option<Key>)
    requires |pos| == |lists| && i < |lists|
  {
    if pos[i].Some? && pos[i].value < |lists[i]| then Some(lists[i][pos[i].value]) else None
  }

  ghost predicate UpClosed(lower: Key -> bool) {
    forall a, b :: lower(a) && Le(a, b) ==> lower(b)
  }

  ghost predicate DownClosed(upper: Key -> bool) {
    forall a, b :: upper(b) && Le(a, b) ==> upper(a)
  }

  /** Child c has the smallest key of the first n children that stand on one, and is the first of those that have it. */
  ghost predicate Smallest(lists: seq<seq<Key>>, pos: seq<Option<nat>>, n: nat, c: Option<nat>)
    requires |pos| == |lists| && n <= |lists|
  {
    match c
    case None => forall i :: 0 <= i < n ==> KeyAt(lists, pos, i).None?
    case Some(m) =>
      && m < n && KeyAt(lists, pos, m).Some?
      && (forall i :: 0 <= i < n && KeyAt(lists, pos, i).Some? ==> Le(KeyAt(lists, pos, m).value, KeyAt(lists, pos, i).value))
      && (forall i :: 0 <= i < m && KeyAt(lists, pos, i).Some? ==> Lt(KeyAt(lists, pos, m).value, KeyAt(lists, pos, i).value))
  }

  /** Child c has the largest key of the children from n on, and is the last of those that have it. */
  ghost predicate Largest(lists: seq<seq<Key>>, pos: seq<Option<nat>>, n: nat, c: Option<nat>)
    requires |pos| == |lists| && n <= |lists|
  {
    match c
    case None => forall i :: n <= i < |lists| ==> KeyAt(lists, pos, i).None?
    case Some(m) =>
      && n <= m < |lists| && KeyAt(lists, pos, m).Some?
      && (forall i :: n <= i < |lists| && KeyAt(lists, pos, i).Some? ==> Le(KeyAt(lists, pos, i).value, KeyAt(lists, pos, m).value))
      && (forall i :: m < i < |lists| && KeyAt(lists, pos, i).Some? ==> Lt(KeyAt(lists, pos, i).value, KeyAt(lists, pos, m).value))
  }

  lemma SmallestOfAll(lists: seq<seq<Key>>, pos: seq<Option<nat>>, lower: Key -> bool, c: Option<nat>)
    requires AllAtFirst(lists, pos, lower) && UpClosed(lower) && (forall i :: 0 <= i < |lists| ==> Sorted(lists[i]))
    requires Smallest(lists, pos, |lists|, c)
    ensures IsSmallest(lists, lower, if c.Some? then KeyAt(lists, pos, c.value) else None)
  {
    forall k | InUnion(lists, k) && lower(k) ensures c.Some? && Le(KeyAt(lists, pos, c.value).value, k) {
      var i :| 0 <= i < |lists| && k in lists[i];
      var j :| 0 <= j < |lists[i]| && lists[i][j] == k;
      assert AtFirst(lists[i], pos[i], lower) && Sorted(lists[i]);
      assert pos[i].Some? && pos[i].value <= j;
      assert Le(KeyAt(lists, pos, i).value, k);
    }
    if c.Some? {
      assert AtFirst(lists[c.value], pos[c.value], lower);
      assert KeyAt(lists, pos, c.value).value in lists[c.value];
    }
  }

  lemma LargestOfAll(lists: seq<seq<Key>>, pos: seq<Option<nat>>, upper: Key -> bool, c: Option<nat>)
    requires AllAtLast(lists, pos, upper) && DownClosed(upper) && (forall i :: 0 <= i < |lists| ==> Sorted(lists[i]))
    requires Largest(lists, pos, 0, c)
    ensures IsLargest(lists, upper, if c.Some? then KeyAt(lists, pos, c.value) else None)
  {
    forall k | InUnion(lists, k) && upper(k) ensures c.Some? && Le(k, KeyAt(lists, pos, c.value).value) {
      var i :| 0 <= i < |lists| && k in lists[i];
      var j :| 0 <= j < |lists[i]| && lists[i][j] == k;
      assert AtLast(lists[i], pos[i], upper) && Sorted(lists[i]);
      assert pos[i].Some? && j <= pos[i].value;
      assert Le(k, KeyAt(lists, pos, i).value);
    }
    if c.Some? {
      assert AtLast(lists[c.value], pos[c.value], upper);
      assert KeyAt(lists, pos, c.value).value in lists[c.value];
    }
  }

  // ---------------------------------------------------------------------------------------
  // The iterator

  ghost predicate ListsOk(lists: seq<seq<Key>>) {
    (forall i :: 0 <= i < |lists| ==> Sorted(lists[i])) && Apart(lists)
  }

  /** All children but c stand right after the key of c. */
  ghost predicate OthersAfter(lists: seq<seq<Key>>, pos: seq<Option<nat>>, c: nat, k: Key) {
    |pos| == |lists| && forall i :: 0 <= i < |lists| && i != c ==> AtFirst(lists[i], pos[i], Above(k))
  }

  ghost predicate OthersBefore(lists: seq<seq<Key>>, pos: seq<Option<nat>>, c: nat, k: Key) {
    |pos| == |lists| && forall i :: 0 <= i < |lists| && i != c ==> AtLast(lists[i], pos[i], Under(k))
  }

  class MergingIterator {
    const lists: seq<seq<Key>>
    var pos: seq<Option<nat>>
    var current: Option<nat>
    var forward: bool

    ghost predicate Valid()
      reads this
    {
      && ListsOk(lists) && |pos| == |lists|
      && (current.Some? ==>
            && current.value < |lists| && KeyAt(lists, pos, current.value).Some?
            && if forward then OthersAfter(lists, pos, current.value, KeyAt(lists, pos, current.value).value)
               else OthersBefore(lists, pos, current.value, KeyAt(lists, pos, current.value).value))
    }

    /** The key shown, None when the iterator is not valid. */
    function Shown(): (k: Option<Key>)
      reads this
      requires |pos| == |lists|
    {
      if current.Some? && current.value < |lists| then KeyAt(lists, pos, current.value) else None
    }

    constructor (lists: seq<seq<Key>>)
      requires ListsOk(lists)
      ensures Valid() && Shown() == None && this.lists == lists
    {
      this.lists, pos, current, forward := lists, seq(|lists|, i => None), None, true;
    }

    method FindSmallest()
      requires |pos| == |lists|
      modifies this`current
      ensures Smallest(lists, pos, |lists|, current)
    {
      var smallest: Option<nat> := None;
      var i := 0;
      while i < |lists|
        invariant i <= |lists| && Smallest(lists, pos, i, smallest)
      {
        var k := KeyAt(lists, pos, i);
        if k.Some? {
          if smallest.None? {
            smallest := Some(i);
          } else if Lt(k.value, KeyAt(lists, pos, smallest.value).value) {
            smallest := Some(i);
          }
        }
        i := i + 1;
      }
      current := smallest;
    }

    method FindLargest()
      requires |pos| == |lists|
      modifies this`current
      ensures Largest(lists, pos, 0, current)
    {
      var largest: Option<nat> := None;
      var i := |lists|;
      while i > 0
        invariant 0 <= i <= |lists| && Largest(lists, pos, i, largest)
      {
        i := i - 1;
        var k := KeyAt(lists, pos, i);
        if k.Some? {
          if largest.None? {
            largest := Some(i);
          } else if Lt(KeyAt(lists, pos, largest.value).value, k.value) {
            largest := Some(i);
          }
        }
      }
      current := largest;
    }

    method SeekToFirst()
      requires Valid()
      modifies this
      ensures Valid() && IsSmallest(lists, Any(), Shown())
    {
      hide Apart, IsSmallest;
      var i := 0;
      while i < |lists|
        invariant i <= |lists| == |pos| && ListsOk(lists) && forall j :: 0 <= j < i ==> AtFirst(lists[j], pos[j], Any())
      {
        pos := pos[i := FirstOf(lists[i])];
        i := i + 1;
      }
      FindSmallest();
      forward := true;
      SmallestOfAll(lists, pos, Any(), current);
      NowForward(lists, pos, Any(), current);
    }

    method SeekToLast()
      requires Valid()
      modifies this
      ensures Valid() && IsLargest(lists, Any(), Shown())
    {
      hide Apart, IsLargest;
      var i := 0;
      while i < |lists|
        invariant i <= |lists| == |pos| && ListsOk(lists) && forall j :: 0 <= j < i ==> AtLast(lists[j], pos[j], Any())
      {
        pos := pos[i := LastOf(lists[i])];
        i := i + 1;
      }
      FindLargest();
      forward := false;
      LargestOfAll(lists, pos, Any(), current);
      NowBackward(lists, pos, Any(), current);
    }

    method Seek(target: Key)
      requires Valid()
      modifies this
      ensures Valid() && IsSmallest(lists, From(target), Shown())
    {
      hide Apart, IsSmallest, SeekOf;
      var i := 0;
      while i < |lists|
        invariant i <= |lists| == |pos| && ListsOk(lists) && forall j :: 0 <= j < i ==> AtFirst(lists[j], pos[j], From(target))
      {
        pos := pos[i := SeekOf(lists[i], target)];
        i := i + 1;
      }
      FindSmallest();
      forward := true;
      SmallestOfAll(lists, pos, From(target), current);
      NowForward(lists, pos, From(target), current);
    }

    /** The next key of the union, also right after moving backward. */
    method Next()
      requires Valid() && current.Some?
      modifies this
      ensures Valid() && IsSmallest(lists, Above(old(Shown()).value), Shown())
    {
      hide Apart, IsSmallest, AtFirst, AtLast, Sorted;
      var c := current.value;
      var k := Shown().value;
      if !forward {
        var i := 0;
        while i < |lists|
          invariant i <= |lists| == |pos| && ListsOk(lists) && current == Some(c) && c < |lists| && KeyAt(lists, pos, c) == Some(k)
          invariant forall j :: 0 <= j < i && j != c ==> AtFirst(lists[j], pos[j], Above(k))
        {
          if i != c {
            SeekIsAfter(lists[i], k);
            var p := SeekOf(lists[i], k);
            if p.Some? && lists[i][p.value] == k {
              p := NextOf(lists[i], p.value);
            }
            pos := pos[i := p];
          }
          i := i + 1;
        }
        forward := true;
      }
      NextAfter(lists[c], pos[c].value, k);
      pos := pos[c := NextOf(lists[c], pos[c].value)];
      FindSmallest();
      SmallestOfAll(lists, pos, Above(k), current);
      NowForward(lists, pos, Above(k), current);
    }

    /** The key of the union before the current one, also right after moving forward. */
    method Prev()
      requires Valid() && current.Some?
      modifies this
      ensures Valid() && IsLargest(lists, Under(old(Shown()).value), Shown())
    {
      hide Apart, IsLargest, AtFirst, AtLast, Sorted;
      var c := current.value;
      var k := Shown().value;
      if forward {
        var i := 0;
        while i < |lists|
          invariant i <= |lists| == |pos| && ListsOk(lists) && current == Some(c) && c < |lists| && KeyAt(lists, pos, c) == Some(k)
          invariant forall j :: 0 <= j < i && j != c ==> AtLast(lists[j], pos[j], Under(k))
        {
          if i != c {
            SeekIsBefore(lists, i, k);
            var p := SeekOf(lists[i], k);
            if p.Some? {
              p := PrevOf(p.value);
            } else {
              p := LastOf(lists[i]);
            }
            pos := pos[i := p];
          }
          i := i + 1;
        }
        forward := false;
      }
      PrevBefore(lists[c], pos[c].value, k);
      pos := pos[c := PrevOf(pos[c].value)];
      FindLargest();
      LargestOfAll(lists, pos, Under(k), current);
      NowBackward(lists, pos, Under(k), current);
    }
  }

  // ---------------------------------------------------------------------------------------
  // Steps of the children

  /** A child sought to the current key, and moved past it if it has it, stands after it. */
  lemma SeekIsAfter(l: seq<Key>, k: Key)
    requires Sorted(l)
    ensures var p := SeekOf(l, k);
            AtFirst(l, if p.Some? && l[p.value] == k then NextOf(l, p.value) else p, Above(k))
  {
    hide SeekOf;
  }

  lemma NextAfter(l: seq<Key>, p: nat, k: Key)
    requires Sorted(l) && p < |l| && l[p] == k
    ensures AtFirst(l, NextOf(l, p), Above(k))
  {
  }

  lemma SeekIsBefore(lists: seq<seq<Key>>, i: nat, k: Key)
    requires ListsOk(lists) && i < |lists|
    ensures var p := SeekOf(lists[i], k);
            AtLast(lists[i], if p.Some? then PrevOf(p.value) else LastOf(lists[i]), Under(k))
  {
    hide SeekOf, Apart;
    assert Sorted(lists[i]);
  }

  lemma PrevBefore(l: seq<Key>, p: nat, k: Key)
    requires Sorted(l) && p < |l| && l[p] == k
    ensures AtLast(l, PrevOf(p), Under(k))
  {
  }

  /** With every child at its first key within the bound, those not chosen stand right after the chosen key. */
  lemma NowForward(lists: seq<seq<Key>>, pos: seq<Option<nat>>, lower: Key -> bool, c: Option<nat>)
    requires ListsOk(lists) && AllAtFirst(lists, pos, lower) && UpClosed(lower) && Smallest(lists, pos, |lists|, c)
    ensures c.Some? ==> c.value < |lists| && KeyAt(lists, pos, c.value).Some? && OthersAfter(lists, pos, c.value, KeyAt(lists, pos, c.value).value)
  {
    if c.Some? {
      var k := KeyAt(lists, pos, c.value).value;
      assert AtFirst(lists[c.value], pos[c.value], lower) && lower(k) && k in lists[c.value];
      forall i | 0 <= i < |lists| && i != c.value ensures AtFirst(lists[i], pos[i], Above(k)) {
        assert AtFirst(lists[i], pos[i], lower) && k !in lists[i];
        assert pos[i].Some? ==> KeyAt(lists, pos, i) == Some(lists[i][pos[i].value]);
      }
    }
  }

  lemma NowBackward(lists: seq<seq<Key>>, pos: seq<Option<nat>>, upper: Key -> bool, c: Option<nat>)
    requires ListsOk(lists) && AllAtLast(lists, pos, upper) && DownClosed(upper) && Largest(lists, pos, 0, c)
    ensures c.Some? ==> c.value < |lists| && KeyAt(lists, pos, c.value).Some? && OthersBefore(lists, pos, c.value, KeyAt(lists, pos, c.value).value)
  {
    if c.Some? {
      var k := KeyAt(lists, pos, c.value).value;
      assert AtLast(lists[c.value], pos[c.value], upper) && upper(k) && k in lists[c.value];
      forall i | 0 <= i < |lists| && i != c.value ensures AtLast(lists[i], pos[i], Under(k)) {
        assert AtLast(lists[i], pos[i], upper) && k !in lists[i];
        assert pos[i].Some? ==> KeyAt(lists, pos, i) == Some(lists[i][pos[i].value]);
      }
    }
  }

  // ---------------------------------------------------------------------------------------
  // The merged list of several lists of entries

  function KeysOf(es: seq<E.Entry>): (l: seq<Key>)
    ensures |l| == |es| && forall i :: 0 <= i < |es| ==> l[i] == es[i].key
  {
    seq(|es|, i requires 0 <= i < |es| => es[i].key)
  }

  function ListsOf(children: seq<seq<E.Entry>>): (lists: seq<seq<Key>>)
    ensures |lists| == |children| && forall i :: 0 <= i < |children| ==> lists[i] == KeysOf(children[i])
  {
    seq(|children|, i requires 0 <= i < |children| => KeysOf(children[i]))
  }

  ghost predicate InChildren(children: seq<seq<E.Entry>>, e: E.Entry) {
    exists i :: 0 <= i < |children| && e in children[i]
  }

  /** Sorted lists of entries, and no key in two of them. */
  ghost predicate ChildrenOk(children: seq<seq<E.Entry>>) {
    && (forall i :: 0 <= i < |children| ==> E.Sorted(children[i]))
    && (forall i, j, a, b :: 0 <= i < j < |children| && a in children[i] && b in children[j] ==> a.key != b.key)
  }

  lemma ListsFromChildren(children: seq<seq<E.Entry>>)
    requires ChildrenOk(children)
    ensures ListsOk(ListsOf(children))
  {
    var lists := ListsOf(children);
    forall i | 0 <= i < |lists| ensures Sorted(lists[i]) {
      assert E.Sorted(children[i]);
    }
    forall i, j, k | 0 <= i < j < |lists| && k in lists[i] ensures k !in lists[j] {
      var p :| 0 <= p < |children[i]| && children[i][p].key == k;
      forall q | 0 <= q < |lists[j]| ensures lists[j][q] != k {
        assert children[i][p] in children[i] && children[j][q] in children[j];
      }
    }
  }

  /** The loop state of a walk: everything before the key shown has been collected, and nothing else. */
  ghost predicate Collected(children: seq<seq<E.Entry>>, m: seq<E.Entry>, shown: Option<Key>) {
    && E.Sorted(m)
    && (forall e :: e in m ==> InChildren(children, e) && (shown.Some? ==> Lt(e.key, shown.value)))
    && (forall e :: InChildren(children, e) && (shown.Some? ==> Lt(e.key, shown.value)) ==> e in m)
  }

  lemma KeyInUnion(children: seq<seq<E.Entry>>, e: E.Entry)
    requires InChildren(children, e)
    ensures InUnion(ListsOf(children), e.key)
  {
    var i :| 0 <= i < |children| && e in children[i];
    var p :| 0 <= p < |children[i]| && children[i][p] == e;
    assert ListsOf(children)[i][p] == e.key;
  }

  lemma StartCollecting(children: seq<seq<E.Entry>>, shown: Option<Key>)
    requires IsSmallest(ListsOf(children), Any(), shown)
    ensures Collected(children, [], shown)
  {
    forall e | InChildren(children, e) ensures shown.Some? && !Lt(e.key, shown.value) {
      KeyInUnion(children, e);
      assert Any()(e.key);
    }
  }

  lemma CollectOne(children: seq<seq<E.Entry>>, m: seq<E.Entry>, e: E.Entry, shown: Option<Key>)
    requires ChildrenOk(children) && Collected(children, m, Some(e.key)) && InChildren(children, e)
    requires IsSmallest(ListsOf(children), Above(e.key), shown)
    ensures Collected(children, m + [e], shown)
  {
    hide ChildrenOk, InChildren, InUnion;
    forall x | InChildren(children, x) && (shown.Some? ==> Lt(x.key, shown.value)) ensures x in m + [e] {
      KeyInUnion(children, x);
      assert !Above(e.key)(x.key);
      if x.key == e.key {
        SameEntry(children, x, e);
      }
    }
    forall x | x in m + [e] ensures shown.Some? ==> Lt(x.key, shown.value) {
      assert shown.Some? ==> Above(e.key)(shown.value);
    }
  }

  /** A key belongs to one entry. */
  lemma SameEntry(children: seq<seq<E.Entry>>, a: E.Entry, b: E.Entry)
    requires ChildrenOk(children) && InChildren(children, a) && InChildren(children, b) && a.key == b.key
    ensures a == b
  {
    var i :| 0 <= i < |children| && a in children[i];
    var j :| 0 <= j < |children| && b in children[j];
    assert i == j;
    assert E.Sorted(children[i]);
  }

  ghost function AllEntries(children: seq<seq<E.Entry>>): (s: set<E.Entry>)
    ensures forall e :: e in s <==> InChildren(children, e)
  {
    set i, e | 0 <= i < |children| && e in children[i] :: e
  }

  /** Walking the merging iterator from the first key to the last lists every entry once, in key order. */
  method MergeEntries(children: seq<seq<E.Entry>>) returns (m: seq<E.Entry>)
    requires ChildrenOk(children)
    ensures E.Sorted(m) && forall e :: e in m <==> InChildren(children, e)
  {
    hide IsSmallest, ChildrenOk, E.Sorted, OthersAfter, OthersBefore;
    ListsFromChildren(children);
    var it := new MergingIterator(ListsOf(children));
    it.SeekToFirst();
    m := [];
    StartCollecting(children, it.Shown());
    ghost var all := AllEntries(children);
    while it.current.Some?
      invariant fresh(it) && it.Valid() && it.lists == ListsOf(children)
      invariant Collected(children, m, it.Shown())
      decreases all - E.Contents(m)
    {
      var c := it.current.value;
      var e := children[c][it.pos[c].value];
      assert it.Shown() == Some(e.key) && e in children[c];
      assert e in all && e !in E.Contents(m);
      it.Next();
      CollectOne(children, m, e, it.Shown());
      assert E.Contents(m + [e]) == E.Contents(m) + {e};
      m := m + [e];
    }
  }
}
