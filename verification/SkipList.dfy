/**
 * The skip list (db/skiplist.h): nodes with one link per level, linked bottom-up by a single writer while
 * readers search without locks.
 *
 * Nodes are numbered in the order of their allocation; node 0 is the head.  A key is modelled by its rank in
 * the comparator's order, as user keys are elsewhere.
 */
module SkipList {
  import opened Basics

  type Key = real

  const MAX_HEIGHT := 12

  const HEAD: nat := 0

  /** The arena: the key of each node, and its links from level 0 up to its height. */
  datatype Mem = Mem(keys: seq<Key>, next: seq<seq<Option<nat>>>)

  predicate MemOk(m: Mem) {
    |m.keys| == |m.next| && |m.keys| > 0 && |m.next[HEAD]| == MAX_HEIGHT
  }

  /** The link of node n at level i. */
  predicate HasLink(m: Mem, n: nat, i: nat) {
    MemOk(m) && n < |m.next| && i < |m.next[n]|
  }

  function Link(m: Mem, n: nat, i: nat): (r: Option<nat>)
    requires HasLink(m, n, i)
  {
    m.next[n][i]
  }

  function SetLink(m: Mem, n: nat, i: nat, to: Option<nat>): (m': Mem)
    requires HasLink(m, n, i)
  {
    m.(next := m.next[n := m.next[n][i := to]])
  }

  // ---------------------------------------------------------------------------------------
  // Level lists

  /** The node before position p of a level list, and the node at position p. */
  function NodeBefore(l: seq<nat>, p: nat): (n: nat)
    requires p <= |l|
  {
    if p == 0 then HEAD else l[p - 1]
  }

  function NodeAt(l: seq<nat>, p: nat): (n: Option<nat>) {
    if p < |l| then Some(l[p]) else None
  }

  predicate IsNode(m: Mem, n: nat, i: nat) {
    0 < n && HasLink(m, n, i)
  }

  /** The nodes l, in order of their keys. */
  predicate SortedNodes(keys: seq<Key>, l: seq<nat>) {
    && (forall j :: 0 <= j < |l| ==> l[j] < |keys|)
    && (forall j, k :: 0 <= j < k < |l| ==> keys[l[j]] < keys[l[k]])
  }

  /** The links at level i go from the head through the nodes l. */
  predicate Chain(m: Mem, l: seq<nat>, i: nat) {
    && (forall j :: 0 <= j < |l| ==> IsNode(m, l[j], i))
    && (forall p :: 0 <= p <= |l| ==> HasLink(m, NodeBefore(l, p), i) && Link(m, NodeBefore(l, p), i) == NodeAt(l, p))
  }

  predicate LevelOk(m: Mem, l: seq<nat>, i: nat) {
    SortedNodes(m.keys, l) && Chain(m, l, i)
  }

  /** Every level is sorted, and is part of the level below. */
  predicate Levels(m: Mem, lists: seq<seq<nat>>) {
    && MemOk(m) && |lists| == MAX_HEIGHT
    && (forall i :: 0 <= i < MAX_HEIGHT ==> LevelOk(m, lists[i], i))
    && (forall i :: 0 < i < MAX_HEIGHT ==> Within(lists[i], lists[i - 1]))
  }

  predicate Within(upper: seq<nat>, lower: seq<nat>) {
    forall n :: n in upper ==> n in lower
  }

  /** x is where a search for target may stand at this level: the head, or a node below the target. */
  predicate Stands(m: Mem, l: seq<nat>, x: nat, target: Key) {
    x == HEAD || (x in l && x < |m.keys| && m.keys[x] < target)
  }

  /** n is the first node of l at or after target. */
  predicate IsFirst(m: Mem, l: seq<nat>, target: Key, n: Option<nat>) {
    match n
    case None => forall j :: 0 <= j < |l| ==> l[j] < |m.keys| && m.keys[l[j]] < target
    case Some(r) => r in l && r < |m.keys| && m.keys[r] >= target && forall j :: 0 <= j < |l| ==> l[j] < |m.keys| && (m.keys[l[j]] < target || m.keys[l[j]] >= m.keys[r])
  }

  /** The position right after x. */
  ghost function After(l: seq<nat>, x: nat): (p: nat)
    requires x == HEAD || x in l
    ensures p <= |l| && NodeBefore(l, p) == x
  {
    if x == HEAD then 0 else var j :| 0 <= j < |l| && l[j] == x; j + 1
  }

  /** One step at a level: either the next node is still below the target, or the search has come to the place of the target. */
  lemma StepAt(m: Mem, l: seq<nat>, i: nat, x: nat, target: Key)
    requires LevelOk(m, l, i) && Stands(m, l, x, target)
    ensures HasLink(m, x, i)
    ensures var n := Link(m, x, i);
            && (n.Some? ==> n.value in l && n.value < |m.keys|)
            && (n.Some? && m.keys[n.value] < target ==> Stands(m, l, n.value, target))
            && (n.None? || m.keys[n.value] >= target ==> IsFirst(m, l, target, n))
  {
    var p := After(l, x);
    assert HasLink(m, NodeBefore(l, p), i) && Link(m, NodeBefore(l, p), i) == NodeAt(l, p);
    var n := Link(m, x, i);
    if n.None? || m.keys[n.value] >= target {
      forall j | 0 <= j < |l| ensures m.keys[l[j]] < target || (n.Some? && m.keys[l[j]] >= m.keys[n.value]) {
        assert j < p ==> j == p - 1 || m.keys[l[j]] < m.keys[l[p - 1]];
      }
    }
  }

  // ---------------------------------------------------------------------------------------
  // Linking a node

  /** All nodes of l before position p are below the key, and all from p on are above it. */
  predicate Place(m: Mem, l: seq<nat>, key: Key, p: nat) {
    && p <= |l|
    && (forall j :: 0 <= j < p ==> l[j] < |m.keys| && m.keys[l[j]] < key)
    && (forall j :: p <= j < |l| ==> l[j] < |m.keys| && m.keys[l[j]] > key)
  }

  function Inserted(l: seq<nat>, p: nat, x: nat): (l': seq<nat>)
    requires p <= |l|
  {
    l[..p] + [x] + l[p..]
  }

  /** Memories that agree on all keys and on the links at level i of all nodes of l and the head. */
  lemma SameChain(m: Mem, m': Mem, l: seq<nat>, i: nat)
    requires LevelOk(m, l, i) && MemOk(m') && m'.keys == m.keys
    requires forall n :: (n == HEAD || n in l) ==> HasLink(m', n, i) && HasLink(m, n, i) && Link(m', n, i) == Link(m, n, i)
    ensures LevelOk(m', l, i)
  {
    hide Link, HasLink;
    forall p | 0 <= p <= |l| ensures HasLink(m', NodeBefore(l, p), i) && Link(m', NodeBefore(l, p), i) == NodeAt(l, p) {
      var n := NodeBefore(l, p);
      assert n == HEAD || n in l;
      assert Link(m, n, i) == NodeAt(l, p);
    }
  }

  lemma SetLinkIs(m: Mem, n: nat, i: nat, to: Option<nat>)
    requires HasLink(m, n, i)
    ensures var m' := SetLink(m, n, i, to);
            && MemOk(m') && m'.keys == m.keys
            && (forall k: nat, j: nat :: HasLink(m', k, j) <==> HasLink(m, k, j))
            && (forall k: nat, j: nat :: HasLink(m, k, j) ==> Link(m', k, j) == if k == n && j == i then to else Link(m, k, j))
  {
  }

  /** Setting a link of a node that is not in the list at that level changes no list. */
  lemma OwnLink(m: Mem, lists: seq<seq<nat>>, x: nat, i: nat, to: Option<nat>)
    requires Levels(m, lists) && i < MAX_HEIGHT && IsNode(m, x, i) && x !in lists[i]
    ensures Levels(SetLink(m, x, i, to), lists)
  {
    hide Link, HasLink, SetLink, LevelOk;
    SetLinkIs(m, x, i, to);
    forall j | 0 <= j < MAX_HEIGHT ensures LevelOk(SetLink(m, x, i, to), lists[j], j) {
      InLevel(m, lists[j], j);
      SameChain(m, SetLink(m, x, i, to), lists[j], j);
    }
  }

  lemma InLevel(m: Mem, l: seq<nat>, i: nat)
    requires LevelOk(m, l, i)
    ensures forall n :: (n == HEAD || n in l) ==> HasLink(m, n, i)
    ensures HEAD !in l
  {
    hide Link, HasLink;
    assert HasLink(m, NodeBefore(l, 0), i);
    forall n | n in l ensures HasLink(m, n, i) && n != HEAD {
      var j :| 0 <= j < |l| && l[j] == n;
      assert IsNode(m, l[j], i);
    }
  }

  /** Publishing x at level i: it takes its place in the list of that level. */
  lemma PublishLevel(m: Mem, l: seq<nat>, i: nat, x: nat, p: nat)
    requires LevelOk(m, l, i) && IsNode(m, x, i) && x !in l && x < |m.keys| && p <= |l| && Place(m, l, m.keys[x], p)
    requires HasLink(m, NodeBefore(l, p), i) && Link(m, x, i) == NodeAt(l, p)
    ensures LevelOk(SetLink(m, NodeBefore(l, p), i, Some(x)), Inserted(l, p, x), i)
  {
    hide Link, HasLink, SetLink, SortedNodes, Place;
    var prev, l' := NodeBefore(l, p), Inserted(l, p, x);
    var m' := SetLink(m, prev, i, Some(x));
    SetLinkIs(m, prev, i, Some(x));
    InLevel(m, l, i);
    SortedInserted(m, l, x, p);
    assert forall j :: 0 <= j < |l'| ==> l'[j] == if j < p then l[j] else if j == p then x else l[j - 1];
    forall j | 0 <= j < |l'| ensures IsNode(m', l'[j], i) {
      assert j < p ==> IsNode(m, l[j], i);
      assert j > p ==> IsNode(m, l[j - 1], i);
    }
    forall q | 0 <= q <= |l'| ensures HasLink(m', NodeBefore(l', q), i) && Link(m', NodeBefore(l', q), i) == NodeAt(l', q) {
      if q < p {
        assert Link(m, NodeBefore(l, q), i) == NodeAt(l, q);
        BeforeDistinct(m, l, i, q, p);
      } else if q > p + 1 {
        assert Link(m, NodeBefore(l, q - 1), i) == NodeAt(l, q - 1);
        BeforeDistinct(m, l, i, q - 1, p);
      }
    }
  }

  lemma SortedInserted(m: Mem, l: seq<nat>, x: nat, p: nat)
    requires SortedNodes(m.keys, l) && x < |m.keys| && Place(m, l, m.keys[x], p)
    ensures SortedNodes(m.keys, Inserted(l, p, x))
  {
    var l' := Inserted(l, p, x);
    assert forall j :: 0 <= j < |l'| ==> l'[j] == if j < p then l[j] else if j == p then x else l[j - 1];
  }

  lemma BeforeDistinct(m: Mem, l: seq<nat>, i: nat, q: nat, p: nat)
    requires LevelOk(m, l, i) && q <= |l| && p <= |l| && q != p
    ensures NodeBefore(l, q) != NodeBefore(l, p)
  {
    InLevel(m, l, i);
  }

  lemma Publish(m: Mem, lists: seq<seq<nat>>, i: nat, x: nat, p: nat)
    requires Levels(m, lists) && i < MAX_HEIGHT && IsNode(m, x, i) && x !in lists[i] && (i > 0 ==> x in lists[i - 1])
    requires x < |m.keys| && p <= |lists[i]| && Place(m, lists[i], m.keys[x], p)
    requires HasLink(m, NodeBefore(lists[i], p), i) && Link(m, x, i) == NodeAt(lists[i], p)
    ensures Levels(SetLink(m, NodeBefore(lists[i], p), i, Some(x)), lists[i := Inserted(lists[i], p, x)])
  {
    hide Link, HasLink, SetLink, LevelOk, Place;
    var prev, l' := NodeBefore(lists[i], p), Inserted(lists[i], p, x);
    var m', lists' := SetLink(m, prev, i, Some(x)), lists[i := l'];
    SetLinkIs(m, prev, i, Some(x));
    PublishLevel(m, lists[i], i, x, p);
    forall j | 0 <= j < MAX_HEIGHT ensures LevelOk(m', lists'[j], j) {
      if j != i {
        InLevel(m, lists[j], j);
        SameChain(m, m', lists[j], j);
      }
    }
    InsertedHas(lists[i], p, x);
  }

  lemma InsertedHas(l: seq<nat>, p: nat, x: nat)
    requires p <= |l|
    ensures forall n :: n in Inserted(l, p, x) <==> n == x || n in l
  {
    assert l == l[..p] + l[p..];
  }

  // ---------------------------------------------------------------------------------------
  // Linking a node level by level

  /** prev is the last node of l below the key, the head when there is none, and no node of l has the key. */
  ghost predicate PrevAt(m: Mem, l: seq<nat>, key: Key, prev: nat) {
    exists p: nat :: Place(m, l, key, p) && NodeBefore(l, p) == prev
  }

  /** Node x is linked at the levels below i, and prev holds its predecessors at the levels from i on. */
  ghost predicate Linking(m: Mem, lists: seq<seq<nat>>, x: nat, prev: seq<nat>, i: nat) {
    && Levels(m, lists) && 0 < x < |m.keys| && i <= |m.next[x]| <= MAX_HEIGHT && |m.next[x]| <= |prev|
    && (forall j :: 0 <= j < i ==> x in lists[j])
    && (forall j :: i <= j < MAX_HEIGHT ==> x !in lists[j])
    && (forall j :: i <= j < |m.next[x]| ==> PrevAt(m, lists[j], m.keys[x], prev[j]))
  }

  function Height(m: Mem, x: nat): (h: nat)
    requires MemOk(m) && x < |m.next|
  {
    |m.next[x]|
  }

  /** The place of x at level i. */
  ghost function PlaceOf(m: Mem, l: seq<nat>, key: Key, prev: nat): (p: nat)
    requires PrevAt(m, l, key, prev)
    ensures Place(m, l, key, p) && NodeBefore(l, p) == prev
  {
    var p: nat :| Place(m, l, key, p) && NodeBefore(l, p) == prev;
    p
  }

  lemma LinkAt(m: Mem, l: seq<nat>, i: nat, p: nat)
    requires LevelOk(m, l, i) && p <= |l|
    ensures HasLink(m, NodeBefore(l, p), i) && Link(m, NodeBefore(l, p), i) == NodeAt(l, p)
  {
  }

  lemma PrevKept(m: Mem, m': Mem, l: seq<nat>, key: Key, prev: nat)
    requires PrevAt(m, l, key, prev) && m'.keys == m.keys
    ensures PrevAt(m', l, key, prev)
  {
    var p := PlaceOf(m, l, key, prev);
    assert Place(m', l, key, p);
  }

  /** First half of a linking step: x points where its predecessor points. */
  lemma OwnStep(m: Mem, lists: seq<seq<nat>>, x: nat, prev: seq<nat>, i: nat)
    requires Linking(m, lists, x, prev, i) && i < Height(m, x)
    ensures HasLink(m, prev[i], i) && HasLink(m, x, i)
    ensures var m' := SetLink(m, x, i, Link(m, prev[i], i));
            Linking(m', lists, x, prev, i) && HasLink(m', prev[i], i) && HasLink(m', x, i) && Link(m', x, i) == Link(m', prev[i], i)
  {
    hide Link, SetLink, LevelOk;
    var p := PlaceOf(m, lists[i], m.keys[x], prev[i]);
    LinkAt(m, lists[i], i, p);
    var to := Link(m, prev[i], i);
    var m' := SetLink(m, x, i, to);
    SetLinkIs(m, x, i, to);
    OwnLink(m, lists, x, i, to);
    SameHeights(m, x, i, to);
    forall j | i <= j < Height(m, x) ensures PrevAt(m', lists[j], m.keys[x], prev[j]) {
      PrevKept(m, m', lists[j], m.keys[x], prev[j]);
    }
  }

  lemma SameHeights(m: Mem, n: nat, i: nat, to: Option<nat>)
    requires HasLink(m, n, i)
    ensures var m' := SetLink(m, n, i, to);
            |m'.next| == |m.next| && m'.keys == m.keys && forall k :: 0 <= k < |m.next| ==> |m'.next[k]| == |m.next[k]|
  {
  }

  /** Second half: the predecessor points to x, which is now in the list of the level. */
  lemma PublishStep(m: Mem, lists: seq<seq<nat>>, x: nat, prev: seq<nat>, i: nat)
    requires Linking(m, lists, x, prev, i) && i < Height(m, x)
    requires HasLink(m, prev[i], i) && HasLink(m, x, i) && Link(m, x, i) == Link(m, prev[i], i)
    ensures var p := PlaceOf(m, lists[i], m.keys[x], prev[i]);
            Linking(SetLink(m, prev[i], i, Some(x)), lists[i := Inserted(lists[i], p, x)], x, prev, i + 1)
  {
    hide Link, SetLink, LevelOk;
    var p := PlaceOf(m, lists[i], m.keys[x], prev[i]);
    LinkAt(m, lists[i], i, p);
    Publish(m, lists, i, x, p);
    var m', lists' := SetLink(m, prev[i], i, Some(x)), lists[i := Inserted(lists[i], p, x)];
    SameHeights(m, prev[i], i, Some(x));
    InsertedHas(lists[i], p, x);
    forall j | i + 1 <= j < Height(m, x) ensures PrevAt(m', lists'[j], m.keys[x], prev[j]) {
      PrevKept(m, m', lists[j], m.keys[x], prev[j]);
    }
  }

  function NewNode(m: Mem, key: Key, height: nat): (m': Mem)
    requires MemOk(m)
    ensures MemOk(m')
  {
    Mem(m.keys + [key], m.next + [seq(height, i => None)])
  }

  /** Allocating a node changes no list. */
  lemma NewNodeKeeps(m: Mem, lists: seq<seq<nat>>, key: Key, height: nat)
    requires Levels(m, lists)
    ensures Levels(NewNode(m, key, height), lists)
    ensures forall j, n :: 0 <= j < MAX_HEIGHT && n in lists[j] ==> n < |m.keys|
  {
    var m' := NewNode(m, key, height);
    forall i | 0 <= i < MAX_HEIGHT ensures LevelOk(m', lists[i], i) && forall n :: n in lists[i] ==> n < |m.keys| {
      var l := lists[i];
      assert LevelOk(m, l, i);
      forall j | 0 <= j < |l| ensures IsNode(m', l[j], i) {
        assert IsNode(m, l[j], i);
      }
      forall p | 0 <= p <= |l| ensures HasLink(m', NodeBefore(l, p), i) && Link(m', NodeBefore(l, p), i) == NodeAt(l, p) {
        LinkAt(m, l, i, p);
      }
    }
  }

  /** With the predecessors at every level at hand, a new node is ready to be linked. */
  lemma StartLinking(m: Mem, lists: seq<seq<nat>>, key: Key, height: nat, prev: seq<nat>)
    requires Levels(m, lists) && 1 <= height <= MAX_HEIGHT && height <= |prev|
    requires forall j :: 0 <= j < height ==> PrevAt(m, lists[j], key, prev[j])
    ensures Linking(NewNode(m, key, height), lists, |m.keys|, prev, 0)
  {
    hide LevelOk;
    var m' := NewNode(m, key, height);
    NewNodeKeeps(m, lists, key, height);
    forall j | 0 <= j < height ensures PrevAt(m', lists[j], key, prev[j]) {
      var p := PlaceOf(m, lists[j], key, prev[j]);
      assert Place(m', lists[j], key, p);
    }
  }

  // ---------------------------------------------------------------------------------------
  // The list without interference

  /** Where a search for key stopped at a level: the next node is the first at or after the key. */
  ghost predicate Stopped(m: Mem, l: seq<nat>, i: nat, x: nat, key: Key) {
    Stands(m, l, x, key) && HasLink(m, x, i) && IsFirst(m, l, key, Link(m, x, i))
  }

  /** For a key that is not in the list, the search stops right before its place. */
  lemma StoppedIsPrev(m: Mem, l: seq<nat>, i: nat, x: nat, key: Key)
    requires LevelOk(m, l, i) && Stopped(m, l, i, x, key) && forall n :: n in l ==> n < |m.keys| && m.keys[n] != key
    ensures PrevAt(m, l, key, x)
  {
    var p := After(l, x);
    LinkAt(m, l, i, p);
    assert Place(m, l, key, p) by {
      forall j | 0 <= j < |l| ensures l[j] < |m.keys| && (j < p ==> m.keys[l[j]] < key) && (j >= p ==> m.keys[l[j]] > key) {
        assert l[j] in l;
        assert j < p ==> j == p - 1 || m.keys[l[j]] < m.keys[l[p - 1]];
        assert j > p ==> m.keys[l[p]] < m.keys[l[j]];
      }
    }
  }

  class List {
    var mem: Mem
    var maxHeight: nat
    /** The nodes of each level. */
    ghost var lists: seq<seq<nat>>

    ghost predicate Valid()
      reads this
    {
      && Levels(mem, lists) && 1 <= maxHeight <= MAX_HEIGHT
      && (forall i :: maxHeight <= i < MAX_HEIGHT ==> lists[i] == [])
    }

    ghost predicate Has(key: Key)
      reads this
    {
      |lists| > 0 && exists n :: n in lists[0] && n < |mem.keys| && mem.keys[n] == key
    }

    constructor ()
      ensures Valid() && lists[0] == []
    {
      mem := Mem([0.0], [seq(MAX_HEIGHT, i => None)]);
      maxHeight := 1;
      lists := seq(MAX_HEIGHT, i => []);
      new;
      EmptyLevels(mem, lists);
    }

    /** The first node at or after key, and where the search stopped at each level in use. */
    method FindGreaterOrEqual(key: Key) returns (r: Option<nat>, prev: seq<nat>)
      requires Valid()
      ensures IsFirst(mem, lists[0], key, r)
      ensures |prev| == MAX_HEIGHT && forall i :: 0 <= i < maxHeight ==> Stopped(mem, lists[i], i, prev[i], key)
    {
      hide LevelOk, IsFirst, Link;
      prev := [HEAD, HEAD, HEAD, HEAD, HEAD, HEAD, HEAD, HEAD, HEAD, HEAD, HEAD, HEAD];
      var x: nat, level: nat := HEAD, maxHeight - 1;
      ghost var p: nat := 0;
      while true
        invariant 0 <= level < maxHeight && |prev| == MAX_HEIGHT
        invariant Stands(mem, lists[level], x, key) && p <= |lists[level]| && NodeBefore(lists[level], p) == x
        invariant forall i :: level < i < maxHeight ==> Stopped(mem, lists[i], i, prev[i], key)
        decreases level, |lists[level]| - p
      {
        StepAt(mem, lists[level], level, x, key);
        LinkAt(mem, lists[level], level, p);
        var next := Link(mem, x, level);
        if next.Some? && mem.keys[next.value] < key {
          x, p := next.value, p + 1;
        } else {
          prev := prev[level := x];
          if level == 0 {
            return next, prev;
          }
          assert Within(lists[level], lists[level - 1]);
          level := level - 1;
          p := After(lists[level], x);
        }
      }
    }

    /** The last node before key, the head when there is none. */
    method FindLessThan(key: Key) returns (x: nat)
      requires Valid()
      ensures Stands(mem, lists[0], x, key)
      ensures forall n :: n in lists[0] && n < |mem.keys| && mem.keys[n] < key ==> x != HEAD && mem.keys[n] <= mem.keys[x]
    {
      hide LevelOk, IsFirst, Link;
      var level: nat := maxHeight - 1;
      x := HEAD;
      ghost var p: nat := 0;
      while true
        invariant 0 <= level < maxHeight
        invariant Stands(mem, lists[level], x, key) && p <= |lists[level]| && NodeBefore(lists[level], p) == x
        decreases level, |lists[level]| - p
      {
        StepAt(mem, lists[level], level, x, key);
        LinkAt(mem, lists[level], level, p);
        var next := Link(mem, x, level);
        if next.None? || mem.keys[next.value] >= key {
          if level == 0 {
            LastBefore(mem, lists[0], p, key, next);
            InLevel(mem, lists[0], 0);
            return;
          }
          assert Within(lists[level], lists[level - 1]);
          level := level - 1;
          p := After(lists[level], x);
        } else {
          x, p := next.value, p + 1;
        }
      }
    }

    /** The last node of the list, the head when it is empty. */
    method FindLast() returns (x: nat)
      requires Valid()
      ensures x == if lists[0] == [] then HEAD else lists[0][|lists[0]| - 1]
    {
      hide LevelOk, Link;
      var level: nat := maxHeight - 1;
      x := HEAD;
      ghost var p: nat := 0;
      while true
        invariant 0 <= level < maxHeight && p <= |lists[level]| && NodeBefore(lists[level], p) == x
        decreases level, |lists[level]| - p
      {
        LinkAt(mem, lists[level], level, p);
        var next := Link(mem, x, level);
        if next.None? {
          if level == 0 {
            return;
          }
          assert Within(lists[level], lists[level - 1]);
          level := level - 1;
          p := After(lists[level], x);
        } else {
          x, p := next.value, p + 1;
        }
      }
    }

    method Contains(key: Key) returns (r: bool)
      requires Valid()
      ensures r <==> Has(key)
    {
      var n, prev := FindGreaterOrEqual(key);
      r := n.Some? && mem.keys[n.value] == key;
    }

    /** Insert a key that is not in the list; the height is drawn at random. */
    method Insert(key: Key, height: nat)
      requires Valid() && 1 <= height <= MAX_HEIGHT && !Has(key)
      modifies this
      ensures Valid() && mem.keys == old(mem.keys) + [key]
      ensures exists p: nat :: p <= old(|lists[0]|) && lists[0] == Inserted(old(lists[0]), p, old(|mem.keys|))
    {
      hide LevelOk, Link, Place, Stopped;
      var r: Option<nat>, prev: seq<nat>;
      r, prev := FindGreaterOrEqual(key);
      var i: nat := maxHeight;
      while i < height
        invariant maxHeight <= i <= MAX_HEIGHT && |prev| == MAX_HEIGHT
        invariant forall j :: 0 <= j < maxHeight ==> Stopped(mem, lists[j], j, prev[j], key)
        invariant forall j :: maxHeight <= j < i ==> prev[j] == HEAD
      {
        prev := prev[i := HEAD];
        i := i + 1;
      }
      forall j | 0 <= j < height ensures PrevAt(mem, lists[j], key, prev[j]) {
        if j < maxHeight {
          Absent(mem, lists, j, key);
          StoppedIsPrev(mem, lists[j], j, prev[j], key);
        } else {
          PrevOfNothing(mem, key);
        }
      }
      if height > maxHeight {
        maxHeight := height;
      }
      StartLinking(mem, lists, key, height, prev);
      var x := |mem.keys|;
      mem := NewNode(mem, key, height);
      LinkNode(x, prev);
    }

    /** Link node x at every level, from the bottom up. */
    method LinkNode(x: nat, prev: seq<nat>)
      requires Linking(mem, lists, x, prev, 0) && 0 < Height(mem, x) <= maxHeight <= MAX_HEIGHT
      requires forall i :: maxHeight <= i < MAX_HEIGHT ==> lists[i] == []
      modifies this`mem, this`lists
      ensures Valid() && mem.keys == old(mem.keys)
      ensures exists p: nat :: p <= old(|lists[0]|) && lists[0] == Inserted(old(lists[0]), p, x)
    {
      hide LevelOk, Link, SetLink, HasLink, PrevAt;
      var height := |mem.next[x]|;
      PrevIs(mem, lists, x, prev, 0);
      ghost var p0 := PlaceOf(mem, lists[0], mem.keys[x], prev[0]);
      PlaceFits(mem, lists[0], mem.keys[x], p0);
      var i := 0;
      while i < height
        invariant Linking(mem, lists, x, prev, i) && i <= height == Height(mem, x) && mem.keys == old(mem.keys)
        invariant forall j :: maxHeight <= j < MAX_HEIGHT ==> lists[j] == []
        invariant lists[0] == if i == 0 then old(lists[0]) else Inserted(old(lists[0]), p0, x)
        invariant i == 0 ==> mem == old(mem)
      {
        OwnStep(mem, lists, x, prev, i);
        PrevIs(mem, lists, x, prev, i);
        ghost var p := PlaceOf(mem, lists[i], mem.keys[x], prev[i]);
        var to := Link(mem, prev[i], i);
        SetLinkIs(mem, x, i, to);
        SameHeights(mem, x, i, to);
        ghost var before := mem;
        mem := SetLink(mem, x, i, to);
        PublishStep(mem, lists, x, prev, i);
        PrevIs(mem, lists, x, prev, i);
        ghost var p' := PlaceOf(mem, lists[i], mem.keys[x], prev[i]);
        SamePlace(before, mem, lists[i], mem.keys[x], p, p');
        SameHeights(mem, prev[i], i, Some(x));
        lists := lists[i := Inserted(lists[i], p', x)];
        mem := SetLink(mem, prev[i], i, Some(x));
        i := i + 1;
      }
      LinkedUp(mem, lists, x, prev, height);
    }
  }

  lemma EmptyLevels(m: Mem, lists: seq<seq<nat>>)
    requires MemOk(m) && |lists| == MAX_HEIGHT
    requires forall i :: 0 <= i < MAX_HEIGHT ==> lists[i] == [] && m.next[HEAD][i] == None
    ensures Levels(m, lists)
  {
  }

  lemma PrevIs(m: Mem, lists: seq<seq<nat>>, x: nat, prev: seq<nat>, i: nat)
    requires Linking(m, lists, x, prev, i) && i < Height(m, x)
    ensures PrevAt(m, lists[i], m.keys[x], prev[i])
  {
    hide PrevAt;
  }

  /** A key has one place only. */
  lemma SamePlace(m: Mem, m': Mem, l: seq<nat>, key: Key, p: nat, q: nat)
    requires m.keys == m'.keys && Place(m, l, key, p) && Place(m', l, key, q)
    ensures p == q
  {
    assert p < |l| ==> m.keys[l[p]] > key;
    assert q < |l| ==> m'.keys[l[q]] > key;
  }

  lemma PlaceFits(m: Mem, l: seq<nat>, key: Key, p: nat)
    requires Place(m, l, key, p)
    ensures p <= |l|
  {
  }

  lemma LinkedUp(m: Mem, lists: seq<seq<nat>>, x: nat, prev: seq<nat>, i: nat)
    requires Linking(m, lists, x, prev, i)
    ensures Levels(m, lists)
  {
  }

  lemma PrevOfNothing(m: Mem, key: Key)
    ensures PrevAt(m, [], key, HEAD)
  {
    assert Place(m, [], key, 0);
  }

  /** A node of an upper level is in the bottom level. */
  lemma {:induction false} InBottom(m: Mem, lists: seq<seq<nat>>, i: nat, n: nat)
    requires Levels(m, lists) && i < MAX_HEIGHT && n in lists[i]
    ensures n in lists[0]
  {
    hide LevelOk;
    if i > 0 {
      assert Within(lists[i], lists[i - 1]);
      InBottom(m, lists, i - 1, n);
    }
  }

  lemma Absent(m: Mem, lists: seq<seq<nat>>, i: nat, key: Key)
    requires Levels(m, lists) && i < MAX_HEIGHT && !exists n :: n in lists[0] && n < |m.keys| && m.keys[n] == key
    ensures LevelOk(m, lists[i], i) && forall n :: n in lists[i] ==> n < |m.keys| && m.keys[n] != key
  {
    hide Chain;
    forall n | n in lists[i] ensures n < |m.keys| && m.keys[n] != key {
      InBottom(m, lists, i, n);
      assert LevelOk(m, lists[i], i);
    }
  }

  lemma LastBefore(m: Mem, l: seq<nat>, p: nat, key: Key, next: Option<nat>)
    requires LevelOk(m, l, 0) && p <= |l| && IsFirst(m, l, key, next) && next == NodeAt(l, p)
    ensures forall n :: n in l && n < |m.keys| && m.keys[n] < key ==> p > 0 && m.keys[n] <= m.keys[l[p - 1]]
  {
    hide Chain;
    assert forall k :: p <= k < |l| ==> m.keys[l[k]] >= key by {
      assert forall k :: p < k < |l| ==> m.keys[l[p]] < m.keys[l[k]];
    }
    assert forall k :: 0 <= k < p - 1 ==> m.keys[l[k]] < m.keys[l[p - 1]];
  }
}
