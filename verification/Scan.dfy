/**
 * Iterating over the store (DBImpl::NewIterator in db/db_impl.cc and Version::AddIterators in db/version_set.cc): the
 * merging iterator over memtables and files, under the iterator that clients see, shows what point reads return.
 */
module Scan {
  import opened Basics
  import opened Entries
  import opened Levels
  import opened Overlap
  import opened Install
  import opened Store
  import opened Machine
  import opened Background
  import M = Merger
  import D = DbIter

  // ---------------------------------------------------------------------------------------
  // The children of the internal iterator

  /** Sorted children that share no key and hold together exactly the entries of s. */
  ghost predicate Holding(children: seq<seq<Entry>>, s: set<Entry>) {
    M.ChildrenOk(children) && forall e :: M.InChildren(children, e) <==> e in s
  }

  ghost predicate SetsApart(a: set<Entry>, b: set<Entry>) {
    forall x, y :: x in a && y in b ==> x.key != y.key
  }

  lemma OneChild(l: seq<Entry>)
    requires Sorted(l)
    ensures Holding([l], Contents(l))
  {
    OneList(l);
    assert forall i :: 0 <= i < |[l]| ==> [l][i] == l;
  }

  lemma AddChild(children: seq<seq<Entry>>, s: set<Entry>, l: seq<Entry>)
    requires Holding(children, s) && Sorted(l) && SetsApart(s, Contents(l))
    ensures Holding(children + [l], s + Contents(l))
  {
    forall i | 0 <= i < |children| ensures KeysApart(children[i], l) {
      forall x, y | x in children[i] && y in l ensures x.key != y.key {
        assert M.InChildren(children, x) && y in Contents(l);
      }
    }
    OneMoreChild(children, l);
    forall e ensures e in l <==> e in Contents(l) {
    }
  }

  /** What the memtables and the levels before lv hold. */
  ghost function Upper(d: Db, lv: nat): (s: set<Entry>)
    requires lv <= |d.levels|
  {
    set e | e in Present(d) && (e in Contents(d.mem) || e in Contents(ImmEntries(d)) || exists l :: 0 <= l < lv && e in LevelContents(d.levels[l]))
  }

  lemma UpperIs(d: Db, lv: nat)
    requires lv <= |d.levels|
    ensures forall e :: e in Upper(d, lv) <==>
              e in Contents(d.mem) || e in Contents(ImmEntries(d)) || exists l :: 0 <= l < lv && e in LevelContents(d.levels[l])
  {
    var cs := ContentsOf(d.levels);
    forall l, e | 0 <= l < lv && e in LevelContents(d.levels[l]) ensures e in Present(d) {
      assert e in cs[l];
    }
  }

  lemma UpperMore(d: Db, lv: nat)
    requires lv < |d.levels|
    ensures Upper(d, lv + 1) == Upper(d, lv) + LevelContents(d.levels[lv])
  {
    hide LevelContents, Present;
    UpperIs(d, lv);
    UpperIs(d, lv + 1);
  }

  lemma UpperAll(d: Db)
    ensures Upper(d, |d.levels|) == Present(d)
  {
    var cs := ContentsOf(d.levels);
    forall e | e in Present(d) ensures e in Upper(d, |d.levels|) {
      if e in LevelsContents(d.levels) {
        var l :| 0 <= l < |cs| && e in cs[l];
      }
    }
  }

  /** What is above a level shares no key with it. */
  lemma UpperApart(d: Db, lv: nat)
    requires Shape(d) && lv < NUM_LEVELS
    ensures SetsApart(Upper(d, lv), LevelContents(d.levels[lv]))
  {
    hide FilesOk, SortedLevel, NumberedByAge, HistoryOk, SnapshotsOk, LevelContents, Present;
    MemApart(d);
    UpperIs(d, lv);
    var cs := ContentsOf(d.levels);
    forall x, y | x in Upper(d, lv) && y in LevelContents(d.levels[lv]) ensures x.key != y.key {
      assert y in cs[lv] && y in LevelsContents(d.levels);
      if l :| 0 <= l < lv && x in LevelContents(d.levels[l]) {
        assert Above(cs[l], cs[lv]) && x in cs[l];
      }
    }
  }

  lemma MemApart(d: Db)
    requires Shape(d)
    ensures Sorted(d.mem) && Sorted(ImmEntries(d)) && SetsApart(Contents(d.mem), Contents(ImmEntries(d)))
    ensures |d.levels| == NUM_LEVELS
  {
  }

  lemma FileFollows(files: seq<File>, n: nat)
    requires FilesOk(files) && NumberedByAge(files) && n < |files|
    ensures Sorted(files[n].entries)
    ensures SetsApart(LevelContents(files[..n]), Contents(files[n].entries))
  {
    assert files[n] in files && FileOk(files[n]);
    forall x, y | x in LevelContents(files[..n]) && y in Contents(files[n].entries) ensures x.key != y.key {
      var f :| f in files[..n] && x in f.entries;
      var i :| 0 <= i < n && files[i] == f;
      assert f in files;
      assert Younger(f, files[n]) || Younger(files[n], f);
    }
  }

  lemma FileJoins(files: seq<File>, n: nat)
    requires n < |files|
    ensures LevelContents(files[..n + 1]) == LevelContents(files[..n]) + Contents(files[n].entries)
    ensures Contents(files[n].entries) <= LevelContents(files)
  {
    assert files[..n + 1] == files[..n] + [files[n]];
    assert files[n] in files;
  }

  lemma Level0Ok(d: Db)
    requires Shape(d)
    ensures FilesOk(d.levels[0]) && NumberedByAge(d.levels[0])
  {
  }

  lemma ApartFromBoth(a: set<Entry>, b: set<Entry>, c: set<Entry>)
    requires SetsApart(a, c) && SetsApart(b, c)
    ensures SetsApart(a + b, c)
  {
  }

  /** NewInternalIterator: the memtables, one child for each file of level 0, and one for each deeper level. */
  method InternalLists(d: Db) returns (children: seq<seq<Entry>>)
    requires Shape(d)
    ensures Holding(children, Present(d))
  {
    hide Shape, Holding, Sorted, Present, Upper, SetsApart, Joined, FilesOk, NumberedByAge, LevelContents;
    MemApart(d);
    OneChild(d.mem);
    children := [d.mem];
    if d.imm.Some? {
      AddChild(children, Contents(d.mem), d.imm.value);
      children := children + [d.imm.value];
    } else {
      assert Contents(d.mem) + Contents([]) == Contents(d.mem);
    }
    UpperIs(d, 0);
    assert Upper(d, 0) == Contents(d.mem) + Contents(ImmEntries(d));
    UpperApart(d, 0);
    ghost var top := Upper(d, 0);
    var i := 0;
    NoLevel();
    assert top + LevelContents(d.levels[0][..0]) == top by { assert d.levels[0][..0] == []; }
    while i < |d.levels[0]|
      invariant i <= |d.levels[0]| && Holding(children, top + LevelContents(d.levels[0][..i]))
    {
      Level0Ok(d);
      FileFollows(d.levels[0], i);
      FileJoins(d.levels[0], i);
      ApartFromPart(top, LevelContents(d.levels[0]), Contents(d.levels[0][i].entries));
      ApartFromBoth(top, LevelContents(d.levels[0][..i]), Contents(d.levels[0][i].entries));
      AddChild(children, top + LevelContents(d.levels[0][..i]), d.levels[0][i].entries);
      assert top + LevelContents(d.levels[0][..i]) + Contents(d.levels[0][i].entries) == top + LevelContents(d.levels[0][..i + 1]);
      children := children + [d.levels[0][i].entries];
      i := i + 1;
    }
    assert d.levels[0][..i] == d.levels[0];
    UpperMore(d, 0);
    var level := 1;
    while level < NUM_LEVELS
      invariant 1 <= level <= NUM_LEVELS && Holding(children, Upper(d, level))
    {
      UpperMore(d, level);
      if |d.levels[level]| > 0 {
        LevelsFilesOk(d);
        JoinedSorted(d.levels[level]);
        JoinedContents(d.levels[level]);
        UpperApart(d, level);
        AddChild(children, Upper(d, level), Joined(d.levels[level]));
        children := children + [Joined(d.levels[level])];
      } else {
        NoLevel();
        assert d.levels[level] == [];
        assert Upper(d, level) + {} == Upper(d, level);
      }
      level := level + 1;
    }
    UpperAll(d);
  }

  lemma NoLevel()
    ensures LevelContents([]) == {}
  {
  }

  lemma ApartFromPart(a: set<Entry>, b: set<Entry>, c: set<Entry>)
    requires SetsApart(a, b) && c <= b
    ensures SetsApart(a, c)
  {
  }

  // ---------------------------------------------------------------------------------------
  // What clients see

  function ItemOf(e: Entry): (x: D.Item) {
    if e.op.Delete? then D.Item(e.key.user, e.key.sn, D.Deletion, []) else D.Item(e.key.user, e.key.sn, D.Value, e.op.value)
  }

  function ItemsOf(m: seq<Entry>): (items: seq<D.Item>)
    ensures |items| == |m| && forall i :: 0 <= i < |m| ==> items[i] == ItemOf(m[i])
  {
    seq(|m|, i requires 0 <= i < |m| => ItemOf(m[i]))
  }

  lemma ItemsAreSorted(m: seq<Entry>)
    requires Sorted(m)
    ensures D.ItemsSorted(ItemsOf(m)) && forall i :: 0 <= i < |m| ==> ItemsOf(m)[i].kind != D.Large
  {
  }

  /** The item shown for a key is the entry that a point read finds. */
  lemma NewestIsGet(d: Db, m: seq<Entry>, s: Sequence, i: int)
    requires Shape(d) && Sorted(m) && Contents(m) == Present(d) && D.Newest(ItemsOf(m), s, i)
    ensures 0 <= i < |m| && Visible(Get(d, m[i].key.user, s)) == Some(ItemsOf(m)[i].value)
  {
    hide Shape, Present;
    var k := m[i].key.user;
    GetIsNewest(d, k, s);
    assert m[i] in Contents(m) && Sees(m[i], k, s);
    var n := Get(d, k, s).value;
    assert n in Contents(m);
    var j :| 0 <= j < |m| && m[j] == n;
    assert ItemsOf(m)[j].user == k && ItemsOf(m)[j].sn <= s;
    assert i == j;
  }

  /** What a point read finds is shown. */
  lemma GetIsNewestItem(d: Db, m: seq<Entry>, s: Sequence, k: UserKey, v: Bytes) returns (i: nat)
    requires Shape(d) && Sorted(m) && Contents(m) == Present(d) && Visible(Get(d, k, s)) == Some(v)
    ensures D.Newest(ItemsOf(m), s, i) && i < |m| && ItemsOf(m)[i].user == k && ItemsOf(m)[i].value == v
  {
    hide Shape, Present;
    GetIsNewest(d, k, s);
    var n := Get(d, k, s).value;
    assert n in Contents(m);
    i :| 0 <= i < |m| && m[i] == n;
    forall j | 0 <= j < |m| && ItemsOf(m)[j].user == k && ItemsOf(m)[j].sn <= s ensures ItemsOf(m)[j].sn <= ItemsOf(m)[i].sn {
      assert m[j] in Contents(m) && Sees(m[j], k, s);
    }
  }

  /** The pairs are exactly what point reads at the snapshot return, one for each key that has a value. */
  ghost predicate IsView(d: Db, s: Sequence, pairs: seq<(UserKey, Bytes)>) {
    forall k, v :: (k, v) in pairs <==> Visible(Get(d, k, s)) == Some(v)
  }

  lemma ViewOf(d: Db, m: seq<Entry>, s: Sequence, out: seq<nat>, pairs: seq<(UserKey, Bytes)>)
    requires Shape(d) && Sorted(m) && Contents(m) == Present(d) && |pairs| == |out|
    requires forall i :: i in out <==> D.Newest(ItemsOf(m), s, i)
    requires forall j :: 0 <= j < |out| ==> out[j] < |m| && pairs[j] == (ItemsOf(m)[out[j]].user, ItemsOf(m)[out[j]].value)
    ensures IsView(d, s, pairs)
  {
    hide Shape, Present, D.Newest, Get, Visible, Sorted;
    forall k, v | (k, v) in pairs ensures Visible(Get(d, k, s)) == Some(v) {
      var j :| 0 <= j < |pairs| && pairs[j] == (k, v);
      assert out[j] in out;
      NewestIsGet(d, m, s, out[j]);
    }
    forall k, v | Visible(Get(d, k, s)) == Some(v) ensures (k, v) in pairs {
      var i := GetIsNewestItem(d, m, s, k, v);
      assert i in out;
      var j :| 0 <= j < |out| && out[j] == i;
      assert pairs[j] == (k, v);
    }
  }

  method InternalEntries(d: Db) returns (m: seq<Entry>)
    requires Shape(d)
    ensures Sorted(m) && Contents(m) == Present(d)
  {
    hide Shape, Present, Sorted, M.ChildrenOk;
    var children := InternalLists(d);
    m := M.MergeEntries(children);
  }

  /** A whole forward iteration lists, in ascending order, exactly the keys that point reads find, with their values. */
  method Forward(d: Db, s: Sequence) returns (pairs: seq<(UserKey, Bytes)>)
    requires Shape(d)
    ensures IsView(d, s, pairs)
    ensures forall i, j :: 0 <= i < j < |pairs| ==> pairs[i].0 < pairs[j].0
  {
    hide Shape, Present, Sorted, IsView, D.Newest, D.Yields, D.ItemsSorted;
    var m := InternalEntries(d);
    ItemsAreSorted(m);
    var it := new D.Iter(ItemsOf(m), s);
    ghost var out;
    out, pairs := D.Forward(it);
    D.NewestBounds(ItemsOf(m), s);
    D.ForwardIsVisible(ItemsOf(m), s);
    ViewOf(d, m, s, out, pairs);
  }

  /** A whole backward iteration lists the same in descending order. */
  method Backward(d: Db, s: Sequence) returns (pairs: seq<(UserKey, Bytes)>)
    requires Shape(d)
    ensures IsView(d, s, pairs)
    ensures forall i, j :: 0 <= i < j < |pairs| ==> pairs[i].0 > pairs[j].0
  {
    hide Shape, Present, Sorted, IsView, D.Newest, D.Yields, D.ItemsSorted;
    var m := InternalEntries(d);
    ItemsAreSorted(m);
    var it := new D.Iter(ItemsOf(m), s);
    ghost var out;
    out, pairs := D.Backward(it);
    ViewOf(d, m, s, out, pairs);
  }

  /** The sequence number that an iterator reads at: that of the snapshot given, or of the last write. */
  function ReadsAt(d: Db, snapshot: Option<Sequence>): (s: nat) {
    if snapshot.Some? then snapshot.value else |d.history|
  }

  /**
   * In every state of every run, iterating lists in ascending order exactly what the last update of each key put,
   * among all updates so far, or among those before the snapshot was taken.
   */
  method NewIterator(ghost run: seq<Db>, ghost steps: seq<Step>, ghost i: nat, d: Db, snapshot: Option<Sequence>) returns (pairs: seq<(UserKey, Bytes)>)
    requires IsRun(run, steps) && i < |run| && run[i] == d && (snapshot.Some? ==> snapshot.value in d.snapshots)
    ensures ReadsAt(d, snapshot) <= |d.history| <= MAX_SEQUENCE
    ensures snapshot.None? ==> forall k, v :: (k, v) in pairs <==> LastPuts(steps, i, k, v)
    ensures snapshot.Some? ==>
              exists a: nat :: && a < i && steps[a].TakeSnapshot? && |run[a].history| == snapshot.value
                               && forall k, v :: (k, v) in pairs <==> LastPuts(steps, a, k, v)
    ensures forall i, j :: 0 <= i < j < |pairs| ==> pairs[i].0 < pairs[j].0
  {
    hide IsRun, Get, Visible, LastPuts, Shape;
    assert Shape(d) && |d.history| <= MAX_SEQUENCE && ReadsAt(d, snapshot) <= |d.history| by { RunShape(run, steps, i, snapshot); }
    pairs := Forward(d, ReadsAt(d, snapshot));
    if snapshot.None? {
      forall k, v ensures (k, v) in pairs <==> LastPuts(steps, i, k, v) {
        LatestReads(run, steps, i, k, v);
      }
    } else {
      ghost var a := SnapshotTaken(run, steps, i, snapshot.value);
      forall k, v ensures (k, v) in pairs <==> LastPuts(steps, a, k, v) {
        HeldSnapshotReads(run, steps, a, i, k, v);
      }
    }
  }

  lemma RunShape(run: seq<Db>, steps: seq<Step>, i: nat, snapshot: Option<Sequence>)
    requires IsRun(run, steps) && i < |run| && (snapshot.Some? ==> snapshot.value in run[i].snapshots)
    ensures Shape(run[i]) && |run[i].history| <= MAX_SEQUENCE && ReadsAt(run[i], snapshot) <= |run[i].history|
  {
    RunInv(run, steps, i);
    if snapshot.Some? {
      OldestLeast(run[i], snapshot.value);
    }
  }
}
