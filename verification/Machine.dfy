/**
 * The steps of the store and the theorem over all runs: every read that can still be issued returns
 * what the plain list of writes returns, whatever flushes, moves and compactions happened.
 */
module Machine {
  import opened Basics
  import opened Entries
  import opened Levels
  import opened Overlap
  import opened Compaction
  import opened Install
  import opened Store

  datatype Step =
    | Write(ops: seq<(UserKey, Op)>)
    | SwitchMemTable
    | Flush(level: nat, size: nat)
    | TrivialMove(from: nat, f: File)
    | Compact(at: nat, in0: set<File>, in1: set<File>, m: seq<Entry>, out: seq<File>)
    | TakeSnapshot
    | ReleaseSnapshot(i: nat)

  // ---------------------------------------------------------------------------------------
  // Steps

  /** One update of a batch: MemTableInserter gives it the next sequence number. */
  function WriteOne(d: Db, k: UserKey, op: Op): (d': Db)
    requires |d.history| < MAX_SEQUENCE
  {
    var e := Entry(InternalKey(k, |d.history| + 1), op);
    d.(history := d.history + [e], mem := InsertSorted(d.mem, e))
  }

  function WriteAll(d: Db, ops: seq<(UserKey, Op)>): (d': Db)
    requires |d.history| + |ops| <= MAX_SEQUENCE
    decreases |ops|
  {
    if |ops| == 0 then d else WriteAll(WriteOne(d, ops[0].0, ops[0].1), ops[1..])
  }

  function TableOf(number: nat, size: nat, es: seq<Entry>): (f: File)
    requires |es| > 0
  {
    File(number, size, es[0].key, es[|es| - 1].key, es)
  }

  /** The guarantee of PickLevelForMemTableOutput. */
  ghost predicate FlushLevel(levels: seq<seq<File>>, level: nat, f: File)
    requires |levels| == NUM_LEVELS
  {
    && level <= MAX_MEM_COMPACT_LEVEL
    && (level > 0 ==> forall lv :: 0 <= lv <= level ==>
          !SomeMeets(Range(Some(f.smallest.user), Some(f.largest.user)), levels[lv]))
  }

  ghost predicate Flushed(d: Db, d': Db, level: nat, size: nat)
    requires |d.levels| == NUM_LEVELS
  {
    && d.imm.Some?
    && var es := d.imm.value;
       if |es| == 0 then d' == d.(imm := None)
       else
         var f := TableOf(d.nextFile, size, es);
         && FlushLevel(d.levels, level, f)
         && d' == d.(imm := None, levels := d.levels[level := InsertFile(d.levels[level], f)], nextFile := d.nextFile + 1)
  }

  function Joined(out: seq<File>): (es: seq<Entry>) {
    if |out| == 0 then [] else Joined(out[..|out| - 1]) + out[|out| - 1].entries
  }

  /** DoCompactionWork and InstallCompactionResults on inputs chosen by SetupOtherInputs. */
  ghost predicate Ran(d: Db, d': Db, level: nat, in0: set<File>, in1: set<File>, m: seq<Entry>, out: seq<File>)
    requires |d.levels| == NUM_LEVELS && Oldest(d) <= MAX_SEQUENCE
  {
    && level + 1 < NUM_LEVELS
    && CompactionInputs(d.levels, level, in0, in1)
    && Sorted(m) && Contents(m) == FileContents(in0 + in1)
    && FilesOk(out) && Joined(out) == Kept(m, |m|, Oldest(d), BaseOf(d.levels, level))
    && d' == d.(levels := Rewritten(d.levels, level, in0, in1, out), nextFile := d.nextFile + |out|)
  }

  /** The deletions in the files that a compaction may discard. */
  ghost function Discardable(files: set<File>, oldest: Sequence, base: UserKey -> bool): (s: set<Entry>) {
    set x | x in FileContents(files) && Obsolete(x, oldest, base)
  }

  /**
   * Hypothesis on the inputs: nothing older than a taken entry of its user key is left on the input level, and on
   * the output level nothing older than a deletion that the compaction discards.
   */
  ghost predicate OrderKept(d: Db, level: nat, in0: set<File>, in1: set<File>)
    requires level + 1 < |d.levels| && Oldest(d) <= MAX_SEQUENCE
  {
    && NothingOlderLeft(d.levels, level, in0)
    && Above(LevelContents(Without(d.levels[level + 1], in1)), Discardable(in1, Oldest(d), BaseOf(d.levels, level)))
  }

  ghost predicate Compacted(d: Db, d': Db, level: nat, in0: set<File>, in1: set<File>, m: seq<Entry>, out: seq<File>)
    requires |d.levels| == NUM_LEVELS && Oldest(d) <= MAX_SEQUENCE
  {
    Ran(d, d', level, in0, in1, m, out) && OrderKept(d, level, in0, in1)
  }

  /** A trivial move: the one input file goes to the next level as it is. */
  ghost predicate Relocated(d: Db, d': Db, level: nat, f: File)
    requires |d.levels| == NUM_LEVELS
  {
    && level + 1 < NUM_LEVELS
    && CompactionInputs(d.levels, level, {f}, {})
    && d' == d.(levels := Rewritten(d.levels, level, {f}, {}, [f]))
  }

  ghost predicate Moved(d: Db, d': Db, level: nat, f: File)
    requires |d.levels| == NUM_LEVELS
  {
    Relocated(d, d', level, f) && NothingOlderLeft(d.levels, level, {f})
  }

  ghost predicate Next(d: Db, d': Db, step: Step) {
    && |d.levels| == NUM_LEVELS
    && |d.history| <= MAX_SEQUENCE
    && match step
    case Write(ops) => |d.history| + |ops| <= MAX_SEQUENCE && d' == WriteAll(d, ops)
    case SwitchMemTable => d.imm == None && d' == d.(mem := [], imm := Some(d.mem))
    case Flush(level, size) => Flushed(d, d', level, size)
    case TrivialMove(level, f) => Moved(d, d', level, f)
    case Compact(level, in0, in1, m, out) => Compacted(d, d', level, in0, in1, m, out)
    case TakeSnapshot => d' == d.(snapshots := d.snapshots + [|d.history|])
    case ReleaseSnapshot(i) => i < |d.snapshots| && d' == d.(snapshots := d.snapshots[..i] + d.snapshots[i + 1..])
  }

  // ---------------------------------------------------------------------------------------
  // Steps that move entries without losing any

  /** If the same entries are present, every read gives the same result. */
  lemma SamePresentSameGet(d: Db, d': Db, k: UserKey, s: Sequence)
    requires Shape(d) && Shape(d') && Present(d) == Present(d') && d.history == d'.history
    ensures Get(d, k, s) == Get(d', k, s)
  {
    GetIsNewest(d, k, s);
    GetIsNewest(d', k, s);
    NewestUnique(Present(d), d.history, k, s, Get(d, k, s), Get(d', k, s));
  }

  lemma SamePresentKeepsInv(d: Db, d': Db)
    requires Inv(d) && Shape(d') && Present(d) == Present(d') && d.history == d'.history && d.snapshots == d'.snapshots
    ensures Inv(d')
  {
    forall k, s: Sequence | Oldest(d') <= s <= |d'.history|
      ensures Visible(Get(d', k, s)) == Visible(NewestIn(d'.history, k, s))
    {
      SamePresentSameGet(d, d', k, s);
    }
  }

  lemma SwitchKeepsInv(d: Db, d': Db)
    requires Inv(d) && Next(d, d', SwitchMemTable)
    ensures Inv(d')
  {
    assert Present(d') == Present(d);
    SamePresentKeepsInv(d, d');
  }

  /** Only the oldest snapshot matters to the store, and it never moves back. */
  lemma SnapshotsKeepInv(d: Db, snapshots: seq<Sequence>)
    requires Inv(d) && SnapshotsOk(snapshots, |d.history|)
    requires Oldest(d) <= Oldest(d.(snapshots := snapshots))
    ensures Inv(d.(snapshots := snapshots))
  {
    var d' := d.(snapshots := snapshots);
    forall k, s: Sequence | Oldest(d') <= s <= |d'.history|
      ensures Visible(Get(d', k, s)) == Visible(NewestIn(d'.history, k, s))
    {
      assert Get(d', k, s) == Get(d, k, s);
    }
  }

  lemma ReleaseKeepsOrder(snapshots: seq<Sequence>, i: nat, last: nat)
    requires SnapshotsOk(snapshots, last) && i < |snapshots|
    ensures SnapshotsOk(snapshots[..i] + snapshots[i + 1..], last)
  {
  }

  // ---------------------------------------------------------------------------------------
  // Write

  lemma AddKeepsLayers(h: seq<Entry>, mem: seq<Entry>, imm: seq<Entry>, below: set<Entry>, e: Entry)
    requires Layered(h, mem, imm, below) && e.key.sn == |h| + 1
    ensures Layered(h + [e], InsertSorted(mem, e), imm, below)
    ensures Contents(InsertSorted(mem, e)) == Contents(mem) + {e}
  {
    var p := Contents(mem) + Contents(imm) + below;
    assert forall x :: x in p ==> x.key.sn <= |h|;
    assert forall x :: x in mem ==> x in Contents(mem);
    InsertKeepsSorted(mem, e);
    assert Contents(InsertSorted(mem, e)) == Contents(mem) + {e};
  }

  lemma InsertHolds(es: seq<Entry>, e: Entry)
    ensures Contents(InsertSorted(es, e)) == Contents(es) + {e}
  {
    hide InsertSorted;
  }

  lemma WriteOneKeepsShape(d: Db, k: UserKey, op: Op)
    requires Shape(d) && |d.history| < MAX_SEQUENCE
    ensures Shape(WriteOne(d, k, op))
    ensures Present(WriteOne(d, k, op)) == Present(d) + {Entry(InternalKey(k, |d.history| + 1), op)}
  {
    hide Layered, LevelsOk, LevelsContents, InsertSorted;
    var e := Entry(InternalKey(k, |d.history| + 1), op);
    InsertHolds(d.mem, e);
    AddKeepsLayers(d.history, d.mem, ImmEntries(d), LevelsContents(d.levels), e);
  }

  /** A new entry changes what is read exactly for its own key at its own sequence number. */
  lemma ReadAfterAdd(p: set<Entry>, h: seq<Entry>, e: Entry, k: UserKey, s: Sequence, r: Option<Entry>, r': Option<Entry>)
    requires FromHistory(p, h) && e.key.sn == |h| + 1 && s <= |h| + 1
    requires var t := if s <= |h| then s else |h|;
             IsNewest(p, k, t, r) && Visible(r) == Visible(NewestIn(h, k, t))
    requires IsNewest(p + {e}, k, s, r')
    ensures Visible(r') == Visible(NewestIn(h + [e], k, s))
  {
    var t := if s <= |h| then s else |h|;
    NewestInExtends(h, h + [e], k, t);
    assert r' == if s == |h| + 1 && k == e.key.user then Some(e) else r by {
      assert FromHistory(p + {e}, h + [e]);
      NewestUnique(p + {e}, h + [e], k, s, r', if s == |h| + 1 && k == e.key.user then Some(e) else r);
    }
  }

  lemma WriteOneReads(d: Db, k: UserKey, op: Op, k': UserKey, s: Sequence)
    requires Inv(d) && |d.history| < MAX_SEQUENCE
    requires Oldest(WriteOne(d, k, op)) <= s <= |d.history| + 1
    ensures Visible(Get(WriteOne(d, k, op), k', s)) == Visible(NewestIn(WriteOne(d, k, op).history, k', s))
  {
    var e := Entry(InternalKey(k, |d.history| + 1), op);
    var d' := WriteOne(d, k, op);
    var t := if s <= |d.history| then s else |d.history|;
    assert IsNewest(Present(d) + {e}, k', s, Get(d', k', s)) by {
      WriteOneKeepsShape(d, k, op);
      GetIsNewest(d', k', s);
    }
    assert IsNewest(Present(d), k', t, Get(d, k', t)) by { GetIsNewest(d, k', t); }
    assert Visible(Get(d, k', t)) == Visible(NewestIn(d.history, k', t));
    ReadAfterAdd(Present(d), d.history, e, k', s, Get(d, k', t), Get(d', k', s));
  }

  lemma WriteOneKeepsInv(d: Db, k: UserKey, op: Op)
    requires Inv(d) && |d.history| < MAX_SEQUENCE
    ensures Inv(WriteOne(d, k, op))
  {
    WriteOneKeepsShape(d, k, op);
    forall k', s: Sequence | Oldest(WriteOne(d, k, op)) <= s <= |d.history| + 1
      ensures Visible(Get(WriteOne(d, k, op), k', s)) == Visible(NewestIn(WriteOne(d, k, op).history, k', s))
    {
      WriteOneReads(d, k, op, k', s);
    }
  }

  lemma {:induction false} WriteKeepsInv(d: Db, ops: seq<(UserKey, Op)>)
    requires Inv(d) && |d.history| + |ops| <= MAX_SEQUENCE
    ensures Inv(WriteAll(d, ops))
    decreases |ops|
  {
    if |ops| > 0 {
      WriteOneKeepsInv(d, ops[0].0, ops[0].1);
      WriteKeepsInv(WriteOne(d, ops[0].0, ops[0].1), ops[1..]);
    }
  }

  // ---------------------------------------------------------------------------------------
  // Flush

  lemma AddKeepsAge(cs: seq<set<Entry>>, level: nat, es: set<Entry>)
    requires ByAge(cs) && level < |cs| && Newer(es, Union(cs, 0))
    requires forall l :: 0 <= l < level ==> NoSharedUser(cs[l], es)
    ensures ByAge(cs[level := cs[level] + es])
  {
    var cs' := cs[level := cs[level] + es];
    forall l, l' | 0 <= l < l' < |cs| ensures Above(cs'[l], cs'[l']) {
      assert Above(cs[l], cs[l']);
      assert l == level ==> forall e :: e in cs[l'] ==> e in Union(cs, 0);
      assert l' == level ==> NoSharedUser(cs[l], es);
    }
  }

  lemma FileApartWhenNotMeeting(levels: seq<seq<File>>, level: nat, f: File, lv: nat)
    requires Sound(levels) && FileOk(f) && FlushLevel(levels, level, f) && 0 < level && lv <= level
    ensures forall g :: g in levels[lv] ==> Apart(f, g)
    ensures NoSharedUser(LevelContents(levels[lv]), Contents(f.entries))
  {
    var r := Range(Some(f.smallest.user), Some(f.largest.user));
    forall g | g in levels[lv] ensures Apart(f, g) {
      assert !Meets(r, g);
    }
    forall g, e, e' | g in levels[lv] && e in g.entries && e' in f.entries ensures e.key.user != e'.key.user {
      assert FileOk(g) && !Meets(r, g);
      InRange(g, e);
      InRange(f, e');
    }
  }

  lemma FlushKeepsSound(levels: seq<seq<File>>, level: nat, f: File)
    requires Sound(levels) && FileOk(f) && FlushLevel(levels, level, f)
    ensures Sound(levels[level := InsertFile(levels[level], f)])
  {
    if level > 0 {
      FileApartWhenNotMeeting(levels, level, f, level);
      InsertKeepsLevel(levels[level], f);
    }
    assert FilesOk(levels[level]);
  }

  lemma {:induction false} InsertKeepsDistinct(files: seq<File>, f: File)
    requires DistinctNumbers(files) && forall g :: g in files ==> g.number < f.number
    ensures DistinctNumbers(InsertFile(files, f))
  {
    if |files| > 0 {
      InsertKeepsDistinct(files[1..], f);
      var r := InsertFile(files[1..], f);
      assert forall j :: 0 <= j < |r| ==> r[j] in r;
      assert forall j :: 0 <= j < |files| ==> files[j] in files;
    }
  }

  lemma FlushKeepsNumbers(files: seq<File>, f: File)
    requires NumberedByAge(files) && forall g :: g in files ==> g.number < f.number
    requires Newer(Contents(f.entries), LevelContents(files))
    ensures NumberedByAge(InsertFile(files, f))
  {
    InsertKeepsDistinct(files, f);
    forall g | g in files ensures Younger(g, f) {
      assert forall e :: e in g.entries ==> e in LevelContents(files);
    }
  }

  lemma FlushKeepsLevels(d: Db, level: nat, f: File)
    requires Shape(d) && FileOk(f) && f.entries == ImmEntries(d) && f.number == d.nextFile && FlushLevel(d.levels, level, f)
    ensures LevelsOk(d.levels[level := InsertFile(d.levels[level], f)])
    ensures LevelsContents(d.levels[level := InsertFile(d.levels[level], f)]) == LevelsContents(d.levels) + Contents(f.entries)
  {
    hide HistoryOk, SnapshotsOk, Before;
    var cs, es := ContentsOf(d.levels), Contents(f.entries);
    var levels' := d.levels[level := InsertFile(d.levels[level], f)];
    assert Newer(es, Union(cs, 0));
    assert ContentsOf(levels') == cs[level := cs[level] + es] by {
      assert LevelContents(InsertFile(d.levels[level], f)) == LevelContents(d.levels[level]) + es;
    }
    assert ByAge(ContentsOf(levels')) by {
      forall l | 0 <= l < level ensures NoSharedUser(cs[l], es) {
        FileApartWhenNotMeeting(d.levels, level, f, l);
      }
      AddKeepsAge(cs, level, es);
    }
    assert Sound(levels') by { FlushKeepsSound(d.levels, level, f); }
    assert NumberedByAge(levels'[0]) by {
      if level == 0 {
        assert Newer(es, LevelContents(d.levels[0])) by { assert forall e :: e in cs[0] ==> e in Union(cs, 0); }
        FlushKeepsNumbers(d.levels[0], f);
      }
    }
    AddUnion(cs, level, es);
  }

  lemma AddUnion(cs: seq<set<Entry>>, level: nat, es: set<Entry>)
    requires level < |cs|
    ensures Union(cs[level := cs[level] + es], 0) == Union(cs, 0) + es
  {
    var cs' := cs[level := cs[level] + es];
    forall e | e in Union(cs', 0) ensures e in Union(cs, 0) + es {
      var l :| 0 <= l < |cs'| && e in cs'[l];
      assert e in es || e in cs[l];
    }
    forall e | e in Union(cs, 0) + es ensures e in Union(cs', 0) {
      if e in es {
        assert e in cs'[level];
      } else {
        var l :| 0 <= l < |cs| && e in cs[l];
        assert e in cs'[l];
      }
    }
  }

  lemma FlushKeepsLayers(h: seq<Entry>, mem: seq<Entry>, imm: seq<Entry>, below: set<Entry>)
    requires Layered(h, mem, imm, below)
    ensures Sorted(imm) && Layered(h, mem, [], below + Contents(imm))
    ensures Contents(mem) + Contents([]) + (below + Contents(imm)) == Contents(mem) + Contents(imm) + below
  {
  }

  lemma FlushKeepsShape(d: Db, d': Db, level: nat, size: nat)
    requires Shape(d) && Flushed(d, d', level, size)
    ensures Shape(d') && Present(d') == Present(d)
  {
    hide Layered, SnapshotsOk, FlushLevel, LevelsContents;
    FlushKeepsLayers(d.history, d.mem, d.imm.value, LevelsContents(d.levels));
    assert ImmEntries(d') == [];
    if |d.imm.value| > 0 {
      var f := TableOf(d.nextFile, size, d.imm.value);
      FlushKeepsLevels(d, level, f);
    } else {
      assert LevelsContents(d.levels) + Contents(d.imm.value) == LevelsContents(d.levels);
    }
  }

  lemma FlushKeepsInv(d: Db, d': Db, level: nat, size: nat)
    requires Inv(d) && Flushed(d, d', level, size)
    ensures Inv(d')
  {
    FlushKeepsShape(d, d', level, size);
    SamePresentKeepsInv(d, d');
  }

  // ---------------------------------------------------------------------------------------
  // Compaction

  lemma {:induction false} JoinedContents(out: seq<File>)
    ensures Contents(Joined(out)) == LevelContents(out)
  {
    if |out| > 0 {
      var n := |out| - 1;
      JoinedContents(out[..n]);
      assert out == out[..n] + [out[n]];
      assert Contents(Joined(out)) == Contents(Joined(out[..n])) + Contents(out[n].entries);
      assert LevelContents(out) == LevelContents(out[..n]) + Contents(out[n].entries);
    } else {
      assert LevelContents(out) == {};
    }
  }

  lemma {:induction false} JoinedSortedLevel(out: seq<File>)
    requires FilesOk(out) && Sorted(Joined(out))
    ensures SortedLevel(out)
  {
    if |out| > 0 {
      var n := |out| - 1;
      var front, last := out[..n], out[n];
      assert forall f :: f in front ==> f in out;
      assert FileOk(last);
      var es := Joined(out);
      assert forall i :: 0 <= i < |Joined(front)| ==> es[i] == Joined(front)[i];
      JoinedSortedLevel(front);
      JoinedContents(front);
      forall i | 0 <= i < n ensures Before(out[i].largest, last.smallest) {
        assert FileOk(out[i]) && front[i] in front;
        var e := out[i].entries[|out[i].entries| - 1];
        assert e in out[i].entries;
        assert e in LevelContents(front);
        assert e in Joined(front);
        var j :| 0 <= j < |Joined(front)| && Joined(front)[j] == e;
        assert es[|Joined(front)|] == last.entries[0];
        assert Before(es[j].key, es[|Joined(front)|].key);
      }
    }
  }

  lemma RanOutputs(d: Db, d': Db, level: nat, in0: set<File>, in1: set<File>, m: seq<Entry>, out: seq<File>)
    requires |d.levels| == NUM_LEVELS && Oldest(d) <= MAX_SEQUENCE && Ran(d, d', level, in0, in1, m, out)
    ensures SortedLevel(out) && LevelContents(out) <= FileContents(in0 + in1)
    ensures LevelContents(out) == Contents(Kept(m, |m|, Oldest(d), BaseOf(d.levels, level)))
  {
    KeptSorted(m, |m|, Oldest(d), BaseOf(d.levels, level));
    KeptMembers(m, |m|, Oldest(d), BaseOf(d.levels, level));
    JoinedContents(out);
    JoinedSortedLevel(out);
  }

  lemma CompactedIsRewrite(d: Db, d': Db, level: nat, in0: set<File>, in1: set<File>, m: seq<Entry>, out: seq<File>)
    requires Shape(d) && Compacted(d, d', level, in0, in1, m, out)
    ensures ValidRewrite(d.levels, level, in0, in1, out)
    ensures LevelContents(out) == Contents(Kept(m, |m|, Oldest(d), BaseOf(d.levels, level)))
  {
    RanOutputs(d, d', level, in0, in1, m, out);
    assert in1 <= Elements(d.levels[level + 1]);
    MadeBelow(d.levels, level, in0, in1, out);
  }

  lemma LayersShrink(h: seq<Entry>, mem: seq<Entry>, imm: seq<Entry>, below: set<Entry>, below': set<Entry>)
    requires Layered(h, mem, imm, below) && below' <= below
    ensures Layered(h, mem, imm, below')
  {
  }

  lemma RewriteKeepsShape(d: Db, d': Db, level: nat, in0: set<File>, in1: set<File>, out: seq<File>, next: nat)
    requires Shape(d) && ValidRewrite(d.levels, level, in0, in1, out) && d.nextFile <= next
    requires d' == d.(levels := Rewritten(d.levels, level, in0, in1, out), nextFile := next)
    ensures Shape(d')
  {
    assert LevelsOk(d'.levels) by { RewriteKeepsLevels(d.levels, level, in0, in1, out); }
    assert in1 <= Elements(d.levels[level + 1]);
    RewriteShrinks(d.levels, level, in0, in1, out);
    LayersShrink(d.history, d.mem, ImmEntries(d), LevelsContents(d.levels), LevelsContents(d'.levels));
    assert forall f :: f in d'.levels[0] ==> f in d.levels[0];
  }

  /** Inputs are part of the levels. */
  lemma InputsPresent(levels: seq<seq<File>>, level: nat, in0: set<File>, in1: set<File>)
    requires level + 1 < |levels| && in0 <= Elements(levels[level]) && in1 <= Elements(levels[level + 1])
    ensures FileContents(in0 + in1) <= LevelsContents(levels)
  {
    RewriteContents(levels, level, in0, in1, []);
    var cs := ContentsOf(levels);
    assert forall e :: e in cs[level] || e in cs[level + 1] ==> e in Union(cs, 0);
  }

  lemma OutsideIsNewer(cs: seq<set<Entry>>, level: nat, i0: set<Entry>, rest0: set<Entry>, i1: set<Entry>, rest1: set<Entry>,
                       x: Entry, e: Entry, l: nat)
    requires ByAge(cs) && level + 1 < |cs| && cs[level] == i0 + rest0 && cs[level + 1] == i1 + rest1
    requires Above(rest0, i0) && NoSharedUser(i0, rest1) && (x in i1 && e in rest1 && e.key.user == x.key.user ==> e.key.sn > x.key.sn)
    requires x in i0 + i1 && e !in i0 + i1 && e.key.user == x.key.user && l <= level + 1 && e in cs[l]
    ensures e.key.sn > x.key.sn
  {
    if l < level {
      assert Above(cs[l], cs[level]) && Above(cs[l], cs[level + 1]);
    } else {
      assert Above(cs[level], cs[level + 1]);
    }
  }

  /** The files left on the output level share no user key with the inputs from the level above. */
  lemma RestNotMet(levels: seq<seq<File>>, level: nat, in0: set<File>, in1: set<File>)
    requires level + 1 < |levels| && FilesOk(levels[level]) && FilesOk(levels[level + 1])
    requires CompactionInputs(levels, level, in0, in1)
    ensures NoSharedUser(FileContents(in0), LevelContents(Without(levels[level + 1], in1)))
  {
    forall f, g, e, e' | f in in0 && g in levels[level + 1] && g !in in1 && e in f.entries && e' in g.entries
      ensures e.key.user != e'.key.user
    {
      assert FileOk(f) && FileOk(g) && !MeetsHull(in0, g);
      InRange(f, e);
      InRange(g, e');
    }
  }

  lemma BaseExcludes(levels: seq<seq<File>>, level: nat, l: nat, e: Entry)
    requires level + 2 <= l < |levels| && FilesOk(levels[l]) && IsBase(levels, level, e.key.user)
    ensures e !in LevelContents(levels[l])
  {
    forall f | f in levels[l] ensures e !in f.entries {
      if e in f.entries {
        InRange(f, e);
        var i :| 0 <= i < |levels[l]| && levels[l][i] == f;
        assert Covers(levels[l][i], e.key.user);
      }
    }
  }

  /** Nothing older than an obsolete deletion of the inputs survives outside the inputs. */
  lemma NothingOlderOutside(d: Db, level: nat, in0: set<File>, in1: set<File>, x: Entry, e: Entry)
    requires Shape(d) && level + 1 < NUM_LEVELS && CompactionInputs(d.levels, level, in0, in1)
    requires OrderKept(d, level, in0, in1)
    requires x in FileContents(in0 + in1) && Obsolete(x, Oldest(d), BaseOf(d.levels, level))
    requires e in Present(d) && e !in FileContents(in0 + in1) && e.key.user == x.key.user
    ensures e.key.sn > x.key.sn
  {
    var cs := ContentsOf(d.levels);
    assert in1 <= Elements(d.levels[level + 1]);
    assert x in LevelsContents(d.levels) by { InputsPresent(d.levels, level, in0, in1); }
    if e in LevelsContents(d.levels) {
      var l :| 0 <= l < |cs| && e in cs[l];
      if l >= level + 2 {
        BaseExcludes(d.levels, level, l, e);
      } else {
        RewriteContents(d.levels, level, in0, in1, []);
        RestNotMet(d.levels, level, in0, in1);
        OutsideIsNewer(cs, level, FileContents(in0), LevelContents(Without(d.levels[level], in0)),
                       FileContents(in1), LevelContents(Without(d.levels[level + 1], in1)), x, e, l);
      }
    }
  }

  lemma CompactKeepsReads(d: Db, d': Db, level: nat, in0: set<File>, in1: set<File>, m: seq<Entry>, out: seq<File>,
                          k: UserKey, s: Sequence)
    requires Shape(d) && Compacted(d, d', level, in0, in1, m, out) && Oldest(d) <= s
    ensures Visible(Get(d', k, s)) == Visible(Get(d, k, s))
  {
    var base, oldest := BaseOf(d.levels, level), Oldest(d);
    assert Shape(d') && Present(d') == AfterDrops(Present(d), m, oldest, base) && Contents(m) <= Present(d) by {
      CompactedIsRewrite(d, d', level, in0, in1, m, out);
      RewriteKeepsShape(d, d', level, in0, in1, out, d'.nextFile);
      CompactedPresent(d, d', level, in0, in1, m, out);
    }
    assert NothingBelow(Present(d), m, oldest, base) by {
      forall x, e | x in m && Obsolete(x, oldest, base) && e in Present(d) && e !in m && e.key.user == x.key.user
        ensures e.key.sn > x.key.sn
      {
        assert x in Contents(m) && e !in Contents(m);
        NothingOlderOutside(d, level, in0, in1, x, e);
      }
    }
    assert IsNewest(Present(d), k, s, Get(d, k, s)) by { GetIsNewest(d, k, s); }
    assert IsNewest(Present(d'), k, s, Get(d', k, s)) by { GetIsNewest(d', k, s); }
    DropsPreserveReads(Present(d), d.history, m, oldest, base, k, s, Get(d, k, s), Get(d', k, s));
  }

  lemma CompactedPresent(d: Db, d': Db, level: nat, in0: set<File>, in1: set<File>, m: seq<Entry>, out: seq<File>)
    requires Shape(d) && Compacted(d, d', level, in0, in1, m, out)
    requires ValidRewrite(d.levels, level, in0, in1, out)
    requires LevelContents(out) == Contents(Kept(m, |m|, Oldest(d), BaseOf(d.levels, level)))
    ensures Present(d') == AfterDrops(Present(d), m, Oldest(d), BaseOf(d.levels, level))
    ensures Contents(m) <= Present(d)
  {
    hide LevelsOk, ValidRewrite, CompactionInputs, Kept, FilesOk, Sorted, LevelsContents, LevelContents, FileContents, Rewritten, NothingOlderLeft, AfterDrops;
    var kept := Kept(m, |m|, Oldest(d), BaseOf(d.levels, level));
    LevelsAfter(d.levels, level, in0, in1, m, out, kept);
    assert Present(d') == AfterDrops(Present(d), m, Oldest(d), BaseOf(d.levels, level)) by {
      UpperStays(Contents(d.mem) + Contents(ImmEntries(d)), LevelsContents(d.levels), LevelsContents(d'.levels), m, Oldest(d), BaseOf(d.levels, level));
    }
  }

  /** What the levels hold once the merged input m has been replaced by kept. */
  lemma LevelsAfter(levels: seq<seq<File>>, level: nat, in0: set<File>, in1: set<File>, m: seq<Entry>, out: seq<File>, kept: seq<Entry>)
    requires ValidRewrite(levels, level, in0, in1, out) && NothingOlderLeft(levels, level, in0)
    requires Contents(m) == FileContents(in0 + in1) && LevelContents(out) == Contents(kept)
    ensures forall e :: e in LevelsContents(Rewritten(levels, level, in0, in1, out)) <==> e in LevelsContents(levels) && (e !in m || e in kept)
    ensures Contents(m) <= LevelsContents(levels)
  {
    hide FilesOk, SortedLevel, NumberedByAge, ByAge, LevelsContents, LevelContents, FileContents, Rewritten, NothingOlderLeft, MeetsHull;
    RewriteChanges(levels, level, in0, in1, out);
    InputsPresent(levels, level, in0, in1);
    forall e ensures (e in m <==> e in FileContents(in0 + in1)) && (e in kept <==> e in LevelContents(out)) {
      assert (e in m <==> e in Contents(m)) && (e in kept <==> e in Contents(kept));
    }
  }

  lemma UpperStays(upper: set<Entry>, below: set<Entry>, below': set<Entry>, m: seq<Entry>, oldest: Sequence, base: UserKey -> bool)
    requires Newer(upper, below) && Contents(m) <= below
    requires forall e :: e in below' <==> e in below && (e !in m || e in Kept(m, |m|, oldest, base))
    ensures upper + below' == AfterDrops(upper + below, m, oldest, base)
  {
    hide Kept;
    assert forall e :: e in m ==> e in Contents(m);
  }

  lemma CompactKeepsInv(d: Db, d': Db, level: nat, in0: set<File>, in1: set<File>, m: seq<Entry>, out: seq<File>)
    requires Inv(d) && Compacted(d, d', level, in0, in1, m, out)
    ensures Inv(d')
  {
    assert Shape(d') by {
      CompactedIsRewrite(d, d', level, in0, in1, m, out);
      RewriteKeepsShape(d, d', level, in0, in1, out, d'.nextFile);
    }
    forall k, s: Sequence | Oldest(d') <= s <= |d'.history|
      ensures Visible(Get(d', k, s)) == Visible(NewestIn(d'.history, k, s))
    {
      CompactKeepsReads(d, d', level, in0, in1, m, out, k, s);
    }
  }

  /** Moving a file replaces it by itself on the next level. */
  lemma MoveIsRewrite(levels: seq<seq<File>>, level: nat, f: File)
    requires LevelsOk(levels) && level + 1 < NUM_LEVELS && CompactionInputs(levels, level, {f}, {}) && NothingOlderLeft(levels, level, {f})
    ensures ValidRewrite(levels, level, {f}, {}, [f])
    ensures LevelsContents(Rewritten(levels, level, {f}, {}, [f])) == LevelsContents(levels)
  {
    var in1: set<File> := {};
    assert LevelContents([f]) == FileContents({f} + in1);
    assert ValidRewrite(levels, level, {f}, in1, [f]) by {
      assert f in {f} && f in Elements(levels[level]) && FilesOk(levels[level]);
      MadeBelow(levels, level, {f}, in1, [f]);
    }
    RewriteChanges(levels, level, {f}, in1, [f]);
  }

  lemma MoveKeepsInv(d: Db, d': Db, level: nat, f: File)
    requires Inv(d) && Moved(d, d', level, f)
    ensures Inv(d')
  {
    hide Layered, HistoryOk, SnapshotsOk, ReadsRight, LevelsOk, ValidRewrite, LevelsContents;
    var in1: set<File> := {};
    MoveIsRewrite(d.levels, level, f);
    RewriteKeepsShape(d, d', level, {f}, in1, [f], d.nextFile);
    SamePresentKeepsInv(d, d');
  }

  // ---------------------------------------------------------------------------------------
  // What a compaction keeps

  /** Every snapshot held sees the number, and so does a read without one. */
  ghost predicate SeenByAll(d: Db, sn: Sequence) {
    sn <= |d.history| && forall i :: 0 <= i < |d.snapshots| ==> sn <= d.snapshots[i]
  }

  lemma OldestIs(d: Db, sn: Sequence)
    requires SnapshotsOk(d.snapshots, |d.history|)
    ensures sn <= Oldest(d) <==> SeenByAll(d, sn)
  {
  }

  /** A newer entry of the same user key, seen by all, is among the entries. */
  ghost predicate Superseded(d: Db, s: set<Entry>, e: Entry) {
    exists x :: x in s && x.key.user == e.key.user && x.key.sn > e.key.sn && SeenByAll(d, x.key.sn)
  }

  /** A deletion seen by all, of a user key that no file below the output level has in its range. */
  ghost predicate Needless(d: Db, level: nat, e: Entry) {
    && e.op.Delete? && SeenByAll(d, e.key.sn)
    && forall lv, f :: level + 2 <= lv < |d.levels| && f in d.levels[lv] ==> !(f.smallest.user <= e.key.user <= f.largest.user)
  }

  /** The output files of a compaction hold exactly the input entries that are neither superseded nor needless deletions. */
  lemma CompactionOutputs(d: Db, d': Db, level: nat, in0: set<File>, in1: set<File>, m: seq<Entry>, out: seq<File>)
    requires Shape(d) && Oldest(d) <= MAX_SEQUENCE && Ran(d, d', level, in0, in1, m, out)
    ensures Sorted(Joined(out)) && Contents(Joined(out)) == LevelContents(out)
    ensures var s := FileContents(in0 + in1);
            forall e :: e in LevelContents(out) <==> e in s && !Superseded(d, s, e) && !Needless(d, level, e)
  {
    hide Kept, Sorted, Layered, LevelsOk, CompactionInputs, FileContents, LevelContents, BaseOf, Overwritten, Spent, Superseded, Needless, Joined;
    var s := FileContents(in0 + in1);
    KeptIs(d.levels, level, m, Oldest(d));
    JoinedContents(out);
    forall e ensures Overwritten(m, e, Oldest(d)) <==> Superseded(d, s, e) {
      OverwrittenIs(d, m, s, e);
    }
    forall e ensures Spent(d.levels, level, e, Oldest(d)) <==> Needless(d, level, e) {
      SpentIs(d, level, e);
    }
  }

  lemma OverwrittenIs(d: Db, m: seq<Entry>, s: set<Entry>, e: Entry)
    requires SnapshotsOk(d.snapshots, |d.history|) && Oldest(d) <= MAX_SEQUENCE && Contents(m) == s
    ensures Overwritten(m, e, Oldest(d)) <==> Superseded(d, s, e)
  {
    hide SeenByAll, Oldest, SnapshotsOk;
    forall x: Entry ensures x.key.sn <= Oldest(d) <==> SeenByAll(d, x.key.sn) {
      OldestIs(d, x.key.sn);
    }
    forall x ensures x in m <==> x in s {
      assert x in Contents(m) <==> x in m;
    }
  }

  lemma SpentIs(d: Db, level: nat, e: Entry)
    requires SnapshotsOk(d.snapshots, |d.history|) && Oldest(d) <= MAX_SEQUENCE
    ensures Spent(d.levels, level, e, Oldest(d)) <==> Needless(d, level, e)
  {
    hide SeenByAll, Oldest, SnapshotsOk;
    OldestIs(d, e.key.sn);
  }

  // ---------------------------------------------------------------------------------------
  // Runs

  lemma EmptyInv()
    ensures Inv(EMPTY_DB)
  {
    assert forall lv :: 0 <= lv < NUM_LEVELS ==> EMPTY_DB.levels[lv] == [];
    assert forall lv :: 0 <= lv < NUM_LEVELS ==> ContentsOf(EMPTY_DB.levels)[lv] == {};
    assert LevelsContents(EMPTY_DB.levels) == {};
  }

  lemma NextKeepsInv(d: Db, d': Db, step: Step)
    requires Inv(d) && Next(d, d', step)
    ensures Inv(d')
  {
    match step
    case Write(ops) => WriteKeepsInv(d, ops);
    case SwitchMemTable => SwitchKeepsInv(d, d');
    case Flush(level, size) => FlushKeepsInv(d, d', level, size);
    case TrivialMove(level, f) => MoveKeepsInv(d, d', level, f);
    case Compact(level, in0, in1, m, out) => CompactKeepsInv(d, d', level, in0, in1, m, out);
    case TakeSnapshot => SnapshotsKeepInv(d, d.snapshots + [|d.history|]);
    case ReleaseSnapshot(i) =>
      ReleaseKeepsOrder(d.snapshots, i, |d.history|);
      SnapshotsKeepInv(d, d.snapshots[..i] + d.snapshots[i + 1..]);
  }

  /** A run: states linked by steps, from the empty store. */
  ghost predicate IsRun(run: seq<Db>, steps: seq<Step>) {
    && |run| == |steps| + 1
    && run[0] == EMPTY_DB
    && (forall i :: 0 <= i < |steps| ==> Next(run[i], run[i + 1], steps[i]))
  }

  lemma {:induction false} WritesGrow(d: Db, ops: seq<(UserKey, Op)>)
    requires |d.history| + |ops| <= MAX_SEQUENCE
    ensures d.history <= WriteAll(d, ops).history
    decreases |ops|
  {
    if |ops| > 0 {
      WritesGrow(WriteOne(d, ops[0].0, ops[0].1), ops[1..]);
    }
  }

  lemma HistoryGrows(d: Db, d': Db, step: Step)
    requires Next(d, d', step)
    ensures d.history <= d'.history
  {
    if step.Write? {
      WritesGrow(d, step.ops);
    }
  }

  lemma {:induction false} RunInv(run: seq<Db>, steps: seq<Step>, i: nat)
    requires IsRun(run, steps) && i < |run|
    ensures Inv(run[i])
  {
    if i == 0 {
      EmptyInv();
    } else {
      RunInv(run, steps, i - 1);
      NextKeepsInv(run[i - 1], run[i], steps[i - 1]);
    }
  }

  lemma {:induction false} RunHistory(run: seq<Db>, steps: seq<Step>, i: nat, j: nat)
    requires IsRun(run, steps) && i <= j < |run|
    ensures run[i].history <= run[j].history
    decreases j - i
  {
    if i < j {
      RunHistory(run, steps, i, j - 1);
      assert Next(run[j - 1], run[j - 1 + 1], steps[j - 1]);
      HistoryGrows(run[j - 1], run[j], steps[j - 1]);
    }
  }

  /**
   * Snapshot isolation over every run: a read at a live snapshot returns the newest write with a
   * sequence number up to the snapshot, and keeps returning it as long as the snapshot is held.
   */
  lemma SnapshotReads(run: seq<Db>, steps: seq<Step>, i: nat, j: nat, k: UserKey, s: Sequence)
    requires IsRun(run, steps) && i <= j < |run|
    requires s in run[i].snapshots && s in run[j].snapshots
    ensures s <= |run[i].history| <= |run[j].history|
    ensures Visible(Get(run[i], k, s)) == Visible(NewestIn(run[i].history, k, s))
    ensures Visible(Get(run[j], k, s)) == Visible(Get(run[i], k, s))
  {
    RunInv(run, steps, i);
    RunInv(run, steps, j);
    RunHistory(run, steps, i, j);
    NewestInExtends(run[i].history, run[j].history, k, s);
  }

  // ---------------------------------------------------------------------------------------
  // Reads told from the steps of a run

  /** The updates of a batch join the history front to back, with the next sequence numbers. */
  lemma {:induction false} WriteAllIs(d: Db, ops: seq<(UserKey, Op)>)
    requires |d.history| + |ops| <= MAX_SEQUENCE
    ensures var n, h := |d.history|, WriteAll(d, ops).history;
            && |h| == n + |ops| && h[..n] == d.history
            && forall t :: 0 <= t < |ops| ==> h[n + t] == Entry(InternalKey(ops[t].0, n + t + 1), ops[t].1)
    decreases |ops|
  {
    if |ops| > 0 {
      var n, d', h := |d.history|, WriteOne(d, ops[0].0, ops[0].1), WriteAll(d, ops).history;
      WriteAllIs(d', ops[1..]);
      assert h[..n] == h[..n + 1][..n] == d.history;
      assert h[n] == h[..n + 1][n];
      forall t | 0 < t < |ops| ensures h[n + t] == Entry(InternalKey(ops[t].0, n + t + 1), ops[t].1) {
        assert h[n + 1 + (t - 1)] == Entry(InternalKey(ops[1..][t - 1].0, n + t + 1), ops[1..][t - 1].1);
      }
    }
  }

  /** How many updates the first n steps write. */
  function Written(steps: seq<Step>, n: nat): (w: nat)
    requires n <= |steps|
  {
    if n == 0 then 0 else Written(steps, n - 1) + if steps[n - 1].Write? then |steps[n - 1].ops| else 0
  }

  /** Update t of step j. */
  predicate IsUpdate(steps: seq<Step>, j: nat, t: nat) {
    j < |steps| && steps[j].Write? && t < |steps[j].ops|
  }

  /** The update has its place and its number in the history. */
  ghost predicate InHistory(h: seq<Entry>, steps: seq<Step>, j: nat, t: nat)
    requires IsUpdate(steps, j, t)
  {
    var at, u := Written(steps, j) + t, steps[j].ops[t];
    at < |h| && at < MAX_SEQUENCE && h[at] == Entry(InternalKey(u.0, at + 1), u.1)
  }

  /** The history is the updates of the first n steps, one after the other, numbered from 1. */
  ghost predicate HoldsUpdates(h: seq<Entry>, steps: seq<Step>, n: nat) {
    && n <= |steps| && |h| == Written(steps, n)
    && forall j, t :: 0 <= j < n && 0 <= t && IsUpdate(steps, j, t) ==> InHistory(h, steps, j, t)
  }

  lemma {:induction false} HistoryIs(run: seq<Db>, steps: seq<Step>, n: nat)
    requires IsRun(run, steps) && n < |run|
    ensures |run[n].history| <= MAX_SEQUENCE && HoldsUpdates(run[n].history, steps, n)
    decreases n
  {
    hide WriteAll, Flushed, Moved, Compacted;
    if n > 0 {
      var d, d', step := run[n - 1], run[n], steps[n - 1];
      HistoryIs(run, steps, n - 1);
      assert Next(run[n - 1], run[n - 1 + 1], step);
      if step.Write? {
        WriteAllIs(d, step.ops);
      } else {
        SameHistory(d, d', step);
      }
      forall j, t | 0 <= j < n && 0 <= t && IsUpdate(steps, j, t) ensures InHistory(d'.history, steps, j, t) {
        if j < n - 1 {
          assert InHistory(d.history, steps, j, t);
          assert d.history == d'.history[..|d.history|];
        }
      }
    }
  }

  lemma SameHistory(d: Db, d': Db, step: Step)
    requires Next(d, d', step) && !step.Write?
    ensures d'.history == d.history && |d.history| <= MAX_SEQUENCE
  {
  }

  /** Every place in the history belongs to an update. */
  lemma {:induction false} Origin(steps: seq<Step>, n: nat, at: nat) returns (j: nat, t: nat)
    requires n <= |steps| && at < Written(steps, n)
    ensures j < n && IsUpdate(steps, j, t) && at == Written(steps, j) + t
    decreases n
  {
    if at < Written(steps, n - 1) {
      j, t := Origin(steps, n - 1, at);
    } else {
      j, t := n - 1, at - Written(steps, n - 1);
    }
  }

  lemma {:induction false} WrittenGrows(steps: seq<Step>, i: nat, j: nat)
    requires i <= j <= |steps|
    ensures Written(steps, i) <= Written(steps, j)
    decreases j
  {
    if i < j {
      WrittenGrows(steps, i, j - 1);
    }
  }

  /** Update t of step j is the last one of user key k in the first n steps. */
  ghost predicate LastUpdate(steps: seq<Step>, n: nat, k: UserKey, j: nat, t: nat) {
    && j < n && IsUpdate(steps, j, t) && steps[j].ops[t].0 == k
    && (forall j', t' :: j <= j' < n && 0 <= t' && IsUpdate(steps, j', t') && (j' == j ==> t < t') ==> steps[j'].ops[t'].0 != k)
  }

  /** The last update of k in the first n steps puts v. */
  ghost predicate LastPuts(steps: seq<Step>, n: nat, k: UserKey, v: Bytes) {
    exists j: nat, t: nat :: LastUpdate(steps, n, k, j, t) && steps[j].ops[t].1 == Put(v)
  }

  lemma {:induction false} NewestInIs(h: seq<Entry>, k: UserKey, s: Sequence)
    requires s <= |h|
    ensures match NewestIn(h, k, s)
            case None => forall at :: 0 <= at < s ==> h[at].key.user != k
            case Some(e) => exists at :: 0 <= at < s && h[at] == e && e.key.user == k && forall at' :: at < at' < s ==> h[at'].key.user != k
  {
    if s > 0 && h[s - 1].key.user != k {
      NewestInIs(h, k, s - 1);
    }
  }

  /** The newest write of k among those of the first n steps is the last update of k in them. */
  lemma NewestIsLast(run: seq<Db>, steps: seq<Step>, n: nat, k: UserKey, v: Bytes)
    requires IsRun(run, steps) && n < |run|
    ensures |run[n].history| <= MAX_SEQUENCE
    ensures Visible(NewestIn(run[n].history, k, |run[n].history|)) == Some(v) <==> LastPuts(steps, n, k, v)
  {
    hide IsRun, NewestIn, Written, InHistory;
    var h := run[n].history;
    HistoryIs(run, steps, n);
    NewestInIs(h, k, |h|);
    if Visible(NewestIn(h, k, |h|)) == Some(v) {
      var at :| 0 <= at < |h| && h[at] == NewestIn(h, k, |h|).value && h[at].key.user == k && forall at' :: at < at' < |h| ==> h[at'].key.user != k;
      LastFromNewest(h, steps, n, k, at);
    }
    if LastPuts(steps, n, k, v) {
      var j: nat, t: nat :| LastUpdate(steps, n, k, j, t) && steps[j].ops[t].1 == Put(v);
      NewestFromLast(h, steps, n, k, j, t);
    }
  }

  lemma LastFromNewest(h: seq<Entry>, steps: seq<Step>, n: nat, k: UserKey, at: nat)
    requires HoldsUpdates(h, steps, n) && at < |h| && h[at].key.user == k && forall at' :: at < at' < |h| ==> h[at'].key.user != k
    ensures exists j: nat, t: nat :: LastUpdate(steps, n, k, j, t) && steps[j].ops[t].1 == h[at].op
  {
    hide Written;
    var j, t := Origin(steps, n, at);
    assert InHistory(h, steps, j, t);
    forall j', t' | j <= j' < n && 0 <= t' && IsUpdate(steps, j', t') && (j' == j ==> t < t') ensures steps[j'].ops[t'].0 != k {
      assert InHistory(h, steps, j', t');
      LaterIsLater(steps, j, t, j', t');
    }
    assert LastUpdate(steps, n, k, j, t);
  }

  lemma LaterIsLater(steps: seq<Step>, j: nat, t: nat, j': nat, t': nat)
    requires IsUpdate(steps, j, t) && IsUpdate(steps, j', t') && (j < j' || (j == j' && t < t'))
    ensures Written(steps, j) + t < Written(steps, j') + t'
  {
    if j < j' {
      WrittenGrows(steps, j + 1, j');
    }
  }

  lemma NewestFromLast(h: seq<Entry>, steps: seq<Step>, n: nat, k: UserKey, j: nat, t: nat)
    requires HoldsUpdates(h, steps, n) && |h| <= MAX_SEQUENCE && LastUpdate(steps, n, k, j, t)
    ensures NewestIn(h, k, |h|).Some? && NewestIn(h, k, |h|).value.op == steps[j].ops[t].1
  {
    hide Written, NewestIn;
    assert InHistory(h, steps, j, t);
    NewestInIs(h, k, |h|);
    var at :| 0 <= at < |h| && h[at] == NewestIn(h, k, |h|).value && h[at].key.user == k && forall at' :: at < at' < |h| ==> h[at'].key.user != k;
    var j', t' := Origin(steps, n, at);
    assert InHistory(h, steps, j', t');
    if j' < j || (j' == j && t' < t) {
      LaterIsLater(steps, j', t', j, t);
    }
  }

  /** A read without a snapshot returns what the last update of its key put. */
  lemma LatestReads(run: seq<Db>, steps: seq<Step>, i: nat, k: UserKey, v: Bytes)
    requires IsRun(run, steps) && i < |run|
    ensures |run[i].history| <= MAX_SEQUENCE
    ensures Visible(Get(run[i], k, |run[i].history|)) == Visible(NewestIn(run[i].history, k, |run[i].history|))
    ensures Visible(Get(run[i], k, |run[i].history|)) == Some(v) <==> LastPuts(steps, i, k, v)
  {
    hide IsRun, Get, NewestIn, LastPuts;
    RunInv(run, steps, i);
    NewestIsLast(run, steps, i, k, v);
  }

  /** As long as a snapshot is held, a read at it returns what the last update of its key before the snapshot was taken put. */
  lemma HeldSnapshotReads(run: seq<Db>, steps: seq<Step>, a: nat, i: nat, k: UserKey, v: Bytes)
    requires IsRun(run, steps) && a < i < |run| && steps[a].TakeSnapshot?
    requires |run[a].history| <= MAX_SEQUENCE && |run[a].history| in run[i].snapshots
    ensures Visible(Get(run[i], k, |run[a].history|)) == Some(v) <==> LastPuts(steps, a, k, v)
  {
    hide IsRun, Get, NewestIn, LastPuts;
    RunInv(run, steps, i);
    RunHistory(run, steps, a, i);
    NewestInExtends(run[a].history, run[i].history, k, |run[a].history|);
    NewestIsLast(run, steps, a, k, v);
    OldestLeast(run[i], |run[a].history|);
  }

  lemma OldestLeast(d: Db, s: Sequence)
    requires Inv(d) && s in d.snapshots
    ensures Oldest(d) <= s <= |d.history|
  {
  }

  /** Every snapshot held was taken by a step of the run, at the history of that moment. */
  lemma {:induction false} SnapshotTaken(run: seq<Db>, steps: seq<Step>, i: nat, s: Sequence) returns (a: nat)
    requires IsRun(run, steps) && i < |run| && s in run[i].snapshots
    ensures a < i && steps[a].TakeSnapshot? && s == |run[a].history|
    decreases i
  {
    hide WriteAll, Flushed, Moved, Compacted;
    assert run[0].snapshots == [];
    var d, d', step := run[i - 1], run[i], steps[i - 1];
    assert Next(run[i - 1], run[i - 1 + 1], step);
    if s in d.snapshots {
      a := SnapshotTaken(run, steps, i - 1, s);
    } else {
      OnlyTaken(d, d', step, s);
      a := i - 1;
    }
  }

  lemma OnlyTaken(d: Db, d': Db, step: Step, s: Sequence)
    requires Next(d, d', step) && s in d'.snapshots && s !in d.snapshots
    ensures step.TakeSnapshot? && s == |d.history|
  {
    if step.Write? {
      SameSnapshots(d, step.ops);
    }
  }

  lemma {:induction false} SameSnapshots(d: Db, ops: seq<(UserKey, Op)>)
    requires |d.history| + |ops| <= MAX_SEQUENCE
    ensures WriteAll(d, ops).snapshots == d.snapshots
    decreases |ops|
  {
    if |ops| > 0 {
      SameSnapshots(WriteOne(d, ops[0].0, ops[0].1), ops[1..]);
    }
  }
}
