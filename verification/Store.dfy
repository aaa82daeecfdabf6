/**
 * The store as a state machine: memtables, seven levels, snapshots, and the steps that change them
 * (DBImpl in db/db_impl.cc over VersionSet in db/version_set.cc).  A background flush or compaction
 * is one atomic step and file operations succeed.
 */
module Store {
  import opened Basics
  import opened Entries
  import opened Levels
  import opened Overlap
  import opened Compaction
  import opened Install

  /** history lists every write ever applied, in order: the write with sequence n is history[n-1]. */
  datatype Db = Db(history: seq<Entry>, mem: seq<Entry>, imm: Option<seq<Entry>>, levels: seq<seq<File>>,
                   snapshots: seq<Sequence>, nextFile: nat)

  const EMPTY_DB := Db([], [], None, [[], [], [], [], [], [], []], [], 2)

  function ImmEntries(d: Db): (es: seq<Entry>) {
    if d.imm.Some? then d.imm.value else []
  }

  function Lookup(mem: seq<Entry>, imm: seq<Entry>, levels: seq<seq<File>>, k: UserKey, s: Sequence): (r: Option<Entry>) {
    var inMem := TableGet(mem, k, s);
    if inMem.Some? then inMem
    else
      var inImm := TableGet(imm, k, s);
      if inImm.Some? then inImm else VersionGetFrom(levels, 0, k, s)
  }

  /** DBImpl::Get: the memtable, then the immutable memtable, then the current version. */
  function Get(d: Db, k: UserKey, s: Sequence): (r: Option<Entry>) {
    Lookup(d.mem, ImmEntries(d), d.levels, k, s)
  }

  /** smallest_snapshot: no read goes below the oldest snapshot, or the last sequence without one. */
  function Oldest(d: Db): (s: nat) {
    if |d.snapshots| == 0 then |d.history| else d.snapshots[0]
  }

  /** What each level holds. */
  ghost function ContentsOf(levels: seq<seq<File>>): (cs: seq<set<Entry>>)
    ensures |cs| == |levels| && forall i :: 0 <= i < |levels| ==> cs[i] == LevelContents(levels[i])
  {
    seq(|levels|, i requires 0 <= i < |levels| => LevelContents(levels[i]))
  }

  /** All entries on levels lv and below. */
  ghost function Union(cs: seq<set<Entry>>, lv: nat): (u: set<Entry>)
    ensures forall e :: e in u ==> exists l :: lv <= l < |cs| && e in cs[l]
    ensures forall l, e :: lv <= l < |cs| && e in cs[l] ==> e in u
    decreases |cs| - lv
  {
    if lv >= |cs| then {} else cs[lv] + Union(cs, lv + 1)
  }

  ghost function LevelsContents(levels: seq<seq<File>>): set<Entry> {
    Union(ContentsOf(levels), 0)
  }

  ghost function Present(d: Db): set<Entry> {
    Contents(d.mem) + Contents(ImmEntries(d)) + LevelsContents(d.levels)
  }

  // ---------------------------------------------------------------------------------------
  // Invariant

  ghost predicate Newer(a: set<Entry>, b: set<Entry>) {
    forall e, e' :: e in a && e' in b ==> e.key.sn > e'.key.sn
  }

  /** Of two entries of one user key, the one in a is newer. */
  ghost predicate Above(a: set<Entry>, b: set<Entry>) {
    forall e, e' :: e in a && e' in b && e.key.user == e'.key.user ==> e.key.sn > e'.key.sn
  }

  ghost predicate ByAge(cs: seq<set<Entry>>) {
    forall l, l' :: 0 <= l < l' < |cs| ==> Above(cs[l], cs[l'])
  }

  ghost predicate LevelsOk(levels: seq<seq<File>>) {
    && Sound(levels)
    && NumberedByAge(levels[0])
    && ByAge(ContentsOf(levels))
  }

  ghost predicate HistoryOk(h: seq<Entry>) {
    |h| <= MAX_SEQUENCE && forall i :: 0 <= i < |h| ==> h[i].key.sn == i + 1
  }

  /** Memtables are sorted; the memtable is newer than the immutable one, and both than the levels. */
  ghost predicate Layered(h: seq<Entry>, mem: seq<Entry>, imm: seq<Entry>, below: set<Entry>) {
    && FromHistory(Contents(mem) + Contents(imm) + below, h)
    && Sorted(mem) && Sorted(imm)
    && Newer(Contents(mem), Contents(imm))
    && Newer(Contents(mem) + Contents(imm), below)
  }

  ghost predicate SnapshotsOk(snapshots: seq<Sequence>, last: nat) {
    && (forall i :: 0 <= i < |snapshots| ==> snapshots[i] <= last)
    && (forall i, j :: 0 <= i <= j < |snapshots| ==> snapshots[i] <= snapshots[j])
  }

  ghost predicate Shape(d: Db) {
    && HistoryOk(d.history)
    && Layered(d.history, d.mem, ImmEntries(d), LevelsContents(d.levels))
    && LevelsOk(d.levels)
    && (forall f :: f in d.levels[0] ==> f.number < d.nextFile)
    && SnapshotsOk(d.snapshots, |d.history|)
  }

  /** Every read that can still be issued is answered as by the list of all writes. */
  ghost predicate ReadsRight(d: Db)
    requires |d.history| <= MAX_SEQUENCE
  {
    forall k, s: Sequence :: Oldest(d) <= s <= |d.history| ==> Visible(Get(d, k, s)) == Visible(NewestIn(d.history, k, s))
  }

  ghost predicate Inv(d: Db) {
    Shape(d) && ReadsRight(d)
  }

  lemma NewestOfLayers(a: set<Entry>, b: set<Entry>, k: UserKey, s: Sequence, ra: Option<Entry>, rb: Option<Entry>)
    requires Above(a, b) && IsNewest(a, k, s, ra) && IsNewest(b, k, s, rb)
    ensures IsNewest(a + b, k, s, if ra.Some? then ra else rb)
  {
  }

  lemma {:induction false} VersionGetIsNewest(levels: seq<seq<File>>, lv: nat, k: UserKey, s: Sequence)
    requires LevelsOk(levels) && lv <= NUM_LEVELS
    ensures IsNewest(Union(ContentsOf(levels), lv), k, s, VersionGetFrom(levels, lv, k, s))
    decreases NUM_LEVELS - lv
  {
    if lv < NUM_LEVELS {
      var here := if lv == 0 then Level0Get(levels[0], k, s) else LevelGet(levels[lv], k, s);
      var cs := ContentsOf(levels);
      assert IsNewest(cs[lv], k, s, here) by {
        if lv == 0 {
          Level0GetIsNewest(levels[0], k, s);
        } else {
          LevelGetIsNewest(levels[lv], k, s);
        }
      }
      VersionGetIsNewest(levels, lv + 1, k, s);
      assert Above(cs[lv], Union(cs, lv + 1));
      NewestOfLayers(cs[lv], Union(cs, lv + 1), k, s, here, VersionGetFrom(levels, lv + 1, k, s));
    }
  }

  /** The layered lookup returns the newest visible entry present anywhere in the store. */
  lemma GetIsNewest(d: Db, k: UserKey, s: Sequence)
    requires Shape(d)
    ensures IsNewest(Present(d), k, s, Get(d, k, s))
  {
    var mem, imm, below := Contents(d.mem), Contents(ImmEntries(d)), LevelsContents(d.levels);
    TableGetIsNewest(d.mem, k, s);
    TableGetIsNewest(ImmEntries(d), k, s);
    VersionGetIsNewest(d.levels, 0, k, s);
    var inMem, inImm := TableGet(d.mem, k, s), TableGet(ImmEntries(d), k, s);
    NewestOfLayers(mem, imm, k, s, inMem, inImm);
    NewestOfLayers(mem + imm, below, k, s, if inMem.Some? then inMem else inImm, VersionGetFrom(d.levels, 0, k, s));
  }

  // ---------------------------------------------------------------------------------------
  // Replacing input files by outputs one level below

  ghost function FileContents(fs: set<File>): set<Entry> {
    set f, e | f in fs && e in f.entries :: e
  }

  ghost predicate NoSharedUser(a: set<Entry>, b: set<Entry>) {
    forall e, e' :: e in a && e' in b ==> e.key.user != e'.key.user
  }

  /** Nothing that stays on the level is older than an entry of the same user key that is taken from it. */
  ghost predicate NothingOlderLeft(levels: seq<seq<File>>, level: nat, in0: set<File>)
    requires level < |levels|
  {
    Above(LevelContents(Without(levels[level], in0)), FileContents(in0))
  }

  ghost predicate ValidRewrite(levels: seq<seq<File>>, level: nat, in0: set<File>, in1: set<File>, out: seq<File>) {
    && LevelsOk(levels) && level + 1 < NUM_LEVELS
    && CompactionInputs(levels, level, in0, in1)
    && Above(LevelContents(Without(levels[level], in0)), LevelContents(out))
    && FilesOk(out) && SortedLevel(out)
    && LevelContents(out) <= FileContents(in0 + in1)
  }

  lemma SplitContents(files: seq<File>, gone: set<File>)
    requires gone <= Elements(files)
    ensures LevelContents(files) == FileContents(gone) + LevelContents(Without(files, gone))
  {
  }

  lemma InstalledContents(files: seq<File>, gone: set<File>, added: seq<File>)
    ensures LevelContents(Installed(files, gone, added)) == LevelContents(Without(files, gone)) + LevelContents(added)
  {
  }

  /** The contents after a rewrite: what was left (rest) stays, what was made joins the level below. */
  lemma RewriteContents(levels: seq<seq<File>>, level: nat, in0: set<File>, in1: set<File>, out: seq<File>)
    requires level + 1 < |levels| && in0 <= Elements(levels[level]) && in1 <= Elements(levels[level + 1])
    ensures var rest0, rest1 := LevelContents(Without(levels[level], in0)), LevelContents(Without(levels[level + 1], in1));
            && LevelContents(levels[level]) == FileContents(in0) + rest0
            && LevelContents(levels[level + 1]) == FileContents(in1) + rest1
            && FileContents(in0 + in1) == FileContents(in0) + FileContents(in1)
            && ContentsOf(Rewritten(levels, level, in0, in1, out)) ==
               ContentsOf(levels)[level := rest0][level + 1 := rest1 + LevelContents(out)]
  {
    SplitContents(levels[level], in0);
    SplitContents(levels[level + 1], in1);
    InstalledContents(levels[level + 1], in1, out);
  }

  lemma MovedKeepsAge(cs: seq<set<Entry>>, level: nat, i0: set<Entry>, rest0: set<Entry>, i1: set<Entry>, rest1: set<Entry>,
                      made: set<Entry>)
    requires ByAge(cs) && level + 1 < |cs|
    requires cs[level] == i0 + rest0 && cs[level + 1] == i1 + rest1
    requires made <= i0 + i1 && Above(rest0, made)
    ensures ByAge(cs[level := rest0][level + 1 := rest1 + made])
  {
    var cs' := cs[level := rest0][level + 1 := rest1 + made];
    forall l, l' | 0 <= l < l' < |cs| ensures Above(cs'[l], cs'[l']) {
      assert Above(cs[l], cs[l']);
      if l == level + 1 {
        assert Above(cs[level], cs[l']);
      } else if l' == level + 1 && l < level {
        assert Above(cs[l], cs[level]);
      }
    }
  }

  /** What is left was not taken. */
  lemma LeftNotTaken(cs: seq<set<Entry>>, level: nat, i0: set<Entry>, rest0: set<Entry>, i1: set<Entry>, rest1: set<Entry>, l: nat, e: Entry)
    requires ByAge(cs) && level + 1 < |cs| && cs[level] == i0 + rest0 && cs[level + 1] == i1 + rest1
    requires Above(rest0, i0) && i1 !! rest1
    requires l < |cs| && e in cs[level := rest0][level + 1 := rest1][l]
    ensures e !in i0 && e !in i1 && e in cs[l]
  {
    if l < level {
      assert Above(cs[l], cs[level]) && Above(cs[l], cs[level + 1]);
    } else if l == level {
      assert Above(cs[level], cs[level + 1]);
    } else if l == level + 1 {
      assert Above(cs[level], cs[l]);
    } else {
      assert Above(cs[level], cs[l]) && Above(cs[level + 1], cs[l]);
    }
  }

  /** Exactly what was taken and not made again is lost. */
  lemma MovedContents(cs: seq<set<Entry>>, level: nat, i0: set<Entry>, rest0: set<Entry>, i1: set<Entry>, rest1: set<Entry>,
                      made: set<Entry>, e: Entry)
    requires ByAge(cs) && level + 1 < |cs|
    requires cs[level] == i0 + rest0 && cs[level + 1] == i1 + rest1
    requires made <= i0 + i1 && Above(rest0, i0) && i1 !! rest1
    ensures e in Union(cs[level := rest0][level + 1 := rest1 + made], 0) <==>
              e in Union(cs, 0) && (e !in i0 + i1 || e in made)
  {
    hide ByAge, Above;
    var cs' := cs[level := rest0][level + 1 := rest1 + made];
    if e in made {
      assert e in cs'[level + 1];
      assert e in cs[level] || e in cs[level + 1];
    } else {
      if e in Union(cs', 0) {
        var l :| 0 <= l < |cs'| && e in cs'[l];
        LeftNotTaken(cs, level, i0, rest0, i1, rest1, l, e);
      }
      if e in Union(cs, 0) && e !in i0 + i1 {
        var l :| 0 <= l < |cs| && e in cs[l];
        assert e in cs'[l];
      }
    }
  }

  lemma RewriteKeepsAge(levels: seq<seq<File>>, level: nat, in0: set<File>, in1: set<File>, out: seq<File>)
    requires level + 1 < |levels| && in0 <= Elements(levels[level]) && in1 <= Elements(levels[level + 1])
    requires ByAge(ContentsOf(levels)) && Above(LevelContents(Without(levels[level], in0)), LevelContents(out))
    requires LevelContents(out) <= FileContents(in0 + in1)
    ensures ByAge(ContentsOf(Rewritten(levels, level, in0, in1, out)))
  {
    RewriteContents(levels, level, in0, in1, out);
    MovedKeepsAge(ContentsOf(levels), level, FileContents(in0), LevelContents(Without(levels[level], in0)),
                  FileContents(in1), LevelContents(Without(levels[level + 1], in1)), LevelContents(out));
  }

  lemma RewriteKeepsNumbers(levels: seq<seq<File>>, level: nat, in0: set<File>, in1: set<File>, out: seq<File>)
    requires level + 1 < |levels| && NumberedByAge(levels[0])
    ensures NumberedByAge(Rewritten(levels, level, in0, in1, out)[0])
  {
    WithoutKeepsNumbers(levels[0], in0);
  }

  lemma RewriteKeepsLevels(levels: seq<seq<File>>, level: nat, in0: set<File>, in1: set<File>, out: seq<File>)
    requires ValidRewrite(levels, level, in0, in1, out)
    ensures LevelsOk(Rewritten(levels, level, in0, in1, out))
  {
    var levels' := Rewritten(levels, level, in0, in1, out);
    assert Sound(levels') by {
      DrawnFromContents(out, in0 + in1);
      RewriteKeepsSound(levels, level, in0, in1, out);
    }
    assert ByAge(ContentsOf(levels')) by {
      RewriteKeepsAge(levels, level, in0, in1, out);
    }
    RewriteKeepsNumbers(levels, level, in0, in1, out);
  }

  lemma DrawnFromContents(out: seq<File>, inputs: set<File>)
    requires LevelContents(out) <= FileContents(inputs)
    ensures DrawnFrom(out, inputs)
  {
    forall f, e | f in out && e in f.entries ensures exists g :: g in inputs && e in g.entries {
      assert e in LevelContents(out);
    }
  }

  lemma {:induction false} WithoutKeepsNumbers(files: seq<File>, gone: set<File>)
    requires NumberedByAge(files)
    ensures NumberedByAge(Without(files, gone))
  {
    WithoutKeepsDistinct(files, gone);
  }

  lemma {:induction false} WithoutKeepsDistinct(files: seq<File>, gone: set<File>)
    requires DistinctNumbers(files)
    ensures DistinctNumbers(Without(files, gone))
  {
    if |files| > 0 {
      WithoutKeepsDistinct(files[1..], gone);
      var r := Without(files[1..], gone);
      assert forall j :: 0 <= j < |r| ==> r[j] in r;
    }
  }

  /** What is made of inputs that leave nothing older behind lies below what is left. */
  lemma MadeBelow(levels: seq<seq<File>>, level: nat, in0: set<File>, in1: set<File>, out: seq<File>)
    requires level + 1 < |levels| && in0 <= Elements(levels[level]) && in1 <= Elements(levels[level + 1])
    requires ByAge(ContentsOf(levels)) && NothingOlderLeft(levels, level, in0) && LevelContents(out) <= FileContents(in0 + in1)
    ensures Above(LevelContents(Without(levels[level], in0)), LevelContents(out))
  {
    RewriteContents(levels, level, in0, in1, out);
    assert Above(ContentsOf(levels)[level], ContentsOf(levels)[level + 1]);
  }

  /** A rewrite brings no new entry. */
  lemma RewriteShrinks(levels: seq<seq<File>>, level: nat, in0: set<File>, in1: set<File>, out: seq<File>)
    requires level + 1 < |levels| && in0 <= Elements(levels[level]) && in1 <= Elements(levels[level + 1])
    requires LevelContents(out) <= FileContents(in0 + in1)
    ensures LevelsContents(Rewritten(levels, level, in0, in1, out)) <= LevelsContents(levels)
  {
    RewriteContents(levels, level, in0, in1, out);
    var cs, cs' := ContentsOf(levels), ContentsOf(Rewritten(levels, level, in0, in1, out));
    forall e | e in Union(cs', 0) ensures e in Union(cs, 0) {
      var l :| 0 <= l < |cs'| && e in cs'[l];
      assert e in cs[l] || e in cs[level] || e in cs[level + 1];
    }
  }

  lemma NotInBoth(f: File, g: File, e: Entry)
    requires FileOk(f) && FileOk(g) && Apart(f, g) && e in f.entries
    ensures e !in g.entries
  {
    InRange(f, e);
    if e in g.entries {
      InRange(g, e);
    }
  }

  /** On a sorted level no entry is in two files. */
  lemma FilesApart(files: seq<File>, gone: set<File>)
    requires FilesOk(files) && SortedLevel(files) && gone <= Elements(files)
    ensures FileContents(gone) !! LevelContents(Without(files, gone))
  {
    hide FileOk, Before;
    forall f, g, e | f in gone && g in files && g !in gone && e in f.entries ensures e !in g.entries {
      var i :| 0 <= i < |files| && files[i] == f;
      var j :| 0 <= j < |files| && files[j] == g;
      NotInBoth(f, g, e);
    }
  }

  /** Exactly the inputs that do not reappear in the outputs are lost. */
  lemma RewriteChanges(levels: seq<seq<File>>, level: nat, in0: set<File>, in1: set<File>, out: seq<File>)
    requires ValidRewrite(levels, level, in0, in1, out) && NothingOlderLeft(levels, level, in0)
    ensures forall e :: e in LevelsContents(Rewritten(levels, level, in0, in1, out)) <==>
              e in LevelsContents(levels) && (e !in FileContents(in0 + in1) || e in LevelContents(out))
  {
    RewriteContents(levels, level, in0, in1, out);
    FilesApart(levels[level + 1], in1);
    forall e {
      MovedContents(ContentsOf(levels), level, FileContents(in0), LevelContents(Without(levels[level], in0)),
                    FileContents(in1), LevelContents(Without(levels[level + 1], in1)), LevelContents(out), e);
    }
  }
}
