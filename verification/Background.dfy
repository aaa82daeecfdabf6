/**
 * The background thread: CompactMemTable, BackgroundCompaction and manual compaction run the concrete
 * algorithms from the choice of inputs to the new version, and what they install is a step of the store.
 */
module Background {
  import opened Basics
  import opened Entries
  import opened Levels
  import opened Overlap
  import opened Compaction
  import opened Install
  import opened Store
  import opened Machine
  import opened Boundary
  import M = Merger

  // ---------------------------------------------------------------------------------------
  // Outputs become files

  /** Every output becomes a table with the next file number; its range is read off its entries. */
  function FilesOf(first: nat, outputs: seq<seq<Entry>>, fileSize: seq<Entry> -> nat): (files: seq<File>)
    requires forall out :: out in outputs ==> |out| > 0
    ensures |files| == |outputs|
    ensures forall i :: 0 <= i < |outputs| ==> files[i] == TableOf(first + i, fileSize(outputs[i]), outputs[i])
  {
    seq(|outputs|, i requires 0 <= i < |outputs| => TableOf(first + i, fileSize(outputs[i]), outputs[i]))
  }

  /** The tables hold, one after another, what the outputs hold. */
  lemma {:induction false} FilesJoin(first: nat, outputs: seq<seq<Entry>>, fileSize: seq<Entry> -> nat)
    requires forall out :: out in outputs ==> |out| > 0
    ensures Joined(FilesOf(first, outputs, fileSize)) == Flat(outputs)
  {
    if |outputs| > 0 {
      var n := |outputs| - 1;
      FilesJoin(first, outputs[..n], fileSize);
      assert FilesOf(first, outputs, fileSize)[..n] == FilesOf(first, outputs[..n], fileSize);
    }
  }

  /** Each piece of a sorted whole is sorted. */
  lemma {:induction false} PieceSorted(outputs: seq<seq<Entry>>, i: nat)
    requires i < |outputs| && Sorted(Flat(outputs))
    ensures Sorted(outputs[i])
  {
    var n := |outputs| - 1;
    var front, es := Flat(outputs[..n]), Flat(outputs);
    if i < n {
      assert forall j :: 0 <= j < |front| ==> es[j] == front[j];
      PieceSorted(outputs[..n], i);
    } else {
      assert forall j :: 0 <= j < |outputs[n]| ==> es[|front| + j] == outputs[n][j];
    }
  }

  /** Outputs cut anywhere from a sorted whole are well-formed tables. */
  lemma FilesOfOk(first: nat, outputs: seq<seq<Entry>>, fileSize: seq<Entry> -> nat)
    requires Sorted(Flat(outputs)) && forall out :: out in outputs ==> |out| > 0
    ensures FilesOk(FilesOf(first, outputs, fileSize))
  {
    var files := FilesOf(first, outputs, fileSize);
    forall f | f in files ensures FileOk(f) {
      var i :| 0 <= i < |files| && files[i] == f;
      PieceSorted(outputs, i);
    }
  }

  // ---------------------------------------------------------------------------------------
  // The two kinds of background work

  /** Inputs as SetupOtherInputs leaves them, and their entries as the merging iterator gives them. */
  ghost predicate Prepared(levels: seq<seq<File>>, level: nat, in0: seq<File>, in1: seq<File>, grandparents: seq<File>,
                           m: seq<Entry>)
  {
    && level + 1 < |levels|
    && CompactionInputs(levels, level, Elements(in0), Elements(in1))
    && ShapeOk(levels, grandparents)
    && Sorted(m) && Contents(m) == FileContents(Elements(in0) + Elements(in1))
  }

  /**
   * A compaction run by its concrete loop changes the store as the machine's step says, and every new
   * table respects the bounds on its size and on the grandparents it overlaps.
   */
  method RunCompaction(d: Db, level: nat, in0: seq<File>, in1: seq<File>, grandparents: seq<File>, m: seq<Entry>,
                       limit: SizeLimit)
    returns (d': Db, out: seq<File>)
    requires Shape(d) && Oldest(d) < MAX_SEQUENCE
    requires Prepared(d.levels, level, in0, in1, grandparents, m)
    ensures Ran(d, d', level, Elements(in0), Elements(in1), m, out)
    ensures forall i :: 0 <= i < |out| ==> out[i].number == d.nextFile + i
    ensures forall f :: f in out ==> FileOk(f) && OverlapBounded(grandparents, f.entries)
    ensures forall f, j :: f in out && 0 < j < |f.entries| ==> limit.fileSize(f.entries[..j]) < limit.most
  {
    hide Shape, CompactionInputs, OutputsOk, Sized, OverlapBounded, Kept, Rewritten, FileOk, Joined, Flat, PointersOk;
    var c := new Cursor(level, d.levels, grandparents);
    var outputs, _ := DoCompactionWork(c, m, Oldest(d), limit);
    NoneEmpty(grandparents, outputs);
    out := FilesOf(d.nextFile, outputs, limit.fileSize);
    KeptSorted(m, |m|, Oldest(d), BaseOf(d.levels, level));
    FilesOfOk(d.nextFile, outputs, limit.fileSize);
    FilesJoin(d.nextFile, outputs, limit.fileSize);
    FilesBounded(d.nextFile, outputs, limit, grandparents);
    var removed0 := set f | f in in0;
    var removed1 := set f | f in in1;
    d' := d.(levels := Rewritten(d.levels, level, removed0, removed1, out), nextFile := d.nextFile + |out|);
  }

  lemma NoneEmpty(grandparents: seq<File>, outputs: seq<seq<Entry>>)
    requires OutputsOk(grandparents, outputs)
    ensures forall out :: out in outputs ==> |out| > 0
  {
  }

  /** The bounds on the outputs are bounds on the tables. */
  lemma FilesBounded(first: nat, outputs: seq<seq<Entry>>, limit: SizeLimit, grandparents: seq<File>)
    requires OutputsOk(grandparents, outputs) && Sized(limit, outputs)
    requires forall out :: out in outputs ==> |out| > 0
    ensures forall f :: f in FilesOf(first, outputs, limit.fileSize) ==> |f.entries| > 0 && OverlapBounded(grandparents, f.entries)
    ensures forall f, j :: f in FilesOf(first, outputs, limit.fileSize) && 0 < j < |f.entries| ==> limit.fileSize(f.entries[..j]) < limit.most
  {
    hide OverlapBounded;
    var files := FilesOf(first, outputs, limit.fileSize);
    forall f | f in files ensures f.entries in outputs {
      var i :| 0 <= i < |files| && files[i] == f;
      assert outputs[i] in outputs;
    }
  }

  // ---------------------------------------------------------------------------------------
  // The merged input

  /** MakeInputIterator: one child for each file of level 0, one for all files of a deeper level. */
  function InputLists(level: nat, in0: seq<File>, in1: seq<File>): (children: seq<seq<Entry>>) {
    (if level == 0 then seq(|in0|, i requires 0 <= i < |in0| => in0[i].entries) else if |in0| > 0 then [Joined(in0)] else [])
    + (if |in1| > 0 then [Joined(in1)] else [])
  }

  /** The files of a sorted level, one after another, are one sorted list. */
  lemma {:induction false} JoinedSorted(files: seq<File>)
    requires FilesOk(files) && SortedLevel(files)
    ensures Sorted(Joined(files))
  {
    if |files| > 0 {
      var n := |files| - 1;
      var front, last := files[..n], files[n];
      assert forall f :: f in front ==> f in files;
      JoinedSorted(front);
      JoinedContents(front);
      assert FileOk(last);
      forall i, j | 0 <= i < |Joined(front)| && 0 <= j < |last.entries| ensures Before(Joined(front)[i].key, last.entries[j].key) {
        var e := Joined(front)[i];
        assert e in Contents(Joined(front)) && e in LevelContents(front);
        var f :| f in front && e in f.entries;
        var k :| 0 <= k < |front| && front[k] == f;
        assert FileOk(f) && Before(files[k].largest, files[n].smallest);
        InRange(f, e);
        InRange(last, last.entries[j]);
      }
    }
  }

  ghost predicate KeysApart(a: seq<Entry>, b: seq<Entry>) {
    forall x, y :: x in a && y in b ==> x.key != y.key
  }

  lemma FilesKeysApart(d: Db, in0: seq<File>, i: nat, j: nat)
    requires Shape(d) && InLevelOrder(in0, d.levels[0]) && i < j < |in0|
    ensures KeysApart(in0[i].entries, in0[j].entries)
  {
    OrderKeeps(in0, d.levels[0]);
    assert in0[i] in Elements(in0) && in0[j] in Elements(in0);
    assert Younger(in0[i], in0[j]) || Younger(in0[j], in0[i]);
  }

  lemma LevelsKeysApart(d: Db, level: nat, a: seq<Entry>, b: seq<Entry>)
    requires Shape(d) && level + 1 < NUM_LEVELS && Contents(a) <= LevelContents(d.levels[level]) && Contents(b) <= LevelContents(d.levels[level + 1])
    ensures KeysApart(a, b)
  {
    var cs := ContentsOf(d.levels);
    assert Above(cs[level], cs[level + 1]);
    forall x, y | x in a && y in b ensures x.key != y.key {
      assert x in Contents(a) && y in Contents(b);
    }
  }

  lemma PartContents(part: seq<File>, files: seq<File>)
    requires InLevelOrder(part, files)
    ensures LevelContents(part) <= LevelContents(files) && LevelContents(part) == FileContents(Elements(part))
  {
    OrderKeeps(part, files);
  }

  /** Children that are sorted, share no key, hold entries of a level only, and together hold exactly the entries of the files. */
  ghost predicate ListsFor(d: Db, level: nat, files: seq<File>, children: seq<seq<Entry>>)
    requires level < |d.levels|
  {
    && M.ChildrenOk(children)
    && (forall i :: 0 <= i < |children| ==> Contents(children[i]) <= LevelContents(d.levels[level]))
    && (forall e :: M.InChildren(children, e) <==> e in FileContents(Elements(files)))
  }

  lemma FilesAsChildren(d: Db, in0: seq<File>, up: seq<seq<Entry>>)
    requires Shape(d) && InLevelOrder(in0, d.levels[0]) && |up| == |in0| && forall i :: 0 <= i < |in0| ==> up[i] == in0[i].entries
    ensures ListsFor(d, 0, in0, up)
  {
    hide Shape, InLevelOrder, FileOk;
    LevelsFilesOk(d);
    OrderKeeps(in0, d.levels[0]);
    FilesInChildren(in0, up);
    forall i | 0 <= i < |in0| ensures Sorted(up[i]) && Contents(up[i]) <= LevelContents(d.levels[0]) {
      assert in0[i] in Elements(in0);
      FileSorted(in0[i]);
    }
    forall i, j | 0 <= i < j < |in0| ensures KeysApart(up[i], up[j]) {
      FilesKeysApart(d, in0, i, j);
    }
  }

  lemma FileSorted(f: File)
    requires FileOk(f)
    ensures Sorted(f.entries)
  {
  }

  lemma LevelAsChild(d: Db, level: nat, files: seq<File>)
    requires Shape(d) && 0 < level < NUM_LEVELS && InLevelOrder(files, d.levels[level])
    ensures ListsFor(d, level, files, [Joined(files)])
  {
    hide Shape, InLevelOrder, Joined;
    var up := [Joined(files)];
    LevelsFilesOk(d);
    OrderKeeps(files, d.levels[level]);
    PartContents(files, d.levels[level]);
    JoinedSorted(files);
    JoinedContents(files);
    forall e ensures M.InChildren(up, e) <==> e in Contents(up[0]) {
      assert e in up[0] ==> M.InChildren(up, e);
    }
  }

  /** The upper children: sorted, with no key in two of them, and holding exactly the entries of the upper inputs. */
  lemma UpperOk(d: Db, level: nat, in0: seq<File>)
    requires Shape(d) && level < NUM_LEVELS && InLevelOrder(in0, d.levels[level])
    ensures ListsFor(d, level, in0, InputLists(level, in0, []))
  {
    hide Shape, InLevelOrder, ListsFor;
    var up := InputLists(level, in0, []);
    LevelsFilesOk(d);
    if level == 0 {
      FilesAsChildren(d, in0, up);
    } else if |in0| > 0 {
      assert up == [Joined(in0)];
      LevelAsChild(d, level, in0);
    } else {
      assert up == [];
      NoLists(d, level, in0);
    }
  }

  lemma NoLists(d: Db, level: nat, files: seq<File>)
    requires level < |d.levels| && |files| == 0
    ensures ListsFor(d, level, files, [])
  {
    NoFilesNoContents(files);
  }

  lemma FilesInChildren(in0: seq<File>, up: seq<seq<Entry>>)
    requires |up| == |in0| && forall i :: 0 <= i < |in0| ==> up[i] == in0[i].entries
    ensures forall e :: M.InChildren(up, e) <==> e in FileContents(Elements(in0))
  {
    forall e | M.InChildren(up, e) ensures e in FileContents(Elements(in0)) {
      var i :| 0 <= i < |up| && e in up[i];
      assert in0[i] in Elements(in0);
    }
    forall e | e in FileContents(Elements(in0)) ensures M.InChildren(up, e) {
      var f :| f in Elements(in0) && e in f.entries;
      var i :| 0 <= i < |in0| && in0[i] == f;
      assert e in up[i];
    }
  }

  lemma AllOk(d: Db, level: nat, in0: seq<File>, in1: seq<File>)
    requires Shape(d) && level + 1 < NUM_LEVELS && InLevelOrder(in0, d.levels[level]) && InLevelOrder(in1, d.levels[level + 1])
    ensures var children := InputLists(level, in0, in1);
            M.ChildrenOk(children) && forall e :: M.InChildren(children, e) <==> e in FileContents(Elements(in0) + Elements(in1))
  {
    hide Shape, M.ChildrenOk, InLevelOrder, FileContents, Elements;
    LevelsFilesOk(d);
    var up, children := InputLists(level, in0, []), InputLists(level, in0, in1);
    UpperOk(d, level, in0);
    JoinContents(Elements(in0), Elements(in1));
    if |in1| == 0 {
      assert children == up;
      NoFilesNoContents(in1);
    } else {
      var low := Joined(in1);
      assert children == up + [low];
      LevelAsChild(d, level + 1, in1);
      assert [low][0] == low;
      forall i | 0 <= i < |up| ensures KeysApart(up[i], low) {
        LevelsKeysApart(d, level, up[i], low);
      }
      OneList(low);
      OneMoreChild(up, low);
    }
  }

  lemma OneList(low: seq<Entry>)
    ensures (M.ChildrenOk([low]) ==> Sorted(low)) && forall e :: M.InChildren([low], e) <==> e in low
  {
    assert [low][0] == low;
    forall e | e in low ensures M.InChildren([low], e) {
      assert [low][0] == low;
    }
  }

  lemma JoinContents(a: set<File>, b: set<File>)
    ensures forall e :: e in FileContents(a + b) <==> e in FileContents(a) || e in FileContents(b)
  {
  }

  lemma NoFilesNoContents(files: seq<File>)
    requires |files| == 0
    ensures FileContents(Elements(files)) == {}
  {
  }

  lemma OneMoreChild(up: seq<seq<Entry>>, low: seq<Entry>)
    requires M.ChildrenOk(up) && Sorted(low) && forall i :: 0 <= i < |up| ==> KeysApart(up[i], low)
    ensures M.ChildrenOk(up + [low]) && forall e :: M.InChildren(up + [low], e) <==> M.InChildren(up, e) || e in low
  {
    var all := up + [low];
    assert forall i :: 0 <= i < |up| ==> all[i] == up[i];
    forall e | e in low ensures M.InChildren(all, e) {
      assert all[|up|] == low;
    }
    forall e | M.InChildren(up, e) ensures M.InChildren(all, e) {
      var i :| 0 <= i < |up| && e in up[i];
      assert e in all[i];
    }
  }

  // ---------------------------------------------------------------------------------------
  // The bound on the whole grandparent level

  lemma {:induction false} OverlapPrefix(files: seq<File>, more: seq<File>, n: nat, first: InternalKey, last: InternalKey)
    requires n <= |files|
    ensures OverlapBytes(files + more, n, first, last) == OverlapBytes(files, n, first, last)
  {
    if n > 0 {
      OverlapPrefix(files, more, n - 1, first, last);
    }
  }

  /** Leaving out files that do not overlap the output does not change the overlap. */
  lemma {:induction false} OverlapOfMeeting(files: seq<File>, n: nat, r: Range, first: InternalKey, last: InternalKey)
    requires n <= |files| && forall f :: f in files && MeetsKeys(f, first, last) ==> Meets(r, f)
    ensures OverlapBytes(files, n, first, last) == OverlapBytes(Meeting(files[..n], r), |Meeting(files[..n], r)|, first, last)
  {
    hide Meets, MeetsKeys;
    if n > 0 {
      OverlapOfMeeting(files, n - 1, r, first, last);
      MeetingSnoc(files, n - 1, r);
      var m, x := Meeting(files[..n - 1], r), files[n - 1];
      assert x in files;
      if Meets(r, x) {
        assert Meeting(files[..n], r) == m + [x];
        OverlapPrefix(m, [x], |m|, first, last);
      } else {
        assert Meeting(files[..n], r) == m + [] == m;
      }
    }
  }

  /** An output lies within the span of the inputs. */
  lemma OutputInHull(inputs: set<File>, out: seq<Entry>, g: File)
    requires |out| > 0 && Contents(out) <= FileContents(inputs) && (forall f :: f in inputs ==> FileOk(f))
    requires MeetsKeys(g, out[0].key, out[|out| - 1].key)
    ensures MeetsHull(inputs, g)
  {
    var a, b := out[0], out[|out| - 1];
    assert a in Contents(out) && b in Contents(out);
    var f :| f in inputs && a in f.entries;
    var h :| h in inputs && b in h.entries;
    InRange(f, a);
    InRange(h, b);
    assert f.smallest.user <= g.largest.user && g.smallest.user <= h.largest.user;
  }

  /** The bound holds for all files of the level, not only for those in the span. */
  lemma BoundOnLevel(files: seq<File>, r: Range, inputs: set<File>, out: seq<Entry>)
    requires |out| > 0 && Contents(out) <= FileContents(inputs) && (forall f :: f in inputs ==> FileOk(f))
    requires forall f :: f in Meeting(files, r) <==> f in files && MeetsHull(inputs, f)
    requires OverlapBounded(Meeting(files, r), out)
    ensures OverlapBounded(files, out)
  {
    hide Meets, MeetsKeys, MeetsHull, OverlapBytes;
    forall f | f in files && MeetsKeys(f, out[0].key, out[|out| - 1].key) ensures Meets(r, f) {
      OutputInHull(inputs, out, f);
      assert f in Meeting(files, r);
    }
    OverlapOfMeeting(files, |files|, r, out[0].key, out[|out| - 1].key);
    assert files[..|files|] == files;
  }

  // ---------------------------------------------------------------------------------------
  // From the choice of inputs to the new version

  /** IsTrivialMove: one input file, none below, and not too many bytes in the files of level+2 that it spans. */
  ghost predicate Trivial(levels: seq<seq<File>>, level: nat, in0: seq<File>, in1: seq<File>)
    requires |levels| == NUM_LEVELS
  {
    && |in0| == 1 && |in1| == 0
    && (level + 2 < NUM_LEVELS ==> TotalFileSize(HullFiles(levels[level + 2], Elements(in0))) <= MAX_GRANDPARENT_OVERLAP)
  }

  /**
   * A compaction of the given inputs of a level, or of more: SetupOtherInputs, the merging iterator and the loop, or
   * a trivial move.  The result is a step of the store on inputs that hold the given ones, and every new table
   * respects the bound on the files of level+2.
   */
  method CompactInputs(d: Db, level: nat, inputs: seq<File>, manual: bool, limit: SizeLimit)
    returns (d': Db, step: Step, ghost in0: seq<File>, ghost in1: seq<File>)
    requires Shape(d) && Oldest(d) < MAX_SEQUENCE && level + 1 < NUM_LEVELS
    requires |inputs| > 0 && InLevelOrder(inputs, d.levels[level])
    ensures AnyNext(d, d', step) && Chosen(d.levels, level, inputs, in0, in1) && Elements(inputs) <= Elements(in0)
    ensures step.TrivialMove? <==> !manual && Trivial(d.levels, level, in0, in1)
    ensures if step.TrivialMove? then inputs == in0 == [step.f] && step.from == level
            else step.Compact? && step.at == level && step.in0 == Elements(in0) && step.in1 == Elements(in1)
    ensures step.Compact? && level + 2 < NUM_LEVELS ==> forall f :: f in step.out ==> FileOk(f) && OverlapBounded(d.levels[level + 2], f.entries)
    ensures level == 0 && ClosedUnderTouch(Elements(inputs), d.levels[0]) && step.Compact? ==> ClosedUnderTouch(step.in0, d.levels[0])
  {
    hide Shape, CompactionInputs, InLevelOrder, M.ChildrenOk, ClosedUnderTouch, MeetsHull, OverlapBounded, Chosen, HullFiles;
    LevelsFilesOk(d);
    var files0, files1, grandparents;
    ghost var span;
    files0, files1, grandparents, span := SetupOtherInputs(d.levels, level, inputs);
    in0, in1 := files0, files1;
    assert |in1| == 0 ==> in0 + in1 == in0;
    if !manual && |files0| == 1 && |files1| == 0 && TotalFileSize(grandparents) <= MAX_GRANDPARENT_OVERLAP {
      var f := files0[0];
      OnlyInput(inputs, files0);
      assert Elements(in0) == {f} && Elements(in1) == {};
      step := TrivialMove(level, f);
      d' := d.(levels := Rewritten(d.levels, level, {f}, {}, [f]));
    } else {
      AllOk(d, level, in0, in1);
      var m := M.MergeEntries(InputLists(level, files0, files1));
      assert Contents(m) == FileContents(Elements(in0) + Elements(in1));
      GrandparentsOk(d, level, grandparents, span);
      var out;
      d', out := RunCompaction(d, level, files0, files1, grandparents, m, limit);
      step := Compact(level, (set f | f in files0), (set f | f in files1), m, out);
      if level + 2 < NUM_LEVELS {
        BoundOnOutputs(d, d', level, in0, in1, m, out, span);
      }
    }
  }

  lemma LevelsFilesOk(d: Db)
    requires Shape(d)
    ensures |d.levels| == NUM_LEVELS && (forall lv :: 0 <= lv < NUM_LEVELS ==> FilesOk(d.levels[lv]))
    ensures forall lv :: 1 <= lv < NUM_LEVELS ==> SortedLevel(d.levels[lv])
    ensures |d.history| <= MAX_SEQUENCE
  {
  }

  lemma GrandparentsOk(d: Db, level: nat, grandparents: seq<File>, span: Range)
    requires Shape(d) && level + 1 < NUM_LEVELS
    requires if level + 2 < NUM_LEVELS then grandparents == Meeting(d.levels[level + 2], span) else grandparents == []
    ensures ShapeOk(d.levels, grandparents)
  {
    hide FileOk, Before;
    LevelsFilesOk(d);
    if level + 2 < NUM_LEVELS {
      MeetingInOrder(d.levels[level + 2], span);
      OrderKeeps(grandparents, d.levels[level + 2]);
    }
  }

  /** A list that holds the inputs and has one file is the inputs. */
  lemma OnlyInput(inputs: seq<File>, in0: seq<File>)
    requires |inputs| > 0 && (in0 == inputs || |in0| > |inputs|) && |in0| == 1
    ensures inputs == [in0[0]]
  {
  }

  lemma BoundOnOutputs(d: Db, d': Db, level: nat, in0: seq<File>, in1: seq<File>, m: seq<Entry>, out: seq<File>, span: Range)
    requires Shape(d) && level + 2 < NUM_LEVELS && Ran(d, d', level, Elements(in0), Elements(in1), m, out)
    requires forall f :: f in Meeting(d.levels[level + 2], span) <==> f in d.levels[level + 2] && MeetsHull(Elements(in0 + in1), f)
    requires forall f :: f in out ==> FileOk(f) && OverlapBounded(Meeting(d.levels[level + 2], span), f.entries)
    ensures forall f :: f in out ==> OverlapBounded(d.levels[level + 2], f.entries)
  {
    hide Shape, MeetsHull, OverlapBounded, Meeting;
    LevelsFilesOk(d);
    RanOutputs(d, d', level, Elements(in0), Elements(in1), m, out);
    assert Elements(in0 + in1) == Elements(in0) + Elements(in1);
    forall f | f in out ensures OverlapBounded(d.levels[level + 2], f.entries) {
      assert forall e :: e in f.entries ==> e in LevelContents(out);
      assert forall g :: g in Elements(in0 + in1) ==> FileOk(g);
      BoundOnLevel(d.levels[level + 2], span, Elements(in0 + in1), f.entries);
    }
  }

  /** BackgroundCompaction once the picker has chosen a file. */
  method CompactPicked(d: Db, level: nat, f: File, limit: SizeLimit)
    returns (d': Db, step: Step, ghost inputs: seq<File>, ghost in0: seq<File>, ghost in1: seq<File>)
    requires Shape(d) && Oldest(d) < MAX_SEQUENCE && level + 1 < NUM_LEVELS && f in d.levels[level]
    ensures AnyNext(d, d', step) && (if level > 0 then inputs == [f] else Spanned(0, d.levels[0], {f}, inputs))
    ensures Chosen(d.levels, level, inputs, in0, in1) && (step.TrivialMove? <==> Trivial(d.levels, level, in0, in1))
    ensures if step.TrivialMove? then step == TrivialMove(level, f)
            else step.Compact? && step.at == level && f in step.in0 && step.in0 == Elements(in0) && step.in1 == Elements(in1)
    ensures step.Compact? && level + 2 < NUM_LEVELS ==> forall g :: g in step.out ==> FileOk(g) && OverlapBounded(d.levels[level + 2], g.entries)
    ensures level == 0 ==> NothingOlderLeft(d.levels, 0, Taken(step))
    ensures level == 0 && step.TrivialMove? ==> Next(d, d', step)
  {
    hide Shape, Relocated, Ran, InLevelOrder, ClosedUnderTouch, OverlapBounded, NothingOlderLeft, Chosen, Spanned, Trivial;
    LevelsFilesOk(d);
    var picked := PickInputs(d.levels, level, f);
    inputs := picked;
    OrderKeeps(picked, d.levels[level]);
    d', step, in0, in1 := CompactInputs(d, level, picked, false, limit);
    if level == 0 {
      assert step.TrivialMove? ==> Elements(inputs) == {step.f};
      TakenInLevel(d, d', step);
      ClosedLevel0(d.levels, Taken(step));
    }
  }

  /** The files that a step takes from its input level. */
  ghost function Taken(step: Step): (files: set<File>)
    requires step.TrivialMove? || step.Compact?
  {
    if step.TrivialMove? then {step.f} else step.in0
  }

  lemma TakenInLevel(d: Db, d': Db, step: Step)
    requires AnyNext(d, d', step) && (step.TrivialMove? || step.Compact?)
    ensures var level := if step.TrivialMove? then step.from else step.at;
            level < NUM_LEVELS == |d.levels| && Taken(step) <= Elements(d.levels[level])
  {
  }

  /** Manual compaction of a range: nothing to do exactly when no file of the level meets it. */
  method CompactRange(d: Db, level: nat, q: Range, inputLimit: nat, limit: SizeLimit)
    returns (d': Db, step: Option<Step>, ghost r: Range, ghost inputs: seq<File>, ghost in0: seq<File>, ghost in1: seq<File>)
    requires Shape(d) && Oldest(d) < MAX_SEQUENCE && level + 1 < NUM_LEVELS
    ensures step.None? <==> !SomeMeets(q, d.levels[level])
    ensures RangeChosen(level, d.levels[level], q, inputLimit, inputs, r)
    ensures if step.None? then d' == d && inputs == []
            else && step.value.Compact? && AnyNext(d, d', step.value) && step.value.at == level
                 && Chosen(d.levels, level, inputs, in0, in1) && step.value.in0 == Elements(in0) && step.value.in1 == Elements(in1)
                 && Elements(inputs) <= step.value.in0
  {
    hide Shape, AnyNext, InLevelOrder, SomeMeets, RangeChosen, Chosen, Trivial;
    LevelsFilesOk(d);
    in0, in1 := [], [];
    var taken;
    taken, r := RangeInputs(d.levels, level, q, inputLimit);
    inputs := taken;
    if taken == [] {
      return d, None, r, inputs, in0, in1;
    }
    var s;
    d', s, in0, in1 := CompactInputs(d, level, taken, true, limit);
    step := Some(s);
  }

  /** CompactMemTable: the table of the immutable memtable goes where PickLevelForMemTableOutput says. */
  method CompactMemTable(d: Db, size: nat) returns (d': Db, level: nat)
    requires Shape(d) && d.imm.Some?
    ensures Flushed(d, d', level, size)
    ensures var es := d.imm.value;
            if |es| == 0 then level == 0 else Deepest(d.levels, Range(Some(es[0].key.user), Some(es[|es| - 1].key.user)), level)
  {
    level := 0;
    var es := d.imm.value;
    if |es| == 0 {
      return d.(imm := None), 0;
    }
    var f := TableOf(d.nextFile, size, es);
    level := PickLevelForMemTableOutput(d.levels, f.smallest.user, f.largest.user);
    d' := d.(imm := None, levels := d.levels[level := InsertFile(d.levels[level], f)], nextFile := d.nextFile + 1);
  }
}
