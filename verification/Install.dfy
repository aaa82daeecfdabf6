/**
 * Installing new files in a level (VersionSet::Builder in db/version_set.cc, seen as a function on
 * one level) and why flush and compaction outputs keep a level sorted and disjoint.
 */
module Install {
  import opened Basics
  import opened Entries
  import opened Levels
  import opened Overlap
  import opened Compaction

  /** Builder::BySmallestKey. */
  predicate BySmallest(f: File, g: File) {
    Before(f.smallest, g.smallest) || (f.smallest == g.smallest && f.number < g.number)
  }

  function InsertFile(files: seq<File>, f: File): (r: seq<File>)
    ensures forall g :: g in r <==> g in files || g == f
  {
    if |files| == 0 || BySmallest(f, files[0]) then [f] + files else [files[0]] + InsertFile(files[1..], f)
  }

  function Without(files: seq<File>, gone: set<File>): (r: seq<File>)
    ensures forall g :: g in r <==> g in files && g !in gone
  {
    if |files| == 0 then [] else (if files[0] in gone then [] else [files[0]]) + Without(files[1..], gone)
  }

  function InsertAll(files: seq<File>, added: seq<File>): (r: seq<File>)
    ensures forall g :: g in r <==> g in files || g in added
  {
    if |added| == 0 then files else InsertFile(InsertAll(files, added[..|added| - 1]), added[|added| - 1])
  }

  /** The level after an edit that deletes the files of gone and adds those of added. */
  function Installed(files: seq<File>, gone: set<File>, added: seq<File>): (r: seq<File>)
    ensures forall g :: g in r <==> (g in files && g !in gone) || g in added
  {
    InsertAll(Without(files, gone), added)
  }

  predicate Apart(f: File, g: File) {
    Before(f.largest, g.smallest) || Before(g.largest, f.smallest)
  }

  lemma {:induction false} InsertKeepsLevel(files: seq<File>, f: File)
    requires SortedLevel(files) && FilesOk(files) && FileOk(f)
    requires forall g :: g in files ==> Apart(f, g)
    ensures SortedLevel(InsertFile(files, f))
  {
    assert !Before(f.largest, f.smallest) by { InRange(f, f.entries[0]); }
    if |files| > 0 {
      assert FileOk(files[0]) && files[0] in files;
      assert !Before(files[0].largest, files[0].smallest) by { InRange(files[0], files[0].entries[0]); }
      if BySmallest(f, files[0]) {
        forall j | 0 <= j < |files| ensures Before(f.largest, files[j].smallest) {
          if j > 0 {
            assert Before(files[0].largest, files[j].smallest);
          }
        }
      } else {
        assert forall g :: g in files[1..] ==> g in files;
        InsertKeepsLevel(files[1..], f);
        var r := InsertFile(files[1..], f);
        assert forall j :: 0 <= j < |r| ==> r[j] in r;
        forall j | 0 <= j < |r| ensures Before(files[0].largest, r[j].smallest) {
          if r[j] != f {
            var i :| 1 <= i < |files| && files[i] == r[j];
          }
        }
      }
    }
  }

  lemma {:induction false} WithoutKeepsLevel(files: seq<File>, gone: set<File>)
    requires SortedLevel(files)
    ensures SortedLevel(Without(files, gone))
  {
    if |files| > 0 {
      WithoutKeepsLevel(files[1..], gone);
      var r := Without(files[1..], gone);
      forall j | 0 <= j < |r| ensures Before(files[0].largest, r[j].smallest) {
        assert r[j] in r;
        var i :| 1 <= i < |files| && files[i] == r[j];
      }
    }
  }

  /** Adding files that are apart from the rest of the level and from each other keeps it sorted. */
  lemma {:induction false} InstalledLevel(files: seq<File>, gone: set<File>, added: seq<File>)
    requires SortedLevel(files) && FilesOk(files) && FilesOk(added) && SortedLevel(added)
    requires forall f, g :: f in added && g in files && g !in gone ==> Apart(f, g)
    ensures SortedLevel(Installed(files, gone, added)) && FilesOk(Installed(files, gone, added))
  {
    WithoutKeepsLevel(files, gone);
    InsertAllKeepsLevel(Without(files, gone), added);
  }

  lemma {:induction false} InsertAllKeepsLevel(rest: seq<File>, added: seq<File>)
    requires SortedLevel(rest) && FilesOk(rest) && FilesOk(added) && SortedLevel(added)
    requires forall f, g :: f in added && g in rest ==> Apart(f, g)
    ensures SortedLevel(InsertAll(rest, added))
  {
    if |added| > 0 {
      var n := |added| - 1;
      var before, f := added[..n], added[n];
      assert f in added && forall g :: g in before ==> g in added;
      InsertAllKeepsLevel(rest, before);
      forall g | g in InsertAll(rest, before) ensures Apart(f, g) {
        if g in before {
          var i :| 0 <= i < n && added[i] == g;
        }
      }
      InsertKeepsLevel(InsertAll(rest, before), f);
    }
  }

  // ---------------------------------------------------------------------------------------
  // Compaction outputs

  /** A file of the output level that is not an input lies entirely on one side of all inputs. */
  lemma OneSide(levels: seq<seq<File>>, level: nat, in0: set<File>, in1: set<File>, g: File)
    requires level + 1 < |levels| && FilesOk(levels[level]) && FilesOk(levels[level + 1])
    requires SortedLevel(levels[level + 1])
    requires CompactionInputs(levels, level, in0, in1)
    requires g in levels[level + 1] && g !in in1
    ensures (forall f :: f in in0 + in1 ==> Before(f.largest, g.smallest))
            || (forall f :: f in in0 + in1 ==> Before(g.largest, f.smallest))
  {
    assert !MeetsHull(in0, g);
    forall f | f in in0 + in1 + {g}
      ensures f.smallest.user <= f.largest.user
    {
      assert FileOk(f);
      InRange(f, f.entries[0]);
    }
    forall f | f in in1 ensures Apart(f, g) && MeetsHull(in0, f) {
      var i :| 0 <= i < |levels[level + 1]| && levels[level + 1][i] == f;
      var j :| 0 <= j < |levels[level + 1]| && levels[level + 1][j] == g;
    }
    if forall f :: f in in0 ==> g.smallest.user > f.largest.user {
      forall f | f in in1 ensures Before(f.largest, g.smallest) {
        var a :| a in in0 && f.smallest.user <= a.largest.user;
      }
    } else {
      forall f | f in in1 ensures Before(g.largest, f.smallest) {
        var a :| a in in0 && a.smallest.user <= f.largest.user;
      }
    }
  }

  ghost predicate DrawnFrom(out: seq<File>, inputs: set<File>) {
    forall f, e :: f in out && e in f.entries ==> exists g :: g in inputs && e in g.entries
  }

  /** Property of every compaction, expanded or not: outputs never overlap the files left in level+1. */
  lemma OutputsApart(levels: seq<seq<File>>, level: nat, in0: set<File>, in1: set<File>, out: seq<File>, f: File, g: File)
    requires level + 1 < |levels| && FilesOk(levels[level]) && FilesOk(levels[level + 1])
    requires SortedLevel(levels[level + 1])
    requires CompactionInputs(levels, level, in0, in1)
    requires FilesOk(out) && DrawnFrom(out, in0 + in1)
    requires f in out && g in levels[level + 1] && g !in in1
    ensures Apart(f, g)
  {
    OneSide(levels, level, in0, in1, g);
    var first, last := f.entries[0], f.entries[|f.entries| - 1];
    assert FileOk(f);
    assert first in f.entries && last in f.entries;
    var a :| a in in0 + in1 && first in a.entries;
    var b :| b in in0 + in1 && last in b.entries;
    assert FileOk(a) && FileOk(b);
    InRange(a, first);
    InRange(b, last);
  }

  /** So the output level stays sorted and disjoint. */
  lemma OutputLevelSorted(levels: seq<seq<File>>, level: nat, in0: set<File>, in1: set<File>, out: seq<File>)
    requires level + 1 < |levels| && FilesOk(levels[level]) && FilesOk(levels[level + 1])
    requires SortedLevel(levels[level + 1])
    requires CompactionInputs(levels, level, in0, in1)
    requires FilesOk(out) && SortedLevel(out) && DrawnFrom(out, in0 + in1)
    ensures SortedLevel(Installed(levels[level + 1], in1, out)) && FilesOk(Installed(levels[level + 1], in1, out))
  {
    forall f, g | f in out && g in levels[level + 1] && g !in in1 ensures Apart(f, g) {
      OutputsApart(levels, level, in0, in1, out, f, g);
    }
    InstalledLevel(levels[level + 1], in1, out);
  }

  /** Every level holds well-formed files, and every level but the first is sorted and disjoint. */
  ghost predicate Sound(levels: seq<seq<File>>) {
    && |levels| == NUM_LEVELS
    && (forall lv :: 0 <= lv < NUM_LEVELS ==> FilesOk(levels[lv]))
    && (forall lv :: 1 <= lv < NUM_LEVELS ==> SortedLevel(levels[lv]))
  }

  function Rewritten(levels: seq<seq<File>>, level: nat, in0: set<File>, in1: set<File>, out: seq<File>): (r: seq<seq<File>>)
    requires level + 1 < |levels|
  {
    levels[level := Without(levels[level], in0)][level + 1 := Installed(levels[level + 1], in1, out)]
  }

  /** A compaction keeps every level sound, whether or not its inputs were expanded. */
  lemma RewriteKeepsSound(levels: seq<seq<File>>, level: nat, in0: set<File>, in1: set<File>, out: seq<File>)
    requires Sound(levels) && level + 1 < NUM_LEVELS
    requires CompactionInputs(levels, level, in0, in1)
    requires FilesOk(out) && SortedLevel(out) && DrawnFrom(out, in0 + in1)
    ensures Sound(Rewritten(levels, level, in0, in1, out))
  {
    OutputLevelSorted(levels, level, in0, in1, out);
    assert FilesOk(levels[level]);
    if level > 0 {
      WithoutKeepsLevel(levels[level], in0);
    }
  }
}
