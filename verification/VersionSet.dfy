/**
 * Installing edits and writing them to the manifest (db/version_set.cc: LogAndApply, WriteSnapshot).
 */
module VersionSet {
  import opened Basics
  import opened Coding
  import opened Log
  import opened Edits
  import opened Manifest

  function Encoded(es: seq<Edit>): (rs: seq<Bytes>)
    ensures |rs| == |es| && forall i :: 0 <= i < |es| ==> rs[i] == EncodeEdit(es[i])
  {
    seq(|es|, i requires 0 <= i < |es| => EncodeEdit(es[i]))
  }

  predicate EditsOk(es: seq<Edit>) {
    forall i :: 0 <= i < |es| ==> EditOk(es[i])
  }

  lemma {:induction false} DecodesAll(es: seq<Edit>)
    requires EditsOk(es)
    ensures DecodeAll(Encoded(es)) == Some(es)
  {
    hide EditOk, EncodeEdit, DecodeEdit;
    if |es| > 0 {
      var n := |es| - 1;
      assert Encoded(es)[..n] == Encoded(es[..n]);
      DecodesAll(es[..n]);
      EditRoundTrip(es[n]);
      assert es == es[..n] + [es[n]];
    }
  }

  /** What the reader makes of a manifest that was written out in full. */
  lemma ReadsManifest(codec: Codec, es: seq<Edit>)
    requires Sound(codec) && EditsOk(es)
    ensures var o := ReadAll(codec, LogAt(codec, 0, Encoded(es)), 0, None);
            o.clean && DecodeAll(o.records) == Some(es)
  {
    hide ReadAll, LogAt, DecodeAll, Complete, CleanCut, EditOk, Encoded;
    var rs := Encoded(es);
    var x := LogAt(codec, 0, rs);
    assert [] + x == x;
    ReadsLog(codec, [], rs, x);
    WholeLog(codec, 0, rs);
    assert rs[..|rs|] == rs;
    assert ReadAll(codec, x, 0, None) == Outcome(rs, true);
    DecodesAll(es);
  }

  lemma {:induction false} WholeLog(codec: Codec, pos: nat, rs: seq<Bytes>)
    ensures Complete(codec, pos, rs, |LogAt(codec, pos, rs)|) == |rs| && CleanCut(codec, pos, rs, |LogAt(codec, pos, rs)|)
    decreases |rs|
  {
    hide Fragments;
    if |rs| > 0 {
      WholeLog(codec, pos + |Fragments(codec, pos % 32768, rs[0], true)|, rs[1..]);
    }
  }

  /** Two versions that come from the same edits are the same. */
  lemma SameVersion(v: Version, v': Version, es: seq<Edit>)
    requires Installed(v, es) && Installed(v', es)
    ensures v == v'
  {
    hide Ordered, Install, ChangesOf, Files;
    forall l: Level ensures v[l] == v'[l] {
      OrderedUnique(v[l], v'[l]);
    }
  }

  // ---------------------------------------------------------------------------------------
  // The snapshot that starts a manifest

  function Additions(fs: seq<FileMeta>, l: Level): (xs: seq<Addition>)
    ensures |xs| == |fs| && forall i :: 0 <= i < |fs| ==> xs[i] == Addition(l, fs[i])
  {
    seq(|fs|, i requires 0 <= i < |fs| => Addition(l, fs[i]))
  }

  function AllAdditions(v: Version, n: nat): (xs: seq<Addition>)
    requires n <= NUM_LEVELS
  {
    if n == 0 then [] else AllAdditions(v, n - 1) + Additions(v[n - 1], n - 1)
  }

  /** WriteSnapshot: the comparator and all files of the version. */
  function Snapshot(v: Version, name: Bytes): (e: Edit) {
    NO_EDIT.(comparator := Some(name), added := AllAdditions(v, NUM_LEVELS))
  }

  lemma {:induction false} SnapshotLevel(v: Version, n: nat, l: Level)
    requires n <= NUM_LEVELS
    ensures AddedAt(AllAdditions(v, n), l) == if l < n then Files(v[l]) else {}
  {
    if n > 0 {
      SnapshotLevel(v, n - 1, l);
      var xs := Additions(v[n - 1], n - 1);
      assert AddedAt(xs, l) == if l == n - 1 then Files(v[l]) else {} by {
        if l == n - 1 {
          forall f | f in v[l] ensures f in AddedAt(xs, l) {
            var i :| 0 <= i < |v[l]| && v[l][i] == f;
            assert xs[i] in xs;
          }
        }
      }
      assert AddedAt(AllAdditions(v, n - 1) + xs, l) == AddedAt(AllAdditions(v, n - 1), l) + AddedAt(xs, l);
    }
  }

  lemma {:induction false} InAdditions(v: Version, n: nat)
    requires n <= NUM_LEVELS
    ensures forall x :: x in AllAdditions(v, n) ==> x.level < n && x.file in v[x.level]
  {
    if n > 0 {
      InAdditions(v, n - 1);
      forall x | x in Additions(v[n - 1], n - 1) ensures x.level == n - 1 && x.file in v[x.level] {
        var i :| 0 <= i < |v[n - 1]| && x == Additions(v[n - 1], n - 1)[i];
      }
    }
  }

  lemma {:induction false} SnapshotNoneSame(v: Version, n: nat)
    requires n <= NUM_LEVELS && forall l: Level :: Ordered(v[l])
    ensures NoneSame(AllAdditions(v, n))
  {
    hide Manifest.Before, Same;
    if n > 0 {
      SnapshotNoneSame(v, n - 1);
      InAdditions(v, n - 1);
      var xs, ys := AllAdditions(v, n - 1), Additions(v[n - 1], n - 1);
      var all := xs + ys;
      forall i, j | 0 <= i < j < |all| && all[i].level == all[j].level ensures !Same(all[j].file, all[i].file) {
        if i < |xs| {
          assert xs[i] in xs;
        } else {
          SameIsUnordered(all[j].file, all[i].file);
        }
      }
    }
  }

  lemma {:induction false} SnapshotDistinct(v: Version, n: nat)
    requires n <= NUM_LEVELS && NumbersOnce(v)
    ensures DistinctAdditions(AllAdditions(v, n))
  {
    if n > 0 {
      SnapshotDistinct(v, n - 1);
      InAdditions(v, n - 1);
      var xs, ys := AllAdditions(v, n - 1), Additions(v[n - 1], n - 1);
      var all := xs + ys;
      forall i, j | 0 <= i < j < |all| && all[i].level == all[j].level ensures all[i].file.number != all[j].file.number {
        assert i < |xs| ==> xs[i] in xs;
      }
    }
  }

  lemma SnapshotInstalls(v: Version, name: Bytes)
    requires forall l: Level :: Ordered(v[l])
    ensures Installed(v, [Snapshot(v, name)])
  {
    hide Ordered, AllAdditions, NoneSame, AddedTo;
    var es := [Snapshot(v, name)];
    SnapshotNoneSame(v, NUM_LEVELS);
    forall l: Level ensures Files(v[l]) == Install({}, ChangesOf(es, l)) {
      SnapshotLevel(v, NUM_LEVELS, l);
      BroughtDistinct(AllAdditions(v, NUM_LEVELS), l);
      var cs := ChangesOf(es, l);
      assert forall c: set<FileMeta> :: Unmatched(c, {}) == c;
      assert cs[..0] == [] && cs[0] == Change({}, Files(v[l])) by { assert DeletedAt([], l) == {}; }
      assert forall f :: f in cs[0].added ==> f.number in NumbersOf(cs[0].added);
    }
  }

  // ---------------------------------------------------------------------------------------
  // File numbers

  /** No two files of the version have the same number. */
  ghost predicate NumbersOnce(v: Version) {
    && (forall l: Level, i, j :: 0 <= i < j < |v[l]| ==> v[l][i].number != v[l][j].number)
    && (forall l: Level, k: Level, f, g :: f in v[l] && g in v[k] && f.number == g.number ==> l == k)
  }

  ghost predicate NumbersBelow(es: seq<Edit>, next: nat) {
    forall i, x :: 0 <= i < |es| && x in es[i].added ==> x.file.number < next
  }

  ghost predicate Unused(es: seq<Edit>, n: uint64) {
    forall i, y :: 0 <= i < |es| && y in es[i].added ==> y.file.number != n
  }

  /** The edit takes the file from a level above. */
  ghost predicate MovesDown(v: Version, e: Edit, x: Addition, from: Level) {
    from < x.level && x.file in v[from] && Deletion(from, x.file.number) in e.deleted
  }

  /** What callers put into an edit: files with numbers of their own, or files moved down as they are. */
  ghost predicate Proper(v: Version, es: seq<Edit>, e: Edit, next: nat) {
    && (forall i, j :: 0 <= i < j < |e.added| ==> e.added[i].file.number != e.added[j].file.number)
    && (forall x :: x in e.added ==> x.file.number < next && (Unused(es, x.file.number) || exists from: Level :: MovesDown(v, e, x, from)))
  }

  /** A file is never on a level above one that its number has been brought to. */
  ghost predicate Deepest(v: Version, es: seq<Edit>) {
    forall l: Level, f, i, y :: f in v[l] && 0 <= i < |es| && y in es[i].added && y.file.number == f.number ==> y.level <= l
  }

  ghost predicate OneLevel(v: Version) {
    forall l: Level, k: Level, f, g :: f in v[l] && g in v[k] && f.number == g.number ==> l == k
  }

  /** What the numbers of a manifest and of its current version promise. */
  ghost predicate Placed(v: Version, es: seq<Edit>, next: nat) {
    Once(EMPTY, es) && NumbersBelow(es, next) && Deepest(v, es) && OneLevel(v)
  }

  lemma SnapshotPlaced(v: Version, name: Bytes, next: nat)
    requires (forall l: Level :: Ordered(v[l])) && NumbersOnce(v) && forall l: Level, f :: f in v[l] ==> f.number < next
    ensures Placed(v, [Snapshot(v, name)], next)
  {
    hide Ordered, AllAdditions, DistinctAdditions;
    var es := [Snapshot(v, name)];
    InAdditions(v, NUM_LEVELS);
    SnapshotDistinct(v, NUM_LEVELS);
    EmptyVersion();
    forall l: Level ensures AddedOnce(Files(EMPTY[l]), ChangesOf(es, l)) {
      assert ChangesOf(es, l)[..0] == [];
    }
  }

  /** The file on a level was brought there by some edit. */
  lemma {:induction false} BroughtThere(es: seq<Edit>, l: Level, f: FileMeta) returns (i: nat)
    requires f in Install({}, ChangesOf(es, l)) || f in ApplyAll(Pending({}, {}), ChangesOf(es, l)).added
    ensures i < |es| && Addition(l, f) in es[i].added
    decreases |es|
  {
    hide Same;
    var n := |es| - 1;
    var cs := ChangesOf(es, l);
    assert cs[..n] == ChangesOf(es[..n], l);
    if f in cs[n].added {
      i := n;
      BroughtIsAdded(es[n].added, l);
    } else {
      StepIs(Install({}, cs[..n]), cs[n], f);
      i := BroughtThere(es[..n], l, f);
    }
  }

  /** An edit with proper numbers brings no number to a level a second time. */
  lemma ProperIsOnce(v: Version, es: seq<Edit>, e: Edit, next: nat)
    requires Placed(v, es, next) && Proper(v, es, e, next)
    ensures Once(EMPTY, es + [e])
  {
    hide ApplyAll, BroughtTo;
    var all := es + [e];
    EmptyVersion();
    forall l: Level ensures AddedOnce(Files(EMPTY[l]), ChangesOf(all, l)) {
      var cs, cs' := ChangesOf(es, l), ChangesOf(all, l);
      assert forall i :: 0 <= i <= |es| ==> cs'[..i] == cs[..i];
      assert cs[..|es|] == cs;
      assert AddedOnce(Files(EMPTY[l]), cs);
      forall f, g | f in ChangeOf(e, l).added && g in ApplyAll(Pending({}, {}), cs).added ensures f.number != g.number {
        BroughtIsAdded(e.added, l);
        var i := BroughtThere(es, l, g);
        NotTwice(v, es, e, next, Addition(l, f), i, Addition(l, g));
      }
      assert forall i :: 0 <= i < |es| ==> cs'[i] == cs[i];
    }
  }

  lemma NotTwice(v: Version, es: seq<Edit>, e: Edit, next: nat, x: Addition, i: nat, y: Addition)
    requires Deepest(v, es) && Proper(v, es, e, next) && x in e.added && i < |es| && y in es[i].added && x.level <= y.level
    ensures x.file.number != y.file.number
  {
  }

  /** A file that stays where it is is not brought elsewhere by the edit. */
  lemma StaysAlone(v: Version, es: seq<Edit>, e: Edit, next: nat, l: Level, f: FileMeta, x: Addition)
    requires OneLevel(v) && Proper(v, es, e, next) && f in v[l] && f in Install({}, ChangesOf(es, l))
    requires !Deletes(ChangeOf(e, l), f.number) && x in e.added && x.level != l
    ensures x.file.number != f.number
  {
    hide Install, BroughtTo;
    if x.file.number == f.number {
      var i := BroughtThere(es, l, f);
      var from: Level :| MovesDown(v, e, x, from);
      assert Deletion(l, f.number) in e.deleted;
      BroughtIsAdded(e.added, l);
    }
  }

  lemma PlacedMore(v: Version, v': Version, es: seq<Edit>, e: Edit, next: nat)
    requires Placed(v, es, next) && Proper(v, es, e, next) && Installed(v, es) && Installed(v', es + [e])
    ensures Placed(v', es + [e], next) && NumbersBelow(es + [e], next)
  {
    hide Ordered, Install, BroughtTo, Once, Deletes;
    ProperIsOnce(v, es, e, next);
    forall l: Level, f | f in v'[l] ensures Addition(l, f) in e.added || Stays(v, es, e, l, f) {
      InstallSnoc(es, e, l);
      OneStep(Install({}, ChangesOf(es, l)), e, l, f);
      assert f in Files(v'[l]);
      if f in ChangeOf(e, l).added {
        BroughtIsAdded(e.added, l);
      } else {
        assert f in Files(v[l]);
      }
    }
    assert NumbersBelow(es + [e], next);
    DeepestMore(v, v', es, e, next);
    OneLevelMore(v, v', es, e, next);
  }

  ghost predicate Stays(v: Version, es: seq<Edit>, e: Edit, l: Level, f: FileMeta) {
    f in v[l] && f in Install({}, ChangesOf(es, l)) && !Deletes(ChangeOf(e, l), f.number)
  }

  lemma OneStep(s: set<FileMeta>, e: Edit, l: Level, f: FileMeta)
    ensures f in Install(s, ChangesOf([e], l)) <==> (f in s && !Deletes(ChangeOf(e, l), f.number)) || f in ChangeOf(e, l).added
  {
    hide BroughtTo;
    var cs := ChangesOf([e], l);
    assert cs[..0] == [];
    StepIs(s, cs[0], f);
  }

  lemma DeepestMore(v: Version, v': Version, es: seq<Edit>, e: Edit, next: nat)
    requires Deepest(v, es) && OneLevel(v) && Proper(v, es, e, next)
    requires forall l: Level, f :: f in v'[l] ==> Addition(l, f) in e.added || Stays(v, es, e, l, f)
    ensures Deepest(v', es + [e])
  {
    hide Stays;
    forall l: Level, f, i, y | f in v'[l] && 0 <= i < |es + [e]| && y in (es + [e])[i].added && y.file.number == f.number ensures y.level <= l {
      if Addition(l, f) in e.added {
        if i < |es| && y.level >= l {
          NotTwice(v, es, e, next, Addition(l, f), i, y);
        }
      } else if i < |es| {
        StaysHere(v, es, e, l, f);
      } else if y.level != l {
        StaysHere(v, es, e, l, f);
        StaysAlone(v, es, e, next, l, f, y);
      }
    }
  }

  lemma StaysHere(v: Version, es: seq<Edit>, e: Edit, l: Level, f: FileMeta)
    requires Stays(v, es, e, l, f)
    ensures f in v[l] && f in Install({}, ChangesOf(es, l)) && !Deletes(ChangeOf(e, l), f.number)
  {
  }

  lemma OneLevelMore(v: Version, v': Version, es: seq<Edit>, e: Edit, next: nat)
    requires OneLevel(v) && Proper(v, es, e, next)
    requires forall l: Level, f :: f in v'[l] ==> Addition(l, f) in e.added || Stays(v, es, e, l, f)
    ensures OneLevel(v')
  {
    hide Stays;
    forall l: Level, k: Level, f, g | f in v'[l] && g in v'[k] && f.number == g.number ensures l == k {
      if Stays(v, es, e, l, f) {
        StaysHere(v, es, e, l, f);
      }
      if Stays(v, es, e, k, g) {
        StaysHere(v, es, e, k, g);
      }
      if l != k {
        if Stays(v, es, e, l, f) && !Stays(v, es, e, k, g) {
          StaysAlone(v, es, e, next, l, f, Addition(k, g));
        } else if Stays(v, es, e, k, g) && !Stays(v, es, e, l, f) {
          StaysAlone(v, es, e, next, k, g, Addition(l, f));
        }
      }
    }
  }

  // ---------------------------------------------------------------------------------------
  // The version set

  class VersionSet {
    const codec: Codec
    const name: Bytes
    const manifest: Writer
    var current: Version
    var logNumber: uint64
    var prevLogNumber: uint64
    var nextFileNumber: uint64
    var lastSequence: uint64
    /** The edits in the manifest: the snapshot, then one for every LogAndApply. */
    ghost var es: seq<Edit>

    ghost predicate Counted()
      reads this
    {
      |es| > 1 ==>
        var c := CountersOf(es);
        && c.log == Some(logNumber) && c.prevLog == Some(prevLogNumber)
        && c.nextFile.Some? && c.nextFile.value <= nextFileNumber && c.lastSequence.Some? && c.lastSequence.value <= lastSequence
    }

    ghost predicate Valid()
      reads this, manifest
    {
      && manifest.Valid() && manifest.codec == codec && manifest.records == Encoded(es)
      && EditsOk(es) && NamesOk(es, name)
      && (Once(EMPTY, es) ==> Installed(current, es))
      && Counted()
    }

    /** The file numbers are in order: none is used twice, and none is at or above the next one. */
    ghost predicate InPlace()
      reads this
    {
      && Placed(current, es, nextFileNumber)
      && (|es| > 1 ==> CountersOf(es).nextFile.Some? && NumbersBelow(es, CountersOf(es).nextFile.value))
    }

    /** A new manifest for a version. */
    constructor (codec: Codec, name: Bytes, v: Version, log: uint64, prevLog: uint64, nextFile: uint64, last: uint64)
      requires (forall l: Level :: Ordered(v[l])) && EditOk(Snapshot(v, name))
      ensures Valid() && fresh(manifest) && current == v && es == [Snapshot(v, name)] && this.codec == codec && this.name == name
      ensures logNumber == log && prevLogNumber == prevLog && nextFileNumber == nextFile && lastSequence == last
      ensures NumbersOnce(v) && (forall l: Level, f :: f in v[l] ==> f.number < nextFile) ==> InPlace()
    {
      hide Ordered, Install, ChangesOf, EditOk, AllAdditions, LogAt, Once;
      this.codec, this.name, current := codec, name, v;
      logNumber, prevLogNumber, nextFileNumber, lastSequence := log, prevLog, nextFile, last;
      var w := new Writer(codec);
      manifest := w;
      es := [Snapshot(v, name)];
      new;
      SnapshotInstalls(v, name);
      if NumbersOnce(v) && forall l: Level, f :: f in v[l] ==> f.number < nextFile {
        SnapshotPlaced(v, name, nextFile);
      }
      manifest.AddRecord(EncodeEdit(Snapshot(v, name)));
      assert Encoded(es) == [EncodeEdit(Snapshot(v, name))];
    }

    method NewFileNumber() returns (n: uint64)
      requires Valid() && nextFileNumber + 1 < 0x1_0000_0000_0000_0000
      modifies this`nextFileNumber
      ensures Valid() && n == old(nextFileNumber) && nextFileNumber == n + 1
      ensures old(InPlace()) ==> InPlace() && Unused(es, n)
    {
      hide Ordered, Installed, EditsOk, LogAt, Once, CountersOf;
      n := nextFileNumber;
      nextFileNumber := nextFileNumber + 1;
    }

    method SetLastSequence(s: uint64)
      requires Valid() && s >= lastSequence
      modifies this`lastSequence
      ensures Valid() && lastSequence == s && InPlace() == old(InPlace())
    {
      hide Ordered, Installed, EditsOk, LogAt, Once, CountersOf;
      lastSequence := s;
    }

    /** The edit with its counters filled in. */
    ghost function Filled(edit: Edit): (e: Edit)
      reads this
    {
      edit.(logNumber := Some(if edit.logNumber.Some? then edit.logNumber.value else logNumber),
            prevLogNumber := Some(if edit.prevLogNumber.Some? then edit.prevLogNumber.value else prevLogNumber),
            nextFile := Some(nextFileNumber), lastSequence := Some(lastSequence))
    }

    /** Install an edit: a builder of its own on the current version, and one more record in the manifest. */
    method LogAndApply(edit: Edit)
      requires Valid() && edit.comparator.None? && EditOk(Filled(edit))
      modifies this, manifest
      ensures Valid() && es == old(es) + [old(Filled(edit))]
      ensures nextFileNumber == old(nextFileNumber) && lastSequence == old(lastSequence)
      ensures CountersOf(es) == Counters(Some(logNumber), Some(prevLogNumber), Some(nextFileNumber), Some(lastSequence))
      ensures old(InPlace() && Proper(current, es, Filled(edit), nextFileNumber)) ==> InPlace()
    {
      hide Installed, EditOk, LogAt, Once, EncodeEdit, CountersOf, Proper, Placed, NumbersBelow, Encoded;
      ghost var proper := InPlace() && Proper(current, es, Filled(edit), nextFileNumber);
      var e := Complete(edit);
      ghost var es0, v0 := es, current;
      var v := NextVersion(e);
      LoggedMore(es0, e, v0, v, nextFileNumber, name);
      manifest.AddRecord(EncodeEdit(e));
      current := v;
      logNumber, prevLogNumber := e.logNumber.value, e.prevLogNumber.value;
      es := es0 + [e];
      if proper {
        PlacedMore(v0, v, es0, e, nextFileNumber);
      }
    }

    /** Fill in the counters that the edit does not set. */
    method Complete(edit: Edit) returns (e: Edit)
      ensures e == Filled(edit)
    {
      e := edit;
      if e.logNumber.None? {
        e := e.(logNumber := Some(logNumber));
      }
      if e.prevLogNumber.None? {
        e := e.(prevLogNumber := Some(prevLogNumber));
      }
      e := e.(nextFile := Some(nextFileNumber));
      e := e.(lastSequence := Some(lastSequence));
    }

    /** The current version with one edit applied. */
    method NextVersion(e: Edit) returns (v: Version)
      ensures (forall l: Level :: Ordered(current[l])) && Once(current, [e]) ==> forall l: Level :: Ordered(v[l]) && Files(v[l]) == Steps(current, [e], l)
    {
      hide Ordered, Steps, Batch, Clear, Once, ChangesOf, Files;
      var builder := new Builder(current);
      builder.Apply(e);
      assert builder.edits == [e];
      v := builder.SaveTo();
    }
  }

  /** What one more edit with all counters does to the manifest. */
  lemma LoggedMore(es: seq<Edit>, e: Edit, v: Version, v': Version, next: nat, name: Bytes)
    requires EditsOk(es) && EditOk(e) && NamesOk(es, name) && e.comparator.None?
    requires e.logNumber.Some? && e.prevLogNumber.Some? && e.nextFile.Some? && e.lastSequence.Some?
    requires Once(EMPTY, es) ==> Installed(v, es)
    requires (forall l: Level :: Ordered(v[l])) && Once(v, [e]) ==> forall l: Level :: Ordered(v'[l]) && Files(v'[l]) == Steps(v, [e], l)
    ensures EditsOk(es + [e]) && NamesOk(es + [e], name) && Encoded(es + [e]) == Encoded(es) + [EncodeEdit(e)]
    ensures CountersOf(es + [e]) == Counters(e.logNumber, e.prevLogNumber, e.nextFile, e.lastSequence)
    ensures Once(EMPTY, es + [e]) ==> Installed(v', es + [e])
    ensures Placed(v, es, next) && Proper(v, es, e, next) ==> Installed(v, es) && Installed(v', es + [e])
  {
    hide Ordered, Steps, Once, EditOk, EncodeEdit, CountersOf, Deepest, OneLevel, NumbersBelow, Proper, Installed;
    CountersSnoc(es, e);
    if Once(EMPTY, es + [e]) {
      InstallMore(es, e, v, v');
    }
    if Placed(v, es, next) && Proper(v, es, e, next) {
      ProperIsOnce(v, es, e, next);
      OnceBefore(EMPTY, es, e);
      InstallMore(es, e, v, v');
    }
  }

  lemma CountersSnoc(es: seq<Edit>, e: Edit)
    requires e.logNumber.Some? && e.prevLogNumber.Some? && e.nextFile.Some? && e.lastSequence.Some?
    ensures CountersOf(es + [e]) == Counters(e.logNumber, e.prevLogNumber, e.nextFile, e.lastSequence)
  {
    assert (es + [e])[..|es|] == es;
  }

  /** The new version is what the edits of the manifest, one more included, lead to. */
  lemma InstallMore(es: seq<Edit>, e: Edit, v: Version, v': Version)
    requires Once(EMPTY, es + [e]) && (Once(EMPTY, es) ==> Installed(v, es))
    requires (forall l: Level :: Ordered(v[l])) && Once(v, [e]) ==>
               forall l: Level :: Ordered(v'[l]) && Files(v'[l]) == Steps(v, [e], l)
    ensures Installed(v', es + [e])
  {
    hide Ordered, Install, Once, Files;
    OnceBefore(EMPTY, es, e);
    OnceOnTop(es, e, v);
    forall l: Level ensures Install({}, ChangesOf(es + [e], l)) == Install(Install({}, ChangesOf(es, l)), ChangesOf([e], l)) {
      InstallSnoc(es, e, l);
    }
  }

  lemma InstallSnoc(es: seq<Edit>, e: Edit, l: Level)
    ensures Install({}, ChangesOf(es + [e], l)) == Install(Install({}, ChangesOf(es, l)), ChangesOf([e], l))
  {
    hide Saved, ApplyChange;
    var cs, one := ChangesOf(es + [e], l), ChangesOf([e], l);
    assert cs[..|es|] == ChangesOf(es, l) && cs[|es|] == one[0];
    assert one[..0] == [];
  }

  /** The files of the version have been brought by the edits, so the next edit brings other numbers. */
  lemma OnceOnTop(es: seq<Edit>, e: Edit, v: Version)
    requires Once(EMPTY, es + [e]) && Installed(v, es)
    ensures Once(v, [e])
  {
    hide Ordered, Install, Saved, DistinctAdditions;
    OnceBefore(EMPTY, es, e);
    forall l: Level ensures AddedOnce(Files(v[l]), ChangesOf([e], l)) {
      var cs, all, one := ChangesOf(es, l), ChangesOf(es + [e], l), ChangesOf([e], l);
      assert all[..|es|] == cs && one[..0] == [] && all[|es|] == one[0];
      AllBrought(cs);
      EmptyVersion();
      assert AddedOnce(Files(EMPTY[l]), all);
      forall i, f, g | 0 <= i < |one| && f in one[i].added && g in Files(v[l]) + ApplyAll(Pending({}, {}), one[..i]).added ensures f.number != g.number {
        assert g in ApplyAll(Pending({}, {}), all[..|es|]).added;
      }
    }
  }

  lemma SavedIsAdded(p: Pending)
    ensures Saved({}, p) <= p.added
  {
  }

  lemma AllBrought(cs: seq<Change>)
    requires AddedOnce({}, cs)
    ensures Install({}, cs) <= ApplyAll(Pending({}, {}), cs).added
  {
    hide Install, ApplyAll;
    BatchEqualsSteps({}, cs);
    SavedIsAdded(ApplyAll(Pending({}, {}), cs));
  }

  /** Every file of a version has been brought by an edit, so its number is below what the edits are below. */
  lemma FilesBelow(v: Version, es: seq<Edit>, next: nat)
    requires Installed(v, es) && NumbersBelow(es, next)
    ensures forall l: Level, f :: f in v[l] ==> f.number < next
  {
    hide Ordered, Install;
    forall l: Level, f | f in v[l] ensures f.number < next {
      assert f in Files(v[l]);
      var i := BroughtThere(es, l, f);
    }
  }

  /**
   * Recovering from the manifest of a version set gives back its version, and the counters of the last edit; the
   * next file number is moved past the one that becomes the new manifest's, and past every file recovered.
   */
  method Reopen(vs: VersionSet) returns (r: Option<Recovered>)
    requires vs.Valid() && Sound(vs.codec) && |vs.es| > 1
    ensures r.Some? && r.value.log == vs.logNumber && r.value.prevLog == vs.prevLogNumber
    ensures var c := CountersOf(vs.es);
            && c.nextFile.Some? && r.value.manifestFile == c.nextFile.value && r.value.nextFile == c.nextFile.value + 1
            && c.lastSequence == Some(r.value.lastSequence)
            && c.nextFile.value <= vs.nextFileNumber && r.value.lastSequence <= vs.lastSequence
    ensures Once(EMPTY, vs.es) ==> r.value.version == vs.current
    ensures vs.InPlace() ==> r.value.version == vs.current && forall l: Level, f :: f in vs.current[l] ==> f.number < r.value.manifestFile
  {
    hide Installed, EditsOk, NamesOk, CountersOf, Once, ReadAll, LogAt, Encoded, DecodeAll, Clear, Install, Deepest, OneLevel, NumbersBelow;
    ReadsManifest(vs.codec, vs.es);
    r := Recover(vs.codec, vs.manifest.file, vs.name);
    if Once(EMPTY, vs.es) {
      SameVersion(r.value.version, vs.current, vs.es);
    }
    if vs.InPlace() {
      FilesBelow(vs.current, vs.es, r.value.manifestFile);
    }
  }
}
