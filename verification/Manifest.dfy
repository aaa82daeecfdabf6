/**
 * Versions from edits (db/version_set.cc: Builder, LogAndApply and Recover, without scoring): applying the
 * edits of a manifest with one builder gives the version that installing them one at a time gave.
 */
module Manifest {
  import opened Basics
  import opened Coding
  import K = Keys
  import opened Edits
  import opened Log

  // ---------------------------------------------------------------------------------------
  // The order of files in a level

  /** A key split into what is compared; keys without a trailer do not occur. */
  function Part(b: Bytes): (u: Bytes) {
    if |b| >= 8 then K.UserOf(b) else b
  }

  function Trailer(b: Bytes): (t: uint64) {
    if |b| >= 8 then K.TagOf(b) else 0
  }

  predicate KeyLess(a: Bytes, b: Bytes) {
    K.Less(Part(a), Part(b)) || (Part(a) == Part(b) && Trailer(a) > Trailer(b))
  }

  /** On internal keys this is the internal comparator. */
  lemma KeyLessIsInternal(a: K.Internal, b: K.Internal)
    ensures KeyLess(a, b) <==> K.InternalLess(a, b)
  {
  }

  /** BySmallestKey: smallest key first, ties broken by file number. */
  predicate Before(f: FileMeta, g: FileMeta) {
    KeyLess(f.smallest, g.smallest) || (!KeyLess(g.smallest, f.smallest) && f.number < g.number)
  }

  lemma BeforeTransitive(f: FileMeta, g: FileMeta, h: FileMeta)
    requires Before(f, g) && Before(g, h)
    ensures Before(f, h)
  {
    hide K.Less, Part, Trailer;
    var a, b, c := Part(f.smallest), Part(g.smallest), Part(h.smallest);
    K.LessTotal(a, b);
    K.LessTotal(b, c);
    K.LessTotal(a, c);
    if K.Less(a, b) && K.Less(b, c) {
      K.LessTransitive(a, b, c);
      K.LessAsymmetric(a, c);
    }
    if K.Less(a, b) {
      K.LessAsymmetric(a, b);
    }
    if K.Less(b, c) {
      K.LessAsymmetric(b, c);
    }
    if K.Less(c, a) {
      K.LessAsymmetric(c, a);
    }
    K.LessIrreflexive(a);
  }

  lemma BeforeTotal(f: FileMeta, g: FileMeta)
    requires f.number != g.number
    ensures Before(f, g) || Before(g, f)
  {
    hide KeyLess;
  }

  lemma BeforeAsymmetric(f: FileMeta, g: FileMeta)
    requires Before(f, g)
    ensures !Before(g, f)
  {
    hide K.Less, Part, Trailer;
    var a, b := Part(f.smallest), Part(g.smallest);
    if K.Less(a, b) {
      K.LessAsymmetric(a, b);
    }
    K.LessIrreflexive(a);
  }

  /** What the set of files to add takes for one and the same file: number and smallest key are equal. */
  predicate Same(f: FileMeta, g: FileMeta) {
    f.number == g.number && Part(f.smallest) == Part(g.smallest) && Trailer(f.smallest) == Trailer(g.smallest)
  }

  lemma SameIsUnordered(f: FileMeta, g: FileMeta)
    ensures Same(f, g) <==> !Before(f, g) && !Before(g, f)
  {
    hide K.Less, Part, Trailer;
    var a, b := Part(f.smallest), Part(g.smallest);
    K.LessTotal(a, b);
    K.LessIrreflexive(a);
    if K.Less(a, b) {
      K.LessAsymmetric(a, b);
    }
    if K.Less(b, a) {
      K.LessAsymmetric(b, a);
    }
  }

  predicate Ordered(fs: seq<FileMeta>) {
    forall i, j :: 0 <= i < j < |fs| ==> Before(fs[i], fs[j])
  }

  ghost function Files(fs: seq<FileMeta>): (s: set<FileMeta>) {
    set f | f in fs
  }

  /** An ordered list is determined by its files. */
  lemma {:induction false} OrderedUnique(fs: seq<FileMeta>, gs: seq<FileMeta>)
    requires Ordered(fs) && Ordered(gs) && Files(fs) == Files(gs)
    ensures fs == gs
    decreases |fs|
  {
    hide Before;
    NoFiles(fs);
    NoFiles(gs);
    if |fs| > 0 {
      assert fs[0] in Files(gs) && fs[0] in gs;
      assert gs[0] in Files(gs) && gs[0] in fs;
      SameFirst(fs, gs);
      SameRest(fs, gs);
      OrderedUnique(fs[1..], gs[1..]);
      assert fs == [fs[0]] + fs[1..] && gs == [gs[0]] + gs[1..];
    }
  }

  lemma NoFiles(fs: seq<FileMeta>)
    ensures Files(fs) == {} <==> fs == []
  {
    if fs != [] {
      assert fs[0] in Files(fs);
    }
  }

  lemma SameFirst(fs: seq<FileMeta>, gs: seq<FileMeta>)
    requires Ordered(fs) && Ordered(gs) && |fs| > 0 && |gs| > 0 && fs[0] in gs && gs[0] in fs
    ensures fs[0] == gs[0]
  {
    hide Before;
    var i :| 0 <= i < |gs| && gs[i] == fs[0];
    var j :| 0 <= j < |fs| && fs[j] == gs[0];
    if i > 0 && j > 0 {
      BeforeAsymmetric(gs[0], gs[i]);
    }
  }

  lemma SameRest(fs: seq<FileMeta>, gs: seq<FileMeta>)
    requires Ordered(fs) && Ordered(gs) && |fs| > 0 && |gs| > 0 && fs[0] == gs[0] && Files(fs) == Files(gs)
    ensures Files(fs[1..]) == Files(gs[1..])
  {
    hide Before;
    NotInRest(fs);
    NotInRest(gs);
    assert Files(fs) == Files(fs[1..]) + {fs[0]} by { assert fs == [fs[0]] + fs[1..]; }
    assert Files(gs) == Files(gs[1..]) + {gs[0]} by { assert gs == [gs[0]] + gs[1..]; }
  }

  lemma NotInRest(fs: seq<FileMeta>)
    requires Ordered(fs) && |fs| > 0
    ensures fs[0] !in fs[1..]
  {
    hide KeyLess;
    if fs[0] in fs[1..] {
      var i :| 0 <= i < |fs| - 1 && fs[1..][i] == fs[0];
      assert Before(fs[0], fs[i + 1]);
      BeforeAsymmetric(fs[0], fs[i + 1]);
    }
  }

  // ---------------------------------------------------------------------------------------
  // One level, as sets

  /** What an edit does to one level. */
  datatype Change = Change(deleted: set<uint64>, added: set<FileMeta>)

  ghost function NumbersOf(s: set<FileMeta>): (ns: set<uint64>) {
    set f | f in s :: f.number
  }

  /** A builder's state for one level: numbers to drop, files to add. */
  datatype Pending = Pending(deleted: set<uint64>, added: set<FileMeta>)

  /** The file, or another of the same number and smallest key, is in the set. */
  ghost predicate Matched(f: FileMeta, s: set<FileMeta>) {
    exists g :: g in s && Same(f, g)
  }

  ghost function Unmatched(a: set<FileMeta>, s: set<FileMeta>): (r: set<FileMeta>) {
    set f | f in a && !Matched(f, s)
  }

  /** A file that the set of files to add already has is not added again, even if its size or range is another. */
  ghost function ApplyChange(p: Pending, c: Change): (p': Pending) {
    Pending((p.deleted + c.deleted) - NumbersOf(c.added), p.added + Unmatched(c.added, p.added))
  }

  ghost function Saved(base: set<FileMeta>, p: Pending): (s: set<FileMeta>) {
    set f | f in base + p.added && f.number !in p.deleted
  }

  ghost function ApplyAll(p: Pending, cs: seq<Change>): (p': Pending) {
    if |cs| == 0 then p else ApplyChange(ApplyAll(p, cs[..|cs| - 1]), cs[|cs| - 1])
  }

  /** Installing the changes one at a time, each with a builder of its own. */
  ghost function Install(base: set<FileMeta>, cs: seq<Change>): (s: set<FileMeta>) {
    if |cs| == 0 then base else Saved(Install(base, cs[..|cs| - 1]), ApplyChange(Pending({}, {}), cs[|cs| - 1]))
  }

  /** No change adds a file number that the base or an earlier change has already brought. */
  ghost predicate AddedOnce(base: set<FileMeta>, cs: seq<Change>) {
    forall i, f, g :: 0 <= i < |cs| && f in cs[i].added && g in base + ApplyAll(Pending({}, {}), cs[..i]).added ==> f.number != g.number
  }

  lemma {:induction false} BatchEqualsSteps(base: set<FileMeta>, cs: seq<Change>)
    requires AddedOnce(base, cs)
    ensures Saved(base, ApplyAll(Pending({}, {}), cs)) == Install(base, cs)
    decreases |cs|
  {
    if |cs| > 0 {
      var n := |cs| - 1;
      var init, c := cs[..n], cs[n];
      forall i | 0 <= i < n ensures init[..i] == cs[..i] {
      }
      BatchEqualsSteps(base, init);
      OneMore(base, ApplyAll(Pending({}, {}), init), c);
    }
  }

  lemma OneMore(base: set<FileMeta>, p: Pending, c: Change)
    requires forall f, g :: f in c.added && g in base + p.added ==> f.number != g.number
    ensures Saved(base, ApplyChange(p, c)) == Saved(Saved(base, p), ApplyChange(Pending({}, {}), c))
  {
    var ns := NumbersOf(c.added);
    assert forall f :: f in c.added ==> f.number in ns;
    assert forall f :: f in base + p.added ==> f.number !in ns;
  }

  // ---------------------------------------------------------------------------------------
  // When one builder gives what installing one at a time gives

  /** The change deletes the number and does not bring it back itself. */
  ghost predicate Deletes(c: Change, n: uint64) {
    n in c.deleted && n !in NumbersOf(c.added)
  }

  /** No change from i on deletes the number. */
  ghost predicate Live(cs: seq<Change>, i: int, n: uint64) {
    forall j :: 0 <= i <= j < |cs| ==> !Deletes(cs[j], n)
  }

  /** Change i brings f, and the number is not deleted after it. */
  ghost predicate BroughtAt(cs: seq<Change>, i: int, f: FileMeta) {
    0 <= i < |cs| && f in cs[i].added && Live(cs, i + 1, f.number)
  }

  /** What installing one at a time ends with, read off the changes. */
  lemma {:induction false} StepsAre(base: set<FileMeta>, cs: seq<Change>, f: FileMeta)
    ensures f in Install(base, cs) <==> (f in base && Live(cs, 0, f.number)) || exists i :: BroughtAt(cs, i, f)
    decreases |cs|
  {
    if |cs| > 0 {
      var n := |cs| - 1;
      var init, c := cs[..n], cs[n];
      StepsAre(base, init, f);
      StepIs(Install(base, init), c, f);
      LiveSnoc(cs, 0, f.number);
      assert f in c.added ==> BroughtAt(cs, n, f);
      forall i | BroughtAt(init, i, f) && !Deletes(c, f.number) ensures BroughtAt(cs, i, f) {
        LiveSnoc(cs, i + 1, f.number);
      }
      forall i | BroughtAt(cs, i, f) && i < n ensures BroughtAt(init, i, f) && !Deletes(c, f.number) {
        LiveSnoc(cs, i + 1, f.number);
      }
    }
  }

  lemma StepIs(s: set<FileMeta>, c: Change, f: FileMeta)
    ensures f in Saved(s, ApplyChange(Pending({}, {}), c)) <==> (f in s && !Deletes(c, f.number)) || f in c.added
  {
    assert f in c.added ==> f.number in NumbersOf(c.added);
  }

  lemma LiveSnoc(cs: seq<Change>, i: int, n: uint64)
    requires 0 <= i < |cs|
    ensures Live(cs, i, n) <==> Live(cs[..|cs| - 1], i, n) && !Deletes(cs[|cs| - 1], n)
  {
    var init := cs[..|cs| - 1];
    assert forall j :: 0 <= j < |init| ==> init[j] == cs[j];
    if Live(init, i, n) && !Deletes(cs[|cs| - 1], n) {
      forall j | i <= j < |cs| ensures !Deletes(cs[j], n) {
        assert j < |init| ==> !Deletes(init[j], n);
      }
    }
  }

  /** The number is deleted by some change and not brought after it. */
  ghost predicate Gone(cs: seq<Change>, n: uint64) {
    exists i :: GoneAt(cs, i, n)
  }

  ghost predicate GoneAt(cs: seq<Change>, i: int, n: uint64) {
    0 <= i < |cs| && Deletes(cs[i], n) && forall j :: i < j < |cs| ==> n !in NumbersOf(cs[j].added)
  }

  /** Change i brings f, and no change before it brought a file of the same number and smallest key. */
  ghost predicate First(cs: seq<Change>, i: int, f: FileMeta) {
    0 <= i < |cs| && f in cs[i].added && forall j :: 0 <= j < i ==> !Matched(f, cs[j].added)
  }

  lemma {:induction false} DeletedIs(cs: seq<Change>, n: uint64)
    ensures n in ApplyAll(Pending({}, {}), cs).deleted <==> Gone(cs, n)
    decreases |cs|
  {
    if |cs| > 0 {
      var k := |cs| - 1;
      var init, c := cs[..k], cs[k];
      DeletedIs(init, n);
      assert Deletes(c, n) ==> GoneAt(cs, k, n);
      forall i | GoneAt(init, i, n) && n !in NumbersOf(c.added) ensures GoneAt(cs, i, n) {
        forall j | i < j < |cs| ensures n !in NumbersOf(cs[j].added) {
          assert j < k ==> init[j] == cs[j];
        }
      }
      forall i | GoneAt(cs, i, n) && i < k ensures GoneAt(init, i, n) {
        assert forall j :: i < j < k ==> init[j] == cs[j];
      }
    }
  }

  /** A file's number and smallest key are among the files to add once some change has brought them. */
  lemma {:induction false} MatchedIs(cs: seq<Change>, f: FileMeta)
    ensures Matched(f, ApplyAll(Pending({}, {}), cs).added) <==> exists i :: 0 <= i < |cs| && Matched(f, cs[i].added)
    decreases |cs|
  {
    hide Part, Trailer;
    if |cs| > 0 {
      var k := |cs| - 1;
      var init, c := cs[..k], cs[k];
      MatchedIs(init, f);
      assert forall i :: 0 <= i < k ==> init[i] == cs[i];
      MatchedMore(f, c.added, ApplyAll(Pending({}, {}), init).added);
    }
  }

  lemma MatchedMore(f: FileMeta, a: set<FileMeta>, s: set<FileMeta>)
    ensures Matched(f, s + Unmatched(a, s)) <==> Matched(f, s) || Matched(f, a)
  {
    hide Part, Trailer;
    if Matched(f, s) {
      var g :| g in s && Same(f, g);
      assert g in s + Unmatched(a, s);
    } else if Matched(f, a) {
      var g :| g in a && Same(f, g);
      assert g in s + Unmatched(a, s);
    }
  }

  lemma {:induction false} AddedIs(cs: seq<Change>, f: FileMeta)
    ensures f in ApplyAll(Pending({}, {}), cs).added <==> exists i :: First(cs, i, f)
    decreases |cs|
  {
    hide Same;
    if |cs| > 0 {
      var k := |cs| - 1;
      var init, c := cs[..k], cs[k];
      AddedIs(init, f);
      MatchedIs(init, f);
      assert forall i :: 0 <= i < k ==> init[i] == cs[i];
      forall i | First(init, i, f) ensures First(cs, i, f) {
      }
      forall i | First(cs, i, f) && i < k ensures First(init, i, f) {
      }
      if f in c.added && !Matched(f, ApplyAll(Pending({}, {}), init).added) {
        assert First(cs, k, f);
      }
    }
  }

  /** What one builder ends with, read off the changes. */
  lemma BatchIs(base: set<FileMeta>, cs: seq<Change>, f: FileMeta)
    ensures f in Saved(base, ApplyAll(Pending({}, {}), cs)) <==> !Gone(cs, f.number) && (f in base || exists i :: First(cs, i, f))
  {
    hide Gone, First, ApplyAll;
    DeletedIs(cs, f.number);
    AddedIs(cs, f);
  }

  /**
   * Change k is the last to delete the number of f, which was there before; the number comes back after k, but
   * f itself does not.
   */
  ghost predicate Revived(base: set<FileMeta>, cs: seq<Change>, k: int, f: FileMeta) {
    && 0 <= k < |cs| && Deletes(cs[k], f.number) && Live(cs, k + 1, f.number)
    && (f in base || exists i :: i < k && First(cs, i, f))
    && (exists j :: k < j < |cs| && f.number in NumbersOf(cs[j].added))
    && (forall j :: k < j < |cs| ==> f !in cs[j].added)
  }

  /**
   * Change j brings g to stay, but change i, the first to bring its number and smallest key, brought another
   * file under them.
   */
  ghost predicate Masked(base: set<FileMeta>, cs: seq<Change>, i: int, j: int, g: FileMeta) {
    && 0 <= i < j && BroughtAt(cs, j, g) && g !in base
    && Matched(g, cs[i].added) && g !in cs[i].added && forall h :: 0 <= h < i ==> !Matched(g, cs[h].added)
  }

  lemma {:induction false} LastDrop(cs: seq<Change>, n: uint64) returns (k: int)
    requires !Live(cs, 0, n)
    ensures 0 <= k < |cs| && Deletes(cs[k], n) && Live(cs, k + 1, n)
    decreases |cs|
  {
    var m := |cs| - 1;
    if Deletes(cs[m], n) {
      k := m;
    } else {
      LiveSnoc(cs, 0, n);
      k := LastDrop(cs[..m], n);
      LiveSnoc(cs, k + 1, n);
    }
  }

  lemma LiveAfter(cs: seq<Change>, i: int, j: int, n: uint64)
    requires Live(cs, i, n) && 0 <= i <= j
    ensures Live(cs, j, n)
  {
  }

  lemma InNumbers(s: set<FileMeta>, f: FileMeta)
    requires f in s
    ensures f.number in NumbersOf(s)
  {
  }

  /** A file of the batch that is not held step by step has been revived. */
  lemma ExtraIsRevived(base: set<FileMeta>, cs: seq<Change>, f: FileMeta) returns (k: int)
    requires !Gone(cs, f.number) && (f in base || exists i :: First(cs, i, f))
    requires !(f in base && Live(cs, 0, f.number)) && !exists i :: BroughtAt(cs, i, f)
    ensures Revived(base, cs, k, f)
  {
    hide Deletes, NumbersOf, Matched, Live;
    if Live(cs, 0, f.number) {
      var i :| First(cs, i, f);
      BroughtLater(cs, 0, i, f);
    }
    k := LastDrop(cs, f.number);
    assert !GoneAt(cs, k, f.number);
    forall j | k <= j < |cs| ensures f !in cs[j].added {
      if f in cs[j].added {
        NotBothDropped(cs[j], f);
        BroughtLater(cs, k + 1, j, f);
      }
    }
  }

  lemma BroughtLater(cs: seq<Change>, i: int, j: int, f: FileMeta)
    requires 0 <= i <= j + 1 && 0 <= j < |cs| && f in cs[j].added && Live(cs, i, f.number)
    ensures BroughtAt(cs, j, f)
  {
    LiveAfter(cs, i, j + 1, f.number);
  }

  lemma NotBothDropped(c: Change, f: FileMeta)
    requires f in c.added
    ensures !Deletes(c, f.number)
  {
    InNumbers(c.added, f);
  }

  lemma RevivedIsExtra(base: set<FileMeta>, cs: seq<Change>, k: int, f: FileMeta)
    requires Revived(base, cs, k, f)
    ensures !Gone(cs, f.number) && !(f in base && Live(cs, 0, f.number)) && !exists i :: BroughtAt(cs, i, f)
  {
    hide NumbersOf, Matched;
    forall i ensures !GoneAt(cs, i, f.number) {
      var j :| k < j < |cs| && f.number in NumbersOf(cs[j].added);
      assert k < i < |cs| ==> !Deletes(cs[i], f.number);
    }
    forall i ensures !BroughtAt(cs, i, f) {
      if BroughtAt(cs, i, f) {
        NotBothDropped(cs[i], f);
      }
    }
  }

  lemma RevivedIff(base: set<FileMeta>, cs: seq<Change>, f: FileMeta)
    ensures f in Saved(base, ApplyAll(Pending({}, {}), cs)) && f !in Install(base, cs) <==> exists k :: Revived(base, cs, k, f)
  {
    hide Revived, Gone, First, Saved, Install, ApplyAll, Live, BroughtAt;
    BatchIs(base, cs, f);
    StepsAre(base, cs, f);
    if f in Saved(base, ApplyAll(Pending({}, {}), cs)) && f !in Install(base, cs) {
      var k := ExtraIsRevived(base, cs, f);
    } else if k :| Revived(base, cs, k, f) {
      RevivedIsExtra(base, cs, k, f);
      RevivedWasThere(base, cs, k, f);
    }
  }

  /** One builder keeps no file too many if and only if none is revived. */
  lemma ExtraIff(base: set<FileMeta>, cs: seq<Change>)
    ensures Saved(base, ApplyAll(Pending({}, {}), cs)) <= Install(base, cs) <==> !exists k, f :: Revived(base, cs, k, f)
  {
    hide Revived, Saved, Install, ApplyAll;
    var batch, steps := Saved(base, ApplyAll(Pending({}, {}), cs)), Install(base, cs);
    if batch <= steps {
      forall k, f ensures !Revived(base, cs, k, f) {
        RevivedIff(base, cs, f);
      }
    } else {
      var f :| f in batch && f !in steps;
      RevivedIff(base, cs, f);
    }
  }

  lemma RevivedWasThere(base: set<FileMeta>, cs: seq<Change>, k: int, f: FileMeta)
    requires Revived(base, cs, k, f)
    ensures f in base || exists i :: First(cs, i, f)
  {
  }

  /** The first change that brings the number and smallest key of g. */
  lemma {:induction false} FirstMatch(cs: seq<Change>, g: FileMeta, j: int) returns (i: int)
    requires 0 <= j < |cs| && Matched(g, cs[j].added)
    ensures 0 <= i <= j && Matched(g, cs[i].added) && forall h :: 0 <= h < i ==> !Matched(g, cs[h].added)
    decreases j
  {
    if h :| 0 <= h < j && Matched(g, cs[h].added) {
      i := FirstMatch(cs, g, h);
    } else {
      i := j;
    }
  }

  lemma MatchesSelf(f: FileMeta, s: set<FileMeta>)
    requires f in s
    ensures Matched(f, s)
  {
    assert Same(f, f);
  }

  lemma BroughtIsNotGone(cs: seq<Change>, j: int, g: FileMeta)
    requires BroughtAt(cs, j, g)
    ensures !Gone(cs, g.number)
  {
    hide NumbersOf;
    NotBothDropped(cs[j], g);
    InNumbers(cs[j].added, g);
    forall i ensures !GoneAt(cs, i, g.number) {
      assert j < i < |cs| ==> !Deletes(cs[i], g.number);
    }
  }

  /** A file held step by step that the batch does not have has been masked. */
  lemma LostIsMasked(base: set<FileMeta>, cs: seq<Change>, g: FileMeta) returns (i: int, j: int)
    requires (g in base && Live(cs, 0, g.number)) || exists j :: BroughtAt(cs, j, g)
    requires Gone(cs, g.number) || (g !in base && !exists i :: First(cs, i, g))
    ensures Masked(base, cs, i, j, g)
  {
    hide Matched;
    j :| BroughtAt(cs, j, g);
    BroughtIsNotGone(cs, j, g);
    MatchesSelf(g, cs[j].added);
    i := FirstMatch(cs, g, j);
    assert !First(cs, i, g);
  }

  lemma MaskedIsLost(base: set<FileMeta>, cs: seq<Change>, i: int, j: int, g: FileMeta)
    requires Masked(base, cs, i, j, g)
    ensures BroughtAt(cs, j, g) && g !in base && !exists h :: First(cs, h, g)
  {
    hide Matched, Live;
    forall h ensures !First(cs, h, g) {
      if First(cs, h, g) {
        MatchesSelf(g, cs[h].added);
      }
    }
  }

  lemma MaskedIff(base: set<FileMeta>, cs: seq<Change>, g: FileMeta)
    ensures g in Install(base, cs) && g !in Saved(base, ApplyAll(Pending({}, {}), cs)) <==> exists i, j :: Masked(base, cs, i, j, g)
  {
    hide Masked, Gone, First, Saved, Install, ApplyAll, Live, BroughtAt;
    BatchIs(base, cs, g);
    StepsAre(base, cs, g);
    if g in Install(base, cs) && g !in Saved(base, ApplyAll(Pending({}, {}), cs)) {
      var i, j := LostIsMasked(base, cs, g);
    } else if i, j :| Masked(base, cs, i, j, g) {
      MaskedIsLost(base, cs, i, j, g);
    }
  }

  /** One builder loses no file if and only if none is masked. */
  lemma LostIff(base: set<FileMeta>, cs: seq<Change>)
    ensures Install(base, cs) <= Saved(base, ApplyAll(Pending({}, {}), cs)) <==> !exists i, j, g :: Masked(base, cs, i, j, g)
  {
    hide Masked, Saved, Install, ApplyAll;
    var batch, steps := Saved(base, ApplyAll(Pending({}, {}), cs)), Install(base, cs);
    if steps <= batch {
      forall i, j, g ensures !Masked(base, cs, i, j, g) {
        MaskedIff(base, cs, g);
      }
    } else {
      var g :| g in steps && g !in batch;
      MaskedIff(base, cs, g);
    }
  }

  /** No file is revived and none is masked: what can be checked on the changes alone. */
  ghost predicate Clear(base: set<FileMeta>, cs: seq<Change>) {
    (!exists k, f :: Revived(base, cs, k, f)) && !exists i, j, g :: Masked(base, cs, i, j, g)
  }

  /** One builder over all changes gives what installing them one at a time gives if and only if they are clear. */
  lemma BatchEqualsStepsIff(base: set<FileMeta>, cs: seq<Change>)
    ensures Saved(base, ApplyAll(Pending({}, {}), cs)) == Install(base, cs) <==> Clear(base, cs)
  {
    hide Revived, Masked, Saved, Install, ApplyAll;
    ExtraIff(base, cs);
    LostIff(base, cs);
  }

  function BackAgain(f: FileMeta, g: FileMeta): (cs: seq<Change>) {
    [Change({}, {f}), Change({f.number}, {}), Change({}, {g})]
  }

  /** Add f, delete it, add g under the same number: the step by step result is {g} in any case. */
  lemma BackAgainSteps(f: FileMeta, g: FileMeta)
    requires f.number == g.number
    ensures Install({}, BackAgain(f, g)) == {g}
    ensures ApplyAll(Pending({}, {}), BackAgain(f, g)) == Pending({}, {f} + Unmatched({g}, {f}))
  {
    var c1, c2, c3 := Change({}, {f}), Change({f.number}, {}), Change({}, {g});
    var s1, s2, s3 := [c1], [c1, c2], [c1, c2, c3];
    assert s3[..2] == s2 && s2[..1] == s1 && s1[..0] == [];
    assert NumbersOf({f}) == {f.number} && NumbersOf({g}) == {f.number} && NumbersOf({}) == {};
    assert Unmatched({f}, {}) == {f} && Unmatched({g}, {}) == {g} && Unmatched({}, {f}) == {};
    assert ApplyAll(Pending({}, {}), s1) == Pending({}, {f});
    assert ApplyAll(Pending({}, {}), s2) == Pending({f.number}, {f});
    assert Install({}, s1) == {f};
    assert Install({}, s2) == {};
  }

  /** With another smallest key under the same number, one builder also keeps the file that was deleted. */
  lemma KeepsOneTooMany(f: FileMeta, g: FileMeta)
    requires f.number == g.number && !Same(f, g)
    ensures Saved({}, ApplyAll(Pending({}, {}), BackAgain(f, g))) == {f, g} && Install({}, BackAgain(f, g)) == {g}
  {
    BackAgainSteps(f, g);
    assert Unmatched({g}, {f}) == {g};
  }

  /** With the same smallest key and number, one builder keeps the deleted file and loses the new one. */
  lemma LosesOne(f: FileMeta, g: FileMeta)
    requires Same(f, g)
    ensures Saved({}, ApplyAll(Pending({}, {}), BackAgain(f, g))) == {f} && Install({}, BackAgain(f, g)) == {g}
  {
    BackAgainSteps(f, g);
    assert Matched(g, {f}) by { assert Same(g, f); }
    assert Unmatched({g}, {f}) == {};
  }

  // ---------------------------------------------------------------------------------------
  // The builder

  type Version = v: seq<seq<FileMeta>> | |v| == NUM_LEVELS witness [[], [], [], [], [], [], []]

  /** The change an edit makes to a level. */
  ghost function ChangeOf(e: Edit, l: Level): (c: Change) {
    Change(DeletedAt(e.deleted, l), BroughtTo(e.added, l))
  }

  ghost function DeletedAt(ds: seq<Deletion>, l: Level): (s: set<uint64>) {
    set d | d in ds && d.level == l :: d.number
  }

  ghost function AddedAt(xs: seq<Addition>, l: Level): (s: set<FileMeta>) {
    set x | x in xs && x.level == l :: x.file
  }

  /** The files an edit brings to a level: of several with the same number and smallest key only the first. */
  ghost function BroughtTo(xs: seq<Addition>, l: Level): (s: set<FileMeta>) {
    AddedTo({}, xs, l)
  }

  /** The set after the additions have been inserted one by one. */
  ghost function AddedTo(s: set<FileMeta>, xs: seq<Addition>, l: Level): (r: set<FileMeta>) {
    if |xs| == 0 then s
    else
      var r, x := AddedTo(s, xs[..|xs| - 1], l), xs[|xs| - 1];
      if x.level == l then r + Unmatched({x.file}, r) else r
  }

  /** Inserting into a set that is not empty adds what is brought and not matched there. */
  lemma {:induction false} AddedToIs(s: set<FileMeta>, xs: seq<Addition>, l: Level)
    ensures AddedTo(s, xs, l) == s + Unmatched(BroughtTo(xs, l), s)
    decreases |xs|
  {
    hide Same;
    if |xs| == 0 {
      assert Unmatched({}, s) == {};
    } else {
      var init, x := xs[..|xs| - 1], xs[|xs| - 1];
      AddedToIs(s, init, l);
      var r, b := AddedTo(s, init, l), BroughtTo(init, l);
      if x.level == l {
        MatchedMore(x.file, b, s);
        assert Matched(x.file, r) <==> Matched(x.file, s) || Matched(x.file, b);
        OneMoreUnmatched(s, b, x.file);
      }
    }
  }

  lemma OneMoreUnmatched(s: set<FileMeta>, b: set<FileMeta>, f: FileMeta)
    requires Matched(f, s + Unmatched(b, s)) <==> Matched(f, s) || Matched(f, b)
    ensures var r := s + Unmatched(b, s);
            r + Unmatched({f}, r) == s + Unmatched(b + Unmatched({f}, b), s)
  {
    hide Same, Matched;
  }

  lemma {:induction false} BroughtNumbers(xs: seq<Addition>, l: Level)
    ensures NumbersOf(BroughtTo(xs, l)) == NumbersOf(AddedAt(xs, l))
    decreases |xs|
  {
    hide NumbersOf, AddedAt;
    if |xs| == 0 {
      assert AddedAt(xs, l) == {} by { NoneAdded(); }
    } else {
      var k := |xs| - 1;
      var init, x, b := xs[..k], xs[k], BroughtTo(xs[..k], l);
      BroughtNumbers(init, l);
      AddedMore(xs, k);
      assert xs[..k + 1] == xs;
      NumbersMore(b, x.file);
    }
  }

  lemma NumbersMore(s: set<FileMeta>, f: FileMeta)
    ensures NumbersOf(s + Unmatched({f}, s)) == NumbersOf(s) + {f.number}
  {
    hide Part, Trailer;
    if Matched(f, s) {
      var g :| g in s && Same(f, g);
      assert f.number in NumbersOf(s) && Unmatched({f}, s) == {};
    } else {
      assert Unmatched({f}, s) == {f};
    }
  }

  /** No two additions to a level are taken for the same file. */
  ghost predicate NoneSame(xs: seq<Addition>) {
    forall i, j :: 0 <= i < j < |xs| && xs[i].level == xs[j].level ==> !Same(xs[j].file, xs[i].file)
  }

  lemma {:induction false} BroughtDistinct(xs: seq<Addition>, l: Level)
    requires NoneSame(xs)
    ensures BroughtTo(xs, l) == AddedAt(xs, l)
    decreases |xs|
  {
    hide Same;
    if |xs| > 0 {
      var k := |xs| - 1;
      var init, x := xs[..k], xs[k];
      BroughtDistinct(init, l);
      AddedMore(xs, k);
      assert xs[..k + 1] == xs;
      if x.level == l {
        forall g | g in AddedAt(init, l) ensures !Same(x.file, g) {
          var y :| y in init && y.level == l && y.file == g;
          var i :| 0 <= i < |init| && init[i] == y;
          assert xs[i] == y;
        }
        assert Unmatched({x.file}, AddedAt(init, l)) == {x.file};
      }
    }
  }

  /** What is brought has been added. */
  lemma {:induction false} BroughtIsAdded(xs: seq<Addition>, l: Level)
    ensures BroughtTo(xs, l) <= AddedAt(xs, l)
    decreases |xs|
  {
    if |xs| > 0 {
      var k := |xs| - 1;
      BroughtIsAdded(xs[..k], l);
      AddedMore(xs, k);
      assert xs[..k + 1] == xs;
    }
  }

  ghost function ChangesOf(es: seq<Edit>, l: Level): (cs: seq<Change>)
    ensures |cs| == |es| && forall i :: 0 <= i < |es| ==> cs[i] == ChangeOf(es[i], l)
  {
    seq(|es|, i requires 0 <= i < |es| => ChangeOf(es[i], l))
  }

  /** The additions of an edit have different numbers, level by level. */
  predicate DistinctAdditions(xs: seq<Addition>) {
    forall i, j :: 0 <= i < j < |xs| && xs[i].level == xs[j].level ==> xs[i].file.number != xs[j].file.number
  }

  /** Insert into the ordered set; a file with the same smallest key and number is already there. */
  function InsertMeta(fs: seq<FileMeta>, f: FileMeta): (r: seq<FileMeta>) {
    if |fs| == 0 || Before(f, fs[0]) then [f] + fs
    else if Before(fs[0], f) then [fs[0]] + InsertMeta(fs[1..], f)
    else fs
  }

  lemma {:induction false} InsertOrdered(fs: seq<FileMeta>, f: FileMeta)
    requires Ordered(fs)
    ensures Ordered(InsertMeta(fs, f)) && Files(InsertMeta(fs, f)) == Files(fs) + Unmatched({f}, Files(fs))
  {
    hide Before, Same;
    var r := InsertMeta(fs, f);
    if |fs| == 0 || Before(f, fs[0]) {
      forall g | g in fs ensures Before(f, g) {
        if g != fs[0] {
          RestAfter(fs);
          assert fs == [fs[0]] + fs[1..];
          BeforeTransitive(f, fs[0], g);
        }
      }
      NoneMatched(f, fs);
      assert Files([f] + fs) == Files(fs) + {f};
    } else if Before(fs[0], f) {
      OrderedSuffix(fs, 1);
      InsertOrdered(fs[1..], f);
      RestAfter(fs);
      var rest := InsertMeta(fs[1..], f);
      forall g | g in rest ensures Before(fs[0], g) {
        assert g in Files(rest);
        assert g != f ==> g in Files(fs[1..]);
      }
      MatchedRest(f, fs);
      assert Files([fs[0]] + rest) == {fs[0]} + Files(rest);
      assert fs == [fs[0]] + fs[1..] && Files(fs) == {fs[0]} + Files(fs[1..]);
    } else {
      SameIsUnordered(f, fs[0]);
      assert fs[0] in Files(fs);
      assert Matched(f, Files(fs));
      assert Unmatched({f}, Files(fs)) == {};
    }
  }

  lemma NoneMatched(f: FileMeta, fs: seq<FileMeta>)
    requires forall g :: g in fs ==> Before(f, g)
    ensures Unmatched({f}, Files(fs)) == {f}
  {
    hide Before, Same;
    forall g | g in Files(fs) ensures !Same(f, g) {
      SameIsUnordered(f, g);
    }
  }

  lemma MatchedRest(f: FileMeta, fs: seq<FileMeta>)
    requires |fs| > 0 && Before(fs[0], f)
    ensures Unmatched({f}, Files(fs)) == Unmatched({f}, Files(fs[1..]))
  {
    hide Before, Same;
    SameIsUnordered(f, fs[0]);
    assert fs == [fs[0]] + fs[1..];
    assert forall g :: g in Files(fs) <==> g == fs[0] || g in Files(fs[1..]);
  }

  lemma RestAfter(fs: seq<FileMeta>)
    requires Ordered(fs) && |fs| > 0
    ensures forall g :: g in fs[1..] ==> Before(fs[0], g)
  {
    hide Before;
    forall g | g in fs[1..] ensures Before(fs[0], g) {
      var i :| 0 <= i < |fs[1..]| && fs[1..][i] == g;
      assert g == fs[i + 1];
    }
  }

  /** Each file number is brought to a level at most once. */
  ghost predicate Once(base: Version, es: seq<Edit>) {
    && (forall i :: 0 <= i < |es| ==> DistinctAdditions(es[i].added))
    && (forall l: Level :: AddedOnce(Files(base[l]), ChangesOf(es, l)))
  }

  lemma OnceBefore(base: Version, es: seq<Edit>, e: Edit)
    requires Once(base, es + [e])
    ensures Once(base, es) && DistinctAdditions(e.added)
  {
    hide DistinctAdditions;
    var all := es + [e];
    assert all[|es|] == e && forall i :: 0 <= i < |es| ==> all[i] == es[i];
    forall l: Level ensures AddedOnce(Files(base[l]), ChangesOf(es, l)) {
      var cs, cs' := ChangesOf(es, l), ChangesOf(all, l);
      assert AddedOnce(Files(base[l]), cs');
      assert forall i :: 0 <= i < |es| ==> cs'[..i] == cs[..i];
    }
  }

  class Builder {
    const base: Version
    var deleted: seq<set<uint64>>
    var added: seq<seq<FileMeta>>
    /** The edits applied so far. */
    ghost var edits: seq<Edit>

    ghost predicate LevelOk(l: Level)
      reads this
    {
      && |deleted| == NUM_LEVELS == |added| && Ordered(added[l])
      && Pending(deleted[l], Files(added[l])) == ApplyAll(Pending({}, {}), ChangesOf(edits, l))
    }

    ghost predicate Valid()
      reads this
    {
      |deleted| == NUM_LEVELS == |added| && forall l: Level :: LevelOk(l)
    }

    constructor (base: Version)
      ensures Valid() && edits == [] && this.base == base
    {
      this.base := base;
      deleted, added, edits := [{}, {}, {}, {}, {}, {}, {}], [[], [], [], [], [], [], []], [];
    }

    /** Remember the deletions, then the additions: an addition cancels an earlier deletion of its number. */
    method Apply(e: Edit)
      requires Valid()
      modifies this
      ensures Valid() && edits == old(edits) + [e]
    {
      hide Ordered, ApplyAll, ChangesOf, DeletedAt, AddedTo, AddedAt, NumbersOf, Unmatched;
      forall l: Level ensures Ordered(added[l]) && Pending(deleted[l], Files(added[l])) == ApplyAll(Pending({}, {}), ChangesOf(edits, l)) {
        assert LevelOk(l);
      }
      RemoveNumbers(e.deleted);
      AddFiles(e.added);
      edits := edits + [e];
      forall l: Level ensures LevelOk(l) {
        EditsMore(old(edits), e, l);
        AddedToIs(Files(old(added)[l]), e.added, l);
        BroughtNumbers(e.added, l);
      }
    }

    method RemoveNumbers(ds: seq<Deletion>)
      requires |deleted| == NUM_LEVELS
      modifies this`deleted
      ensures |deleted| == NUM_LEVELS && forall l: Level :: deleted[l] == old(deleted)[l] + DeletedAt(ds, l)
    {
      hide DeletedAt;
      NoneDeleted();
      var i := 0;
      assert ds[..0] == [];
      while i < |ds|
        invariant i <= |ds| && |deleted| == NUM_LEVELS
        invariant forall l: Level :: deleted[l] == old(deleted)[l] + DeletedAt(ds[..i], l)
      {
        var d := ds[i];
        DeletedMore(ds, i);
        deleted := deleted[d.level := deleted[d.level] + {d.number}];
        i := i + 1;
      }
      assert ds[..i] == ds;
    }

    method AddFiles(xs: seq<Addition>)
      requires |deleted| == NUM_LEVELS == |added| && forall l: Level :: Ordered(added[l])
      modifies this`deleted, this`added
      ensures |deleted| == NUM_LEVELS == |added|
      ensures forall l: Level :: Ordered(added[l]) && Files(added[l]) == AddedTo(Files(old(added)[l]), xs, l)
      ensures forall l: Level :: deleted[l] == old(deleted)[l] - NumbersOf(AddedAt(xs, l))
    {
      hide Ordered, AddedAt, NumbersOf, Files, Unmatched;
      NoneAdded();
      var i := 0;
      assert xs[..0] == [];
      while i < |xs|
        invariant i <= |xs| && |deleted| == NUM_LEVELS == |added|
        invariant forall l: Level :: Ordered(added[l]) && Files(added[l]) == AddedTo(Files(old(added)[l]), xs[..i], l)
        invariant forall l: Level :: deleted[l] == old(deleted)[l] - NumbersOf(AddedAt(xs[..i], l))
      {
        var x := xs[i];
        assert xs[..i + 1][..i] == xs[..i];
        AddedMore(xs, i);
        InsertOrdered(added[x.level], x.file);
        deleted := deleted[x.level := deleted[x.level] - {x.file.number}];
        added := added[x.level := InsertMeta(added[x.level], x.file)];
        i := i + 1;
      }
      assert xs[..i] == xs;
    }

    /**
     * The version saved holds, level by level, what installing the edits one at a time gives if and only if no
     * file is revived and none is masked; it is ordered when each number is brought once.
     */
    method SaveTo() returns (v: Version)
      requires Valid()
      ensures forall l: Level :: Files(v[l]) == Batch(base, edits, l)
      ensures forall l: Level :: Files(v[l]) == Steps(base, edits, l) <==> Clear(Files(base[l]), ChangesOf(edits, l))
      ensures (forall l: Level :: Ordered(base[l])) && Once(base, edits) ==>
                forall l: Level :: Ordered(v[l]) && Files(v[l]) == Steps(base, edits, l)
    {
      hide Ordered, Steps, Batch, ChangesOf, Once, Files, Clear;
      ghost var good := (forall l: Level :: Ordered(base[l])) && Once(base, edits);
      v := [[], [], [], [], [], [], []];
      var level: nat := 0;
      while level < NUM_LEVELS
        invariant level <= NUM_LEVELS
        invariant forall l: Level :: l < level ==> Files(v[l]) == Batch(base, edits, l)
        invariant good ==> forall l: Level :: l < level ==> Ordered(v[l])
      {
        assert LevelOk(level);
        if good {
          LevelApart(base, edits, level, added[level]);
        }
        var files := SaveLevel(base[level], added[level], deleted[level]);
        BatchOf(base, edits, level, added[level], deleted[level]);
        v := v[level := files];
        level := level + 1;
      }
      forall l: Level ensures Batch(base, edits, l) == Steps(base, edits, l) <==> Clear(Files(base[l]), ChangesOf(edits, l)) {
        LevelIff(base, edits, l);
      }
      if good {
        forall l: Level ensures Batch(base, edits, l) == Steps(base, edits, l) {
          LevelOnce(base, edits, l);
        }
      }
    }
  }

  /** What one builder makes of the edits on a level, and what installing them one at a time makes of them. */
  ghost function Batch(base: Version, es: seq<Edit>, l: Level): (s: set<FileMeta>) {
    Saved(Files(base[l]), ApplyAll(Pending({}, {}), ChangesOf(es, l)))
  }

  ghost function Steps(base: Version, es: seq<Edit>, l: Level): (s: set<FileMeta>) {
    Install(Files(base[l]), ChangesOf(es, l))
  }

  lemma BatchOf(base: Version, es: seq<Edit>, l: Level, added: seq<FileMeta>, deleted: set<uint64>)
    requires Pending(deleted, Files(added)) == ApplyAll(Pending({}, {}), ChangesOf(es, l))
    ensures Saved(Files(base[l]), Pending(deleted, Files(added))) == Batch(base, es, l)
  {
  }

  lemma LevelIff(base: Version, es: seq<Edit>, l: Level)
    ensures Batch(base, es, l) == Steps(base, es, l) <==> Clear(Files(base[l]), ChangesOf(es, l))
  {
    BatchEqualsStepsIff(Files(base[l]), ChangesOf(es, l));
  }

  lemma LevelOnce(base: Version, es: seq<Edit>, l: Level)
    requires Once(base, es)
    ensures Batch(base, es, l) == Steps(base, es, l)
  {
    hide ApplyAll, Install, ChangesOf;
    BatchEqualsSteps(Files(base[l]), ChangesOf(es, l));
  }

  // ---------------------------------------------------------------------------------------
  // Saving a version

  ghost predicate AllBefore(out: seq<FileMeta>, rest: seq<FileMeta>) {
    forall i, j :: 0 <= i < |out| && 0 <= j < |rest| ==> Before(out[i], rest[j])
  }

  ghost function Kept(fs: seq<FileMeta>, dropped: set<uint64>): (s: set<FileMeta>) {
    set f | f in fs && f.number !in dropped
  }

  ghost predicate Apart(fs: seq<FileMeta>, gs: seq<FileMeta>) {
    forall f, g :: f in fs && g in gs ==> f.number != g.number
  }

  /** The loop state of SaveTo: out holds what is kept of the first i base files and the first j added files. */
  ghost predicate Merged(out: seq<FileMeta>, base: seq<FileMeta>, i: nat, added: seq<FileMeta>, j: nat, dropped: set<uint64>) {
    && i <= |base| && j <= |added| && Ordered(out)
    && Files(out) == Kept(base[..i], dropped) + Kept(added[..j], dropped)
    && AllBefore(out, base[i..]) && AllBefore(out, added[j..])
  }

  function MaybeAdd(out: seq<FileMeta>, f: FileMeta, dropped: set<uint64>): (out': seq<FileMeta>) {
    if f.number in dropped then out else out + [f]
  }

  lemma KeptMore(fs: seq<FileMeta>, i: nat, dropped: set<uint64>)
    requires i < |fs|
    ensures Kept(fs[..i + 1], dropped) == Kept(fs[..i], dropped) + if fs[i].number in dropped then {} else {fs[i]}
  {
    assert fs[..i + 1] == fs[..i] + [fs[i]];
  }

  /** Adding the first of two remaining lists, when it is before everything in the other. */
  lemma TakeFirst(out: seq<FileMeta>, xs: seq<FileMeta>, ys: seq<FileMeta>, dropped: set<uint64>)
    requires Ordered(out) && |xs| > 0 && Ordered(xs) && AllBefore(out, xs) && AllBefore(out, ys) && AllBefore([xs[0]], ys)
    ensures var out' := MaybeAdd(out, xs[0], dropped);
            Ordered(out') && AllBefore(out', xs[1..]) && AllBefore(out', ys) && Files(out') == Files(out) + if xs[0].number in dropped then {} else {xs[0]}
  {
    hide Before;
    assert forall k :: 0 <= k < |xs| - 1 ==> xs[1..][k] == xs[k + 1];
    assert [xs[0]][0] == xs[0];
  }

  lemma OrderedSuffix(fs: seq<FileMeta>, i: nat)
    requires Ordered(fs) && i <= |fs|
    ensures Ordered(fs[i..])
  {
    hide Before;
    assert forall k :: 0 <= k < |fs| - i ==> fs[i..][k] == fs[i + k];
  }

  /** A file before the first of an ordered list is before all of it. */
  lemma BeforeAll(f: FileMeta, fs: seq<FileMeta>)
    requires Ordered(fs) && (|fs| > 0 ==> Before(f, fs[0]))
    ensures AllBefore([f], fs)
  {
    hide KeyLess;
    forall j | 0 <= j < |fs| ensures Before(f, fs[j]) {
      if j > 0 {
        BeforeTransitive(f, fs[0], fs[j]);
      }
    }
  }

  lemma MergeBase(out: seq<FileMeta>, base: seq<FileMeta>, i: nat, added: seq<FileMeta>, j: nat, dropped: set<uint64>)
    requires Merged(out, base, i, added, j, dropped) && Ordered(base) && Ordered(added) && i < |base|
    requires j < |added| ==> Before(base[i], added[j])
    ensures Merged(MaybeAdd(out, base[i], dropped), base, i + 1, added, j, dropped)
  {
    hide Before, Kept, Files, MaybeAdd;
    OrderedSuffix(base, i);
    OrderedSuffix(added, j);
    BeforeAll(base[i], added[j..]);
    TakeFirst(out, base[i..], added[j..], dropped);
    KeptMore(base, i, dropped);
    assert base[i..][1..] == base[i + 1..];
  }

  lemma MergeAdded(out: seq<FileMeta>, base: seq<FileMeta>, i: nat, added: seq<FileMeta>, j: nat, dropped: set<uint64>)
    requires Merged(out, base, i, added, j, dropped) && Ordered(base) && Ordered(added) && j < |added|
    requires i < |base| ==> Before(added[j], base[i])
    ensures Merged(MaybeAdd(out, added[j], dropped), base, i, added, j + 1, dropped)
  {
    hide Before, Kept, Files, MaybeAdd;
    OrderedSuffix(base, i);
    OrderedSuffix(added, j);
    BeforeAll(added[j], base[i..]);
    TakeFirst(out, added[j..], base[i..], dropped);
    KeptMore(added, j, dropped);
    assert added[j..][1..] == added[j + 1..];
  }

  ghost predicate Mergeable(base: seq<FileMeta>, added: seq<FileMeta>) {
    Ordered(base) && Ordered(added) && Apart(base, added)
  }

  /** Merge the base files of a level with the files to add, and drop the deleted ones. */
  method SaveLevel(base: seq<FileMeta>, added: seq<FileMeta>, dropped: set<uint64>) returns (out: seq<FileMeta>)
    ensures Files(out) == Saved(Files(base), Pending(dropped, Files(added))) && (Mergeable(base, added) ==> Ordered(out))
  {
    hide Merged, Ordered, Before, MaybeAdd, Kept, Files;
    ghost var good := Mergeable(base, added);
    out := [];
    NothingMerged(base, added, dropped);
    var i, j := 0, 0;
    while j < |added|
      invariant Taken(out, base, i, added, j, dropped) && (good ==> Merged(out, base, i, added, j, dropped))
    {
      while i < |base| && !Before(added[j], base[i])
        invariant Taken(out, base, i, added, j, dropped) && (good ==> Merged(out, base, i, added, j, dropped))
      {
        TakeMore(out, base, i, dropped);
        if good {
          assert base[i] in base && added[j] in added;
          BeforeTotal(added[j], base[i]);
          MergeBase(out, base, i, added, j, dropped);
        }
        out := MaybeAdd(out, base[i], dropped);
        i := i + 1;
      }
      TakeMore(out, added, j, dropped);
      if good {
        MergeAdded(out, base, i, added, j, dropped);
      }
      out := MaybeAdd(out, added[j], dropped);
      j := j + 1;
    }
    while i < |base|
      invariant Taken(out, base, i, added, j, dropped) && (good ==> Merged(out, base, i, added, j, dropped))
    {
      TakeMore(out, base, i, dropped);
      if good {
        MergeBase(out, base, i, added, j, dropped);
      }
      out := MaybeAdd(out, base[i], dropped);
      i := i + 1;
    }
    AllTaken(out, base, added, dropped);
    if good {
      AllMerged(out, base, added, dropped);
    }
  }

  /** out holds what is kept of the first i base files and the first j added files. */
  ghost predicate Taken(out: seq<FileMeta>, base: seq<FileMeta>, i: nat, added: seq<FileMeta>, j: nat, dropped: set<uint64>) {
    i <= |base| && j <= |added| && Files(out) == Kept(base[..i], dropped) + Kept(added[..j], dropped)
  }

  lemma TakeMore(out: seq<FileMeta>, fs: seq<FileMeta>, i: nat, dropped: set<uint64>)
    requires i < |fs|
    ensures Files(MaybeAdd(out, fs[i], dropped)) == Files(out) + if fs[i].number in dropped then {} else {fs[i]}
    ensures Kept(fs[..i + 1], dropped) == Kept(fs[..i], dropped) + if fs[i].number in dropped then {} else {fs[i]}
  {
    KeptMore(fs, i, dropped);
    assert Files(out + [fs[i]]) == Files(out) + {fs[i]};
  }

  lemma AllTaken(out: seq<FileMeta>, base: seq<FileMeta>, added: seq<FileMeta>, dropped: set<uint64>)
    requires Taken(out, base, |base|, added, |added|, dropped)
    ensures Files(out) == Saved(Files(base), Pending(dropped, Files(added)))
  {
    assert base[..|base|] == base && added[..|added|] == added;
  }

  /** Base files and files to add of a level have different numbers. */
  lemma LevelApart(base: Version, es: seq<Edit>, l: Level, added: seq<FileMeta>)
    requires Once(base, es) && Files(added) == ApplyAll(Pending({}, {}), ChangesOf(es, l)).added
    ensures Apart(base[l], added) && AddedOnce(Files(base[l]), ChangesOf(es, l))
  {
    var cs := ChangesOf(es, l);
    assert AddedOnce(Files(base[l]), cs);
    forall f, g | f in base[l] && g in added ensures f.number != g.number {
      assert f in Files(base[l]) && g in Files(added);
      var i := AddedBy(cs, g);
      assert g in cs[i].added && f in Files(base[l]) + ApplyAll(Pending({}, {}), cs[..i]).added;
    }
  }

  /** The change that brought a file. */
  lemma {:induction false} AddedBy(cs: seq<Change>, g: FileMeta) returns (i: nat)
    requires g in ApplyAll(Pending({}, {}), cs).added
    ensures i < |cs| && g in cs[i].added
    decreases |cs|
  {
    var n := |cs| - 1;
    if g in cs[n].added {
      i := n;
    } else {
      i := AddedBy(cs[..n], g);
    }
  }

  lemma NothingMerged(base: seq<FileMeta>, added: seq<FileMeta>, dropped: set<uint64>)
    ensures Merged([], base, 0, added, 0, dropped) && Taken([], base, 0, added, 0, dropped)
  {
  }

  lemma AllMerged(out: seq<FileMeta>, base: seq<FileMeta>, added: seq<FileMeta>, dropped: set<uint64>)
    requires Merged(out, base, |base|, added, |added|, dropped)
    ensures Ordered(out)
  {
  }

  lemma NoneDeleted()
    ensures forall l: Level :: DeletedAt([], l) == {}
  {
  }

  lemma NoneAdded()
    ensures forall l: Level :: AddedAt([], l) == {} && NumbersOf(AddedAt([], l)) == {}
  {
    assert forall l: Level :: AddedAt([], l) == {};
  }

  lemma DeletedMore(ds: seq<Deletion>, i: nat)
    requires i < |ds|
    ensures forall l: Level :: DeletedAt(ds[..i + 1], l) == DeletedAt(ds[..i], l) + if ds[i].level == l then {ds[i].number} else {}
  {
    assert ds[..i + 1] == ds[..i] + [ds[i]];
  }

  lemma AddedMore(xs: seq<Addition>, i: nat)
    requires i < |xs|
    ensures forall l: Level :: AddedAt(xs[..i + 1], l) == AddedAt(xs[..i], l) + if xs[i].level == l then {xs[i].file} else {}
    ensures forall l: Level :: NumbersOf(AddedAt(xs[..i + 1], l)) == NumbersOf(AddedAt(xs[..i], l)) + if xs[i].level == l then {xs[i].file.number} else {}
  {
    assert xs[..i + 1] == xs[..i] + [xs[i]];
  }

  lemma EditsMore(es: seq<Edit>, e: Edit, l: Level)
    ensures ApplyAll(Pending({}, {}), ChangesOf(es + [e], l)) == ApplyChange(ApplyAll(Pending({}, {}), ChangesOf(es, l)), ChangeOf(e, l))
  {
    assert ChangesOf(es + [e], l)[..|es|] == ChangesOf(es, l);
  }

  // ---------------------------------------------------------------------------------------
  // Reading a manifest

  const EMPTY: Version := [[], [], [], [], [], [], []]

  /** The edits of all records, None when one does not decode. */
  function DecodeAll(rs: seq<Bytes>): (r: Option<seq<Edit>>) {
    if |rs| == 0 then Some([])
    else
      var init, last := DecodeAll(rs[..|rs| - 1]), DecodeEdit(rs[|rs| - 1]);
      if init.Some? && last.Some? then Some(init.value + [last.value]) else None
  }

  predicate NameOk(e: Edit, name: Bytes) {
    e.comparator.Some? ==> e.comparator.value == name
  }

  predicate NamesOk(es: seq<Edit>, name: Bytes) {
    forall i :: 0 <= i < |es| ==> NameOk(es[i], name)
  }

  datatype Counters = Counters(log: Option<uint64>, prevLog: Option<uint64>, nextFile: Option<uint64>, lastSequence: Option<uint64>)

  function Later(n: Option<uint64>, m: Option<uint64>): (r: Option<uint64>) {
    if m.Some? then m else n
  }

  /** The last value given for each counter. */
  function CountersOf(es: seq<Edit>): (c: Counters) {
    if |es| == 0 then Counters(None, None, None, None)
    else
      var c, e := CountersOf(es[..|es| - 1]), es[|es| - 1];
      Counters(Later(c.log, e.logNumber), Later(c.prevLog, e.prevLogNumber), Later(c.nextFile, e.nextFile), Later(c.lastSequence, e.lastSequence))
  }

  predicate Readable(o: Outcome, name: Bytes) {
    o.clean && DecodeAll(o.records).Some? && NamesOk(DecodeAll(o.records).value, name)
  }

  datatype Recovered = Recovered(version: Version, log: uint64, prevLog: uint64, manifestFile: uint64, nextFile: nat, lastSequence: uint64)

  /** The version is the one that installing the edits es one at a time from an empty version gives. */
  ghost predicate Installed(v: Version, es: seq<Edit>) {
    forall l: Level :: Ordered(v[l]) && Files(v[l]) == Install({}, ChangesOf(es, l))
  }

  /** VersionSet::Recover on a manifest of any bytes; None is an error status. */
  method Recover(codec: Codec, file: Bytes, name: Bytes) returns (r: Option<Recovered>)
    ensures var o := ReadAll(codec, file, 0, None);
            && (r.Some? ==> Readable(o, name))
            && (Readable(o, name) ==>
                  var es := DecodeAll(o.records).value;
                  var c := CountersOf(es);
                  && (r.Some? <==> c.nextFile.Some? && c.log.Some? && c.lastSequence.Some?)
                  && (r.Some? ==>
                        && r.value.log == c.log.value && r.value.lastSequence == c.lastSequence.value
                        && r.value.prevLog == NumberOf(c.prevLog)
                        && r.value.manifestFile == c.nextFile.value && r.value.nextFile == c.nextFile.value + 1
                        && (forall l: Level :: Files(r.value.version[l]) == Install({}, ChangesOf(es, l)) <==> Clear({}, ChangesOf(es, l)))
                        && (Once(EMPTY, es) ==> Installed(r.value.version, es))))
  {
    hide ReadAll, BlockEnd, DecodeEdit, NamesOk, CountersOf, Once, Install, DecodeAll, Readable, Clear;
    ghost var o := ReadAll(codec, file, 0, None);
    var reader := new Reader(codec, file);
    var builder := new Builder(EMPTY);
    var ok, c := true, Counters(None, None, None, None);
    ghost var done: seq<Bytes> := [];
    StartReading(o, name);
    while true
      invariant reader.Valid() && fresh(reader) && reader.codec == codec && reader.file == file
      invariant builder.Valid() && fresh(builder) && builder.base == EMPTY
      invariant Reading(o, done, ReadAll(codec, file, reader.Pos(), None), builder.edits, c, name, ok)
      decreases |file| - reader.Pos()
    {
      ghost var rest, before := ReadAll(codec, file, reader.Pos(), None), ok;
      var record, dropped := reader.ReadRecord();
      if dropped {
        ok := false;
      }
      if record.None? || !ok {
        if record.None? {
          StopReading(o, done, rest, builder.edits, c, name, before, dropped);
        } else {
          BreakReading(o, done, rest, builder.edits, c, name, before, dropped);
        }
        break;
      }
      var e := DecodeFrom(record.value);
      ghost var rest' := ReadAll(codec, file, reader.Pos(), None);
      if e.None? || (e.value.comparator.Some? && e.value.comparator.value != name) {
        ok := false;
        BadRecord(o, done, rest, builder.edits, c, name, record.value, rest');
      } else {
        GoodRecord(o, done, rest, builder.edits, c, name, record.value, e.value, rest');
        builder.Apply(e.value);
        c := Counters(Later(c.log, e.value.logNumber), Later(c.prevLog, e.value.prevLogNumber), Later(c.nextFile, e.value.nextFile), Later(c.lastSequence, e.value.lastSequence));
        done := done + [record.value];
      }
    }
    if !ok || c.nextFile.None? || c.log.None? || c.lastSequence.None? {
      return None;
    }
    EmptyVersion();
    var v := builder.SaveTo();
    return Some(Recovered(v, c.log.value, NumberOf(c.prevLog), c.nextFile.value, c.nextFile.value + 1, c.lastSequence.value));
  }

  lemma EmptyVersion()
    ensures forall l: Level :: Ordered(EMPTY[l]) && Files(EMPTY[l]) == {}
  {
    forall l: Level ensures EMPTY[l] == [] {
    }
    NoFiles([]);
  }

  /** The loop state of Recover: done has been applied and rest is still to be read; an error is an error of o. */
  ghost predicate Reading(o: Outcome, done: seq<Bytes>, rest: Outcome, es: seq<Edit>, c: Counters, name: Bytes, ok: bool) {
    if ok then
      && o.records == done + rest.records && o.clean == rest.clean
      && DecodeAll(done) == Some(es) && NamesOk(es, name) && c == CountersOf(es)
    else !Readable(o, name)
  }

  lemma StartReading(o: Outcome, name: Bytes)
    ensures Reading(o, [], o, [], Counters(None, None, None, None), name, true)
  {
    assert [] + o.records == o.records;
  }

  lemma StopReading(o: Outcome, done: seq<Bytes>, rest: Outcome, es: seq<Edit>, c: Counters, name: Bytes, ok: bool, dropped: bool)
    requires Reading(o, done, rest, es, c, name, ok) && rest == Outcome([], !dropped)
    ensures if ok && !dropped then Readable(o, name) && DecodeAll(o.records) == Some(es) && c == CountersOf(es) else !Readable(o, name)
  {
    hide DecodeAll, NamesOk, CountersOf;
    if ok {
      assert o.records == done;
    }
  }

  lemma BreakReading(o: Outcome, done: seq<Bytes>, rest: Outcome, es: seq<Edit>, c: Counters, name: Bytes, ok: bool, dropped: bool)
    requires Reading(o, done, rest, es, c, name, ok) && (dropped ==> !rest.clean) && (!ok || dropped)
    ensures !Readable(o, name)
  {
    hide DecodeAll, NamesOk, CountersOf;
  }

  lemma {:induction false} DecodePrefix(rs: seq<Bytes>, n: nat)
    requires n <= |rs| && DecodeAll(rs).Some?
    ensures |DecodeAll(rs).value| == |rs|
    ensures DecodeAll(rs[..n]).Some? && DecodeAll(rs[..n]).value == DecodeAll(rs).value[..n]
    decreases |rs|
  {
    hide DecodeEdit;
    if |rs| > 0 {
      var m := |rs| - 1;
      DecodePrefix(rs[..m], if n <= m then n else m);
      assert n <= m ==> rs[..m][..n] == rs[..n];
      assert n == |rs| ==> rs[..n] == rs;
    }
  }

  lemma GoodRecord(o: Outcome, done: seq<Bytes>, rest: Outcome, es: seq<Edit>, c: Counters, name: Bytes, r: Bytes, e: Edit, rest': Outcome)
    requires Reading(o, done, rest, es, c, name, true) && rest == Deliver(r, Drops(false, rest')) && DecodeEdit(r) == Some(e) && NameOk(e, name)
    ensures var c' := Counters(Later(c.log, e.logNumber), Later(c.prevLog, e.prevLogNumber), Later(c.nextFile, e.nextFile), Later(c.lastSequence, e.lastSequence));
            Reading(o, done + [r], rest', es + [e], c', name, true)
  {
    hide DecodeEdit, Later;
    assert done + ([r] + rest'.records) == done + [r] + rest'.records;
    assert (done + [r])[..|done|] == done && (es + [e])[..|es|] == es;
  }

  lemma BadRecord(o: Outcome, done: seq<Bytes>, rest: Outcome, es: seq<Edit>, c: Counters, name: Bytes, r: Bytes, rest': Outcome)
    requires Reading(o, done, rest, es, c, name, true) && rest == Deliver(r, Drops(false, rest'))
    requires DecodeEdit(r).None? || !NameOk(DecodeEdit(r).value, name)
    ensures !Readable(o, name)
  {
    hide DecodeEdit, CountersOf, NameOk;
    if DecodeAll(o.records).Some? {
      var n := |done|;
      assert o.records[..n + 1] == done + [r];
      DecodePrefix(o.records, n + 1);
      assert o.records[..n + 1][..n] == done;
      var all := DecodeAll(o.records).value;
      assert all[..n + 1][n] == all[n];
    }
  }
}
