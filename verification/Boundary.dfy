/**
 * What a compaction does when a user key straddles the boundary of its inputs.
 *
 * VersionSet::SetupOtherInputs (db/version_set.cc) does not pull in the neighbouring file of an
 * input when both hold entries of one user key.  Reads are then not always preserved.  This module
 * gives the exact condition, for every read, and a store on which a read changes.
 */
module Boundary {
  import opened Basics
  import opened Entries
  import opened Levels
  import opened Overlap
  import opened Compaction
  import opened Install
  import opened Store
  import opened Machine

  // ---------------------------------------------------------------------------------------
  // First hit over layers

  /** r is the newest visible entry of the first layer that has one. */
  ghost predicate IsFirstHit(layers: seq<set<Entry>>, k: UserKey, s: Sequence, r: Option<Entry>) {
    match r
    case None => forall i :: 0 <= i < |layers| ==> IsNewest(layers[i], k, s, None)
    case Some(n) => exists i :: HitAt(layers, i, k, s, n)
  }

  ghost predicate HitAt(layers: seq<set<Entry>>, i: int, k: UserKey, s: Sequence, n: Entry) {
    0 <= i < |layers| && IsNewest(layers[i], k, s, Some(n)) && forall j :: 0 <= j < i ==> IsNewest(layers[j], k, s, None)
  }

  lemma HitFirst(layers: seq<set<Entry>>, l: set<Entry>, k: UserKey, s: Sequence, n: Entry)
    requires IsNewest(l, k, s, Some(n))
    ensures IsFirstHit([l] + layers, k, s, Some(n))
  {
    assert HitAt([l] + layers, 0, k, s, n);
  }

  lemma HitLater(layers: seq<set<Entry>>, l: set<Entry>, k: UserKey, s: Sequence, r: Option<Entry>)
    requires IsNewest(l, k, s, None) && IsFirstHit(layers, k, s, r)
    ensures IsFirstHit([l] + layers, k, s, r)
  {
    if r.Some? {
      var i :| HitAt(layers, i, k, s, r.value);
      forall j | 0 <= j < i + 1 ensures IsNewest(([l] + layers)[j], k, s, None) {
        assert j > 0 ==> ([l] + layers)[j] == layers[j - 1];
      }
      assert HitAt([l] + layers, i + 1, k, s, r.value);
    }
  }

  lemma HitStep(layers: seq<set<Entry>>, l: set<Entry>, k: UserKey, s: Sequence, here: Option<Entry>, later: Option<Entry>)
    requires IsNewest(l, k, s, here) && IsFirstHit(layers, k, s, later)
    ensures IsFirstHit([l] + layers, k, s, if here.Some? then here else later)
  {
    if here.Some? {
      HitFirst(layers, l, k, s, here.value);
    } else {
      HitLater(layers, l, k, s, later);
    }
  }

  /** What the lookup needs of a store: sorted tables and sound levels, but no order between levels. */
  ghost predicate Readable(d: Db) {
    Sorted(d.mem) && Sorted(ImmEntries(d)) && Sound(d.levels) && NumberedByAge(d.levels[0])
  }

  ghost function Layers(d: Db): seq<set<Entry>> {
    [Contents(d.mem)] + ([Contents(ImmEntries(d))] + ContentsOf(d.levels))
  }

  lemma HitNone(k: UserKey, s: Sequence)
    ensures IsFirstHit([], k, s, None)
  {
  }

  lemma {:induction false} VersionGetIsFirstHit(levels: seq<seq<File>>, lv: nat, k: UserKey, s: Sequence)
    requires Sound(levels) && NumberedByAge(levels[0]) && lv <= NUM_LEVELS
    ensures IsFirstHit(ContentsOf(levels)[lv..], k, s, VersionGetFrom(levels, lv, k, s))
    decreases NUM_LEVELS - lv
  {
    hide IsFirstHit, IsNewest, Level0Get, LevelGet, SortedLevel, FilesOk;
    if lv == NUM_LEVELS {
      HitNone(k, s);
      assert ContentsOf(levels)[lv..] == [];
    } else {
      var here := if lv == 0 then Level0Get(levels[0], k, s) else LevelGet(levels[lv], k, s);
      var cs := ContentsOf(levels);
      assert IsNewest(cs[lv], k, s, here) by {
        if lv == 0 {
          Level0GetIsNewest(levels[0], k, s);
        } else {
          LevelGetIsNewest(levels[lv], k, s);
        }
      }
      VersionGetIsFirstHit(levels, lv + 1, k, s);
      HitStep(cs[lv + 1..], cs[lv], k, s, here, VersionGetFrom(levels, lv + 1, k, s));
      assert [cs[lv]] + cs[lv + 1..] == cs[lv..];
    }
  }

  lemma GetIsFirstHit(d: Db, k: UserKey, s: Sequence)
    requires Readable(d)
    ensures IsFirstHit(Layers(d), k, s, Get(d, k, s))
  {
    var inMem, inImm, inLevels := TableGet(d.mem, k, s), TableGet(ImmEntries(d), k, s), VersionGetFrom(d.levels, 0, k, s);
    VersionGetIsFirstHit(d.levels, 0, k, s);
    assert ContentsOf(d.levels)[0..] == ContentsOf(d.levels);
    TableGetIsNewest(ImmEntries(d), k, s);
    HitStep(ContentsOf(d.levels), Contents(ImmEntries(d)), k, s, inImm, inLevels);
    TableGetIsNewest(d.mem, k, s);
    HitStep([Contents(ImmEntries(d))] + ContentsOf(d.levels), Contents(d.mem), k, s, inMem,
            if inImm.Some? then inImm else inLevels);
  }

  // ---------------------------------------------------------------------------------------
  // The exact condition, on layers

  /** The two layers a compaction rewrites: what is taken from each, what is left, what is made. */
  datatype Cut = Cut(i0: set<Entry>, rest0: set<Entry>, i1: set<Entry>, rest1: set<Entry>, made: set<Entry>)

  ghost predicate CutOf(layers: seq<set<Entry>>, i: nat, c: Cut) {
    && i + 1 < |layers| && layers[i] == c.i0 + c.rest0 && layers[i + 1] == c.i1 + c.rest1
    && c.made <= c.i0 + c.i1
    && NoSharedUser(c.i0, c.rest1)
  }

  ghost function After(layers: seq<set<Entry>>, i: nat, c: Cut): seq<set<Entry>>
    requires i + 1 < |layers|
  {
    layers[i := c.rest0][i + 1 := c.rest1 + c.made]
  }

  /** How the compaction treats n, the entry that a reader of k at s sees. */
  ghost predicate Treated(layers: seq<set<Entry>>, i: nat, c: Cut, k: UserKey, s: Sequence, n: Entry, lost: bool)
    requires i + 1 < |layers|
  {
    && (!lost ==> n in c.made)
    && (lost ==> n.op.Delete? && IsNewest(c.made, k, s, None) && forall j :: i + 1 < j < |layers| ==> IsNewest(layers[j], k, s, None))
  }

  /** b is an older entry of k left behind where n was taken, and it tells a client something else. */
  ghost predicate LeftBehind(rest: set<Entry>, k: UserKey, s: Sequence, n: Entry, b: Entry) {
    IsNewest(rest, k, s, Some(b)) && Visible(Some(b)) != Visible(Some(n))
  }

  /** n is taken from the upper layer, or lost from the lower one, while something else of its key stays there. */
  ghost predicate Straddles(i0: set<Entry>, rest0: set<Entry>, i1: set<Entry>, rest1: set<Entry>,
                            k: UserKey, s: Sequence, n: Entry, lost: bool)
  {
    || (n in i0 && exists b :: LeftBehind(rest0, k, s, n, b))
    || (n !in i0 && n in i1 && lost && exists b :: LeftBehind(rest1, k, s, n, b))
  }

  ghost predicate AllByAge(layers: seq<set<Entry>>, h: seq<Entry>) {
    && ByAge(layers)
    && forall i :: 0 <= i < |layers| ==> FromHistory(layers[i], h)
  }

  lemma {:induction false} NewestExists(p: set<Entry>, k: UserKey, s: Sequence) returns (r: Option<Entry>)
    ensures IsNewest(p, k, s, r)
    decreases |p|
  {
    if p == {} {
      r := None;
    } else {
      var e :| e in p;
      var q := p - {e};
      var r0 := NewestExists(q, k, s);
      assert forall x :: x in p <==> x in q || x == e;
      r := if Sees(e, k, s) && (r0.None? || r0.value.key.sn <= e.key.sn) then Some(e) else r0;
    }
  }

  lemma FirstHitUnique(layers: seq<set<Entry>>, h: seq<Entry>, k: UserKey, s: Sequence, r: Option<Entry>, r': Option<Entry>)
    requires forall i :: 0 <= i < |layers| ==> FromHistory(layers[i], h)
    requires IsFirstHit(layers, k, s, r) && IsFirstHit(layers, k, s, r')
    ensures r == r'
  {
    if r.Some? && r'.Some? {
      var i :| HitAt(layers, i, k, s, r.value);
      var j :| HitAt(layers, j, k, s, r'.value);
      assert i == j;
      NewestUnique(layers[i], h, k, s, r, r');
    }
  }

  lemma HitWhere(layers: seq<set<Entry>>, k: UserKey, s: Sequence, n: Entry, i: nat)
    requires ByAge(layers) && IsFirstHit(layers, k, s, Some(n)) && i < |layers| && n in layers[i]
    ensures HitAt(layers, i, k, s, n)
  {
    var j :| HitAt(layers, j, k, s, n);
    assert i == j;
  }

  lemma AfterFromHistory(layers: seq<set<Entry>>, h: seq<Entry>, i: nat, c: Cut)
    requires AllByAge(layers, h) && CutOf(layers, i, c)
    ensures forall j :: 0 <= j < |layers| ==> FromHistory(After(layers, i, c)[j], h)
  {
    assert FromHistory(layers[i], h) && FromHistory(layers[i + 1], h);
  }

  /** Nothing the reader sees was taken: the read is unchanged. */
  lemma Untouched(layers: seq<set<Entry>>, h: seq<Entry>, i: nat, c: Cut, k: UserKey, s: Sequence, r: Option<Entry>)
    requires AllByAge(layers, h) && CutOf(layers, i, c) && IsFirstHit(layers, k, s, r)
    requires r.Some? ==> r.value !in c.i0 && r.value !in c.i1
    ensures IsFirstHit(After(layers, i, c), k, s, r)
  {
    var layers' := After(layers, i, c);
    if r.None? {
      assert IsNewest(layers[i], k, s, None) && IsNewest(layers[i + 1], k, s, None);
    } else {
      var j :| HitAt(layers, j, k, s, r.value);
      forall l | 0 <= l < j ensures IsNewest(layers'[l], k, s, None) {
        assert IsNewest(layers[l], k, s, None);
        if l == i + 1 {
          assert IsNewest(layers[i], k, s, None);
        }
      }
      assert IsNewest(layers'[j], k, s, r) by {
        if j == i + 1 {
          assert IsNewest(layers[i], k, s, None);
        }
      }
      assert HitAt(layers', j, k, s, r.value);
    }
  }

  /** What the reader sees was taken from the upper layer. */
  lemma Taken0(layers: seq<set<Entry>>, h: seq<Entry>, i: nat, c: Cut, k: UserKey, s: Sequence, n: Entry, lost: bool, b: Option<Entry>)
    requires AllByAge(layers, h) && CutOf(layers, i, c) && IsFirstHit(layers, k, s, Some(n))
    requires n in c.i0 && Treated(layers, i, c, k, s, n, lost) && IsNewest(c.rest0, k, s, b)
    ensures IsFirstHit(After(layers, i, c), k, s, if b.Some? then b else if lost then None else Some(n))
  {
    hide FromHistory;
    var layers' := After(layers, i, c);
    HitWhere(layers, k, s, n, i);
    assert forall j :: 0 <= j < i ==> layers'[j] == layers[j];
    if b.Some? {
      assert HitAt(layers', i, k, s, b.value);
    } else if !lost {
      forall e | e in layers'[i + 1] && Sees(e, k, s) ensures e.key.sn <= n.key.sn {
        assert e in layers[i] || e in layers[i + 1];
        assert Above(layers[i], layers[i + 1]);
      }
      assert HitAt(layers', i + 1, k, s, n);
    }
  }

  /** What the reader sees was taken from the lower layer. */
  lemma Taken1(layers: seq<set<Entry>>, h: seq<Entry>, i: nat, c: Cut, k: UserKey, s: Sequence, n: Entry, lost: bool, b: Option<Entry>)
    requires AllByAge(layers, h) && CutOf(layers, i, c) && IsFirstHit(layers, k, s, Some(n))
    requires n !in c.i0 && n in c.i1 && Treated(layers, i, c, k, s, n, lost) && IsNewest(c.rest1, k, s, b)
    ensures IsFirstHit(After(layers, i, c), k, s, if !lost then Some(n) else b)
  {
    var layers' := After(layers, i, c);
    HitWhere(layers, k, s, n, i + 1);
    assert IsNewest(layers[i], k, s, None);
    assert forall j :: 0 <= j < i ==> layers'[j] == layers[j];
    if !lost {
      assert HitAt(layers', i + 1, k, s, n);
    } else if b.Some? {
      assert HitAt(layers', i + 1, k, s, b.value);
    }
  }

  /** For every read: the compaction preserves it if and only if no entry straddles under it. */
  lemma ExactOnLayers(layers: seq<set<Entry>>, h: seq<Entry>, i: nat, c: Cut, k: UserKey, s: Sequence, lost: bool,
                      r: Option<Entry>, r': Option<Entry>)
    requires AllByAge(layers, h) && CutOf(layers, i, c)
    requires IsFirstHit(layers, k, s, r) && IsFirstHit(After(layers, i, c), k, s, r')
    requires r.Some? && r.value in c.i0 + c.i1 ==> Treated(layers, i, c, k, s, r.value, lost)
    ensures Visible(r') == Visible(r) <==> (r.Some? ==> !Straddles(c.i0, c.rest0, c.i1, c.rest1, k, s, r.value, lost))
  {
    AfterFromHistory(layers, h, i, c);
    if r.None? || r.value !in c.i0 + c.i1 {
      Untouched(layers, h, i, c, k, s, r);
      FirstHitUnique(After(layers, i, c), h, k, s, r, r');
    } else if r.value in c.i0 {
      var b := NewestExists(c.rest0, k, s);
      Taken0(layers, h, i, c, k, s, r.value, lost, b);
      FirstHitUnique(After(layers, i, c), h, k, s, r', if b.Some? then b else if lost then None else r);
      OnlyNewest(c.rest0, layers[i], h, k, s, r.value, b);
    } else {
      var b := NewestExists(c.rest1, k, s);
      Taken1(layers, h, i, c, k, s, r.value, lost, b);
      FirstHitUnique(After(layers, i, c), h, k, s, r', if !lost then r else b);
      OnlyNewest(c.rest1, layers[i + 1], h, k, s, r.value, b);
    }
  }

  lemma OnlyNewest(rest: set<Entry>, all: set<Entry>, h: seq<Entry>, k: UserKey, s: Sequence, n: Entry, b: Option<Entry>)
    requires rest <= all && FromHistory(all, h) && IsNewest(rest, k, s, b)
    ensures (exists x :: LeftBehind(rest, k, s, n, x)) <==> b.Some? && Visible(b) != Visible(Some(n))
  {
    if b.Some? && Visible(b) != Visible(Some(n)) {
      assert LeftBehind(rest, k, s, n, b.value);
    }
    forall x | LeftBehind(rest, k, s, n, x) ensures b == Some(x) {
      assert FromHistory(rest, h);
      NewestUnique(rest, h, k, s, b, Some(x));
    }
  }

  // ---------------------------------------------------------------------------------------
  // The exact condition, on the store

  /** On the store before the compaction: the entry a reader sees is taken away while an older one stays. */
  ghost predicate StraddlesAt(d: Db, level: nat, in0: set<File>, in1: set<File>, k: UserKey, s: Sequence)
    requires level + 1 < |d.levels| && Oldest(d) <= MAX_SEQUENCE
  {
    var r := Get(d, k, s);
    r.Some? && Straddles(FileContents(in0), LevelContents(Without(d.levels[level], in0)),
                         FileContents(in1), LevelContents(Without(d.levels[level + 1], in1)),
                         k, s, r.value, Obsolete(r.value, Oldest(d), BaseOf(d.levels, level)))
  }

  ghost function CutFor(d: Db, level: nat, in0: set<File>, in1: set<File>, out: seq<File>): Cut
    requires level + 1 < |d.levels|
  {
    Cut(FileContents(in0), LevelContents(Without(d.levels[level], in0)),
        FileContents(in1), LevelContents(Without(d.levels[level + 1], in1)), LevelContents(out))
  }

  lemma StackByAge(a: set<Entry>, b: set<Entry>, cs: seq<set<Entry>>, h: seq<Entry>)
    requires ByAge(cs) && FromHistory(a + b + Union(cs, 0), h)
    requires Newer(a, b) && Newer(a + b, Union(cs, 0))
    ensures AllByAge([a] + ([b] + cs), h)
  {
    var layers := [a] + ([b] + cs);
    forall l | 2 <= l < |layers| ensures layers[l] == cs[l - 2] && layers[l] <= Union(cs, 0) {
    }
    forall l, l' | 0 <= l < l' < |layers| ensures Above(layers[l], layers[l']) {
      if 2 <= l {
        assert Above(cs[l - 2], cs[l' - 2]);
      }
    }
  }

  lemma ShapeLayers(d: Db)
    requires Shape(d)
    ensures AllByAge(Layers(d), d.history) && Readable(d)
  {
    StackByAge(Contents(d.mem), Contents(ImmEntries(d)), ContentsOf(d.levels), d.history);
  }

  lemma LayersCut(a: set<Entry>, b: set<Entry>, cs: seq<set<Entry>>, i: nat, c: Cut)
    requires i + 1 < |cs| && CutOf(cs, i, c)
    ensures CutOf([a] + ([b] + cs), i + 2, c)
    ensures [a] + ([b] + After(cs, i, c)) == After([a] + ([b] + cs), i + 2, c)
  {
  }

  /** What a compaction and a trivial move have in common. */
  ghost predicate Rewrites(d: Db, d': Db, level: nat, in0: set<File>, in1: set<File>, out: seq<File>)
    requires |d.levels| == NUM_LEVELS
  {
    && level + 1 < NUM_LEVELS && CompactionInputs(d.levels, level, in0, in1)
    && FilesOk(out) && SortedLevel(out) && LevelContents(out) <= FileContents(in0 + in1)
    && d.nextFile <= d'.nextFile && d' == d.(levels := Rewritten(d.levels, level, in0, in1, out), nextFile := d'.nextFile)
  }

  lemma RanRewrites(d: Db, d': Db, level: nat, in0: set<File>, in1: set<File>, m: seq<Entry>, out: seq<File>)
    requires |d.levels| == NUM_LEVELS && Oldest(d) <= MAX_SEQUENCE && Ran(d, d', level, in0, in1, m, out)
    ensures Rewrites(d, d', level, in0, in1, out)
  {
    RanOutputs(d, d', level, in0, in1, m, out);
  }

  lemma MoveRewrites(d: Db, d': Db, level: nat, f: File)
    requires |d.levels| == NUM_LEVELS && Relocated(d, d', level, f) && FilesOk(d.levels[level])
    ensures Rewrites(d, d', level, {f}, {}, [f]) && LevelContents([f]) == FileContents({f})
  {
    var in1: set<File> := {};
    assert f in {f} && f in Elements(d.levels[level]);
    assert {f} + in1 == {f};
  }

  lemma RewriteReadable(d: Db, d': Db, level: nat, in0: set<File>, in1: set<File>, out: seq<File>)
    requires Readable(d) && Rewrites(d, d', level, in0, in1, out)
    ensures Readable(d')
  {
    assert Sound(d'.levels) by {
      DrawnFromContents(out, in0 + in1);
      RewriteKeepsSound(d.levels, level, in0, in1, out);
    }
    RewriteKeepsNumbers(d.levels, level, in0, in1, out);
  }

  lemma RewriteLayers(d: Db, d': Db, level: nat, in0: set<File>, in1: set<File>, out: seq<File>)
    requires Shape(d) && Rewrites(d, d', level, in0, in1, out)
    ensures CutOf(Layers(d), level + 2, CutFor(d, level, in0, in1, out))
    ensures Layers(d') == After(Layers(d), level + 2, CutFor(d, level, in0, in1, out))
    ensures FileContents(in0 + in1) == FileContents(in0) + FileContents(in1)
  {
    RestNotMet(d.levels, level, in0, in1);
    CutContents(d.levels, level, in0, in1, out);
    LayersCut(Contents(d.mem), Contents(ImmEntries(d)), ContentsOf(d.levels), level, CutFor(d, level, in0, in1, out));
  }

  lemma HitBefore(d: Db, k: UserKey, s: Sequence)
    requires Shape(d)
    ensures AllByAge(Layers(d), d.history) && IsFirstHit(Layers(d), k, s, Get(d, k, s))
  {
    ShapeLayers(d);
    GetIsFirstHit(d, k, s);
  }

  lemma HitAfter(d: Db, d': Db, level: nat, in0: set<File>, in1: set<File>, out: seq<File>, k: UserKey, s: Sequence)
    requires Shape(d) && Rewrites(d, d', level, in0, in1, out)
    ensures IsFirstHit(After(Layers(d), level + 2, CutFor(d, level, in0, in1, out)), k, s, Get(d', k, s))
  {
    assert Readable(d') by {
      ShapeLayers(d);
      RewriteReadable(d, d', level, in0, in1, out);
    }
    RewriteLayers(d, d', level, in0, in1, out);
    GetIsFirstHit(d', k, s);
  }

  lemma CutContents(levels: seq<seq<File>>, level: nat, in0: set<File>, in1: set<File>, out: seq<File>)
    requires level + 1 < |levels| && CompactionInputs(levels, level, in0, in1)
    ensures var rest0, rest1 := LevelContents(Without(levels[level], in0)), LevelContents(Without(levels[level + 1], in1));
            && LevelContents(levels[level]) == FileContents(in0) + rest0
            && LevelContents(levels[level + 1]) == FileContents(in1) + rest1
            && FileContents(in0 + in1) == FileContents(in0) + FileContents(in1)
            && ContentsOf(Rewritten(levels, level, in0, in1, out)) ==
               ContentsOf(levels)[level := rest0][level + 1 := rest1 + LevelContents(out)]
  {
    assert in1 <= Elements(levels[level + 1]);
    RewriteContents(levels, level, in0, in1, out);
  }

  /** The entry a reader sees is the newest of its key among the inputs, if it is one of them. */
  lemma SeenAmongInputs(d: Db, level: nat, in0: set<File>, in1: set<File>, m: seq<Entry>, k: UserKey, s: Sequence)
    requires Shape(d) && level + 1 < NUM_LEVELS && CompactionInputs(d.levels, level, in0, in1)
    requires Contents(m) == FileContents(in0 + in1)
    requires Get(d, k, s).Some? && Get(d, k, s).value in FileContents(in0 + in1)
    ensures var n := Get(d, k, s).value;
            n in m && Sees(n, k, s) && forall e :: e in m && Sees(e, k, s) ==> e.key.sn <= n.key.sn
  {
    GetIsNewest(d, k, s);
    assert in1 <= Elements(d.levels[level + 1]);
    InputsPresent(d.levels, level, in0, in1);
    assert forall e :: e in m <==> e in Contents(m);
  }

  lemma BaseBelow(d: Db, level: nat, k: UserKey, s: Sequence, j: nat)
    requires Sound(d.levels) && IsBase(d.levels, level, k) && level + 3 < j < |Layers(d)|
    ensures IsNewest(Layers(d)[j], k, s, None)
  {
    assert Layers(d)[j] == LevelContents(d.levels[j - 2]);
    forall e | e in Layers(d)[j] ensures !Sees(e, k, s) {
      if e.key.user == k {
        BaseExcludes(d.levels, level, j - 2, e);
      }
    }
  }

  lemma RanTreats(d: Db, d': Db, level: nat, in0: set<File>, in1: set<File>, m: seq<Entry>, out: seq<File>,
                  k: UserKey, s: Sequence)
    requires Shape(d) && Ran(d, d', level, in0, in1, m, out) && Oldest(d) <= s
    requires Get(d, k, s).Some? && Get(d, k, s).value in FileContents(in0 + in1)
    ensures Treated(Layers(d), level + 2, CutFor(d, level, in0, in1, out), k, s, Get(d, k, s).value,
                    Obsolete(Get(d, k, s).value, Oldest(d), BaseOf(d.levels, level)))
  {
    var n, oldest, base := Get(d, k, s).value, Oldest(d), BaseOf(d.levels, level);
    var kept := Kept(m, |m|, oldest, base);
    assert LevelContents(out) == Contents(kept) by { RanOutputs(d, d', level, in0, in1, m, out); }
    SeenAmongInputs(d, level, in0, in1, m, k, s);
    if Obsolete(n, oldest, base) {
      assert n !in kept by {
        KeptMembers(m, |m|, oldest, base);
      }
      DroppedNewest(m, oldest, base, n, s);
      forall j | level + 3 < j < |Layers(d)| ensures IsNewest(Layers(d)[j], k, s, None) {
        BaseBelow(d, level, k, s, j);
      }
    } else if n !in kept {
      DroppedNewest(m, oldest, base, n, s);
    }
  }

  /**
   * For every store, every compaction the code can run on it and every read that can still be issued:
   * the read is preserved if and only if nothing straddles under it.
   */
  lemma CompactionExact(d: Db, d': Db, level: nat, in0: set<File>, in1: set<File>, m: seq<Entry>, out: seq<File>,
                        k: UserKey, s: Sequence)
    requires Shape(d) && Ran(d, d', level, in0, in1, m, out) && Oldest(d) <= s
    ensures Visible(Get(d', k, s)) == Visible(Get(d, k, s)) <==> !StraddlesAt(d, level, in0, in1, k, s)
  {
    var c := CutFor(d, level, in0, in1, out);
    var lost := Get(d, k, s).Some? && Obsolete(Get(d, k, s).value, Oldest(d), BaseOf(d.levels, level));
    HitBefore(d, k, s);
    RanRewrites(d, d', level, in0, in1, m, out);
    HitAfter(d, d', level, in0, in1, out, k, s);
    RewriteLayers(d, d', level, in0, in1, out);
    if Get(d, k, s).Some? && Get(d, k, s).value in c.i0 + c.i1 {
      RanTreats(d, d', level, in0, in1, m, out, k, s);
    }
    ExactOnLayers(Layers(d), d.history, level + 2, c, k, s, lost, Get(d, k, s), Get(d', k, s));
  }

  /** The same for all reads at once: a compaction preserves the meaning of the store iff nothing straddles. */
  lemma CompactionPreservesIff(d: Db, d': Db, level: nat, in0: set<File>, in1: set<File>, m: seq<Entry>, out: seq<File>)
    requires Shape(d) && Ran(d, d', level, in0, in1, m, out)
    ensures (forall k, s: Sequence :: Oldest(d) <= s ==> Visible(Get(d', k, s)) == Visible(Get(d, k, s)))
            <==> (forall k, s: Sequence :: Oldest(d) <= s ==> !StraddlesAt(d, level, in0, in1, k, s))
  {
    forall k, s: Sequence | Oldest(d) <= s
      ensures Visible(Get(d', k, s)) == Visible(Get(d, k, s)) <==> !StraddlesAt(d, level, in0, in1, k, s)
    {
      CompactionExact(d, d', level, in0, in1, m, out, k, s);
    }
  }

  /** The entry a reader sees is in the file, and what its level keeps of the key says something else. */
  ghost predicate MoveStraddlesAt(d: Db, level: nat, f: File, k: UserKey, s: Sequence)
    requires level < |d.levels|
  {
    var r := Get(d, k, s);
    r.Some? && r.value in f.entries && exists b :: LeftBehind(LevelContents(Without(d.levels[level], {f})), k, s, r.value, b)
  }

  /** For every store, every trivial move and every read: the read is preserved if and only if nothing straddles under it. */
  lemma MoveExact(d: Db, d': Db, level: nat, f: File, k: UserKey, s: Sequence)
    requires Shape(d) && Relocated(d, d', level, f)
    ensures Visible(Get(d', k, s)) == Visible(Get(d, k, s)) <==> !MoveStraddlesAt(d, level, f, k, s)
  {
    hide Shape, Get, IsFirstHit, CutOf, After, AllByAge, LeftBehind, Rewrites;
    var in1: set<File> := {};
    LevelFilesOk(d, level);
    var c := CutFor(d, level, {f}, in1, [f]);
    MoveRewrites(d, d', level, f);
    HitBefore(d, k, s);
    HitAfter(d, d', level, {f}, in1, [f], k, s);
    RewriteLayers(d, d', level, {f}, in1, [f]);
    assert c.i0 == Contents(f.entries) && c.i1 == {} && c.made == c.i0;
    ExactOnLayers(Layers(d), d.history, level + 2, c, k, s, false, Get(d, k, s), Get(d', k, s));
  }

  /** The same for all reads at once. */
  lemma MovePreservesIff(d: Db, d': Db, level: nat, f: File)
    requires Shape(d) && Relocated(d, d', level, f)
    ensures (forall k, s: Sequence :: Visible(Get(d', k, s)) == Visible(Get(d, k, s))) <==> (forall k, s: Sequence :: !MoveStraddlesAt(d, level, f, k, s))
  {
    hide Get, MoveStraddlesAt, Visible, Shape;
    LevelFilesOk(d, level);
    forall k, s: Sequence ensures Visible(Get(d', k, s)) == Visible(Get(d, k, s)) <==> !MoveStraddlesAt(d, level, f, k, s) {
      MoveExact(d, d', level, f, k, s);
    }
  }

  /** A rewrite keeps the levels ordered by age if and only if nothing it makes is newer than what it leaves above. */
  lemma ShapeIff(d: Db, d': Db, level: nat, in0: set<File>, in1: set<File>, out: seq<File>)
    requires Shape(d) && Rewrites(d, d', level, in0, in1, out)
    ensures Shape(d') <==> Above(LevelContents(Without(d.levels[level], in0)), LevelContents(out))
  {
    hide Above, Sound, NumberedByAge, ByAge, Layered, HistoryOk, SnapshotsOk, CompactionInputs;
    LevelFilesOk(d, level);
    if Shape(d') {
      RewrittenByAge(d.levels, level, in0, in1, out);
    }
    if Above(LevelContents(Without(d.levels[level], in0)), LevelContents(out)) {
      RewriteKeepsShape(d, d', level, in0, in1, out, d'.nextFile);
    }
  }

  lemma RewrittenByAge(levels: seq<seq<File>>, level: nat, in0: set<File>, in1: set<File>, out: seq<File>)
    requires level + 1 < |levels| && CompactionInputs(levels, level, in0, in1) && ByAge(ContentsOf(Rewritten(levels, level, in0, in1, out)))
    ensures Above(LevelContents(Without(levels[level], in0)), LevelContents(out))
  {
    var cs := ContentsOf(Rewritten(levels, level, in0, in1, out));
    CutContents(levels, level, in0, in1, out);
    assert Above(cs[level], cs[level + 1]);
  }

  /** For a trivial move the hypothesis of the runs is exactly that the store stays ordered by age. */
  lemma MoveShapeIff(d: Db, d': Db, level: nat, f: File)
    requires Shape(d) && Relocated(d, d', level, f)
    ensures Shape(d') <==> NothingOlderLeft(d.levels, level, {f})
  {
    hide Shape, Rewrites;
    LevelFilesOk(d, level);
    MoveRewrites(d, d', level, f);
    ShapeIff(d, d', level, {f}, {}, [f]);
  }

  lemma LevelFilesOk(d: Db, level: nat)
    requires Shape(d) && level < NUM_LEVELS
    ensures |d.levels| == NUM_LEVELS && FilesOk(d.levels[level])
  {
  }

  /** On level 0, inputs closed under overlap, as the picker leaves them, leave nothing older behind. */
  lemma ClosedLevel0(levels: seq<seq<File>>, in0: set<File>)
    requires |levels| > 0 && FilesOk(levels[0]) && in0 <= Elements(levels[0]) && ClosedUnderTouch(in0, levels[0])
    ensures NothingOlderLeft(levels, 0, in0)
  {
    forall f, g, e, x | f in in0 && g in levels[0] && g !in in0 && x in f.entries && e in g.entries ensures e.key.user != x.key.user {
      assert FileOk(f) && FileOk(g) && !Touch(f, g);
      InRange(f, x);
      InRange(g, e);
    }
  }

  lemma NewestNeverStraddles(all: set<Entry>, i0: set<Entry>, rest0: set<Entry>, i1: set<Entry>, rest1: set<Entry>,
                             k: UserKey, s: Sequence, n: Entry, lost: bool)
    requires IsNewest(all, k, s, Some(n)) && rest0 <= all && rest1 <= all
    requires Above(rest0, i0) && (lost && n in i1 ==> Above(rest1, {n}))
    ensures !Straddles(i0, rest0, i1, rest1, k, s, n, lost)
  {
  }

  lemma RestPresent(d: Db, level: nat, gone: set<File>)
    requires level < |d.levels|
    ensures LevelContents(Without(d.levels[level], gone)) <= Present(d)
  {
    var cs := ContentsOf(d.levels);
    assert forall e :: e in cs[level] ==> e in Union(cs, 0);
  }

  /** Under the hypothesis of the runs nothing straddles. */
  lemma OrderedNeverStraddles(d: Db, level: nat, in0: set<File>, in1: set<File>, k: UserKey, s: Sequence)
    requires Shape(d) && level + 1 < NUM_LEVELS && OrderKept(d, level, in0, in1)
    ensures !StraddlesAt(d, level, in0, in1, k, s)
  {
    hide Layered, LevelsOk, Get, Straddles, Obsolete, IsNewest;
    LevelFilesOk(d, level);
    GetIsNewest(d, k, s);
    if Get(d, k, s).Some? {
      var n := Get(d, k, s).value;
      RestPresent(d, level, in0);
      RestPresent(d, level + 1, in1);
      NewestNeverStraddles(Present(d), FileContents(in0), LevelContents(Without(d.levels[level], in0)),
                           FileContents(in1), LevelContents(Without(d.levels[level + 1], in1)),
                           k, s, n, Obsolete(n, Oldest(d), BaseOf(d.levels, level)));
    }
  }

  // ---------------------------------------------------------------------------------------
  // Whole runs of any moves and compactions

  /** A step of the store without the hypothesis on inputs. */
  ghost predicate AnyNext(d: Db, d': Db, step: Step) {
    && |d.levels| == NUM_LEVELS
    && |d.history| <= MAX_SEQUENCE && Oldest(d) <= MAX_SEQUENCE
    && match step
    case TrivialMove(level, f) => Relocated(d, d', level, f)
    case Compact(level, in0, in1, m, out) => Ran(d, d', level, in0, in1, m, out)
    case _ => Next(d, d', step)
  }

  ghost predicate IsAnyRun(run: seq<Db>, steps: seq<Step>) {
    && |run| == |steps| + 1
    && run[0] == EMPTY_DB
    && (forall i :: 0 <= i < |steps| ==> AnyNext(run[i], run[i + 1], steps[i]))
  }

  /** No read that can still be issued has an entry straddling under it when the step is taken. */
  ghost predicate NoneStraddle(d: Db, step: Step) {
    match step
    case TrivialMove(level, f) =>
      level < |d.levels| && forall k, s: Sequence :: Oldest(d) <= s <= |d.history| ==> !MoveStraddlesAt(d, level, f, k, s)
    case Compact(level, in0, in1, _, _) =>
      level + 1 < |d.levels| && Oldest(d) <= MAX_SEQUENCE
      && forall k, s: Sequence :: Oldest(d) <= s <= |d.history| ==> !StraddlesAt(d, level, in0, in1, k, s)
    case _ => true
  }

  /** A step on a right store leads to right reads if and only if nothing straddles, whatever it does to the order of age. */
  lemma StepExact(d: Db, d': Db, step: Step)
    requires Inv(d) && AnyNext(d, d', step)
    ensures |d'.history| <= MAX_SEQUENCE && (ReadsRight(d') <==> NoneStraddle(d, step))
  {
    hide Shape, Get, Visible, StraddlesAt, MoveStraddlesAt;
    match step
    case TrivialMove(level, f) =>
      forall k, s: Sequence ensures Visible(Get(d', k, s)) == Visible(Get(d, k, s)) <==> !MoveStraddlesAt(d, level, f, k, s) {
        MoveExact(d, d', level, f, k, s);
      }
      SameReads(d, d');
    case Compact(level, in0, in1, m, out) =>
      forall k, s: Sequence | Oldest(d) <= s ensures Visible(Get(d', k, s)) == Visible(Get(d, k, s)) <==> !StraddlesAt(d, level, in0, in1, k, s) {
        CompactionExact(d, d', level, in0, in1, m, out, k, s);
      }
      SameReads(d, d');
    case _ =>
      NextKeepsInv(d, d', step);
      HistoryFits(d');
  }

  lemma HistoryFits(d: Db)
    requires Shape(d)
    ensures |d.history| <= MAX_SEQUENCE
  {
  }

  /** With the same writes and snapshots, a store is right if and only if it answers as a right one does. */
  lemma SameReads(d: Db, d': Db)
    requires |d.history| <= MAX_SEQUENCE && ReadsRight(d) && d'.history == d.history && d'.snapshots == d.snapshots
    ensures ReadsRight(d') <==> forall k, s: Sequence :: Oldest(d) <= s <= |d.history| ==> Visible(Get(d', k, s)) == Visible(Get(d, k, s))
  {
    hide Get, Visible, NewestIn;
  }

  /** Every read that can still be issued is right. */
  ghost predicate RightStore(d: Db) {
    |d.history| <= MAX_SEQUENCE && ReadsRight(d)
  }

  /**
   * Over every run of any moves and compactions whose steps start from levels ordered by age, while the last step may
   * break the order: all reads in all states, the last one included, are right if and only if no step is taken while
   * an entry straddles under a read.
   */
  lemma RunExact(run: seq<Db>, steps: seq<Step>)
    requires IsAnyRun(run, steps) && forall i :: 0 <= i < |steps| ==> Shape(run[i])
    ensures (forall i :: 0 <= i < |run| ==> RightStore(run[i])) <==> (forall i :: 0 <= i < |steps| ==> NoneStraddle(run[i], steps[i]))
  {
    hide Shape, ReadsRight, NoneStraddle;
    if forall i :: 0 <= i < |run| ==> RightStore(run[i]) {
      forall i | 0 <= i < |steps| ensures NoneStraddle(run[i], steps[i]) {
        assert RightStore(run[i]) && RightStore(run[i + 1]);
        StepExact(run[i], run[i + 1], steps[i]);
      }
    }
    if forall i :: 0 <= i < |steps| ==> NoneStraddle(run[i], steps[i]) {
      forall i | 0 <= i < |run| ensures RightStore(run[i]) {
        RunRight(run, steps, i);
      }
    }
  }

  lemma {:induction false} RunRight(run: seq<Db>, steps: seq<Step>, i: nat)
    requires IsAnyRun(run, steps) && i < |run| && forall j :: 0 <= j < |steps| ==> Shape(run[j])
    requires forall j :: 0 <= j < |steps| ==> NoneStraddle(run[j], steps[j])
    ensures RightStore(run[i])
  {
    hide Shape, ReadsRight, NoneStraddle;
    if i == 0 {
      EmptyInv();
      HistoryFits(EMPTY_DB);
    } else {
      RunRight(run, steps, i - 1);
      assert AnyNext(run[i - 1], run[i - 1 + 1], steps[i - 1]);
      StepExact(run[i - 1], run[i], steps[i - 1]);
    }
  }

  /** A run that meets the hypothesis, and one step more of any kind. */
  lemma OneStepMore(run: seq<Db>, steps: seq<Step>, d': Db, step: Step)
    requires IsRun(run, steps) && AnyNext(run[|run| - 1], d', step)
    ensures IsAnyRun(run + [d'], steps + [step]) && forall i :: 0 <= i < |run| ==> Inv(run[i])
  {
    hide Inv, Next, AnyNext;
    forall i | 0 <= i < |run| ensures Inv(run[i]) {
      RunInv(run, steps, i);
    }
    var run', steps' := run + [d'], steps + [step];
    forall i | 0 <= i < |steps'| ensures AnyNext(run'[i], run'[i + 1], steps'[i]) {
      if i < |steps| {
        assert run'[i] == run[i] && run'[i + 1] == run[i + 1] && steps'[i] == steps[i];
        NextIsAny(run[i], run[i + 1], steps[i]);
      }
    }
  }

  lemma NextIsAny(d: Db, d': Db, step: Step)
    requires Inv(d) && Next(d, d', step)
    ensures AnyNext(d, d', step)
  {
    hide ReadsRight, Relocated, Ran;
  }

  /** A run that meets the hypothesis goes wrong with one step more if and only if something straddles under that step. */
  lemma LastStepExact(run: seq<Db>, steps: seq<Step>, d': Db, step: Step)
    requires IsRun(run, steps) && AnyNext(run[|run| - 1], d', step)
    ensures IsAnyRun(run + [d'], steps + [step])
    ensures RightStore(d') <==> NoneStraddle(run[|run| - 1], step)
  {
    hide Shape, ReadsRight, NoneStraddle, AnyNext, IsRun, Next;
    OneStepMore(run, steps, d', step);
    RunLength(run, steps);
    var run', steps', n := run + [d'], steps + [step], |steps|;
    RunExact(run', steps');
    forall i | 0 <= i < |run| ensures RightStore(run'[i]) {
      assert run'[i] == run[i] && Inv(run[i]);
      HistoryFits(run[i]);
    }
    forall i | 0 <= i < n ensures NoneStraddle(run'[i], steps'[i]) {
      assert run'[i] == run[i] && run'[i + 1] == run[i + 1] && Inv(run[i]) && Inv(run[i + 1]);
      assert AnyNext(run'[i], run'[i + 1], steps'[i]);
      StepExact(run'[i], run'[i + 1], steps'[i]);
    }
    assert run'[n] == run[n] && run'[n + 1] == d' && steps'[n] == step;
    if NoneStraddle(run[n], step) {
      assert forall i :: 0 <= i < |steps'| ==> NoneStraddle(run'[i], steps'[i]);
    }
    if RightStore(d') {
      assert forall i :: 0 <= i < |run'| ==> RightStore(run'[i]);
    }
  }

  lemma RunLength(run: seq<Db>, steps: seq<Step>)
    requires IsRun(run, steps)
    ensures |run| == |steps| + 1
  {
  }

  // ---------------------------------------------------------------------------------------
  // A run after which a read changes

  const FIRST := Entry(InternalKey(0.0, 1), Put([1]))
  const SECOND := Entry(InternalKey(0.0, 2), Put([2]))

  function OneEntry(number: nat, e: Entry): (f: File) {
    File(number, 1, e.key, e.key, [e])
  }

  /** The table of both values of the key, and the two tables into which a compaction cuts it. */
  const WHOLE := File(2, 1, SECOND.key, FIRST.key, [SECOND, FIRST])
  const NEW_PART := OneEntry(3, SECOND)
  const OLD_PART := OneEntry(4, FIRST)

  /** Write a key twice with a snapshot in between, flush, and compact with one entry per output. */
  function SplitSteps(): (steps: seq<Step>) {
    [Write([(0.0, Put([1]))]), TakeSnapshot, Write([(0.0, Put([2]))]), SwitchMemTable, Flush(2, 1),
     Compact(2, {WHOLE}, {}, [SECOND, FIRST], [NEW_PART, OLD_PART])]
  }

  function SplitRun(): (run: seq<Db>)
    ensures |run| == 7
  {
    var none := EMPTY_DB.levels;
    [EMPTY_DB,
     Db([FIRST], [FIRST], None, none, [], 2),
     Db([FIRST], [FIRST], None, none, [1], 2),
     Db([FIRST, SECOND], [SECOND, FIRST], None, none, [1], 2),
     Db([FIRST, SECOND], [], Some([SECOND, FIRST]), none, [1], 2),
     Db([FIRST, SECOND], [], None, none[2 := [WHOLE]], [1], 3),
     Db([FIRST, SECOND], [], None, none[3 := [NEW_PART, OLD_PART]], [1], 5)]
  }

  lemma WriteSingle(d: Db, k: UserKey, op: Op)
    requires |d.history| < MAX_SEQUENCE
    ensures WriteAll(d, [(k, op)]) == WriteOne(d, k, op)
  {
    var d' := WriteOne(d, k, op);
    assert [(k, op)][1..] == [];
    assert WriteAll(d', []) == d';
  }

  lemma FirstWrite()
    ensures Next(SplitRun()[0], SplitRun()[1], SplitSteps()[0])
  {
    WriteSingle(SplitRun()[0], 0.0, Put([1]));
    assert InsertSorted([], FIRST) == [FIRST];
  }

  lemma SecondWrite()
    ensures Next(SplitRun()[2], SplitRun()[3], SplitSteps()[2])
  {
    WriteSingle(SplitRun()[2], 0.0, Put([2]));
    assert InsertSorted([FIRST], SECOND) == [SECOND, FIRST];
  }

  /** The first four steps only fill the memtable and switch it. */
  lemma SplitWrites()
    ensures forall i :: 0 <= i < 4 ==> Next(SplitRun()[i], SplitRun()[i + 1], SplitSteps()[i])
  {
    FirstWrite();
    SecondWrite();
  }

  lemma SplitFlush()
    ensures Next(SplitRun()[4], SplitRun()[5], SplitSteps()[4])
  {
    var d, d' := SplitRun()[4], SplitRun()[5];
    assert WHOLE == TableOf(2, 1, [SECOND, FIRST]);
    assert forall lv :: 0 <= lv < NUM_LEVELS ==> d.levels[lv] == [];
    assert InsertFile([], WHOLE) == [WHOLE];
    assert Flushed(d, d', 2, 1);
  }

  /** Both entries are kept: the snapshot still needs the first value. */
  lemma KeepsBoth(base: UserKey -> bool)
    ensures Kept([SECOND, FIRST], 2, 1, base) == [SECOND, FIRST]
  {
    assert Kept([SECOND, FIRST], 0, 1, base) == [];
    assert Kept([SECOND, FIRST], 1, 1, base) == [SECOND];
  }

  lemma KeepsSecond(base: UserKey -> bool)
    ensures Kept([SECOND], 1, 1, base) == [SECOND]
  {
    assert Kept([SECOND], 0, 1, base) == [];
  }

  lemma SplitOutputs()
    ensures FilesOk([NEW_PART, OLD_PART]) && Joined([NEW_PART, OLD_PART]) == [SECOND, FIRST]
    ensures Installed([], {}, [NEW_PART, OLD_PART]) == [NEW_PART, OLD_PART]
  {
    var out := [NEW_PART, OLD_PART];
    assert out[..1] == [NEW_PART] && out[..1][..0] == [];
    assert Joined([NEW_PART]) == [SECOND] by { assert Joined([]) == []; }
    assert InsertFile([], NEW_PART) == [NEW_PART];
    assert InsertAll([], [NEW_PART]) == [NEW_PART] by { assert InsertAll([], []) == []; }
    assert InsertFile([], OLD_PART) == [OLD_PART];
    assert [NEW_PART][1..] == [];
  }

  lemma SplitCompact()
    ensures Next(SplitRun()[5], SplitRun()[6], SplitSteps()[5])
  {
    var d, d' := SplitRun()[5], SplitRun()[6];
    var in1: set<File> := {};
    SplitOutputs();
    KeepsBoth(BaseOf(d.levels, 2));
    assert CompactionInputs(d.levels, 2, {WHOLE}, in1) by { assert d.levels[2][0] == WHOLE; }
    assert FileContents({WHOLE} + in1) == Contents([SECOND, FIRST]) by {
      assert forall e :: e in WHOLE.entries <==> e in [SECOND, FIRST];
    }
    assert Without([WHOLE], {WHOLE}) == [] by { assert Without([], {WHOLE}) == []; }
    assert OrderKept(d, 2, {WHOLE}, in1) by { assert LevelContents([]) == {}; }
    assert d'.levels == Rewritten(d.levels, 2, {WHOLE}, in1, [NEW_PART, OLD_PART]);
  }

  lemma SplitIsRun()
    ensures IsRun(SplitRun(), SplitSteps())
  {
    SplitWrites();
    SplitFlush();
    SplitCompact();
  }

  /** The read after the run, before the next compaction. */
  lemma SplitReads()
    ensures Shape(SplitRun()[6]) && Get(SplitRun()[6], 0.0, 2) == Some(SECOND)
  {
    var d := SplitRun()[6];
    SplitIsRun();
    LatestReads(SplitRun(), SplitSteps(), 6, 0.0, []);
    RunInv(SplitRun(), SplitSteps(), 6);
    GetIsNewest(d, 0.0, 2);
  }

  lemma SplitStraddles()
    ensures StraddlesAt(SplitRun()[6], 3, {NEW_PART}, {}, 0.0, 2)
  {
    SplitReads();
    var rest := Without([NEW_PART, OLD_PART], {NEW_PART});
    assert OLD_PART in rest by { assert [NEW_PART, OLD_PART][1] == OLD_PART; }
    assert forall x :: x in rest <==> x == OLD_PART;
    assert LevelContents(rest) == {FIRST} by { assert FIRST in OLD_PART.entries; }
    assert LeftBehind(LevelContents(rest), 0.0, 2, SECOND, FIRST);
    assert FileContents({NEW_PART}) == {SECOND} by { assert SECOND in NEW_PART.entries; }
  }

  /** The next compaction takes only the table of the new value. */
  lemma SplitRuns(d: Db) returns (d': Db, out: seq<File>)
    requires |d.levels| == NUM_LEVELS && d.levels[3] == [NEW_PART, OLD_PART] && d.levels[4] == [] && Oldest(d) == 1
    ensures Ran(d, d', 3, {NEW_PART}, {}, [SECOND], out) && d'.history == d.history
  {
    hide Rewritten, Kept;
    var in1: set<File> := {};
    out := [OneEntry(5, SECOND)];
    d' := d.(levels := Rewritten(d.levels, 3, {NEW_PART}, in1, out), nextFile := d.nextFile + 1);
    assert CompactionInputs(d.levels, 3, {NEW_PART}, in1) by { assert d.levels[3][0] == NEW_PART; }
    assert FileContents({NEW_PART} + in1) == Contents([SECOND]);
    assert Joined(out) == [SECOND] by { assert Joined(out[..0]) == []; }
    KeepsSecond(BaseOf(d.levels, 3));
  }

  lemma SplitEnd()
    ensures var d := SplitRun()[6];
            && |d.levels| == NUM_LEVELS && d.levels[3] == [NEW_PART, OLD_PART] && d.levels[4] == [] && Oldest(d) == 1
            && d.history == [FIRST, SECOND] && NewestIn(d.history, 0.0, 2) == Some(SECOND)
  {
  }

  /**
   * A store reached by a run in which every step meets its hypotheses holds the two values of a key in two tables of
   * one level.  A compaction of the table of the new value alone makes the store stop returning the last write.
   */
  lemma StaleRead() returns (run: seq<Db>, steps: seq<Step>, d': Db, f: File, m: seq<Entry>, out: seq<File>)
    ensures IsRun(run, steps) && Shape(run[|run| - 1]) && Ran(run[|run| - 1], d', 3, {f}, {}, m, out)
    ensures IsAnyRun(run + [d'], steps + [Compact(3, {f}, {}, m, out)]) && !RightStore(d')
    ensures d'.history == run[|run| - 1].history && |d'.history| == 2
    ensures Visible(NewestIn(d'.history, 0.0, 2)) == Some([2]) && Visible(Get(d', 0.0, 2)) != Some([2])
  {
    hide SplitRun, SplitSteps, IsRun, Ran, Shape, StraddlesAt, Get, NewestIn, ReadsRight, IsAnyRun;
    run, steps, f, m := SplitRun(), SplitSteps(), NEW_PART, [SECOND];
    SplitIsRun();
    SplitEnd();
    SplitReads();
    SplitStraddles();
    d', out := SplitRuns(run[6]);
    CompactionExact(run[6], d', 3, {f}, {}, m, out, 0.0, 2);
    LastStepExact(run, steps, d', Compact(3, {f}, {}, m, out));
  }

  lemma SplitMoves(d: Db) returns (d': Db)
    requires |d.levels| == NUM_LEVELS && d.levels[3] == [NEW_PART, OLD_PART] && d.levels[4] == []
    ensures Relocated(d, d', 3, NEW_PART) && d'.history == d.history
  {
    hide Rewritten;
    var in1: set<File> := {};
    d' := d.(levels := Rewritten(d.levels, 3, {NEW_PART}, in1, [NEW_PART]));
    assert CompactionInputs(d.levels, 3, {NEW_PART}, in1) by { assert d.levels[3][0] == NEW_PART; }
  }

  lemma SplitMoveStraddles()
    ensures MoveStraddlesAt(SplitRun()[6], 3, NEW_PART, 0.0, 2)
  {
    hide SplitRun, Get, Shape;
    SplitReads();
    SplitEnd();
    assert SECOND in NEW_PART.entries;
    var rest := Without([NEW_PART, OLD_PART], {NEW_PART});
    assert OLD_PART in rest by { assert [NEW_PART, OLD_PART][1] == OLD_PART; }
    assert forall x :: x in rest <==> x == OLD_PART;
    assert LevelContents(rest) == {FIRST} by { assert FIRST in OLD_PART.entries; }
    assert LeftBehind(LevelContents(rest), 0.0, 2, SECOND, FIRST);
  }

  /**
   * The same store, and the step the code takes on it by itself: the picker chooses the table of the new value, no
   * file of the next level meets it, and the trivial move makes the store stop returning the last write.
   */
  lemma StaleMove() returns (run: seq<Db>, steps: seq<Step>, d': Db, f: File)
    ensures IsRun(run, steps) && Shape(run[|run| - 1]) && Relocated(run[|run| - 1], d', 3, f)
    ensures IsAnyRun(run + [d'], steps + [TrivialMove(3, f)]) && !RightStore(d')
    ensures d'.history == run[|run| - 1].history && |d'.history| == 2
    ensures Visible(NewestIn(d'.history, 0.0, 2)) == Some([2]) && Visible(Get(d', 0.0, 2)) != Some([2])
  {
    hide SplitRun, SplitSteps, IsRun, Relocated, Shape, MoveStraddlesAt, Get, NewestIn, ReadsRight, IsAnyRun;
    run, steps, f := SplitRun(), SplitSteps(), NEW_PART;
    SplitIsRun();
    SplitEnd();
    SplitReads();
    SplitMoveStraddles();
    d' := SplitMoves(run[6]);
    LastStepExact(run, steps, d', TrivialMove(3, f));
    MoveExact(run[6], d', 3, f, 0.0, 2);
  }
}
