/**
 * Range overlap over levels (db/version_set.cc): SomeFileOverlapsRange, GetOverlappingInputs,
 * PickLevelForMemTableOutput and SetupOtherInputs.
 */
module Overlap {
  import opened Basics
  import opened Entries
  import opened Levels

  /** A closed user-key range; a missing bound (a NULL pointer in the source) is unbounded. */
  datatype Range = Range(lo: Option<UserKey>, hi: Option<UserKey>)

  predicate AfterFile(k: Option<UserKey>, f: File) {
    k.Some? && k.value > f.largest.user
  }

  predicate BeforeFile(k: Option<UserKey>, f: File) {
    k.Some? && k.value < f.smallest.user
  }

  /** f has a user key range that meets the query range. */
  predicate Meets(r: Range, f: File) {
    !AfterFile(r.lo, f) && !BeforeFile(r.hi, f)
  }

  ghost predicate SomeMeets(r: Range, files: seq<File>) {
    exists f :: f in files && Meets(r, f)
  }

  /** Both the linear scan of level 0 and the binary search of a deeper level decide SomeMeets. */
  method SomeFileOverlapsRange(disjointSorted: bool, files: seq<File>, r: Range) returns (b: bool)
    requires FilesOk(files)
    requires disjointSorted ==> SortedLevel(files)
    ensures b == SomeMeets(r, files)
  {
    if !disjointSorted {
      for i := 0 to |files|
        invariant forall j :: 0 <= j < i ==> !Meets(r, files[j])
      {
        if !(AfterFile(r.lo, files[i]) || BeforeFile(r.hi, files[i])) {
          assert files[i] in files;
          return true;
        }
      }
      return false;
    }
    var index := 0;
    if r.lo.Some? {
      index := FindFileForUser(files, r.lo.value);
    }
    if index >= |files| {
      return false;
    }
    b := !BeforeFile(r.hi, files[index]);
    assert files[index] in files;
    forall j | 0 <= j < |files| && Meets(r, files[j]) ensures Meets(r, files[index]) {
      if index < j {
        assert FileOk(files[index]) && FileOk(files[j]);
        SmallestAscend(files, index, j);
      }
    }
  }

  lemma SmallestAscend(files: seq<File>, i: nat, j: nat)
    requires FilesOk(files) && SortedLevel(files) && i < j < |files|
    ensures files[i].smallest.user <= files[i].largest.user <= files[j].smallest.user <= files[j].largest.user
  {
    assert FileOk(files[i]) && FileOk(files[j]);
    InRange(files[i], files[i].entries[0]);
    InRange(files[j], files[j].entries[0]);
  }

  /** FindFile with the earliest internal key of a user key: (lo, kMaxSequenceNumber). */
  method FindFileForUser(files: seq<File>, lo: UserKey) returns (index: nat)
    requires FilesOk(files) && SortedLevel(files)
    ensures index <= |files|
    ensures forall j :: 0 <= j < index ==> files[j].largest.user < lo
    ensures index < |files| ==> lo <= files[index].largest.user
  {
    index := FindFile(files, InternalKey(lo, MAX_SEQUENCE));
  }

  // ---------------------------------------------------------------------------------------
  // GetOverlappingInputs

  ghost predicate Touch(f: File, g: File) {
    f.smallest.user <= g.largest.user && g.smallest.user <= f.largest.user
  }

  /** A set of files that holds all files meeting the query and is closed under overlap of user keys. */
  ghost predicate ClosedFor(c: set<File>, files: seq<File>, q: Range) {
    && (forall f :: f in files && Meets(q, f) ==> f in c)
    && (forall f, g :: f in c && f in files && g in files && Touch(f, g) ==> g in c)
  }

  ghost predicate Within(q: Range, r: Range) {
    && (q.lo.None? <==> r.lo.None?)
    && (q.hi.None? <==> r.hi.None?)
    && (q.lo.Some? ==> r.lo.value <= q.lo.value)
    && (q.hi.Some? ==> q.hi.value <= r.hi.value)
  }

  /** The files of a level that meet r, in level order. */
  function Meeting(files: seq<File>, r: Range): (m: seq<File>)
    ensures forall f :: f in m <==> f in files && Meets(r, f)
  {
    if |files| == 0 then [] else (if Meets(r, files[0]) then [files[0]] else []) + Meeting(files[1..], r)
  }

  lemma {:induction false} MeetingSnoc(files: seq<File>, i: nat, r: Range)
    requires i < |files|
    ensures Meeting(files[..i + 1], r) == Meeting(files[..i], r) + (if Meets(r, files[i]) then [files[i]] else [])
  {
    if i > 0 {
      MeetingSnoc(files[1..], i - 1, r);
      assert files[1..][..i] == files[..i + 1][1..];
      assert files[1..][..i - 1] == files[..i][1..];
    }
  }

  function CountOutside(files: seq<File>, r: Range): (n: nat)
  {
    if |files| == 0 then 0
    else
      (if r.lo.Some? && files[0].smallest.user < r.lo.value then 1 else 0)
      + (if r.hi.Some? && files[0].largest.user > r.hi.value then 1 else 0)
      + CountOutside(files[1..], r)
  }

  lemma {:induction false} CountShrinks(files: seq<File>, r: Range, r': Range, i: nat)
    requires Within(r, r') && i < |files|
    requires (r.lo.Some? && files[i].smallest.user < r.lo.value && r'.lo.value <= files[i].smallest.user)
             || (r.hi.Some? && files[i].largest.user > r.hi.value && r'.hi.value >= files[i].largest.user)
    ensures CountOutside(files, r') < CountOutside(files, r)
  {
    CountMonotone(files[1..], r, r');
    if i > 0 {
      CountShrinks(files[1..], r, r', i - 1);
    }
  }

  lemma {:induction false} CountMonotone(files: seq<File>, r: Range, r': Range)
    requires Within(r, r')
    ensures CountOutside(files, r') <= CountOutside(files, r)
  {
    if |files| > 0 {
      CountMonotone(files[1..], r, r');
    }
  }

  /**
   * A level >= 1 returns the files meeting the query.  On level 0 the scan restarts whenever a file
   * widens the range; it still ends, and returns exactly the files meeting a range r that no returned
   * file sticks out of.  So the result is closed under overlap, and every closed set that answers the
   * query contains it: it is the least one.
   */
  method GetOverlappingInputs(level: nat, files: seq<File>, q: Range) returns (inputs: seq<File>, ghost r: Range)
    requires FilesOk(files)
    ensures Within(q, r) && inputs == Meeting(files, r)
    ensures level > 0 ==> r == q
    ensures level == 0 ==> ClosedFor((set f | f in inputs), files, q)
    ensures level == 0 ==> forall c :: ClosedFor(c, files, q) ==> forall f :: f in inputs ==> f in c
  {
    inputs := [];
    var begin, end := q.lo, q.hi;
    var i := 0;
    while i < |files|
      invariant 0 <= i <= |files|
      invariant Within(q, Range(begin, end)) && (level > 0 ==> q == Range(begin, end))
      invariant inputs == Meeting(files[..i], Range(begin, end))
      invariant level == 0 ==> forall f :: f in inputs ==> Contained(f, Range(begin, end))
      invariant level == 0 ==>
          forall c, f :: ClosedFor(c, files, q) && f in files && Meets(Range(begin, end), f) ==> f in c
      decreases CountOutside(files, Range(begin, end)), |files| - i
    {
      var f := files[i];
      ghost var before := Range(begin, end);
      MeetingSnoc(files, i, before);
      i := i + 1;
      if begin.Some? && f.largest.user < begin.value {
      } else if end.Some? && f.smallest.user > end.value {
      } else {
        inputs := inputs + [f];
        if level == 0 {
          if begin.Some? && f.smallest.user < begin.value {
            begin := Some(f.smallest.user);
            CountShrinks(files, before, Range(begin, end), i - 1);
            WidenInside(files, q, before, Range(begin, end), f);
            inputs, i := [], 0;
          } else if end.Some? && f.largest.user > end.value {
            end := Some(f.largest.user);
            CountShrinks(files, before, Range(begin, end), i - 1);
            WidenInside(files, q, before, Range(begin, end), f);
            inputs, i := [], 0;
          }
        }
      }
    }
    r := Range(begin, end);
    assert files[..i] == files;
    if level == 0 {
      ResultClosed(files, inputs, q, r);
    }
  }

  lemma ResultClosed(files: seq<File>, inputs: seq<File>, q: Range, r: Range)
    requires FilesOk(files) && Within(q, r) && inputs == Meeting(files, r)
    requires forall f :: f in inputs ==> Contained(f, r)
    ensures ClosedFor((set f | f in inputs), files, q)
  {
    forall f, g | f in inputs && f in files && g in files && Touch(f, g) ensures g in inputs {
      assert Contained(f, r);
      assert FileOk(f) && FileOk(g);
      assert Meets(r, g);
    }
  }

  ghost predicate Contained(f: File, r: Range) {
    (r.lo.Some? ==> r.lo.value <= f.smallest.user) && (r.hi.Some? ==> f.largest.user <= r.hi.value)
  }

  /** Widening the range to the end of a file that meets it adds only files in every closed set. */
  lemma WidenInside(files: seq<File>, q: Range, r: Range, r': Range, f: File)
    requires FilesOk(files) && f in files && Meets(r, f)
    requires (r' == r.(lo := Some(f.smallest.user)) && r.lo.Some? && f.smallest.user < r.lo.value)
             || (r' == r.(hi := Some(f.largest.user)) && r.hi.Some? && f.largest.user > r.hi.value)
    requires forall c, g :: ClosedFor(c, files, q) && g in files && Meets(r, g) ==> g in c
    ensures forall c, g :: ClosedFor(c, files, q) && g in files && Meets(r', g) ==> g in c
  {
    forall c, g | ClosedFor(c, files, q) && g in files && Meets(r', g) ensures g in c {
      assert FileOk(f) && FileOk(g);
      InRange(f, f.entries[0]);
      InRange(g, g.entries[0]);
      if !Meets(r, g) {
        assert Touch(f, g);
      }
    }
  }

  // ---------------------------------------------------------------------------------------
  // Placing a flushed memtable

  const TARGET_FILE_SIZE := 2 * 1048576
  const MAX_GRANDPARENT_OVERLAP := 10 * TARGET_FILE_SIZE
  const EXPANDED_COMPACTION_LIMIT := 25 * TARGET_FILE_SIZE
  const MAX_MEM_COMPACT_LEVEL := 2

  function TotalFileSize(files: seq<File>): (n: nat) {
    if |files| == 0 then 0 else files[0].size + TotalFileSize(files[1..])
  }

  ghost predicate Stops(levels: seq<seq<File>>, r: Range, level: nat)
    requires |levels| == NUM_LEVELS && level < MAX_MEM_COMPACT_LEVEL
  {
    || SomeMeets(r, levels[level + 1])
    || TotalFileSize(Meeting(levels[level + 2], r)) > MAX_GRANDPARENT_OVERLAP
  }

  /**
   * As deep as possible: on no level down to this one is a file met, and it goes no deeper exactly because of an
   * overlap, of too many grandparent bytes, or of the limit.
   */
  ghost predicate Deepest(levels: seq<seq<File>>, r: Range, level: nat)
    requires |levels| == NUM_LEVELS
  {
    && level <= MAX_MEM_COMPACT_LEVEL
    && (level > 0 ==> forall lv :: 0 <= lv <= level ==> !SomeMeets(r, levels[lv]))
    && (forall lv :: 0 <= lv < level ==> !Stops(levels, r, lv))
    && (level < MAX_MEM_COMPACT_LEVEL ==> (level == 0 && SomeMeets(r, levels[0])) || Stops(levels, r, level))
  }

  /** Where the table of a memtable goes. */
  method PickLevelForMemTableOutput(levels: seq<seq<File>>, lo: UserKey, hi: UserKey) returns (level: nat)
    requires |levels| == NUM_LEVELS
    requires forall lv :: 0 <= lv < NUM_LEVELS ==> FilesOk(levels[lv])
    requires forall lv :: 1 <= lv < NUM_LEVELS ==> SortedLevel(levels[lv])
    ensures Deepest(levels, Range(Some(lo), Some(hi)), level)
  {
    var r := Range(Some(lo), Some(hi));
    level := 0;
    var overlap := SomeFileOverlapsRange(false, levels[0], r);
    if !overlap {
      while level < MAX_MEM_COMPACT_LEVEL
        invariant 0 <= level <= MAX_MEM_COMPACT_LEVEL
        invariant forall lv :: 0 <= lv <= level ==> !SomeMeets(r, levels[lv])
        invariant forall lv :: 0 <= lv < level ==> !Stops(levels, r, lv)
      {
        overlap := SomeFileOverlapsRange(true, levels[level + 1], r);
        if overlap {
          break;
        }
        var overlaps, _ := GetOverlappingInputs(level + 2, levels[level + 2], r);
        if TotalFileSize(overlaps) > MAX_GRANDPARENT_OVERLAP {
          break;
        }
        level := level + 1;
      }
    }
  }

  // ---------------------------------------------------------------------------------------
  // Choosing the inputs of a compaction

  /** lo and hi are the extreme keys of a non-empty set of files. */
  ghost predicate HullOf(files: seq<File>, lo: InternalKey, hi: InternalKey) {
    && (exists f :: f in files && f.smallest == lo)
    && (exists f :: f in files && f.largest == hi)
    && (forall f :: f in files ==> !Before(f.smallest, lo) && !Before(hi, f.largest))
  }

  method GetRange(inputs: seq<File>) returns (smallest: InternalKey, largest: InternalKey)
    requires |inputs| > 0
    ensures HullOf(inputs, smallest, largest)
  {
    smallest, largest := inputs[0].smallest, inputs[0].largest;
    assert inputs[..1] == [inputs[0]];
    for i := 1 to |inputs|
      invariant HullOf(inputs[..i], smallest, largest)
    {
      assert inputs[..i + 1] == inputs[..i] + [inputs[i]];
      if Before(inputs[i].smallest, smallest) {
        smallest := inputs[i].smallest;
      }
      if Before(largest, inputs[i].largest) {
        largest := inputs[i].largest;
      }
    }
    assert inputs[..|inputs|] == inputs;
  }

  /** f meets the user-key range spanned by the files of s. */
  ghost predicate MeetsHull(s: set<File>, f: File) {
    && (exists g :: g in s && g.smallest.user <= f.largest.user)
    && (exists g :: g in s && f.smallest.user <= g.largest.user)
  }

  ghost function Elements(files: seq<File>): set<File> {
    set f | f in files
  }

  /** Inputs of a compaction of level: some of its files, and all files below that meet their span. */
  ghost predicate CompactionInputs(levels: seq<seq<File>>, level: nat, in0: set<File>, in1: set<File>)
    requires level + 1 < |levels|
  {
    && in0 != {}
    && in0 <= Elements(levels[level])
    && (forall f :: f in in1 <==> f in levels[level + 1] && MeetsHull(in0, f))
  }

  /** The files of a level that meet the span of s, in level order. */
  ghost function HullFiles(files: seq<File>, s: set<File>): (m: seq<File>)
    ensures forall f :: f in m <==> f in files && MeetsHull(s, f)
  {
    if |files| == 0 then [] else (if MeetsHull(s, files[0]) then [files[0]] else []) + HullFiles(files[1..], s)
  }

  lemma {:induction false} MeetingIsHull(files: seq<File>, q: Range, s: set<File>)
    requires forall f :: f in files ==> (Meets(q, f) <==> MeetsHull(s, f))
    ensures Meeting(files, q) == HullFiles(files, s)
  {
    hide Meets, MeetsHull;
    if |files| > 0 {
      assert files[0] in files && forall f :: f in files[1..] ==> f in files;
      MeetingIsHull(files[1..], q, s);
    }
  }

  /** c holds the files that meet the span of s and is closed under overlap of user keys. */
  ghost predicate HoldsHull(files: seq<File>, s: set<File>, c: set<File>) {
    && (forall f :: f in files && MeetsHull(s, f) ==> f in c)
    && (forall f, g :: f in c && f in files && g in files && Touch(f, g) ==> g in c)
  }

  /** What GetOverlappingInputs gives for the span of s: on level 0 the least closed set, otherwise the files that meet it. */
  ghost predicate Spanned(level: nat, files: seq<File>, s: set<File>, part: seq<File>) {
    if level > 0 then part == HullFiles(files, s)
    else InLevelOrder(part, files) && HoldsHull(files, s, Elements(part)) && forall c :: HoldsHull(files, s, c) ==> Elements(part) <= c
  }

  /** The inputs of the level may grow: no file of level+1 is added, and the total stays under the limit. */
  ghost predicate Widens(levels: seq<seq<File>>, level: nat, inputs: seq<File>, in1: seq<File>, wider: seq<File>)
    requires level + 1 < |levels|
  {
    && |wider| > |inputs| && TotalFileSize(in1) + TotalFileSize(wider) < EXPANDED_COMPACTION_LIMIT
    && (forall f :: f in levels[level + 1] && MeetsHull(Elements(wider), f) ==> f in in1)
  }

  /** The inputs of both levels, given those that the compaction was asked for. */
  ghost predicate Chosen(levels: seq<seq<File>>, level: nat, inputs: seq<File>, in0: seq<File>, in1: seq<File>)
    requires level + 1 < |levels|
  {
    && in1 == HullFiles(levels[level + 1], Elements(inputs))
    && if in1 == [] then in0 == inputs
       else exists wider :: Spanned(level, levels[level], Elements(inputs + in1), wider)
                            && in0 == if Widens(levels, level, inputs, in1, wider) then wider else inputs
  }

  ghost predicate ClosedUnderTouch(s: set<File>, files: seq<File>) {
    forall f, g :: f in s && g in files && Touch(f, g) ==> g in s
  }

  ghost predicate Picks(part: seq<File>, files: seq<File>, at: seq<nat>) {
    && |at| == |part|
    && (forall i :: 0 <= i < |at| ==> at[i] < |files| && part[i] == files[at[i]])
    && (forall i, j :: 0 <= i < j < |at| ==> at[i] < at[j])
  }

  /** The list holds files of the level, in level order and none twice. */
  ghost predicate InLevelOrder(part: seq<File>, files: seq<File>) {
    exists at :: Picks(part, files, at)
  }

  lemma {:induction false} MeetingInOrder(files: seq<File>, r: Range)
    ensures InLevelOrder(Meeting(files, r), files)
  {
    hide Meets;
    if |files| == 0 {
      assert Picks([], files, []);
    } else {
      MeetingInOrder(files[1..], r);
      var rest := Meeting(files[1..], r);
      var at: seq<nat> :| Picks(rest, files[1..], at);
      ShiftPicks(rest, files, at);
      if !Meets(r, files[0]) {
        assert [] + rest == rest;
      }
    }
  }

  lemma ShiftPicks(rest: seq<File>, files: seq<File>, at: seq<nat>)
    requires |files| > 0 && Picks(rest, files[1..], at)
    ensures InLevelOrder(rest, files) && InLevelOrder([files[0]] + rest, files)
  {
    var shifted := seq(|at|, i requires 0 <= i < |at| => at[i] + 1);
    assert forall i :: 0 <= i < |at| ==> files[1..][at[i]] == files[at[i] + 1];
    assert Picks(rest, files, shifted);
    assert Picks([files[0]] + rest, files, [0] + shifted);
  }

  lemma PrefixInOrder(part: seq<File>, files: seq<File>, n: nat)
    requires InLevelOrder(part, files) && n <= |part|
    ensures InLevelOrder(part[..n], files)
  {
    var at: seq<nat> :| Picks(part, files, at);
    assert Picks(part[..n], files, at[..n]);
  }

  lemma OneInOrder(f: File, files: seq<File>)
    requires f in files
    ensures InLevelOrder([f], files)
  {
    var i: nat :| i < |files| && files[i] == f;
    assert Picks([f], files, [i]);
  }

  /** What holds of a level holds of a part of it. */
  lemma OrderKeeps(part: seq<File>, files: seq<File>)
    requires InLevelOrder(part, files)
    ensures Elements(part) <= Elements(files) && (FilesOk(files) ==> FilesOk(part))
    ensures (SortedLevel(files) ==> SortedLevel(part)) && (DistinctNumbers(files) ==> DistinctNumbers(part))
  {
    hide FileOk, Before;
    var at: seq<nat> :| Picks(part, files, at);
    forall f | f in part ensures f in files {
      var i :| 0 <= i < |part| && part[i] == f;
      assert files[at[i]] == f;
    }
  }

  /** When a larger query meets no more files, it meets the same ones. */
  lemma {:induction false} SameMeeting(files: seq<File>, r: Range, r': Range)
    requires forall f :: f in files && Meets(r, f) ==> Meets(r', f)
    ensures |Meeting(files, r)| <= |Meeting(files, r')|
    ensures |Meeting(files, r)| == |Meeting(files, r')| ==> Meeting(files, r) == Meeting(files, r')
  {
    if |files| > 0 {
      assert forall f :: f in files[1..] ==> f in files;
      SameMeeting(files[1..], r, r');
    }
  }

  method SpanInputs(level: nat, files: seq<File>, a: seq<File>, b: seq<File>) returns (inputs: seq<File>, ghost q: Range)
    requires FilesOk(files) && |a| > 0
    ensures forall f :: f in files ==> (Meets(q, f) <==> MeetsHull(Elements(a + b), f))
    ensures level > 0 ==> inputs == Meeting(files, q)
    ensures InLevelOrder(inputs, files)
    ensures Elements(inputs) <= Elements(files) && forall f :: f in files && MeetsHull(Elements(a + b), f) ==> f in inputs
    ensures level == 0 ==> ClosedUnderTouch(Elements(inputs), files)
    ensures Spanned(level, files, Elements(a + b), inputs)
  {
    var lo, hi := GetRange(a + b);
    ghost var r;
    var range := Range(Some(lo.user), Some(hi.user));
    q := range;
    inputs, r := GetOverlappingInputs(level, files, range);
    MeetingInOrder(files, r);
    forall f | f in files ensures Meets(q, f) <==> MeetsHull(Elements(a + b), f) {
      MeetsIsMeetsHull(a + b, lo, hi, f);
    }
    MeetingIsHull(files, q, Elements(a + b));
    if level == 0 {
      var s := set f | f in inputs;
      assert ClosedFor(s, files, q);
      LeastSpanned(files, q, Elements(a + b), inputs);
    }
  }

  lemma LeastSpanned(files: seq<File>, q: Range, s: set<File>, part: seq<File>)
    requires forall f :: f in files ==> (Meets(q, f) <==> MeetsHull(s, f))
    requires InLevelOrder(part, files) && ClosedFor(Elements(part), files, q)
    requires forall c :: ClosedFor(c, files, q) ==> forall f :: f in part ==> f in c
    ensures Spanned(0, files, s, part)
  {
    hide Meets, MeetsHull, InLevelOrder;
    forall c | HoldsHull(files, s, c) ensures Elements(part) <= c {
      assert ClosedFor(c, files, q);
    }
  }

  lemma MeetsIsMeetsHull(s: seq<File>, lo: InternalKey, hi: InternalKey, f: File)
    requires HullOf(s, lo, hi)
    ensures Meets(Range(Some(lo.user), Some(hi.user)), f) <==> MeetsHull(Elements(s), f)
  {
    var a :| a in s && a.smallest == lo;
    var b :| b in s && b.largest == hi;
    assert a in Elements(s) && b in Elements(s);
  }

  /**
   * SetupOtherInputs: the second set holds exactly the files of level+1 that meet the span of the first,
   * and the inputs grow only when that adds no file of level+1 and the total stays under the limit.  The
   * grandparents are the files of level+2 that meet the span of both.
   */
  method SetupOtherInputs(levels: seq<seq<File>>, level: nat, inputs: seq<File>)
    returns (in0: seq<File>, in1: seq<File>, grandparents: seq<File>, ghost span: Range)
    requires |levels| == NUM_LEVELS && level + 1 < NUM_LEVELS
    requires forall lv :: 0 <= lv < NUM_LEVELS ==> FilesOk(levels[lv])
    requires |inputs| > 0 && InLevelOrder(inputs, levels[level])
    ensures Chosen(levels, level, inputs, in0, in1)
    ensures level + 2 < NUM_LEVELS ==> grandparents == HullFiles(levels[level + 2], Elements(in0 + in1))
    ensures CompactionInputs(levels, level, Elements(in0), Elements(in1))
    ensures InLevelOrder(in0, levels[level]) && InLevelOrder(in1, levels[level + 1])
    ensures if level + 2 < NUM_LEVELS then grandparents == Meeting(levels[level + 2], span) else grandparents == []
    ensures level == 0 && ClosedUnderTouch(Elements(inputs), levels[0]) ==> ClosedUnderTouch(Elements(in0), levels[0])
    ensures Elements(inputs) <= Elements(in0)
    ensures forall f :: f in in1 <==> f in levels[level + 1] && MeetsHull(Elements(inputs), f)
    ensures in0 == inputs || (|in0| > |inputs| && TotalFileSize(in0) + TotalFileSize(in1) < EXPANDED_COMPACTION_LIMIT)
    ensures level + 2 < NUM_LEVELS ==>
        forall f :: f in grandparents <==> f in levels[level + 2] && MeetsHull(Elements(in0 + in1), f)
  {
    hide MeetsHull, Meets, FileOk, InLevelOrder, ClosedUnderTouch, Spanned, Widens, HullFiles;
    OrderKeeps(inputs, levels[level]);
    in0 := inputs;
    span := Range(None, None);
    ghost var q;
    in1, q := SpanInputs(level + 1, levels[level + 1], in0, []);
    assert in0 + [] == in0;
    SpannedBelow(level + 1, levels[level + 1], Elements(inputs), in1);
    if |in1| != 0 {
      in0, in1 := Expand(levels, level, inputs, in1, q);
    }
    assert in0[0] in Elements(in0);
    grandparents := [];
    if level + 2 < NUM_LEVELS {
      grandparents, span := SpanInputs(level + 2, levels[level + 2], in0, in1);
      SpannedBelow(level + 2, levels[level + 2], Elements(in0 + in1), grandparents);
    }
  }

  lemma SpannedBelow(level: nat, files: seq<File>, s: set<File>, part: seq<File>)
    requires level > 0 && Spanned(level, files, s, part)
    ensures part == HullFiles(files, s)
  {
  }

  /** Grow the inputs of the level if that adds no file of level+1 and stays under the limit. */
  method Expand(levels: seq<seq<File>>, level: nat, inputs: seq<File>, in1: seq<File>, ghost q1: Range) returns (in0: seq<File>, in1': seq<File>)
    requires |levels| == NUM_LEVELS && level + 1 < NUM_LEVELS
    requires forall lv :: 0 <= lv < NUM_LEVELS ==> FilesOk(levels[lv])
    requires |inputs| > 0 && InLevelOrder(inputs, levels[level]) && Elements(inputs) <= Elements(levels[level])
    requires in1 == HullFiles(levels[level + 1], Elements(inputs)) == Meeting(levels[level + 1], q1)
    requires forall f :: f in levels[level + 1] ==> (Meets(q1, f) <==> MeetsHull(Elements(inputs), f))
    ensures exists wider :: Spanned(level, levels[level], Elements(inputs + in1), wider)
                            && in0 == if Widens(levels, level, inputs, in1, wider) then wider else inputs
    ensures in1' == in1 == HullFiles(levels[level + 1], Elements(in0))
    ensures InLevelOrder(in0, levels[level]) && Elements(inputs) <= Elements(in0) <= Elements(levels[level])
    ensures in0 == inputs || (|in0| > |inputs| && TotalFileSize(in0) + TotalFileSize(in1) < EXPANDED_COMPACTION_LIMIT)
    ensures level == 0 && ClosedUnderTouch(Elements(inputs), levels[0]) ==> ClosedUnderTouch(Elements(in0), levels[0])
  {
    hide MeetsHull, Meets, FileOk, InLevelOrder, ClosedUnderTouch, Spanned, HullFiles;
    in0, in1' := inputs, in1;
    ghost var q, q2;
    var expanded0;
    expanded0, q := SpanInputs(level, levels[level], inputs, in1);
    ExpandedHoldsInputs(levels[level], inputs, in1, expanded0);
    if |expanded0| > |inputs| && TotalFileSize(in1) + TotalFileSize(expanded0) < EXPANDED_COMPACTION_LIMIT {
      var expanded1;
      expanded1, q2 := SpanInputs(level + 1, levels[level + 1], expanded0, []);
      assert expanded0 + [] == expanded0;
      SpannedBelow(level + 1, levels[level + 1], Elements(expanded0), expanded1);
      SameMeeting(levels[level + 1], q1, q2);
      if |expanded1| == |in1| {
        in0, in1' := expanded0, expanded1;
      } else {
        AddsFile(levels[level + 1], in1, expanded1, Elements(inputs), Elements(expanded0));
      }
    }
  }

  /** A longer list of files holds one that was not there. */
  lemma AddsFile(files: seq<File>, in1: seq<File>, more: seq<File>, s: set<File>, s': set<File>)
    requires in1 == HullFiles(files, s) && more == HullFiles(files, s') && |in1| != |more| && forall f :: MeetsHull(s, f) ==> MeetsHull(s', f)
    ensures exists f :: f in files && MeetsHull(s', f) && f !in in1
  {
    hide MeetsHull;
    if forall f :: f in files && MeetsHull(s', f) ==> f in in1 {
      SameHull(files, s, s');
    }
  }

  lemma {:induction false} SameHull(files: seq<File>, s: set<File>, s': set<File>)
    requires forall f :: f in files ==> (MeetsHull(s, f) <==> MeetsHull(s', f))
    ensures HullFiles(files, s) == HullFiles(files, s')
  {
    hide MeetsHull;
    if |files| > 0 {
      assert files[0] in files && forall f :: f in files[1..] ==> f in files;
      SameHull(files[1..], s, s');
    }
  }

  /**
   * PickCompaction once a file has been picked: on level 0 the files that overlap it, directly or through others,
   * come with it.
   */
  method PickInputs(levels: seq<seq<File>>, level: nat, f: File) returns (inputs: seq<File>)
    requires level < |levels| && FilesOk(levels[level]) && f in levels[level]
    ensures f in inputs && InLevelOrder(inputs, levels[level])
    ensures if level > 0 then inputs == [f] else Spanned(0, levels[0], {f}, inputs) && ClosedUnderTouch(Elements(inputs), levels[0])
  {
    inputs := [f];
    OneInOrder(f, levels[level]);
    if level == 0 {
      ghost var q;
      inputs, q := SpanInputs(0, levels[0], [f], []);
      assert Elements([f] + []) == {f};
      assert MeetsHull(Elements([f] + []), f) by { assert f in Elements([f] + []) && FileOk(f); }
    }
  }

  /** The first n files reach the size limit, or are all of them; fewer do not reach it. */
  ghost predicate Cut(all: seq<File>, n: int, limit: nat) {
    && 0 <= n <= |all| && (n < |all| ==> n > 0 && TotalFileSize(all[..n]) >= limit)
    && forall i :: 0 < i < n ==> TotalFileSize(all[..i]) < limit
  }

  method CutInputs(all: seq<File>, limit: nat) returns (n: nat)
    ensures Cut(all, n, limit)
  {
    n := 0;
    var total := 0;
    while n < |all|
      invariant 0 <= n <= |all| && total == TotalFileSize(all[..n])
      invariant forall i :: 0 < i <= n ==> TotalFileSize(all[..i]) < limit
    {
      TotalSnoc(all, n);
      total := total + all[n].size;
      n := n + 1;
      if total >= limit {
        break;
      }
    }
  }

  /**
   * The inputs for a range: the files that meet it, on level 0 with all that overlap them, but no more of them than it
   * takes to reach the size limit.
   */
  ghost predicate RangeChosen(level: nat, files: seq<File>, q: Range, limit: nat, inputs: seq<File>, r: Range) {
    && Within(q, r) && (level > 0 ==> r == q)
    && (level == 0 ==> ClosedFor(Elements(Meeting(files, r)), files, q)
                       && forall c :: ClosedFor(c, files, q) ==> Elements(Meeting(files, r)) <= c)
    && inputs <= Meeting(files, r) && Cut(Meeting(files, r), |inputs|, limit)
  }

  /** CompactRange: the files that meet the range, but no more of them than it takes to reach the size limit. */
  method RangeInputs(levels: seq<seq<File>>, level: nat, q: Range, limit: nat) returns (inputs: seq<File>, ghost r: Range)
    requires level < |levels| && FilesOk(levels[level])
    ensures InLevelOrder(inputs, levels[level]) && (inputs == [] <==> !SomeMeets(q, levels[level]))
    ensures RangeChosen(level, levels[level], q, limit, inputs, r)
  {
    hide Meets, FileOk, InLevelOrder, Meeting, Cut;
    inputs, r := GetOverlappingInputs(level, levels[level], q);
    NoneMeet(level, levels[level], q, inputs);
    MeetingInOrder(levels[level], r);
    var n := CutInputs(inputs, limit);
    CutSome(inputs, n, limit);
    PrefixInOrder(inputs, levels[level], n);
    inputs := inputs[..n];
  }

  lemma CutSome(all: seq<File>, n: nat, limit: nat)
    requires Cut(all, n, limit)
    ensures n <= |all| && (n == 0 <==> all == [])
  {
  }

  lemma NoneMeet(level: nat, files: seq<File>, q: Range, inputs: seq<File>)
    requires level > 0 ==> inputs == Meeting(files, q)
    requires level == 0 ==> ClosedFor((set f | f in inputs), files, q) && forall c :: ClosedFor(c, files, q) ==> forall f :: f in inputs ==> f in c
    ensures inputs == [] <==> !SomeMeets(q, files)
  {
    hide Meets;
    if !SomeMeets(q, files) {
      assert ClosedFor({}, files, q);
    }
    assert |inputs| > 0 ==> inputs[0] in inputs;
  }

  lemma {:induction false} TotalSnoc(files: seq<File>, i: nat)
    requires i < |files|
    ensures TotalFileSize(files[..i + 1]) == TotalFileSize(files[..i]) + files[i].size
  {
    if i > 0 {
      TotalSnoc(files[1..], i - 1);
      assert files[1..][..i] == files[..i + 1][1..] && files[1..][..i - 1] == files[..i][1..];
    }
  }

  /** The files of the first set lie in the span of both. */
  lemma ExpandedHoldsInputs(files: seq<File>, in0: seq<File>, in1: seq<File>, expanded: seq<File>)
    requires FilesOk(files) && Elements(in0) <= Elements(files)
    requires forall f :: f in files && MeetsHull(Elements(in0 + in1), f) ==> f in expanded
    ensures Elements(in0) <= Elements(expanded)
    ensures forall f :: MeetsHull(Elements(in0), f) ==> MeetsHull(Elements(expanded), f)
  {
    forall f | f in in0 ensures f in expanded {
      assert f in Elements(in0) && f in files;
      assert FileOk(f);
      assert f in Elements(in0 + in1);
    }
  }
}
