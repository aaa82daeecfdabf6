/**
 * The compaction loop (DBImpl::DoCompactionWork in db/db_impl.cc) and the cursor it drives
 * (Compaction::IsBaseLevelForKey and Compaction::ShouldStopBefore in db/version_set.cc).
 */
module Compaction {
  import opened Basics
  import opened Entries
  import opened Levels
  import opened Overlap

  // ---------------------------------------------------------------------------------------
  // Which entries of the merged input are dropped

  /** Rule (A): a newer entry of the same user key is already visible at the oldest snapshot. */
  predicate Hidden(m: seq<Entry>, i: nat, oldest: Sequence)
    requires i < |m|
  {
    i > 0 && m[i - 1].key.user == m[i].key.user && m[i - 1].key.sn <= oldest
  }

  /** Rule (B): a deletion visible at the oldest snapshot, with nothing below that it could hide. */
  predicate Obsolete(e: Entry, oldest: Sequence, base: UserKey -> bool) {
    e.op.Delete? && e.key.sn <= oldest && base(e.key.user)
  }

  predicate Dropped(m: seq<Entry>, i: nat, oldest: Sequence, base: UserKey -> bool)
    requires i < |m|
  {
    Hidden(m, i, oldest) || Obsolete(m[i], oldest, base)
  }

  /** The entries kept among the first n of the merged input. */
  function Kept(m: seq<Entry>, n: nat, oldest: Sequence, base: UserKey -> bool): (r: seq<Entry>)
    requires n <= |m|
  {
    if n == 0 then []
    else Kept(m, n - 1, oldest, base) + (if Dropped(m, n - 1, oldest, base) then [] else [m[n - 1]])
  }

  lemma {:induction false} KeptMembers(m: seq<Entry>, n: nat, oldest: Sequence, base: UserKey -> bool)
    requires n <= |m|
    ensures forall e :: e in Kept(m, n, oldest, base) ==> exists i :: 0 <= i < n && m[i] == e && !Dropped(m, i, oldest, base)
    ensures forall i :: 0 <= i < n && !Dropped(m, i, oldest, base) ==> m[i] in Kept(m, n, oldest, base)
  {
    if n > 0 {
      KeptMembers(m, n - 1, oldest, base);
    }
  }

  lemma {:induction false} KeptSorted(m: seq<Entry>, n: nat, oldest: Sequence, base: UserKey -> bool)
    requires n <= |m| && Sorted(m)
    ensures Sorted(Kept(m, n, oldest, base))
  {
    if n > 0 {
      KeptSorted(m, n - 1, oldest, base);
      KeptMembers(m, n - 1, oldest, base);
      var r := Kept(m, n - 1, oldest, base);
      assert forall i :: 0 <= i < |r| ==> r[i] in r;
    }
  }

  /** Everything older than an entry visible at the oldest snapshot is dropped. */
  lemma OlderDropped(m: seq<Entry>, i: nat, j: nat, oldest: Sequence, base: UserKey -> bool)
    requires Sorted(m) && i < j < |m|
    requires m[i].key.user == m[j].key.user && m[i].key.sn <= oldest
    ensures Dropped(m, j, oldest, base)
  {
    assert !Before(m[j - 1].key, m[i].key);
    assert Before(m[j - 1].key, m[j].key);
  }

  /** No entry outside the inputs is older than a deletion that the loop may discard. */
  ghost predicate NothingBelow(p: set<Entry>, m: seq<Entry>, oldest: Sequence, base: UserKey -> bool) {
    forall d, e :: d in m && Obsolete(d, oldest, base) && e in p && e !in m && e.key.user == d.key.user
      ==> e.key.sn > d.key.sn
  }

  /** The newest visible entry of its key in m. */
  ghost predicate Leads(m: seq<Entry>, n: Entry, s: Sequence) {
    n.key.sn <= s && forall e :: e in m && Sees(e, n.key.user, s) ==> e.key.sn <= n.key.sn
  }

  lemma LeaderNotHidden(m: seq<Entry>, i: nat, oldest: Sequence, s: Sequence)
    requires Sorted(m) && i < |m| && oldest <= s && Leads(m, m[i], s)
    ensures !Hidden(m, i, oldest)
  {
    if i > 0 {
      assert m[i - 1] in m && Before(m[i - 1].key, m[i].key);
    }
  }

  lemma SeenDropped(m: seq<Entry>, i: nat, j: nat, oldest: Sequence, base: UserKey -> bool, s: Sequence)
    requires Sorted(m) && i < |m| && j < |m| && Leads(m, m[i], s) && Obsolete(m[i], oldest, base)
    requires Sees(m[j], m[i].key.user, s)
    ensures Dropped(m, j, oldest, base)
  {
    assert m[j] in m;
    if i < j {
      OlderDropped(m, i, j, oldest, base);
    }
  }

  /** If the newest visible entry is dropped, it is an obsolete deletion and nothing of its key is kept. */
  lemma DroppedNewest(m: seq<Entry>, oldest: Sequence, base: UserKey -> bool, n: Entry, s: Sequence)
    requires Sorted(m) && n in m && n !in Kept(m, |m|, oldest, base) && oldest <= s && Leads(m, n, s)
    ensures Obsolete(n, oldest, base)
    ensures forall e :: e in Kept(m, |m|, oldest, base) ==> !Sees(e, n.key.user, s)
  {
    hide Kept, Sorted, Leads, Hidden, Obsolete, Sees;
    KeptMembers(m, |m|, oldest, base);
    var i :| 0 <= i < |m| && m[i] == n;
    LeaderNotHidden(m, i, oldest, s);
    forall j | 0 <= j < |m| && Sees(m[j], n.key.user, s) ensures Dropped(m, j, oldest, base) {
      SeenDropped(m, i, j, oldest, base, s);
    }
  }

  /** The store after the merged input m has been replaced by what is kept of it. */
  ghost function AfterDrops(p: set<Entry>, m: seq<Entry>, oldest: Sequence, base: UserKey -> bool): set<Entry> {
    set e | e in p && (e !in m || e in Kept(m, |m|, oldest, base))
  }

  /**
   * The drop rules preserve the meaning of the store: replacing the merged input m by what is kept of
   * it changes no read at the oldest snapshot or later.
   */
  lemma DropsPreserveReads(p: set<Entry>, h: seq<Entry>, m: seq<Entry>, oldest: Sequence, base: UserKey -> bool,
                           k: UserKey, s: Sequence, r: Option<Entry>, r': Option<Entry>)
    requires FromHistory(p, h) && Sorted(m) && Contents(m) <= p && oldest <= s
    requires NothingBelow(p, m, oldest, base)
    requires IsNewest(p, k, s, r)
    requires IsNewest(AfterDrops(p, m, oldest, base), k, s, r')
    ensures Visible(r) == Visible(r')
  {
    if r.Some? {
      var n := r.value;
      if n in m && n !in Kept(m, |m|, oldest, base) {
        assert forall e :: e in m ==> e in Contents(m);
        DroppedNewest(m, oldest, base, n, s);
      } else {
        NewestUnique(AfterDrops(p, m, oldest, base), h, k, s, r, r');
      }
    }
  }

  // ---------------------------------------------------------------------------------------
  // The cursor over the levels below

  /** No file below the output level has a user-key range containing k. */
  predicate IsBase(levels: seq<seq<File>>, level: nat, k: UserKey) {
    forall lv, i :: level + 2 <= lv < |levels| && 0 <= i < |levels[lv]| ==> !Covers(levels[lv][i], k)
  }

  function Bytes0(files: seq<File>, lo: nat, hi: nat): (n: nat)
    requires lo <= hi <= |files|
  {
    if lo == hi then 0 else Bytes0(files, lo, hi - 1) + files[hi - 1].size
  }

  lemma {:induction false} BytesSplit(files: seq<File>, lo: nat, mid: nat, hi: nat)
    requires lo <= mid <= hi <= |files|
    ensures Bytes0(files, lo, hi) == Bytes0(files, lo, mid) + Bytes0(files, mid, hi)
  {
    if mid < hi {
      BytesSplit(files, lo, mid, hi - 1);
    }
  }

  /** The file's range shares an internal key with [first, last]. */
  predicate MeetsKeys(f: File, first: InternalKey, last: InternalKey) {
    !Before(f.largest, first) && !Before(last, f.smallest)
  }

  /** Total size of the first n files that overlap the key range of an output. */
  function OverlapBytes(files: seq<File>, n: nat, first: InternalKey, last: InternalKey): (b: nat)
    requires n <= |files|
  {
    if n == 0 then 0
    else OverlapBytes(files, n - 1, first, last) + (if MeetsKeys(files[n - 1], first, last) then files[n - 1].size else 0)
  }

  /** Only files from the one reached at the first key to the one reached at the last can overlap. */
  lemma {:induction false} OverlapWithin(files: seq<File>, n: nat, first: InternalKey, last: InternalKey, lo: nat, hi: nat)
    requires n <= |files| && lo <= hi <= |files|
    requires forall i :: 0 <= i < lo ==> Before(files[i].largest, first)
    requires forall i :: hi <= i < |files| ==> Before(last, files[i].smallest)
    ensures OverlapBytes(files, n, first, last) <= if n <= lo then 0 else if n <= hi then Bytes0(files, lo, n) else Bytes0(files, lo, hi)
  {
    if n > 0 {
      OverlapWithin(files, n - 1, first, last, lo, hi);
    }
  }

  /** The output overlaps at most the permitted grandparent bytes plus one grandparent file. */
  ghost predicate OverlapBounded(grandparents: seq<File>, out: seq<Entry>)
    requires |out| > 0
  {
    var b := OverlapBytes(grandparents, |grandparents|, out[0].key, out[|out| - 1].key);
    b <= MAX_GRANDPARENT_OVERLAP || exists g :: g in grandparents && b <= MAX_GRANDPARENT_OVERLAP + g.size
  }

  ghost predicate ShapeOk(levels: seq<seq<File>>, grandparents: seq<File>) {
    && |levels| == NUM_LEVELS
    && (forall lv :: 1 <= lv < NUM_LEVELS ==> FilesOk(levels[lv]) && SortedLevel(levels[lv]))
    && FilesOk(grandparents) && SortedLevel(grandparents)
  }

  /** Every file a level pointer has passed ends before the last user key asked about. */
  ghost predicate PointersOk(levels: seq<seq<File>>, ptrs: seq<nat>, asked: Option<UserKey>) {
    && |ptrs| == |levels|
    && (forall lv :: 0 <= lv < |levels| ==> ptrs[lv] <= |levels[lv]|)
    && (forall lv, i :: 0 <= lv < |levels| && 0 <= i < ptrs[lv] ==> asked.Some? && levels[lv][i].largest.user < asked.value)
  }

  /** The index separates the grandparents that end before the last key seen from the others. */
  ghost predicate PassedOk(grandparents: seq<File>, index: nat, seen: Option<InternalKey>) {
    && index <= |grandparents|
    && (seen.None? ==> index == 0)
    && (seen.Some? ==> forall i :: 0 <= i < index ==> Before(grandparents[i].largest, seen.value))
    && (seen.Some? && index < |grandparents| ==> !Before(grandparents[index].largest, seen.value))
  }

  class Cursor {
    const level: nat
    const levels: seq<seq<File>>
    const grandparents: seq<File>
    var levelPtrs: seq<nat>
    var grandparentIndex: nat
    var seenKey: bool
    var overlappedBytes: nat
    /** The last user key asked about, the last internal key seen, and where the byte count started. */
    ghost var asked: Option<UserKey>
    ghost var seen: Option<InternalKey>
    ghost var countedFrom: nat

    ghost predicate Valid()
      reads this
    {
      && ShapeOk(levels, grandparents)
      && PointersOk(levels, levelPtrs, asked)
      && PassedOk(grandparents, grandparentIndex, seen)
      && (seenKey <==> seen.Some?)
      && countedFrom <= grandparentIndex
      && overlappedBytes == Bytes0(grandparents, countedFrom, grandparentIndex)
      && overlappedBytes <= MAX_GRANDPARENT_OVERLAP
    }

    constructor (level: nat, levels: seq<seq<File>>, grandparents: seq<File>)
      requires ShapeOk(levels, grandparents)
      ensures Valid() && asked == None && seen == None
      ensures this.level == level && this.levels == levels && this.grandparents == grandparents
    {
      this.level, this.levels, this.grandparents := level, levels, grandparents;
      levelPtrs, grandparentIndex, seenKey, overlappedBytes := seq(NUM_LEVELS, i => 0), 0, false, 0;
      asked, seen, countedFrom := None, None, 0;
    }

    /** The pointers only move forward, yet every non-decreasing run of queries is answered exactly. */
    method IsBaseLevelForKey(k: UserKey) returns (b: bool)
      requires Valid() && (asked.Some? ==> asked.value <= k)
      modifies this`levelPtrs, this`asked
      ensures Valid() && asked == Some(k)
      ensures b == IsBase(levels, level, k)
    {
      asked := Some(k);
      var lvl := level + 2;
      while lvl < NUM_LEVELS
        invariant Valid() && asked == Some(k)
        invariant forall lv, i :: level + 2 <= lv < lvl && lv < NUM_LEVELS && 0 <= i < |levels[lv]| ==> !Covers(levels[lv][i], k)
      {
        var files := levels[lvl];
        while levelPtrs[lvl] < |files|
          invariant Valid() && asked == Some(k)
          decreases |files| - levelPtrs[lvl]
        {
          var f := files[levelPtrs[lvl]];
          if k <= f.largest.user {
            if k >= f.smallest.user {
              return false;
            }
            break;
          }
          levelPtrs := levelPtrs[lvl := levelPtrs[lvl] + 1];
        }
        forall i | 0 <= i < |files| ensures !Covers(files[i], k) {
          if levelPtrs[lvl] < i {
            SmallestAscend(files, levelPtrs[lvl], i);
          }
        }
        lvl := lvl + 1;
      }
      b := true;
    }

    /** Stops exactly when more than the permitted grandparent bytes were passed since the count restarted. */
    method ShouldStopBefore(key: InternalKey) returns (b: bool)
      requires Valid() && (seen.Some? ==> !Before(key, seen.value))
      modifies this`grandparentIndex, this`seenKey, this`overlappedBytes, this`seen, this`countedFrom
      ensures Valid() && seen == Some(key)
      ensures b ==> countedFrom == grandparentIndex
      ensures !b && old(seenKey) ==> countedFrom == old(countedFrom)
      ensures !b && !old(seenKey) ==> countedFrom == grandparentIndex
      ensures old(grandparentIndex) <= grandparentIndex
      ensures b == (old(seenKey) && old(overlappedBytes) + Bytes0(grandparents, old(grandparentIndex), grandparentIndex) > MAX_GRANDPARENT_OVERLAP)
    {
      ghost var index0 := grandparentIndex;
      ghost var from := if seenKey then countedFrom else grandparentIndex;
      while grandparentIndex < |grandparents| && Before(grandparents[grandparentIndex].largest, key)
        invariant index0 <= grandparentIndex <= |grandparents|
        invariant forall i :: 0 <= i < grandparentIndex ==> Before(grandparents[i].largest, key)
        invariant from == if seenKey then countedFrom else grandparentIndex
        invariant from <= grandparentIndex && (!seenKey ==> index0 == 0)
        invariant overlappedBytes == if seenKey then Bytes0(grandparents, from, grandparentIndex) else 0
        invariant unchanged(`seenKey) && unchanged(`countedFrom) && unchanged(`seen)
      {
        if seenKey {
          overlappedBytes := overlappedBytes + grandparents[grandparentIndex].size;
        } else {
          from := from + 1;
        }
        grandparentIndex := grandparentIndex + 1;
      }
      if seenKey {
        BytesSplit(grandparents, from, index0, grandparentIndex);
      }
      seenKey, seen, countedFrom := true, Some(key), from;
      if overlappedBytes > MAX_GRANDPARENT_OVERLAP {
        overlappedBytes, countedFrom := 0, grandparentIndex;
        return true;
      } else {
        return false;
      }
    }
  }

  // ---------------------------------------------------------------------------------------
  // The loop

  function BaseOf(levels: seq<seq<File>>, level: nat): (base: UserKey -> bool) {
    k => IsBase(levels, level, k)
  }

  /** The merged input holds a newer entry of the same user key that the oldest snapshot sees. */
  ghost predicate Overwritten(m: seq<Entry>, e: Entry, oldest: Sequence) {
    exists x :: x in m && x.key.user == e.key.user && e.key.sn < x.key.sn <= oldest
  }

  /** A deletion that every snapshot sees, of a user key that no file below the output level has in its range. */
  ghost predicate Spent(levels: seq<seq<File>>, level: nat, e: Entry, oldest: Sequence) {
    && e.op.Delete? && e.key.sn <= oldest
    && forall lv, f :: level + 2 <= lv < |levels| && f in levels[lv] ==> !(f.smallest.user <= e.key.user <= f.largest.user)
  }

  lemma HiddenIff(m: seq<Entry>, i: nat, oldest: Sequence)
    requires Sorted(m) && i < |m|
    ensures Hidden(m, i, oldest) <==> Overwritten(m, m[i], oldest)
  {
    if Hidden(m, i, oldest) {
      assert m[i - 1] in m && Before(m[i - 1].key, m[i].key);
    }
    if Overwritten(m, m[i], oldest) {
      var x :| x in m && x.key.user == m[i].key.user && m[i].key.sn < x.key.sn <= oldest;
      var j :| 0 <= j < |m| && m[j] == x;
      assert j < i;
      assert j < i - 1 ==> Before(m[j].key, m[i - 1].key) && Before(m[i - 1].key, m[i].key);
    }
  }

  lemma SpentIff(levels: seq<seq<File>>, level: nat, e: Entry, oldest: Sequence)
    ensures Obsolete(e, oldest, BaseOf(levels, level)) <==> Spent(levels, level, e, oldest)
  {
    if Obsolete(e, oldest, BaseOf(levels, level)) {
      forall lv, f | level + 2 <= lv < |levels| && f in levels[lv] ensures !(f.smallest.user <= e.key.user <= f.largest.user) {
        var i :| 0 <= i < |levels[lv]| && levels[lv][i] == f;
        assert !Covers(levels[lv][i], e.key.user);
      }
    }
  }

  /** What is kept of the merged input: all but overwritten entries and spent deletions, in order. */
  lemma KeptIs(levels: seq<seq<File>>, level: nat, m: seq<Entry>, oldest: Sequence)
    requires Sorted(m)
    ensures var kept := Kept(m, |m|, oldest, BaseOf(levels, level));
            && Sorted(kept)
            && forall e :: e in kept <==> e in m && !Overwritten(m, e, oldest) && !Spent(levels, level, e, oldest)
  {
    hide Kept, Hidden, Obsolete, Overwritten, Spent, BaseOf, Sorted;
    var base := BaseOf(levels, level);
    KeptMembers(m, |m|, oldest, base);
    KeptSorted(m, |m|, oldest, base);
    forall i | 0 <= i < |m| ensures Dropped(m, i, oldest, base) <==> Overwritten(m, m[i], oldest) || Spent(levels, level, m[i], oldest) {
      HiddenIff(m, i, oldest);
      SpentIff(levels, level, m[i], oldest);
    }
  }

  /** The entry is in one of the outputs. */
  ghost predicate InOutputs(outputs: seq<seq<Entry>>, e: Entry) {
    exists out :: out in outputs && e in out
  }

  lemma {:induction false} FlatMembers(outputs: seq<seq<Entry>>)
    ensures forall e :: e in Flat(outputs) <==> InOutputs(outputs, e)
  {
    if |outputs| > 0 {
      var n := |outputs| - 1;
      FlatMembers(outputs[..n]);
      assert outputs == outputs[..n] + [outputs[n]];
    }
  }

  function Flat(outputs: seq<seq<Entry>>): (r: seq<Entry>) {
    if |outputs| == 0 then [] else Flat(outputs[..|outputs| - 1]) + outputs[|outputs| - 1]
  }

  lemma FlatSnoc(outputs: seq<seq<Entry>>, out: seq<Entry>)
    ensures Flat(outputs + [out]) == Flat(outputs) + out
  {
    assert (outputs + [out])[..|outputs|] == outputs;
  }

  /** What the loop remembers of the grandparents that the output being built may overlap. */
  ghost predicate BuildOk(grandparents: seq<File>, out: seq<Entry>, lo: nat, hi: nat) {
    |out| > 0 ==>
      && lo <= hi <= |grandparents|
      && Bytes0(grandparents, lo, hi) <= MAX_GRANDPARENT_OVERLAP
      && (forall i :: 0 <= i < lo ==> Before(grandparents[i].largest, out[0].key))
      && (hi < |grandparents| ==> !Before(grandparents[hi].largest, out[|out| - 1].key))
  }

  lemma BuildBounded(grandparents: seq<File>, out: seq<Entry>, lo: nat, hi: nat)
    requires SortedLevel(grandparents) && |out| > 0 && BuildOk(grandparents, out, lo, hi)
    ensures OverlapBounded(grandparents, out)
  {
    var n := |grandparents|;
    var hi' := if hi < n then hi + 1 else hi;
    forall i | hi' <= i < n ensures Before(out[|out| - 1].key, grandparents[i].smallest) {
      assert Before(grandparents[hi].largest, grandparents[i].smallest);
    }
    OverlapWithin(grandparents, n, out[0].key, out[|out| - 1].key, lo, hi');
    if hi < n {
      assert grandparents[hi] in grandparents;
    }
  }

  ghost predicate OutputsOk(grandparents: seq<File>, outputs: seq<seq<Entry>>) {
    forall out :: out in outputs ==> |out| > 0 && OverlapBounded(grandparents, out)
  }

  /** The size an output may reach, and how it is measured: fileSize stands for TableBuilder::FileSize. */
  datatype SizeLimit = SizeLimit(fileSize: seq<Entry> -> nat, most: nat)

  /** Every output was below the limit before its last entry was added. */
  ghost predicate Sized(limit: SizeLimit, outputs: seq<seq<Entry>>) {
    forall out, j :: out in outputs && 0 < j < |out| ==> limit.fileSize(out[..j]) < limit.most
  }

  /** The output being built is still below the limit. */
  ghost predicate Open(limit: SizeLimit, out: seq<Entry>) {
    forall j :: 0 < j <= |out| ==> limit.fileSize(out[..j]) < limit.most
  }

  lemma OpenGrows(limit: SizeLimit, out: seq<Entry>, e: Entry)
    requires Open(limit, out)
    ensures forall j :: 0 < j < |out + [e]| ==> limit.fileSize((out + [e])[..j]) < limit.most
    ensures limit.fileSize(out + [e]) < limit.most ==> Open(limit, out + [e])
  {
    assert (out + [e])[..|out| + 1] == out + [e];
    forall j | 0 < j <= |out| ensures limit.fileSize((out + [e])[..j]) < limit.most {
      assert (out + [e])[..j] == out[..j];
    }
  }

  /** The grandparents counted from one restart of the count to the next. */
  datatype Mark = Mark(lo: nat, hi: nat)

  /** The output was closed although it is not full. */
  ghost predicate Early(limit: SizeLimit, out: seq<Entry>) {
    limit.fileSize(out) < limit.most
  }

  /** Too many grandparent bytes lie before next, and not all of them before the last key of the output. */
  ghost predicate Crossed(grandparents: seq<File>, out: seq<Entry>, mark: Mark, next: InternalKey) {
    && |out| > 0 && mark.lo <= mark.hi <= |grandparents| && mark.hi > 0
    && Bytes0(grandparents, mark.lo, mark.hi) > MAX_GRANDPARENT_OVERLAP
    && (forall i :: 0 <= i < mark.hi ==> Before(grandparents[i].largest, next))
    && !Before(grandparents[mark.hi - 1].largest, out[|out| - 1].key)
  }

  /** An output followed by another one is full, or was closed for grandparent bytes that count for no other output. */
  ghost predicate ClosedRightly(grandparents: seq<File>, limit: SizeLimit, outputs: seq<seq<Entry>>, marks: seq<Mark>) {
    && |marks| == |outputs|
    && (forall n :: 0 <= n < |outputs| - 1 && Early(limit, outputs[n]) ==>
          |outputs[n + 1]| > 0 && Crossed(grandparents, outputs[n], marks[n], outputs[n + 1][0].key))
    && (forall n, n' :: 0 <= n < n' < |outputs| - 1 && Early(limit, outputs[n]) && Early(limit, outputs[n']) ==> marks[n].hi <= marks[n'].lo)
  }

  /** The last output, if it was closed early, and the output being built: from is where the byte count started, last the last key seen. */
  ghost predicate Pending(grandparents: seq<File>, limit: SizeLimit, outputs: seq<seq<Entry>>, marks: seq<Mark>, out: seq<Entry>,
                          from: nat, last: Option<InternalKey>)
    requires |marks| == |outputs|
  {
    && (forall n :: 0 <= n < |outputs| && Early(limit, outputs[n]) ==> marks[n].hi <= from)
    && (forall n, n' :: 0 <= n < n' < |outputs| && Early(limit, outputs[n]) && Early(limit, outputs[n']) ==> marks[n].hi <= marks[n'].lo)
    && (var n := |outputs| - 1;
        n >= 0 && Early(limit, outputs[n]) ==>
          && last.Some? && Crossed(grandparents, outputs[n], marks[n], last.value)
          && (|out| > 0 ==> Crossed(grandparents, outputs[n], marks[n], out[0].key)))
    && (|out| > 0 ==> last.Some? && !Before(last.value, out[|out| - 1].key))
  }

  /** All that the loop promises of the finished outputs and of the one being built. */
  ghost predicate Progress(grandparents: seq<File>, limit: SizeLimit, outputs: seq<seq<Entry>>, marks: seq<Mark>, out: seq<Entry>,
                           lo: nat, hi: nat, from: nat, last: Option<InternalKey>) {
    && OutputsOk(grandparents, outputs) && Sized(limit, outputs) && Open(limit, out) && BuildOk(grandparents, out, lo, hi)
    && ClosedRightly(grandparents, limit, outputs, marks) && Pending(grandparents, limit, outputs, marks, out, from, last)
  }

  lemma NothingBuilt(grandparents: seq<File>, limit: SizeLimit, lo: nat, hi: nat, from: nat)
    ensures Progress(grandparents, limit, [], [], [], lo, hi, from, None)
  {
  }

  lemma CrossedLater(grandparents: seq<File>, out: seq<Entry>, mark: Mark, next: InternalKey, later: InternalKey)
    requires Crossed(grandparents, out, mark, next) && (Before(next, later) || next == later)
    ensures Crossed(grandparents, out, mark, later)
  {
  }

  /** The next key is looked at. */
  lemma ProgressSees(grandparents: seq<File>, limit: SizeLimit, outputs: seq<seq<Entry>>, marks: seq<Mark>, out: seq<Entry>,
                     lo: nat, hi: nat, from: nat, last: Option<InternalKey>, from': nat, key: InternalKey)
    requires Progress(grandparents, limit, outputs, marks, out, lo, hi, from, last) && from <= from' && (last.Some? ==> Before(last.value, key))
    ensures Progress(grandparents, limit, outputs, marks, out, lo, hi, from', Some(key))
  {
    hide OutputsOk, Sized, Open, BuildOk, ClosedRightly, Crossed, Early;
    var n := |outputs| - 1;
    assert |marks| == |outputs| by { Matched(grandparents, limit, outputs, marks); }
    if n >= 0 && Early(limit, outputs[n]) {
      CrossedLater(grandparents, outputs[n], marks[n], last.value, key);
    }
  }

  lemma Matched(grandparents: seq<File>, limit: SizeLimit, outputs: seq<seq<Entry>>, marks: seq<Mark>)
    requires ClosedRightly(grandparents, limit, outputs, marks)
    ensures |marks| == |outputs|
  {
  }

  /** FinishCompactionOutputFile: the output being built joins the finished ones. */
  method FinishOutput(ghost grandparents: seq<File>, outputs: seq<seq<Entry>>, ghost marks: seq<Mark>, out: seq<Entry>, ghost lo: nat, ghost hi: nat,
                      ghost limit: SizeLimit, ghost from: nat, ghost last: Option<InternalKey>, ghost mark: Mark)
    returns (outputs': seq<seq<Entry>>, ghost marks': seq<Mark>)
    requires SortedLevel(grandparents) && OutputsOk(grandparents, outputs) && Sized(limit, outputs)
    requires ClosedRightly(grandparents, limit, outputs, marks) && Pending(grandparents, limit, outputs, marks, out, from, last)
    requires |out| > 0 && BuildOk(grandparents, out, lo, hi)
    requires forall j :: 0 < j < |out| ==> limit.fileSize(out[..j]) < limit.most
    ensures outputs' == outputs + [out] && marks' == marks + [mark]
    ensures OutputsOk(grandparents, outputs') && Sized(limit, outputs') && ClosedRightly(grandparents, limit, outputs', marks')
    ensures Flat(outputs') == Flat(outputs) + out
  {
    hide Sized, ClosedRightly, Pending, BuildOk, OverlapBounded;
    BuildBounded(grandparents, out, lo, hi);
    ClosesSized(limit, outputs, out);
    ClosesRightly(grandparents, limit, outputs, marks, out, from, last, mark);
    FlatSnoc(outputs, out);
    outputs', marks' := outputs + [out], marks + [mark];
  }

  lemma ClosesSized(limit: SizeLimit, outputs: seq<seq<Entry>>, out: seq<Entry>)
    requires Sized(limit, outputs) && forall j :: 0 < j < |out| ==> limit.fileSize(out[..j]) < limit.most
    ensures Sized(limit, outputs + [out])
  {
  }

  lemma ClosesRightly(grandparents: seq<File>, limit: SizeLimit, outputs: seq<seq<Entry>>, marks: seq<Mark>, out: seq<Entry>,
                      from: nat, last: Option<InternalKey>, mark: Mark)
    requires ClosedRightly(grandparents, limit, outputs, marks) && |out| > 0 && Pending(grandparents, limit, outputs, marks, out, from, last)
    ensures ClosedRightly(grandparents, limit, outputs + [out], marks + [mark])
  {
    hide Crossed, Early;
    var outputs', marks' := outputs + [out], marks + [mark];
    forall n | 0 <= n < |outputs'| - 1 && Early(limit, outputs'[n])
      ensures |outputs'[n + 1]| > 0 && Crossed(grandparents, outputs'[n], marks'[n], outputs'[n + 1][0].key)
    {
      assert outputs'[n] == outputs[n] && marks'[n] == marks[n];
      assert n < |outputs| - 1 ==> outputs'[n + 1] == outputs[n + 1];
    }
  }

  /** The mark of an output that is closed early: the count exceeds the bound between the last key seen and the next one. */
  lemma MarkCrosses(grandparents: seq<File>, out: seq<Entry>, seen: InternalKey, from: nat, passed: nat, hi: nat, key: InternalKey)
    requires SortedLevel(grandparents) && FilesOk(grandparents) && |out| > 0 && from <= passed <= hi <= |grandparents|
    requires Bytes0(grandparents, from, passed) <= MAX_GRANDPARENT_OVERLAP < Bytes0(grandparents, from, hi)
    requires (passed < |grandparents| ==> !Before(grandparents[passed].largest, seen)) && !Before(seen, out[|out| - 1].key)
    requires forall i :: 0 <= i < hi ==> Before(grandparents[i].largest, key)
    ensures Crossed(grandparents, out, Mark(from, hi), key)
  {
    hide Bytes0, SortedLevel, FileOk;
    assert passed < hi;
    LargestAscend(grandparents, passed, hi - 1);
  }

  lemma LargestAscend(files: seq<File>, i: nat, j: nat)
    requires SortedLevel(files) && FilesOk(files) && i <= j < |files|
    ensures !Before(files[j].largest, files[i].largest)
  {
    if i < j {
      assert FileOk(files[j]);
      InRange(files[j], files[j].entries[0]);
    }
  }

  /** Close the output being built because of the grandparents; the count starts anew. */
  method StopOutput(ghost grandparents: seq<File>, outputs: seq<seq<Entry>>, ghost marks: seq<Mark>, out: seq<Entry>, ghost lo: nat, ghost hi: nat,
                    ghost limit: SizeLimit, ghost from: nat, ghost seen: Option<InternalKey>, ghost passed: nat, ghost key: InternalKey)
    returns (outputs': seq<seq<Entry>>, ghost marks': seq<Mark>)
    requires SortedLevel(grandparents) && Progress(grandparents, limit, outputs, marks, out, lo, hi, from, seen) && |out| > 0
    requires from <= passed && Crossed(grandparents, out, Mark(from, passed), key)
    ensures Progress(grandparents, limit, outputs', marks', [], lo, hi, passed, Some(key))
    ensures Flat(outputs') == Flat(outputs) + out
  {
    hide Sized, ClosedRightly, BuildOk, OutputsOk, Crossed, Early, Flat;
    OpenIsSized(limit, out);
    Matched(grandparents, limit, outputs, marks);
    outputs', marks' := FinishOutput(grandparents, outputs, marks, out, lo, hi, limit, from, seen, Mark(from, passed));
    NothingOpen(grandparents, limit, lo, hi);
  }

  lemma NothingOpen(grandparents: seq<File>, limit: SizeLimit, lo: nat, hi: nat)
    ensures Open(limit, []) && BuildOk(grandparents, [], lo, hi)
  {
  }

  lemma OpenIsSized(limit: SizeLimit, out: seq<Entry>)
    requires Open(limit, out)
    ensures forall j :: 0 < j < |out| ==> limit.fileSize(out[..j]) < limit.most
    ensures |out| > 0 ==> Early(limit, out)
  {
    assert out[..|out|] == out;
  }

  /** The drop decision for m[i], given the sequence number remembered for its user key. */
  method DecideDrop(c: Cursor, ghost m: seq<Entry>, ghost i: nat, e: Entry, lastSequenceForKey: Sequence, oldest: Sequence)
    returns (drop: bool)
    requires c.Valid() && i < |m| && m[i] == e && (c.asked.Some? ==> c.asked.value <= e.key.user)
    requires (lastSequenceForKey <= oldest) == Hidden(m, i, oldest)
    modifies c`levelPtrs, c`asked
    ensures c.Valid() && (c.asked.Some? ==> c.asked.value <= e.key.user)
    ensures drop == Dropped(m, i, oldest, BaseOf(c.levels, c.level))
  {
    drop := false;
    if lastSequenceForKey <= oldest {
      drop := true;
    } else if e.op.Delete? && e.key.sn <= oldest {
      drop := c.IsBaseLevelForKey(e.key.user);
    }
  }

  /** Add e to the output being built, and close the output when it is big enough. */
  method AddEntry(ghost grandparents: seq<File>, outputs: seq<seq<Entry>>, ghost marks: seq<Mark>, builder: seq<Entry>, e: Entry,
                  ghost lo: nat, ghost hi: nat, limit: SizeLimit, ghost from: nat)
    returns (outputs': seq<seq<Entry>>, builder': seq<Entry>, ghost marks': seq<Mark>)
    requires SortedLevel(grandparents) && OutputsOk(grandparents, outputs) && Sized(limit, outputs)
    requires BuildOk(grandparents, builder + [e], lo, hi) && Open(limit, builder)
    requires ClosedRightly(grandparents, limit, outputs, marks) && Pending(grandparents, limit, outputs, marks, builder, from, Some(e.key))
    ensures Progress(grandparents, limit, outputs', marks', builder', lo, hi, from, Some(e.key))
    ensures Flat(outputs') + builder' == (Flat(outputs) + builder) + [e]
    ensures builder' == [] <==> limit.fileSize(builder + [e]) >= limit.most
  {
    hide ClosedRightly, Pending, OutputsOk, BuildOk, Sized;
    outputs', builder', marks' := outputs, builder + [e], marks;
    OpenGrows(limit, builder, e);
    Matched(grandparents, limit, outputs, marks);
    PendingGrows(grandparents, limit, outputs, marks, builder, from, e);
    if limit.fileSize(builder') >= limit.most {
      outputs', marks' := FinishOutput(grandparents, outputs, marks, builder', lo, hi, limit, from, Some(e.key), Mark(0, 0));
      FullPending(grandparents, limit, outputs, marks, builder', from, Some(e.key), Mark(0, 0));
      builder' := [];
      NothingOpen(grandparents, limit, lo, hi);
    }
  }

  lemma PendingGrows(grandparents: seq<File>, limit: SizeLimit, outputs: seq<seq<Entry>>, marks: seq<Mark>, out: seq<Entry>, from: nat, e: Entry)
    requires |marks| == |outputs| && Pending(grandparents, limit, outputs, marks, out, from, Some(e.key))
    ensures Pending(grandparents, limit, outputs, marks, out + [e], from, Some(e.key))
  {
    hide Crossed, Early;
  }

  /** A full output leaves nothing pending. */
  lemma FullPending(grandparents: seq<File>, limit: SizeLimit, outputs: seq<seq<Entry>>, marks: seq<Mark>, out: seq<Entry>,
                    from: nat, last: Option<InternalKey>, mark: Mark)
    requires |marks| == |outputs| && Pending(grandparents, limit, outputs, marks, out, from, last) && limit.fileSize(out) >= limit.most
    ensures Pending(grandparents, limit, outputs + [out], marks + [mark], [], from, last)
  {
    hide Crossed;
    var outputs', marks' := outputs + [out], marks + [mark];
    assert forall n :: 0 <= n < |outputs| ==> outputs'[n] == outputs[n] && marks'[n] == marks[n];
  }

  /**
   * DoCompactionWork on the merged input: the outputs, put one after another, are exactly the entries
   * that the drop rules keep, told without them as the entries that are neither overwritten nor spent
   * deletions; none is empty, each respects the bounds on its size and on the grandparents it overlaps,
   * and none but the last is closed before it has to be.
   */
  method DoCompactionWork(c: Cursor, m: seq<Entry>, oldest: Sequence, limit: SizeLimit)
    returns (outputs: seq<seq<Entry>>, ghost marks: seq<Mark>)
    requires c.Valid() && c.asked == None && c.seen == None
    requires Sorted(m) && oldest < MAX_SEQUENCE
    modifies c
    ensures Flat(outputs) == Kept(m, |m|, oldest, BaseOf(c.levels, c.level)) && Sorted(Flat(outputs))
    ensures forall e :: InOutputs(outputs, e) <==> e in m && !Overwritten(m, e, oldest) && !Spent(c.levels, c.level, e, oldest)
    ensures OutputsOk(c.grandparents, outputs) && Sized(limit, outputs) && ClosedRightly(c.grandparents, limit, outputs, marks)
  {
    hide PointersOk, Bytes0, Obsolete, IsBase, Progress, Flat, InOutputs, Overwritten, Spent, Sized, ClosedRightly, OutputsOk;
    var builder: seq<Entry>;
    ghost var lo: nat, hi: nat;
    outputs, marks, builder, lo, hi := RunLoop(c, m, oldest, limit);
    ProgressMeans(c.grandparents, limit, outputs, marks, builder, lo, hi, c.countedFrom, c.seen);
    if |builder| > 0 {
      outputs, marks := FinishOutput(c.grandparents, outputs, marks, builder, lo, hi, limit, c.countedFrom, c.seen, Mark(0, 0));
    }
    assert Flat(outputs) + [] == Flat(outputs);
    KeptIs(c.levels, c.level, m, oldest);
    FlatMembers(outputs);
  }

  lemma ProgressMeans(grandparents: seq<File>, limit: SizeLimit, outputs: seq<seq<Entry>>, marks: seq<Mark>, out: seq<Entry>,
                      lo: nat, hi: nat, from: nat, last: Option<InternalKey>)
    requires Progress(grandparents, limit, outputs, marks, out, lo, hi, from, last)
    ensures OutputsOk(grandparents, outputs) && Sized(limit, outputs) && BuildOk(grandparents, out, lo, hi)
    ensures ClosedRightly(grandparents, limit, outputs, marks) && Pending(grandparents, limit, outputs, marks, out, from, last)
    ensures Open(limit, out) && forall j :: 0 < j < |out| ==> limit.fileSize(out[..j]) < limit.most
  {
    OpenIsSized(limit, out);
  }

  /** The loop over the merged input. */
  method RunLoop(c: Cursor, m: seq<Entry>, oldest: Sequence, limit: SizeLimit)
    returns (outputs: seq<seq<Entry>>, ghost marks: seq<Mark>, builder: seq<Entry>, ghost lo: nat, ghost hi: nat)
    requires c.Valid() && c.asked == None && c.seen == None
    requires Sorted(m) && oldest < MAX_SEQUENCE
    modifies c
    ensures c.Valid() && Flat(outputs) + builder == Kept(m, |m|, oldest, BaseOf(c.levels, c.level))
    ensures Progress(c.grandparents, limit, outputs, marks, builder, lo, hi, c.countedFrom, c.seen)
  {
    hide PointersOk, OverlapBounded, Bytes0, Obsolete, IsBase, Progress, Flat, BuildOk, Pending, ClosedRightly, Sized, Open, OutputsOk;
    lo, hi := 0, 0;
    NothingBuilt(c.grandparents, limit, lo, hi, c.countedFrom);
    outputs, marks, builder := [], [], [];
    NothingFlat();
    var hasCurrentUserKey, currentUserKey, lastSequenceForKey := false, 0.0, MAX_SEQUENCE;
    ghost var base := BaseOf(c.levels, c.level);
    for i := 0 to |m|
      invariant c.Valid()
      invariant i == 0 ==> c.seen == None && c.asked == None && !hasCurrentUserKey && builder == []
      invariant i > 0 ==> c.seen == Some(m[i - 1].key) && (c.asked.Some? ==> c.asked.value <= m[i - 1].key.user)
      invariant i > 0 ==> hasCurrentUserKey && currentUserKey == m[i - 1].key.user && lastSequenceForKey == m[i - 1].key.sn
      invariant Flat(outputs) + builder == Kept(m, i, oldest, base)
      invariant Progress(c.grandparents, limit, outputs, marks, builder, lo, hi, c.countedFrom, c.seen)
      invariant |builder| > 0 ==> c.countedFrom <= lo <= c.grandparentIndex
    {
      var e := m[i];
      outputs, builder, marks := StopBefore(c, e.key, outputs, marks, builder, lo, hi, limit);
      if !hasCurrentUserKey || e.key.user != currentUserKey {
        hasCurrentUserKey, currentUserKey, lastSequenceForKey := true, e.key.user, MAX_SEQUENCE;
      }
      var drop := DecideDrop(c, m, i, e, lastSequenceForKey, oldest);
      lastSequenceForKey := e.key.sn;
      if !drop {
        ProgressMeans(c.grandparents, limit, outputs, marks, builder, lo, hi, c.countedFrom, c.seen);
        ghost var lo' := if |builder| == 0 then c.grandparentIndex else lo;
        BuildGrows(c.grandparents, builder, e, lo, hi, lo', c.grandparentIndex, c.countedFrom);
        lo, hi := lo', c.grandparentIndex;
        outputs, builder, marks := AddEntry(c.grandparents, outputs, marks, builder, e, lo, hi, limit, c.countedFrom);
      }
      assert Kept(m, i + 1, oldest, base) == Kept(m, i, oldest, base) + (if drop then [] else [e]);
    }
  }

  lemma NothingFlat()
    ensures Flat([]) == []
  {
  }

  /** Where the entry goes, the grandparents passed so far are all that end before it. */
  lemma BuildGrows(grandparents: seq<File>, out: seq<Entry>, e: Entry, lo: nat, hi: nat, lo': nat, index: nat, from: nat)
    requires BuildOk(grandparents, out, lo, hi) && lo' == (if |out| == 0 then index else lo) && from <= lo' <= index <= |grandparents|
    requires Bytes0(grandparents, from, index) <= MAX_GRANDPARENT_OVERLAP
    requires forall i :: 0 <= i < index ==> Before(grandparents[i].largest, e.key)
    requires index < |grandparents| ==> !Before(grandparents[index].largest, e.key)
    ensures BuildOk(grandparents, out + [e], lo', index)
  {
    BytesSplit(grandparents, from, lo', index);
  }

  /** Look at the next key, and close the output being built if it would overlap too much. */
  method StopBefore(c: Cursor, key: InternalKey, outputs: seq<seq<Entry>>, ghost marks: seq<Mark>, builder: seq<Entry>, ghost lo: nat, ghost hi: nat,
                    ghost limit: SizeLimit)
    returns (outputs': seq<seq<Entry>>, builder': seq<Entry>, ghost marks': seq<Mark>)
    requires c.Valid() && (c.seen.Some? ==> Before(c.seen.value, key)) && (c.seen.None? ==> builder == [])
    requires Progress(c.grandparents, limit, outputs, marks, builder, lo, hi, c.countedFrom, c.seen)
    requires |builder| > 0 ==> c.countedFrom <= lo <= c.grandparentIndex
    modifies c`grandparentIndex, c`seenKey, c`overlappedBytes, c`seen, c`countedFrom
    ensures c.Valid() && c.seen == Some(key)
    ensures Progress(c.grandparents, limit, outputs', marks', builder', lo, hi, c.countedFrom, c.seen)
    ensures Flat(outputs') + builder' == Flat(outputs) + builder && builder' in {builder, []}
    ensures |builder'| > 0 ==> c.countedFrom <= lo <= c.grandparentIndex
  {
    hide PointersOk, Bytes0, Progress, Flat;
    ghost var from, seen, passed := c.countedFrom, c.seen, c.grandparentIndex;
    var stop := c.ShouldStopBefore(key);
    outputs', builder', marks' := outputs, builder, marks;
    if stop && |builder| > 0 {
      assert Crossed(c.grandparents, builder, Mark(from, c.grandparentIndex), key) by {
        LastNotAfter(c.grandparents, limit, outputs, marks, builder, lo, hi, from, seen);
        BytesSplit(c.grandparents, from, passed, c.grandparentIndex);
        MarkCrosses(c.grandparents, builder, seen.value, from, passed, c.grandparentIndex, key);
      }
      outputs', marks' := StopOutput(c.grandparents, outputs, marks, builder, lo, hi, limit, from, seen, c.grandparentIndex, key);
      builder' := [];
      assert Flat(outputs') + [] == Flat(outputs');
    } else {
      ProgressSees(c.grandparents, limit, outputs, marks, builder, lo, hi, from, seen, c.countedFrom, key);
    }
  }

  lemma LastNotAfter(grandparents: seq<File>, limit: SizeLimit, outputs: seq<seq<Entry>>, marks: seq<Mark>, out: seq<Entry>,
                     lo: nat, hi: nat, from: nat, last: Option<InternalKey>)
    requires Progress(grandparents, limit, outputs, marks, out, lo, hi, from, last) && |out| > 0
    ensures last.Some? && !Before(last.value, out[|out| - 1].key)
  {
  }
}
