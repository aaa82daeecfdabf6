/**
 * Table files, levels and the searches over them (db/version_set.cc).
 */
module Levels {
  import opened Basics
  import opened Entries

  /** FileMetaData together with the contents of the table it names. */
  datatype File = File(number: nat, size: nat, smallest: InternalKey, largest: InternalKey, entries: seq<Entry>)

  ghost predicate FileOk(f: File) {
    && |f.entries| > 0
    && Sorted(f.entries)
    && f.smallest == f.entries[0].key
    && f.largest == f.entries[|f.entries| - 1].key
  }

  ghost predicate FilesOk(files: seq<File>) {
    forall f :: f in files ==> FileOk(f)
  }

  /** A level >= 1: files in key order with disjoint ranges. */
  ghost predicate SortedLevel(files: seq<File>) {
    forall i, j :: 0 <= i < j < |files| ==> Before(files[i].largest, files[j].smallest)
  }

  ghost function LevelContents(files: seq<File>): set<Entry> {
    set f, e | f in files && e in f.entries :: e
  }

  lemma InRange(f: File, e: Entry)
    requires FileOk(f) && e in f.entries
    ensures !Before(e.key, f.smallest) && !Before(f.largest, e.key)
    ensures f.smallest.user <= e.key.user <= f.largest.user
  {
    var i :| 0 <= i < |f.entries| && f.entries[i] == e;
  }

  // ---------------------------------------------------------------------------------------
  // FindFile and the lookups built on it

  function FirstFile(files: seq<File>, target: InternalKey): (i: nat)
    ensures i <= |files|
    ensures forall j :: 0 <= j < i ==> Before(files[j].largest, target)
    ensures i < |files| ==> !Before(files[i].largest, target)
  {
    if |files| == 0 || !Before(files[0].largest, target) then 0 else 1 + FirstFile(files[1..], target)
  }

  /** The binary search returns the first file whose largest key is at or after target. */
  method FindFile(files: seq<File>, target: InternalKey) returns (r: nat)
    requires FilesOk(files) && SortedLevel(files)
    ensures r == FirstFile(files, target)
  {
    var left, right := 0, |files|;
    while left < right
      invariant 0 <= left <= right <= |files|
      invariant forall j :: 0 <= j < left ==> Before(files[j].largest, target)
      invariant forall j :: right <= j < |files| ==> !Before(files[j].largest, target)
    {
      var mid := (left + right) / 2;
      forall j | 0 <= j < mid ensures Before(files[j].largest, files[mid].largest) {
        LargestAscend(files, j, mid);
      }
      forall j | mid < j < |files| ensures Before(files[mid].largest, files[j].largest) {
        LargestAscend(files, mid, j);
      }
      if Before(files[mid].largest, target) {
        left := mid + 1;
      } else {
        right := mid;
      }
    }
    r := right;
    assert r < |files| ==> !Before(files[r].largest, target);
    ghost var first := FirstFile(files, target);
    assert first < |files| ==> !Before(files[first].largest, target);
  }

  lemma LargestAscend(files: seq<File>, i: nat, j: nat)
    requires FilesOk(files) && SortedLevel(files) && i < j < |files|
    ensures Before(files[i].largest, files[j].largest)
  {
    assert FileOk(files[j]);
    InRange(files[j], files[j].entries[0]);
  }

  /** The part of Version::Get for one level >= 1: one candidate file. */
  function LevelGet(files: seq<File>, k: UserKey, s: Sequence): (r: Option<Entry>) {
    var i := FirstFile(files, InternalKey(k, s));
    if i < |files| && files[i].smallest.user <= k then TableGet(files[i].entries, k, s) else None
  }

  /** Looking in one file of a sorted level finds the newest visible entry of the whole level. */
  lemma LevelGetIsNewest(files: seq<File>, k: UserKey, s: Sequence)
    requires FilesOk(files) && SortedLevel(files)
    ensures IsNewest(LevelContents(files), k, s, LevelGet(files, k, s))
  {
    var target := InternalKey(k, s);
    var i := FirstFile(files, target);
    var r := LevelGet(files, k, s);
    if i < |files| {
      assert files[i] in files && FileOk(files[i]);
      TableGetIsNewest(files[i].entries, k, s);
    }
    forall e | e in LevelContents(files) && Sees(e, k, s)
      ensures r.Some? && e.key.sn <= r.value.key.sn
    {
      var f :| f in files && e in f.entries;
      var j :| 0 <= j < |files| && files[j] == f;
      InRange(f, e);
      assert i <= j;
      if i < j {
        // the largest key of file i lies between target and e, so it is a newer entry of k
        var last := files[i].entries[|files[i].entries| - 1];
        assert FileOk(files[i]);
        assert last.key == files[i].largest;
        InRange(files[i], last);
        assert Before(last.key, e.key);
        assert last in files[i].entries;
        assert Sees(last, k, s);
      }
      assert e in files[j].entries;
    }
  }

  predicate Covers(f: File, k: UserKey) {
    f.smallest.user <= k <= f.largest.user
  }

  /** What reading file f says about k at snapshot s. */
  function FileGet(f: File, k: UserKey, s: Sequence): (r: Option<Entry>) {
    if Covers(f, k) then TableGet(f.entries, k, s) else None
  }

  lemma FileGetIsNewest(f: File, k: UserKey, s: Sequence)
    requires FileOk(f)
    ensures IsNewest(Contents(f.entries), k, s, FileGet(f, k, s))
  {
    TableGetIsNewest(f.entries, k, s);
    forall e | e in f.entries && Sees(e, k, s) ensures Covers(f, k) {
      InRange(f, e);
    }
  }

  /** Best hit among possibly overlapping level-0 files: the one in the file with the highest number. */
  function Best0(files: seq<File>, k: UserKey, s: Sequence): (r: Option<File>)
    ensures r.Some? ==> r.value in files && FileGet(r.value, k, s).Some?
    ensures forall f :: f in files && FileGet(f, k, s).Some? ==> r.Some? && f.number <= r.value.number
  {
    if |files| == 0 then None
    else
      var rest := Best0(files[1..], k, s);
      if FileGet(files[0], k, s).Some? && (rest.None? || rest.value.number < files[0].number) then Some(files[0]) else rest
  }

  function Level0Get(files: seq<File>, k: UserKey, s: Sequence): (r: Option<Entry>) {
    var b := Best0(files, k, s);
    if b.None? then None else FileGet(b.value, k, s)
  }

  /** Every entry in g is newer than every entry of the same user key in f. */
  ghost predicate Younger(f: File, g: File) {
    forall e, e' :: e in f.entries && e' in g.entries && e.key.user == e'.key.user ==> e.key.sn < e'.key.sn
  }

  ghost predicate DistinctNumbers(files: seq<File>) {
    forall i, j :: 0 <= i < j < |files| ==> files[i].number != files[j].number
  }

  /** Level-0 files carry distinct numbers, and a higher number means newer entries of a key. */
  ghost predicate NumberedByAge(files: seq<File>) {
    && DistinctNumbers(files)
    && (forall f, g :: f in files && g in files && f.number < g.number ==> Younger(f, g))
  }

  lemma Level0GetIsNewest(files: seq<File>, k: UserKey, s: Sequence)
    requires FilesOk(files) && NumberedByAge(files)
    ensures IsNewest(LevelContents(files), k, s, Level0Get(files, k, s))
  {
    var b := Best0(files, k, s);
    if b.Some? {
      FileGetIsNewest(b.value, k, s);
    }
    forall f, e | f in files && e in f.entries && Sees(e, k, s)
      ensures b.Some? && e.key.sn <= FileGet(b.value, k, s).value.key.sn
    {
      FileGetIsNewest(f, k, s);
      assert e in Contents(f.entries);
      if f.number < b.value.number {
        assert Younger(f, b.value);
      } else {
        assert f == b.value;
      }
    }
  }

  const NUM_LEVELS := 7

  function VersionGetFrom(levels: seq<seq<File>>, lv: nat, k: UserKey, s: Sequence): (r: Option<Entry>)
    decreases |levels| - lv
  {
    if lv >= |levels| then None
    else
      var r := if lv == 0 then Level0Get(levels[0], k, s) else LevelGet(levels[lv], k, s);
      if r.Some? then r else VersionGetFrom(levels, lv + 1, k, s)
  }

  /** Version::Get searches level 0 from newest to oldest file, then one file per deeper level. */
  method VersionGet(levels: seq<seq<File>>, k: UserKey, s: Sequence) returns (r: Option<Entry>)
    requires |levels| == NUM_LEVELS
    requires forall lv :: 0 <= lv < |levels| ==> FilesOk(levels[lv])
    requires forall lv :: 1 <= lv < |levels| ==> SortedLevel(levels[lv])
    requires NumberedByAge(levels[0])
    ensures r == VersionGetFrom(levels, 0, k, s)
  {
    r := None;
    var level := 0;
    while level < NUM_LEVELS
      invariant 0 <= level <= NUM_LEVELS
      invariant r == None
      invariant VersionGetFrom(levels, 0, k, s) == VersionGetFrom(levels, level, k, s)
    {
      if level == 0 {
        var tmp := NewestFirst(levels[0], k);
        r := FirstHit(levels[0], tmp, k, s);
      } else {
        var index := FindFile(levels[level], InternalKey(k, s));
        if index < |levels[level]| && levels[level][index].smallest.user <= k {
          r := TableGet(levels[level][index].entries, k, s);
        }
      }
      if r.Some? {
        return;
      }
      level := level + 1;
    }
  }

  ghost predicate Descending(tmp: seq<File>) {
    forall i, j :: 0 <= i < j < |tmp| ==> tmp[i].number > tmp[j].number
  }

  function InsertByNumber(tmp: seq<File>, f: File): (r: seq<File>)
    ensures forall g :: g in r <==> g in tmp || g == f
  {
    if |tmp| == 0 || tmp[0].number < f.number then [f] + tmp else [tmp[0]] + InsertByNumber(tmp[1..], f)
  }

  lemma {:induction false} InsertKeepsDescending(tmp: seq<File>, f: File)
    requires Descending(tmp) && forall g :: g in tmp ==> g.number != f.number
    ensures Descending(InsertByNumber(tmp, f))
  {
    if |tmp| != 0 && tmp[0].number >= f.number {
      InsertKeepsDescending(tmp[1..], f);
      assert forall g :: g in tmp[1..] ==> g in tmp && g.number < tmp[0].number;
      var r := InsertByNumber(tmp[1..], f);
      assert forall i :: 0 <= i < |r| ==> r[i] in r;
    }
  }

  /** The files of level 0 whose user-key range contains k, sorted by descending number. */
  method NewestFirst(files: seq<File>, k: UserKey) returns (tmp: seq<File>)
    requires DistinctNumbers(files)
    ensures Descending(tmp)
    ensures forall f :: f in tmp <==> f in files && Covers(f, k)
  {
    tmp := [];
    for i := 0 to |files|
      invariant Descending(tmp)
      invariant forall f :: f in tmp <==> f in files[..i] && Covers(f, k)
    {
      var f := files[i];
      assert files[..i + 1] == files[..i] + [f];
      if Covers(f, k) {
        InsertKeepsDescending(tmp, f);
        tmp := InsertByNumber(tmp, f);
      }
    }
    assert files[..|files|] == files;
  }

  method FirstHit(ghost files: seq<File>, tmp: seq<File>, k: UserKey, s: Sequence) returns (r: Option<Entry>)
    requires DistinctNumbers(files)
    requires Descending(tmp)
    requires forall f :: f in tmp <==> f in files && Covers(f, k)
    ensures r == Level0Get(files, k, s)
  {
    ghost var b := Best0(files, k, s);
    for i := 0 to |tmp|
      invariant forall m :: 0 <= m < i ==> TableGet(tmp[m].entries, k, s).None?
    {
      r := TableGet(tmp[i].entries, k, s);
      if r.Some? {
        assert tmp[i] in tmp;
        assert FileGet(tmp[i], k, s).Some?;
        assert b.value in tmp;
        ghost var m :| 0 <= m < |tmp| && tmp[m] == b.value;
        assert m == i;
        return;
      }
    }
    r := None;
    assert forall f :: f in files && Covers(f, k) ==> f in tmp;
  }
}
