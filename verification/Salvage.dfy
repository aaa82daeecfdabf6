/**
 * The log reader on any file at all (db/log_reader.cc): what it returns was written under a valid checksum, and damage
 * does not reach past the blocks that hold it (doc/log_format.txt).
 */
module Salvage {
  import opened Basics
  import opened Coding
  import opened Log

  // ---------------------------------------------------------------------------------------
  // Only checked records are returned

  /** A physical record with a valid checksum stands at p, wholly in its block. */
  predicate Stands(codec: Codec, file: Bytes, p: nat, t: byte, data: Bytes) {
    var end := p + HEADER + |data|;
    && end <= |file| && end <= BlockEnd(p)
    && |data| == file[p + 4] as int + 256 * (file[p + 5] as int) && t == file[p + 6] && data == file[p + HEADER..end]
    && codec.check(file[p..p + 4], [t] + data) && !(t == 0 && data == [])
  }

  /** Where the header after pos stands: the last bytes of a block hold none. */
  function HeaderAfter(pos: nat): (p: nat)
    ensures pos <= p
  {
    if BlockEnd(pos) - pos < HEADER then BlockEnd(pos) else pos
  }

  lemma BlockStart(pos: nat)
    ensures BlockEnd(BlockEnd(pos)) == BlockEnd(pos) + BLOCK
  {
    var q := pos / 32768;
    assert BlockEnd(pos) / 32768 == q + 1;
  }

  lemma PieceInBlock(codec: Codec, file: Bytes, pos: nat, t: byte, data: Bytes, next: nat)
    requires pos <= |file| && BlockEnd(pos) - pos >= HEADER
    ensures ReadPhysical(codec, file, pos) == Fragment(t, data, next) <==> Stands(codec, file, pos, t, data) && next == pos + HEADER + |data|
  {
    hide BlockEnd;
    var end := BufferEnd(file, pos);
    if end - pos >= HEADER {
      var length := file[pos + 4] as int + 256 * (file[pos + 5] as int);
      if HEADER + length <= end - pos {
        assert file[pos + 6..pos + HEADER + length] == [file[pos + 6]] + file[pos + HEADER..pos + HEADER + length];
      }
    }
  }

  /** On any file: a fragment is read exactly when a checked physical record stands at the next header. */
  lemma PieceExact(codec: Codec, file: Bytes, pos: nat, t: byte, data: Bytes, next: nat)
    requires pos <= |file|
    ensures ReadPhysical(codec, file, pos) == Fragment(t, data, next) <==>
            var p := HeaderAfter(pos); Stands(codec, file, p, t, data) && next == p + HEADER + |data|
  {
    hide BlockEnd, Stands;
    if BlockEnd(pos) - pos >= HEADER {
      PieceInBlock(codec, file, pos, t, data, next);
    } else if BlockEnd(pos) <= |file| {
      BlockStart(pos);
      SkipsTrailer(codec, file, pos, BlockEnd(pos));
      PieceInBlock(codec, file, BlockEnd(pos), t, data, next);
    } else {
      NothingPast(codec, file, BlockEnd(pos), t, data);
    }
  }

  lemma NothingPast(codec: Codec, file: Bytes, p: nat, t: byte, data: Bytes)
    requires p > |file|
    ensures !Stands(codec, file, p, t, data)
  {
  }

  /** After the fragments acc, middle fragments and a last one follow from pos on and complete the record at end. */
  ghost predicate Parts(codec: Codec, file: Bytes, pos: nat, acc: Bytes, record: Bytes, end: nat)
    decreases |file| - pos
  {
    var p := HeaderAfter(pos);
    exists t, data :: Stands(codec, file, p, t, data) &&
      var next := p + HEADER + |data|;
      if t == LAST then record == acc + data && end == next else t == MIDDLE && Parts(codec, file, next, acc + data, record, end)
  }

  /** The record is one full fragment, or a first one followed by others without a gap. */
  ghost predicate IsRecord(codec: Codec, file: Bytes, pos: nat, record: Bytes, end: nat) {
    var p := HeaderAfter(pos);
    exists t, data :: Stands(codec, file, p, t, data) &&
      var next := p + HEADER + |data|;
      if t == FULL then record == data && end == next else t == FIRST && Parts(codec, file, next, data, record, end)
  }

  /** Each record is made of checked fragments, and lies after the one before it. */
  ghost predicate Found(codec: Codec, file: Bytes, from: nat, records: seq<Bytes>, starts: seq<nat>, ends: seq<nat>) {
    && |starts| == |ends| == |records|
    && forall i :: 0 <= i < |records| ==>
         && (if i == 0 then from else ends[i - 1]) <= starts[i]
         && IsRecord(codec, file, starts[i], records[i], ends[i])
  }

  ghost predicate AllFound(codec: Codec, file: Bytes, from: nat, records: seq<Bytes>) {
    exists starts, ends :: Found(codec, file, from, records, starts, ends)
  }

  lemma FoundNone(codec: Codec, file: Bytes, from: nat)
    ensures AllFound(codec, file, from, [])
  {
    assert Found(codec, file, from, [], [], []);
  }

  lemma FoundEarlier(codec: Codec, file: Bytes, from: nat, from': nat, records: seq<Bytes>)
    requires AllFound(codec, file, from, records) && from' <= from
    ensures AllFound(codec, file, from', records)
  {
    hide IsRecord;
    var starts: seq<nat>, ends: seq<nat> :| Found(codec, file, from, records, starts, ends);
    forall i | 0 <= i < |records|
      ensures (if i == 0 then from' else ends[i - 1]) <= starts[i] && IsRecord(codec, file, starts[i], records[i], ends[i])
    {
      assert (if i == 0 then from else ends[i - 1]) <= starts[i] && IsRecord(codec, file, starts[i], records[i], ends[i]);
    }
    assert Found(codec, file, from', records, starts, ends);
  }

  lemma FoundOne(codec: Codec, file: Bytes, from: nat, start: nat, record: Bytes, end: nat, records: seq<Bytes>)
    requires from <= start && IsRecord(codec, file, start, record, end) && AllFound(codec, file, end, records)
    ensures AllFound(codec, file, from, [record] + records)
  {
    hide IsRecord;
    var starts: seq<nat>, ends: seq<nat> :| Found(codec, file, end, records, starts, ends);
    var records', starts', ends' := [record] + records, [start] + starts, [end] + ends;
    forall i | 0 <= i < |records'|
      ensures (if i == 0 then from else ends'[i - 1]) <= starts'[i] && IsRecord(codec, file, starts'[i], records'[i], ends'[i])
    {
      if i > 0 {
        assert (if i - 1 == 0 then end else ends[i - 2]) <= starts[i - 1] && IsRecord(codec, file, starts[i - 1], records[i - 1], ends[i - 1]);
      }
    }
    assert Found(codec, file, from, records', starts', ends');
  }

  /** Completing the fragments acc from pos on makes a record that starts at start. */
  ghost predicate Continues(codec: Codec, file: Bytes, pos: nat, acc: Bytes, start: nat) {
    forall record, end :: Parts(codec, file, pos, acc, record, end) ==> IsRecord(codec, file, start, record, end)
  }

  lemma MoreParts(codec: Codec, file: Bytes, pos: nat, acc: Bytes, start: nat, data: Bytes)
    requires Continues(codec, file, pos, acc, start) && Stands(codec, file, HeaderAfter(pos), MIDDLE, data)
    ensures Continues(codec, file, HeaderAfter(pos) + HEADER + |data|, acc + data, start)
  {
    hide Stands, IsRecord;
    var next := HeaderAfter(pos) + HEADER + |data|;
    forall record, end | Parts(codec, file, next, acc + data, record, end) ensures IsRecord(codec, file, start, record, end) {
      assert Parts(codec, file, pos, acc, record, end);
    }
  }

  lemma FirstPart(codec: Codec, file: Bytes, pos: nat, data: Bytes)
    requires Stands(codec, file, HeaderAfter(pos), FIRST, data)
    ensures Continues(codec, file, HeaderAfter(pos) + HEADER + |data|, data, pos)
  {
    hide Stands, Parts;
  }

  lemma LastPart(codec: Codec, file: Bytes, pos: nat, acc: Bytes, start: nat, data: Bytes)
    requires Continues(codec, file, pos, acc, start) && Stands(codec, file, HeaderAfter(pos), LAST, data)
    ensures IsRecord(codec, file, start, acc + data, HeaderAfter(pos) + HEADER + |data|)
  {
    hide Stands, IsRecord;
    assert Parts(codec, file, pos, acc, acc + data, HeaderAfter(pos) + HEADER + |data|);
  }

  lemma FullPart(codec: Codec, file: Bytes, pos: nat, data: Bytes)
    requires Stands(codec, file, HeaderAfter(pos), FULL, data)
    ensures IsRecord(codec, file, pos, data, HeaderAfter(pos) + HEADER + |data|)
  {
    hide Stands, Parts;
  }

  /** Whatever bytes a file holds, every record returned is made of fragments that stand in it under valid checksums, in order. */
  lemma {:induction false} ReturnsChecked(codec: Codec, file: Bytes, pos: nat, scratch: Option<Bytes>, start: nat)
    requires pos <= |file| && start <= pos && (scratch.Some? ==> Continues(codec, file, pos, scratch.value, start))
    ensures AllFound(codec, file, start, ReadAll(codec, file, pos, scratch).records)
    decreases |file| - pos
  {
    hide ReadPhysical, HeaderAfter, Stands, Continues, IsRecord, AllFound;
    match ReadPhysical(codec, file, pos)
    case Eof(clean) => FoundNone(codec, file, start);
    case Bad(next, silent) => ReturnsFrom(codec, file, pos, next, start);
    case Fragment(t, data, next) =>
      PieceExact(codec, file, pos, t, data, next);
      if t == FULL {
        ReturnsChecked(codec, file, next, None, next);
        FullPart(codec, file, pos, data);
        FoundOne(codec, file, start, pos, data, next, ReadAll(codec, file, next, None).records);
      } else if t == FIRST {
        FirstPart(codec, file, pos, data);
        ReturnsChecked(codec, file, next, Some(data), pos);
        FoundEarlier(codec, file, pos, start, ReadAll(codec, file, next, Some(data)).records);
      } else if t == MIDDLE && scratch.Some? {
        MoreParts(codec, file, pos, scratch.value, start, data);
        ReturnsChecked(codec, file, next, Some(scratch.value + data), start);
      } else if t == LAST && scratch.Some? {
        ReturnsChecked(codec, file, next, None, next);
        LastPart(codec, file, pos, scratch.value, start, data);
        FoundOne(codec, file, start, start, scratch.value + data, next, ReadAll(codec, file, next, None).records);
      } else if t == EOF {
        FoundNone(codec, file, start);
      } else {
        ReturnsFrom(codec, file, pos, next, start);
      }
  }

  lemma {:induction false} ReturnsFrom(codec: Codec, file: Bytes, pos: nat, next: nat, start: nat)
    requires start <= pos < next <= |file|
    ensures AllFound(codec, file, start, ReadAll(codec, file, next, None).records)
    decreases |file| - pos, 0
  {
    hide ReadAll, AllFound;
    ReturnsChecked(codec, file, next, None, next);
    FoundEarlier(codec, file, next, start, ReadAll(codec, file, next, None).records);
  }

  // ---------------------------------------------------------------------------------------
  // Damage stays in its blocks

  /** Going on from pos, the reader meets in the first q blocks a physical record of the type that it takes for the end of the file. */
  ghost predicate MeetsEnd(codec: Codec, file: Bytes, pos: nat, q: nat)
    decreases |file| - pos
  {
    pos < q * 32768 <= |file| &&
    match ReadPhysical(codec, file, pos)
    case Eof(clean) => false
    case Bad(next, silent) => MeetsEnd(codec, file, next, q)
    case Fragment(t, data, next) => next <= q * 32768 && (t == EOF || MeetsEnd(codec, file, next, q))
  }

  /** Whatever was in progress, reading from pos on returns the same. */
  ghost predicate Restarts(codec: Codec, file: Bytes, pos: nat, rs: seq<Bytes>)
    requires pos <= |file|
  {
    forall scratch :: ReadAll(codec, file, pos, scratch).records == rs
  }

  ghost predicate EndsWith(records: seq<Bytes>, rs: seq<Bytes>) {
    |rs| <= |records| && records[|records| - |rs|..] == rs
  }

  lemma EndsWithMore(record: Bytes, records: seq<Bytes>, rs: seq<Bytes>)
    requires EndsWith(records, rs)
    ensures EndsWith([record] + records, rs)
  {
    assert ([record] + records)[1 + |records| - |rs|..] == records[|records| - |rs|..];
  }

  lemma WholeBlocks(pos: nat, q: nat)
    requires pos < q * 32768
    ensures BlockEnd(pos) <= q * 32768
  {
    assert pos / 32768 + 1 <= q;
  }

  lemma PieceStops(codec: Codec, file: Bytes, pos: nat, q: nat)
    requires pos < q * 32768 <= |file|
    ensures var p := ReadPhysical(codec, file, pos);
            if BlockEnd(pos) - pos < HEADER then p == ReadPhysical(codec, file, BlockEnd(pos)) else !p.Eof? && p.next <= q * 32768
  {
    WholeBlocks(pos, q);
  }

  /** From anywhere before a block boundary, the reader comes to read what stands from the boundary on. */
  lemma {:induction false} Resyncs(codec: Codec, file: Bytes, pos: nat, scratch: Option<Bytes>, q: nat, rs: seq<Bytes>)
    requires pos <= q * 32768 <= |file| && !MeetsEnd(codec, file, pos, q) && Restarts(codec, file, q * 32768, rs)
    ensures EndsWith(ReadAll(codec, file, pos, scratch).records, rs)
    decreases |file| - pos
  {
    hide BlockEnd, ReadPhysical, Stands, EndsWith;
    if pos == q * 32768 {
      assert EndsWith(rs, rs) by { SameEnd(rs); }
    } else {
      PieceStops(codec, file, pos, q);
      WholeBlocks(pos, q);
      if BlockEnd(pos) - pos < HEADER {
        SamePiece(codec, file, pos, BlockEnd(pos), scratch);
        SameEndMet(codec, file, pos, BlockEnd(pos), q);
        Resyncs(codec, file, BlockEnd(pos), scratch, q, rs);
      } else {
        ResyncsPiece(codec, file, pos, scratch, q, rs);
      }
    }
  }

  lemma SameEndMet(codec: Codec, file: Bytes, pos: nat, next: nat, q: nat)
    requires pos < next <= q * 32768 <= |file| && ReadPhysical(codec, file, pos) == ReadPhysical(codec, file, next)
    ensures MeetsEnd(codec, file, next, q) ==> MeetsEnd(codec, file, pos, q)
  {
    hide ReadPhysical;
  }

  lemma SameEnd(rs: seq<Bytes>)
    ensures EndsWith(rs, rs)
  {
  }

  lemma {:induction false} ResyncsPiece(codec: Codec, file: Bytes, pos: nat, scratch: Option<Bytes>, q: nat, rs: seq<Bytes>)
    requires pos < q * 32768 <= |file| && !MeetsEnd(codec, file, pos, q) && Restarts(codec, file, q * 32768, rs)
    requires BlockEnd(pos) - pos >= HEADER
    requires var p := ReadPhysical(codec, file, pos); !p.Eof? && p.next <= q * 32768
    ensures EndsWith(ReadAll(codec, file, pos, scratch).records, rs)
    decreases |file| - pos, 0
  {
    hide BlockEnd, ReadPhysical, Stands, EndsWith;
    match ReadPhysical(codec, file, pos)
    case Bad(next, silent) => Resyncs(codec, file, next, None, q, rs);
    case Fragment(t, data, next) =>
      PieceInBlock(codec, file, pos, t, data, next);
      Resyncs(codec, file, next, None, q, rs);
      if t == FULL {
        EndsWithMore(data, ReadAll(codec, file, next, None).records, rs);
      } else if t == FIRST {
        Resyncs(codec, file, next, Some(data), q, rs);
      } else if t == MIDDLE && scratch.Some? {
        Resyncs(codec, file, next, Some(scratch.value + data), q, rs);
      } else if t == LAST && scratch.Some? {
        EndsWithMore(scratch.value + data, ReadAll(codec, file, next, None).records, rs);
      }
  }

  /** The first piece of a log at a block boundary does not continue a record. */
  lemma {:induction false} Fresh(codec: Codec, a: Bytes, q: nat, rs: seq<Bytes>, x: Bytes, scratch: Option<Bytes>)
    requires Sound(codec) && |a| == q * 32768 && x <= LogAt(codec, |a|, rs)
    ensures ReadAll(codec, a + x, |a|, scratch).records == ReadAll(codec, a + x, |a|, None).records
  {
    hide ReadPhysical, ReadAll, Fragments, LogAt;
    if |x| == 0 {
      assert a + x == a;
      AtEnd(codec, a, scratch);
      AtEnd(codec, a, None);
    } else {
      assert |rs| > 0 by { NoLog(codec, |a|); }
      var data := rs[0];
      var t, n := TypeOf(true, |data| <= BLOCK - HEADER), if |data| <= BLOCK - HEADER then |data| else BLOCK - HEADER;
      var whole := Physical(codec, t, data[..n]);
      LogStarts(codec, |a|, rs, whole);
      if |x| < |whole| {
        assert x == LogAt(codec, |a|, rs)[..|x|] == whole[..|x|];
        ReadsCut(codec, a, q, 0, t, data[..n], |x|, scratch);
        ReadsCut(codec, a, q, 0, t, data[..n], |x|, None);
      } else {
        var y := x[|whole|..];
        assert x == LogAt(codec, |a|, rs)[..|x|] && x[..|whole|] == whole;
        assert a + x == a + whole + y;
        ReadsWhole(codec, a, q, 0, t, data[..n], y);
        StartsAfresh(codec, a + x, |a|, t, data[..n], |a| + |whole|, scratch);
      }
    }
  }

  lemma AtEnd(codec: Codec, a: Bytes, scratch: Option<Bytes>)
    ensures ReadAll(codec, a, |a|, scratch).records == []
  {
    assert ReadPhysical(codec, a, |a|) == Eof(true);
  }

  lemma NoLog(codec: Codec, pos: nat)
    ensures LogAt(codec, pos, []) == []
  {
  }

  lemma LogStarts(codec: Codec, pos: nat, rs: seq<Bytes>, whole: Bytes)
    requires |rs| > 0 && pos % 32768 == 0
    requires var n := if |rs[0]| <= BLOCK - HEADER then |rs[0]| else BLOCK - HEADER;
             whole == Physical(codec, TypeOf(true, |rs[0]| <= BLOCK - HEADER), rs[0][..n])
    ensures whole <= LogAt(codec, pos, rs)
  {
    hide Physical;
    assert rs[0][..|rs[0]|] == rs[0];
    assert whole <= Fragments(codec, 0, rs[0], true);
  }

  lemma StartsAfresh(codec: Codec, file: Bytes, pos: nat, t: byte, data: Bytes, next: nat, scratch: Option<Bytes>)
    requires pos <= |file| && ReadPhysical(codec, file, pos) == Fragment(t, data, next) && (t == FULL || t == FIRST)
    ensures ReadAll(codec, file, pos, scratch).records == ReadAll(codec, file, pos, None).records
  {
  }

  /** In whole blocks the reader sees the same, whatever follows them. */
  lemma SamePieceBefore(codec: Codec, a: Bytes, q: nat, x: Bytes, y: Bytes, pos: nat)
    requires |a| == q * 32768 && pos < |a|
    ensures BlockEnd(pos) - pos >= HEADER ==> ReadPhysical(codec, a + x, pos) == ReadPhysical(codec, a + y, pos)
  {
    WholeBlocks(pos, q);
    if BlockEnd(pos) - pos >= HEADER {
      var f, g := a + x, a + y;
      assert forall i :: 0 <= i < |a| ==> f[i] == a[i] == g[i];
      var length := f[pos + 4] as int + 256 * (f[pos + 5] as int);
      if pos + HEADER + length <= BlockEnd(pos) {
        assert f[pos..pos + 4] == a[pos..pos + 4] == g[pos..pos + 4];
        assert f[pos + 6..pos + HEADER + length] == a[pos + 6..pos + HEADER + length] == g[pos + 6..pos + HEADER + length];
        assert f[pos + HEADER..pos + HEADER + length] == a[pos + HEADER..pos + HEADER + length] == g[pos + HEADER..pos + HEADER + length];
      }
    }
  }

  /** Once the reader meets such a record, what follows the blocks does not matter. */
  lemma {:induction false} EndHides(codec: Codec, a: Bytes, q: nat, x: Bytes, y: Bytes, pos: nat, scratch: Option<Bytes>)
    requires |a| == q * 32768 && MeetsEnd(codec, a + x, pos, q)
    ensures ReadAll(codec, a + x, pos, scratch).records == ReadAll(codec, a + y, pos, scratch).records
    decreases |a| - pos
  {
    hide ReadPhysical, BlockEnd;
    var f, g := a + x, a + y;
    WholeBlocks(pos, q);
    if BlockEnd(pos) - pos < HEADER {
      SkipsTrailer(codec, f, pos, BlockEnd(pos));
      SkipsTrailer(codec, g, pos, BlockEnd(pos));
      SamePiece(codec, f, pos, BlockEnd(pos), scratch);
      SamePiece(codec, g, pos, BlockEnd(pos), scratch);
      EndStillMet(codec, f, pos, BlockEnd(pos), q);
      EndHides(codec, a, q, x, y, BlockEnd(pos), scratch);
    } else {
      SamePieceBefore(codec, a, q, x, y, pos);
      EndHidesPiece(codec, a, q, x, y, pos, scratch);
    }
  }

  lemma EndStillMet(codec: Codec, file: Bytes, pos: nat, next: nat, q: nat)
    requires pos < next <= q * 32768 <= |file| && ReadPhysical(codec, file, pos) == ReadPhysical(codec, file, next) && MeetsEnd(codec, file, pos, q)
    ensures MeetsEnd(codec, file, next, q)
  {
    hide ReadPhysical;
  }

  lemma {:induction false} EndHidesPiece(codec: Codec, a: Bytes, q: nat, x: Bytes, y: Bytes, pos: nat, scratch: Option<Bytes>)
    requires |a| == q * 32768 && MeetsEnd(codec, a + x, pos, q) && ReadPhysical(codec, a + x, pos) == ReadPhysical(codec, a + y, pos)
    ensures ReadAll(codec, a + x, pos, scratch).records == ReadAll(codec, a + y, pos, scratch).records
    decreases |a| - pos, 0
  {
    hide ReadPhysical;
    match ReadPhysical(codec, a + x, pos)
    case Eof(clean) =>
    case Bad(next, silent) => EndHides(codec, a, q, x, y, next, None);
    case Fragment(t, data, next) =>
      if t != EOF {
        EndHides(codec, a, q, x, y, next, None);
        if t == FIRST {
          EndHides(codec, a, q, x, y, next, Some(data));
        } else if t == MIDDLE && scratch.Some? {
          EndHides(codec, a, q, x, y, next, Some(scratch.value + data));
        }
      }
  }

  /**
   * Whatever the first q blocks hold, the records written from the next block on are all returned, as the last ones, as
   * far as the file goes; unless the reader meets in those blocks a physical record of type 5 under a valid checksum, and
   * then nothing of what follows them is returned.
   */
  lemma ConfinesDamage(codec: Codec, a: Bytes, q: nat, rs: seq<Bytes>, x: Bytes)
    requires Sound(codec) && |a| == q * 32768 && x <= LogAt(codec, |a|, rs)
    ensures if MeetsEnd(codec, a + x, 0, q) then forall y :: ReadAll(codec, a + x, 0, None).records == ReadAll(codec, a + y, 0, None).records
            else EndsWith(ReadAll(codec, a + x, 0, None).records, rs[..Complete(codec, |a|, rs, |x|)])
  {
    hide ReadAll, LogAt, Complete, CleanCut, MeetsEnd, EndsWith;
    if MeetsEnd(codec, a + x, 0, q) {
      forall y ensures ReadAll(codec, a + x, 0, None).records == ReadAll(codec, a + y, 0, None).records {
        EndHides(codec, a, q, x, y, 0, None);
      }
    } else {
      var file, found := a + x, rs[..Complete(codec, |a|, rs, |x|)];
      ReadsLog(codec, a, rs, x);
      forall scratch ensures ReadAll(codec, file, |a|, scratch).records == found {
        Fresh(codec, a, q, rs, x, scratch);
      }
      Resyncs(codec, file, 0, None, q, found);
    }
  }

  /** Such a block: a physical record of type 5, and zeros. */
  lemma EndMarkStops(codec: Codec, rs: seq<Bytes>)
    requires Sound(codec)
    ensures var a := Physical(codec, EOF, []) + Zeros(BLOCK - HEADER);
            var file := a + LogAt(codec, BLOCK, rs);
            MeetsEnd(codec, file, 0, 1) && ReadAll(codec, file, 0, None).records == []
  {
    hide Physical, LogAt;
    var mark := Physical(codec, EOF, []);
    var file := mark + Zeros(BLOCK - HEADER) + LogAt(codec, BLOCK, rs);
    var tail := Zeros(BLOCK - HEADER) + LogAt(codec, BLOCK, rs);
    assert file == [] + mark + tail;
    ReadsWhole(codec, [], 0, 0, EOF, [], tail);
  }
}
