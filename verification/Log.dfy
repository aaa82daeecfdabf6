/**
 * The log format (db/log_writer.cc, db/log_reader.cc): records cut into fragments that never cross a
 * 32 KB block, and a reader that survives a log cut off at any byte.
 */
module Log {
  import opened Basics
  import opened Coding

  const BLOCK := 32768
  const HEADER := 7

  const FULL: byte := 1
  const FIRST: byte := 2
  const MIDDLE: byte := 3
  const LAST: byte := 4

  /** What ReadPhysicalRecord returns at the end of the file and for a record it rejects. */
  const EOF: byte := 5
  const BAD: byte := 6

  // ---------------------------------------------------------------------------------------
  // Checksums of physical records

  type Head = b: Bytes | |b| == 4 witness [0, 0, 0, 0]

  /** How the four checksum bytes of a header are made from type and payload, and how they are checked. */
  datatype Codec = Codec(encode: (byte, Bytes) -> Head, check: (Head, Bytes) -> bool)

  /** What is encoded passes the check against the type byte followed by the payload. */
  ghost predicate Sound(codec: Codec) {
    forall t, data :: codec.check(codec.encode(t, data), [t] + data)
  }

  /** The writer extends the checksum of the type by the payload and masks it; the reader unmasks it. */
  function CrcCodec(step: CrcStep): (codec: Codec) {
    Codec((t: byte, data: Bytes) => EncodeFixed32(Mask(Extend(step, Crc(step, [t]), data))),
          (head: Head, data: Bytes) => Unmask(DecodeFixed32(head)) == Crc(step, data))
  }

  lemma CrcSound(step: CrcStep)
    ensures Sound(CrcCodec(step))
  {
    forall t, data ensures CrcCodec(step).check(CrcCodec(step).encode(t, data), [t] + data) {
      var crc := Extend(step, Crc(step, [t]), data);
      assert EncodeFixed32(Mask(crc)) + [] == EncodeFixed32(Mask(crc));
      Fixed32RoundTrip(Mask(crc), []);
      UnmaskMask(crc);
      ExtendIsCrc(step, [t], data);
    }
  }

  /** The only checksum bytes that pass the check are the ones the writer makes. */
  lemma CrcExact(step: CrcStep, head: Head, t: byte, data: Bytes)
    ensures CrcCodec(step).check(head, [t] + data) <==> head == CrcCodec(step).encode(t, data)
  {
    hide Mask, Unmask, EncodeFixed32, DecodeFixed32;
    ExtendIsCrc(step, [t], data);
    MaskedExact(head, Crc(step, [t] + data));
    assert head[..4] == head;
  }

  // ---------------------------------------------------------------------------------------
  // What the writer writes

  /** EmitPhysicalRecord: masked checksum of type and payload, length, type, payload. */
  function Physical(codec: Codec, t: byte, data: Bytes): (b: Bytes)
    requires |data| < 65536
    ensures |b| == HEADER + |data|
  {
    codec.encode(t, data) + [|data| % 256, |data| / 256, t] + data
  }

  function Zeros(n: nat): (b: Bytes)
    ensures |b| == n && forall i :: 0 <= i < n ==> b[i] == 0
  {
    seq(n, i => 0)
  }

  function TypeOf(begin: bool, end: bool): (t: byte) {
    if begin && end then FULL else if begin then FIRST else if end then LAST else MIDDLE
  }

  /** The bytes AddRecord appends when the current block is filled up to off. */
  function Fragments(codec: Codec, off: nat, data: Bytes, begin: bool): (b: Bytes)
    requires off <= BLOCK
    ensures |b| >= HEADER
    decreases |data|, if off + HEADER < BLOCK then 0 else if off + HEADER > BLOCK then 1 else 2
  {
    if BLOCK - off < HEADER then Zeros(BLOCK - off) + Fragments(codec, 0, data, begin)
    else
      var avail := BLOCK - off - HEADER;
      if |data| <= avail then Physical(codec, TypeOf(begin, true), data)
      else Physical(codec, TypeOf(begin, false), data[..avail]) + Fragments(codec, BLOCK, data[avail..], false)
  }

  class Writer {
    const codec: Codec
    var file: Bytes
    var blockOffset: nat
    /** The number of blocks before the current one. */
    ghost var blocks: nat
    /** The records added so far. */
    ghost var records: seq<Bytes>

    ghost predicate InBlock()
      reads this
    {
      blockOffset <= BLOCK && |file| == blocks * 32768 + blockOffset
    }

    ghost predicate Valid()
      reads this
    {
      InBlock() && file == LogAt(codec, 0, records)
    }

    constructor (codec: Codec)
      ensures Valid() && records == [] && this.codec == codec
    {
      this.codec, file, blockOffset, blocks, records := codec, [], 0, 0, [];
    }

    method AddRecord(data: Bytes)
      requires Valid()
      modifies this
      ensures Valid() && records == old(records) + [data] && old(file) <= file
    {
      AppendsRecord(codec, file, blocks, blockOffset, records, data);
      AppendFragments(data);
      records := records + [data];
    }

    method AppendFragments(data: Bytes)
      requires InBlock()
      modifies this
      ensures InBlock() && file == old(file) + Fragments(codec, old(blockOffset), data, true) && records == old(records)
    {
      hide Physical, Zeros, LogAt;
      ghost var goal := file + Fragments(codec, blockOffset, data, true);
      var left, begin, end := data, true, false;
      while !end
        invariant InBlock() && records == old(records)
        invariant goal == if end then file else file + Fragments(codec, blockOffset, left, begin)
        decreases !end, |left|, if blockOffset + HEADER < BLOCK then 0 else if blockOffset + HEADER > BLOCK then 1 else 2
      {
        SwitchBlock(left, begin);
        var avail := BLOCK - blockOffset - HEADER;
        var fragmentLength := if |left| < avail then |left| else avail;
        end := |left| == fragmentLength;
        ghost var before := file;
        var fragment := left[..fragmentLength];
        EmitPhysicalRecord(TypeOf(begin, end), fragment);
        if end {
          assert fragment == left;
        } else {
          ghost var after := Fragments(codec, BLOCK, left[fragmentLength..], false);
          assert goal == before + (Physical(codec, TypeOf(begin, false), fragment) + after) == file + after;
        }
        left := left[fragmentLength..];
        begin := false;
      }
    }

    /** Fill the trailer of a block in which no header fits. */
    method SwitchBlock(ghost left: Bytes, ghost begin: bool)
      requires InBlock()
      modifies this
      ensures InBlock() && records == old(records) && blockOffset + HEADER <= BLOCK
      ensures old(blockOffset) + HEADER <= BLOCK ==> blockOffset == old(blockOffset)
      ensures old(blockOffset) + HEADER > BLOCK ==> blockOffset == 0
      ensures file + Fragments(codec, blockOffset, left, begin) == old(file) + Fragments(codec, old(blockOffset), left, begin)
    {
      var leftover := BLOCK - blockOffset;
      if leftover < HEADER {
        ghost var before := file;
        ghost var rest := Fragments(codec, 0, left, begin);
        assert Fragments(codec, blockOffset, left, begin) == Zeros(leftover) + rest;
        file := file + Zeros(leftover);
        blockOffset, blocks := 0, blocks + 1;
        assert file + rest == before + (Zeros(leftover) + rest);
      }
    }

    method EmitPhysicalRecord(t: byte, data: Bytes)
      requires InBlock() && blockOffset + HEADER + |data| <= BLOCK
      modifies this
      ensures InBlock() && records == old(records) && file == old(file) + Physical(codec, t, data) && blockOffset == old(blockOffset) + HEADER + |data|
    {
      var header := codec.encode(t, data) + [|data| % 256, |data| / 256, t];
      file := file + header;
      file := file + data;
      blockOffset := blockOffset + HEADER + |data|;
    }
  }

  // ---------------------------------------------------------------------------------------
  // What the reader reads

  function BlockEnd(pos: nat): (e: nat)
    ensures pos < e <= pos + BLOCK
  {
    (pos / 32768 + 1) * 32768
  }

  /** The bytes of the file from pos to the end of the block that holds pos: the reader's buffer. */
  function BufferEnd(file: Bytes, pos: nat): (e: nat)
    requires pos <= |file|
    ensures pos <= e <= |file|
  {
    if BlockEnd(pos) <= |file| then BlockEnd(pos) else |file|
  }

  datatype Piece =
    | Eof(clean: bool)
    | Bad(next: nat, silent: bool)
    | Fragment(t: byte, data: Bytes, next: nat)

  /** ReadPhysicalRecord at position pos of the file. */
  function ReadPhysical(codec: Codec, file: Bytes, pos: nat): (p: Piece)
    requires pos <= |file|
    ensures !p.Eof? ==> pos < p.next <= |file|
    decreases |file| - pos
  {
    var end := BufferEnd(file, pos);
    if end - pos < HEADER then
      if BlockEnd(pos) <= |file| then ReadPhysical(codec, file, BlockEnd(pos)) else Eof(end == pos)
    else
      var length, t := file[pos + 4] as int + 256 * (file[pos + 5] as int), file[pos + 6];
      if HEADER + length > end - pos then Bad(end, false)
      else if t == 0 && length == 0 then Bad(end, true)
      else if !codec.check(file[pos..pos + 4], file[pos + 6..pos + HEADER + length]) then Bad(end, false)
      else Fragment(t, file[pos + HEADER..pos + HEADER + length], pos + HEADER + length)
  }

  /** The records returned by repeated ReadRecord calls, and whether nothing was reported as dropped. */
  datatype Outcome = Outcome(records: seq<Bytes>, clean: bool)

  function Deliver(record: Bytes, rest: Outcome): (o: Outcome) {
    Outcome([record] + rest.records, rest.clean)
  }

  /** Reading from pos on; scratch holds the fragments of a record in progress. */
  function ReadAll(codec: Codec, file: Bytes, pos: nat, scratch: Option<Bytes>): (o: Outcome)
    requires pos <= |file|
    decreases |file| - pos
  {
    match ReadPhysical(codec, file, pos)
    case Eof(clean) => Outcome([], clean && scratch.None?)
    case Bad(next, silent) =>
      var rest := ReadAll(codec, file, next, None);
      Outcome(rest.records, rest.clean && silent && scratch.None?)
    case Fragment(t, data, next) =>
      if t == FULL then
        var rest := ReadAll(codec, file, next, None);
        Deliver(data, Outcome(rest.records, rest.clean && (scratch.None? || scratch.value == [])))
      else if t == FIRST then
        var rest := ReadAll(codec, file, next, Some(data));
        Outcome(rest.records, rest.clean && (scratch.None? || scratch.value == []))
      else if t == MIDDLE && scratch.Some? then ReadAll(codec, file, next, Some(scratch.value + data))
      else if t == LAST && scratch.Some? then Deliver(scratch.value + data, ReadAll(codec, file, next, None))
      else if t == EOF then Outcome([], scratch.None?)
      else if t == BAD then
        var rest := ReadAll(codec, file, next, None);
        Outcome(rest.records, rest.clean && scratch.None?)
      else
        var rest := ReadAll(codec, file, next, None);
        Outcome(rest.records, false)
  }

  /** From pos the reader returns record, and goes on at next with nothing in progress. */
  ghost predicate Delivered(codec: Codec, file: Bytes, pos: nat, scratch: Option<Bytes>, record: Bytes, next: nat) {
    pos <= |file| && next <= |file| && ReadAll(codec, file, pos, scratch) == Deliver(record, ReadAll(codec, file, next, None))
  }

  /** From pos the reader gets to next, with scratch' in progress, without returning a record. */
  ghost predicate Reaches(codec: Codec, file: Bytes, pos: nat, scratch: Option<Bytes>, next: nat, scratch': Option<Bytes>) {
    pos <= |file| && next <= |file| && ReadAll(codec, file, pos, scratch) == ReadAll(codec, file, next, scratch')
  }

  /** From pos the reader returns nothing more. */
  ghost predicate Stops(codec: Codec, file: Bytes, pos: nat, scratch: Option<Bytes>, clean: bool) {
    pos <= |file| && ReadAll(codec, file, pos, scratch) == Outcome([], clean)
  }

  // ---------------------------------------------------------------------------------------
  // One physical record, whole and cut

  /** The position is off bytes into block q, or at the end of block q when off is BLOCK. */
  predicate At(pos: nat, q: nat, off: nat) {
    off <= BLOCK && pos == q * 32768 + off
  }

  lemma BlockEndAt(pos: nat, q: nat, off: nat)
    requires At(pos, q, off) && off < BLOCK
    ensures BlockEnd(pos) == (q + 1) * 32768
  {
    assert pos / 32768 == q;
  }

  lemma SameBlock(pos: nat, next: nat)
    requires pos <= next < BlockEnd(pos)
    ensures BlockEnd(next) == BlockEnd(pos)
  {
    assert next / 32768 == pos / 32768;
  }

  lemma NextBlock(pos: nat)
    requires BlockEnd(pos) == pos + BLOCK
    ensures BlockEnd(pos + BLOCK) == pos + BLOCK + BLOCK
  {
    assert (pos + 32768) / 32768 == pos / 32768 + 1;
  }

  lemma PhysicalBytes(codec: Codec, a: Bytes, t: byte, data: Bytes, tail: Bytes)
    requires Sound(codec) && |data| < 65536
    ensures var file := a + Physical(codec, t, data) + tail;
            var pos := |a|;
            && file[pos + 4] as int + 256 * (file[pos + 5] as int) == |data|
            && file[pos + 6] == t
            && file[pos + HEADER..pos + HEADER + |data|] == data
            && codec.check(file[pos..pos + 4], file[pos + 6..pos + HEADER + |data|])
  {
    var file, pos := a + Physical(codec, t, data) + tail, |a|;
    assert file[pos..pos + 4] == codec.encode(t, data);
    assert file[pos + 6..pos + HEADER + |data|] == [t] + data;
  }

  lemma ReadsWhole(codec: Codec, a: Bytes, q: nat, off: nat, t: byte, data: Bytes, tail: Bytes)
    requires Sound(codec) && At(|a|, q, off) && off + HEADER + |data| <= BLOCK && t != 0
    ensures ReadPhysical(codec, a + Physical(codec, t, data) + tail, |a|) == Fragment(t, data, |a| + HEADER + |data|)
  {
    BlockEndAt(|a|, q, off);
    PhysicalBytes(codec, a, t, data, tail);
  }

  /** A physical record cut short is never delivered, and the reader reaches the end of the file. */
  lemma ReadsCut(codec: Codec, a: Bytes, q: nat, off: nat, t: byte, data: Bytes, n: nat, scratch: Option<Bytes>)
    requires Sound(codec) && At(|a|, q, off) && off + HEADER + |data| <= BLOCK && n < HEADER + |data|
    ensures Stops(codec, a + Physical(codec, t, data)[..n], |a|, scratch, n == 0 && scratch.None?)
  {
    var b := Physical(codec, t, data);
    var file, pos := a + b[..n], |a|;
    BlockEndAt(pos, q, off);
    if n >= HEADER {
      PhysicalBytes(codec, a, t, data, []);
      assert file[pos + 4] == (a + b + [])[pos + 4] && file[pos + 5] == (a + b + [])[pos + 5];
      assert ReadPhysical(codec, file, pos) == Bad(|file|, false);
      BlockEndAt(|file|, q, off + n);
      assert ReadPhysical(codec, file, |file|) == Eof(true);
    }
  }

  /** A first or middle fragment is put aside. */
  lemma StepMore(codec: Codec, file: Bytes, pos: nat, scratch: Option<Bytes>, data: Bytes, next: nat)
    requires pos <= |file| && ReadPhysical(codec, file, pos) == Fragment(TypeOf(scratch.None?, false), data, next)
    ensures Reaches(codec, file, pos, scratch, next, Some(Before(scratch) + data))
  {
    assert [] + data == data;
  }

  /** A full or last fragment completes a record. */
  lemma StepDone(codec: Codec, file: Bytes, pos: nat, scratch: Option<Bytes>, data: Bytes, next: nat)
    requires pos <= |file| && ReadPhysical(codec, file, pos) == Fragment(TypeOf(scratch.None?, true), data, next)
    ensures Delivered(codec, file, pos, scratch, Before(scratch) + data, next)
  {
    assert [] + data == data;
  }

  // ---------------------------------------------------------------------------------------
  // One record, whole and cut

  /** The zero bytes before the next header when the current block is filled up to off. */
  function Padding(off: nat): (n: nat)
    requires off <= BLOCK
  {
    if BLOCK - off < HEADER then BLOCK - off else 0
  }

  function Before(scratch: Option<Bytes>): (b: Bytes) {
    if scratch.Some? then scratch.value else []
  }

  lemma SamePiece(codec: Codec, file: Bytes, pos: nat, next: nat, scratch: Option<Bytes>)
    requires pos <= |file| && next <= |file| && ReadPhysical(codec, file, pos) == ReadPhysical(codec, file, next)
    ensures Reaches(codec, file, pos, scratch, next, scratch)
  {
  }

  /** The reader steps over complete padding. */
  lemma SkipsPadding(codec: Codec, a: Bytes, q: nat, off: nat, rest: Bytes, scratch: Option<Bytes>)
    requires At(|a|, q, off)
    ensures var file := a + Zeros(Padding(off)) + rest;
            Reaches(codec, file, |a|, scratch, |a| + Padding(off), scratch)
  {
    hide ReadPhysical, ReadAll, BlockEnd;
    var file := a + Zeros(Padding(off)) + rest;
    if Padding(off) > 0 {
      BlockEndAt(|a|, q, off);
      SkipsTrailer(codec, file, |a|, |a| + Padding(off));
    }
    SamePiece(codec, file, |a|, |a| + Padding(off), scratch);
  }

  lemma SkipsTrailer(codec: Codec, file: Bytes, pos: nat, end: nat)
    requires pos <= end == BlockEnd(pos) <= |file| && end - pos < HEADER
    ensures ReadPhysical(codec, file, pos) == ReadPhysical(codec, file, end)
  {
  }

  lemma CutInPadding(codec: Codec, a: Bytes, q: nat, off: nat, n: nat, scratch: Option<Bytes>)
    requires At(|a|, q, off) && n < Padding(off)
    ensures Stops(codec, a + Zeros(n), |a|, scratch, n == 0 && scratch.None?)
  {
    BlockEndAt(|a|, q, off);
  }

  /** A record that is wholly in the file is delivered unchanged, and reading goes on right after it. */
  lemma {:induction false} ReadsRecord(codec: Codec, a: Bytes, q: nat, off: nat, data: Bytes, begin: bool, rest: Bytes,
                                       scratch: Option<Bytes>)
    requires Sound(codec) && At(|a|, q, off) && (begin <==> scratch.None?)
    ensures var bytes := Fragments(codec, off, data, begin);
            Delivered(codec, a + bytes + rest, |a|, scratch, Before(scratch) + data, |a| + |bytes|)
    decreases |data|, if off + HEADER < BLOCK then 0 else if off + HEADER > BLOCK then 1 else 2
  {
    if BLOCK - off < HEADER {
      ReadsPadded(codec, a, q, off, data, begin, rest, scratch);
    } else if |data| <= BLOCK - off - HEADER {
      ReadsWhole(codec, a, q, off, TypeOf(begin, true), data, rest);
      StepDone(codec, a + Physical(codec, TypeOf(begin, true), data) + rest, |a|, scratch, data, |a| + HEADER + |data|);
    } else {
      ReadsFragmented(codec, a, q, off, data, begin, rest, scratch);
    }
  }

  lemma Regroup(a: Bytes, b: Bytes, c: Bytes, d: Bytes)
    ensures a + (b + c) + d == a + b + (c + d) == (a + b) + c + d
  {
  }

  lemma {:induction false} ReadsPadded(codec: Codec, a: Bytes, q: nat, off: nat, data: Bytes, begin: bool, rest: Bytes,
                                       scratch: Option<Bytes>)
    requires Sound(codec) && At(|a|, q, off) && (begin <==> scratch.None?) && BLOCK - off < HEADER
    ensures var bytes := Fragments(codec, off, data, begin);
            Delivered(codec, a + bytes + rest, |a|, scratch, Before(scratch) + data, |a| + |bytes|)
    decreases |data|, 1, 0
  {
    hide ReadPhysical, ReadAll;
    var pad, inner := Zeros(Padding(off)), Fragments(codec, 0, data, begin);
    Regroup(a, pad, inner, rest);
    SkipsPadding(codec, a, q, off, inner + rest, scratch);
    ReadsRecord(codec, a + pad, q + 1, 0, data, begin, rest, scratch);
  }

  lemma {:induction false} ReadsFragmented(codec: Codec, a: Bytes, q: nat, off: nat, data: Bytes, begin: bool, rest: Bytes,
                                           scratch: Option<Bytes>)
    requires Sound(codec) && At(|a|, q, off) && (begin <==> scratch.None?) && off + HEADER <= BLOCK && |data| > BLOCK - off - HEADER
    ensures var bytes := Fragments(codec, off, data, begin);
            Delivered(codec, a + bytes + rest, |a|, scratch, Before(scratch) + data, |a| + |bytes|)
    decreases |data|, if off + HEADER < BLOCK then 0 else 2, 0
  {
    hide ReadPhysical, ReadAll, Physical;
    var avail := BLOCK - off - HEADER;
    var t, piece, left := TypeOf(begin, false), data[..avail], data[avail..];
    var whole, after := Physical(codec, t, piece), Fragments(codec, BLOCK, left, false);
    var file := a + (whole + after) + rest;
    Regroup(a, whole, after, rest);
    ReadsWhole(codec, a, q, off, t, piece, after + rest);
    StepMore(codec, file, |a|, scratch, piece, |a| + |whole|);
    ReadsRecord(codec, a + whole, q, BLOCK, left, false, rest, Some(Before(scratch) + piece));
    assert Before(scratch) + piece + left == Before(scratch) + data by { assert piece + left == data; }
  }

  /**
   * A record of which only the bytes x are in the file delivers nothing, and a drop is reported unless
   * the cut is before the first byte or between padding and header of its first fragment.
   */
  lemma {:induction false} ReadsCutRecord(codec: Codec, a: Bytes, q: nat, off: nat, data: Bytes, begin: bool, x: Bytes,
                                          scratch: Option<Bytes>)
    requires Sound(codec) && At(|a|, q, off) && (begin <==> scratch.None?) && x < Fragments(codec, off, data, begin)
    ensures Stops(codec, a + x, |a|, scratch, begin && (|x| == 0 || |x| == Padding(off)))
    decreases |data|, if off + HEADER < BLOCK then 0 else if off + HEADER > BLOCK then 1 else 2
  {
    if BLOCK - off < HEADER {
      var pad, inner := Zeros(Padding(off)), Fragments(codec, 0, data, begin);
      if |x| < |pad| {
        assert x == (pad + inner)[..|x|] == Zeros(|x|);
        CutInPadding(codec, a, q, off, |x|, scratch);
      } else {
        var y := x[|pad|..];
        assert x == (pad + inner)[..|x|] == pad + y;
        assert a + x == a + pad + y;
        SkipsPadding(codec, a, q, off, y, scratch);
        ReadsCutRecord(codec, a + pad, q + 1, 0, data, begin, y, scratch);
      }
    } else if |data| <= BLOCK - off - HEADER {
      assert x == Physical(codec, TypeOf(begin, true), data)[..|x|];
      ReadsCut(codec, a, q, off, TypeOf(begin, true), data, |x|, scratch);
    } else {
      ReadsCutFragmented(codec, a, q, off, data, begin, x, scratch);
    }
  }

  lemma {:induction false} ReadsCutFragmented(codec: Codec, a: Bytes, q: nat, off: nat, data: Bytes, begin: bool, x: Bytes,
                                              scratch: Option<Bytes>)
    requires Sound(codec) && At(|a|, q, off) && (begin <==> scratch.None?) && x < Fragments(codec, off, data, begin)
    requires off + HEADER <= BLOCK && |data| > BLOCK - off - HEADER
    ensures Stops(codec, a + x, |a|, scratch, begin && |x| == 0)
    decreases |data|, if off + HEADER < BLOCK then 0 else 2, 0
  {
    hide ReadPhysical, ReadAll, Physical;
    var avail := BLOCK - off - HEADER;
    var t, piece := TypeOf(begin, false), data[..avail];
    var whole, after := Physical(codec, t, piece), Fragments(codec, BLOCK, data[avail..], false);
    if |x| < |whole| {
      assert x == (whole + after)[..|x|] == whole[..|x|];
      ReadsCut(codec, a, q, off, t, piece, |x|, scratch);
    } else {
      var y := x[|whole|..];
      assert x == (whole + after)[..|x|] == whole + y;
      assert a + x == a + whole + y;
      ReadsWhole(codec, a, q, off, t, piece, y);
      StepMore(codec, a + whole + y, |a|, scratch, piece, |a| + |whole|);
      ReadsCutRecord(codec, a + whole, q, BLOCK, data[avail..], false, y, Some(Before(scratch) + piece));
    }
  }

  // ---------------------------------------------------------------------------------------
  // Whole logs, cut anywhere

  /** The bytes of the records rs when the log so far ends at position pos. */
  function LogAt(codec: Codec, pos: nat, rs: seq<Bytes>): (b: Bytes)
    decreases |rs|
  {
    if |rs| == 0 then []
    else
      var b := Fragments(codec, pos % 32768, rs[0], true);
      b + LogAt(codec, pos + |b|, rs[1..])
  }

  lemma {:induction false} LogSnoc(codec: Codec, pos: nat, rs: seq<Bytes>, r: Bytes)
    ensures var b := LogAt(codec, pos, rs);
            LogAt(codec, pos, rs + [r]) == b + Fragments(codec, (pos + |b|) % 32768, r, true)
    decreases |rs|
  {
    hide Fragments;
    if |rs| == 0 {
      assert ([] + [r])[1..] == [];
    } else {
      var b := Fragments(codec, pos % 32768, rs[0], true);
      assert (rs + [r])[1..] == rs[1..] + [r];
      LogSnoc(codec, pos + |b|, rs[1..], r);
    }
  }

  /** Appending a record to a log gives the log of one more record. */
  lemma AppendsRecord(codec: Codec, file: Bytes, q: nat, off: nat, rs: seq<Bytes>, r: Bytes)
    requires At(|file|, q, off) && file == LogAt(codec, 0, rs)
    ensures file + Fragments(codec, off, r, true) == LogAt(codec, 0, rs + [r])
  {
    hide Physical, LogAt;
    LogSnoc(codec, 0, rs, r);
    if off == BLOCK {
      assert |file| % 32768 == 0;
      assert Zeros(0) + Fragments(codec, 0, r, true) == Fragments(codec, 0, r, true);
    } else {
      assert |file| % 32768 == off;
    }
  }

  /** How many of the records rs, written from pos on, lie wholly in the first n bytes. */
  function Complete(codec: Codec, pos: nat, rs: seq<Bytes>, n: nat): (j: nat)
    ensures j <= |rs|
    decreases |rs|
  {
    if |rs| == 0 then 0
    else
      var b := Fragments(codec, pos % 32768, rs[0], true);
      if |b| > n then 0 else 1 + Complete(codec, pos + |b|, rs[1..], n - |b|)
  }

  /** The complete records fit in n bytes, and one more does not. */
  lemma {:induction false} CompleteIsLongest(codec: Codec, pos: nat, rs: seq<Bytes>, n: nat)
    ensures var j := Complete(codec, pos, rs, n);
            |LogAt(codec, pos, rs[..j])| <= n && (j < |rs| ==> n < |LogAt(codec, pos, rs[..j + 1])|)
    decreases |rs|
  {
    hide Fragments;
    if |rs| > 0 {
      var b := Fragments(codec, pos % 32768, rs[0], true);
      if |b| <= n {
        CompleteIsLongest(codec, pos + |b|, rs[1..], n - |b|);
        var j := Complete(codec, pos, rs, n);
        assert rs[..j][1..] == rs[1..][..j - 1];
        if j < |rs| {
          assert rs[..j + 1][1..] == rs[1..][..j];
        }
      } else {
        assert rs[..1][1..] == [];
        assert LogAt(codec, pos, rs[..1]) == b + LogAt(codec, pos + |b|, []);
      }
    }
  }

  /** Records that fit in n bytes are among the complete ones. */
  lemma {:induction false} CompleteAtLeast(codec: Codec, pos: nat, rs: seq<Bytes>, k: nat, n: nat)
    requires k <= |rs| && |LogAt(codec, pos, rs[..k])| <= n
    ensures k <= Complete(codec, pos, rs, n)
    decreases |rs|
  {
    hide Fragments;
    if k > 0 {
      var b := Fragments(codec, pos % 32768, rs[0], true);
      assert rs[..k][1..] == rs[1..][..k - 1];
      CompleteAtLeast(codec, pos + |b|, rs[1..], k - 1, n - |b|);
    }
  }

  /** A cut that loses no part of a started record: at the end of a record or of the padding after it. */
  function CleanCut(codec: Codec, pos: nat, rs: seq<Bytes>, n: nat): (c: bool)
    decreases |rs|
  {
    if |rs| == 0 then true
    else
      var b := Fragments(codec, pos % 32768, rs[0], true);
      if |b| > n then n == 0 || n == Padding(pos % 32768) else CleanCut(codec, pos + |b|, rs[1..], n - |b|)
  }

  ghost predicate Yields(codec: Codec, file: Bytes, pos: nat, o: Outcome) {
    pos <= |file| && ReadAll(codec, file, pos, None) == o
  }

  lemma EndYields(codec: Codec, file: Bytes)
    ensures Yields(codec, file, |file|, Outcome([], true))
  {
    assert ReadPhysical(codec, file, |file|) == Eof(true);
  }

  lemma DeliveredYields(codec: Codec, file: Bytes, pos: nat, record: Bytes, next: nat, rest: Outcome)
    requires Delivered(codec, file, pos, None, [] + record, next) && Yields(codec, file, next, rest)
    ensures Yields(codec, file, pos, Outcome([record] + rest.records, rest.clean))
  {
    assert [] + record == record;
  }

  /** The prefix x of a log of at least one record, split after that record. */
  lemma SplitPrefix(b: Bytes, later: Bytes, x: Bytes)
    requires x <= b + later
    ensures |x| < |b| ==> x < b
    ensures |x| >= |b| ==> x == b + x[|b|..] && x[|b|..] <= later
  {
    assert x == (b + later)[..|x|];
  }

  /**
   * For every list of records and every prefix x of their log: the reader returns exactly the records
   * that lie wholly inside x, unchanged and in order, and reports a drop exactly when the cut is not clean.
   */
  lemma {:induction false} ReadsLog(codec: Codec, a: Bytes, rs: seq<Bytes>, x: Bytes)
    requires Sound(codec) && x <= LogAt(codec, |a|, rs)
    ensures Yields(codec, a + x, |a|, Outcome(rs[..Complete(codec, |a|, rs, |x|)], CleanCut(codec, |a|, rs, |x|)))
    decreases |rs|
  {
    hide ReadPhysical, ReadAll;
    if |rs| == 0 {
      assert a + x == a;
      EndYields(codec, a);
    } else {
      var q, off := |a| / 32768, |a| % 32768;
      var b := Fragments(codec, off, rs[0], true);
      SplitPrefix(b, LogAt(codec, |a| + |b|, rs[1..]), x);
      if |x| < |b| {
        ReadsCutRecord(codec, a, q, off, rs[0], true, x, None);
      } else {
        ReadsLogMore(codec, a, rs, b, x, x[|b|..]);
      }
    }
  }

  lemma {:induction false} ReadsLogMore(codec: Codec, a: Bytes, rs: seq<Bytes>, b: Bytes, x: Bytes, y: Bytes)
    requires Sound(codec) && |rs| > 0 && b == Fragments(codec, |a| % 32768, rs[0], true)
    requires x == b + y && y <= LogAt(codec, |a| + |b|, rs[1..])
    ensures Yields(codec, a + x, |a|, Outcome(rs[..Complete(codec, |a|, rs, |x|)], CleanCut(codec, |a|, rs, |x|)))
    decreases |rs|, 0
  {
    hide ReadPhysical, ReadAll, Fragments, Deliver, Delivered, Yields, LogAt;
    var rest := Outcome(rs[1..][..Complete(codec, |a| + |b|, rs[1..], |y|)], CleanCut(codec, |a| + |b|, rs[1..], |y|));
    assert a + x == a + b + y;
    assert Delivered(codec, a + x, |a|, None, [] + rs[0], |a| + |b|) by {
      ReadsRecord(codec, a, |a| / 32768, |a| % 32768, rs[0], true, y, None);
    }
    assert Yields(codec, a + x, |a| + |b|, rest) by {
      ReadsLog(codec, a + b, rs[1..], y);
    }
    DeliveredYields(codec, a + x, |a|, rs[0], |a| + |b|, rest);
    assert [rs[0]] + rest.records == rs[..1 + |rest.records|];
  }

  // ---------------------------------------------------------------------------------------
  // The reader

  /** The return value t, fragment, dropped and new position pos of ReadPhysicalRecord report the piece p. */
  predicate Reports(p: Piece, t: byte, fragment: Bytes, dropped: bool, pos: nat) {
    match p
    case Eof(clean) => t == EOF && dropped == !clean
    case Bad(next, silent) => t == BAD && dropped == !silent && pos == next
    case Fragment(kind, data, next) => t == kind && fragment == data && !dropped && pos == next
  }

  /** What a header in the buffer makes of the piece. */
  lemma HeaderInBuffer(codec: Codec, file: Bytes, pos: nat, end: nat, buffer: Bytes)
    requires pos <= end <= |file| && buffer == file[pos..end] && |buffer| >= HEADER && end == BufferEnd(file, pos)
    ensures var length, kind := buffer[4] as int + 256 * (buffer[5] as int), buffer[6];
            ReadPhysical(codec, file, pos) ==
            if HEADER + length > |buffer| then Bad(end, false)
            else if kind == 0 && length == 0 then Bad(end, true)
            else if !codec.check(buffer[..4], buffer[6..HEADER + length]) then Bad(end, false)
            else Fragment(kind, buffer[HEADER..HEADER + length], pos + HEADER + length)
  {
    hide BlockEnd;
    var length := buffer[4] as int + 256 * (buffer[5] as int);
    if HEADER + length <= |buffer| {
      assert buffer[..4] == file[pos..pos + 4] && buffer[6..HEADER + length] == file[pos + 6..pos + HEADER + length];
      assert buffer[HEADER..HEADER + length] == file[pos + HEADER..pos + HEADER + length];
    }
  }

  /** The outcome with a drop noted. */
  function Drops(dropped: bool, o: Outcome): (o': Outcome) {
    Outcome(o.records, o.clean && !dropped)
  }

  /** What one physical record does to the reading that goes on. */
  lemma StepOf(codec: Codec, file: Bytes, pos: nat, scratch: Option<Bytes>, t: byte, data: Bytes, lost: bool, next: nat)
    requires pos <= |file| && next <= |file| && Reports(ReadPhysical(codec, file, pos), t, data, lost, next)
    ensures var broken := scratch.Some? && scratch.value != [];
            ReadAll(codec, file, pos, scratch) ==
            if t == FULL then Deliver(data, Drops(broken, ReadAll(codec, file, next, None)))
            else if t == FIRST then Drops(broken, ReadAll(codec, file, next, Some(data)))
            else if t == MIDDLE && scratch.Some? then ReadAll(codec, file, next, Some(scratch.value + data))
            else if t == LAST && scratch.Some? then Deliver(scratch.value + data, ReadAll(codec, file, next, None))
            else if t == EOF then Outcome([], !(lost || scratch.Some?))
            else if t == BAD then Drops(lost || scratch.Some?, ReadAll(codec, file, next, None))
            else Drops(true, ReadAll(codec, file, next, None))
    ensures t != EOF ==> pos < next
  {
    hide ReadPhysical;
  }

  /** Whether a call reported a drop is returned as dropped; the initial offset is 0, so every drop is reported. */
  class Reader {
    const codec: Codec
    const file: Bytes
    /** What has been read from the file, and the part of it that has not been looked at. */
    var filePos: nat
    var buffer: Bytes
    var eof: bool

    ghost predicate Valid()
      reads this
    {
      && |buffer| <= filePos <= |file|
      && buffer == file[Pos()..filePos]
      && if eof then filePos == |file| < BlockEnd(Pos()) else BlockEnd(filePos) == filePos + BLOCK && (buffer != [] ==> filePos == BlockEnd(Pos()))
    }

    ghost function Pos(): (pos: nat)
      reads this
      requires |buffer| <= filePos
    {
      filePos - |buffer|
    }

    constructor (codec: Codec, file: Bytes)
      ensures Valid() && Pos() == 0 && this.codec == codec && this.file == file
    {
      this.codec, this.file, filePos, buffer, eof := codec, file, 0, [], false;
    }

    /** Replace the buffer by the next block of the file. */
    method Fill()
      requires Valid() && |buffer| < HEADER && !eof
      modifies this
      ensures Valid() && Pos() == old(filePos) && (eof || |buffer| == BLOCK)
    {
      hide BlockEnd;
      NextBlock(filePos);
      var n := if |file| - filePos < BLOCK then |file| - filePos else BLOCK;
      buffer := file[filePos..filePos + n];
      filePos := filePos + n;
      if |buffer| < BLOCK {
        eof := true;
      }
    }

    /** Skip trailers and read blocks until a header is in the buffer or the file ends. */
    method FindHeader() returns (found: bool, dropped: bool)
      requires Valid()
      modifies this
      ensures Valid()
      ensures found ==> !dropped && |buffer| >= HEADER && ReadPhysical(codec, file, Pos()) == ReadPhysical(codec, file, old(Pos()))
      ensures !found ==> ReadPhysical(codec, file, old(Pos())) == Eof(!dropped)
    {
      hide BlockEnd;
      while |buffer| < HEADER
        invariant Valid()
        invariant ReadPhysical(codec, file, Pos()) == ReadPhysical(codec, file, old(Pos()))
        decreases !eof, |buffer| < HEADER
      {
        if eof {
          dropped := buffer != [];
          buffer := [];
          return false, dropped;
        }
        if buffer != [] {
          SkipsTrailer(codec, file, Pos(), filePos);
        }
        Fill();
      }
      return true, false;
    }

    method ReadPhysicalRecord() returns (t: byte, fragment: Bytes, dropped: bool)
      requires Valid()
      modifies this
      ensures Valid() && Reports(ReadPhysical(codec, file, old(Pos())), t, fragment, dropped, Pos())
    {
      hide BlockEnd, ReadPhysical;
      var found, lost := FindHeader();
      if !found {
        return EOF, [], lost;
      }
      HeaderInBuffer(codec, file, Pos(), filePos, buffer);
      var length, kind := buffer[4] as int + 256 * (buffer[5] as int), buffer[6];
      if HEADER + length > |buffer| {
        buffer := [];
        return BAD, [], true;
      }
      if kind == 0 && length == 0 {
        buffer := [];
        return BAD, [], false;
      }
      if !codec.check(buffer[..4], buffer[6..HEADER + length]) {
        buffer := [];
        return BAD, [], true;
      }
      SameBlock(Pos(), if |buffer| == HEADER + length then Pos() else Pos() + HEADER + length);
      fragment := buffer[HEADER..HEADER + length];
      buffer := buffer[HEADER + length..];
      t, dropped := kind, false;
    }

    /**
     * The next record, or None at the end of the log.  Together with what the reader returns from there on,
     * it is what the reader returns from here on.
     */
    method ReadRecord() returns (record: Option<Bytes>, dropped: bool)
      requires Valid()
      modifies this
      ensures Valid()
      ensures record.None? ==> ReadAll(codec, file, old(Pos()), None) == Outcome([], !dropped)
      ensures record.Some? ==> ReadAll(codec, file, old(Pos()), None) == Deliver(record.value, Drops(dropped, ReadAll(codec, file, Pos(), None)))
      ensures record.Some? ==> old(Pos()) < Pos()
    {
      var scratch: Option<Bytes> := None;
      dropped := false;
      while true
        invariant Valid() && old(Pos()) <= Pos()
        invariant ReadAll(codec, file, old(Pos()), None) == Drops(dropped, ReadAll(codec, file, Pos(), scratch))
        decreases |file| - Pos()
      {
        ghost var pos := Pos();
        var t, fragment, lost := ReadPhysicalRecord();
        ghost var now := Pos();
        var broken := scratch.Some? && scratch.value != [];
        StepOf(codec, file, pos, scratch, t, fragment, lost, now);
        if t == FULL {
          return Some(fragment), dropped || broken;
        } else if t == FIRST {
          dropped, scratch := dropped || broken, Some(fragment);
        } else if t == MIDDLE {
          if scratch.None? {
            dropped := true;
          } else {
            scratch := Some(scratch.value + fragment);
          }
        } else if t == LAST {
          if scratch.None? {
            dropped := true;
          } else {
            return Some(scratch.value + fragment), dropped;
          }
        } else if t == EOF {
          return None, dropped || lost || scratch.Some?;
        } else if t == BAD {
          dropped, scratch := dropped || lost || scratch.Some?, None;
        } else {
          dropped, scratch := true, None;
        }
      }
    }
  }
}
