/**
 * Version edits as bytes (db/version_edit.cc).
 */
module Edits {
  import opened Basics
  import opened Coding

  const NUM_LEVELS := 7

  const COMPARATOR := 1
  const LOG_NUMBER := 2
  const NEXT_FILE := 3
  const LAST_SEQUENCE := 4
  const COMPACT_POINTER := 5
  const DELETED_FILE := 6
  const NEW_FILE := 7
  const PREV_LOG_NUMBER := 9

  type Level = n: nat | n < NUM_LEVELS

  datatype FileMeta = FileMeta(number: uint64, size: uint64, smallest: Bytes, largest: Bytes)

  datatype Pointer = Pointer(level: Level, key: Bytes)
  datatype Deletion = Deletion(level: Level, number: uint64)
  datatype Addition = Addition(level: Level, file: FileMeta)

  datatype Edit = Edit(comparator: Option<Bytes>, logNumber: Option<uint64>, prevLogNumber: Option<uint64>, nextFile: Option<uint64>,
                       lastSequence: Option<uint64>, pointers: seq<Pointer>, deleted: seq<Deletion>, added: seq<Addition>)

  const NO_EDIT := Edit(None, None, None, None, None, [], [], [])

  // ---------------------------------------------------------------------------------------
  // Fields

  /** One tagged field of an edit. */
  datatype Field =
    | Comparator(name: Bytes)
    | LogNumber(n: uint64)
    | PrevLogNumber(n: uint64)
    | NextFile(n: uint64)
    | LastSequence(n: uint64)
    | PointerTo(pointer: Pointer)
    | Deleted(deletion: Deletion)
    | Added(addition: Addition)

  predicate FieldOk(f: Field) {
    match f
    case Comparator(name) => |name| < 0x1_0000_0000
    case PointerTo(p) => |p.key| < 0x1_0000_0000
    case Added(a) => |a.file.smallest| < 0x1_0000_0000 && |a.file.largest| < 0x1_0000_0000
    case _ => true
  }

  function TagOf(f: Field): (tag: uint32) {
    match f
    case Comparator(_) => COMPARATOR
    case LogNumber(_) => LOG_NUMBER
    case PrevLogNumber(_) => PREV_LOG_NUMBER
    case NextFile(_) => NEXT_FILE
    case LastSequence(_) => LAST_SEQUENCE
    case PointerTo(_) => COMPACT_POINTER
    case Deleted(_) => DELETED_FILE
    case Added(_) => NEW_FILE
  }

  function FieldBody(f: Field): (b: Bytes) {
    match f
    case Comparator(name) => LengthPrefixed(name)
    case LogNumber(n) => EncodeVarint(n)
    case PrevLogNumber(n) => EncodeVarint(n)
    case NextFile(n) => EncodeVarint(n)
    case LastSequence(n) => EncodeVarint(n)
    case PointerTo(p) => EncodeVarint(p.level) + LengthPrefixed(p.key)
    case Deleted(d) => EncodeVarint(d.level) + EncodeVarint(d.number)
    case Added(a) =>
      EncodeVarint(a.level) + (EncodeVarint(a.file.number) + (EncodeVarint(a.file.size) + (LengthPrefixed(a.file.smallest) + LengthPrefixed(a.file.largest))))
  }

  function EncodeField(f: Field): (b: Bytes) {
    EncodeVarint(TagOf(f)) + FieldBody(f)
  }

  /** GetLevel: a varint32 below the number of levels. */
  function GetLevel(b: Bytes): (r: Option<(Level, Bytes)>)
    ensures r.Some? ==> |r.value.1| < |b|
  {
    var v := GetVarint32(b);
    if v.Some? && v.value.0 < NUM_LEVELS then Some((v.value.0, v.value.1)) else None
  }

  function ParseNumber(tag: uint32, b: Bytes): (r: Option<(Field, Bytes)>)
    ensures r.Some? ==> |r.value.1| < |b|
  {
    var v := GetVarint64(b);
    if v.None? then None
    else
      var n := v.value.0;
      Some((if tag == LOG_NUMBER then LogNumber(n) else if tag == PREV_LOG_NUMBER then PrevLogNumber(n)
            else if tag == NEXT_FILE then NextFile(n) else LastSequence(n), v.value.1))
  }

  function ParseAddition(b: Bytes): (r: Option<(Field, Bytes)>)
    ensures r.Some? ==> |r.value.1| < |b| && r.value.0.Added?
  {
    var level := GetLevel(b);
    if level.None? then None
    else
      var number := GetVarint64(level.value.1);
      if number.None? then None
      else
        var size := GetVarint64(number.value.1);
        if size.None? then None
        else
          var smallest := GetLengthPrefixed(size.value.1);
          if smallest.None? then None
          else
            var largest := GetLengthPrefixed(smallest.value.1);
            if largest.None? then None
            else Some((Added(Addition(level.value.0, FileMeta(number.value.0, size.value.0, smallest.value.0, largest.value.0))), largest.value.1))
  }

  /** The field with this tag at the front of the input; None is one of the messages for malformed fields. */
  function ParseBody(tag: uint32, b: Bytes): (r: Option<(Field, Bytes)>)
    ensures r.Some? ==> |r.value.1| < |b|
  {
    if tag == COMPARATOR then
      var s := GetLengthPrefixed(b);
      if s.None? then None else Some((Comparator(s.value.0), s.value.1))
    else if tag == LOG_NUMBER || tag == PREV_LOG_NUMBER || tag == NEXT_FILE || tag == LAST_SEQUENCE then ParseNumber(tag, b)
    else if tag == COMPACT_POINTER then
      var level := GetLevel(b);
      if level.None? then None
      else
        var key := GetLengthPrefixed(level.value.1);
        if key.None? then None else Some((PointerTo(Pointer(level.value.0, key.value.0)), key.value.1))
    else if tag == DELETED_FILE then
      var level := GetLevel(b);
      if level.None? then None
      else
        var number := GetVarint64(level.value.1);
        if number.None? then None else Some((Deleted(Deletion(level.value.0, number.value.0)), number.value.1))
    else if tag == NEW_FILE then ParseAddition(b)
    else None
  }

  lemma LevelRoundTrip(level: Level, tail: Bytes)
    ensures GetLevel(EncodeVarint(level) + tail) == Some((level, tail))
  {
    hide EncodeVarint, GetVarint32;
    Varint32RoundTrip(level, tail);
  }

  lemma AdditionRoundTrip(a: Addition, tail: Bytes)
    requires FieldOk(Added(a))
    ensures ParseAddition(FieldBody(Added(a)) + tail) == Some((Added(a), tail))
  {
    hide EncodeVarint, GetVarint64, GetLevel, LengthPrefixed, GetLengthPrefixed;
    var f := a.file;
    var n, z, s, l := EncodeVarint(f.number), EncodeVarint(f.size), LengthPrefixed(f.smallest), LengthPrefixed(f.largest);
    var level := EncodeVarint(a.level);
    assert level + (n + (z + (s + l))) + tail == level + (n + (z + (s + (l + tail))));
    LevelRoundTrip(a.level, n + (z + (s + (l + tail))));
    Varint64RoundTrip(f.number, z + (s + (l + tail)));
    Varint64RoundTrip(f.size, s + (l + tail));
    LengthPrefixedRoundTrip(f.smallest, l + tail);
    LengthPrefixedRoundTrip(f.largest, tail);
  }

  lemma BodyRoundTrip(f: Field, tail: Bytes)
    requires FieldOk(f)
    ensures ParseBody(TagOf(f), FieldBody(f) + tail) == Some((f, tail))
  {
    hide EncodeVarint, GetVarint64, GetLevel, LengthPrefixed, GetLengthPrefixed, ParseAddition;
    match f
    case Comparator(name) => LengthPrefixedRoundTrip(name, tail);
    case LogNumber(n) => Varint64RoundTrip(n, tail);
    case PrevLogNumber(n) => Varint64RoundTrip(n, tail);
    case NextFile(n) => Varint64RoundTrip(n, tail);
    case LastSequence(n) => Varint64RoundTrip(n, tail);
    case PointerTo(p) =>
      assert FieldBody(f) + tail == EncodeVarint(p.level) + (LengthPrefixed(p.key) + tail);
      LevelRoundTrip(p.level, LengthPrefixed(p.key) + tail);
      LengthPrefixedRoundTrip(p.key, tail);
    case Deleted(d) =>
      assert FieldBody(f) + tail == EncodeVarint(d.level) + (EncodeVarint(d.number) + tail);
      LevelRoundTrip(d.level, EncodeVarint(d.number) + tail);
      Varint64RoundTrip(d.number, tail);
    case Added(a) => AdditionRoundTrip(a, tail);
  }

  // ---------------------------------------------------------------------------------------
  // Lists of fields

  function EncodeFields(fs: seq<Field>): (b: Bytes) {
    if |fs| == 0 then [] else EncodeField(fs[0]) + EncodeFields(fs[1..])
  }

  /** What a field changes in the edit being decoded. */
  function Take(e: Edit, f: Field): (e': Edit) {
    match f
    case Comparator(name) => e.(comparator := Some(name))
    case LogNumber(n) => e.(logNumber := Some(n))
    case PrevLogNumber(n) => e.(prevLogNumber := Some(n))
    case NextFile(n) => e.(nextFile := Some(n))
    case LastSequence(n) => e.(lastSequence := Some(n))
    case PointerTo(p) => e.(pointers := e.pointers + [p])
    case Deleted(d) => e.(deleted := e.deleted + [d])
    case Added(a) => e.(added := e.added + [a])
  }

  function TakeAll(e: Edit, fs: seq<Field>): (e': Edit)
    decreases |fs|
  {
    if |fs| == 0 then e else TakeAll(Take(e, fs[0]), fs[1..])
  }

  /** The decode loop on any bytes at all; None is a corruption status. */
  function ParseFields(e: Edit, b: Bytes): (r: Option<Edit>)
    decreases |b|
  {
    var tag := GetVarint32(b);
    if tag.None? then if |b| == 0 then Some(e) else None
    else
      var f := ParseBody(tag.value.0, tag.value.1);
      if f.None? then None else ParseFields(Take(e, f.value.0), f.value.1)
  }

  lemma {:induction false} FieldsRoundTrip(e: Edit, fs: seq<Field>)
    requires forall i :: 0 <= i < |fs| ==> FieldOk(fs[i])
    ensures ParseFields(e, EncodeFields(fs)) == Some(TakeAll(e, fs))
    decreases |fs|
  {
    hide EncodeVarint, GetVarint32, FieldBody, ParseBody, Take, FieldOk;
    if |fs| == 0 {
      NothingLeft();
    } else {
      var rest := EncodeFields(fs[1..]);
      assert EncodeFields(fs) == EncodeVarint(TagOf(fs[0])) + (FieldBody(fs[0]) + rest);
      Varint32RoundTrip(TagOf(fs[0]), FieldBody(fs[0]) + rest);
      BodyRoundTrip(fs[0], rest);
      FieldsRoundTrip(Take(e, fs[0]), fs[1..]);
    }
  }

  lemma NothingLeft()
    ensures GetVarint32([]) == None
  {
  }

  // ---------------------------------------------------------------------------------------
  // What is read from any bytes

  /** b starts with what follows the tag of the field f, in any encoding of its numbers. */
  ghost predicate IsBody(b: Bytes, f: Field, rest: Bytes) {
    match f
    case Comparator(name) => IsSlice(b, name, rest)
    case LogNumber(n) => IsNumber64(b, n, rest)
    case PrevLogNumber(n) => IsNumber64(b, n, rest)
    case NextFile(n) => IsNumber64(b, n, rest)
    case LastSequence(n) => IsNumber64(b, n, rest)
    case PointerTo(p) => exists m :: IsNumber32(b, p.level, m) && IsSlice(m, p.key, rest)
    case Deleted(d) => exists m :: IsNumber32(b, d.level, m) && IsNumber64(m, d.number, rest)
    case Added(a) =>
      exists m0, m1, m2, m3 ::
        && IsNumber32(b, a.level, m0) && IsNumber64(m0, a.file.number, m1) && IsNumber64(m1, a.file.size, m2)
        && IsSlice(m2, a.file.smallest, m3) && IsSlice(m3, a.file.largest, rest)
  }

  ghost predicate IsField(b: Bytes, f: Field, rest: Bytes) {
    exists m :: IsNumber32(b, TagOf(f), m) && IsBody(m, f, rest)
  }

  lemma Exact()
    ensures forall b, v: uint32, rest :: GetVarint32(b) == Some((v, rest)) <==> IsNumber32(b, v, rest)
    ensures forall b, v: uint64, rest :: GetVarint64(b) == Some((v, rest)) <==> IsNumber64(b, v, rest)
    ensures forall b, s, rest :: GetLengthPrefixed(b) == Some((s, rest)) <==> IsSlice(b, s, rest)
  {
    hide GetVarint32, GetVarint64, GetLengthPrefixed, IsNumber32, IsNumber64, IsSlice;
    forall b, v: uint32, rest ensures GetVarint32(b) == Some((v, rest)) <==> IsNumber32(b, v, rest) {
      Number32Exact(b, v, rest);
    }
    forall b, v: uint64, rest ensures GetVarint64(b) == Some((v, rest)) <==> IsNumber64(b, v, rest) {
      Number64Exact(b, v, rest);
    }
    forall b, s, rest ensures GetLengthPrefixed(b) == Some((s, rest)) <==> IsSlice(b, s, rest) {
      SliceExact(b, s, rest);
    }
  }

  lemma AdditionExact(b: Bytes, a: Addition, rest: Bytes)
    ensures ParseAddition(b) == Some((Added(a), rest)) <==> IsBody(b, Added(a), rest)
  {
    hide GetVarint32, GetVarint64, GetLengthPrefixed, IsNumber32, IsNumber64, IsSlice;
    Exact();
  }

  lemma BodyExact(tag: uint32, b: Bytes, f: Field, rest: Bytes)
    ensures ParseBody(tag, b) == Some((f, rest)) <==> tag == TagOf(f) && IsBody(b, f, rest)
  {
    hide GetVarint32, GetVarint64, GetLengthPrefixed, IsNumber32, IsNumber64, IsSlice, ParseAddition;
    if tag == NEW_FILE && f.Added? {
      AdditionExact(b, f.addition, rest);
    } else {
      Exact();
      var n := GetVarint32(b);
      if n.Some? {
        assert IsNumber32(b, n.value.0, n.value.1);
      }
    }
  }

  /** The fields stand one after the other, and the last one ends the input. */
  ghost predicate MadeOf(b: Bytes, fs: seq<Field>, at: seq<Bytes>) {
    && |at| == |fs| + 1 && at[0] == b && at[|fs|] == []
    && forall i :: 0 <= i < |fs| ==> IsField(at[i], fs[i], at[i + 1])
  }

  lemma MadeOfFirst(b: Bytes, f: Field, rest: Bytes, fs: seq<Field>, at: seq<Bytes>)
    requires IsField(b, f, rest) && MadeOf(rest, fs, at)
    ensures MadeOf(b, [f] + fs, [b] + at)
  {
    hide IsField;
    var fs', at' := [f] + fs, [b] + at;
    forall i | 0 <= i < |fs'| ensures IsField(at'[i], fs'[i], at'[i + 1]) {
      if i > 0 {
        assert IsField(at[i - 1], fs[i - 1], at[i]);
      }
    }
  }

  lemma FieldExact(b: Bytes, f: Field, rest: Bytes)
    ensures IsField(b, f, rest) <==>
            GetVarint32(b).Some? && ParseBody(GetVarint32(b).value.0, GetVarint32(b).value.1) == Some((f, rest))
  {
    hide GetVarint32, IsNumber32, ParseBody, IsBody;
    forall v: uint32, m ensures GetVarint32(b) == Some((v, m)) <==> IsNumber32(b, v, m) {
      Number32Exact(b, v, m);
    }
    if GetVarint32(b).Some? {
      BodyExact(GetVarint32(b).value.0, GetVarint32(b).value.1, f, rest);
    }
  }

  /** Decoding succeeds on exactly the bytes that are made of fields, and takes these in order. */
  lemma {:induction false} FieldsExact(e: Edit, b: Bytes)
    ensures ParseFields(e, b).Some? ==> exists fs, at :: MadeOf(b, fs, at) && ParseFields(e, b).value == TakeAll(e, fs)
    decreases |b|
  {
    hide GetVarint32, ParseBody, Take, IsField;
    if ParseFields(e, b).Some? {
      var tag := GetVarint32(b);
      if tag.None? {
        assert MadeOf(b, [], [b]) && TakeAll(e, []) == e;
      } else {
        var f := ParseBody(tag.value.0, tag.value.1).value;
        FieldsExact(Take(e, f.0), f.1);
        var fs, at :| MadeOf(f.1, fs, at) && ParseFields(Take(e, f.0), f.1).value == TakeAll(Take(e, f.0), fs);
        FieldExact(b, f.0, f.1);
        MadeOfFirst(b, f.0, f.1, fs, at);
        assert ([f.0] + fs)[1..] == fs;
      }
    }
  }

  lemma {:induction false} FieldsDecode(e: Edit, b: Bytes, fs: seq<Field>, at: seq<Bytes>)
    requires MadeOf(b, fs, at)
    ensures ParseFields(e, b) == Some(TakeAll(e, fs))
    decreases |fs|
  {
    hide GetVarint32, ParseBody, Take, IsField;
    if |fs| == 0 {
      NothingLeft();
    } else {
      assert IsField(at[0], fs[0], at[1]);
      FieldExact(b, fs[0], at[1]);
      forall i | 0 <= i < |fs| - 1 ensures IsField(at[1..][i], fs[1..][i], at[1..][i + 1]) {
        assert IsField(at[i + 1], fs[i + 1], at[i + 2]);
      }
      FieldsDecode(Take(e, fs[0]), at[1], fs[1..], at[1..]);
    }
  }

  /** On any bytes: what is decoded, and that nothing is exactly when the bytes are not made of fields. */
  lemma EditExact(b: Bytes, e: Edit)
    ensures DecodeEdit(b) == Some(e) <==> exists fs, at :: MadeOf(b, fs, at) && e == TakeAll(NO_EDIT, fs)
  {
    hide ParseFields, MadeOf, TakeAll;
    FieldsExact(NO_EDIT, b);
    forall fs, at | MadeOf(b, fs, at) ensures DecodeEdit(b) == Some(TakeAll(NO_EDIT, fs)) {
      FieldsDecode(NO_EDIT, b, fs, at);
    }
  }

  // ---------------------------------------------------------------------------------------
  // Edits

  function NumberOf(n: Option<uint64>): (v: uint64) {
    if n.Some? then n.value else 0
  }

  function NameField(e: Edit): (fs: seq<Field>) {
    Maybe(e.comparator.Some?, Comparator(if e.comparator.Some? then e.comparator.value else []))
  }

  function LogField(e: Edit): (fs: seq<Field>) {
    Maybe(e.logNumber.Some?, LogNumber(NumberOf(e.logNumber)))
  }

  function PrevLogField(e: Edit): (fs: seq<Field>) {
    Maybe(e.prevLogNumber.Some?, PrevLogNumber(NumberOf(e.prevLogNumber)))
  }

  function NextFileField(e: Edit): (fs: seq<Field>) {
    Maybe(e.nextFile.Some?, NextFile(NumberOf(e.nextFile)))
  }

  function LastField(e: Edit): (fs: seq<Field>) {
    Maybe(e.lastSequence.Some?, LastSequence(NumberOf(e.lastSequence)))
  }

  function Numbers(e: Edit): (fs: seq<Field>) {
    NameField(e) + LogField(e) + PrevLogField(e) + NextFileField(e) + LastField(e)
  }

  function PointerFields(ps: seq<Pointer>): (fs: seq<Field>)
    ensures |fs| == |ps| && forall i :: 0 <= i < |ps| ==> fs[i] == PointerTo(ps[i])
  {
    seq(|ps|, i requires 0 <= i < |ps| => PointerTo(ps[i]))
  }

  function DeletedFields(ds: seq<Deletion>): (fs: seq<Field>)
    ensures |fs| == |ds| && forall i :: 0 <= i < |ds| ==> fs[i] == Deleted(ds[i])
  {
    seq(|ds|, i requires 0 <= i < |ds| => Deleted(ds[i]))
  }

  function AddedFields(xs: seq<Addition>): (fs: seq<Field>)
    ensures |fs| == |xs| && forall i :: 0 <= i < |xs| ==> fs[i] == Added(xs[i])
  {
    seq(|xs|, i requires 0 <= i < |xs| => Added(xs[i]))
  }

  function FieldsOf(e: Edit): (fs: seq<Field>) {
    Numbers(e) + PointerFields(e.pointers) + DeletedFields(e.deleted) + AddedFields(e.added)
  }

  predicate EditOk(e: Edit) {
    forall i :: 0 <= i < |FieldsOf(e)| ==> FieldOk(FieldsOf(e)[i])
  }

  function EncodeEdit(e: Edit): (b: Bytes) {
    EncodeFields(FieldsOf(e))
  }

  function DecodeEdit(b: Bytes): (r: Option<Edit>) {
    ParseFields(NO_EDIT, b)
  }

  lemma {:induction false} TakeConcat(e: Edit, fs: seq<Field>, gs: seq<Field>)
    ensures TakeAll(e, fs + gs) == TakeAll(TakeAll(e, fs), gs)
    decreases |fs|
  {
    hide Take;
    if |fs| == 0 {
      assert fs + gs == gs;
    } else {
      assert (fs + gs)[1..] == fs[1..] + gs;
      TakeConcat(Take(e, fs[0]), fs[1..], gs);
    }
  }

  lemma {:induction false} TakePointers(e: Edit, ps: seq<Pointer>)
    ensures TakeAll(e, PointerFields(ps)) == e.(pointers := e.pointers + ps)
    decreases |ps|
  {
    if |ps| > 0 {
      assert PointerFields(ps)[1..] == PointerFields(ps[1..]);
      TakePointers(Take(e, PointerTo(ps[0])), ps[1..]);
      assert e.pointers + [ps[0]] + ps[1..] == e.pointers + ps;
    } else {
      assert e.pointers + ps == e.pointers;
    }
  }

  lemma {:induction false} TakeDeleted(e: Edit, ds: seq<Deletion>)
    ensures TakeAll(e, DeletedFields(ds)) == e.(deleted := e.deleted + ds)
    decreases |ds|
  {
    if |ds| > 0 {
      assert DeletedFields(ds)[1..] == DeletedFields(ds[1..]);
      TakeDeleted(Take(e, Deleted(ds[0])), ds[1..]);
      assert e.deleted + [ds[0]] + ds[1..] == e.deleted + ds;
    } else {
      assert e.deleted + ds == e.deleted;
    }
  }

  lemma {:induction false} TakeAdded(e: Edit, xs: seq<Addition>)
    ensures TakeAll(e, AddedFields(xs)) == e.(added := e.added + xs)
    decreases |xs|
  {
    if |xs| > 0 {
      assert AddedFields(xs)[1..] == AddedFields(xs[1..]);
      TakeAdded(Take(e, Added(xs[0])), xs[1..]);
      assert e.added + [xs[0]] + xs[1..] == e.added + xs;
    } else {
      assert e.added + xs == e.added;
    }
  }

  /** A field that is there or not. */
  function Maybe(there: bool, f: Field): (fs: seq<Field>) {
    if there then [f] else []
  }

  lemma TakeMaybe(e: Edit, there: bool, f: Field)
    ensures TakeAll(e, Maybe(there, f)) == if there then Take(e, f) else e
  {
    assert [f][1..] == [];
  }

  lemma TakeNumbers(e: Edit)
    ensures TakeAll(NO_EDIT, Numbers(e)) == e.(pointers := [], deleted := [], added := [])
  {
    hide TakeAll, Maybe;
    var (f0, f1, f2) := (NameField(e), LogField(e), PrevLogField(e));
    var e0 := NO_EDIT.(comparator := e.comparator);
    var e1 := e0.(logNumber := e.logNumber);
    var e2 := e1.(prevLogNumber := e.prevLogNumber);
    var e3 := e2.(nextFile := e.nextFile);
    TakeConcat(NO_EDIT, f0 + f1 + f2 + NextFileField(e), LastField(e));
    TakeConcat(NO_EDIT, f0 + f1 + f2, NextFileField(e));
    TakeConcat(NO_EDIT, f0 + f1, f2);
    TakeConcat(NO_EDIT, f0, f1);
    TakeMaybe(NO_EDIT, e.comparator.Some?, Comparator(if e.comparator.Some? then e.comparator.value else []));
    TakeMaybe(e0, e.logNumber.Some?, LogNumber(NumberOf(e.logNumber)));
    TakeMaybe(e1, e.prevLogNumber.Some?, PrevLogNumber(NumberOf(e.prevLogNumber)));
    TakeMaybe(e2, e.nextFile.Some?, NextFile(NumberOf(e.nextFile)));
    TakeMaybe(e3, e.lastSequence.Some?, LastSequence(NumberOf(e.lastSequence)));
  }

  /** Decoding gives back the edit that was encoded. */
  lemma EditRoundTrip(e: Edit)
    requires EditOk(e)
    ensures DecodeEdit(EncodeEdit(e)) == Some(e)
  {
    hide TakeAll, EncodeFields, ParseFields, FieldOk, Numbers;
    var n, p, d, a := Numbers(e), PointerFields(e.pointers), DeletedFields(e.deleted), AddedFields(e.added);
    FieldsRoundTrip(NO_EDIT, FieldsOf(e));
    TakeConcat(NO_EDIT, n + p + d, a);
    TakeConcat(NO_EDIT, n + p, d);
    TakeConcat(NO_EDIT, n, p);
    TakeNumbers(e);
    var e0 := e.(pointers := [], deleted := [], added := []);
    TakePointers(e0, e.pointers);
    assert [] + e.pointers == e.pointers && [] + e.deleted == e.deleted && [] + e.added == e.added;
    TakeDeleted(e0.(pointers := e.pointers), e.deleted);
    TakeAdded(e0.(pointers := e.pointers, deleted := e.deleted), e.added);
  }

  /** VersionEdit::DecodeFrom. */
  method DecodeFrom(src: Bytes) returns (r: Option<Edit>)
    ensures r == DecodeEdit(src)
    ensures forall e :: r == Some(e) <==> exists fs, at :: MadeOf(src, fs, at) && e == TakeAll(NO_EDIT, fs)
  {
    forall e ensures DecodeEdit(src) == Some(e) <==> exists fs, at :: MadeOf(src, fs, at) && e == TakeAll(NO_EDIT, fs) {
      EditExact(src, e);
    }
    var e, input := NO_EDIT, src;
    while true
      invariant ParseFields(e, input) == DecodeEdit(src)
      decreases |input|
    {
      hide GetVarint32, ParseBody, Take;
      var tag := GetVarint32(input);
      if tag.None? {
        return if input == [] then Some(e) else None;
      }
      var f := ParseBody(tag.value.0, tag.value.1);
      if f.None? {
        return None;
      }
      e, input := Take(e, f.value.0), f.value.1;
    }
  }
}
