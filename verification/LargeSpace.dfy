/**
 * The large space (table/mris.h, table/mris.cc): an append-only store for large values that rolls over block
 * files, finds the block of an offset by binary search, and keeps its list of blocks in metadata files.
 */
module LargeSpace {
  import opened Basics
  import opened Coding
  import opened Keys

  // ---------------------------------------------------------------------------------------
  // File names

  function Decimal(k: nat): (d: Bytes)
    ensures |d| > 0
  {
    if k < 10 then [48 + k] else Decimal(k / 10) + [48 + k % 10]
  }

  function ZeroDigits(n: nat): (b: Bytes)
    ensures |b| == n && forall i :: 0 <= i < n ==> b[i] == 48
  {
    seq(n, i => 48)
  }

  /** At least eight decimal digits. */
  function Padded(k: nat): (d: Bytes) {
    var d := Decimal(k);
    if |d| < 8 then ZeroDigits(8 - |d|) + d else d
  }

  /** dbname/00000012.lbf */
  function BlockFileName(db: Bytes, k: nat): (name: Bytes) {
    db + [47] + Padded(k) + [46, 108, 98, 102]
  }

  /** The number that a string of digits stands for. */
  function Number(d: Bytes): (k: int) {
    if |d| == 0 then 0 else 10 * Number(d[..|d| - 1]) + (d[|d| - 1] as int - 48)
  }

  lemma {:induction false} NumberOfDecimal(k: nat, n: nat)
    ensures Number(ZeroDigits(n) + Decimal(k)) == k
    decreases k
  {
    var d := ZeroDigits(n) + Decimal(k);
    if k < 10 {
      assert d[..|d| - 1] == ZeroDigits(n);
      NumberOfZeroDigits(n);
    } else {
      assert d[..|d| - 1] == ZeroDigits(n) + Decimal(k / 10);
      NumberOfDecimal(k / 10, n);
    }
  }

  lemma {:induction false} NumberOfZeroDigits(n: nat)
    ensures Number(ZeroDigits(n)) == 0
  {
    if n > 0 {
      assert ZeroDigits(n)[..n - 1] == ZeroDigits(n - 1);
      NumberOfZeroDigits(n - 1);
    }
  }

  lemma NumberOfPadded(k: nat)
    ensures Number(Padded(k)) == k
  {
    var d := Decimal(k);
    if |d| < 8 {
      NumberOfDecimal(k, 8 - |d|);
    } else {
      assert ZeroDigits(0) + d == d;
      NumberOfDecimal(k, 0);
    }
  }

  /** Blocks with different numbers have different files. */
  lemma NamesDiffer(db: Bytes, j: nat, k: nat)
    requires BlockFileName(db, j) == BlockFileName(db, k)
    ensures j == k
  {
    hide Padded, Number;
    var x, y := BlockFileName(db, j), BlockFileName(db, k);
    assert x[|db| + 1..|x| - 4] == Padded(j) && y[|db| + 1..|y| - 4] == Padded(k);
    NumberOfPadded(j);
    NumberOfPadded(k);
  }

  // ---------------------------------------------------------------------------------------
  // Records

  /** A value in a block file: its size, the value, its checksum. */
  function Record(step: CrcStep, v: Bytes): (b: Bytes)
    requires |v| < 0x1_0000_0000
    ensures |b| == |v| + 8
  {
    EncodeFixed32(|v|) + v + EncodeFixed32(Crc(step, v))
  }

  /** ReadFromFile: None stands for an error status. */
  function ReadFromFile(step: CrcStep, file: Bytes, offset: nat, n: nat): (r: Option<Bytes>) {
    if offset + 4 > |file| || DecodeFixed32(file[offset..]) != n then None
    else if offset + n + 8 > |file| then None
    else
      var v := file[offset + 4..offset + 4 + n];
      if DecodeFixed32(file[offset + 4 + n..]) != Crc(step, v) then None else Some(v)
  }

  /** The record of v lies in the file at this offset. */
  ghost predicate HasRecord(step: CrcStep, file: Bytes, offset: nat, v: Bytes) {
    |v| < 0x1_0000_0000 && offset + |v| + 8 <= |file| && file[offset..offset + |v| + 8] == Record(step, v)
  }

  /** On any file: a value of this size is read exactly where its record stands. */
  lemma RecordExact(step: CrcStep, file: Bytes, offset: nat, n: nat, v: Bytes)
    ensures ReadFromFile(step, file, offset, n) == Some(v) <==> |v| == n && HasRecord(step, file, offset, v)
  {
    hide EncodeFixed32, DecodeFixed32, Crc;
    if offset + n + 8 <= |file| {
      var rec := file[offset..offset + n + 8];
      var size, w, crc := rec[..4], rec[4..4 + n], rec[4 + n..];
      assert rec == size + w + crc;
      SliceOfSlice(file, offset, offset + n + 8, 4, 4 + n);
      assert file[offset..][..4] == size && file[offset + 4 + n..][..4] == crc;
      Fixed32Inverse(file[offset..]);
      Fixed32Inverse(file[offset + 4 + n..]);
      if |v| == n && HasRecord(step, file, offset, v) {
        Parts(EncodeFixed32(n), v, EncodeFixed32(Crc(step, v)), size, w, crc);
        assert file[offset..] == EncodeFixed32(n) + file[offset + 4..];
        Fixed32RoundTrip(n, file[offset + 4..]);
        assert file[offset + 4 + n..] == EncodeFixed32(Crc(step, v)) + file[offset + n + 8..];
        Fixed32RoundTrip(Crc(step, v), file[offset + n + 8..]);
      }
    }
  }

  lemma SliceOfSlice(b: Bytes, i: nat, j: nat, p: nat, q: nat)
    requires i <= j <= |b| && p <= q <= j - i
    ensures b[i..j][p..q] == b[i + p..i + q]
  {
    var x, y := b[i..j][p..q], b[i + p..i + q];
    forall k | 0 <= k < q - p ensures x[k] == y[k] {
      assert b[i..j][p + k] == b[i + (p + k)];
    }
  }

  lemma Parts(a: Bytes, b: Bytes, c: Bytes, a': Bytes, b': Bytes, c': Bytes)
    requires a + b + c == a' + b' + c' && |a| == |a'| && |b| == |b'|
    ensures a == a' && b == b' && c == c'
  {
    var x, y := a + b + c, a' + b' + c';
    assert a == x[..|a|] && a' == y[..|a|];
    assert b == x[|a|..|a| + |b|] && b' == y[|a|..|a| + |b|];
    assert c == x[|a| + |b|..] && c' == y[|a| + |b|..];
  }

  lemma RecordReads(step: CrcStep, file: Bytes, offset: nat, v: Bytes)
    requires HasRecord(step, file, offset, v)
    ensures ReadFromFile(step, file, offset, |v|) == Some(v)
  {
    RecordExact(step, file, offset, |v|, v);
  }

  lemma RecordKept(step: CrcStep, file: Bytes, more: Bytes, offset: nat, v: Bytes)
    requires HasRecord(step, file, offset, v)
    ensures HasRecord(step, file + more, offset, v)
  {
    hide Record;
    assert (file + more)[offset..offset + |v| + 8] == file[offset..offset + |v| + 8];
  }

  // ---------------------------------------------------------------------------------------
  // Handles and metadata

  datatype Handle = Handle(name: Bytes, offset: nat, size: nat)

  function End(h: Handle): (e: nat) {
    h.offset + h.size
  }

  predicate HandleOk(h: Handle) {
    |h.name| < 0x1_0000_0000 && h.offset < 0x1_0000_0000_0000_0000 && h.size < 0x1_0000_0000_0000_0000
  }

  predicate HandlesOk(hs: seq<Handle>) {
    forall i :: 0 <= i < |hs| ==> HandleOk(hs[i])
  }

  function EncodeHandle(h: Handle): (b: Bytes) {
    LengthPrefixed(h.name) + EncodeVarint(h.offset) + EncodeVarint(h.size)
  }

  function DecodeHandle(b: Bytes): (r: Option<(Handle, Bytes)>)
    ensures r.Some? ==> |r.value.1| < |b|
  {
    var n := GetLengthPrefixed(b);
    if n.None? then None
    else
      var o := GetVarint64(n.value.1);
      if o.None? then None
      else
        var s := GetVarint64(o.value.1);
        if s.None? then None else Some((Handle(n.value.0, o.value.0, s.value.0), s.value.1))
  }

  lemma HandleRoundTrip(h: Handle, tail: Bytes)
    requires HandleOk(h)
    ensures DecodeHandle(EncodeHandle(h) + tail) == Some((h, tail))
  {
    hide EncodeVarint, GetVarint64, LengthPrefixed, GetLengthPrefixed;
    var o, s := EncodeVarint(h.offset), EncodeVarint(h.size);
    assert EncodeHandle(h) + tail == LengthPrefixed(h.name) + (o + (s + tail));
    LengthPrefixedRoundTrip(h.name, o + (s + tail));
    Varint64RoundTrip(h.offset, s + tail);
    Varint64RoundTrip(h.size, tail);
  }

  function EncodeHandles(hs: seq<Handle>): (b: Bytes) {
    if |hs| == 0 then [] else EncodeHandle(hs[0]) + EncodeHandles(hs[1..])
  }

  function DecodeHandles(b: Bytes, n: nat): (r: Option<(seq<Handle>, Bytes)>)
    ensures r.Some? ==> |r.value.1| <= |b| && |r.value.0| == n
    decreases n
  {
    if n == 0 then Some(([], b))
    else
      var h := DecodeHandle(b);
      if h.None? then None
      else
        var rest := DecodeHandles(h.value.1, n - 1);
        if rest.None? then None else Some(([h.value.0] + rest.value.0, rest.value.1))
  }

  lemma {:induction false} HandlesRoundTrip(hs: seq<Handle>, tail: Bytes)
    requires HandlesOk(hs)
    ensures DecodeHandles(EncodeHandles(hs) + tail, |hs|) == Some((hs, tail))
  {
    hide EncodeHandle, DecodeHandle, HandleOk;
    if |hs| == 0 {
      assert [] + tail == tail;
    } else {
      assert EncodeHandles(hs) + tail == EncodeHandle(hs[0]) + (EncodeHandles(hs[1..]) + tail);
      HandleRoundTrip(hs[0], EncodeHandles(hs[1..]) + tail);
      HandlesRoundTrip(hs[1..], tail);
      assert [hs[0]] + hs[1..] == hs;
    }
  }

  /** What a metadata file records; the writer block comes last. */
  datatype Meta = Meta(sizeThreshold: uint32, splitThreshold: uint32, blocks: seq<Handle>, builder: Option<Handle>)

  function Builders(m: Meta): (hs: seq<Handle>) {
    if m.builder.Some? then [m.builder.value] else []
  }

  predicate MetaOk(m: Meta) {
    |m.blocks| < 0x1_0000_0000 && HandlesOk(m.blocks) && HandlesOk(Builders(m))
  }

  function MetaBody(m: Meta): (b: Bytes) {
    EncodeVarint(m.sizeThreshold) + EncodeVarint(m.splitThreshold) + EncodeVarint(|m.blocks|) + EncodeVarint(|Builders(m)|)
    + EncodeHandles(m.blocks) + EncodeHandles(Builders(m))
  }

  /** The body, its length and its checksum. */
  function EncodeMeta(step: CrcStep, m: Meta): (b: Bytes)
  {
    MetaBody(m) + EncodeVarint(|MetaBody(m)|) + EncodeVarint(Crc(step, MetaBody(m)))
  }

  /** What loading a metadata file gives: the writer block has become a reader block. */
  datatype Loaded = Loaded(sizeThreshold: uint32, splitThreshold: uint32, blocks: seq<Handle>)

  function DecodeBody(b: Bytes): (r: Option<(Loaded, Bytes)>)
    ensures r.Some? ==> |r.value.1| <= |b|
  {
    var v0 := GetVarint32(b);
    if v0.None? then None
    else
      var v1 := GetVarint32(v0.value.1);
      if v1.None? then None
      else
        var v2 := GetVarint64(v1.value.1);
        if v2.None? then None
        else
          var v3 := GetVarint32(v2.value.1);
          if v3.None? || v3.value.0 > 1 then None
          else
            var hs := DecodeHandles(v3.value.1, v2.value.0 + v3.value.0);
            if hs.None? then None else Some((Loaded(v0.value.0, v1.value.0, hs.value.0), hs.value.1))
  }

  /** LargeMeta::DecodeFrom: the length and the checksum of the body must match. */
  function DecodeMeta(step: CrcStep, b: Bytes): (r: Option<Loaded>) {
    var body := DecodeBody(b);
    if body.None? then None
    else
      var length := |b| - |body.value.1|;
      var size := GetVarint64(body.value.1);
      if size.None? || size.value.0 != length then None
      else
        var crc := GetVarint32(size.value.1);
        if crc.None? || crc.value.0 != Crc(step, b[..length]) then None else Some(body.value.0)
  }

  /** What follows the body of b is the length of the body and its checksum. */
  ghost predicate Trailed(step: CrcStep, b: Bytes, rest: Bytes)
    requires |rest| <= |b| < 0x1_0000_0000_0000_0000
  {
    var n := |b| - |rest|;
    exists t, t' :: IsNumber64(rest, n, t) && IsNumber32(t, Crc(step, b[..n]), t')
  }

  /** On any bytes: metadata is accepted exactly when its body is followed by its length and its checksum. */
  lemma MetaExact(step: CrcStep, b: Bytes, l: Loaded)
    requires |b| < 0x1_0000_0000_0000_0000
    ensures DecodeMeta(step, b) == Some(l) <==>
            DecodeBody(b).Some? && DecodeBody(b).value.0 == l && Trailed(step, b, DecodeBody(b).value.1)
  {
    hide DecodeBody, GetVarint64, GetVarint32, IsNumber64, IsNumber32, Crc;
    if DecodeBody(b).Some? {
      var rest := DecodeBody(b).value.1;
      var n := |b| - |rest|;
      var crc := Crc(step, b[..n]);
      var size := GetVarint64(rest);
      if size.Some? {
        Number64Exact(rest, size.value.0, size.value.1);
        var c := GetVarint32(size.value.1);
        if c.Some? {
          Number32Exact(size.value.1, c.value.0, c.value.1);
        }
      }
      if Trailed(step, b, rest) {
        var t, t' :| IsNumber64(rest, n, t) && IsNumber32(t, crc, t');
        Number64Exact(rest, n, t);
        Number32Exact(t, crc, t');
      }
    }
  }

  lemma {:induction false} HandlesConcat(hs: seq<Handle>, more: seq<Handle>)
    ensures EncodeHandles(hs + more) == EncodeHandles(hs) + EncodeHandles(more)
  {
    hide EncodeHandle;
    if |hs| == 0 {
      assert hs + more == more;
    } else {
      assert (hs + more)[1..] == hs[1..] + more;
      HandlesConcat(hs[1..], more);
    }
  }

  lemma BodyRoundTrip(m: Meta, tail: Bytes)
    requires MetaOk(m)
    ensures DecodeBody(MetaBody(m) + tail) == Some((Loaded(m.sizeThreshold, m.splitThreshold, m.blocks + Builders(m)), tail))
  {
    hide EncodeVarint, GetVarint32, GetVarint64, EncodeHandles, DecodeHandles, HandleOk;
    var a, b, c, d := EncodeVarint(m.sizeThreshold), EncodeVarint(m.splitThreshold), EncodeVarint(|m.blocks|), EncodeVarint(|Builders(m)|);
    var hs := m.blocks + Builders(m);
    HandlesConcat(m.blocks, Builders(m));
    Unfold(a, b, c, d, EncodeHandles(m.blocks), EncodeHandles(Builders(m)), tail);
    var rest := EncodeHandles(hs) + tail;
    Varint32RoundTrip(m.sizeThreshold, b + (c + (d + rest)));
    Varint32RoundTrip(m.splitThreshold, c + (d + rest));
    Varint64RoundTrip(|m.blocks|, d + rest);
    Varint32RoundTrip(|Builders(m)|, rest);
    HandlesRoundTrip(hs, tail);
  }

  lemma Unfold(a: Bytes, b: Bytes, c: Bytes, d: Bytes, e: Bytes, f: Bytes, tail: Bytes)
    ensures a + b + c + d + e + f + tail == a + (b + (c + (d + ((e + f) + tail))))
  {
  }

  /** Loading what was dumped gives back the thresholds and all blocks, the writer block last. */
  lemma MetaRoundTrip(step: CrcStep, m: Meta)
    requires MetaOk(m) && |MetaBody(m)| < 0x1_0000_0000_0000_0000
    ensures DecodeMeta(step, EncodeMeta(step, m)) == Some(Loaded(m.sizeThreshold, m.splitThreshold, m.blocks + Builders(m)))
  {
    hide EncodeVarint, GetVarint32, GetVarint64, MetaBody, DecodeBody, Crc;
    var body := MetaBody(m);
    var size, crc := EncodeVarint(|body|), EncodeVarint(Crc(step, body));
    assert EncodeMeta(step, m) == body + (size + crc);
    assert EncodeMeta(step, m)[..|body|] == body;
    BodyRoundTrip(m, size + crc);
    Varint64RoundTrip(|body|, crc);
    assert crc == crc + [];
    Varint32RoundTrip(Crc(step, body), []);
  }

  // ---------------------------------------------------------------------------------------
  // Finding the block of an offset

  /** The binary search of getBlockReader: it stops at once when it meets the offset itself. */
  function Search(hs: seq<Handle>, offset: nat, first: nat, count: nat): (k: nat)
    requires 0 < count && first + count <= |hs|
    ensures first <= k < first + count
    decreases count
  {
    if count == 1 then first
    else
      var step := count / 2;
      var mid := first + step;
      if hs[mid].offset == offset then mid
      else if hs[mid].offset > offset then Search(hs, offset, first, step)
      else Search(hs, offset, mid, count - step)
  }

  method GetBlockReader(hs: seq<Handle>, offset: nat) returns (k: nat)
    requires |hs| > 0
    ensures k == Search(hs, offset, 0, |hs|)
  {
    var first, count := 0, |hs|;
    while count > 1
      invariant 0 < count && first + count <= |hs| && Search(hs, offset, first, count) == Search(hs, offset, 0, |hs|)
      decreases count
    {
      var step := count / 2;
      var mid := first + step;
      if hs[mid].offset == offset {
        return mid;
      } else if hs[mid].offset > offset {
        count := step;
      } else {
        first := mid;
        count := count - step;
      }
    }
    k := first;
  }

  /** Each block starts where the one before it ends. */
  predicate Tiled(hs: seq<Handle>) {
    forall i :: 0 <= i < |hs| ==> Follows(hs, i)
  }

  predicate Follows(hs: seq<Handle>, i: nat)
    requires i < |hs|
  {
    hs[i].offset == if i == 0 then 0 else End(hs[i - 1])
  }

  predicate NoneEmpty(hs: seq<Handle>) {
    forall i :: 0 <= i < |hs| ==> hs[i].size > 0
  }

  predicate Contains(h: Handle, offset: nat) {
    h.offset <= offset < End(h)
  }

  lemma {:induction false} OffsetsGrow(hs: seq<Handle>, i: nat, j: nat)
    requires Tiled(hs) && i < j < |hs|
    ensures End(hs[i]) <= hs[j].offset
    decreases j - i
  {
    assert Follows(hs, j);
    if i + 1 < j {
      OffsetsGrow(hs, i, j - 1);
    }
  }

  /** Blocks i up to j all start at the same offset, and no block before them does. */
  predicate SameStart(hs: seq<Handle>, i: nat, j: nat) {
    i <= j < |hs| && hs[i].offset == hs[j].offset && (i > 0 ==> hs[i - 1].offset < hs[i].offset)
  }

  /** The first of the positions i up to j that the search looks at, or where it ends up: a matter of positions only. */
  function FirstProbe(i: nat, j: nat, first: nat, count: nat): (k: nat)
    requires 0 < count
    decreases count
  {
    if count == 1 then first
    else
      var step := count / 2;
      var mid := first + step;
      if i <= mid <= j then mid
      else if mid > j then FirstProbe(i, j, first, step)
      else FirstProbe(i, j, mid, count - step)
  }

  /** An offset strictly inside a block is always found. */
  lemma {:induction false} SearchInside(hs: seq<Handle>, j: nat, offset: nat, first: nat, count: nat)
    requires Tiled(hs) && first <= j < first + count <= |hs| && hs[j].offset < offset < End(hs[j])
    ensures Search(hs, offset, first, count) == j
    decreases count
  {
    if count > 1 {
      var step := count / 2;
      var mid := first + step;
      if mid < j {
        OffsetsGrow(hs, mid, j);
      } else if mid > j {
        OffsetsGrow(hs, j, mid);
      }
      if mid > j {
        SearchInside(hs, j, offset, first, step);
      } else {
        SearchInside(hs, j, offset, mid, count - step);
      }
    }
  }

  lemma {:induction false} SearchStart(hs: seq<Handle>, i: nat, j: nat, first: nat, count: nat)
    requires Tiled(hs) && SameStart(hs, i, j) && hs[j].size > 0 && 0 < count && first + count <= |hs|
    ensures Search(hs, hs[j].offset, first, count) == FirstProbe(i, j, first, count)
    decreases count
  {
    if count > 1 {
      var step := count / 2;
      var mid := first + step;
      StartsWhere(hs, i, j, mid);
      if mid > j {
        SearchStart(hs, i, j, first, step);
      } else if mid < i {
        SearchStart(hs, i, j, mid, count - step);
      }
    }
  }

  /** A block starts at, before or after the offset of block j according to its position. */
  lemma StartsWhere(hs: seq<Handle>, i: nat, j: nat, mid: nat)
    requires Tiled(hs) && SameStart(hs, i, j) && hs[j].size > 0 && mid < |hs|
    ensures i <= mid <= j ==> hs[mid].offset == hs[j].offset
    ensures mid < i ==> hs[mid].offset < hs[j].offset
    ensures mid > j ==> hs[mid].offset > hs[j].offset
  {
    if mid > j {
      OffsetsGrow(hs, j, mid);
    } else if mid < i {
      if mid < i - 1 {
        OffsetsGrow(hs, mid, i - 1);
      }
    } else {
      if i < mid {
        OffsetsGrow(hs, i, mid);
      }
      if mid < j {
        OffsetsGrow(hs, mid, j);
      }
    }
  }

  /**
   * One more than the last position to the left of j that a halving search for position j looks at, or lo when it
   * looks at none: the search halves the range of count positions from first.
   */
  function Reach(j: nat, lo: nat, first: nat, count: nat): (t: nat)
    requires first <= j < first + count && lo <= j && lo <= first + 1
    ensures lo <= t <= j
    decreases count
  {
    var mid := first + count / 2;
    if count == 1 || j == mid then lo
    else if j < mid then Reach(j, lo, first, count / 2)
    else Reach(j, mid + 1, mid, count - count / 2)
  }

  lemma {:induction false} ProbesLast(i: nat, j: nat, lo: nat, first: nat, count: nat)
    requires first <= j < first + count && lo <= i <= j && lo <= first + 1
    ensures FirstProbe(i, j, first, count) == j <==> Reach(j, lo, first, count) <= i
    decreases count
  {
    if count > 1 {
      var mid := first + count / 2;
      if j < mid {
        ProbesLast(i, j, lo, first, count / 2);
      } else if i > mid {
        ProbesLast(i, j, mid + 1, mid, count - count / 2);
      } else {
        assert FirstProbe(i, j, first, count) == mid;
        assert j > mid ==> Reach(j, lo, first, count) == Reach(j, mid + 1, mid, count - count / 2);
      }
    }
  }

  /**
   * When the search finds the block that contains an offset: always inside a block, and at the start of block j
   * exactly when the empty blocks i .. j - 1 in front of it all come after the last position to the left of j that
   * the search looks at.
   */
  lemma SearchExact(hs: seq<Handle>, i: nat, j: nat, offset: nat)
    requires Tiled(hs) && SameStart(hs, i, j) && Contains(hs[j], offset)
    ensures Search(hs, offset, 0, |hs|) == j <==> offset > hs[j].offset || Reach(j, 0, 0, |hs|) <= i
  {
    if offset > hs[j].offset {
      SearchInside(hs, j, offset, 0, |hs|);
    } else {
      SearchStart(hs, i, j, 0, |hs|);
      ProbesLast(i, j, 0, 0, |hs|);
    }
  }

  /** In particular empty blocks on both sides of the middle hide the block after them, and the middle block is never hidden. */
  lemma MiddleDecides(n: nat, i: nat, j: nat)
    requires i <= j < n && n > 1
    ensures j == n / 2 ==> Reach(j, 0, 0, n) <= i
    ensures i <= n / 2 < j ==> Reach(j, 0, 0, n) > i
  {
  }

  lemma {:induction false} ProbesWithin(i: nat, j: nat, first: nat, count: nat)
    requires first <= i <= j < first + count
    ensures i <= FirstProbe(i, j, first, count) <= j
    decreases count
  {
    if count > 1 {
      var mid := first + count / 2;
      if mid > j {
        ProbesWithin(i, j, first, count / 2);
      } else if mid < i {
        ProbesWithin(i, j, mid, count - count / 2);
      }
    }
  }

  /** The first of the blocks that start where block j starts. */
  lemma FirstStart(hs: seq<Handle>, j: nat) returns (i: nat)
    requires Tiled(hs) && j < |hs|
    ensures SameStart(hs, i, j)
  {
    i := j;
    while i > 0 && hs[i - 1].offset == hs[i].offset
      invariant i <= j && hs[i].offset == hs[j].offset
    {
      i := i - 1;
    }
    assert Follows(hs, i);
  }

  /**
   * A value at this offset is found: it is in the writer block, strictly inside a reader block, or at the start of a
   * reader block that no empty block in front of it hides.
   */
  predicate Findable(blocks: seq<Handle>, builder: Option<Handle>, offset: nat) {
    || (builder.Some? && offset >= builder.value.offset)
    || forall i, j :: 0 <= i <= j < |blocks| && SameStart(blocks, i, j) && Contains(blocks[j], offset) ==>
         offset > blocks[j].offset || Reach(j, 0, 0, |blocks|) <= i
  }

  lemma OneBlock(hs: seq<Handle>, i: nat, j: nat, offset: nat)
    requires Tiled(hs) && i < |hs| && j < |hs| && Contains(hs[i], offset) && Contains(hs[j], offset)
    ensures i == j
  {
    if i < j {
      OffsetsGrow(hs, i, j);
    } else if j < i {
      OffsetsGrow(hs, j, i);
    }
  }

  /** The search gives the block that contains the offset, or else an empty block in front of it. */
  lemma SearchDecides(hs: seq<Handle>, builder: Option<Handle>, j: nat, offset: nat)
    requires Tiled(hs) && j < |hs| && Contains(hs[j], offset) && (builder.Some? ==> offset < builder.value.offset)
    ensures Findable(hs, builder, offset) <==> Search(hs, offset, 0, |hs|) == j
    ensures var k := Search(hs, offset, 0, |hs|); k == j || (hs[k].offset == offset && hs[k].size == 0)
  {
    hide Search, Reach, FirstProbe;
    var i := FirstStart(hs, j);
    SearchExact(hs, i, j, offset);
    forall i', j' | 0 <= i' <= j' < |hs| && SameStart(hs, i', j') && Contains(hs[j'], offset) ensures i' == i && j' == j {
      OneBlock(hs, j', j, offset);
      StartsWhere(hs, i, j, i');
      if i < i' {
        StartsWhere(hs, i, j, i' - 1);
      }
    }
    if Search(hs, offset, 0, |hs|) != j {
      EmptyInFront(hs, i, j);
    }
  }

  lemma EmptyInFront(hs: seq<Handle>, i: nat, j: nat)
    requires Tiled(hs) && SameStart(hs, i, j) && hs[j].size > 0
    ensures var k := Search(hs, hs[j].offset, 0, |hs|); k == j || (hs[k].offset == hs[j].offset && hs[k].size == 0)
  {
    SearchStart(hs, i, j, 0, |hs|);
    ProbesWithin(i, j, 0, |hs|);
    var k := FirstProbe(i, j, 0, |hs|);
    StartsWhere(hs, i, j, k);
    if k < j {
      OffsetsGrow(hs, k, j);
    }
  }

  /** Unless a block before the last one is empty, every offset is found. */
  lemma FindsAll(hs: seq<Handle>, builder: Option<Handle>, offset: nat)
    requires Tiled(hs) && forall i :: 0 <= i < |hs| - 1 ==> hs[i].size > 0
    ensures Findable(hs, builder, offset)
  {
    hide Reach;
    forall i, j | 0 <= i <= j < |hs| && SameStart(hs, i, j) && Contains(hs[j], offset) ensures Reach(j, 0, 0, |hs|) <= i {
      if i < j {
        OffsetsGrow(hs, i, j);
      }
    }
  }

  /** Without empty blocks every offset is found. */
  lemma SearchFinds(hs: seq<Handle>, j: nat, offset: nat)
    requires Tiled(hs) && NoneEmpty(hs) && j < |hs| && Contains(hs[j], offset)
    ensures Search(hs, offset, 0, |hs|) == j
  {
    FindsAll(hs, None, offset);
    SearchDecides(hs, None, j, offset);
  }

  // ---------------------------------------------------------------------------------------
  // Values on disk

  type Files = map<Bytes, Bytes>

  /** The file of a block, which does not exist before the first record. */
  function FileOf(files: Files, b: Handle): (file: Bytes) {
    if b.name in files then files[b.name] else []
  }

  ghost predicate LaidAt(db: Bytes, hs: seq<Handle>, files: Files, i: nat)
    requires i < |hs|
  {
    hs[i].name == BlockFileName(db, i) && hs[i].size <= |FileOf(files, hs[i])|
  }

  /** The blocks tile the space, and the file of each is long enough. */
  ghost predicate Laid(db: Bytes, hs: seq<Handle>, files: Files) {
    Tiled(hs) && forall i :: 0 <= i < |hs| ==> LaidAt(db, hs, files, i)
  }

  /** The file of the writer block ends where the block does, so that an appended record continues the block. */
  ghost predicate AtItsEnd(builder: Option<Handle>, files: Files) {
    builder.Some? ==> |FileOf(files, builder.value)| == builder.value.size
  }

  /** No file for blocks from n on: creating one succeeds. */
  ghost predicate FreshFrom(db: Bytes, n: nat, files: Files) {
    forall i :: n <= i ==> BlockFileName(db, i) !in files
  }

  datatype Delegate = Delegate(offset: nat, size: nat)

  predicate DelegateOk(d: Delegate) {
    d.offset < 0x1_0000_0000_0000_0000 && d.size < 0x1_0000_0000
  }

  ghost predicate HeldAt(step: CrcStep, hs: seq<Handle>, files: Files, d: Delegate, v: Bytes, i: int) {
    && 0 <= i < |hs| && hs[i].name in files && hs[i].offset <= d.offset && d.offset + |v| + 8 <= End(hs[i])
    && HasRecord(step, files[hs[i].name], d.offset - hs[i].offset, v)
  }

  /** Some block holds the record that the delegate stands for. */
  ghost predicate Held(step: CrcStep, hs: seq<Handle>, files: Files, d: Delegate, v: Bytes) {
    DelegateOk(d) && d.size == |v| && exists i :: HeldAt(step, hs, files, d, v, i)
  }

  ghost predicate AllHeld(step: CrcStep, hs: seq<Handle>, files: Files, issued: map<Delegate, Bytes>) {
    forall d :: d in issued ==> Held(step, hs, files, d, issued[d])
  }

  function DataEnd(hs: seq<Handle>): (n: nat) {
    if |hs| == 0 then 0 else End(hs[|hs| - 1])
  }

  /** Reading at an offset of a complete list of blocks, as Read does for the reader blocks. */
  function ReadAt(step: CrcStep, hs: seq<Handle>, files: Files, k: nat, offset: nat, n: nat): (r: Option<Bytes>)
    requires k < |hs|
  {
    var h := hs[k];
    if h.offset <= offset && offset + n <= End(h) && h.name in files then ReadFromFile(step, files[h.name], offset - h.offset, n)
    else None
  }

  function SpaceEnd(blocks: seq<Handle>, builder: Option<Handle>): (n: nat) {
    if builder.Some? then End(builder.value) else DataEnd(blocks)
  }

  /** LargeSpace::Read: past the end, in the writer block, or in the block that the search finds. */
  function ReadSpace(step: CrcStep, blocks: seq<Handle>, builder: Option<Handle>, files: Files, offset: nat, n: nat): (r: Option<Bytes>) {
    if offset > SpaceEnd(blocks, builder) then None
    else if builder.Some? && offset >= builder.value.offset then ReadAt(step, [builder.value], files, 0, offset, n)
    else if blocks == [] then None
    else ReadAt(step, blocks, files, Search(blocks, offset, 0, |blocks|), offset, n)
  }

  /** A held value is read back from the block that holds it. */
  lemma HeldReads(step: CrcStep, hs: seq<Handle>, files: Files, d: Delegate, v: Bytes, i: int)
    requires d.size == |v| && HeldAt(step, hs, files, d, v, i)
    ensures Contains(hs[i], d.offset) && d.offset + |v| + 8 <= End(hs[i]) && ReadAt(step, hs, files, i, d.offset, d.size) == Some(v)
  {
    hide ReadFromFile;
    RecordReads(step, files[hs[i].name], d.offset - hs[i].offset, v);
  }

  /** Appending a record to the last block keeps every value and adds one. */
  lemma AppendKeeps(step: CrcStep, hs: seq<Handle>, files: Files, hs': seq<Handle>, files': Files, issued: map<Delegate, Bytes>)
    requires AllHeld(step, hs, files, issued) && |hs| <= |hs'|
    requires forall i :: 0 <= i < |hs| ==> hs[i].name == hs'[i].name && hs[i].offset == hs'[i].offset && hs[i].size <= hs'[i].size
    requires forall n :: n in files ==> n in files' && files[n] <= files'[n]
    ensures AllHeld(step, hs', files', issued)
  {
    hide HasRecord;
    forall d | d in issued ensures Held(step, hs', files', d, issued[d]) {
      var i :| HeldAt(step, hs, files, d, issued[d], i);
      var name := hs[i].name;
      var more := files'[name][|files[name]|..];
      assert files'[name] == files[name] + more;
      RecordKept(step, files[name], more, d.offset - hs[i].offset, issued[d]);
      assert HeldAt(step, hs', files', d, issued[d], i);
    }
  }

  /** Appending a record to the last block b, whose file ends where the block does. */
  lemma WriteKeeps(step: CrcStep, db: Bytes, init: seq<Handle>, b: Handle, hs: seq<Handle>, files: Files, issued: map<Delegate, Bytes>, v: Bytes)
    requires hs == init + [b] && Laid(db, hs, files) && AllHeld(step, hs, files, issued) && FreshFrom(db, |hs|, files)
    requires |FileOf(files, b)| == b.size && |v| < 0x1_0000_0000 && End(b) < 0x1_0000_0000_0000_0000
    ensures var hs', files' := init + [b.(size := b.size + |v| + 8)], files[b.name := FileOf(files, b) + Record(step, v)];
            && Laid(db, hs', files') && FreshFrom(db, |hs'|, files')
            && Delegate(End(b), |v|) !in issued && AllHeld(step, hs', files', issued[Delegate(End(b), |v|) := v])
  {
    hide Record, BlockFileName, Held;
    var rec, file, n := Record(step, v), FileOf(files, b), |init|;
    var hs', files', d := init + [b.(size := b.size + |v| + 8)], files[b.name := file + rec], Delegate(End(b), |v|);
    assert LaidAt(db, hs, files, n);
    NamesApart(db, n);
    LaidGrows(db, init, b, hs, files, |v| + 8, file + rec);
    NotIssued(step, hs, files, issued, d);
    AppendKeeps(step, hs, files, hs', files', issued);
    HeldLast(step, hs', files', n, b, file, d, v);
    AllHeldMore(step, hs', files', issued, d, v);
  }

  lemma NamesApart(db: Bytes, n: nat)
    ensures forall i :: 0 <= i && i != n ==> BlockFileName(db, i) != BlockFileName(db, n)
  {
    hide BlockFileName;
    forall i | 0 <= i && i != n ensures BlockFileName(db, i) != BlockFileName(db, n) {
      if BlockFileName(db, i) == BlockFileName(db, n) {
        NamesDiffer(db, i, n);
      }
    }
  }

  lemma LaidGrows(db: Bytes, init: seq<Handle>, b: Handle, hs: seq<Handle>, files: Files, more: nat, file: Bytes)
    requires hs == init + [b] && Laid(db, hs, files) && |file| == b.size + more
    requires forall i :: 0 <= i && i != |init| ==> BlockFileName(db, i) != BlockFileName(db, |init|)
    ensures Laid(db, init + [b.(size := b.size + more)], files[b.name := file])
  {
    hide BlockFileName;
    var hs', files' := init + [b.(size := b.size + more)], files[b.name := file];
    assert forall i :: 0 <= i < |init| ==> hs[i] == init[i] == hs'[i];
    assert LaidAt(db, hs, files, |init|);
    forall i | 0 <= i < |hs'| ensures Follows(hs', i) && LaidAt(db, hs', files', i) {
      assert Follows(hs, i) && LaidAt(db, hs, files, i);
    }
  }

  lemma {:induction false} EndsGrow(hs: seq<Handle>, i: nat)
    requires Tiled(hs) && i < |hs|
    ensures End(hs[i]) <= DataEnd(hs)
  {
    if i < |hs| - 1 {
      OffsetsGrow(hs, i, |hs| - 1);
    }
  }

  /** A new record lies past every delegate issued so far. */
  lemma NotIssued(step: CrcStep, hs: seq<Handle>, files: Files, issued: map<Delegate, Bytes>, d: Delegate)
    requires Tiled(hs) && AllHeld(step, hs, files, issued) && d.offset >= DataEnd(hs)
    ensures d !in issued
  {
    hide HasRecord, ReadAt;
    if d in issued {
      assert Held(step, hs, files, d, issued[d]);
      var i :| HeldAt(step, hs, files, d, issued[d], i);
      EndsGrow(hs, i);
    }
  }

  lemma HeldLast(step: CrcStep, hs: seq<Handle>, files: Files, n: nat, b: Handle, file: Bytes, d: Delegate, v: Bytes)
    requires |hs| == n + 1 && hs[n] == b.(size := b.size + |v| + 8) && |v| < 0x1_0000_0000
    requires b.name in files && files[b.name] == file + Record(step, v) && |file| == b.size
    requires d == Delegate(End(b), |v|) && DelegateOk(d)
    ensures Held(step, hs, files, d, v)
  {
    hide Record;
    assert (file + Record(step, v))[|file|..|file| + |v| + 8] == Record(step, v);
    assert HeldAt(step, hs, files, d, v, n);
  }

  lemma AllHeldMore(step: CrcStep, hs: seq<Handle>, files: Files, issued: map<Delegate, Bytes>, d: Delegate, v: Bytes)
    requires AllHeld(step, hs, files, issued) && Held(step, hs, files, d, v)
    ensures AllHeld(step, hs, files, issued[d := v])
  {
    hide Held;
  }

  // ---------------------------------------------------------------------------------------
  // Delegates as table values

  function EncodeDelegate(d: Delegate): (b: Bytes) {
    LengthPrefixed(EncodeVarint(d.offset) + EncodeVarint(d.size))
  }

  function DecodeDelegate(b: Bytes): (r: Option<Delegate>) {
    var s := GetLengthPrefixed(b);
    if s.None? then None
    else
      var o := GetVarint64(s.value.0);
      if o.None? then None
      else
        var n := GetVarint32(o.value.1);
        if n.None? then None else Some(Delegate(o.value.0, n.value.0))
  }

  lemma DelegateRoundTrip(d: Delegate)
    requires DelegateOk(d)
    ensures DecodeDelegate(EncodeDelegate(d)) == Some(d)
  {
    hide EncodeVarint, GetVarint32, GetVarint64, LengthPrefixed, GetLengthPrefixed;
    var o, n := EncodeVarint(d.offset), EncodeVarint(d.size);
    assert |o + n| < 0x1_0000_0000 by { DelegateLength(d); }
    assert LengthPrefixed(o + n) == LengthPrefixed(o + n) + [] && n == n + [];
    LengthPrefixedRoundTrip(o + n, []);
    Varint64RoundTrip(d.offset, n);
    Varint32RoundTrip(d.size, []);
  }

  lemma DelegateLength(d: Delegate)
    requires DelegateOk(d)
    ensures |EncodeVarint(d.offset) + EncodeVarint(d.size)| <= 20
  {
    assert Pow128(10) == 0x40_0000_0000_0000_0000 by { Powers(); }
    VarintLength(d.offset, 10);
    VarintLength(d.size, 10);
  }

  // ---------------------------------------------------------------------------------------
  // The space

  /** The files of the space: block files by name, metadata files by sequence number, and LARGEHEAD. */
  class Disk {
    var files: Files
    var metas: map<nat, Bytes>
    /** The number in LARGEHEAD; 0 for an empty space, None when the file does not exist. */
    var head: Option<nat>

    constructor ()
      ensures files == map[] && metas == map[] && head == None
    {
      files, metas, head := map[], map[], None;
    }
  }

  /** What a space had on disk when its metadata was last dumped. */
  datatype Prior = Prior(meta: Meta, issued: map<Delegate, Bytes>)

  function HandlesOf(m: Meta): (hs: seq<Handle>) {
    m.blocks + Builders(m)
  }

  /** The metadata fits its encoding. */
  ghost predicate MetaFits(m: Meta) {
    MetaOk(m) && |MetaBody(m)| < 0x1_0000_0000_0000_0000
  }

  /** The metadata that LARGEHEAD points to. */
  ghost predicate Dumped(step: CrcStep, disk: Disk, m: Meta)
    reads disk
  {
    && disk.head.Some? && disk.head.value > 0 && disk.head.value in disk.metas
    && disk.metas[disk.head.value] == EncodeMeta(step, m)
  }

  ghost predicate Saved(step: CrcStep, db: Bytes, disk: Disk, p: Prior)
    reads disk
  {
    Dumped(step, disk, p.meta) && MetaFits(p.meta) && Intact(step, db, HandlesOf(p.meta), disk.files, p.issued)
  }

  /** The metadata lists the same blocks, the last one perhaps as it was when it was smaller. */
  ghost predicate Lags(m: Meta, hs: seq<Handle>) {
    var ms, last := HandlesOf(m), |hs| - 1;
    && |ms| == |hs|
    && (|hs| > 0 ==> ms[..last] == hs[..last] && ms[last] == hs[last].(size := ms[last].size) && ms[last].size <= hs[last].size)
  }

  /** No record lies across the end. */
  ghost predicate Boundary(issued: map<Delegate, Bytes>, end: nat) {
    forall d :: d in issued ==> d.offset + d.size + 8 <= end || d.offset >= end
  }

  /** The blocks are laid out in the files and hold everything issued. */
  ghost predicate Intact(step: CrcStep, db: Bytes, hs: seq<Handle>, files: Files, issued: map<Delegate, Bytes>) {
    Laid(db, hs, files) && AllHeld(step, hs, files, issued) && FreshFrom(db, |hs|, files)
  }

  class Space {
    const step: CrcStep
    const db: Bytes
    const disk: Disk
    var sizeThreshold: uint32
    var splitThreshold: uint32
    var blocks: seq<Handle>
    var builder: Option<Handle>
    var metaSequence: nat
    var closed: bool
    /** Every delegate issued so far, with its value. */
    ghost var issued: map<Delegate, Bytes>
    /** The metadata dumped last, None for a space that never had a block. */
    ghost var lastDump: Option<Meta>

    ghost function All(): (hs: seq<Handle>)
      reads this
    {
      blocks + if builder.Some? then [builder.value] else []
    }

    /** The metadata on disk is up to date, or lacks what was written since the last block was begun. */
    ghost predicate OnDisk()
      reads this, disk
    {
      match lastDump
      case None => All() == [] && disk.head == Some(0)
      case Some(m) => Dumped(step, disk, m) && Lags(m, All()) && Boundary(issued, DataEnd(HandlesOf(m)))
    }

    ghost predicate Valid()
      reads this, disk
    {
      Intact(step, db, All(), disk.files, issued) && OnDisk() && AtItsEnd(builder, disk.files)
    }

    /** No block is empty, as long as the space was always closed before it was opened again. */
    ghost predicate Tidy()
      reads this
    {
      NoneEmpty(All())
    }

    /** No empty block hides a value. */
    ghost predicate AllFindable()
      reads this
    {
      forall d :: d in issued ==> Findable(blocks, builder, d.offset)
    }

    /** Where the space that the metadata on disk describes ends. */
    ghost function DurableEnd(): (n: nat)
      reads this
    {
      if lastDump.None? then 0 else DataEnd(HandlesOf(lastDump.value))
    }

    ghost function CurrentMeta(): (m: Meta)
      reads this
    {
      Meta(sizeThreshold, splitThreshold, blocks, builder)
    }

    /** Open a space: a new one, or the one the metadata describes; closed stays set when it cannot be read. */
    constructor (step: CrcStep, db: Bytes, disk: Disk, ghost prior: Prior)
      modifies disk
      ensures this.step == step && this.db == db && this.disk == disk && disk.files == old(disk.files)
      ensures old(Dumped(step, disk, prior.meta)) && MetaFits(prior.meta) ==>
                !closed && issued == prior.issued && blocks == HandlesOf(prior.meta) && builder.None?
                && sizeThreshold == prior.meta.sizeThreshold && splitThreshold == prior.meta.splitThreshold
      ensures old(Saved(step, db, disk, prior)) ==>
                !closed && Valid() && issued == prior.issued && blocks == HandlesOf(prior.meta) && builder.None?
                && sizeThreshold == prior.meta.sizeThreshold && splitThreshold == prior.meta.splitThreshold
      ensures old(disk.head == None || disk.head == Some(0)) ==>
                !closed && issued == map[] && blocks == [] && builder.None? && sizeThreshold == 131072 && splitThreshold == 67108864
      ensures old((disk.head == None || disk.head == Some(0)) && FreshFrom(db, 0, disk.files)) ==> !closed && Valid() && issued == map[] && All() == []
    {
      hide EncodeMeta, DecodeMeta, MetaFits, Intact, FreshFrom, Lags, Boundary;
      this.step, this.db, this.disk := step, db, disk;
      sizeThreshold, splitThreshold, metaSequence, closed := 131072, 67108864, 0, true;
      blocks, builder, issued, lastDump := [], None, map[], None;
      new;
      ghost var dumped := Dumped(step, disk, prior.meta) && MetaFits(prior.meta);
      assert All() == [];
      NothingLaid(step, db, disk.files);
      if disk.head == None {
        disk.head := Some(0);
        closed := false;
      } else if disk.head == Some(0) {
        closed := false;
      } else {
        metaSequence := disk.head.value;
        if metaSequence in disk.metas {
          if dumped {
            Loads(step, prior.meta);
          }
          var loaded := DecodeMeta(step, disk.metas[metaSequence]);
          if loaded.Some? {
            sizeThreshold, splitThreshold, blocks := loaded.value.sizeThreshold, loaded.value.splitThreshold, loaded.value.blocks;
            closed := false;
            if dumped {
              issued, lastDump := prior.issued, Some(prior.meta);
              assert blocks + [] == blocks;
              SameLags(prior.meta);
              if Intact(step, db, blocks, disk.files, prior.issued) {
                IssuedEnds(step, db, blocks, disk.files, prior.issued);
              }
            }
          }
        }
      }
    }

    /** Everything is on disk, and the metadata says where. */
    method Close()
      requires Valid() && MetaFits(CurrentMeta())
      modifies this`metaSequence, this`closed, this`lastDump, disk`metas, disk`head
      ensures Saved(step, db, disk, Prior(CurrentMeta(), issued)) && closed && Valid()
    {
      hide EncodeMeta, MetaFits, Laid, AllHeld, FreshFrom, Lags, Boundary;
      IssuedEnds(step, db, All(), disk.files, issued);
      SameLags(CurrentMeta());
      DumpLargeSpace();
      closed := true;
    }

    function DataSize(): (n: nat)
      reads this
    {
      SpaceEnd(blocks, builder)
    }

    /** Write the metadata, then point LARGEHEAD at it. */
    method DumpLargeSpace()
      modifies this`metaSequence, this`lastDump, disk`metas, disk`head
      ensures disk.head == Some(metaSequence) && metaSequence == old(metaSequence) + 1
      ensures Dumped(step, disk, CurrentMeta()) && lastDump == Some(CurrentMeta())
    {
      hide EncodeMeta;
      metaSequence := metaSequence + 1;
      disk.metas := disk.metas[metaSequence := EncodeMeta(step, Meta(sizeThreshold, splitThreshold, blocks, builder))];
      disk.head := Some(metaSequence);
      lastDump := Some(CurrentMeta());
    }

    /** A new writer block after everything written so far; the metadata that lists it, still empty, is dumped at once. */
    method NewBuilder()
      requires builder.None?
      modifies this`metaSequence, this`builder, this`lastDump, disk`metas, disk`head
      ensures builder == Some(Handle(BlockFileName(db, |blocks|), old(DataSize()), 0))
      ensures Dumped(step, disk, CurrentMeta()) && lastDump == Some(CurrentMeta())
      ensures old(Valid()) ==> Valid()
    {
      hide BlockFileName, Intact, EncodeMeta, Lags, Boundary, FileOf;
      if Valid() {
        NewBlockIntact(step, db, blocks, disk.files, issued);
      }
      builder := Some(Handle(BlockFileName(db, |blocks|), DataSize(), 0));
      DumpLargeSpace();
      SameLags(CurrentMeta());
    }

    /** The writer block becomes a reader block. */
    method SealLargeBlock()
      requires builder.Some?
      modifies this`blocks, this`builder
      ensures blocks == old(blocks) + [old(builder.value)] && builder.None?
      ensures All() == old(All()) && DataSize() == old(DataSize()) && (old(Valid()) ==> Valid())
    {
      assert blocks + [builder.value] + [] == blocks + [builder.value];
      blocks, builder := blocks + [builder.value], None;
    }

    /** The block that the next value goes to. */
    ghost function Target(): (b: Handle)
      reads this
    {
      if builder.Some? then builder.value else Handle(BlockFileName(db, |blocks|), DataSize(), 0)
    }

    /**
     * Append a value; its record starts where the space ended.  Creating the file of a new block succeeds only when it
     * does not exist yet.
     */
    method Write(value: Bytes) returns (offset: nat)
      requires |value| < 0x1_0000_0000 && DataSize() + |value| + 8 < 0x1_0000_0000_0000_0000
      requires builder.None? ==> BlockFileName(db, |blocks|) !in disk.files
      modifies this, disk
      ensures offset == old(DataSize()) && DataSize() == offset + |value| + 8
      ensures disk.files == old(disk.files)[old(Target()).name := FileOf(old(disk.files), old(Target())) + Record(step, value)]
      ensures var b := old(Target()).(size := old(Target()).size + |value| + 8);
              if b.size > splitThreshold then blocks == old(blocks) + [b] && builder.None? else blocks == old(blocks) && builder == Some(b)
      ensures issued == old(issued)[Delegate(offset, |value|) := value]
      ensures lastDump == if old(builder).None? then Some(Meta(sizeThreshold, splitThreshold, old(blocks), Some(old(Target())))) else old(lastDump)
      ensures old(Valid()) ==> Valid() && Delegate(offset, |value|) !in old(issued)
      ensures old(Tidy()) ==> Tidy()
      ensures sizeThreshold == old(sizeThreshold) && splitThreshold == old(splitThreshold) && closed == old(closed)
    {
      hide Record, BlockFileName, Intact, EncodeMeta, Lags, Boundary;
      ghost var good, hs, tidy := Valid(), All(), Tidy();
      if builder.None? {
        assert All() == blocks + [] == blocks;
        NewBuilder();
      }
      var b := builder.value;
      offset := End(b);
      if good {
        WriteIntact(step, db, lastDump.value, blocks, b, All(), disk.files, issued, value);
      }
      WriteToFile(b.name, value);
      builder := Some(b.(size := b.size + 4 + |value| + 4));
      issued := issued[Delegate(offset, |value|) := value];
      if tidy {
        NoneEmptyMore(hs, blocks, builder.value);
      }
      if builder.value.size > splitThreshold {
        SealLargeBlock();
      }
    }

    /** Create the file when it does not exist, and append size, value and checksum. */
    method WriteToFile(name: Bytes, value: Bytes)
      requires |value| < 0x1_0000_0000
      modifies disk`files
      ensures disk.files == old(disk.files)[name := (if name in old(disk.files) then old(disk.files)[name] else []) + Record(step, value)]
    {
      var file := if name in disk.files then disk.files[name] else [];
      var f1 := file + EncodeFixed32(|value|);
      var f2 := f1 + value;
      var f3 := f2 + EncodeFixed32(Crc(step, value));
      assert f3 == file + Record(step, value);
      disk.files := disk.files[name := f3];
    }

    /** Read n bytes of value at an offset; None is an error.  The search needs at least one block to search. */
    method Read(offset: nat, n: nat) returns (r: Option<Bytes>)
      requires builder.Some? || blocks != [] || offset > 0
      ensures r == ReadSpace(step, blocks, builder, disk.files, offset, n)
      ensures Valid() && Delegate(offset, n) in issued ==>
                && (Findable(blocks, builder, offset) || Tidy() ==> r == Some(issued[Delegate(offset, n)]))
                && (!Findable(blocks, builder, offset) && n > 0 ==> r == None)
    {
      hide ReadFromFile, Search, Intact, EncodeMeta, Lags, Findable;
      if Valid() && Delegate(offset, n) in issued {
        SpaceReads(step, db, blocks, builder, disk.files, issued, Delegate(offset, n));
      }
      if offset > DataSize() {
        return None;
      }
      if builder.Some? && offset >= builder.value.offset {
        r := ReadBlockFile(builder.value, offset, n);
        return;
      }
      if blocks == [] {
        return None;
      }
      var k := GetBlockReader(blocks, offset);
      r := ReadBlockFile(blocks[k], offset, n);
    }

    /** LargeBlockBuilder::Read and LargeBlockReader::Read behind the bounds check of the space. */
    method ReadBlockFile(h: Handle, offset: nat, n: nat) returns (r: Option<Bytes>)
      ensures r == ReadAt(step, [h], disk.files, 0, offset, n)
    {
      if h.offset <= offset && offset + n <= End(h) && h.name in disk.files {
        r := ReadFromFile(step, disk.files[h.name], offset - h.offset, n);
      } else {
        r := None;
      }
    }

    /** The value behind an encoded delegate. */
    method Retrieve(value: Bytes) returns (r: Option<Bytes>)
      requires Valid() && (builder.Some? || blocks != [])
      ensures forall d :: d in issued && value == EncodeDelegate(d) ==>
                && (Findable(blocks, builder, d.offset) || Tidy() ==> r == Some(issued[d]))
                && (!Findable(blocks, builder, d.offset) && d.size > 0 ==> r == None)
    {
      hide EncodeDelegate, DecodeDelegate, Laid, FreshFrom, HeldAt, Findable;
      var vd := DecodeDelegate(value);
      forall d | d in issued && value == EncodeDelegate(d) ensures vd == Some(d) {
        assert Held(step, All(), disk.files, d, issued[d]);
        DelegateRoundTrip(d);
      }
      if vd.None? {
        return None;
      }
      r := Read(vd.value.offset, vd.value.size);
    }

    /** Redirect a value: the table gets the key with the large type and the encoded delegate. */
    method Deposit(key: Bytes, value: Bytes) returns (r: Option<(Bytes, Bytes)>)
      requires Valid() && |value| < 0x1_0000_0000 && DataSize() + |value| + 8 < 0x1_0000_0000_0000_0000
      requires ParseKey(key).Some? ==> ParseKey(key).value.t == TYPE_VALUE
      modifies this, disk
      ensures Valid() && (old(Tidy()) ==> Tidy()) && (r.Some? <==> ParseKey(key).Some?)
      ensures r.None? ==> issued == old(issued) && DataSize() == old(DataSize())
      ensures sizeThreshold == old(sizeThreshold) && (r.Some? ==> DataSize() == old(DataSize()) + |value| + 8)
      ensures r.Some? ==>
                var d := Delegate(old(DataSize()), |value|);
                && r.value == (EncodeKey(ParseKey(key).value.(t := TYPE_LARGE)), EncodeDelegate(d))
                && d !in old(issued) && issued == old(issued)[d := value]
    {
      hide EncodeKey, ParseKey, EncodeDelegate, Intact;
      var parsed := ParseKey(key);
      if parsed.None? {
        return None;
      }
      if builder.None? {
        NewFile(step, db, blocks, disk.files, issued);
      }
      var offset := Write(value);
      r := Some((EncodeKey(parsed.value.(t := TYPE_LARGE)), EncodeDelegate(Delegate(offset, |value|))));
    }
  }

  /** Every value of an intact space is read back, unless empty blocks hide it from the search. */
  lemma SpaceReads(step: CrcStep, db: Bytes, blocks: seq<Handle>, builder: Option<Handle>, files: Files, issued: map<Delegate, Bytes>, d: Delegate)
    requires Intact(step, db, blocks + (if builder.Some? then [builder.value] else []), files, issued) && d in issued
    ensures var r := ReadSpace(step, blocks, builder, files, d.offset, d.size);
            && (Findable(blocks, builder, d.offset) ==> r == Some(issued[d]))
            && (!Findable(blocks, builder, d.offset) && d.size > 0 ==> r == None)
            && (r == None || r == Some(issued[d]))
    ensures NoneEmpty(blocks + (if builder.Some? then [builder.value] else [])) ==> Findable(blocks, builder, d.offset)
  {
    hide ReadFromFile, HasRecord, BlockFileName, Search, Laid, AllHeld, FreshFrom, Findable;
    var hs := blocks + (if builder.Some? then [builder.value] else []);
    var i := WhereHeld(step, db, hs, files, issued, d);
    assert DataEnd(hs) == SpaceEnd(blocks, builder);
    BlocksTiled(db, blocks, builder, hs, files);
    if NoneEmpty(hs) {
      assert forall m :: 0 <= m < |blocks| ==> hs[m] == blocks[m];
      FindsAll(blocks, builder, d.offset);
    }
    if builder.Some? && d.offset >= builder.value.offset {
      InBuilder(db, blocks, builder.value, hs, files, i, d.offset);
      assert Findable(blocks, builder, d.offset) by { FindsInBuilder(blocks, builder, d.offset); }
    } else {
      NotAlone(db, blocks, builder, hs, files, i, d.offset);
      assert hs[i] == blocks[i];
      SearchDecides(blocks, builder, i, d.offset);
      ReadsNothing(step, blocks, files, Search(blocks, d.offset, 0, |blocks|), d.offset);
    }
  }

  lemma NoneEmptyMore(hs: seq<Handle>, blocks: seq<Handle>, b: Handle)
    requires NoneEmpty(hs) && blocks <= hs && b.size > 0
    ensures NoneEmpty(blocks + [b])
  {
    assert forall i :: 0 <= i < |blocks| ==> hs[i] == blocks[i];
  }

  lemma FindsInBuilder(blocks: seq<Handle>, builder: Option<Handle>, offset: nat)
    requires builder.Some? && offset >= builder.value.offset
    ensures Findable(blocks, builder, offset)
  {
  }

  /** Reading no bytes gives no bytes, or an error. */
  lemma ReadsNothing(step: CrcStep, hs: seq<Handle>, files: Files, k: nat, offset: nat)
    requires k < |hs|
    ensures ReadAt(step, hs, files, k, offset, 0) in {None, Some([])}
  {
  }

  lemma BlocksTiled(db: Bytes, blocks: seq<Handle>, builder: Option<Handle>, hs: seq<Handle>, files: Files)
    requires hs == blocks + (if builder.Some? then [builder.value] else []) && Laid(db, hs, files)
    ensures Tiled(blocks)
  {
    hide LaidAt;
    assert hs[..|blocks|] == blocks;
    TiledPrefix(hs, |blocks|);
  }

  lemma NotAlone(db: Bytes, blocks: seq<Handle>, builder: Option<Handle>, hs: seq<Handle>, files: Files, i: nat, offset: nat)
    requires hs == blocks + (if builder.Some? then [builder.value] else []) && i < |hs| && Contains(hs[i], offset)
    requires builder.Some? ==> offset < builder.value.offset
    ensures i < |blocks|
  {
  }

  /** A new, empty writer block after the others. */
  lemma NewBlockIntact(step: CrcStep, db: Bytes, blocks: seq<Handle>, files: Files, issued: map<Delegate, Bytes>)
    requires Intact(step, db, blocks + [], files, issued)
    ensures var b := Handle(BlockFileName(db, |blocks|), DataEnd(blocks), 0);
            && Intact(step, db, blocks + [b], files, issued) && Boundary(issued, DataEnd(blocks + [b])) && FileOf(files, b) == []
  {
    hide BlockFileName, AllHeld;
    var hs := blocks + [Handle(BlockFileName(db, |blocks|), DataEnd(blocks), 0)];
    assert blocks + [] == blocks;
    forall i | 0 <= i < |hs| ensures Follows(hs, i) && LaidAt(db, hs, files, i) {
      if i < |blocks| {
        assert Follows(blocks, i) && LaidAt(db, blocks, files, i);
      }
    }
    AppendKeeps(step, blocks, files, hs, files, issued);
    IssuedEnds(step, db, hs, files, issued);
  }

  /** One more record in the writer block b: everything stays in place, and the metadata m stays behind. */
  lemma WriteIntact(step: CrcStep, db: Bytes, m: Meta, blocks: seq<Handle>, b: Handle, hs: seq<Handle>, files: Files, issued: map<Delegate, Bytes>, v: Bytes)
    requires hs == blocks + [b] && Intact(step, db, hs, files, issued) && |FileOf(files, b)| == b.size
    requires Lags(m, hs) && Boundary(issued, DataEnd(HandlesOf(m)))
    requires |v| < 0x1_0000_0000 && End(b) < 0x1_0000_0000_0000_0000
    ensures var b', files' := b.(size := b.size + |v| + 8), files[b.name := FileOf(files, b) + Record(step, v)];
            var hs', issued' := blocks + [b'], issued[Delegate(End(b), |v|) := v];
            && Delegate(End(b), |v|) !in issued && AtItsEnd(Some(b'), files')
            && Intact(step, db, hs', files', issued') && Lags(m, hs') && Boundary(issued', DataEnd(HandlesOf(m)))
  {
    hide Record, BlockFileName, AllHeld, Laid, FreshFrom, Lags;
    LagsEnd(m, hs);
    WriteKeeps(step, db, blocks, b, hs, files, issued, v);
    StillLags(m, blocks, b, |v| + 8);
  }

  /** Growing the last block leaves the metadata behind. */
  lemma StillLags(m: Meta, blocks: seq<Handle>, b: Handle, more: nat)
    requires Lags(m, blocks + [b])
    ensures Lags(m, blocks + [b.(size := b.size + more)])
  {
    assert (blocks + [b])[..|blocks|] == blocks == (blocks + [b.(size := b.size + more)])[..|blocks|];
  }

  lemma LagsEnd(m: Meta, hs: seq<Handle>)
    requires Lags(m, hs)
    ensures DataEnd(HandlesOf(m)) <= DataEnd(hs)
  {
  }

  lemma SameLags(m: Meta)
    ensures Lags(m, HandlesOf(m))
  {
  }

  /** All records of an intact space end within it. */
  lemma IssuedEnds(step: CrcStep, db: Bytes, hs: seq<Handle>, files: Files, issued: map<Delegate, Bytes>)
    requires Intact(step, db, hs, files, issued)
    ensures forall d :: d in issued ==> d.offset + d.size + 8 <= DataEnd(hs)
    ensures Boundary(issued, DataEnd(hs))
  {
    hide HasRecord, ReadAt, BlockFileName, LaidAt;
    forall d | d in issued ensures d.offset + d.size + 8 <= DataEnd(hs) {
      assert Held(step, hs, files, d, issued[d]);
      var i :| HeldAt(step, hs, files, d, issued[d], i);
      EndsGrow(hs, i);
    }
  }

  /** The file of the next block does not exist yet. */
  lemma NewFile(step: CrcStep, db: Bytes, blocks: seq<Handle>, files: Files, issued: map<Delegate, Bytes>)
    requires Intact(step, db, blocks + [], files, issued)
    ensures BlockFileName(db, |blocks|) !in files
  {
    assert blocks + [] == blocks;
  }

  lemma TiledPrefix(hs: seq<Handle>, n: nat)
    requires Tiled(hs) && n <= |hs|
    ensures Tiled(hs[..n])
  {
    forall i | 0 <= i < n ensures Follows(hs[..n], i) {
      assert Follows(hs, i);
    }
  }

  lemma Loads(step: CrcStep, m: Meta)
    requires MetaFits(m)
    ensures DecodeMeta(step, EncodeMeta(step, m)) == Some(Loaded(m.sizeThreshold, m.splitThreshold, HandlesOf(m)))
  {
    hide EncodeMeta, DecodeMeta, MetaBody, HandlesOk;
    MetaRoundTrip(step, m);
  }

  lemma NothingLaid(step: CrcStep, db: Bytes, files: Files)
    ensures FreshFrom(db, 0, files) ==> Intact(step, db, [], files, map[])
  {
  }

  /** The block that holds an issued delegate. */
  lemma WhereHeld(step: CrcStep, db: Bytes, hs: seq<Handle>, files: Files, issued: map<Delegate, Bytes>, d: Delegate) returns (i: nat)
    requires Laid(db, hs, files) && AllHeld(step, hs, files, issued) && d in issued
    ensures i < |hs| && Contains(hs[i], d.offset) && d.offset < DataEnd(hs) && |issued[d]| == d.size
    ensures ReadAt(step, hs, files, i, d.offset, d.size) == Some(issued[d])
  {
    hide HasRecord, ReadAt, LaidAt;
    assert Held(step, hs, files, d, issued[d]);
    i :| HeldAt(step, hs, files, d, issued[d], i);
    HeldReads(step, hs, files, d, issued[d], i);
    EndsGrow(hs, i);
  }

  lemma InBuilder(db: Bytes, blocks: seq<Handle>, b: Handle, hs: seq<Handle>, files: Files, i: nat, offset: nat)
    requires hs == blocks + [b] && Laid(db, hs, files) && i < |hs| && Contains(hs[i], offset) && offset >= b.offset
    ensures hs[i] == b
  {
    hide LaidAt;
    if i < |blocks| {
      OffsetsGrow(hs, i, |blocks|);
    }
  }

  /** Closing a space and opening it again keeps every value. */
  method Reopen(s: Space) returns (s': Space)
    requires s.Valid() && MetaFits(s.CurrentMeta())
    modifies s, s.disk
    ensures s'.Valid() && !s'.closed && s'.issued == old(s.issued) && s'.All() == s'.blocks == old(s.All()) && fresh(s')
    ensures s'.step == s.step && s'.db == s.db && s'.disk == s.disk && s'.builder == None && s'.DataSize() == old(s.DataSize())
    ensures s'.sizeThreshold == old(s.sizeThreshold) && s'.splitThreshold == old(s.splitThreshold) && (old(s.Tidy()) ==> s'.Tidy())
  {
    hide MetaFits, Intact;
    ghost var prior := Prior(s.CurrentMeta(), s.issued);
    s.Close();
    s' := new Space(s.step, s.db, s.disk, prior);
    assert s'.blocks + [] == s'.blocks;
  }

  // ---------------------------------------------------------------------------------------
  // A space that was not closed

  /** A search for the end of the data ends in the last block. */
  lemma {:induction false} SearchAtEnd(hs: seq<Handle>, first: nat, count: nat)
    requires Tiled(hs) && (forall i :: 0 <= i < |hs| - 1 ==> hs[i].size > 0) && 0 < count && first + count == |hs|
    ensures Search(hs, DataEnd(hs), first, count) == |hs| - 1
    decreases count
  {
    if count > 1 {
      var step := count / 2;
      var mid := first + step;
      if mid < |hs| - 1 {
        OffsetsGrow(hs, mid, |hs| - 1);
      }
      if hs[mid].offset != DataEnd(hs) {
        SearchAtEnd(hs, mid, count - step);
      }
    }
  }

  lemma LagsTiled(db: Bytes, m: Meta, hs: seq<Handle>, files: Files)
    requires Laid(db, hs, files) && Lags(m, hs)
    ensures Laid(db, HandlesOf(m), files) && forall i :: 0 <= i < |hs| - 1 ==> HandlesOf(m)[i] == hs[i]
  {
    hide BlockFileName;
    var ms := HandlesOf(m);
    forall i | 0 <= i < |hs| - 1 ensures ms[i] == hs[i] {
      assert ms[..|hs| - 1][i] == hs[..|hs| - 1][i];
    }
    forall i | 0 <= i < |ms| ensures Follows(ms, i) && LaidAt(db, ms, files, i) {
      assert Follows(hs, i) && LaidAt(db, hs, files, i);
    }
  }

  /** What was issued before an offset. */
  ghost function IssuedBefore(issued: map<Delegate, Bytes>, end: nat): (m: map<Delegate, Bytes>) {
    map d | d in issued && d.offset < end :: issued[d]
  }

  /** What the metadata knows of a space is a space in itself, with the values before its end. */
  lemma LagsIntact(step: CrcStep, db: Bytes, m: Meta, hs: seq<Handle>, files: Files, issued: map<Delegate, Bytes>)
    requires Intact(step, db, hs, files, issued) && Lags(m, hs) && Boundary(issued, DataEnd(HandlesOf(m)))
    ensures Intact(step, db, HandlesOf(m), files, IssuedBefore(issued, DataEnd(HandlesOf(m))))
  {
    hide HasRecord, BlockFileName, Laid;
    var ms, kept := HandlesOf(m), IssuedBefore(issued, DataEnd(HandlesOf(m)));
    LagsTiled(db, m, hs, files);
    forall d | d in kept ensures Held(step, ms, files, d, kept[d]) {
      assert Held(step, hs, files, d, issued[d]);
      var i :| HeldAt(step, hs, files, d, issued[d], i);
      assert HeldAt(step, ms, files, d, issued[d], i);
    }
  }

  /** From the end of a space on nothing is found, but perhaps an empty value at the very end. */
  lemma ReadsPast(step: CrcStep, hs: seq<Handle>, files: Files, offset: nat, n: nat)
    requires Tiled(hs) && offset >= DataEnd(hs)
    ensures var r := ReadSpace(step, hs, None, files, offset, n); if n > 0 then r == None else r in {None, Some([])}
  {
    hide Search, ReadFromFile;
    if offset == DataEnd(hs) && hs != [] {
      var k := Search(hs, offset, 0, |hs|);
      EndsGrow(hs, k);
      ReadsNothing(step, hs, files, k, offset);
    }
  }

  /** Reading a block that the metadata lists, whole or in part. */
  lemma SameRead(step: CrcStep, a: Handle, b: Handle, files: Files, offset: nat, n: nat, v: Bytes)
    requires a.name == b.name && a.offset == b.offset && ReadAt(step, [a], files, 0, offset, n) == Some(v) && offset + n <= End(b)
    ensures ReadAt(step, [b], files, 0, offset, n) == Some(v)
  {
  }

  /** Without empty blocks an empty value at the very end of what the metadata knows is found. */
  lemma ReadsEmpty(step: CrcStep, db: Bytes, m: Meta, hs: seq<Handle>, files: Files, issued: map<Delegate, Bytes>)
    requires Intact(step, db, hs, files, issued) && NoneEmpty(hs) && Lags(m, hs) && Delegate(DataEnd(HandlesOf(m)), 0) in issued
    ensures ReadSpace(step, HandlesOf(m), None, files, DataEnd(HandlesOf(m)), 0) == Some(issued[Delegate(DataEnd(HandlesOf(m)), 0)])
  {
    hide ReadFromFile, Search, AllHeld, FreshFrom, LaidAt;
    var ms, last, d := HandlesOf(m), |hs| - 1, Delegate(DataEnd(HandlesOf(m)), 0);
    var i := WhereHeld(step, db, hs, files, issued, d);
    LagsTiled(db, m, hs, files);
    SearchAtEnd(ms, 0, |ms|);
    if i < last {
      OffsetsGrow(hs, i, last);
    }
    SameRead(step, hs[last], ms[last], files, d.offset, d.size, issued[d]);
  }

  /** What a space opened from the metadata m reads at a delegate issued before. */
  lemma CrashReads(step: CrcStep, db: Bytes, m: Meta, hs: seq<Handle>, files: Files, issued: map<Delegate, Bytes>, d: Delegate)
    requires Intact(step, db, hs, files, issued) && Lags(m, hs) && Boundary(issued, DataEnd(HandlesOf(m))) && d in issued
    ensures var ms, end := HandlesOf(m), DataEnd(HandlesOf(m));
            var r := ReadSpace(step, ms, None, files, d.offset, d.size);
            && (r == None || r == Some(issued[d]))
            && (d.size > 0 ==> (r == Some(issued[d]) <==> d.offset < end && Findable(ms, None, d.offset)))
            && (NoneEmpty(hs) ==> (r == Some(issued[d]) <==> d.offset < end || d == Delegate(end, 0)))
  {
    hide ReadSpace, Findable, FreshFrom, LaidAt, HeldAt;
    var ms, end := HandlesOf(m), DataEnd(HandlesOf(m));
    LagsTiled(db, m, hs, files);
    if NoneEmpty(hs) {
      FindsAll(ms, None, d.offset);
    }
    if d.offset < end {
      LagsIntact(step, db, m, hs, files, issued);
      assert ms + [] == ms;
      SpaceReads(step, db, ms, None, files, IssuedBefore(issued, end), d);
    } else {
      assert |issued[d]| == d.size by { assert Held(step, hs, files, d, issued[d]); }
      ReadsPast(step, ms, files, d.offset, d.size);
      if d.size == 0 && NoneEmpty(hs) {
        CrashReadsPast(step, db, m, hs, files, issued, d);
      }
    }
  }

  lemma CrashReadsPast(step: CrcStep, db: Bytes, m: Meta, hs: seq<Handle>, files: Files, issued: map<Delegate, Bytes>, d: Delegate)
    requires Intact(step, db, hs, files, issued) && Lags(m, hs) && d in issued && d.offset >= DataEnd(HandlesOf(m)) && d.size == 0 && NoneEmpty(hs)
    ensures ReadSpace(step, HandlesOf(m), None, files, d.offset, 0) == Some(issued[d]) <==> d.offset == DataEnd(HandlesOf(m))
  {
    if d.offset == DataEnd(HandlesOf(m)) {
      ReadsEmpty(step, db, m, hs, files, issued);
    }
  }

  /**
   * Opening a space again after a crash gives a space with the values that began before the end that the metadata on
   * disk knows, which is where the last block was begun, or the size it had at the last Close.  A value issued before
   * is read back if and only if it is one of these and no empty block hides it; without empty blocks the condition is
   * its offset alone, but for an empty value exactly at that end.  The space ends there, so this is also the offset
   * that the next value gets.
   */
  method CrashReopen(s: Space) returns (s': Space)
    requires s.Valid() && (s.lastDump.Some? ==> MetaFits(s.lastDump.value))
    modifies s.disk
    ensures s'.disk == s.disk && s.disk.files == old(s.disk.files) && s'.step == s.step && s'.db == s.db && fresh(s')
    ensures !s'.closed && s'.builder.None? && s'.DataSize() == s.DurableEnd() <= s.DataSize()
    ensures s'.Valid() && s'.issued == IssuedBefore(s.issued, s.DurableEnd())
    ensures s.lastDump.Some? ==>
              && s'.blocks == HandlesOf(s.lastDump.value)
              && s'.sizeThreshold == s.lastDump.value.sizeThreshold && s'.splitThreshold == s.lastDump.value.splitThreshold
    ensures forall d :: d in s.issued ==>
              var r := ReadSpace(s'.step, s'.blocks, s'.builder, s'.disk.files, d.offset, d.size);
              && (r == Some(s.issued[d]) || r == None)
              && (d.size > 0 ==> (r == Some(s.issued[d]) <==> d.offset < s.DurableEnd() && Findable(s'.blocks, s'.builder, d.offset)))
              && (s.Tidy() ==> (r == Some(s.issued[d]) <==> d.offset < s.DurableEnd() || d == Delegate(s.DurableEnd(), 0)))
    ensures BlockFileName(s'.db, |s'.blocks|) !in s'.disk.files
  {
    hide MetaFits, Intact, Lags, Boundary, ReadSpace, EncodeMeta, BlockFileName, Findable, IssuedBefore, AtItsEnd;
    ghost var hs, dump, files, issued, end := s.All(), s.lastDump, s.disk.files, s.issued, s.DurableEnd();
    ghost var prior := Prior(if dump.Some? then dump.value else Meta(0, 0, [], None), IssuedBefore(issued, end));
    IntactMeans(s.step, s.db, hs, files, issued);
    if dump.Some? {
      LagsIntact(s.step, s.db, dump.value, hs, files, issued);
    } else {
      assert IssuedBefore(map[], 0) == map[] by { NothingBefore(); }
    }
    s' := new Space(s.step, s.db, s.disk, prior);
    if dump.Some? {
      LagsEnd(dump.value, hs);
      LagsLength(dump.value, hs);
      assert DataEnd(hs) == s.DataSize();
      forall d | d in issued
        ensures var r := ReadSpace(s.step, HandlesOf(dump.value), None, files, d.offset, d.size);
                && (r == Some(issued[d]) || r == None)
                && (d.size > 0 ==> (r == Some(issued[d]) <==> d.offset < end && Findable(HandlesOf(dump.value), None, d.offset)))
                && (s.Tidy() ==> (r == Some(issued[d]) <==> d.offset < end || d == Delegate(end, 0)))
      {
        CrashReads(s.step, s.db, dump.value, hs, files, issued, d);
      }
    }
  }

  lemma NothingBefore()
    ensures IssuedBefore(map[], 0) == map[]
  {
  }

  lemma LagsLength(m: Meta, hs: seq<Handle>)
    requires Lags(m, hs)
    ensures |HandlesOf(m)| == |hs|
  {
  }

  lemma IntactMeans(step: CrcStep, db: Bytes, hs: seq<Handle>, files: Files, issued: map<Delegate, Bytes>)
    requires Intact(step, db, hs, files, issued)
    ensures BlockFileName(db, |hs|) !in files && FreshFrom(db, |hs|, files) && (hs == [] ==> issued == map[])
  {
    hide BlockFileName;
    if hs == [] {
      assert forall d :: d !in issued;
    }
  }

  lemma {:induction false} HandlesLength(hs: seq<Handle>)
    requires forall i :: 0 <= i < |hs| ==> HandleOk(hs[i]) && |hs[i].name| < 0x10_0000
    ensures |EncodeHandles(hs)| <= 0x20_0000 * |hs|
  {
    hide EncodeVarint;
    if |hs| > 0 {
      var h := hs[0];
      assert Pow128(10) == 0x40_0000_0000_0000_0000 by { Powers(); }
      VarintLength(|h.name|, 10);
      VarintLength(h.offset, 10);
      VarintLength(h.size, 10);
      HandlesLength(hs[1..]);
    }
  }

  /** Metadata with up to 2^32 blocks and names shorter than a megabyte fits. */
  lemma Fits(m: Meta)
    requires MetaOk(m) && forall i :: 0 <= i < |HandlesOf(m)| ==> |HandlesOf(m)[i].name| < 0x10_0000
    ensures MetaFits(m)
  {
    hide EncodeVarint, EncodeHandles;
    assert Pow128(10) == 0x40_0000_0000_0000_0000 by { Powers(); }
    VarintLength(m.sizeThreshold, 10);
    VarintLength(m.splitThreshold, 10);
    VarintLength(|m.blocks|, 10);
    VarintLength(|Builders(m)|, 10);
    assert forall i :: 0 <= i < |m.blocks| ==> HandlesOf(m)[i] == m.blocks[i];
    assert forall i :: 0 <= i < |Builders(m)| ==> HandlesOf(m)[|m.blocks| + i] == Builders(m)[i];
    HandlesLength(m.blocks);
    HandlesLength(Builders(m));
  }

  lemma FirstMetaFits(db: Bytes, sizeThreshold: uint32, splitThreshold: uint32)
    requires |db| < 4096
    ensures MetaFits(Meta(sizeThreshold, splitThreshold, [], Some(Handle(BlockFileName(db, 0), 0, 0))))
  {
    Fits(Meta(sizeThreshold, splitThreshold, [], Some(Handle(BlockFileName(db, 0), 0, 0))));
  }

  lemma ReadsOnly(step: CrcStep, b: Handle, files: Files, v: Bytes)
    requires |v| < 0x1_0000_0000 && b.size == 0 && b.name in files && files[b.name] == [] + Record(step, v)
    ensures ReadAt(step, [b.(size := |v| + 8)], files, 0, b.offset, |v|) == Some(v)
  {
    hide Record;
    var file := files[b.name];
    assert file == Record(step, v);
    assert file[0..0 + |v| + 8] == file;
    RecordReads(step, file, 0, v);
  }

  /**
   * A run: a value is written and read back; the space is opened again without Close and does not find it; the next
   * value gets the same offset, and the old delegate now reads the new value.
   */
  method ForgetsAndReissues(step: CrcStep, db: Bytes)
    returns (offset: nat, found: Option<Bytes>, lost: Option<Bytes>, offset': nat, wrong: Option<Bytes>)
    requires |db| < 4096
    ensures offset == 0 && found == Some([1]) && lost == None && offset' == 0 && wrong == Some([2])
  {
    hide EncodeMeta, Record, BlockFileName, ReadFromFile, Search, Intact, Lags, Boundary, MetaFits;
    var disk := new Disk();
    var s := new Space(step, db, disk, Prior(Meta(0, 0, [], None), map[]));
    offset := s.Write([1]);
    found := s.Read(offset, 1);
    FirstMetaFits(db, s.sizeThreshold, s.splitThreshold);
    assert s.DurableEnd() == 0;
    var s' := CrashReopen(s);
    assert Delegate(0, 1) in s.issued;
    lost := s'.Read(offset, 1);
    ghost var b := s'.Target();
    offset' := s'.Write([2]);
    wrong := s'.Read(offset, 1);
    ReadsOnly(step, b, disk.files, [2]);
  }

  lemma SmallFits(db: Bytes, m: Meta)
    requires |db| < 4096 && |HandlesOf(m)| <= 3
    requires forall i :: 0 <= i < |HandlesOf(m)| ==>
               HandlesOf(m)[i].name == BlockFileName(db, i) && HandlesOf(m)[i].offset < 100 && HandlesOf(m)[i].size < 100
    ensures MetaFits(m)
  {
    assert forall i :: 0 <= i < |m.blocks| ==> HandlesOf(m)[i] == m.blocks[i];
    assert forall i :: 0 <= i < |Builders(m)| ==> HandlesOf(m)[|m.blocks| + i] == Builders(m)[i];
    Fits(m);
  }

  /** The search for the start of the third block stops at the empty second one. */
  lemma SecondHidesThird(hs: seq<Handle>)
    requires |hs| == 3 && Tiled(hs) && hs[0].size > 0 && hs[1].size == 0 && hs[2].size > 0
    ensures !Findable(hs, None, hs[2].offset)
  {
    hide Reach;
    assert Follows(hs, 0) && Follows(hs, 1) && Follows(hs, 2);
    MiddleDecides(3, 1, 2);
    assert SameStart(hs, 1, 2) && Contains(hs[2], hs[2].offset);
  }

  /** One value is written, the space is closed and opened again. */
  method OneValueClosed(step: CrcStep, db: Bytes) returns (s: Space)
    requires |db| < 4096
    ensures fresh(s) && fresh(s.disk) && s.step == step && s.db == db && s.Valid() && !s.closed && s.builder == None
    ensures s.blocks == [Handle(BlockFileName(db, 0), 0, 9)] && s.splitThreshold == 67108864
  {
    hide EncodeMeta, Record, BlockFileName, Intact, Lags, Boundary, MetaFits, AtItsEnd, FileOf, NoneEmpty;
    var disk := new Disk();
    var s0 := new Space(step, db, disk, Prior(Meta(0, 0, [], None), map[]));
    var _ := s0.Write([1]);
    SmallFits(db, s0.CurrentMeta());
    s := Reopen(s0);
  }

  /** A crash after the next value leaves an empty block behind. */
  method EmptySecondBlock(step: CrcStep, db: Bytes) returns (s: Space)
    requires |db| < 4096
    ensures fresh(s) && fresh(s.disk) && s.step == step && s.db == db && s.Valid() && !s.closed && s.builder == None
    ensures s.blocks == [Handle(BlockFileName(db, 0), 0, 9), Handle(BlockFileName(db, 1), 9, 0)] && s.splitThreshold == 67108864
    ensures BlockFileName(db, 2) !in s.disk.files
  {
    hide EncodeMeta, Record, BlockFileName, Intact, Lags, Boundary, MetaFits, AtItsEnd, FileOf, NoneEmpty, ReadSpace, Findable, IssuedBefore;
    var s1 := OneValueClosed(step, db);
    NewFile(step, db, s1.blocks, s1.disk.files, s1.issued);
    var _ := s1.Write([2]);
    SmallFits(db, s1.lastDump.value);
    s := CrashReopen(s1);
  }

  /**
   * A run that loses a value although it was closed: a value is written and the space closed; opened again, it takes
   * a second value and crashes; opened once more, it takes a third value and is closed.  The second block stays in
   * the list, empty, and hides the third one.
   */
  method LosesThoughClosed(step: CrcStep, db: Bytes) returns (s: Space, offset: nat, lost: Option<Bytes>)
    requires |db| < 4096
    ensures s.Valid() && !s.closed && Delegate(offset, 1) in s.issued && s.issued[Delegate(offset, 1)] == [3] && lost == None
  {
    hide EncodeMeta, Record, BlockFileName, Intact, Lags, Boundary, MetaFits, AtItsEnd, FileOf, NoneEmpty, ReadSpace, Findable;
    var s2 := EmptySecondBlock(step, db);
    offset := s2.Write([3]);
    SmallFits(db, s2.CurrentMeta());
    s := Reopen(s2);
    assert s.blocks[2] == Handle(BlockFileName(db, 2), 9, 9);
    SecondHidesThird(s.blocks);
    lost := s.Read(offset, 1);
  }
}
