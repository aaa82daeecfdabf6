/**
 * Tables (table/table_builder.cc, table/table.cc, table/format.cc): data blocks, an index block with one
 * separator key per data block, and a filter block.  Blocks are stored uncompressed.
 */
module Table {
  import opened Basics
  import opened Coding
  import opened Keys
  import opened Block
  import opened Bloom
  import opened FilterBlock

  /** The order of internal keys on all byte strings; shorter ones than a trailer are not keys. */
  predicate KeyBefore(a: Bytes, b: Bytes) {
    |a| >= 8 && |b| >= 8 && InternalLess(a, b)
  }

  function KeyOrder(): (less: Order) {
    (a: Bytes, b: Bytes) => KeyBefore(a, b)
  }

  lemma KeyOrderTransitive()
    ensures Transitive(KeyOrder())
  {
    hide InternalLess;
    forall a, b, c | KeyBefore(a, b) && KeyBefore(b, c) ensures KeyBefore(a, c) {
      InternalTransitive(a, b, c);
    }
  }

  // ---------------------------------------------------------------------------------------
  // Data blocks and separators

  /** A data block: where it is written, and what it holds. */
  datatype DataBlock = DataBlock(offset: nat, size: nat, es: seq<KV>, l: Layout)

  ghost function Flat(bs: seq<DataBlock>): (es: seq<KV>) {
    if |bs| == 0 then [] else Flat(bs[..|bs| - 1]) + bs[|bs| - 1].es
  }

  predicate AllKeys(es: seq<KV>) {
    forall i :: 0 <= i < |es| ==> |es[i].key| >= 8
  }

  function First(b: DataBlock): (key: Bytes)
    requires b.es != []
  {
    b.es[0].key
  }

  function Last(b: DataBlock): (key: Bytes)
    requires b.es != []
  {
    b.es[|b.es| - 1].key
  }

  /** The separator is the last key of the block, or lies between it and the next block in user keys too. */
  ghost predicate Closes(sep: Bytes, b: DataBlock) {
    b.es != [] && |sep| >= 8 && (sep == Last(b) || KeyBefore(Last(b), sep))
  }

  ghost predicate Opens(sep: Bytes, b: DataBlock, next: DataBlock) {
    && b.es != [] && next.es != [] && |sep| >= 8 && |First(next)| >= 8
    && KeyBefore(sep, First(next)) && (sep != Last(b) ==> Less(UserOf(sep), UserOf(First(next))))
  }

  ghost predicate BlockOk(b: DataBlock) {
    b.es != [] && Sorted(KeyOrder(), b.es) && AllKeys(b.es)
  }

  /** Every block is sorted, and separated from the next one. */
  ghost predicate Separated(bs: seq<DataBlock>, seps: seq<Bytes>) {
    && |seps| == |bs|
    && (forall i :: 0 <= i < |bs| ==> BlockOk(bs[i]))
    && (forall i :: 0 <= i < |bs| ==> Closes(seps[i], bs[i]))
    && (forall i :: 0 < i < |bs| ==> Opens(seps[i - 1], bs[i - 1], bs[i]))
  }

  // ---------------------------------------------------------------------------------------
  // A lookup through the separators

  /** Keys of the blocks before i are below k when the separators before i are. */
  lemma {:induction false} EarlierBelow(bs: seq<DataBlock>, seps: seq<Bytes>, i: nat, k: Internal)
    requires Separated(bs, seps) && i <= |bs| && (forall j :: 0 <= j < i ==> KeyBefore(seps[j], k))
    ensures forall n :: 0 <= n < |Flat(bs[..i])| ==> KeyBefore(Flat(bs[..i])[n].key, k)
    decreases i
  {
    hide InternalLess;
    if i > 0 {
      EarlierBelow(bs, seps, i - 1, k);
      assert bs[..i][..i - 1] == bs[..i - 1];
      BlockBelow(bs[i - 1], seps[i - 1], k);
    }
  }

  lemma BlockBelow(b: DataBlock, sep: Bytes, k: Internal)
    requires BlockOk(b) && Closes(sep, b) && KeyBefore(sep, k)
    ensures forall n :: 0 <= n < |b.es| ==> KeyBefore(b.es[n].key, k)
  {
    hide InternalLess;
    forall n | 0 <= n < |b.es| ensures KeyBefore(b.es[n].key, k) {
      KeyOrderTransitive();
      var less := KeyOrder();
      assert less(Last(b), k) by { if sep != Last(b) { assert less(Last(b), sep) && less(sep, k); } }
      assert n < |b.es| - 1 ==> less(b.es[n].key, Last(b));
    }
  }

  lemma {:induction false} FlatSplit(bs: seq<DataBlock>, i: nat)
    requires i < |bs|
    ensures Flat(bs[..i]) + bs[i].es <= Flat(bs)
    decreases |bs|
  {
    var n := |bs| - 1;
    if i < n {
      FlatSplit(bs[..n], i);
      assert bs[..n][..i] == bs[..i];
    } else {
      assert bs[..i] == bs[..n];
    }
  }

  /** The user key of a lookup key that a separator stops short of the next block is not in the next block. */
  lemma PastTheBlock(b: DataBlock, sep: Bytes, next: DataBlock, k: Internal)
    requires BlockOk(b) && BlockOk(next) && Closes(sep, b) && Opens(sep, b, next)
    requires KeyBefore(Last(b), k) && !KeyBefore(sep, k)
    ensures UserOf(First(next)) != UserOf(k) && !KeyBefore(First(next), k)
  {
    hide Less, UserOf, TagOf;
    var u, v, w := UserOf(k), UserOf(sep), UserOf(First(next));
    InternalTotal(sep, k);
    if Less(u, v) {
      LessTransitive(u, v, w);
    }
    LessAsymmetric(u, w);
    LessIrreflexive(w);
  }

  /** What a lookup in the whole table finds, seen from the block i that the index points to. */
  lemma SeekThrough(bs: seq<DataBlock>, seps: seq<Bytes>, i: nat, k: Internal, j: nat, t: nat)
    requires Separated(bs, seps) && i < |bs|
    requires (forall m :: 0 <= m < i ==> KeyBefore(seps[m], k)) && !KeyBefore(seps[i], k)
    requires IsSeek(KeyOrder(), bs[i].es, k, j) && IsSeek(KeyOrder(), Flat(bs), k, t)
    ensures j < |bs[i].es| ==> t < |Flat(bs)| && Flat(bs)[t] == bs[i].es[j]
    ensures j == |bs[i].es| && t < |Flat(bs)| ==> |Flat(bs)[t].key| >= 8 && UserOf(Flat(bs)[t].key) != UserOf(k)
  {
    hide KeyBefore, Separated, AllKeys, Sorted, Flat;
    var all, prefix, es := Flat(bs), Flat(bs[..i]), bs[i].es;
    EarlierBelow(bs, seps, i, k);
    FlatSplit(bs, i);
    Prefixed(prefix, es, all);
    SeekConcat(prefix, es, all, k, j, t);
    if j == |es| && t < |all| {
      if i + 1 < |bs| {
        SeparatedAt(bs, seps, i);
        NextBlock(bs, i);
        assert KeyBefore(Last(bs[i]), k) by { assert KeyOrder()(es[|es| - 1].key, k); }
        PastTheBlock(bs[i], seps[i], bs[i + 1], k);
        assert t == |prefix| + |es| by { assert KeyOrder()(all[|prefix| + |es|].key, k) == KeyBefore(all[|prefix| + |es|].key, k); }
      } else {
        LastBlock(bs);
      }
    }
  }

  lemma Prefixed(prefix: seq<KV>, es: seq<KV>, all: seq<KV>)
    requires prefix + es <= all
    ensures forall n :: 0 <= n < |prefix| ==> all[n] == prefix[n]
    ensures forall n :: 0 <= n < |es| ==> all[|prefix| + n] == es[n]
  {
    assert forall n :: 0 <= n < |prefix + es| ==> all[n] == (prefix + es)[n];
  }

  lemma NextBlock(bs: seq<DataBlock>, i: nat)
    requires i + 1 < |bs| && bs[i + 1].es != []
    ensures |Flat(bs[..i])| + |bs[i].es| < |Flat(bs)| && Flat(bs)[|Flat(bs[..i])| + |bs[i].es|] == bs[i + 1].es[0]
  {
    FlatSplit(bs, i + 1);
    assert bs[..i + 1][..i] == bs[..i];
    Prefixed(Flat(bs[..i + 1]), bs[i + 1].es, Flat(bs));
  }

  lemma LastBlock(bs: seq<DataBlock>)
    requires |bs| > 0
    ensures Flat(bs) == Flat(bs[..|bs| - 1]) + bs[|bs| - 1].es
  {
  }

  lemma SeparatedAt(bs: seq<DataBlock>, seps: seq<Bytes>, i: nat)
    requires Separated(bs, seps) && i + 1 < |bs|
    ensures |seps| == |bs| && BlockOk(bs[i]) && BlockOk(bs[i + 1]) && Closes(seps[i], bs[i]) && Opens(seps[i], bs[i], bs[i + 1])
    ensures |First(bs[i + 1])| >= 8
  {
    hide Closes, Opens, KeyBefore;
    assert Opens(seps[i + 1 - 1], bs[i + 1 - 1], bs[i + 1]);
  }

  /** Seeking in a list that starts with prefix + es, when all of prefix is below k. */
  lemma SeekConcat(prefix: seq<KV>, es: seq<KV>, all: seq<KV>, k: Internal, j: nat, t: nat)
    requires |prefix| + |es| <= |all|
    requires forall n :: 0 <= n < |prefix| ==> all[n] == prefix[n] && KeyBefore(prefix[n].key, k)
    requires forall n :: 0 <= n < |es| ==> all[|prefix| + n] == es[n]
    requires IsSeek(KeyOrder(), es, k, j) && IsSeek(KeyOrder(), all, k, t)
    ensures j < |es| ==> t == |prefix| + j
    ensures j == |es| ==> t >= |prefix| + |es|
  {
    hide KeyBefore;
    assert forall a, b :: KeyOrder()(a, b) == KeyBefore(a, b);
    assert |prefix| <= t;
    assert t < |prefix| + |es| ==> all[t] == es[t - |prefix|];
  }

  // ---------------------------------------------------------------------------------------
  // Blocks in the file

  const TRAILER := 5
  const NO_COMPRESSION: byte := 0

  datatype Handle = Handle(offset: uint64, size: uint64)

  function EncodeHandle(h: Handle): (b: Bytes) {
    EncodeVarint(h.offset) + EncodeVarint(h.size)
  }

  function DecodeHandle(b: Bytes): (r: Option<Handle>) {
    var o := GetVarint64(b);
    if o.None? then None
    else
      var s := GetVarint64(o.value.1);
      if s.None? then None else Some(Handle(o.value.0, s.value.0))
  }

  lemma HandleRoundTrip(h: Handle)
    ensures DecodeHandle(EncodeHandle(h)) == Some(h)
  {
    hide EncodeVarint, GetVarint64;
    Varint64RoundTrip(h.offset, EncodeVarint(h.size));
    assert EncodeVarint(h.size) == EncodeVarint(h.size) + [];
    Varint64RoundTrip(h.size, []);
  }

  /** WriteRawBlock: the contents, the compression type and the masked checksum of both. */
  function RawBlock(step: CrcStep, b: Bytes): (r: Bytes)
    ensures |r| == |b| + TRAILER
  {
    b + [NO_COMPRESSION] + EncodeFixed32(Mask(Extend(step, Crc(step, b), [NO_COMPRESSION])))
  }

  /** ReadBlock with checksums verified; None stands for a corruption status. */
  function ReadBlock(step: CrcStep, file: Bytes, h: Handle): (r: Option<Bytes>) {
    var n := h.size;
    if h.offset + n + TRAILER > |file| then None
    else
      var data := file[h.offset..h.offset + n + TRAILER];
      if Unmask(DecodeFixed32(data[n + 1..])) != Crc(step, data[..n + 1]) then None
      else if data[n] != NO_COMPRESSION then None
      else Some(data[..n])
  }

  /** On any file: a block is read exactly where its bytes, its type and its checksum stand. */
  lemma BlockExact(step: CrcStep, file: Bytes, h: Handle, b: Bytes)
    ensures ReadBlock(step, file, h) == Some(b) <==>
            |b| == h.size && h.offset + h.size + TRAILER <= |file| && file[h.offset..h.offset + h.size + TRAILER] == RawBlock(step, b)
  {
    hide EncodeFixed32, DecodeFixed32, Mask, Unmask, Extend, Crc;
    var n := h.size;
    if h.offset + n + TRAILER <= |file| {
      var data := file[h.offset..h.offset + n + TRAILER];
      var c := data[..n];
      var crc := Extend(step, Crc(step, c), [NO_COMPRESSION]);
      ExtendIsCrc(step, c, [NO_COMPRESSION]);
      MaskedExact(data[n + 1..], crc);
      assert data[n + 1..][..4] == data[n + 1..];
      assert data == c + [data[n]] + data[n + 1..];
      assert data[n] == NO_COMPRESSION ==> data[..n + 1] == c + [NO_COMPRESSION];
      if |b| == n && data == RawBlock(step, b) {
        assert c == b && data[n] == NO_COMPRESSION && data[n + 1..] == EncodeFixed32(Mask(crc));
      }
    }
  }

  lemma RawBlockReads(step: CrcStep, file: Bytes, offset: uint64, b: Bytes)
    requires |b| < 0x1_0000_0000_0000_0000 && offset + |b| + TRAILER <= |file|
    requires file[offset..offset + |b| + TRAILER] == RawBlock(step, b)
    ensures ReadBlock(step, file, Handle(offset, |b|)) == Some(b)
  {
    BlockExact(step, file, Handle(offset, |b|), b);
  }

  // ---------------------------------------------------------------------------------------
  // Point lookups

  /** A table file: the data blocks, the index block and the contents of the filter block. */
  datatype TableFile = TableFile(file: Bytes, index: Bytes, filter: Option<Bytes>)

  ghost predicate InFile(step: CrcStep, file: Bytes, b: DataBlock) {
    && b.offset < 0x1_0000_0000_0000_0000 && b.size < 0x1_0000_0000_0000_0000
    && ReadBlock(step, file, Handle(b.offset, b.size)).Some?
    && ReadsBlock(ReadBlock(step, file, Handle(b.offset, b.size)).value, b.es, b.l)
  }

  ghost predicate Indexed(index: seq<KV>, bs: seq<DataBlock>, seps: seq<Bytes>) {
    |index| == |bs| == |seps| && forall i :: 0 <= i < |bs| ==> IndexedAt(index[i], bs[i], seps[i])
  }

  ghost predicate IndexedAt(e: KV, b: DataBlock, sep: Bytes) {
    b.offset < 0x1_0000_0000_0000_0000 && b.size < 0x1_0000_0000_0000_0000 && e == KV(sep, EncodeHandle(Handle(b.offset, b.size)))
  }

  ghost predicate FilterCovers(policy: Policy, filter: Bytes, bs: seq<DataBlock>) {
    forall i, j :: 0 <= i < |bs| && 0 <= j < |bs[i].es| ==> FilterMayMatch(policy, filter, bs[i].offset, bs[i].es[j].key)
  }

  /** The hash of a filter policy on internal keys looks at the user key only (InternalFilterPolicy). */
  ghost predicate OnUserKeys(policy: Policy) {
    forall a: Internal, b: Internal :: UserOf(a) == UserOf(b) ==> policy.hash(a) == policy.hash(b)
  }

  /** The table holds the data blocks bs, in order, separated by seps. */
  ghost predicate TableOk(step: CrcStep, policy: Policy, t: TableFile, bs: seq<DataBlock>, seps: seq<Bytes>, index: seq<KV>, l: Layout) {
    && Separated(bs, seps) && Indexed(index, bs, seps) && ReadsBlock(t.index, index, l) && Sorted(KeyOrder(), index)
    && (forall i :: 0 <= i < |bs| ==> InFile(step, t.file, bs[i]))
    && (t.filter.Some? ==> FilterCovers(policy, t.filter.value, bs))
  }

  lemma SameFilter(policy: Policy, filter: Bytes, offset: nat, a: Internal, b: Internal)
    requires OnUserKeys(policy) && UserOf(a) == UserOf(b)
    ensures FilterMayMatch(policy, filter, offset, a) == FilterMayMatch(policy, filter, offset, b)
  {
    hide MayMatch, DecodeFixed32, Pow2;
    forall f: Bytes ensures MayMatch(policy, a, f) == MayMatch(policy, b, f) {
      SameHash(policy, a, b, f);
    }
  }

  /** The position of the first entry at or after target. */
  function SeekOf(less: Order, es: seq<KV>, target: Bytes): (i: nat)
    ensures IsSeek(less, es, target, i)
    decreases |es|
  {
    if |es| == 0 then 0
    else
      var n := |es| - 1;
      var i := SeekOf(less, es[..n], target);
      assert forall j :: 0 <= j < n ==> es[..n][j] == es[j];
      if i < n then i else if less(es[n].key, target) then n + 1 else n
  }

  /** r is what is known of the table's first entry at or after k: the entry itself, or that it has another user key. */
  ghost predicate Delivers(es: seq<KV>, k: Internal, r: Option<KV>) {
    var pos := SeekOf(KeyOrder(), es, k);
    && (r.Some? ==> pos < |es| && r.value == es[pos])
    && (pos < |es| && |es[pos].key| >= 8 && UserOf(es[pos].key) == UserOf(k) ==> r == Some(es[pos]))
  }

  /** Table::InternalGet: the entry passed to the saver, if any. */
  method InternalGet(step: CrcStep, policy: Policy, t: TableFile, k: Internal,
                     ghost bs: seq<DataBlock>, ghost seps: seq<Bytes>, ghost index: seq<KV>, ghost l: Layout) returns (r: Option<KV>)
    requires TableOk(step, policy, t, bs, seps, index, l) && OnUserKeys(policy)
    ensures Delivers(Flat(bs), k, r)
  {
    hide ReadsBlock, KeyBefore, Separated, Sorted, Flat, FilterMayMatch, ReadBlock, EncodeHandle, DecodeHandle, Delivers, OnUserKeys;
    KeyOrderTransitive();
    var iiter := new Iter(KeyOrder(), t.index, index, l);
    iiter.Seek(k);
    iiter.OffsetOrder(iiter.pos, |index|);
    ghost var i := iiter.pos;
    if !iiter.IsValid() {
      PastTheTable(bs, seps, index, k);
      return None;
    }
    assert IndexedAt(index[i], bs[i], seps[i]) && InFile(step, t.file, bs[i]);
    HandleRoundTrip(Handle(bs[i].offset, bs[i].size));
    var handle := DecodeHandle(iiter.value).value;
    if t.filter.Some? && !FilterMayMatch(policy, t.filter.value, handle.offset, k) {
      Excluded(policy, t.filter.value, bs, seps, index, i, k);
      return None;
    }
    var contents := ReadBlock(step, t.file, handle);
    SeparatedBlock(bs, seps, i);
    var iter := new Iter(KeyOrder(), contents.value, bs[i].es, bs[i].l);
    iter.Seek(k);
    iter.OffsetOrder(iter.pos, |bs[i].es|);
    r := if iter.IsValid() then Some(KV(iter.key, iter.value)) else None;
    Found(bs, seps, index, i, k, iter.pos, r);
  }

  lemma SeparatedBlock(bs: seq<DataBlock>, seps: seq<Bytes>, i: nat)
    requires Separated(bs, seps) && i < |bs|
    ensures Sorted(KeyOrder(), bs[i].es)
  {
    hide Closes, Opens, Sorted;
    assert BlockOk(bs[i]);
  }

  /** The index seek says which separators are below k. */
  lemma IndexSeek(bs: seq<DataBlock>, seps: seq<Bytes>, index: seq<KV>, i: nat, k: Internal)
    requires Indexed(index, bs, seps) && IsSeek(KeyOrder(), index, k, i)
    ensures forall m :: 0 <= m < i ==> KeyBefore(seps[m], k)
    ensures i < |bs| ==> !KeyBefore(seps[i], k)
  {
    hide KeyBefore, EncodeHandle;
    var less := KeyOrder();
    assert forall m :: 0 <= m < |index| ==> IndexedAt(index[m], bs[m], seps[m]);
    assert forall m :: 0 <= m < i ==> less(index[m].key, k) == KeyBefore(seps[m], k);
  }

  lemma PastTheTable(bs: seq<DataBlock>, seps: seq<Bytes>, index: seq<KV>, k: Internal)
    requires Separated(bs, seps) && Indexed(index, bs, seps) && IsSeek(KeyOrder(), index, k, |index|)
    ensures Delivers(Flat(bs), k, None)
  {
    hide KeyBefore, Separated, Flat;
    IndexSeek(bs, seps, index, |index|, k);
    EarlierBelow(bs, seps, |bs|, k);
    assert bs[..|bs|] == bs;
    var less := KeyOrder();
    assert forall n :: 0 <= n < |Flat(bs)| ==> less(Flat(bs)[n].key, k) == KeyBefore(Flat(bs)[n].key, k);
  }

  lemma Found(bs: seq<DataBlock>, seps: seq<Bytes>, index: seq<KV>, i: nat, k: Internal, j: nat, r: Option<KV>)
    requires Separated(bs, seps) && Indexed(index, bs, seps) && i < |bs| && IsSeek(KeyOrder(), index, k, i)
    requires IsSeek(KeyOrder(), bs[i].es, k, j) && r == if j < |bs[i].es| then Some(bs[i].es[j]) else None
    ensures Delivers(Flat(bs), k, r)
  {
    hide KeyBefore, Separated, Flat;
    IndexSeek(bs, seps, index, i, k);
    SeekThrough(bs, seps, i, k, j, SeekOf(KeyOrder(), Flat(bs), k));
  }

  /** A block whose filter excludes k does not hold the user key that the lookup is after. */
  lemma Excluded(policy: Policy, filter: Bytes, bs: seq<DataBlock>, seps: seq<Bytes>, index: seq<KV>, i: nat, k: Internal)
    requires Separated(bs, seps) && Indexed(index, bs, seps) && i < |bs| && IsSeek(KeyOrder(), index, k, i)
    requires FilterCovers(policy, filter, bs) && OnUserKeys(policy) && !FilterMayMatch(policy, filter, bs[i].offset, k)
    ensures Delivers(Flat(bs), k, None)
  {
    hide KeyBefore, Separated, Flat, FilterMayMatch, OnUserKeys, Indexed;
    var j := SeekOf(KeyOrder(), bs[i].es, k);
    IndexSeek(bs, seps, index, i, k);
    SeekThrough(bs, seps, i, k, j, SeekOf(KeyOrder(), Flat(bs), k));
    if j < |bs[i].es| && |bs[i].es[j].key| >= 8 {
      var key: Internal := bs[i].es[j].key;
      assert FilterMayMatch(policy, filter, bs[i].offset, key);
      if UserOf(key) == UserOf(k) {
        SameFilter(policy, filter, bs[i].offset, key, k);
      }
    }
  }

  // ---------------------------------------------------------------------------------------
  // The table builder

  /** The separators known so far: all of them, or all but that of the last block, which waits for the next key. */
  ghost predicate Chained(bs: seq<DataBlock>, seps: seq<Bytes>) {
    && |seps| <= |bs| <= |seps| + 1
    && (forall i :: 0 <= i < |bs| ==> BlockOk(bs[i]))
    && (forall i :: 0 <= i < |seps| ==> Closes(seps[i], bs[i]))
    && (forall i :: 0 < i < |bs| ==> Opens(seps[i - 1], bs[i - 1], bs[i]))
  }

  /** The separator of the last block also stays below the block being filled. */
  ghost predicate OpensLast(bs: seq<DataBlock>, seps: seq<Bytes>, es: seq<KV>) {
    |bs| > 0 && |seps| == |bs| && bs[|bs| - 1].es != [] && es != [] && |es[0].key| >= 8 ==>
      Opens(seps[|bs| - 1], bs[|bs| - 1], DataBlock(0, 0, es, Layout([], [], [])))
  }

  lemma {:induction false} BelowLast(bs: seq<DataBlock>, seps: seq<Bytes>, i: nat)
    requires Chained(bs, seps) && i < |bs| - 1
    ensures KeyBefore(seps[i], Last(bs[|bs| - 1]))
    decreases |bs| - i
  {
    hide InternalLess;
    KeyOrderTransitive();
    var less := KeyOrder();
    var next := bs[i + 1];
    assert BlockOk(next) && Opens(seps[i + 1 - 1], bs[i + 1 - 1], next);
    assert |next.es| > 1 ==> less(First(next), Last(next));
    assert less(seps[i], First(next)) && less(seps[i], Last(next));
    if i + 1 < |bs| - 1 {
      BelowLast(bs, seps, i + 1);
      assert Closes(seps[i + 1], next);
      assert seps[i + 1] != Last(next) ==> less(Last(next), seps[i + 1]);
      assert less(seps[i], seps[i + 1]) && less(seps[i + 1], Last(bs[|bs| - 1]));
    }
  }

  /** A separator for the last block comes after all separators before it. */
  lemma SepAfter(bs: seq<DataBlock>, seps: seq<Bytes>, sep: Bytes)
    requires Chained(bs, seps) && |seps| == |bs| - 1 && BlockOk(bs[|bs| - 1]) && Closes(sep, bs[|bs| - 1])
    ensures forall i :: 0 <= i < |seps| ==> KeyBefore(seps[i], sep)
  {
    hide InternalLess, Chained, BlockOk;
    KeyOrderTransitive();
    var less, last := KeyOrder(), Last(bs[|bs| - 1]);
    forall i | 0 <= i < |seps| ensures KeyBefore(seps[i], sep) {
      BelowLast(bs, seps, i);
      assert less(seps[i], last) && (sep != last ==> less(last, sep));
    }
  }

  lemma ChainSep(bs: seq<DataBlock>, seps: seq<Bytes>, sep: Bytes)
    requires Chained(bs, seps) && |seps| == |bs| - 1 && BlockOk(bs[|bs| - 1]) && Closes(sep, bs[|bs| - 1])
    ensures Chained(bs, seps + [sep])
  {
    hide BlockOk, Closes, Opens;
    var seps' := seps + [sep];
    forall i | 0 < i < |bs| ensures Opens(seps'[i - 1], bs[i - 1], bs[i]) {
      assert Opens(seps[i - 1], bs[i - 1], bs[i]);
    }
  }

  lemma ChainBlock(bs: seq<DataBlock>, seps: seq<Bytes>, b: DataBlock)
    requires Chained(bs, seps) && |seps| == |bs| && BlockOk(b) && OpensLast(bs, seps, b.es)
    ensures Chained(bs + [b], seps)
  {
    hide InternalLess, UserOf;
    var bs' := bs + [b];
    forall i | 0 < i < |bs'| ensures Opens(seps[i - 1], bs'[i - 1], bs'[i]) {
      if i < |bs| {
        assert Opens(seps[i - 1], bs[i - 1], bs[i]);
      } else if |bs| > 0 {
        assert BlockOk(bs[|bs| - 1]) && |b.es[0].key| >= 8;
      }
    }
  }

  /** Every key of the blocks has been given to the filter with the offset of its block. */
  ghost predicate Filtered(added: set<Added>, bs: seq<DataBlock>) {
    forall i :: 0 <= i < |bs| ==> FilteredBlock(added, bs[i].offset, bs[i].es)
  }

  ghost predicate FilteredBlock(added: set<Added>, offset: nat, es: seq<KV>) {
    forall j :: 0 <= j < |es| ==> Added(offset, es[j].key) in added
  }

  ghost predicate AllInFile(step: CrcStep, file: Bytes, bs: seq<DataBlock>) {
    forall i :: 0 <= i < |bs| ==> InFile(step, file, bs[i])
  }

  lemma InFileAppend(step: CrcStep, file: Bytes, more: Bytes, bs: seq<DataBlock>)
    requires AllInFile(step, file, bs)
    ensures AllInFile(step, file + more, bs)
  {
    hide ReadsBlock, DecodeFixed32, Unmask, Crc;
    forall i | 0 <= i < |bs| ensures InFile(step, file + more, bs[i]) {
      assert InFile(step, file, bs[i]);
      var h := Handle(bs[i].offset, bs[i].size);
      assert (file + more)[h.offset..h.offset + h.size + TRAILER] == file[h.offset..h.offset + h.size + TRAILER];
    }
  }

  lemma InFileLast(step: CrcStep, file: Bytes, b: Bytes, d: DataBlock)
    requires |file| == d.offset < 0x1_0000_0000_0000_0000 && |b| == d.size < 0x1_0000_0000_0000_0000 && ReadsBlock(b, d.es, d.l)
    ensures InFile(step, file + RawBlock(step, b), d)
  {
    hide ReadsBlock, ReadBlock;
    assert (file + RawBlock(step, b))[|file|..|file| + |b| + TRAILER] == RawBlock(step, b);
    RawBlockReads(step, file + RawBlock(step, b), d.offset, b);
  }

  /** The blocks written so far, their separators and index entries, and the entries cur of the block being filled. */
  ghost predicate Progress(bs: seq<DataBlock>, seps: seq<Bytes>, index: seq<KV>, cur: seq<KV>, es: seq<KV>, pending: bool, lastKey: Bytes) {
    && Chained(bs, seps) && |bs| == |seps| + (if pending then 1 else 0)
    && (pending ==> cur == []) && (|bs| > 0 && !pending ==> cur != [])
    && OpensLast(bs, seps, cur) && Indexed(index, bs[..|seps|], seps)
    && es == Flat(bs) + cur && AllKeys(es) && Sorted(KeyOrder(), es)
    && (es != [] ==> lastKey == es[|es| - 1].key)
  }

  lemma LastOfFlat(bs: seq<DataBlock>)
    requires |bs| > 0 && bs[|bs| - 1].es != []
    ensures Flat(bs) != [] && Flat(bs)[|Flat(bs)| - 1].key == Last(bs[|bs| - 1])
  {
  }

  /** The next key decides the separator of the last block. */
  lemma AddSeparator(bs: seq<DataBlock>, seps: seq<Bytes>, index: seq<KV>, es: seq<KV>, lastKey: Bytes, sep: Bytes, h: Handle)
    requires Progress(bs, seps, index, [], es, true, lastKey) && |sep| >= 8 && |lastKey| >= 8
    requires sep == lastKey || KeyBefore(lastKey, sep)
    requires var b := bs[|bs| - 1]; b.offset == h.offset && b.size == h.size
    ensures var seps', index' := seps + [sep], index + [KV(sep, EncodeHandle(h))];
            && |seps'| == |bs| && Chained(bs, seps') && Indexed(index', bs, seps') && es != [] && lastKey == Last(bs[|bs| - 1])
            && forall i :: 0 <= i < |index| ==> KeyBefore(index[i].key, sep)
  {
    hide KeyBefore, EncodeHandle, Sorted, AllKeys, Chained, Flat;
    ChainedLast(bs, seps);
    LastOfFlat(bs);
    assert Flat(bs) + [] == Flat(bs);
    assert bs[..|bs|] == bs;
    ChainSep(bs, seps, sep);
    SepAfter(bs, seps, sep);
    assert forall i :: 0 <= i < |index| ==> IndexedAt(index[i], bs[..|seps|][i], seps[i]);
  }

  lemma ChainedLast(bs: seq<DataBlock>, seps: seq<Bytes>)
    requires Chained(bs, seps) && |bs| > 0
    ensures |seps| <= |bs| <= |seps| + 1 && BlockOk(bs[|bs| - 1]) && bs[|bs| - 1].es != []
  {
    hide Closes, Opens, Sorted, AllKeys;
  }

  /** A key after the last one is after all of them. */
  lemma AfterAll(es: seq<KV>, key: Bytes)
    requires Sorted(KeyOrder(), es) && (es != [] ==> KeyBefore(es[|es| - 1].key, key))
    ensures forall i :: 0 <= i < |es| ==> KeyBefore(es[i].key, key)
  {
    hide KeyBefore;
    KeyOrderTransitive();
    var less := KeyOrder();
    forall i | 0 <= i < |es| ensures KeyBefore(es[i].key, key) {
      var n := |es| - 1;
      assert less(es[n].key, key) == KeyBefore(es[n].key, key) && less(es[i].key, key) == KeyBefore(es[i].key, key);
      assert i < n ==> less(es[i].key, es[n].key);
    }
  }

  /** All separators are known, and the entry e may be added. */
  ghost predicate Primed(bs: seq<DataBlock>, seps: seq<Bytes>, index: seq<KV>, cur: seq<KV>, es: seq<KV>, e: KV) {
    && Chained(bs, seps) && |bs| == |seps| && Indexed(index, bs, seps)
    && es == Flat(bs) + cur && AllKeys(es) && Sorted(KeyOrder(), es) && |e.key| >= 8
    && (es != [] ==> KeyBefore(es[|es| - 1].key, e.key))
    && OpensLast(bs, seps, if cur == [] then [e] else cur)
  }

  lemma AlreadyPrimed(bs: seq<DataBlock>, seps: seq<Bytes>, index: seq<KV>, cur: seq<KV>, es: seq<KV>, lastKey: Bytes, e: KV)
    requires Progress(bs, seps, index, cur, es, false, lastKey) && |e.key| >= 8 && (es != [] ==> KeyBefore(lastKey, e.key))
    ensures Primed(bs, seps, index, cur, es, e)
  {
    hide KeyBefore, Chained, Flat, UserOf, Sorted;
    assert bs[..|seps|] == bs;
  }

  /** The separator of the last block, chosen with the next key in sight, makes room for the entry. */
  lemma NowPrimed(bs: seq<DataBlock>, seps: seq<Bytes>, index: seq<KV>, es: seq<KV>, lastKey: Internal, sep: Internal, h: Handle, e: KV)
    requires Progress(bs, seps, index, [], es, true, lastKey) && |e.key| >= 8 && KeyBefore(lastKey, e.key)
    requires sep == lastKey || (KeyBefore(lastKey, sep) && KeyBefore(sep, e.key) && Less(UserOf(sep), UserOf(e.key)))
    requires var b := bs[|bs| - 1]; b.offset == h.offset && b.size == h.size
    ensures Primed(bs, seps + [sep], index + [KV(sep, EncodeHandle(h))], [], es, e)
    ensures forall i :: 0 <= i < |index| ==> KeyBefore(index[i].key, sep)
  {
    AddSeparator(bs, seps, index, es, lastKey, sep, h);
    hide KeyBefore, Chained, Flat, UserOf, Sorted, Less, EncodeHandle, Indexed;
  }

  /** While a separator is pending there are entries. */
  lemma PendingHas(bs: seq<DataBlock>, seps: seq<Bytes>, index: seq<KV>, es: seq<KV>, lastKey: Bytes)
    requires Progress(bs, seps, index, [], es, true, lastKey)
    ensures es != [] && |lastKey| >= 8
  {
    hide Sorted, Closes, Opens;
    assert BlockOk(bs[|bs| - 1]);
    LastOfFlat(bs);
  }

  lemma AddEntry(bs: seq<DataBlock>, seps: seq<Bytes>, index: seq<KV>, cur: seq<KV>, es: seq<KV>, e: KV)
    requires Primed(bs, seps, index, cur, es, e)
    ensures Progress(bs, seps, index, cur + [e], es + [e], false, e.key)
  {
    hide KeyBefore, Chained, Flat, UserOf;
    AfterAll(es, e.key);
    SortedSnoc(KeyOrder(), es, e);
    assert es + [e] == Flat(bs) + (cur + [e]);
    assert bs[..|seps|] == bs;
    assert (cur + [e])[0] == if cur == [] then e else cur[0];
  }

  /** The block being filled is written out. */
  lemma FlushKeeps(bs: seq<DataBlock>, seps: seq<Bytes>, index: seq<KV>, cur: seq<KV>, es: seq<KV>, lastKey: Bytes, b: DataBlock)
    requires Progress(bs, seps, index, cur, es, false, lastKey) && cur != [] && b.es == cur && Sorted(KeyOrder(), cur)
    ensures Progress(bs + [b], seps, index, [], es, true, lastKey)
  {
    hide KeyBefore, UserOf, Sorted, Chained, Opens;
    var bs' := bs + [b];
    assert bs'[..|bs|] == bs && bs[..|seps|] == bs && bs'[..|seps|] == bs;
    assert Flat(bs') == Flat(bs) + cur;
    assert Flat(bs') + [] == Flat(bs');
    assert AllKeys(cur) by {
      assert forall i :: 0 <= i < |cur| ==> cur[i] == es[|Flat(bs)| + i];
    }
    ChainBlock(bs, seps, b);
  }

  lemma HandleLength(h: Handle)
    ensures |EncodeHandle(h)| <= 20
  {
    assert Pow128(10) == 0x40_0000_0000_0000_0000 by { Powers(); }
    hide EncodeVarint;
    VarintLength(h.offset, 10);
    VarintLength(h.size, 10);
  }

  class TableBuilder {
    const step: CrcStep
    const policy: Policy
    const blockSize: nat
    const dataBlock: BlockBuilder
    const indexBlock: BlockBuilder
    const filterBlock: FilterBlockBuilder?
    var file: Bytes
    var offset: nat
    var lastKey: Bytes
    var pending: bool
    var pendingHandle: Handle
    ghost var bs: seq<DataBlock>
    ghost var seps: seq<Bytes>
    /** Everything added so far. */
    ghost var es: seq<KV>

    ghost predicate FilterOk()
      reads this, dataBlock, filterBlock
    {
      filterBlock != null ==>
        && filterBlock.Valid() && filterBlock.block == offset && filterBlock.policy == policy
        && Filtered(filterBlock.added, bs) && FilteredBlock(filterBlock.added, offset, dataBlock.es)
    }

    ghost predicate BlocksOk()
      reads this, dataBlock, indexBlock
    {
      dataBlock != indexBlock && dataBlock.Valid() && indexBlock.Valid() && dataBlock.less == indexBlock.less == KeyOrder()
    }

    ghost predicate Valid()
      reads this, dataBlock, indexBlock, filterBlock
    {
      && BlocksOk() && FilterOk()
      && offset == |file| && AllInFile(step, file, bs)
      && Progress(bs, seps, indexBlock.es, dataBlock.es, es, pending, lastKey)
      && (pending ==> |bs| > 0 && pendingHandle.offset == bs[|bs| - 1].offset && pendingHandle.size == bs[|bs| - 1].size)
    }

    /** Blocks stay below 4 GB, and the file below what a handle can hold. */
    ghost predicate Room(key: Bytes, value: Bytes)
      reads this, dataBlock, indexBlock
    {
      && Small(KV(key, value)) && |dataBlock.buffer| + |key| + |value| + 15 < 0x1_0000_0000
      && |indexBlock.buffer| + |lastKey| + 35 < 0x1_0000_0000 && offset < 0x1000_0000_0000_0000
    }

    constructor (step: CrcStep, policy: Policy, withFilter: bool, blockSize: nat, interval: nat)
      requires PolicyOk(policy) && interval >= 1
      ensures Valid() && es == [] && this.step == step && this.policy == policy
      ensures fresh(dataBlock) && fresh(indexBlock) && (filterBlock != null ==> fresh(filterBlock))
    {
      this.step, this.policy, this.blockSize := step, policy, blockSize;
      dataBlock := new BlockBuilder(interval, KeyOrder());
      indexBlock := new BlockBuilder(1, KeyOrder());
      if withFilter {
        filterBlock := new FilterBlockBuilder(policy);
      } else {
        filterBlock := null;
      }
      file, offset, lastKey, pending, pendingHandle := [], 0, [], false, Handle(0, 0);
      bs, seps, es := [], [], [];
    }

    method Add(key: Bytes, value: Bytes)
      requires Valid() && Room(key, value) && |key| >= 8
      requires es != [] ==> KeyBefore(lastKey, key)
      modifies this, dataBlock, indexBlock, filterBlock
      ensures Valid() && es == old(es) + [KV(key, value)]
      ensures if bs == old(bs) then dataBlock.es == old(dataBlock.es) + [KV(key, value)] && |dataBlock.buffer| + 4 * |dataBlock.restarts| + 4 < blockSize
              else var n := |old(bs)|;
                   |bs| == n + 1 && bs[..n] == old(bs) && bs[n].es == old(dataBlock.es) + [KV(key, value)] && bs[n].size >= blockSize && dataBlock.es == []
    {
      hide KeyBefore, Progress, Filtered, AllInFile, Primed, Small, Built, Pending, Filters, Covered;
      ghost var e := KV(key, value);
      if pending {
        AddIndexEntry(key, e);
      } else {
        AlreadyPrimed(bs, seps, indexBlock.es, dataBlock.es, es, lastKey, e);
      }
      if filterBlock != null {
        FilteredMore(filterBlock.added, {Added(offset, key)}, bs);
        filterBlock.AddKey(key);
      }
      AddEntry(bs, seps, indexBlock.es, dataBlock.es, es, e);
      PrimedAfter(bs, seps, indexBlock.es, dataBlock.es, es, e);
      lastKey := key;
      es := es + [e];
      dataBlock.Add(key, value);
      var estimate := dataBlock.CurrentSizeEstimate();
      if estimate >= blockSize {
        Flush();
      }
    }

    /** Choose the separator of the block just written, now that the next key is known. */
    method AddIndexEntry(key: Bytes, ghost e: KV)
      requires Valid() && pending && |key| >= 8 && e.key == key && (es != [] ==> KeyBefore(lastKey, key))
      requires |indexBlock.buffer| + |lastKey| + 35 < 0x1_0000_0000
      modifies this, indexBlock
      ensures BlocksOk() && FilterOk() && offset == |file| && AllInFile(step, file, bs) && !pending
      ensures Primed(bs, seps, indexBlock.es, dataBlock.es, es, e)
      ensures offset == old(offset) && es == old(es) && bs == old(bs)
      ensures |old(lastKey)| >= 8 && |lastKey| >= 8 && SeparatorOf(old(lastKey), key, lastKey) && seps == old(seps) + [lastKey]
    {
      hide KeyBefore, Progress, Filtered, AllInFile, Primed, InternalLess, SeparatorOf, Built, Pending, Filters, Covered;
      assert dataBlock.es == [] by { PendingIs(bs, seps, indexBlock.es, dataBlock.es, es, lastKey); }
      PendingHas(bs, seps, indexBlock.es, es, lastKey);
      assert InternalLess(lastKey, key) by { KeyBeforeIs(lastKey, key); }
      ghost var last := lastKey;
      lastKey := InternalSeparator(lastKey, key);
      if lastKey != last {
        KeyBeforeIs(last, lastKey);
        KeyBeforeIs(lastKey, key);
      }
      NowPrimed(bs, seps, indexBlock.es, es, last, lastKey, pendingHandle, e);
      HandleLength(pendingHandle);
      assert forall i :: 0 <= i < |indexBlock.es| ==> KeyOrder()(indexBlock.es[i].key, lastKey) == KeyBefore(indexBlock.es[i].key, lastKey);
      indexBlock.Add(lastKey, EncodeHandle(pendingHandle));
      seps := seps + [lastKey];
      pending := false;
    }

    /** Write the block being filled, if it holds anything. */
    method Flush()
      requires Valid() && offset < 0x1000_0000_0000_0000
      modifies this, dataBlock, filterBlock
      ensures Valid() && es == old(es) && dataBlock.es == [] && lastKey == old(lastKey)
      ensures |bs| > 0 ==> pending
      ensures old(dataBlock.buffer) == [] ==> bs == old(bs)
      ensures old(dataBlock.buffer) != [] ==>
                var n := |old(bs)|;
                |bs| == n + 1 && bs[..n] == old(bs) && bs[n].es == old(dataBlock.es)
                && bs[n].size == |old(dataBlock.buffer)| + 4 * |old(dataBlock.restarts)| + 4
    {
      hide KeyBefore, Progress, Filtered, AllInFile, ReadsBlock, RawBlock, Built, Pending, Filters, Covered;
      EmptyBuffer(dataBlock);
      if dataBlock.buffer == [] {
        EmptyIsPending(bs, seps, indexBlock.es, es, pending, lastKey);
        return;
      }
      NotPending(bs, seps, indexBlock.es, dataBlock.es, es, pending, lastKey);
      ghost var cur := dataBlock.es;
      CurSorted(dataBlock);
      var raw := dataBlock.Finish();
      ghost var b := DataBlock(offset, |raw|, cur, dataBlock.l);
      FlushKeeps(bs, seps, indexBlock.es, cur, es, lastKey, b);
      InFileAppend(step, file, RawBlock(step, raw), bs);
      InFileLast(step, file, raw, b);
      AllInFileSnoc(step, file + RawBlock(step, raw), bs, b);
      if filterBlock != null {
        FilteredSnoc(filterBlock.added, bs, b);
      }
      pendingHandle := Handle(offset, |raw|);
      file := file + RawBlock(step, raw);
      offset := offset + |raw| + TRAILER;
      dataBlock.Reset();
      bs, pending := bs + [b], true;
      if filterBlock != null {
        filterBlock.StartBlock(offset);
      }
    }

    /** The finished table, together with the data blocks it is made of: they hold exactly what was added. */
    method Finish() returns (t: TableFile, ghost index: seq<KV>, ghost l: Layout)
      requires Valid() && |indexBlock.buffer| + |lastKey| + 35 < 0x1_0000_0000 && offset < 0x1000_0000_0000_0000
      modifies this, dataBlock, indexBlock, filterBlock
      ensures Flat(bs) == old(es) && (t.filter.Some? <==> filterBlock != null)
      ensures (t.filter.Some? ==> |t.filter.value| < 0x1_0000_0000) ==> TableOk(step, policy, t, bs, seps, index, l)
    {
      hide KeyBefore, Progress, Filtered, AllInFile, ReadsBlock, Built, Pending, Filters, Covered, FilterCovers, Separated, Indexed, Sorted;
      Flush();
      Complete(bs, seps, indexBlock.es, es, pending, lastKey);
      var filter: Option<Bytes> := None;
      if filterBlock != null {
        ghost var added := filterBlock.added;
        var contents := filterBlock.Finish();
        if |contents| < 0x1_0000_0000 {
          FilterCoversAll(policy, contents, added, bs);
        }
        filter := Some(contents);
      }
      if pending {
        AddLastEntry();
      }
      CurSorted(indexBlock);
      index, l := indexBlock.es, indexBlock.l;
      var bytes := indexBlock.Finish();
      t := TableFile(file, bytes, filter);
      AllInFileIs(step, file, bs);
    }

    /** The separator of the very last block. */
    method AddLastEntry()
      requires BlocksOk() && pending && |bs| > 0 && |indexBlock.buffer| + |lastKey| + 35 < 0x1_0000_0000
      requires Progress(bs, seps, indexBlock.es, [], es, true, lastKey)
      requires pendingHandle.offset == bs[|bs| - 1].offset && pendingHandle.size == bs[|bs| - 1].size
      modifies this, indexBlock
      ensures indexBlock.Valid() && Separated(bs, seps) && Indexed(indexBlock.es, bs, seps)
      ensures bs == old(bs) && file == old(file) && !pending
      ensures |old(lastKey)| >= 8 && |lastKey| >= 8 && SuccessorOf(old(lastKey), lastKey) && seps == old(seps) + [lastKey]
    {
      hide KeyBefore, Progress, InternalLess, SuccessorOf, Built, Chained, Separated, Indexed;
      PendingHas(bs, seps, indexBlock.es, es, lastKey);
      ghost var last := lastKey;
      lastKey := InternalSuccessor(lastKey);
      if lastKey != last {
        KeyBeforeIs(last, lastKey);
      }
      AddSeparator(bs, seps, indexBlock.es, es, last, lastKey, pendingHandle);
      ChainedIsSeparated(bs, seps + [lastKey]);
      HandleLength(pendingHandle);
      assert forall i :: 0 <= i < |indexBlock.es| ==> KeyOrder()(indexBlock.es[i].key, lastKey) == KeyBefore(indexBlock.es[i].key, lastKey);
      indexBlock.Add(lastKey, EncodeHandle(pendingHandle));
      seps, pending := seps + [lastKey], false;
    }
  }

  lemma AllInFileIs(step: CrcStep, file: Bytes, bs: seq<DataBlock>)
    requires AllInFile(step, file, bs)
    ensures forall i :: 0 <= i < |bs| ==> InFile(step, file, bs[i])
  {
    hide InFile;
  }

  /** The lists are complete: every block has its separator. */
  lemma Complete(bs: seq<DataBlock>, seps: seq<Bytes>, index: seq<KV>, es: seq<KV>, pending: bool, lastKey: Bytes)
    requires Progress(bs, seps, index, [], es, pending, lastKey) && (|bs| > 0 ==> pending)
    ensures es == Flat(bs) && (!pending ==> Separated(bs, seps) && Indexed(index, bs, seps))
  {
    hide KeyBefore, Sorted, Closes, Opens;
    assert Flat(bs) + [] == Flat(bs);
    assert !pending ==> bs[..|seps|] == bs;
  }

  lemma ChainedIsSeparated(bs: seq<DataBlock>, seps: seq<Bytes>)
    requires Chained(bs, seps) && |seps| == |bs|
    ensures Separated(bs, seps)
  {
    hide KeyBefore, Sorted;
  }

  lemma FilterCoversAll(policy: Policy, filter: Bytes, added: set<Added>, bs: seq<DataBlock>)
    requires Filtered(added, bs) && forall a :: a in added ==> FilterMayMatch(policy, filter, a.block, a.key)
    ensures FilterCovers(policy, filter, bs)
  {
    hide FilterMayMatch;
    forall i, j | 0 <= i < |bs| && 0 <= j < |bs[i].es| ensures FilterMayMatch(policy, filter, bs[i].offset, bs[i].es[j].key) {
      assert FilteredBlock(added, bs[i].offset, bs[i].es);
      assert Added(bs[i].offset, bs[i].es[j].key) in added;
    }
  }

  lemma EmptyBuffer(b: BlockBuilder)
    requires b.Valid()
    ensures b.buffer == [] <==> b.es == []
  {
    hide EntryAt, Sorted;
    if b.es != [] {
      OffsetsIncrease(b.es, b.l, b.buffer, 0, |b.es|);
    }
  }

  lemma CurSorted(b: BlockBuilder)
    requires b.Valid()
    ensures Sorted(b.less, b.es) && b.interval >= 1
  {
    hide Block.Laid, Sorted;
  }

  lemma EmptyIsPending(bs: seq<DataBlock>, seps: seq<Bytes>, index: seq<KV>, es: seq<KV>, pending: bool, lastKey: Bytes)
    requires Progress(bs, seps, index, [], es, pending, lastKey)
    ensures |bs| > 0 ==> pending
  {
  }

  lemma NotPending(bs: seq<DataBlock>, seps: seq<Bytes>, index: seq<KV>, cur: seq<KV>, es: seq<KV>, pending: bool, lastKey: Bytes)
    requires Progress(bs, seps, index, cur, es, pending, lastKey) && cur != []
    ensures !pending
  {
  }

  lemma AllInFileSnoc(step: CrcStep, file: Bytes, bs: seq<DataBlock>, b: DataBlock)
    requires AllInFile(step, file, bs) && InFile(step, file, b)
    ensures AllInFile(step, file, bs + [b])
  {
    hide InFile;
  }

  lemma FilteredSnoc(added: set<Added>, bs: seq<DataBlock>, b: DataBlock)
    requires Filtered(added, bs) && FilteredBlock(added, b.offset, b.es)
    ensures Filtered(added, bs + [b])
  {
    hide FilteredBlock;
  }

  lemma KeyBeforeIs(a: Bytes, b: Bytes)
    ensures KeyBefore(a, b) <==> |a| >= 8 && |b| >= 8 && InternalLess(a, b)
  {
  }

  lemma PendingIs(bs: seq<DataBlock>, seps: seq<Bytes>, index: seq<KV>, cur: seq<KV>, es: seq<KV>, lastKey: Bytes)
    requires Progress(bs, seps, index, cur, es, true, lastKey)
    ensures cur == []
  {
  }

  lemma PrimedAfter(bs: seq<DataBlock>, seps: seq<Bytes>, index: seq<KV>, cur: seq<KV>, es: seq<KV>, e: KV)
    requires Primed(bs, seps, index, cur, es, e)
    ensures forall i :: 0 <= i < |cur| ==> KeyOrder()(cur[i].key, e.key)
  {
    hide KeyBefore, Chained, Flat, OpensLast, Indexed, Sorted, AllKeys;
    AfterAll(es, e.key);
    forall i | 0 <= i < |cur| ensures KeyOrder()(cur[i].key, e.key) {
      assert cur[i] == es[|Flat(bs)| + i];
      assert KeyOrder()(cur[i].key, e.key) == KeyBefore(cur[i].key, e.key);
    }
  }

  lemma FilteredMore(added: set<Added>, more: set<Added>, bs: seq<DataBlock>)
    requires Filtered(added, bs)
    ensures Filtered(added + more, bs)
  {
    forall i | 0 <= i < |bs| ensures FilteredBlock(added + more, bs[i].offset, bs[i].es) {
      assert FilteredBlock(added, bs[i].offset, bs[i].es);
    }
  }
}
