/**
 * Sorted blocks (table/block_builder.cc, table/block.cc): keys are stored without the prefix they share with
 * the key before, except at restart points, whose offsets make up the end of the block.
 */
module Block {
  import opened Basics
  import opened Coding

  datatype KV = KV(key: Bytes, value: Bytes)

  /** Compare(a, b) < 0 of the block's comparator. */
  type Order = (Bytes, Bytes) -> bool

  ghost predicate Transitive(less: Order) {
    forall a, b, c :: less(a, b) && less(b, c) ==> less(a, c)
  }

  predicate Sorted(less: Order, es: seq<KV>) {
    forall i, j :: 0 <= i < j < |es| ==> less(es[i].key, es[j].key)
  }

  predicate Small(e: KV) {
    |e.key| < 0x1_0000_0000 && |e.value| < 0x1_0000_0000 && |e.key| + |e.value| < 0x1_0000_0000
  }

  // ---------------------------------------------------------------------------------------
  // Entries

  function EntryBytes(shared: nat, e: KV): (b: Bytes)
    requires shared <= |e.key|
    ensures |b| >= 3
  {
    EncodeVarint(shared) + EncodeVarint(|e.key| - shared) + EncodeVarint(|e.value|) + e.key[shared..] + e.value
  }

  datatype Header = Header(shared: uint32, unshared: uint32, valueLength: uint32, at: nat)

  /** DecodeEntry at p: the three lengths and the position after them, with the fast path of the source. */
  function DecodeEntry(b: Bytes, p: nat, limit: nat): (r: Option<Header>)
    requires p <= limit <= |b|
    ensures r.Some? ==> p < r.value.at <= limit
  {
    if limit - p < 3 then None
    else
      var h := if b[p] < 128 && b[p + 1] < 128 && b[p + 2] < 128 then Some(Header(b[p], b[p + 1], b[p + 2], p + 3))
               else DecodeLengths(b[p..limit], limit);
      if h.Some? && limit - h.value.at >= (h.value.unshared + h.value.valueLength) % 0x1_0000_0000 then h else None
  }

  function DecodeLengths(s: Bytes, limit: nat): (r: Option<Header>)
    requires |s| <= limit
    ensures r.Some? ==> limit - |s| < r.value.at <= limit
  {
    var v0 := GetVarint32(s);
    if v0.None? then None
    else
      var v1 := GetVarint32(v0.value.1);
      if v1.None? then None
      else
        var v2 := GetVarint32(v1.value.1);
        if v2.None? then None else Some(Header(v0.value.0, v1.value.0, v2.value.0, limit - |v2.value.1|))
  }

  lemma LengthsRoundTrip(a: uint32, b: uint32, c: uint32, rest: Bytes, limit: nat)
    requires |EncodeVarint(a) + EncodeVarint(b) + EncodeVarint(c) + rest| <= limit
    ensures DecodeLengths(EncodeVarint(a) + EncodeVarint(b) + EncodeVarint(c) + rest, limit) == Some(Header(a, b, c, limit - |rest|))
  {
    hide EncodeVarint, GetVarint32;
    var s := EncodeVarint(a) + EncodeVarint(b) + EncodeVarint(c) + rest;
    assert s == EncodeVarint(a) + (EncodeVarint(b) + (EncodeVarint(c) + rest));
    Varint32RoundTrip(a, EncodeVarint(b) + (EncodeVarint(c) + rest));
    Varint32RoundTrip(b, EncodeVarint(c) + rest);
    Varint32RoundTrip(c, rest);
  }

  /** Three bytes below 128 in front are the three lengths. */
  lemma {:induction false} FastPath(a: uint32, b: uint32, c: uint32, rest: Bytes)
    ensures var s := EncodeVarint(a) + EncodeVarint(b) + EncodeVarint(c) + rest;
            && |s| >= 3
            && (s[0] < 128 && s[1] < 128 && s[2] < 128 ==> s[0] == a && s[1] == b && s[2] == c && |s| == 3 + |rest|)
  {
    OneByte(a);
    OneByte(b);
    OneByte(c);
  }

  lemma OneByte(v: nat)
    ensures EncodeVarint(v)[0] < 128 <==> v < 128
    ensures v < 128 ==> EncodeVarint(v) == [v]
  {
  }

  /** Where the parts of an entry lie. */
  lemma EntryParts(b: Bytes, p: nat, q: nat, shared: nat, e: KV)
    requires p <= q <= |b| && shared <= |e.key| && b[p..q] == EntryBytes(shared, e)
    ensures var at := q - |e.value| - (|e.key| - shared);
            && p <= at
            && b[p..at] == EncodeVarint(shared) + EncodeVarint(|e.key| - shared) + EncodeVarint(|e.value|)
            && b[at..at + (|e.key| - shared)] == e.key[shared..]
            && b[at + (|e.key| - shared)..q] == e.value
  {
    hide EncodeVarint;
    var u := |e.key| - shared;
    var at := q - |e.value| - u;
    var s, head := b[p..q], EncodeVarint(shared) + EncodeVarint(u) + EncodeVarint(|e.value|);
    assert s == head + (e.key[shared..] + e.value);
    assert |s| == q - p == |head| + u + |e.value|;
    Slices(b, p, q, s, head, e.key[shared..], e.value);
  }

  lemma Slices(b: Bytes, p: nat, q: nat, s: Bytes, x: Bytes, y: Bytes, z: Bytes)
    requires p <= q <= |b| && b[p..q] == s == x + (y + z)
    ensures b[p..p + |x|] == x && b[p + |x|..p + |x| + |y|] == y && b[p + |x| + |y|..q] == z
  {
    assert forall i :: p <= i < q ==> b[i] == s[i - p];
    assert s[..|x|] == x && s[|x|..|x| + |y|] == y && s[|x| + |y|..] == z;
  }

  /** Three lengths in front of enough bytes are decoded, on the fast path or not. */
  lemma LengthsDecode(b: Bytes, p: nat, limit: nat, shared: uint32, u: uint32, v: uint32, rest: Bytes)
    requires p <= limit <= |b| && b[p..limit] == EncodeVarint(shared) + EncodeVarint(u) + EncodeVarint(v) + rest
    requires u + v <= |rest| && u + v < 0x1_0000_0000
    ensures DecodeEntry(b, p, limit) == Some(Header(shared, u, v, limit - |rest|))
  {
    hide EncodeVarint, DecodeLengths;
    LengthsRoundTrip(shared, u, v, rest, limit);
    FastPath(shared, u, v, rest);
    assert b[p] == b[p..limit][0] && b[p + 1] == b[p..limit][1] && b[p + 2] == b[p..limit][2];
  }

  /** The bytes of an entry decode to its lengths. */
  lemma EntryDecodes(b: Bytes, p: nat, q: nat, limit: nat, shared: nat, e: KV)
    requires p <= q <= limit <= |b| && shared <= |e.key| && Small(e) && b[p..q] == EntryBytes(shared, e)
    ensures DecodeEntry(b, p, limit) == Some(Header(shared, |e.key| - shared, |e.value|, q - |e.value| - (|e.key| - shared)))
  {
    hide EncodeVarint, DecodeEntry, EntryBytes;
    var at := q - |e.value| - (|e.key| - shared);
    EntryParts(b, p, q, shared, e);
    assert b[p..limit] == b[p..at] + b[at..limit];
    LengthsDecode(b, p, limit, shared, |e.key| - shared, |e.value|, b[at..limit]);
  }

  // ---------------------------------------------------------------------------------------
  // Layout of a block

  /**
   * The entries es lie one after the other in data: entry i from offs[i] to offs[i + 1], without the first
   * shared[i] bytes of its key; the entries starts are restart points.
   */
  datatype Layout = Layout(offs: seq<nat>, shared: seq<nat>, starts: seq<nat>)

  ghost predicate Shape(es: seq<KV>, l: Layout) {
    && |l.offs| == |es| + 1 && |l.shared| == |es| && l.offs[0] == 0
    && |l.starts| > 0 && l.starts[0] == 0
    && (forall k :: 0 < k < |l.starts| ==> l.starts[k - 1] < l.starts[k] < |es|)
  }

  ghost predicate EntryAt(es: seq<KV>, l: Layout, data: Bytes, i: nat)
    requires Shape(es, l) && i < |es|
  {
    && l.offs[i] <= l.offs[i + 1] <= |data|
    && l.shared[i] <= |es[i].key|
    && Small(es[i])
    && data[l.offs[i]..l.offs[i + 1]] == EntryBytes(l.shared[i], es[i])
    && (l.shared[i] > 0 ==> i > 0 && l.shared[i] <= |es[i - 1].key| && es[i].key[..l.shared[i]] == es[i - 1].key[..l.shared[i]])
  }

  ghost predicate Laid(es: seq<KV>, l: Layout, data: Bytes) {
    && Shape(es, l)
    && (forall i :: 0 <= i < |es| ==> EntryAt(es, l, data, i))
    && l.offs[|es|] == |data|
    && (forall k :: 0 <= k < |l.starts| && l.starts[k] < |es| ==> l.shared[l.starts[k]] == 0)
  }

  /** The offset of restart point k. */
  ghost function RestartAt(es: seq<KV>, l: Layout, k: nat): (off: nat)
    requires Shape(es, l) && k < |l.starts|
  {
    l.offs[l.starts[k]]
  }

  lemma {:induction false} OffsetsIncrease(es: seq<KV>, l: Layout, data: Bytes, i: nat, j: nat)
    requires Laid(es, l, data) && i < j <= |es|
    ensures l.offs[i] < l.offs[j] <= |data|
    decreases j - i
  {
    hide EntryBytes;
    assert EntryAt(es, l, data, j - 1);
    if i < j - 1 {
      OffsetsIncrease(es, l, data, i, j - 1);
    }
  }

  lemma {:induction false} StartsIncrease(es: seq<KV>, l: Layout, j: nat, k: nat)
    requires Shape(es, l) && j < k < |l.starts|
    ensures l.starts[j] < l.starts[k]
    decreases k - j
  {
    if j < k - 1 {
      StartsIncrease(es, l, j, k - 1);
    }
  }

  // ---------------------------------------------------------------------------------------
  // Block bytes

  /** What Finish returns: the entries, the restart offsets, and how many there are. */
  function BlockBytes(data: Bytes, restarts: seq<nat>): (b: Bytes)
    requires (forall i :: 0 <= i < |restarts| ==> restarts[i] < 0x1_0000_0000) && |restarts| < 0x1_0000_0000
    ensures |b| == |data| + 4 * |restarts| + 4
  {
    data + Fixed32s(restarts) + EncodeFixed32(|restarts|)
  }

  // ---------------------------------------------------------------------------------------
  // The builder

  lemma EntryLength(shared: nat, e: KV)
    requires shared <= |e.key| && Small(e)
    ensures |EntryBytes(shared, e)| <= 15 + |e.key| + |e.value|
  {
    assert Pow128(5) == 0x8_0000_0000 by { Powers(); }
    hide EncodeVarint;
    VarintLength(shared, 5);
    VarintLength(|e.key| - shared, 5);
    VarintLength(|e.value|, 5);
  }

  function Extended(l: Layout, end: nat, shared: nat, starts: seq<nat>): (l': Layout) {
    Layout(l.offs + [end], l.shared + [shared], starts)
  }

  /** Appending an entry to the data extends the layout. */
  lemma LaidSnoc(es: seq<KV>, l: Layout, data: Bytes, e: KV, shared: nat, starts: seq<nat>)
    requires Laid(es, l, data) && Small(e) && shared <= |e.key|
    requires shared > 0 ==> es != [] && shared <= |es[|es| - 1].key| && e.key[..shared] == es[|es| - 1].key[..shared]
    requires starts == l.starts || (es != [] && shared == 0 && starts == l.starts + [|es|])
    requires es == [] ==> shared == 0
    ensures var data' := data + EntryBytes(shared, e);
            Laid(es + [e], Extended(l, |data'|, shared, starts), data')
  {
    hide EntryBytes;
    var data', es' := data + EntryBytes(shared, e), es + [e];
    var l' := Extended(l, |data'|, shared, starts);
    assert Shape(es', l') by {
      forall k | 0 < k < |starts| ensures starts[k - 1] < starts[k] < |es'| {
        if k == |l.starts| {
          assert k - 1 == 0 || l.starts[k - 2] < l.starts[k - 1];
        }
      }
    }
    forall i | 0 <= i < |es'| ensures EntryAt(es', l', data', i) {
      if i < |es| {
        assert EntryAt(es, l, data, i);
        assert data'[l'.offs[i]..l'.offs[i + 1]] == data[l.offs[i]..l.offs[i + 1]];
      } else {
        assert data'[l'.offs[i]..l'.offs[i + 1]] == EntryBytes(shared, e);
      }
    }
  }

  /** What the builder's fields hold once the entries es have been added. */
  ghost predicate Built(less: Order, interval: nat, es: seq<KV>, l: Layout, buffer: Bytes, restarts: seq<nat>, counter: nat, lastKey: Bytes) {
    && Laid(es, l, buffer) && Sorted(less, es) && Restarts(es, l, restarts) && Spaced(es, l, interval, counter)
    && lastKey == (if es == [] then [] else es[|es| - 1].key)
    && (|restarts| == 1 || |restarts| <= |buffer|) && |buffer| < 0x1_0000_0000
  }

  lemma BuiltIs(less: Order, interval: nat, es: seq<KV>, l: Layout, buffer: Bytes, restarts: seq<nat>, counter: nat, lastKey: Bytes)
    requires Built(less, interval, es, l, buffer, restarts, counter, lastKey)
    ensures 0 < interval && |buffer| < 0x1_0000_0000
    ensures lastKey == if es == [] then [] else es[|es| - 1].key
  {
    hide Laid, Sorted;
  }

  /** Adding an entry that shares a prefix with the last key, or starts afresh after interval entries. */
  lemma AddKeeps(less: Order, interval: nat, es: seq<KV>, l: Layout, buffer: Bytes, restarts: seq<nat>, counter: nat, lastKey: Bytes,
                 e: KV, shared: nat) returns (l': Layout)
    requires Built(less, interval, es, l, buffer, restarts, counter, lastKey) && Small(e)
    requires |buffer| + |e.key| + |e.value| + 15 < 0x1_0000_0000
    requires forall i :: 0 <= i < |es| ==> less(es[i].key, e.key)
    requires shared <= |e.key| && shared <= |lastKey| && e.key[..shared] == lastKey[..shared] && (counter >= interval ==> shared == 0)
    ensures var fresh' := counter >= interval;
            Built(less, interval, es + [e], l', buffer + EntryBytes(shared, e), if fresh' then restarts + [|buffer|] else restarts,
                  if fresh' then 1 else counter + 1, e.key)
  {
    hide EntryBytes, Laid, Sorted;
    LaidShape(es, l, buffer);
    var starts := if counter < interval then l.starts else l.starts + [|es|];
    l' := Extended(l, |buffer + EntryBytes(shared, e)|, shared, starts);
    EntryLength(shared, e);
    LaidSnoc(es, l, buffer, e, shared, starts);
    SortedSnoc(less, es, e);
    SpacedSnoc(es, l, interval, counter, buffer, e, l');
    LaidShape(es + [e], l', buffer + EntryBytes(shared, e));
    RestartsSnoc(es, l, buffer, restarts, e, l');
  }

  /** n is the length of the longest common prefix. */
  predicate CommonPrefix(a: Bytes, b: Bytes, n: nat) {
    n <= |a| && n <= |b| && a[..n] == b[..n] && (n == |a| || n == |b| || a[n] != b[n])
  }

  lemma OnePrefix(a: Bytes, b: Bytes, m: nat, n: nat)
    requires CommonPrefix(a, b, m) && CommonPrefix(a, b, n)
    ensures m == n
  {
    assert forall j :: 0 <= j < n ==> a[j] == a[..n][j] == b[..n][j] == b[j];
    assert forall j :: 0 <= j < m ==> a[j] == a[..m][j] == b[..m][j] == b[j];
  }

  lemma PrefixOf(a: Bytes, b: Bytes) returns (n: nat)
    ensures CommonPrefix(a, b, n)
  {
    n := 0;
    while n < |a| && n < |b| && a[n] == b[n]
      invariant n <= |a| && n <= |b| && a[..n] == b[..n]
    {
      n := n + 1;
    }
  }

  class BlockBuilder {
    const interval: nat
    const less: Order
    var buffer: Bytes
    var restarts: seq<nat>
    var counter: nat
    var lastKey: Bytes
    ghost var es: seq<KV>
    ghost var l: Layout

    ghost predicate Valid()
      reads this
    {
      Built(less, interval, es, l, buffer, restarts, counter, lastKey)
    }

    constructor (interval: nat, less: Order)
      requires interval >= 1
      ensures Valid() && es == [] && this.interval == interval && this.less == less
    {
      this.interval, this.less, buffer, restarts, counter, lastKey := interval, less, [], [0], 0, [];
      es, l := [], Layout([0], [], [0]);
    }

    method Reset()
      requires interval >= 1
      modifies this
      ensures Valid() && es == []
    {
      buffer, restarts, counter, lastKey := [], [0], 0, [];
      es, l := [], Layout([0], [], [0]);
    }

    method CurrentSizeEstimate() returns (n: nat)
      requires Valid()
      ensures n == |buffer| + 4 * |restarts| + 4
    {
      n := |buffer| + |restarts| * 4 + 4;
    }

    /** Append an entry whose key comes after every key so far; the block stays below 4 GB. */
    method Add(key: Bytes, value: Bytes)
      requires Valid() && Small(KV(key, value)) && |buffer| + |key| + |value| + 15 < 0x1_0000_0000
      requires forall i :: 0 <= i < |es| ==> less(es[i].key, key)
      modifies this
      ensures Valid() && es == old(es) + [KV(key, value)] && old(buffer) <= buffer
      ensures var restart := old(counter) >= interval;
              && restarts == (if restart then old(restarts) + [|old(buffer)|] else old(restarts))
              && counter == (if restart then 1 else old(counter) + 1)
              && exists n: nat :: CommonPrefix(old(lastKey), key, n) && buffer == old(buffer) + EntryBytes(if restart then 0 else n, KV(key, value))
    {
      hide EntryBytes, Built, Small;
      BuiltIs(less, interval, es, l, buffer, restarts, counter, lastKey);
      ghost var e, counter0, restarts0, last := KV(key, value), counter, restarts, lastKey;
      var shared := 0;
      ghost var common := PrefixOf(lastKey, key);
      if counter < interval {
        shared := SharedPrefix(lastKey, key);
        OnePrefix(lastKey, key, shared, common);
      } else {
        restarts := restarts + [|buffer|];
        counter := 0;
      }
      ghost var l' := AddKeeps(less, interval, es, l, buffer, restarts0, counter0, last, e, shared);
      AppendEntry(shared, key, value);
      lastKey := lastKey[..shared] + key[shared..];
      assert key == key[..shared] + key[shared..];
      counter := counter + 1;
      es, l := es + [e], l';
    }

    /** The length of the common prefix. */
    static method SharedPrefix(a: Bytes, b: Bytes) returns (n: nat)
      ensures CommonPrefix(a, b, n)
    {
      var minLength := if |a| < |b| then |a| else |b|;
      n := 0;
      while n < minLength && a[n] == b[n]
        invariant n <= minLength && a[..n] == b[..n]
      {
        n := n + 1;
      }
    }

    method AppendEntry(shared: nat, key: Bytes, value: Bytes)
      requires shared <= |key| && Small(KV(key, value))
      modifies this`buffer
      ensures buffer == old(buffer) + EntryBytes(shared, KV(key, value))
    {
      hide EncodeVarint;
      ghost var b0 := buffer;
      buffer := PutVarint32(buffer, shared);
      buffer := PutVarint32(buffer, |key| - shared);
      buffer := PutVarint32(buffer, |value|);
      buffer := buffer + key[shared..];
      buffer := buffer + value;
      assert buffer == b0 + EntryBytes(shared, KV(key, value));
    }

    method Finish() returns (b: Bytes)
      requires Valid()
      modifies this`buffer
      ensures old(RestartsOk()) && b == old(BlockBytes(buffer, restarts))
      ensures ReadsBlock(b, es, l) && |b| < 0x10_0000_0000
    {
      hide EncodeFixed32, Laid, Sorted, Spaced, ReadsBlock;
      ghost var data := buffer;
      RestartsFit();
      BlockReads(data, restarts, es, l);
      var i := 0;
      while i < |restarts|
        invariant i <= |restarts| && RestartsOk() && buffer == data + Fixed32s(restarts[..i])
      {
        assert restarts[..i + 1][..i] == restarts[..i];
        buffer := buffer + EncodeFixed32(restarts[i]);
        i := i + 1;
      }
      assert restarts[..i] == restarts;
      buffer := buffer + EncodeFixed32(|restarts|);
      b := buffer;
    }

    ghost predicate RestartsOk()
      reads this
    {
      (forall i :: 0 <= i < |restarts| ==> restarts[i] < 0x1_0000_0000) && |restarts| < 0x1_0000_0000
    }

    lemma RestartsFit()
      requires Valid()
      ensures RestartsOk()
    {
      hide EntryBytes;
      forall k | 0 <= k < |restarts| ensures restarts[k] < 0x1_0000_0000 {
        if l.starts[k] < |es| {
          OffsetsIncrease(es, l, buffer, l.starts[k], |es|);
        }
      }
    }
  }

  /** Every interval entries there is a restart point; counter entries follow the last one. */
  ghost predicate Spaced(es: seq<KV>, l: Layout, interval: nat, counter: nat) {
    && interval > 0 && |l.starts| > 0 && l.starts[|l.starts| - 1] <= |es|
    && counter == |es| - l.starts[|l.starts| - 1] <= interval
    && (forall k :: 0 < k < |l.starts| ==> l.starts[k] == l.starts[k - 1] + interval)
  }

  lemma SpacedSnoc(es: seq<KV>, l: Layout, interval: nat, counter: nat, data: Bytes, e: KV, l': Layout)
    requires Laid(es, l, data) && Spaced(es, l, interval, counter)
    requires l'.starts == if counter < interval then l.starts else l.starts + [|es|]
    ensures Spaced(es + [e], l', interval, if counter < interval then counter + 1 else 1)
  {
  }

  lemma RestartsSnoc(es: seq<KV>, l: Layout, data: Bytes, restarts: seq<nat>, e: KV, l': Layout)
    requires Laid(es, l, data) && Restarts(es, l, restarts) && Shape(es + [e], l')
    requires l.offs <= l'.offs && (l'.starts == l.starts || l'.starts == l.starts + [|es|])
    ensures Restarts(es + [e], l', if l'.starts == l.starts then restarts else restarts + [|data|])
  {
    hide EntryAt;
    assert forall i :: 0 <= i < |l.offs| ==> l'.offs[i] == l.offs[i];
  }

  lemma SortedSnoc(less: Order, es: seq<KV>, e: KV)
    requires Sorted(less, es) && forall i :: 0 <= i < |es| ==> less(es[i].key, e.key)
    ensures Sorted(less, es + [e])
  {
  }

  ghost predicate Restarts(es: seq<KV>, l: Layout, restarts: seq<nat>) {
    Shape(es, l) && |restarts| == |l.starts| && forall k :: 0 <= k < |restarts| ==> restarts[k] == RestartAt(es, l, k)
  }

  lemma LaidShape(es: seq<KV>, l: Layout, data: Bytes)
    requires Laid(es, l, data)
    ensures Shape(es, l) && l.offs[|es|] == |data|
  {
  }

  // ---------------------------------------------------------------------------------------
  // Reading a block

  function NumRestarts(b: Bytes): (n: uint32)
    requires |b| >= 4
  {
    DecodeFixed32(b[|b| - 4..])
  }

  /** The offset of the restart array, as the constructor of Block computes it; None when the size is too small. */
  function RestartOffset(b: Bytes): (r: Option<nat>) {
    if |b| < 8 then None
    else if 4 * (1 + NumRestarts(b)) > |b| then None
    else Some(|b| - 4 * (1 + NumRestarts(b)))
  }

  /** b is a block of the entries es laid out as l. */
  ghost predicate ReadsBlock(b: Bytes, es: seq<KV>, l: Layout) {
    && RestartOffset(b).Some?
    && var limit := RestartOffset(b).value;
       && limit <= |b|
       && Laid(es, l, b[..limit])
       && NumRestarts(b) == |l.starts| && |b| == limit + 4 * |l.starts| + 4
       && (forall k :: 0 <= k < |l.starts| ==> DecodeFixed32(b[limit + 4 * k..]) == RestartAt(es, l, k))
  }

  lemma BlockReads(data: Bytes, restarts: seq<nat>, es: seq<KV>, l: Layout)
    requires (forall i :: 0 <= i < |restarts| ==> restarts[i] < 0x1_0000_0000) && |restarts| < 0x1_0000_0000
    requires Laid(es, l, data) && Restarts(es, l, restarts)
    ensures ReadsBlock(BlockBytes(data, restarts), es, l)
  {
    hide EncodeFixed32, DecodeFixed32, EntryAt, Fixed32s, Laid;
    LaidShape(es, l, data);
    var b, count := BlockBytes(data, restarts), EncodeFixed32(|restarts|);
    assert b[|b| - 4..] == count && count == count + [];
    Fixed32RoundTrip(|restarts|, []);
    assert b[..|data|] == data;
    forall k | 0 <= k < |l.starts| ensures DecodeFixed32(b[|data| + 4 * k..]) == RestartAt(es, l, k) {
      Fixed32At(restarts, k, data, count);
    }
  }

  // ---------------------------------------------------------------------------------------
  // The iterator

  /** The index of the first entry at or after target, |es| when there is none. */
  predicate IsSeek(less: Order, es: seq<KV>, target: Bytes, i: nat) {
    && i <= |es|
    && (forall j :: 0 <= j < i ==> less(es[j].key, target))
    && (i < |es| ==> !less(es[i].key, target))
  }

  class Iter {
    const less: Order
    const b: Bytes
    const limit: nat
    const num: nat
    var current: nat
    var restartIndex: nat
    var key: Bytes
    var value: Bytes
    /** Where value ends in the block. */
    var valueEnd: nat
    var ok: bool
    ghost const es: seq<KV>
    ghost const l: Layout
    /** The cursor on the list of entries; |es| is past the end. */
    ghost var pos: nat

    ghost predicate Made() {
      ReadsBlock(b, es, l) && RestartOffset(b) == Some(limit) && num == |l.starts| && Transitive(less) && Sorted(less, es)
    }

    /** The restart point of the current entry: at or before it, and the next one not before it. */
    ghost predicate InRestart(i: nat)
      reads this
      requires Made() && i < |es|
    {
      restartIndex < num && l.starts[restartIndex] <= i && (restartIndex + 1 < num ==> i <= l.starts[restartIndex + 1])
    }

    ghost predicate Valid()
      reads this
    {
      && Made() && ok && pos <= |es|
      && if pos < |es| then
           current == l.offs[pos] && key == es[pos].key && value == es[pos].value && valueEnd == l.offs[pos + 1] && InRestart(pos)
         else current == limit && restartIndex == num
    }

    /** Ready to parse entry i next. */
    ghost predicate Ready(i: nat)
      reads this
    {
      && Made() && ok && i <= |es| && valueEnd == l.offs[i]
      && (i < |es| ==> restartIndex < num && l.starts[restartIndex] <= i)
      && (i < |es| ==> l.shared[i] <= |key| && l.shared[i] <= |es[i].key| && key[..l.shared[i]] == es[i].key[..l.shared[i]])
    }

    constructor (less: Order, b: Bytes, ghost es: seq<KV>, ghost l: Layout)
      requires ReadsBlock(b, es, l) && Transitive(less) && Sorted(less, es)
      ensures Valid() && pos == |es| && this.es == es && this.l == l && this.less == less
    {
      hide Laid;
      this.less, this.b, limit, num := less, b, |b| - 4 * (1 + NumRestarts(b)), NumRestarts(b);
      current, restartIndex := |b| - 4 * (1 + NumRestarts(b)), NumRestarts(b);
      key, value, valueEnd, ok := [], [], 0, true;
      this.es, this.l, pos := es, l, |es|;
    }

    predicate IsValid()
      reads this
    {
      current < limit
    }

    function GetRestartPoint(index: nat): (off: nat)
      requires limit + 4 * index + 4 <= |b|
    {
      DecodeFixed32(b[limit + 4 * index..])
    }

    lemma RestartIs(index: nat)
      requires Made() && index < num
      ensures limit + 4 * index + 4 <= |b| && l.starts[index] <= |es|
      ensures GetRestartPoint(index) == l.offs[l.starts[index]]
    {
      hide Laid, DecodeFixed32;
      LaidShape(es, l, b[..limit]);
      assert index > 0 ==> l.starts[index - 1] < l.starts[index];
      assert GetRestartPoint(index) == RestartAt(es, l, index);
    }

    lemma OffsetOrder(i: nat, j: nat)
      requires Made() && i <= |es| && j <= |es|
      ensures l.offs[i] < l.offs[j] <==> i < j
      ensures l.offs[|es|] == limit
    {
      hide DecodeFixed32, EntryAt;
      if i < j {
        OffsetsIncrease(es, l, b[..limit], i, j);
      } else if j < i {
        OffsetsIncrease(es, l, b[..limit], j, i);
      }
    }

    /** What DecodeEntry finds at entry i. */
    lemma Decodes(i: nat)
      requires Made() && i < |es|
      ensures l.offs[i] < l.offs[i + 1] <= limit <= |b| && l.shared[i] <= |es[i].key|
      ensures var u, v := |es[i].key| - l.shared[i], |es[i].value|;
              var at := l.offs[i + 1] - v - u;
              && 0 <= at && u < 0x1_0000_0000 && v < 0x1_0000_0000 && l.shared[i] < 0x1_0000_0000
              && DecodeEntry(b, l.offs[i], limit) == Some(Header(l.shared[i], u, v, at))
              && b[at..at + u] == es[i].key[l.shared[i]..] && b[at + u..at + u + v] == es[i].value
    {
      hide DecodeFixed32, EntryBytes, DecodeEntry;
      var data := b[..limit];
      assert EntryAt(es, l, data, i);
      OffsetsIncrease(es, l, data, i, i + 1);
      assert b[l.offs[i]..l.offs[i + 1]] == data[l.offs[i]..l.offs[i + 1]];
      EntryDecodes(b, l.offs[i], l.offs[i + 1], limit, l.shared[i], es[i]);
      EntryParts(b, l.offs[i], l.offs[i + 1], l.shared[i], es[i]);
    }

    method SeekToRestartPoint(index: nat)
      requires Made() && ok && index < num
      modifies this
      ensures restartIndex == index && Ready(l.starts[index])
    {
      hide Laid, GetRestartPoint;
      RestartIs(index);
      key, restartIndex := [], index;
      valueEnd, value := GetRestartPoint(index), [];
      StartShares(es, l, b[..limit], index);
    }

    method ParseNextKey(ghost i: nat) returns (more: bool)
      requires Ready(i)
      modifies this
      ensures Valid() && pos == i && (more <==> i < |es|)
    {
      hide ReadsBlock, GetRestartPoint, DecodeEntry, Sorted, Transitive;
      OffsetOrder(i, |es|);
      current, pos := valueEnd, i;
      if current >= limit {
        current, restartIndex := limit, num;
        return false;
      }
      Decodes(i);
      var h := DecodeEntry(b, current, limit);
      if h.None? || |key| < h.value.shared {
        assert false;
      }
      var (shared, u, v, at) := (h.value.shared, h.value.unshared, h.value.valueLength, h.value.at);
      key := key[..shared] + b[at..at + u];
      assert es[i].key == es[i].key[..shared] + es[i].key[shared..];
      value, valueEnd := b[at + u..at + u + v], at + u + v;
      AdvanceRestart(i);
      more := true;
    }

    method AdvanceRestart(ghost i: nat)
      requires Made() && i < |es| && current == l.offs[i] && restartIndex < num && l.starts[restartIndex] <= i
      modifies this`restartIndex
      ensures InRestart(i)
    {
      hide ReadsBlock, GetRestartPoint, Sorted, Transitive;
      while restartIndex + 1 < num && (RestartIs(restartIndex + 1); GetRestartPoint(restartIndex + 1) < current)
        invariant restartIndex < num && l.starts[restartIndex] <= i
      {
        RestartIs(restartIndex + 1);
        OffsetOrder(l.starts[restartIndex + 1], i);
        restartIndex := restartIndex + 1;
      }
      if restartIndex + 1 < num {
        RestartIs(restartIndex + 1);
        OffsetOrder(l.starts[restartIndex + 1], i);
      }
    }

    method Next()
      requires Valid() && IsValid()
      modifies this
      ensures Valid() && old(pos) < |es| && pos == old(pos) + 1
    {
      hide ReadsBlock, Sorted, Transitive;
      OffsetOrder(pos, |es|);
      NextReady();
      var _ := ParseNextKey(pos + 1);
    }

    /** After entry pos the next one is ready: it shares a prefix with the key just read. */
    lemma NextReady()
      requires Valid() && pos < |es|
      ensures Ready(pos + 1)
    {
      hide DecodeFixed32, EntryBytes, Sorted, Transitive;
      if pos + 1 < |es| {
        assert EntryAt(es, l, b[..limit], pos + 1);
      }
    }

    method SeekToFirst()
      requires Made() && ok
      modifies this
      ensures Valid() && pos == 0
    {
      hide ReadsBlock, Sorted, Transitive;
      FirstStart();
      SeekToRestartPoint(0);
      var _ := ParseNextKey(0);
    }

    lemma FirstStart()
      requires Made()
      ensures 0 < num && l.starts[0] == 0
    {
      hide DecodeFixed32, EntryAt;
    }

    method SeekToLast()
      requires Made() && ok
      modifies this
      ensures Valid() && pos == if |es| == 0 then 0 else |es| - 1
    {
      hide ReadsBlock, Sorted, Transitive;
      FirstStart();
      RestartIs(num - 1);
      LastStart();
      SeekToRestartPoint(num - 1);
      var more := ParseNextKey(l.starts[num - 1]);
      while more && valueEnd < limit
        invariant Valid() && (more <==> pos < |es|) && (|es| > 0 ==> pos < |es|)
        decreases |es| - pos
      {
        OffsetOrder(pos + 1, |es|);
        NextReady();
        more := ParseNextKey(pos + 1);
      }
      if more {
        OffsetOrder(pos + 1, |es|);
      }
    }

    lemma LastStart()
      requires Made()
      ensures num > 0 && l.starts[num - 1] <= |es| && (|es| > 0 ==> l.starts[num - 1] < |es|)
    {
      hide DecodeFixed32, EntryAt;
      LaidShape(es, l, b[..limit]);
      assert num > 1 ==> l.starts[num - 2] < l.starts[num - 1];
    }

    method Prev()
      requires Valid() && IsValid()
      modifies this
      ensures Valid() && old(pos) < |es| && pos == if old(pos) == 0 then |es| else old(pos) - 1
    {
      hide ReadsBlock, Sorted, Transitive, GetRestartPoint;
      OffsetOrder(pos, |es|);
      var original := current;
      ghost var i := pos;
      RestartIs(restartIndex);
      while GetRestartPoint(restartIndex) >= original
        invariant Made() && ok && restartIndex < num && limit + 4 * restartIndex + 4 <= |b|
        invariant restartIndex + 1 < num ==> i <= l.starts[restartIndex + 1]
        decreases restartIndex
      {
        RestartIs(restartIndex);
        OffsetOrder(l.starts[restartIndex], i);
        if restartIndex == 0 {
          FirstStart();
          current, restartIndex, pos := limit, num, |es|;
          return;
        }
        restartIndex := restartIndex - 1;
        RestartIs(restartIndex);
      }
      RestartIs(restartIndex);
      OffsetOrder(l.starts[restartIndex], i);
      SeekToRestartPoint(restartIndex);
      var more := ParseNextKey(l.starts[restartIndex]);
      while more && valueEnd < original
        invariant Valid() && more && pos < i < |es|
        decreases i - pos
      {
        OffsetOrder(pos + 1, i);
        NextReady();
        more := ParseNextKey(pos + 1);
      }
      OffsetOrder(pos + 1, i);
    }

    /** The key of a restart point, as the binary search reads it. */
    method RestartKey(index: nat) returns (midKey: Bytes)
      requires Made() && index < num && |es| > 0
      ensures l.starts[index] < |es| && midKey == es[l.starts[index]].key
    {
      hide ReadsBlock, Sorted, Transitive, GetRestartPoint, DecodeEntry;
      RestartIs(index);
      StartBefore(index);
      Decodes(l.starts[index]);
      var h := DecodeEntry(b, GetRestartPoint(index), limit);
      if h.None? || h.value.shared != 0 {
        assert false;
      }
      midKey := b[h.value.at..h.value.at + h.value.unshared];
    }

    lemma StartBefore(index: nat)
      requires Made() && index < num && |es| > 0
      ensures l.starts[index] < |es| && l.shared[l.starts[index]] == 0
    {
      hide DecodeFixed32, EntryAt;
      LaidShape(es, l, b[..limit]);
      assert index > 0 ==> l.starts[index - 1] < l.starts[index];
    }

    method Seek(target: Bytes)
      requires Made() && ok
      modifies this
      ensures Valid() && IsSeek(less, es, target, pos)
    {
      hide ReadsBlock, GetRestartPoint;
      FirstStart();
      var left, right := 0, num - 1;
      while left < right
        invariant ok && 0 <= left <= right < num
        invariant left > 0 ==> l.starts[left] < |es| && less(es[l.starts[left]].key, target)
      {
        var mid := (left + right + 1) / 2;
        NotEmpty(mid);
        var midKey := RestartKey(mid);
        if less(midKey, target) {
          left := mid;
        } else {
          right := mid - 1;
        }
      }
      RestartIs(left);
      SeekToRestartPoint(left);
      var more := ParseNextKey(l.starts[left]);
      BeforeSmaller(l.starts[left], target);
      while more && less(key, target)
        invariant Valid() && (more <==> pos < |es|)
        invariant forall j :: 0 <= j < pos ==> less(es[j].key, target)
        decreases |es| - pos
      {
        NextReady();
        more := ParseNextKey(pos + 1);
      }
    }

    /** Only an empty block has a restart point past its entries, and then just one. */
    lemma NotEmpty(index: nat)
      requires Made() && 0 < index < num
      ensures |es| > 0
    {
      hide DecodeFixed32, EntryAt;
      assert l.starts[index - 1] < l.starts[index];
    }

    /** Everything before a key below the target is below the target. */
    lemma BeforeSmaller(i: nat, target: Bytes)
      requires Made() && i <= |es| && (i == 0 || (i < |es| && less(es[i].key, target)))
      ensures forall j :: 0 <= j < i ==> less(es[j].key, target)
    {
      hide ReadsBlock;
      forall j | 0 <= j < i ensures less(es[j].key, target) {
        assert less(es[j].key, es[i].key) && less(es[i].key, target);
      }
    }
  }

  /** A restart point stores its whole key. */
  lemma StartShares(es: seq<KV>, l: Layout, data: Bytes, k: nat)
    requires Laid(es, l, data) && k < |l.starts|
    ensures l.starts[k] < |es| ==> l.shared[l.starts[k]] == 0
  {
    hide EntryAt;
  }

  /** The key of an entry is the shared prefix of the key before followed by the stored bytes. */
  lemma KeyOf(es: seq<KV>, l: Layout, data: Bytes, i: nat)
    requires Laid(es, l, data) && i < |es|
    ensures l.offs[i] < l.offs[i + 1] <= |data|
    ensures var h := DecodeEntry(data, l.offs[i], |data|);
            && h.Some? && h.value.at + h.value.unshared + h.value.valueLength == l.offs[i + 1]
            && es[i].value == data[h.value.at + h.value.unshared..l.offs[i + 1]]
            && h.value.shared <= |Previous(es, i)|
            && es[i].key == Previous(es, i)[..h.value.shared] + data[h.value.at..h.value.at + h.value.unshared]
  {
    hide EntryBytes, DecodeEntry, Laid;
    LaidAt(es, l, data, i);
    OffsetsIncrease(es, l, data, i, i + 1);
    var e, shared := es[i], l.shared[i];
    EntryDecodes(data, l.offs[i], l.offs[i + 1], |data|, shared, e);
    EntryParts(data, l.offs[i], l.offs[i + 1], shared, e);
    assert e.key == e.key[..shared] + e.key[shared..];
  }

  lemma LaidAt(es: seq<KV>, l: Layout, data: Bytes, i: nat)
    requires Laid(es, l, data) && i < |es|
    ensures Shape(es, l) && EntryAt(es, l, data, i)
  {
    hide EntryBytes;
  }

  function Previous(es: seq<KV>, i: nat): (key: Bytes)
    requires i <= |es|
  {
    if i == 0 then [] else es[i - 1].key
  }

  /** The bytes determine the entries. */
  lemma {:induction false} SameEntries(data: Bytes, es: seq<KV>, l: Layout, es': seq<KV>, l': Layout, i: nat)
    requires Laid(es, l, data) && Laid(es', l', data) && i <= |es|
    ensures i <= |es'| && l.offs[i] == l'.offs[i] && es[..i] == es'[..i]
    decreases i
  {
    hide EntryAt, DecodeEntry;
    if i > 0 {
      var n := i - 1;
      SameEntries(data, es, l, es', l', n);
      KeyOf(es, l, data, n);
      if n < |es'| {
        KeyOf(es', l', data, n);
        assert n > 0 ==> es[..n][n - 1] == es'[..n][n - 1];
        assert Previous(es, n) == Previous(es', n);
        assert es[n] == es'[n];
      }
    }
  }

  /** A block's bytes are the bytes of one list of entries only. */
  lemma Unambiguous(b: Bytes, es: seq<KV>, l: Layout, es': seq<KV>, l': Layout)
    requires ReadsBlock(b, es, l) && ReadsBlock(b, es', l')
    ensures es == es'
  {
    hide Laid, DecodeFixed32;
    var data := b[..RestartOffset(b).value];
    SameEntries(data, es, l, es', l', |es|);
    SameEntries(data, es', l', es, l, |es'|);
    assert es == es[..|es|] && es' == es'[..|es'|];
  }

  /** Reading a finished block from first to last gives back the entries that were added, in order. */
  method ReadEntries(less: Order, b: Bytes, ghost es: seq<KV>, ghost l: Layout) returns (out: seq<KV>)
    requires ReadsBlock(b, es, l) && Transitive(less) && Sorted(less, es)
    ensures out == es
  {
    hide ReadsBlock, Sorted, Transitive;
    var it := new Iter(less, b, es, l);
    it.SeekToFirst();
    out := [];
    it.OffsetOrder(it.pos, |es|);
    while it.IsValid()
      invariant fresh(it) && it.es == es && it.Valid() && out == es[..it.pos]
      invariant it.IsValid() <==> it.pos < |es|
      decreases |es| - it.pos
    {
      out := out + [KV(it.key, it.value)];
      it.Next();
      it.OffsetOrder(it.pos, |es|);
    }
  }
}
