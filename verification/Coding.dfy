/**
 * Integer and string encodings (util/coding.cc, util/coding.h) and the checksum (util/crc32c.h,
 * util/crc32c.cc).  Widths are explicit: a uint32 is below 2^32 and a uint64 below 2^64.
 */
module Coding {
  import opened Basics

  type uint32 = x: int | 0 <= x < 0x1_0000_0000
  type uint64 = x: int | 0 <= x < 0x1_0000_0000_0000_0000

  // ---------------------------------------------------------------------------------------
  // Fixed width, little endian

  function EncodeFixed32(v: uint32): (b: Bytes)
    ensures |b| == 4
  {
    [v % 256, v / 256 % 256, v / 65536 % 256, v / 16777216]
  }

  function DecodeFixed32(b: Bytes): (v: uint32)
    requires |b| >= 4
  {
    b[0] as int + 256 * (b[1] as int) + 65536 * (b[2] as int) + 16777216 * (b[3] as int)
  }

  lemma Fixed32RoundTrip(v: uint32, tail: Bytes)
    ensures DecodeFixed32(EncodeFixed32(v) + tail) == v
  {
    var b := EncodeFixed32(v) + tail;
    var v1, v2, v3 := v / 256, v / 65536, v / 16777216;
    assert b[0] == v % 256 && b[1] == v1 % 256 && b[2] == v2 % 256 && b[3] == v3;
    assert v == 256 * v1 + v % 256 && v1 == 256 * v2 + v1 % 256 && v2 == 256 * v3 + v2 % 256;
  }

  /** Four bytes are the encoding of the number they stand for. */
  lemma Fixed32Inverse(b: Bytes)
    requires |b| >= 4
    ensures EncodeFixed32(DecodeFixed32(b)) == b[..4]
  {
    var b0, b1, b2, b3 := b[0] as int, b[1] as int, b[2] as int, b[3] as int;
    var v3 := b3;
    var v2 := b2 + 256 * v3;
    var v1 := b1 + 256 * v2;
    var v := b0 + 256 * v1;
    assert DecodeFixed32(b) == v;
    LowByte(b0, v1);
    LowByte(b1, v2);
    LowByte(b2, v3);
    assert v / 65536 == v1 / 256 && v / 16777216 == v2 / 256;
  }

  lemma LowByte(lo: nat, high: nat)
    requires lo < 256
    ensures (lo + 256 * high) / 256 == high && (lo + 256 * high) % 256 == lo
  {
  }

  /** An array of fixed32 numbers. */
  function Fixed32s(ns: seq<nat>): (b: Bytes)
    requires forall i :: 0 <= i < |ns| ==> ns[i] < 0x1_0000_0000
    ensures |b| == 4 * |ns|
  {
    if |ns| == 0 then [] else Fixed32s(ns[..|ns| - 1]) + EncodeFixed32(ns[|ns| - 1])
  }

  lemma {:induction false} Fixed32At(ns: seq<nat>, k: nat, a: Bytes, tail: Bytes)
    requires (forall i :: 0 <= i < |ns| ==> ns[i] < 0x1_0000_0000) && k < |ns|
    ensures var b := a + Fixed32s(ns) + tail;
            |a| + 4 * k + 4 <= |b| && DecodeFixed32(b[|a| + 4 * k..]) == ns[k]
    decreases |ns|
  {
    hide EncodeFixed32, DecodeFixed32;
    var n := |ns| - 1;
    var init, last := Fixed32s(ns[..n]), EncodeFixed32(ns[n]);
    assert a + Fixed32s(ns) + tail == a + init + (last + tail);
    if k < n {
      Fixed32At(ns[..n], k, a, last + tail);
    } else {
      assert (a + init + (last + tail))[|a| + 4 * n..] == last + tail;
      Fixed32RoundTrip(ns[n], tail);
    }
  }

  function EncodeFixed64(v: uint64): (b: Bytes)
    ensures |b| == 8
  {
    EncodeFixed32(v % 0x1_0000_0000) + EncodeFixed32(v / 0x1_0000_0000)
  }

  function DecodeFixed64(b: Bytes): (v: uint64)
    requires |b| >= 8
  {
    DecodeFixed32(b) + 0x1_0000_0000 * DecodeFixed32(b[4..])
  }

  lemma Fixed64RoundTrip(v: uint64, tail: Bytes)
    ensures DecodeFixed64(EncodeFixed64(v) + tail) == v
  {
    var lo, hi := EncodeFixed32(v % 0x1_0000_0000), EncodeFixed32(v / 0x1_0000_0000);
    assert EncodeFixed64(v) + tail == lo + (hi + tail);
    assert (lo + (hi + tail))[4..] == hi + tail;
    Fixed32RoundTrip(v % 0x1_0000_0000, hi + tail);
    Fixed32RoundTrip(v / 0x1_0000_0000, tail);
  }

  lemma Fixed64Inverse(b: Bytes)
    requires |b| >= 8
    ensures EncodeFixed64(DecodeFixed64(b)) == b[..8]
  {
    hide EncodeFixed32, DecodeFixed32;
    var lo, hi := DecodeFixed32(b), DecodeFixed32(b[4..]);
    Fixed32Inverse(b);
    Fixed32Inverse(b[4..]);
    var v := DecodeFixed64(b);
    assert v % 0x1_0000_0000 == lo && v / 0x1_0000_0000 == hi;
    assert b[..8] == b[..4] + b[4..][..4];
  }

  // ---------------------------------------------------------------------------------------
  // Varints

  /** EncodeVarint64: seven bits per byte, low bits first, high bit set on all but the last byte. */
  function EncodeVarint(v: nat): (b: Bytes)
    ensures |b| > 0
  {
    if v < 128 then [v] else [v % 128 + 128] + EncodeVarint(v / 128)
  }

  /** EncodeVarint32 is unrolled in the source; each byte is cut to eight bits when it is stored. */
  method PutVarint32(dst: Bytes, v: uint32) returns (dst': Bytes)
    ensures dst' == dst + EncodeVarint(v)
  {
    if v < 0x80 {
      dst' := dst + [v];
      return;
    }
    var v1 := v / 0x80;
    if v < 0x4000 {
      dst' := dst + [v % 128 + 128, v1];
      return;
    }
    var v2 := v / 0x4000;
    assert v2 == v1 / 128;
    assert EncodeVarint(v) == [v % 128 + 128, v1 % 128 + 128] + EncodeVarint(v2);
    if v < 0x20_0000 {
      dst' := dst + [v % 128 + 128, v1 % 128 + 128, v2];
      return;
    }
    var v3 := v / 0x20_0000;
    assert v3 == v2 / 128;
    if v < 0x1000_0000 {
      dst' := dst + [v % 128 + 128, v1 % 128 + 128, v2 % 128 + 128, v3];
      return;
    }
    var v4 := v / 0x1000_0000;
    assert v4 == v3 / 128;
    assert EncodeVarint(v2) == [v2 % 128 + 128, v3 % 128 + 128] + EncodeVarint(v4);
    dst' := dst + [v % 128 + 128, v1 % 128 + 128, v2 % 128 + 128, v3 % 128 + 128, v4];
  }

  /** The loop of EncodeVarint64. */
  method PutVarint64(dst: Bytes, v: uint64) returns (dst': Bytes)
    ensures dst' == dst + EncodeVarint(v)
  {
    dst' := dst;
    var left: nat := v;
    while left >= 128
      invariant dst' + EncodeVarint(left) == dst + EncodeVarint(v)
    {
      assert dst' + EncodeVarint(left) == dst' + [left % 128 + 128] + EncodeVarint(left / 128);
      dst' := dst' + [left % 128 + 128];
      left := left / 128;
    }
    dst' := dst' + [left];
  }

  function Pow128(n: nat): (p: nat)
    ensures p >= 1
  {
    if n == 0 then 1 else 128 * Pow128(n - 1)
  }

  lemma {:induction false} VarintLength(v: nat, n: nat)
    requires v < Pow128(n) && 0 < n
    ensures |EncodeVarint(v)| <= n
  {
    if v >= 128 {
      VarintLength(v / 128, n - 1);
    }
  }

  /** The number read from at most n bytes of b, and the number of bytes used. */
  function ReadVarint(b: Bytes, n: nat): (r: Option<(nat, nat)>)
    ensures r.Some? ==> 1 <= r.value.1 <= |b| && r.value.1 <= n && r.value.0 < Pow128(n)
  {
    if n == 0 || |b| == 0 then None
    else if b[0] < 128 then Some((b[0], 1))
    else
      var rest := ReadVarint(b[1..], n - 1);
      if rest.None? then None else Some((b[0] - 128 + 128 * rest.value.0, rest.value.1 + 1))
  }

  /** GetVarint32Ptr: at most five bytes, the sum cut to 32 bits. */
  function GetVarint32(b: Bytes): (r: Option<(uint32, Bytes)>)
    ensures r.Some? ==> |r.value.1| < |b|
  {
    var r := ReadVarint(b, 5);
    if r.None? then None else Some((r.value.0 % 0x1_0000_0000, b[r.value.1..]))
  }

  /** GetVarint64Ptr: at most ten bytes, the sum cut to 64 bits. */
  function GetVarint64(b: Bytes): (r: Option<(uint64, Bytes)>)
    ensures r.Some? ==> |r.value.1| < |b|
  {
    var r := ReadVarint(b, 10);
    if r.None? then None else Some((r.value.0 % 0x1_0000_0000_0000_0000, b[r.value.1..]))
  }

  lemma {:induction false} ReadsVarint(v: nat, n: nat, tail: Bytes)
    requires 0 < n && v < Pow128(n)
    ensures ReadVarint(EncodeVarint(v) + tail, n) == Some((v, |EncodeVarint(v)|))
  {
    var b := EncodeVarint(v) + tail;
    if v >= 128 {
      assert b == [v % 128 + 128] + (EncodeVarint(v / 128) + tail);
      assert b[1..] == EncodeVarint(v / 128) + tail;
      ReadsVarint(v / 128, n - 1, tail);
    }
  }

  lemma Varint32RoundTrip(v: uint32, tail: Bytes)
    ensures GetVarint32(EncodeVarint(v) + tail) == Some((v, tail))
  {
    assert Pow128(5) == 0x8_0000_0000 by { Powers(); }
    ReadsVarint(v, 5, tail);
    assert (EncodeVarint(v) + tail)[|EncodeVarint(v)|..] == tail;
  }

  lemma Varint64RoundTrip(v: uint64, tail: Bytes)
    ensures GetVarint64(EncodeVarint(v) + tail) == Some((v, tail))
  {
    assert Pow128(10) == 0x40_0000_0000_0000_0000 by { Powers(); }
    ReadsVarint(v, 10, tail);
    assert (EncodeVarint(v) + tail)[|EncodeVarint(v)|..] == tail;
  }

  lemma Powers()
    ensures Pow128(5) == 0x8_0000_0000 && Pow128(10) == 0x40_0000_0000_0000_0000
  {
    assert Pow128(2) == 16384 && Pow128(4) == 0x1000_0000;
    assert Pow128(6) == 0x400_0000_0000 && Pow128(8) == 0x100_0000_0000_0000;
  }

  /** The first byte without the high bit is the k-th. */
  predicate EndsAt(b: Bytes, k: nat) {
    0 < k <= |b| && b[k - 1] < 128 && forall i :: 0 <= i < k - 1 ==> b[i] >= 128
  }

  /** The number that the first k bytes stand for: seven bits each, low bits first. */
  function Digits(b: Bytes, k: nat): (v: nat)
    requires k <= |b|
  {
    if k == 0 then 0 else Digits(b, k - 1) + b[k - 1] as int % 128 * Pow128(k - 1)
  }

  lemma {:induction false} DigitsFront(b: Bytes, k: nat)
    requires 0 < k <= |b|
    ensures Digits(b, k) == b[0] as int % 128 + 128 * Digits(b[1..], k - 1)
  {
    if k > 1 {
      DigitsFront(b, k - 1);
      var d, p := b[k - 1] as int % 128, Pow128(k - 2);
      assert b[1..][k - 2] == b[k - 1];
      assert d * (128 * p) == 128 * (d * p);
    }
  }

  /** On any bytes: a varint is read if one ends within n bytes, and then it is the number those bytes stand for. */
  lemma {:induction false} VarintExact(b: Bytes, n: nat)
    ensures match ReadVarint(b, n)
            case None => forall k: nat :: EndsAt(b, k) ==> k > n
            case Some(r) => EndsAt(b, r.1) && r.1 <= n && r.0 == Digits(b, r.1)
  {
    hide Digits, Pow128;
    if n > 0 && |b| > 0 {
      NoDigits(b[1..]);
      if b[0] < 128 {
        DigitsFront(b, 1);
      } else {
        VarintExact(b[1..], n - 1);
        VarintStep(b, n);
      }
    }
  }

  lemma NoDigits(b: Bytes)
    ensures Digits(b, 0) == 0
  {
  }

  lemma VarintStep(b: Bytes, n: nat)
    requires n > 0 && |b| > 0 && b[0] >= 128
    requires match ReadVarint(b[1..], n - 1)
             case None => forall k: nat :: EndsAt(b[1..], k) ==> k > n - 1
             case Some(r) => EndsAt(b[1..], r.1) && r.1 <= n - 1 && r.0 == Digits(b[1..], r.1)
    ensures match ReadVarint(b, n)
            case None => forall k: nat :: EndsAt(b, k) ==> k > n
            case Some(r) => EndsAt(b, r.1) && r.1 <= n && r.0 == Digits(b, r.1)
  {
    hide Digits, Pow128;
    var rest := ReadVarint(b[1..], n - 1);
    if rest.None? {
      forall k: nat | EndsAt(b, k) ensures k > n {
        assert EndsAt(b[1..], k - 1);
      }
    } else {
      var k := rest.value.1 + 1;
      DigitsFront(b, k);
      assert b[k - 1] == b[1..][k - 2] && forall i :: 0 < i < k - 1 ==> b[i] == b[1..][i - 1];
    }
  }

  lemma EndsOnce(b: Bytes, k: nat, k': nat)
    requires EndsAt(b, k) && EndsAt(b, k')
    ensures k == k'
  {
  }

  /** b starts with a varint of at most n bytes, in any encoding; v is its value. */
  ghost predicate IsVarint(b: Bytes, n: nat, v: nat, rest: Bytes) {
    exists k: nat :: EndsAt(b, k) && k <= n && v == Digits(b, k) && rest == b[k..]
  }

  ghost predicate IsNumber32(b: Bytes, v: uint32, rest: Bytes) {
    exists d: nat :: IsVarint(b, 5, d, rest) && v == d % 0x1_0000_0000
  }

  ghost predicate IsNumber64(b: Bytes, v: uint64, rest: Bytes) {
    exists d: nat :: IsVarint(b, 10, d, rest) && v == d % 0x1_0000_0000_0000_0000
  }

  lemma VarintRead(b: Bytes, n: nat, v: nat, rest: Bytes)
    ensures IsVarint(b, n, v, rest) <==> ReadVarint(b, n).Some? && v == ReadVarint(b, n).value.0 && rest == b[ReadVarint(b, n).value.1..]
  {
    hide ReadVarint, Digits, EndsAt;
    VarintExact(b, n);
    var r := ReadVarint(b, n);
    forall k: nat | EndsAt(b, k) && r.Some? ensures k == r.value.1 {
      EndsOnce(b, k, r.value.1);
    }
  }

  /** On any bytes: a number is read exactly when there is one. */
  lemma Number32Exact(b: Bytes, v: uint32, rest: Bytes)
    ensures GetVarint32(b) == Some((v, rest)) <==> IsNumber32(b, v, rest)
  {
    hide ReadVarint, IsVarint;
    var r := ReadVarint(b, 5);
    if r.Some? {
      VarintRead(b, 5, r.value.0, rest);
    }
    if IsNumber32(b, v, rest) {
      var d: nat :| IsVarint(b, 5, d, rest) && v == d % 0x1_0000_0000;
      VarintRead(b, 5, d, rest);
    }
  }

  lemma Number64Exact(b: Bytes, v: uint64, rest: Bytes)
    ensures GetVarint64(b) == Some((v, rest)) <==> IsNumber64(b, v, rest)
  {
    hide ReadVarint, IsVarint;
    var r := ReadVarint(b, 10);
    if r.Some? {
      VarintRead(b, 10, r.value.0, rest);
    }
    if IsNumber64(b, v, rest) {
      var d: nat :| IsVarint(b, 10, d, rest) && v == d % 0x1_0000_0000_0000_0000;
      VarintRead(b, 10, d, rest);
    }
  }

  // ---------------------------------------------------------------------------------------
  // Length-prefixed strings

  function LengthPrefixed(s: Bytes): (b: Bytes) {
    EncodeVarint(|s|) + s
  }

  function GetLengthPrefixed(b: Bytes): (r: Option<(Bytes, Bytes)>)
    ensures r.Some? ==> |r.value.1| < |b|
  {
    var r := GetVarint32(b);
    if r.None? || |r.value.1| < r.value.0 then None
    else Some((r.value.1[..r.value.0], r.value.1[r.value.0..]))
  }

  lemma LengthPrefixedRoundTrip(s: Bytes, tail: Bytes)
    requires |s| < 0x1_0000_0000
    ensures GetLengthPrefixed(LengthPrefixed(s) + tail) == Some((s, tail))
  {
    assert LengthPrefixed(s) + tail == EncodeVarint(|s|) + (s + tail);
    Varint32RoundTrip(|s|, s + tail);
    assert (s + tail)[..|s|] == s && (s + tail)[|s|..] == tail;
  }

  /** b is a length of at most five bytes, as many bytes as it says, and the rest. */
  ghost predicate IsSlice(b: Bytes, s: Bytes, rest: Bytes) {
    exists k: nat :: EndsAt(b, k) && k <= 5 && |s| == Digits(b, k) % 0x1_0000_0000 && b == b[..k] + s + rest
  }

  /** On any bytes: a slice is read exactly when there is one. */
  lemma SliceExact(b: Bytes, s: Bytes, rest: Bytes)
    ensures GetLengthPrefixed(b) == Some((s, rest)) <==> IsSlice(b, s, rest)
  {
    hide ReadVarint, Digits, EndsAt;
    VarintExact(b, 5);
    var r := ReadVarint(b, 5);
    if r.Some? {
      var k, n := r.value.1, r.value.0 % 0x1_0000_0000;
      forall k': nat | EndsAt(b, k') ensures k' == k {
        EndsOnce(b, k, k');
      }
      if IsSlice(b, s, rest) {
        assert b[k..] == s + rest;
      }
      if GetLengthPrefixed(b) == Some((s, rest)) {
        assert b == b[..k] + s + rest;
      }
    }
  }

  // ---------------------------------------------------------------------------------------
  // Checksums

  /** One table step of the checksum; which table it is does not matter to the callers. */
  type CrcStep = (uint32, byte) -> uint32

  function Fold(step: CrcStep, l: uint32, data: Bytes): (l': uint32)
    decreases |data|
  {
    if |data| == 0 then l else Fold(step, step(l, data[0]), data[1..])
  }

  /** crc32c::Extend: the running value is kept complemented. */
  function Extend(step: CrcStep, crc: uint32, data: Bytes): (c: uint32) {
    0xFFFF_FFFF - Fold(step, 0xFFFF_FFFF - crc, data)
  }

  function Crc(step: CrcStep, data: Bytes): (c: uint32) {
    Extend(step, 0, data)
  }

  lemma {:induction false} FoldConcat(step: CrcStep, l: uint32, a: Bytes, b: Bytes)
    ensures Fold(step, l, a + b) == Fold(step, Fold(step, l, a), b)
    decreases |a|
  {
    if |a| == 0 {
      assert a + b == b;
    } else {
      assert (a + b)[1..] == a[1..] + b;
      FoldConcat(step, step(l, a[0]), a[1..], b);
    }
  }

  /** Extending the checksum of a by b gives the checksum of a followed by b. */
  lemma ExtendIsCrc(step: CrcStep, a: Bytes, b: Bytes)
    ensures Extend(step, Crc(step, a), b) == Crc(step, a + b)
  {
    FoldConcat(step, 0xFFFF_FFFF, a, b);
  }

  const MASK_DELTA := 0xA282_EAD8

  /** What is stored in files in place of the checksum: its 32 bits turned by 15 places, plus MASK_DELTA. */
  function Mask(crc: uint32): (m: uint32) {
    (crc / 0x8000 + crc % 0x8000 * 0x2_0000 + MASK_DELTA) % 0x1_0000_0000
  }

  function Unmask(m: uint32): (crc: uint32) {
    var rot := (m - MASK_DELTA) % 0x1_0000_0000;
    rot / 0x2_0000 + rot % 0x2_0000 * 0x8000
  }

  lemma UnmaskMask(crc: uint32)
    ensures Unmask(Mask(crc)) == crc
  {
    var high, low := crc / 0x8000, crc % 0x8000;
    var rot := high + low * 0x2_0000;
    assert 0 <= rot < 0x1_0000_0000;
    assert (Mask(crc) - MASK_DELTA) % 0x1_0000_0000 == rot;
    assert rot / 0x2_0000 == low && rot % 0x2_0000 == high;
  }

  lemma MaskUnmask(m: uint32)
    ensures Mask(Unmask(m)) == m
  {
    var rot := (m - MASK_DELTA) % 0x1_0000_0000;
    var high, low := rot / 0x2_0000, rot % 0x2_0000;
    var crc := high + low * 0x8000;
    assert crc / 0x8000 == low && crc % 0x8000 == high;
    assert low + high * 0x2_0000 == rot;
  }

  /** A stored checksum is accepted exactly when it is the masked checksum. */
  lemma MaskedExact(b: Bytes, crc: uint32)
    requires |b| >= 4
    ensures Unmask(DecodeFixed32(b)) == crc <==> b[..4] == EncodeFixed32(Mask(crc))
  {
    hide Mask, Unmask, EncodeFixed32, DecodeFixed32;
    UnmaskMask(crc);
    MaskUnmask(DecodeFixed32(b));
    Fixed32Inverse(b);
    if b[..4] == EncodeFixed32(Mask(crc)) {
      assert b == EncodeFixed32(Mask(crc)) + b[4..];
      Fixed32RoundTrip(Mask(crc), b[4..]);
    }
  }
}
