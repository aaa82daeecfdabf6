/**
 * Bloom filters (util/bloom.cc).  The hash of a key is left open: the filter only needs it to be a function.
 */
module Bloom {
  import opened Basics
  import opened Coding

  // ---------------------------------------------------------------------------------------
  // Bits

  predicate Bit(b: nat, k: nat)
    decreases k
  {
    if k == 0 then b % 2 == 1 else Bit(b / 2, k - 1)
  }

  /** b | (1 << k) */
  function SetBit(b: nat, k: nat): (r: nat)
    decreases k
  {
    if k == 0 then b / 2 * 2 + 1 else b % 2 + 2 * SetBit(b / 2, k - 1)
  }

  function Pow2(n: nat): (p: nat)
    ensures p > 0
  {
    if n == 0 then 1 else 2 * Pow2(n - 1)
  }

  /** Setting bit k sets that bit and no other. */
  lemma {:induction false} SetBitSets(b: nat, k: nat, j: nat)
    ensures Bit(SetBit(b, k), j) <==> j == k || Bit(b, j)
    decreases k + j
  {
    var r := SetBit(b, k);
    if k == 0 {
      assert r / 2 == b / 2;
    } else {
      assert r / 2 == SetBit(b / 2, k - 1) && r % 2 == b % 2;
      if j > 0 {
        SetBitSets(b / 2, k - 1, j - 1);
      }
    }
  }

  lemma {:induction false} SetBitFits(b: nat, k: nat, n: nat)
    requires b < Pow2(n) && k < n
    ensures SetBit(b, k) < Pow2(n)
    decreases k
  {
    if k > 0 {
      SetBitFits(b / 2, k - 1, n - 1);
    }
  }

  lemma {:induction false} NoBits(k: nat)
    ensures !Bit(0, k)
  {
    if k > 0 {
      NoBits(k - 1);
    }
  }

  predicate BitAt(bs: Bytes, p: nat)
    requires p < 8 * |bs|
  {
    Bit(bs[p / 8], p % 8)
  }

  // ---------------------------------------------------------------------------------------
  // Probes

  /** k probes per key, bitsPerKey bits of filter per key. */
  datatype Policy = Policy(bitsPerKey: nat, k: nat, hash: Bytes -> uint32)

  predicate PolicyOk(p: Policy) {
    1 <= p.k <= 30
  }

  /** The second hash is the first rotated right by 17 bits. */
  function Delta(h: uint32): (d: uint32) {
    h / 0x2_0000 + h % 0x2_0000 * 0x8000
  }

  /** The hash value of probe j. */
  function ProbeHash(h: uint32, j: nat): (v: uint32) {
    if j == 0 then h else (ProbeHash(h, j - 1) + Delta(h)) % 0x1_0000_0000
  }

  /** Double hashing: probe j is j steps of the second hash past the first. */
  lemma {:induction false} ProbeIs(h: uint32, j: nat)
    ensures ProbeHash(h, j) == (h + j * Delta(h)) % 0x1_0000_0000
  {
    hide Delta;
    if j > 0 {
      ProbeIs(h, j - 1);
      WrapsOnce(h + (j - 1) * Delta(h), Delta(h));
      assert (j - 1) * Delta(h) + Delta(h) == j * Delta(h);
    }
  }

  lemma WrapsOnce(x: nat, d: nat)
    ensures (x % 0x1_0000_0000 + d) % 0x1_0000_0000 == (x + d) % 0x1_0000_0000
  {
  }

  lemma {:induction false} BitOfSum(lo: nat, y: nat, n: nat, b: nat)
    requires lo < Pow2(n)
    ensures Bit(lo + y * Pow2(n), b) <==> if b < n then Bit(lo, b) else Bit(y, b - n)
    decreases n
  {
    var x := lo + y * Pow2(n);
    if n > 0 {
      var half := y * Pow2(n - 1);
      assert y * Pow2(n) == 2 * half;
      assert x % 2 == lo % 2 && x / 2 == lo / 2 + half;
      if b > 0 {
        BitOfSum(lo / 2, y, n - 1, b - 1);
      }
    }
  }

  /** The second hash is the first rotated right by 17 of its 32 bits. */
  lemma Rotates(h: uint32, b: nat)
    requires b < 32
    ensures Bit(Delta(h), b) <==> Bit(h, (b + 17) % 32)
  {
    hide Bit, Pow2;
    assert Pow2(17) == 0x2_0000 && Pow2(15) == 0x8000 by { SomePowers(); }
    var hi, lo := h / 0x2_0000, h % 0x2_0000;
    assert h == lo + hi * 0x2_0000;
    BitOfSum(hi, lo, 15, b);
    BitOfSum(lo, hi, 17, (b + 17) % 32);
  }

  lemma SomePowers()
    ensures Pow2(17) == 0x2_0000 && Pow2(15) == 0x8000
  {
    assert Pow2(4) == 16;
    assert Pow2(8) == 256;
    assert Pow2(12) == 4096;
    assert Pow2(15) == 0x8000;
  }

  function Probe(policy: Policy, key: Bytes, j: nat, bits: nat): (p: nat)
    requires bits > 0
    ensures p < bits
  {
    ProbeHash(policy.hash(key), j) % bits
  }

  /** Position p is one of the first k probes of the key. */
  ghost predicate Hits(policy: Policy, key: Bytes, k: nat, bits: nat, p: nat)
    requires bits > 0
  {
    exists j :: 0 <= j < k && Probe(policy, key, j, bits) == p
  }

  ghost predicate SomeHits(policy: Policy, keys: seq<Bytes>, bits: nat, p: nat)
    requires bits > 0
  {
    exists i :: 0 <= i < |keys| && Hits(policy, keys[i], policy.k, bits, p)
  }

  function FilterBytes(policy: Policy, n: nat): (bytes: nat)
    ensures bytes >= 8
  {
    var bits := n * policy.bitsPerKey;
    ((if bits < 64 then 64 else bits) + 7) / 8
  }

  /** f is the filter of the keys: a bit is set exactly when some probe of some key hits it. */
  ghost predicate IsFilter(policy: Policy, keys: seq<Bytes>, f: Bytes) {
    && |f| == FilterBytes(policy, |keys|) + 1
    && f[|f| - 1] == policy.k
    && ExactBits(policy, keys, f[..|f| - 1], 8 * (|f| - 1))
  }

  ghost predicate ExactBits(policy: Policy, keys: seq<Bytes>, bs: Bytes, bits: nat)
    requires 0 < bits == 8 * |bs|
  {
    forall p :: 0 <= p < bits ==> (BitAt(bs, p) <==> SomeHits(policy, keys, bits, p))
  }

  /** KeyMayMatch: all probes of the key are set; the number of probes is read from the filter. */
  predicate MayMatch(policy: Policy, key: Bytes, f: Bytes) {
    var len := |f|;
    len >= 2 && (f[len - 1] > 30 || AllProbes(policy, key, f[len - 1], f[..len - 1], 8 * (len - 1)))
  }

  predicate AllProbes(policy: Policy, key: Bytes, k: nat, bs: Bytes, bits: nat)
    requires 0 < bits == 8 * |bs|
  {
    forall j :: 0 <= j < k ==> BitAt(bs, Probe(policy, key, j, bits))
  }

  /** A filter matches every key it was made of. */
  lemma FilterMatches(policy: Policy, keys: seq<Bytes>, f: Bytes, i: nat)
    requires IsFilter(policy, keys, f) && i < |keys|
    ensures MayMatch(policy, keys[i], f)
  {
    hide ProbeHash, FilterBytes, BitAt;
    var bits := 8 * (|f| - 1);
    forall j | 0 <= j < policy.k ensures BitAt(f[..|f| - 1], Probe(policy, keys[i], j, bits)) {
      var p := Probe(policy, keys[i], j, bits);
      assert Hits(policy, keys[i], policy.k, bits, p);
    }
  }

  /** Every probe of the key is a probe of one of the keys, in a filter of the size that the keys need. */
  ghost predicate Collides(policy: Policy, keys: seq<Bytes>, key: Bytes) {
    var bits := 8 * FilterBytes(policy, |keys|);
    forall j :: 0 <= j < policy.k ==> SomeHits(policy, keys, bits, Probe(policy, key, j, bits))
  }

  /** A filter excludes exactly the keys with a probe that no key of the filter has. */
  lemma MatchExact(policy: Policy, keys: seq<Bytes>, f: Bytes, key: Bytes)
    requires PolicyOk(policy) && IsFilter(policy, keys, f)
    ensures MayMatch(policy, key, f) <==> Collides(policy, keys, key)
  {
    hide ProbeHash, FilterBytes, BitAt, SomeHits;
    var bits := 8 * (|f| - 1);
    forall j | 0 <= j < policy.k ensures BitAt(f[..|f| - 1], Probe(policy, key, j, bits)) <==> SomeHits(policy, keys, bits, Probe(policy, key, j, bits)) {
    }
  }

  /** Whether a key matches depends on its hash alone. */
  lemma SameHash(policy: Policy, key: Bytes, key': Bytes, f: Bytes)
    requires policy.hash(key) == policy.hash(key')
    ensures MayMatch(policy, key, f) <==> MayMatch(policy, key', f)
  {
    hide ProbeHash, BitAt;
    if |f| >= 2 {
      var bits := 8 * (|f| - 1);
      assert forall j :: 0 <= j ==> Probe(policy, key, j, bits) == Probe(policy, key', j, bits);
    }
  }

  // ---------------------------------------------------------------------------------------
  // The loops

  /** Set bit p of the array. */
  method SetBitAt(a: array<byte>, p: nat)
    requires p < 8 * a.Length
    modifies a
    ensures forall q :: 0 <= q < 8 * a.Length ==> (BitAt(a[..], q) <==> q == p || old(BitAt(a[..], q)))
  {
    hide Bit, SetBit, Pow2;
    var i, k := p / 8, p % 8;
    ghost var before := a[..];
    assert Pow2(8) == 256 by { PowEight(); }
    SetBitFits(a[i], k, 8);
    a[i] := SetBit(a[i], k);
    forall q | 0 <= q < 8 * a.Length ensures BitAt(a[..], q) <==> q == p || BitAt(before, q) {
      if q / 8 == i {
        SetBitSets(before[i], k, q % 8);
        assert q == p <==> q % 8 == k;
      }
    }
  }

  lemma PowEight()
    ensures Pow2(8) == 256
  {
    assert Pow2(4) == 16;
  }

  method CreateFilter(policy: Policy, keys: seq<Bytes>, dst: Bytes) returns (dst': Bytes)
    requires PolicyOk(policy)
    ensures dst <= dst' && IsFilter(policy, keys, dst'[|dst|..])
  {
    hide Bit, BitAt, Hits, SomeHits, ExactBits;
    var bits := |keys| * policy.bitsPerKey;
    if bits < 64 {
      bits := 64;
    }
    var bytes := (bits + 7) / 8;
    bits := bytes * 8;
    var a := new byte[bytes](i => 0);
    NothingHit(policy, a[..], bits);
    var i := 0;
    while i < |keys|
      invariant i <= |keys|
      invariant ExactBits(policy, keys[..i], a[..], bits)
    {
      ghost var before := a[..];
      AddProbes(policy, keys[i], a, bits);
      MoreHits(policy, keys, i, bits, before, a[..]);
      i := i + 1;
    }
    assert keys[..i] == keys;
    dst' := dst + a[..] + [policy.k];
    ghost var f := dst'[|dst|..];
    assert f == a[..] + [policy.k] && f[..|f| - 1] == a[..];
  }

  lemma NothingHit(policy: Policy, a: Bytes, bits: nat)
    requires 0 < bits == 8 * |a| && forall i :: 0 <= i < |a| ==> a[i] == 0
    ensures ExactBits(policy, [], a, bits)
  {
    forall p | 0 <= p < bits ensures !BitAt(a, p) {
      NoBits(p % 8);
    }
  }

  lemma MoreHits(policy: Policy, keys: seq<Bytes>, i: nat, bits: nat, before: Bytes, after: Bytes)
    requires i < |keys| && 0 < bits == 8 * |before| == 8 * |after|
    requires ExactBits(policy, keys[..i], before, bits)
    requires forall p :: 0 <= p < bits ==> (BitAt(after, p) <==> BitAt(before, p) || Hits(policy, keys[i], policy.k, bits, p))
    ensures ExactBits(policy, keys[..i + 1], after, bits)
  {
    hide BitAt, Hits;
    forall p | 0 <= p < bits ensures SomeHits(policy, keys[..i + 1], bits, p) <==> SomeHits(policy, keys[..i], bits, p) || Hits(policy, keys[i], policy.k, bits, p) {
      var all := keys[..i + 1];
      assert forall n :: 0 <= n < i ==> all[n] == keys[..i][n];
      assert all[i] == keys[i];
    }
  }

  /** Set the bits of all probes of one key. */
  method AddProbes(policy: Policy, key: Bytes, a: array<byte>, bits: nat)
    requires 0 < bits == 8 * a.Length
    modifies a
    ensures forall p :: 0 <= p < bits ==> (BitAt(a[..], p) <==> old(BitAt(a[..], p)) || Hits(policy, key, policy.k, bits, p))
  {
    hide Bit, BitAt, Hits;
    ghost var before := a[..];
    var h := policy.hash(key);
    var delta := h / 0x2_0000 + h % 0x2_0000 * 0x8000;
    var j := 0;
    NoHits(policy, key, bits);
    while j < policy.k
      invariant j <= policy.k && h == ProbeHash(policy.hash(key), j)
      invariant forall p :: 0 <= p < bits ==> (BitAt(a[..], p) <==> BitAt(before, p) || Hits(policy, key, j, bits, p))
    {
      var bitpos := h % bits;
      assert bitpos == Probe(policy, key, j, bits);
      HitsMore(policy, key, j, bits);
      SetBitAt(a, bitpos);
      h := (h + delta) % 0x1_0000_0000;
      j := j + 1;
    }
  }

  lemma NoHits(policy: Policy, key: Bytes, bits: nat)
    requires bits > 0
    ensures forall p :: 0 <= p < bits ==> !Hits(policy, key, 0, bits, p)
  {
  }

  lemma HitsMore(policy: Policy, key: Bytes, j: nat, bits: nat)
    requires bits > 0
    ensures forall p :: 0 <= p < bits ==> (Hits(policy, key, j + 1, bits, p) <==> Hits(policy, key, j, bits, p) || p == Probe(policy, key, j, bits))
  {
    hide Probe;
  }

  lemma NextProbe(h: uint32, j: nat)
    ensures ProbeHash(h, j + 1) == (ProbeHash(h, j) + Delta(h)) % 0x1_0000_0000
  {
  }

  method KeyMayMatch(policy: Policy, key: Bytes, f: Bytes) returns (r: bool)
    ensures r <==> MayMatch(policy, key, f)
  {
    var len := |f|;
    if len < 2 {
      return false;
    }
    var bs, bits, k := f[..len - 1], (len - 1) * 8, f[len - 1];
    if k > 30 {
      return true;
    }
    var h := policy.hash(key);
    var delta := h / 0x2_0000 + h % 0x2_0000 * 0x8000;
    var j := 0;
    while j < k
      invariant j <= k && h == ProbeHash(policy.hash(key), j)
      invariant AllProbes(policy, key, j, bs, bits)
    {
      hide Bit, ProbeHash;
      var bitpos := h % bits;
      assert bitpos == Probe(policy, key, j, bits);
      NextProbe(policy.hash(key), j);
      if !Bit(bs[bitpos / 8], bitpos % 8) {
        return false;
      }
      h := (h + delta) % 0x1_0000_0000;
      j := j + 1;
    }
    return true;
  }
}
