/**
 * Write batches (db/write_batch.cc): a sequence number, a count and a list of updates kept as bytes.
 */
module Batch {
  import opened Basics
  import opened Coding

  const BATCH_HEADER := 12

  const TYPE_DELETION: byte := 0
  const TYPE_VALUE: byte := 1

  datatype Update = Put(key: Bytes, value: Bytes) | Delete(key: Bytes)

  /** A slice whose length fits the 32-bit prefix it is stored with. */
  predicate Fits(u: Update) {
    |u.key| < 0x1_0000_0000 && (u.Put? ==> |u.value| < 0x1_0000_0000)
  }

  /** The count is a signed 32-bit number. */
  predicate BatchOk(us: seq<Update>) {
    |us| < 0x8000_0000 && forall i :: 0 <= i < |us| ==> Fits(us[i])
  }

  function EncodeUpdate(u: Update): (b: Bytes)
    ensures |b| > 0
  {
    match u
    case Put(key, value) => [TYPE_VALUE] + LengthPrefixed(key) + LengthPrefixed(value)
    case Delete(key) => [TYPE_DELETION] + LengthPrefixed(key)
  }

  function EncodeUpdates(us: seq<Update>): (b: Bytes) {
    if |us| == 0 then [] else EncodeUpdate(us[0]) + EncodeUpdates(us[1..])
  }

  lemma SingleUpdate(u: Update)
    ensures EncodeUpdates([u]) == EncodeUpdate(u)
  {
    hide EncodeUpdate;
    assert EncodeUpdates([u]) == EncodeUpdate(u) + [];
  }

  lemma {:induction false} EncodeConcat(us: seq<Update>, vs: seq<Update>)
    ensures EncodeUpdates(us + vs) == EncodeUpdates(us) + EncodeUpdates(vs)
  {
    if |us| == 0 {
      assert us + vs == vs;
    } else {
      assert (us + vs)[1..] == us[1..] + vs;
      EncodeConcat(us[1..], vs);
    }
  }

  function EncodeBatch(sn: uint64, us: seq<Update>): (b: Bytes)
    requires |us| < 0x8000_0000
    ensures |b| >= BATCH_HEADER
  {
    EncodeFixed64(sn) + EncodeFixed32(|us|) + EncodeUpdates(us)
  }

  /** A uint32 stored in an int. */
  function Signed(c: uint32): (n: int)
    ensures -0x8000_0000 <= n < 0x8000_0000 && n % 0x1_0000_0000 == c
  {
    if c < 0x8000_0000 then c else c - 0x1_0000_0000
  }

  function SequenceOf(rep: Bytes): (sn: uint64)
    requires |rep| >= BATCH_HEADER
  {
    DecodeFixed64(rep)
  }

  function CountOf(rep: Bytes): (n: int)
    requires |rep| >= BATCH_HEADER
  {
    Signed(DecodeFixed32(rep[8..]))
  }

  lemma HeaderRoundTrip(sn: uint64, us: seq<Update>)
    requires |us| < 0x8000_0000
    ensures var rep := EncodeBatch(sn, us);
            SequenceOf(rep) == sn && CountOf(rep) == |us| && rep[BATCH_HEADER..] == EncodeUpdates(us)
  {
    hide EncodeFixed64, EncodeFixed32, DecodeFixed64, DecodeFixed32, EncodeUpdates;
    var rep, tail := EncodeBatch(sn, us), EncodeUpdates(us);
    assert rep == EncodeFixed64(sn) + (EncodeFixed32(|us|) + tail);
    Fixed64RoundTrip(sn, EncodeFixed32(|us|) + tail);
    assert rep[8..] == EncodeFixed32(|us|) + tail;
    Fixed32RoundTrip(|us|, tail);
  }

  // ---------------------------------------------------------------------------------------
  // Reading a batch

  /** One update at the front of the input, and the input after it. */
  function ParseUpdate(b: Bytes): (r: Option<(Update, Bytes)>)
    requires |b| > 0
    ensures r.Some? ==> |r.value.1| < |b|
  {
    if b[0] == TYPE_VALUE then
      var k := GetLengthPrefixed(b[1..]);
      if k.None? then None
      else
        var v := GetLengthPrefixed(k.value.1);
        if v.None? then None else Some((Put(k.value.0, v.value.0), v.value.1))
    else if b[0] == TYPE_DELETION then
      var k := GetLengthPrefixed(b[1..]);
      if k.None? then None else Some((Delete(k.value.0), k.value.1))
    else None
  }

  /** The updates handed to the handler before the input ends or turns out malformed. */
  datatype Parsed = Parsed(updates: seq<Update>, ok: bool)

  function ParseUpdates(b: Bytes): (p: Parsed)
    decreases |b|
  {
    if |b| == 0 then Parsed([], true)
    else
      var r := ParseUpdate(b);
      if r.None? then Parsed([], false)
      else
        var rest := ParseUpdates(r.value.1);
        Parsed([r.value.0] + rest.updates, rest.ok)
  }

  /** WriteBatch::Iterate on any bytes at all: the updates handled, and whether the batch was well formed. */
  function ParseBatch(rep: Bytes): (p: Parsed) {
    if |rep| < BATCH_HEADER then Parsed([], false)
    else
      var p := ParseUpdates(rep[BATCH_HEADER..]);
      Parsed(p.updates, p.ok && |p.updates| == CountOf(rep))
  }

  lemma UpdateRoundTrip(u: Update, tail: Bytes)
    requires Fits(u)
    ensures ParseUpdate(EncodeUpdate(u) + tail) == Some((u, tail))
  {
    hide GetLengthPrefixed, LengthPrefixed;
    var b := EncodeUpdate(u) + tail;
    match u
    case Put(key, value) =>
      assert b[1..] == LengthPrefixed(key) + (LengthPrefixed(value) + tail);
      LengthPrefixedRoundTrip(key, LengthPrefixed(value) + tail);
      LengthPrefixedRoundTrip(value, tail);
    case Delete(key) =>
      assert b[1..] == LengthPrefixed(key) + tail;
      LengthPrefixedRoundTrip(key, tail);
  }

  lemma {:induction false} UpdatesRoundTrip(us: seq<Update>)
    requires forall i :: 0 <= i < |us| ==> Fits(us[i])
    ensures ParseUpdates(EncodeUpdates(us)) == Parsed(us, true)
  {
    hide EncodeUpdate, ParseUpdate;
    if |us| > 0 {
      UpdateRoundTrip(us[0], EncodeUpdates(us[1..]));
      UpdatesRoundTrip(us[1..]);
      assert [us[0]] + us[1..] == us;
    }
  }

  lemma BatchRoundTrip(sn: uint64, us: seq<Update>)
    requires BatchOk(us)
    ensures ParseBatch(EncodeBatch(sn, us)) == Parsed(us, true)
  {
    hide EncodeUpdates, ParseUpdates, EncodeFixed64, EncodeFixed32, SequenceOf, CountOf;
    HeaderRoundTrip(sn, us);
    UpdatesRoundTrip(us);
  }

  // ---------------------------------------------------------------------------------------
  // What is read from any bytes

  /** b starts with the update u, in any encoding of its lengths. */
  ghost predicate IsUpdate(b: Bytes, u: Update, rest: Bytes) {
    |b| > 0 &&
    match u
    case Put(key, value) => b[0] == TYPE_VALUE && exists mid :: IsSlice(b[1..], key, mid) && IsSlice(mid, value, rest)
    case Delete(key) => b[0] == TYPE_DELETION && IsSlice(b[1..], key, rest)
  }

  lemma UpdateExact(b: Bytes, u: Update, rest: Bytes)
    requires |b| > 0
    ensures ParseUpdate(b) == Some((u, rest)) <==> IsUpdate(b, u, rest)
  {
    hide GetLengthPrefixed, IsSlice;
    forall c, s, t ensures GetLengthPrefixed(c) == Some((s, t)) <==> IsSlice(c, s, t) {
      SliceExact(c, s, t);
    }
  }

  /** The updates stand one after the other, each read where the one before it ends. */
  ghost predicate ReadAlong(b: Bytes, us: seq<Update>, at: seq<Bytes>) {
    && |at| == |us| + 1 && at[0] == b
    && forall i :: 0 <= i < |us| ==> IsUpdate(at[i], us[i], at[i + 1])
  }

  /** us is as much as can be read of b, and whole says whether that is all of b. */
  ghost predicate ReadsAll(b: Bytes, us: seq<Update>, whole: bool) {
    exists at :: ReadAlong(b, us, at)
                 && (whole <==> at[|us|] == []) && (!whole ==> forall u, rest :: !IsUpdate(at[|us|], u, rest))
  }

  lemma {:induction false} UpdatesExact(b: Bytes)
    ensures ReadsAll(b, ParseUpdates(b).updates, ParseUpdates(b).ok)
    decreases |b|
  {
    hide ParseUpdate, IsUpdate;
    var p := ParseUpdates(b);
    if |b| == 0 {
      assert ReadAlong(b, [], [b]);
    } else {
      forall u, rest ensures ParseUpdate(b) == Some((u, rest)) <==> IsUpdate(b, u, rest) {
        UpdateExact(b, u, rest);
      }
      var r := ParseUpdate(b);
      if r.None? {
        assert ReadAlong(b, [], [b]);
      } else {
        UpdatesExact(r.value.1);
        var us := ParseUpdates(r.value.1).updates;
        var at :| ReadAlong(r.value.1, us, at) && (p.ok <==> at[|us|] == []) && (!p.ok ==> forall u, rest :: !IsUpdate(at[|us|], u, rest));
        AlongMore(b, r.value.0, r.value.1, us, at);
        assert ([b] + at)[|us| + 1] == at[|us|];
      }
    }
  }

  lemma AlongMore(b: Bytes, u: Update, rest: Bytes, us: seq<Update>, at: seq<Bytes>)
    requires IsUpdate(b, u, rest) && ReadAlong(rest, us, at)
    ensures ReadAlong(b, [u] + us, [b] + at)
  {
    hide IsUpdate;
    var us', at' := [u] + us, [b] + at;
    forall i | 0 <= i < |us'| ensures IsUpdate(at'[i], us'[i], at'[i + 1]) {
      if i > 0 {
        assert IsUpdate(at[i - 1], us[i - 1], at[i]);
      }
    }
  }

  /** What iterating over any bytes handles, and when it reports a well-formed batch. */
  ghost predicate Handles(rep: Bytes, us: seq<Update>, ok: bool) {
    if |rep| < BATCH_HEADER then us == [] && !ok
    else exists whole :: ReadsAll(rep[BATCH_HEADER..], us, whole) && (ok <==> whole && |us| == CountOf(rep))
  }

  lemma BatchExact(rep: Bytes)
    ensures Handles(rep, ParseBatch(rep).updates, ParseBatch(rep).ok)
  {
    hide ParseUpdates, ReadsAll, CountOf;
    if |rep| >= BATCH_HEADER {
      UpdatesExact(rep[BATCH_HEADER..]);
    }
  }

  // ---------------------------------------------------------------------------------------
  // The batch object

  class WriteBatch {
    var rep: Bytes
    ghost var sn: uint64
    ghost var updates: seq<Update>

    ghost predicate Valid()
      reads this
    {
      BatchOk(updates) && rep == EncodeBatch(sn, updates)
    }

    constructor ()
      ensures Valid() && updates == [] && sn == 0
    {
      rep, sn, updates := seq(12, i => 0), 0, [];
      assert EncodeBatch(0, []) == EncodeFixed64(0) + EncodeFixed32(0);
    }

    method Clear()
      modifies this
      ensures Valid() && updates == [] && sn == 0
    {
      rep, sn, updates := seq(12, i => 0), 0, [];
      assert EncodeBatch(0, []) == EncodeFixed64(0) + EncodeFixed32(0);
    }

    method Count() returns (n: int)
      requires Valid()
      ensures n == |updates|
    {
      HeaderRoundTrip(sn, updates);
      n := Signed(DecodeFixed32(rep[8..]));
    }

    /** Overwrite the four count bytes. */
    method SetCount(n: nat)
      requires |rep| >= BATCH_HEADER && n < 0x8000_0000
      modifies this`rep
      ensures rep == old(rep[..8]) + EncodeFixed32(n) + old(rep[BATCH_HEADER..])
    {
      rep := rep[..8] + EncodeFixed32(n) + rep[BATCH_HEADER..];
    }

    method SetSequence(sn: uint64)
      requires Valid()
      modifies this
      ensures Valid() && updates == old(updates) && this.sn == sn
    {
      hide EncodeFixed64, EncodeFixed32, EncodeUpdates;
      rep := EncodeFixed64(sn) + rep[8..];
      this.sn := sn;
      assert rep == EncodeBatch(sn, updates);
    }

    method Put(key: Bytes, value: Bytes)
      requires Valid() && Fits(Update.Put(key, value)) && |updates| + 1 < 0x8000_0000
      modifies this
      ensures Valid() && updates == old(updates) + [Update.Put(key, value)] && sn == old(sn)
    {
      hide EncodeFixed64, EncodeFixed32, EncodeUpdates, LengthPrefixed;
      var n := Count();
      SetCount(n + 1);
      rep := rep + [TYPE_VALUE];
      rep := rep + LengthPrefixed(key);
      rep := rep + LengthPrefixed(value);
      SingleUpdate(Update.Put(key, value));
      Grow([Update.Put(key, value)]);
    }

    method Delete(key: Bytes)
      requires Valid() && Fits(Update.Delete(key)) && |updates| + 1 < 0x8000_0000
      modifies this
      ensures Valid() && updates == old(updates) + [Update.Delete(key)] && sn == old(sn)
    {
      hide EncodeFixed64, EncodeFixed32, EncodeUpdates, LengthPrefixed;
      var n := Count();
      SetCount(n + 1);
      rep := rep + [TYPE_DELETION];
      rep := rep + LengthPrefixed(key);
      SingleUpdate(Update.Delete(key));
      Grow([Update.Delete(key)]);
    }

    /** The bytes and the count have grown by the updates us. */
    ghost method Grow(us: seq<Update>)
      requires BatchOk(updates + us)
      requires rep == EncodeFixed64(sn) + EncodeFixed32(|updates| + |us|) + EncodeUpdates(updates) + EncodeUpdates(us)
      modifies this`updates
      ensures Valid() && updates == old(updates) + us
    {
      hide EncodeFixed64, EncodeFixed32, EncodeUpdates;
      EncodeConcat(updates, us);
      updates := updates + us;
    }

    /** WriteBatchInternal::Append: the updates of src after those of this batch, in order. */
    method Append(src: WriteBatch)
      requires Valid() && src.Valid() && src != this && |updates| + |src.updates| < 0x8000_0000
      modifies this
      ensures Valid() && updates == old(updates) + src.updates && sn == old(sn)
    {
      hide EncodeFixed64, EncodeFixed32, EncodeUpdates;
      var n := Count();
      var m := src.Count();
      SetCount(n + m);
      HeaderRoundTrip(src.sn, src.updates);
      rep := rep + src.rep[BATCH_HEADER..];
      Grow(src.updates);
    }
  }

  /** WriteBatch::Iterate: the updates handed to the handler, in order, and whether the status is OK. */
  method Iterate(rep: Bytes) returns (handled: seq<Update>, ok: bool)
    ensures Parsed(handled, ok) == ParseBatch(rep) && Handles(rep, handled, ok)
  {
    hide Handles;
    BatchExact(rep);
    handled := [];
    if |rep| < BATCH_HEADER {
      return [], false;
    }
    var input := rep[BATCH_HEADER..];
    while |input| > 0
      invariant var rest := ParseUpdates(input);
                ParseUpdates(rep[BATCH_HEADER..]) == Parsed(handled + rest.updates, rest.ok)
      decreases |input|
    {
      hide ParseUpdate;
      var r := ParseUpdate(input);
      if r.None? {
        return handled, false;
      }
      var (u, after) := r.value;
      assert handled + ([u] + ParseUpdates(after).updates) == handled + [u] + ParseUpdates(after).updates;
      handled := handled + [u];
      input := after;
    }
    ok := |handled| == CountOf(rep);
  }
}
