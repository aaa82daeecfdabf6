/**
 * The queue of writers (db/db_impl.cc, Write and BuildBatchGroup): the writer at the front logs and applies
 * its own batch together with the batches queued behind it.
 */
module WriteQueue {
  import opened Basics
  import opened Coding
  import opened Batch
  import opened Log
  import opened Recovery

  /** A call of Write: no batch stands for the null batch that forces a memtable switch. */
  datatype Call = Call(id: nat, batch: Option<seq<Update>>, sync: bool)

  predicate CallOk(c: Call) {
    c.batch.Some? ==> BatchOk(c.batch.value)
  }

  predicate CallsOk(q: seq<Call>) {
    forall i :: 0 <= i < |q| ==> CallOk(q[i])
  }

  // ---------------------------------------------------------------------------------------
  // Groups

  function ByteSize(us: seq<Update>): (n: nat) {
    BATCH_HEADER + |EncodeUpdates(us)|
  }

  function SizeOf(c: Call): (n: nat) {
    if c.batch.Some? then ByteSize(c.batch.value) else 0
  }

  function TotalSize(q: seq<Call>): (n: nat) {
    if |q| == 0 then 0 else TotalSize(q[..|q| - 1]) + SizeOf(q[|q| - 1])
  }

  function UpdatesOf(c: Call): (us: seq<Update>) {
    if c.batch.Some? then c.batch.value else []
  }

  /** The updates of all calls, in order. */
  function Gathered(q: seq<Call>): (us: seq<Update>) {
    if |q| == 0 then [] else Gathered(q[..|q| - 1]) + UpdatesOf(q[|q| - 1])
  }

  /** The size up to which the group of a first batch of this size may grow. */
  function Limit(size: nat): (max: nat) {
    if size <= 131072 then size + 131072 else 1048576
  }

  /** Call i may join the group of the calls before it. */
  predicate Joins(q: seq<Call>, i: nat)
    requires 0 < i < |q|
  {
    (q[i].sync ==> q[0].sync) && (q[i].batch.Some? ==> TotalSize(q[..i + 1]) <= Limit(SizeOf(q[0])))
  }

  /** The first n calls are the longest run in which every call may join. */
  predicate IsGroup(q: seq<Call>, n: nat) {
    && 0 < n <= |q|
    && (forall i :: 0 < i < n ==> Joins(q, i))
    && (n < |q| ==> !Joins(q, n))
  }

  lemma GatheredSnoc(q: seq<Call>, c: Call)
    ensures Gathered(q + [c]) == Gathered(q) + UpdatesOf(c) && TotalSize(q + [c]) == TotalSize(q) + SizeOf(c)
  {
    assert (q + [c])[..|q|] == q;
  }

  lemma {:induction false} GatheredConcat(q: seq<Call>, r: seq<Call>)
    ensures Gathered(q + r) == Gathered(q) + Gathered(r)
    decreases |r|
  {
    if |r| == 0 {
      assert q + r == q;
    } else {
      assert (q + r)[..|q + r| - 1] == q + r[..|r| - 1];
      GatheredConcat(q, r[..|r| - 1]);
    }
  }

  /** How many updates the first m calls hold. */
  function Before(q: seq<Call>, m: nat): (n: nat)
    requires m <= |q|
  {
    if m == 0 then 0 else Before(q, m - 1) + if q[m - 1].batch.Some? then |q[m - 1].batch.value| else 0
  }

  predicate OfCall(us: seq<Update>, q: seq<Call>, m: nat, i: nat)
    requires m < |q| && q[m].batch.Some? && i < |q[m].batch.value|
  {
    Before(q, m) + i < |us| && us[Before(q, m) + i] == q[m].batch.value[i]
  }

  /** The updates are those of the calls, one call after the other. */
  ghost predicate Lined(us: seq<Update>, q: seq<Call>) {
    && |us| == Before(q, |q|)
    && forall m, i :: 0 <= m < |q| && q[m].batch.Some? && 0 <= i < |q[m].batch.value| ==> OfCall(us, q, m, i)
  }

  lemma {:induction false} BeforePrefix(q: seq<Call>, c: Call, m: nat)
    requires m <= |q|
    ensures Before(q + [c], m) == Before(q, m)
    decreases m
  {
    if m > 0 {
      BeforePrefix(q, c, m - 1);
    }
  }

  lemma {:induction false} GatheredLined(q: seq<Call>)
    ensures Lined(Gathered(q), q)
  {
    hide Lined;
    if |q| == 0 {
      NoCalls();
    }
    if |q| > 0 {
      var n := |q| - 1;
      var init, c := q[..n], q[n];
      assert q == init + [c];
      GatheredLined(init);
      GatheredSnoc(init, c);
      LinedMore(Gathered(init), init, c);
    }
  }

  lemma NoCalls()
    ensures Lined(Gathered([]), [])
  {
  }

  lemma LinedMore(us: seq<Update>, q: seq<Call>, c: Call)
    requires Lined(us, q)
    ensures Lined(us + UpdatesOf(c), q + [c])
  {
    var q', all := q + [c], us + UpdatesOf(c);
    BeforePrefix(q, c, |q|);
    forall m, i | 0 <= m < |q'| && q'[m].batch.Some? && 0 <= i < |q'[m].batch.value| ensures OfCall(all, q', m, i) {
      BeforePrefix(q, c, m);
      if m < |q| {
        assert q'[m] == q[m] && OfCall(us, q, m, i);
      }
    }
  }

  /** An update takes at least one byte. */
  lemma {:induction false} EncodedLength(us: seq<Update>)
    ensures |us| <= |EncodeUpdates(us)|
  {
    hide EncodeUpdate;
    if |us| > 0 {
      EncodedLength(us[1..]);
    }
  }

  lemma {:induction false} GatheredSize(q: seq<Call>)
    ensures |Gathered(q)| <= TotalSize(q)
  {
    if |q| > 0 {
      GatheredSize(q[..|q| - 1]);
      if q[|q| - 1].batch.Some? {
        EncodedLength(q[|q| - 1].batch.value);
      }
    }
  }

  lemma {:induction false} GatheredFits(q: seq<Call>)
    requires CallsOk(q)
    ensures forall i :: 0 <= i < |Gathered(q)| ==> Fits(Gathered(q)[i])
  {
    hide Fits;
    if |q| > 0 {
      GatheredFits(q[..|q| - 1]);
    }
  }

  /** The updates of a group whose calls after the first all join make a batch. */
  lemma {:induction false} GroupFits(q: seq<Call>, n: nat)
    requires 0 < n <= |q| && CallsOk(q) && (forall i :: 0 < i < n ==> Joins(q, i))
    ensures BatchOk(Gathered(q[..n]))
    decreases n
  {
    hide EncodeUpdates, Fits;
    GatheredFits(q[..n]);
    assert q[..n][..n - 1] == q[..n - 1];
    if n == 1 {
      assert Gathered(q[..1]) == Gathered(q[..0]) + UpdatesOf(q[0]);
    } else if q[n - 1].batch.Some? {
      assert Joins(q, n - 1);
      GatheredSize(q[..n]);
      if SizeOf(q[0]) > 131072 {
        assert |Gathered(q[..n])| <= 1048576;
      }
    } else {
      GroupFits(q, n - 1);
    }
  }

  class Writer {
    const id: nat
    const batch: WriteBatch?
    const sync: bool

    constructor (id: nat, batch: WriteBatch?, sync: bool)
      ensures this.id == id && this.batch == batch && this.sync == sync
    {
      this.id, this.batch, this.sync := id, batch, sync;
    }

    ghost predicate Valid()
      reads batch
    {
      batch != null ==> batch.Valid()
    }

    ghost function Value(): (c: Call)
      reads batch
    {
      Call(id, if batch == null then None else Some(batch.updates), sync)
    }
  }

  ghost predicate AllValid(writers: seq<Writer>, tmp: WriteBatch)
    reads set w | w in writers :: w.batch
  {
    forall i :: 0 <= i < |writers| ==> writers[i].Valid() && writers[i].batch != tmp
  }

  ghost function Values(writers: seq<Writer>): (q: seq<Call>)
    reads set w | w in writers :: w.batch
    ensures |q| == |writers| && forall i :: 0 <= i < |q| ==> q[i] == writers[i].Value()
  {
    if |writers| == 0 then [] else Values(writers[..|writers| - 1]) + [writers[|writers| - 1].Value()]
  }

  lemma TakeMore(q: seq<Call>, n: nat)
    requires n < |q|
    ensures Gathered(q[..n + 1]) == Gathered(q[..n]) + UpdatesOf(q[n])
    ensures TotalSize(q[..n + 1]) == TotalSize(q[..n]) + SizeOf(q[n])
  {
    assert q[..n + 1] == q[..n] + [q[n]];
    GatheredSnoc(q[..n], q[n]);
  }

  /** The batch to log for the queue, and how many of the queued writers it is for. */
  method BuildBatchGroup(writers: seq<Writer>, tmp: WriteBatch) returns (result: WriteBatch, n: nat)
    requires 0 < |writers| && AllValid(writers, tmp) && writers[0].batch != null
    requires tmp.Valid() && tmp.updates == []
    modifies tmp
    ensures IsGroup(Values(writers), n)
    ensures result.Valid() && Lined(result.updates, Values(writers)[..n]) && result.updates == Gathered(Values(writers)[..n])
    ensures result == tmp || (result == writers[0].batch && tmp.updates == [])
    ensures AllValid(writers, tmp) && Values(writers) == old(Values(writers))
  {
    hide EncodeBatch, EncodeUpdates, BatchOk, Gathered, TotalSize, Values, Lined;
    ghost var q := Values(writers);
    var first := writers[0];
    result := first.batch;
    var size := ByteSizeOf(result);
    var max := 1048576;
    if size <= 131072 {
      max := size + 131072;
    }
    One(q);
    n := 1;
    while n < |writers|
      invariant 0 < n <= |writers| && (forall i :: 0 < i < n ==> Joins(q, i))
      invariant AllValid(writers, tmp) && Values(writers) == q
      invariant result.Valid() && result.updates == Gathered(q[..n]) && size == TotalSize(q[..n])
      invariant tmp.Valid() && (result == tmp || (result == first.batch && tmp.updates == []))
    {
      var w := writers[n];
      if w.sync && !first.sync {
        break;
      }
      TakeMore(q, n);
      if w.batch != null {
        var more := ByteSizeOf(w.batch);
        size := size + more;
        if size > max {
          break;
        }
        result := AppendTo(result, first, w, tmp, q, n);
      }
      n := n + 1;
    }
    GatheredLined(q[..n]);
  }

  /** Append to the temporary batch, after switching to it instead of disturbing the caller's batch. */
  method AppendTo(batch: WriteBatch, first: Writer, w: Writer, tmp: WriteBatch, ghost q: seq<Call>, ghost n: nat)
    returns (result: WriteBatch)
    requires 0 < n < |q| && CallsOk(q) && (forall i :: 0 < i <= n ==> Joins(q, i))
    requires batch.Valid() && batch.updates == Gathered(q[..n])
    requires tmp.Valid() && (batch == tmp || (batch == first.batch && tmp.updates == []))
    requires w.batch != null && w.batch != tmp && w.batch.Valid() && q[n] == w.Value()
    modifies tmp
    ensures result == tmp && tmp.Valid() && tmp.updates == Gathered(q[..n + 1])
  {
    hide EncodeBatch, Gathered, TotalSize, SizeOf;
    TakeMore(q, n);
    GroupFits(q, n + 1);
    result := batch;
    if result != tmp {
      result := tmp;
      result.Append(batch);
    }
    result.Append(w.batch);
  }

  lemma One(q: seq<Call>)
    requires 0 < |q|
    ensures Gathered(q[..1]) == UpdatesOf(q[0]) && TotalSize(q[..1]) == SizeOf(q[0])
  {
    TakeMore(q, 0);
    assert Gathered(q[..0]) == [] && TotalSize(q[..0]) == 0;
  }

  method ByteSizeOf(b: WriteBatch) returns (n: nat)
    requires b.Valid()
    ensures n == ByteSize(b.updates)
  {
    n := |b.rep|;
  }
}
