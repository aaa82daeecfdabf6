/**
 * Internal keys, entries and sorted tables (db/dbformat.h, db/memtable.cc, table/table.cc seen
 * as a sorted list).
 *
 * A user comparator is any total order on the keys a client uses.  Keys are byte strings, so
 * there are countably many of them and every total order on them embeds in the reals: a user
 * key is modelled by its rank.  Two entries of one user key never share a sequence number, so
 * the type byte never decides a comparison and internal keys are compared on (user key,
 * sequence).  A LookupKey carries the highest type, hence sorts at or before the entry with the
 * same user key and sequence, which is what AtOrAfter on (user key, sequence) says.
 */
module Entries {
  import opened Basics

  type UserKey = real

  /** kMaxSequenceNumber: eight bits of the 64-bit trailer are left for the type. */
  const MAX_SEQUENCE := 0xFF_FFFF_FFFF_FFFF

  type Sequence = n: nat | n <= MAX_SEQUENCE

  datatype Op = Delete | Put(value: Bytes)

  datatype InternalKey = InternalKey(user: UserKey, sn: Sequence)

  datatype Entry = Entry(key: InternalKey, op: Op)

  /** InternalKeyComparator::Compare(a, b) < 0: user key ascending, sequence descending. */
  predicate Before(a: InternalKey, b: InternalKey) {
    a.user < b.user || (a.user == b.user && a.sn > b.sn)
  }

  predicate Sorted(es: seq<Entry>) {
    forall i, j :: 0 <= i < j < |es| ==> Before(es[i].key, es[j].key)
  }

  /** e belongs to user key k and is visible at snapshot s. */
  predicate Sees(e: Entry, k: UserKey, s: Sequence) {
    e.key.user == k && e.key.sn <= s
  }

  /** r is the newest entry of k in p with sequence <= s, or None when there is none. */
  ghost predicate IsNewest(p: set<Entry>, k: UserKey, s: Sequence, r: Option<Entry>) {
    match r
    case None => forall e :: e in p ==> !Sees(e, k, s)
    case Some(n) => n in p && Sees(n, k, s) && forall e :: e in p && Sees(e, k, s) ==> e.key.sn <= n.key.sn
  }

  /** What a client is told: a deletion reads as not found. */
  function Visible(r: Option<Entry>): (v: Option<Bytes>) {
    match r
    case None => None
    case Some(e) => if e.op.Delete? then None else Some(e.op.value)
  }

  ghost function Contents(es: seq<Entry>): set<Entry> {
    set e | e in es
  }

  /** Index of the first entry at or after target: Seek on a sorted table or memtable. */
  function SeekIndex(es: seq<Entry>, target: InternalKey): (i: nat)
    ensures i <= |es|
    ensures forall j :: 0 <= j < i ==> Before(es[j].key, target)
    ensures i < |es| ==> !Before(es[i].key, target)
  {
    if |es| == 0 || !Before(es[0].key, target) then 0 else 1 + SeekIndex(es[1..], target)
  }

  /** MemTable::Get, and Table::InternalGet followed by SaveValue, on the sorted contents. */
  function TableGet(es: seq<Entry>, k: UserKey, s: Sequence): (r: Option<Entry>) {
    var i := SeekIndex(es, InternalKey(k, s));
    if i < |es| && es[i].key.user == k then Some(es[i]) else None
  }

  /** A point lookup in a sorted table finds the newest visible entry of its user key. */
  lemma TableGetIsNewest(es: seq<Entry>, k: UserKey, s: Sequence)
    requires Sorted(es)
    ensures IsNewest(Contents(es), k, s, TableGet(es, k, s))
  {
    var i := SeekIndex(es, InternalKey(k, s));
    forall e | e in es && Sees(e, k, s)
      ensures TableGet(es, k, s).Some? && e.key.sn <= es[i].key.sn
    {
      var j :| 0 <= j < |es| && es[j] == e;
      assert i <= j;
    }
  }

  /** Entries are determined by their sequence number: sequence n is written once, as h[n-1]. */
  ghost predicate FromHistory(p: set<Entry>, h: seq<Entry>) {
    forall e :: e in p ==> 1 <= e.key.sn <= |h| && h[e.key.sn - 1] == e
  }

  /** The reference meaning of a read: the newest entry of k among the first s writes. */
  function NewestIn(h: seq<Entry>, k: UserKey, s: Sequence): (r: Option<Entry>)
    requires s <= |h|
  {
    if s == 0 then None
    else if h[s - 1].key.user == k then Some(h[s - 1])
    else NewestIn(h, k, s - 1)
  }

  lemma {:induction false} NewestInExtends(h: seq<Entry>, h': seq<Entry>, k: UserKey, s: Sequence)
    requires s <= |h| && h <= h'
    ensures NewestIn(h', k, s) == NewestIn(h, k, s)
  {
    if s > 0 {
      assert h'[s - 1] == h[s - 1];
      NewestInExtends(h, h', k, s - 1);
    }
  }

  lemma NewestUnique(p: set<Entry>, h: seq<Entry>, k: UserKey, s: Sequence, r: Option<Entry>, r': Option<Entry>)
    requires FromHistory(p, h)
    requires IsNewest(p, k, s, r) && IsNewest(p, k, s, r')
    ensures r == r'
  {
  }

  /** MemTable::Add: insert at the sorted position. */
  function InsertSorted(es: seq<Entry>, e: Entry): (r: seq<Entry>)
    ensures forall x :: x in r <==> x in es || x == e
  {
    var i := SeekIndex(es, e.key);
    assert es == es[..i] + es[i..];
    es[..i] + [e] + es[i..]
  }

  lemma InsertKeepsSorted(es: seq<Entry>, e: Entry)
    requires Sorted(es)
    requires forall x :: x in es ==> x.key != e.key
    ensures Sorted(InsertSorted(es, e))
  {
    var i := SeekIndex(es, e.key);
    forall j | i <= j < |es| ensures Before(e.key, es[j].key) {
      assert es[j] in es;
      assert es[i] in es;
    }
  }
}
