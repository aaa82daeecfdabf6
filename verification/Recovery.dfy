/**
 * Crash recovery (db/db_impl.cc, RecoverLogFile): read the records of a log that may be cut off at any
 * byte, and insert the batches they hold into memtables.
 */
module Recovery {
  import opened Basics
  import opened Coding
  import opened Log
  import opened Batch

  /** One MemTable::Add call. */
  datatype Added = Added(sn: uint64, update: Update)

  /** MemTableInserter: consecutive sequence numbers from sn on, in 64 bits. */
  function Numbered(sn: uint64, us: seq<Update>): (entries: seq<Added>)
    decreases |us|
  {
    if |us| == 0 then [] else [Added(sn, us[0])] + Numbered((sn + 1) % 0x1_0000_0000_0000_0000, us[1..])
  }

  /** Update i carries the number i past sn, and is the update itself. */
  lemma {:induction false} NumberedIs(sn: uint64, us: seq<Update>)
    ensures |Numbered(sn, us)| == |us|
    ensures forall i :: 0 <= i < |us| ==> Numbered(sn, us)[i] == Added((sn + i) % 0x1_0000_0000_0000_0000, us[i])
    decreases |us|
  {
    if |us| > 0 {
      var next := (sn + 1) % 0x1_0000_0000_0000_0000;
      NumberedIs(next, us[1..]);
      forall i | 0 <= i < |us| ensures Numbered(sn, us)[i] == Added((sn + i) % 0x1_0000_0000_0000_0000, us[i]) {
        if i > 0 {
          assert Numbered(sn, us)[i] == Numbered(next, us[1..])[i - 1];
        }
      }
    }
  }

  function InsertRecord(record: Bytes): (entries: seq<Added>) {
    if |record| < BATCH_HEADER then [] else Numbered(SequenceOf(record), ParseBatch(record).updates)
  }

  /** What inserting every record in turn adds. */
  function Inserted(records: seq<Bytes>): (entries: seq<Added>) {
    if |records| == 0 then [] else InsertRecord(records[0]) + Inserted(records[1..])
  }

  function Raise(max: uint64, record: Bytes): (max': uint64) {
    if |record| < BATCH_HEADER then max
    else
      var last := (SequenceOf(record) + CountOf(record) - 1) % 0x1_0000_0000_0000_0000;
      if last > max then last else max
  }

  function MaxSequence(max: uint64, records: seq<Bytes>): (max': uint64)
    decreases |records|
  {
    if |records| == 0 then max else MaxSequence(Raise(max, records[0]), records[1..])
  }

  predicate Good(record: Bytes) {
    ParseBatch(record).ok
  }

  predicate AllGood(records: seq<Bytes>) {
    forall i :: 0 <= i < |records| ==> Good(records[i])
  }

  /** Nothing was reported while reading, and every record is a well-formed batch. */
  predicate Intact(o: Outcome) {
    o.clean && AllGood(o.records)
  }

  lemma {:induction false} InsertedSnoc(records: seq<Bytes>, r: Bytes)
    ensures Inserted(records + [r]) == Inserted(records) + InsertRecord(r)
  {
    hide InsertRecord;
    if |records| == 0 {
      assert records + [r] == [r];
      assert Inserted([r]) == InsertRecord(r) + [];
    } else {
      assert (records + [r])[1..] == records[1..] + [r];
      InsertedSnoc(records[1..], r);
    }
  }

  lemma {:induction false} MaxSequenceSnoc(max: uint64, records: seq<Bytes>, r: Bytes)
    ensures MaxSequence(max, records + [r]) == Raise(MaxSequence(max, records), r)
    decreases |records|
  {
    hide Raise;
    if |records| == 0 {
      assert records + [r] == [r];
      assert MaxSequence(max, [r]) == MaxSequence(Raise(max, r), []);
    } else {
      assert (records + [r])[1..] == records[1..] + [r];
      MaxSequenceSnoc(Raise(max, records[0]), records[1..], r);
    }
  }

  function Concat(tables: seq<seq<Added>>): (entries: seq<Added>) {
    if |tables| == 0 then [] else Concat(tables[..|tables| - 1]) + tables[|tables| - 1]
  }

  lemma ConcatSnoc(tables: seq<seq<Added>>, t: seq<Added>)
    ensures Concat(tables + [t]) == Concat(tables) + t
  {
    assert (tables + [t])[..|tables|] == tables;
  }

  function InMem(mem: Option<seq<Added>>): (entries: seq<Added>) {
    if mem.None? then [] else mem.value
  }

  /** The tables, the memtable and the greatest sequence number hold what the records done add. */
  ghost predicate Rebuilt(tables: seq<seq<Added>>, mem: Option<seq<Added>>, maxSequence: uint64, max: uint64, done: seq<Bytes>) {
    Concat(tables) + InMem(mem) == Inserted(done) && maxSequence == MaxSequence(max, done)
  }

  /** All of o is made of the records done and of rest; under paranoid checks, an error so far is an error of o. */
  ghost predicate Remaining(o: Outcome, done: seq<Bytes>, rest: Outcome, paranoid: bool, ok: bool) {
    && o.records == done + rest.records
    && (paranoid && ok ==> o.clean == rest.clean && AllGood(done))
    && (!ok ==> paranoid && !Intact(o))
  }

  /**
   * The tables written for one log, the greatest sequence number and whether recovery succeeds.  How full
   * a memtable must be before it is written out is left to full.
   */
  method RecoverLogFile(codec: Codec, log: Bytes, paranoid: bool, max: uint64, full: seq<Added> -> bool)
    returns (tables: seq<seq<Added>>, maxSequence: uint64, ok: bool)
    ensures var o := ReadAll(codec, log, 0, None);
            && (ok <==> !paranoid || Intact(o))
            && (ok ==> Concat(tables) == Inserted(o.records) && maxSequence == MaxSequence(max, o.records))
            && (ok ==> forall i :: 0 <= i < |tables| - 1 ==> full(tables[i]))
  {
    hide ReadAll, BlockEnd, Good, Intact, Concat, Inserted, MaxSequence, Remaining;
    ghost var o := ReadAll(codec, log, 0, None);
    var reader := new Reader(codec, log);
    var mem: Option<seq<Added>> := None;
    tables, maxSequence, ok := [], max, true;
    ghost var done: seq<Bytes> := [];
    Starts(o, paranoid, max);
    while true
      invariant reader.Valid() && fresh(reader) && reader.codec == codec && reader.file == log
      invariant Remaining(o, done, ReadAll(codec, log, reader.Pos(), None), paranoid, ok)
      invariant ok ==> Rebuilt(tables, mem, maxSequence, max, done)
      invariant forall i :: 0 <= i < |tables| ==> full(tables[i])
      decreases |log| - reader.Pos()
    {
      ghost var rest := ReadAll(codec, log, reader.Pos(), None);
      ghost var before := ok;
      var record, dropped := reader.ReadRecord();
      if dropped && paranoid {
        ok := false;
      }
      if record.None? || !ok {
        if record.None? {
          Ends(o, done, rest, paranoid, before, dropped);
        } else {
          Fails(o, done, rest, paranoid, before, dropped);
        }
        break;
      }
      Advances(o, done, rest, paranoid, dropped, record.value, ReadAll(codec, log, reader.Pos(), None));
      ok, tables, mem, maxSequence := ApplyRecord(record.value, paranoid, full, tables, mem, maxSequence, max, done);
      done := done + [record.value];
      if !ok && |record.value| >= BATCH_HEADER {
        Fails(o, done, ReadAll(codec, log, reader.Pos(), None), paranoid, ok, false);
        break;
      }
    }
    if ok && mem.Some? {
      ConcatSnoc(tables, InMem(mem));
      tables := tables + [mem.value];
    }
  }

  /** Insert one record, and write the memtable out when it is full. */
  method ApplyRecord(r: Bytes, paranoid: bool, full: seq<Added> -> bool, tables: seq<seq<Added>>, mem: Option<seq<Added>>,
                     maxSequence: uint64, ghost max: uint64, ghost done: seq<Bytes>)
    returns (ok: bool, tables': seq<seq<Added>>, mem': Option<seq<Added>>, maxSequence': uint64)
    requires Rebuilt(tables, mem, maxSequence, max, done)
    ensures ok <==> !paranoid || Good(r)
    ensures ok ==> Rebuilt(tables', mem', maxSequence', max, done + [r])
    ensures tables' == tables || (exists t :: full(t) && tables' == tables + [t])
    ensures ok && |r| >= BATCH_HEADER && mem'.Some? ==> !full(mem'.value)
  {
    hide InsertRecord, Raise, Good, Concat, Inserted, MaxSequence;
    InsertedSnoc(done, r);
    MaxSequenceSnoc(max, done, r);
    tables', mem', maxSequence' := tables, mem, maxSequence;
    if |r| < BATCH_HEADER {
      TooSmall(r);
      return !paranoid, tables', mem', maxSequence';
    }
    ok, maxSequence', mem' := InsertInto(r, paranoid, maxSequence, mem);
    if ok && full(InMem(mem')) {
      ConcatSnoc(tables, InMem(mem'));
      tables', mem' := tables + [InMem(mem')], None;
    }
  }

  lemma Starts(o: Outcome, paranoid: bool, max: uint64)
    ensures Remaining(o, [], o, paranoid, true) && Rebuilt([], None, max, max, [])
  {
  }

  lemma Ends(o: Outcome, done: seq<Bytes>, rest: Outcome, paranoid: bool, ok: bool, dropped: bool)
    requires Remaining(o, done, rest, paranoid, ok) && rest == Outcome([], !dropped)
    ensures var ok' := ok && !(dropped && paranoid);
            (ok' <==> !paranoid || Intact(o)) && o.records == done
  {
  }

  /** An error under paranoid checks is an error of o. */
  lemma Fails(o: Outcome, done: seq<Bytes>, rest: Outcome, paranoid: bool, ok: bool, dropped: bool)
    requires Remaining(o, done, rest, paranoid, ok) && (dropped ==> !rest.clean) && (!ok || (dropped && paranoid))
    ensures paranoid && !Intact(o)
  {
  }

  lemma Advances(o: Outcome, done: seq<Bytes>, rest: Outcome, paranoid: bool, dropped: bool, r: Bytes, rest': Outcome)
    requires Remaining(o, done, rest, paranoid, true) && !(dropped && paranoid) && rest == Deliver(r, Drops(dropped, rest'))
    ensures Remaining(o, done + [r], rest', paranoid, !paranoid || Good(r))
  {
    hide Good;
    assert done + ([r] + rest'.records) == done + [r] + rest'.records;
    assert o.records[|done|] == r;
  }

  lemma TooSmall(r: Bytes)
    requires |r| < BATCH_HEADER
    ensures InsertRecord(r) == [] && !Good(r) && forall max :: Raise(max, r) == max
  {
  }

  /** Insert one batch; a malformed one is an error only under paranoid checks. */
  method InsertInto(r: Bytes, paranoid: bool, max: uint64, mem: Option<seq<Added>>)
    returns (ok: bool, max': uint64, mem': Option<seq<Added>>)
    requires |r| >= BATCH_HEADER
    ensures ok <==> !paranoid || Good(r)
    ensures ok ==> mem' == Some(InMem(mem) + InsertRecord(r)) && max' == Raise(max, r)
  {
    var handled, well := Iterate(r);
    mem' := Some(InMem(mem) + Numbered(SequenceOf(r), handled));
    ok := well || !paranoid;
    max' := max;
    if ok {
      var last := (SequenceOf(r) + CountOf(r) - 1) % 0x1_0000_0000_0000_0000;
      if last > max {
        max' := last;
      }
    }
  }

  // ---------------------------------------------------------------------------------------
  // Logs written by the store

  /** A group of writes logged as one batch: the updates carry sn, sn + 1, ... */
  datatype Group = Group(sn: uint64, updates: seq<Update>)

  predicate GroupOk(g: Group) {
    BatchOk(g.updates) && 0 < g.sn && g.sn + |g.updates| <= 0x1_0000_0000_0000_0000
  }

  predicate GroupsOk(gs: seq<Group>) {
    forall i :: 0 <= i < |gs| ==> GroupOk(gs[i])
  }

  function Records(gs: seq<Group>): (rs: seq<Bytes>)
    requires GroupsOk(gs)
    ensures |rs| == |gs| && forall i :: 0 <= i < |gs| ==> rs[i] == EncodeBatch(gs[i].sn, gs[i].updates)
  {
    if |gs| == 0 then [] else [EncodeBatch(gs[0].sn, gs[0].updates)] + Records(gs[1..])
  }

  /** The entries of the groups: each update once, in order, with its own sequence number. */
  function EntriesOf(gs: seq<Group>): (entries: seq<Added>) {
    if |gs| == 0 then [] else Numbered(gs[0].sn, gs[0].updates) + EntriesOf(gs[1..])
  }

  /** How many updates the first n groups hold. */
  function Total(gs: seq<Group>, n: nat): (t: nat)
    requires n <= |gs|
  {
    if n == 0 then 0 else Total(gs, n - 1) + |gs[n - 1].updates|
  }

  /** Update i of group g, with its own number, stands after all updates of the groups before. */
  predicate EntryAt(entries: seq<Added>, gs: seq<Group>, g: nat, i: nat)
    requires g < |gs| && i < |gs[g].updates|
  {
    var at := Total(gs, g) + i;
    at < |entries| && entries[at] == Added((gs[g].sn + i) % 0x1_0000_0000_0000_0000, gs[g].updates[i])
  }

  /** The entries are all updates of the groups, each once, in order. */
  ghost predicate InOrder(entries: seq<Added>, gs: seq<Group>) {
    && |entries| == Total(gs, |gs|)
    && forall g, i :: 0 <= g < |gs| && 0 <= i < |gs[g].updates| ==> EntryAt(entries, gs, g, i)
  }

  lemma {:induction false} TotalPrefix(gs: seq<Group>, more: seq<Group>, n: nat)
    requires n <= |gs|
    ensures Total(gs + more, n) == Total(gs, n)
    decreases n
  {
    if n > 0 {
      TotalPrefix(gs, more, n - 1);
    }
  }

  lemma {:induction false} EntriesSnoc(gs: seq<Group>, g: Group)
    ensures EntriesOf(gs + [g]) == EntriesOf(gs) + Numbered(g.sn, g.updates)
  {
    hide Numbered;
    if |gs| == 0 {
      assert gs + [g] == [g];
      assert EntriesOf([g]) == Numbered(g.sn, g.updates) + [];
    } else {
      assert (gs + [g])[1..] == gs[1..] + [g];
      EntriesSnoc(gs[1..], g);
    }
  }

  lemma {:induction false} EntriesInOrder(gs: seq<Group>)
    ensures InOrder(EntriesOf(gs), gs)
    decreases |gs|
  {
    hide Numbered, EntriesOf;
    if |gs| == 0 {
      assert EntriesOf([]) == [] by { NoEntries(); }
    } else {
      var n := |gs| - 1;
      var init, g := gs[..n], gs[n];
      assert gs == init + [g];
      EntriesInOrder(init);
      EntriesSnoc(init, g);
      NumberedIs(g.sn, g.updates);
      InOrderMore(EntriesOf(init), Numbered(g.sn, g.updates), init, g);
    }
  }

  lemma InOrderMore(entries: seq<Added>, more: seq<Added>, gs: seq<Group>, g: Group)
    requires InOrder(entries, gs) && |more| == |g.updates|
    requires forall i :: 0 <= i < |more| ==> more[i] == Added((g.sn + i) % 0x1_0000_0000_0000_0000, g.updates[i])
    ensures InOrder(entries + more, gs + [g])
  {
    var gs' := gs + [g];
    TotalPrefix(gs, [g], |gs|);
    forall h, i | 0 <= h < |gs'| && 0 <= i < |gs'[h].updates| ensures EntryAt(entries + more, gs', h, i) {
      TotalPrefix(gs, [g], h);
      if h < |gs| {
        assert gs'[h] == gs[h] && EntryAt(entries, gs, h, i);
      }
    }
  }

  lemma NoEntries()
    ensures EntriesOf([]) == []
  {
  }

  function LastOf(g: Group): (sn: int) {
    g.sn + |g.updates| - 1
  }

  function Highest(max: uint64, gs: seq<Group>): (m: int)
    decreases |gs|
  {
    if |gs| == 0 then max
    else
      var last := LastOf(gs[0]);
      Highest(if last > max && last < 0x1_0000_0000_0000_0000 then last else max, gs[1..])
  }

  /** The greatest of max and of the last numbers of the groups. */
  ghost predicate IsHighest(m: int, max: uint64, gs: seq<Group>) {
    && m >= max && (forall g :: 0 <= g < |gs| ==> m >= LastOf(gs[g]))
    && (m == max || exists g :: 0 <= g < |gs| && m == LastOf(gs[g]))
  }

  lemma {:induction false} HighestIs(max: uint64, gs: seq<Group>)
    requires GroupsOk(gs)
    ensures IsHighest(Highest(max, gs), max, gs)
    decreases |gs|
  {
    hide BatchOk;
    if |gs| > 0 {
      var m := if LastOf(gs[0]) > max then LastOf(gs[0]) else max;
      HighestIs(m, gs[1..]);
      assert forall g :: 0 <= g < |gs| - 1 ==> gs[1..][g] == gs[g + 1];
      assert forall g :: 0 < g < |gs| ==> gs[g] == gs[1..][g - 1];
    }
  }

  lemma GroupRecord(g: Group, max: uint64)
    requires GroupOk(g)
    ensures var r := EncodeBatch(g.sn, g.updates);
            && Good(r) && InsertRecord(r) == Numbered(g.sn, g.updates)
            && Raise(max, r) == if LastOf(g) > max then LastOf(g) else max
  {
    hide EncodeBatch, SequenceOf, CountOf, ParseBatch, Numbered;
    BatchRoundTrip(g.sn, g.updates);
    HeaderRoundTrip(g.sn, g.updates);
  }

  lemma {:induction false} ReplaysGroups(gs: seq<Group>, max: uint64)
    requires GroupsOk(gs)
    ensures Inserted(Records(gs)) == EntriesOf(gs)
    ensures MaxSequence(max, Records(gs)) == Highest(max, gs)
    decreases |gs|
  {
    hide EncodeBatch, InsertRecord, Raise, Numbered, Good;
    if |gs| > 0 {
      var rs := Records(gs);
      assert rs[0] == EncodeBatch(gs[0].sn, gs[0].updates) && rs[1..] == Records(gs[1..]);
      GroupRecord(gs[0], max);
      ReplaysGroups(gs[1..], Raise(max, rs[0]));
    }
  }

  lemma RecordsGood(gs: seq<Group>)
    requires GroupsOk(gs)
    ensures AllGood(Records(gs))
  {
    hide EncodeBatch, Good;
    var rs := Records(gs);
    forall i | 0 <= i < |rs| ensures Good(rs[i]) {
      GroupRecord(gs[i], 0);
    }
  }

  lemma RecordsPrefix(gs: seq<Group>, j: nat)
    requires GroupsOk(gs) && j <= |gs|
    ensures Records(gs)[..j] == Records(gs[..j])
  {
    hide EncodeBatch;
  }

  /** The number of groups that lie wholly in the first n bytes of their log. */
  ghost function WholeGroups(codec: Codec, gs: seq<Group>, n: nat): (j: nat)
    requires GroupsOk(gs)
    ensures j <= |gs|
  {
    Complete(codec, 0, Records(gs), n)
  }

  /**
   * Replaying any prefix x of the log of the groups gs gives exactly the entries, in order, and the greatest
   * sequence number of the groups that lie wholly inside x.
   */
  lemma RecoversPrefix(codec: Codec, gs: seq<Group>, x: Bytes, max: uint64)
    requires Sound(codec) && GroupsOk(gs) && x <= LogAt(codec, 0, Records(gs))
    ensures var o, whole := ReadAll(codec, x, 0, None), gs[..WholeGroups(codec, gs, |x|)];
            && Inserted(o.records) == EntriesOf(whole) && InOrder(Inserted(o.records), whole)
            && MaxSequence(max, o.records) == Highest(max, whole) && IsHighest(Highest(max, whole), max, whole)
            && (Intact(o) <==> CleanCut(codec, 0, Records(gs), |x|))
  {
    hide ReadAll, LogAt, Complete, CleanCut, Inserted, MaxSequence, EntriesOf, Highest, Records, Good, InOrder, IsHighest;
    var rs, j := Records(gs), WholeGroups(codec, gs, |x|);
    assert [] + x == x;
    ReadsLog(codec, [], rs, x);
    YieldsIs(codec, x, Outcome(rs[..j], CleanCut(codec, 0, rs, |x|)));
    RecordsPrefix(gs, j);
    ReplaysGroups(gs[..j], max);
    EntriesInOrder(gs[..j]);
    HighestIs(max, gs[..j]);
    RecordsGood(gs[..j]);
  }

  lemma YieldsIs(codec: Codec, file: Bytes, o: Outcome)
    requires Yields(codec, file, 0, o)
    ensures ReadAll(codec, file, 0, None) == o
  {
    hide ReadAll;
  }
}
