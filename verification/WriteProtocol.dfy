/**
 * The write path as a state machine (db/db_impl.cc, Write): calls queue up at any time; the call at the
 * front forms a group, and with the lock released logs it, syncs the log and applies it to the memtable,
 * before it completes every call of the group.
 */
module WriteProtocol {
  import opened Basics
  import opened Coding
  import opened Batch
  import opened Log
  import opened Recovery
  import opened WriteQueue

  const SEQUENCES := 0x1_0000_0000_0000_0000

  datatype Phase =
    | Idle
    | Grouped(n: nat, updates: seq<Update>)
    | Logged(n: nat, updates: seq<Update>)
    | Flushed(n: nat, updates: seq<Update>)
    | Applied(n: nat, updates: seq<Update>)

  datatype Completion = Completion(call: Call, ok: bool)

  /** A group in the log, and the calls it was written for. */
  datatype LogEntry = LogEntry(group: Group, members: seq<Call>)

  /** arrived is every call so far in order of arrival; synced is the number of log entries known to be on disk. */
  datatype State = State(arrived: seq<Call>, queue: seq<Call>, completed: seq<Completion>, last: nat,
                         log: seq<LogEntry>, synced: nat, mem: seq<Added>, phase: Phase)

  function Start(base: nat): (s: State) {
    State([], [], [], base, [], 0, [], Idle)
  }

  // ---------------------------------------------------------------------------------------
  // Steps

  datatype Step =
    | Enqueue(call: Call)
    | Reject
    | Nothing
    | Form(n: nat)
    | Append
    | Sync
    | Apply
    | Finish

  predicate Enabled(s: State, step: Step) {
    match step
    case Enqueue(c) => CallOk(c) && forall i :: 0 <= i < |s.arrived| ==> s.arrived[i].id != c.id
    case Reject => s.phase.Idle? && |s.queue| > 0
    case Nothing => s.phase.Idle? && |s.queue| > 0 && s.queue[0].batch.None?
    case Form(n) => s.phase.Idle? && |s.queue| > 0 && s.queue[0].batch.Some? && IsGroup(s.queue, n) && s.last + |Gathered(s.queue[..n])| + 1 < SEQUENCES
    case Append => s.phase.Grouped? && s.last + 1 < SEQUENCES
    case Sync => s.phase.Logged? && |s.queue| > 0 && s.queue[0].sync
    case Apply => |s.queue| > 0 && (s.phase.Flushed? || (s.phase.Logged? && !s.queue[0].sync)) && s.last + 1 < SEQUENCES
    case Finish => s.phase.Applied? && s.phase.n <= |s.queue|
  }

  function Accept(q: seq<Call>): (cs: seq<Completion>)
    ensures |cs| == |q| && forall i :: 0 <= i < |q| ==> cs[i] == Completion(q[i], true)
  {
    seq(|q|, i requires 0 <= i < |q| => Completion(q[i], true))
  }

  function Next(s: State, step: Step): (s': State)
    requires Enabled(s, step)
  {
    match step
    case Enqueue(c) => s.(arrived := s.arrived + [c], queue := s.queue + [c])
    case Reject => s.(completed := s.completed + [Completion(s.queue[0], false)], queue := s.queue[1..])
    case Nothing => s.(completed := s.completed + [Completion(s.queue[0], true)], queue := s.queue[1..])
    case Form(n) => s.(phase := Grouped(n, Gathered(s.queue[..n])))
    case Append =>
      var n, us := s.phase.n, s.phase.updates;
      s.(log := s.log + [LogEntry(Group(s.last + 1, us), Front(s.queue, n))], phase := Logged(n, us))
    case Sync => s.(synced := |s.log|, phase := Flushed(s.phase.n, s.phase.updates))
    case Apply => s.(mem := s.mem + Numbered(s.last + 1, s.phase.updates), phase := Applied(s.phase.n, s.phase.updates))
    case Finish =>
      var n := s.phase.n;
      s.(last := s.last + |s.phase.updates|, completed := s.completed + Accept(s.queue[..n]), queue := s.queue[n..], phase := Idle)
  }

  function Front(q: seq<Call>, n: nat): (f: seq<Call>) {
    if n <= |q| then q[..n] else q
  }

  // ---------------------------------------------------------------------------------------
  // What has been promised

  function CallsOf(cs: seq<Completion>): (q: seq<Call>)
    ensures |q| == |cs| && forall i :: 0 <= i < |cs| ==> q[i] == cs[i].call
  {
    seq(|cs|, i requires 0 <= i < |cs| => cs[i].call)
  }

  /** The completed calls that succeeded and had a batch, in order. */
  function Accepted(cs: seq<Completion>): (q: seq<Call>) {
    if |cs| == 0 then []
    else
      var c := cs[|cs| - 1];
      Accepted(cs[..|cs| - 1]) + if c.ok && c.call.batch.Some? then [c.call] else []
  }

  function WithBatch(q: seq<Call>): (r: seq<Call>) {
    if |q| == 0 then [] else WithBatch(q[..|q| - 1]) + if q[|q| - 1].batch.Some? then [q[|q| - 1]] else []
  }

  /** The calls with a batch that the log entries were written for, in order. */
  function LoggedCalls(log: seq<LogEntry>): (q: seq<Call>) {
    if |log| == 0 then [] else LoggedCalls(log[..|log| - 1]) + WithBatch(log[|log| - 1].members)
  }

  function Groups(log: seq<LogEntry>): (gs: seq<Group>)
    ensures |gs| == |log| && forall i :: 0 <= i < |log| ==> gs[i] == log[i].group
  {
    seq(|log|, i requires 0 <= i < |log| => log[i].group)
  }

  function InFlight(s: State): (q: seq<Call>) {
    if s.phase.Idle? then [] else Front(s.queue, s.phase.n)
  }

  predicate Distinct(q: seq<Call>) {
    forall i, j :: 0 <= i < j < |q| ==> q[i].id != q[j].id
  }

  predicate SyncLed(q: seq<Call>) {
    forall i :: 0 <= i < |q| && q[i].sync ==> q[0].sync
  }

  // ---------------------------------------------------------------------------------------
  // The invariant

  /** Calls leave the queue in the order in which they came, each once. */
  ghost predicate QueueOk(s: State) {
    s.arrived == CallsOf(s.completed) + s.queue && Distinct(s.arrived) && CallsOk(s.arrived)
  }

  ghost predicate PhaseOk(s: State) {
    s.phase.Idle? ||
    (&& 0 < s.phase.n <= |s.queue|
     && s.phase.updates == Gathered(s.queue[..s.phase.n])
     && BatchOk(s.phase.updates)
     && s.last + |s.phase.updates| + 1 < SEQUENCES
     && SyncLed(s.queue[..s.phase.n]))
  }

  /** The log is made of the accepted calls, and of those in flight once they are logged. */
  ghost predicate LogHolds(s: State) {
    LoggedCalls(s.log) == Accepted(s.completed) + if s.phase.Idle? || s.phase.Grouped? then [] else WithBatch(InFlight(s))
  }

  /** The entries of the log are numbered from base + 1 on. */
  ghost predicate LogNumbered(log: seq<LogEntry>, base: nat, last: nat) {
    && (forall i :: 0 <= i < |log| ==> EntryOk(log, i, base))
    && last == base + |Gathered(LoggedCalls(log))|
  }

  ghost predicate EntryOk(log: seq<LogEntry>, i: nat, base: nat)
    requires i < |log|
  {
    var e := log[i];
    && e.group.updates == Gathered(e.members)
    && e.group.sn == base + |Gathered(LoggedCalls(log[..i]))| + 1
    && GroupOk(e.group)
    && SyncLed(e.members)
  }

  function LastLogged(s: State): (last: nat) {
    if s.phase.Idle? || s.phase.Grouped? then s.last else s.last + |s.phase.updates|
  }

  /** The memtable holds the updates of the accepted calls, and of those in flight once they are applied. */
  ghost predicate MemHolds(s: State, base: nat) {
    && base + 1 <= s.last + 1 < SEQUENCES
    && s.mem == Numbered(base + 1, Gathered(Accepted(s.completed)) + if s.phase.Applied? then s.phase.updates else [])
  }

  /** A log entry past the synced ones has no sync call, except while it is being written. */
  ghost predicate SyncOk(s: State) {
    && s.synced <= |s.log|
    && (forall i, j :: s.synced <= i < |s.log| && 0 <= j < |s.log[i].members| && s.log[i].members[j].sync ==>
          s.phase.Logged? && i == |s.log| - 1 && s.log[i].members == InFlight(s))
  }

  ghost predicate Inv(s: State, base: nat) {
    QueueOk(s) && PhaseOk(s) && LogHolds(s) && LogNumbered(s.log, base, LastLogged(s)) && MemHolds(s, base) && SyncOk(s)
  }

  // ---------------------------------------------------------------------------------------
  // Lists of calls

  lemma {:induction false} WithBatchConcat(q: seq<Call>, r: seq<Call>)
    ensures WithBatch(q + r) == WithBatch(q) + WithBatch(r)
    decreases |r|
  {
    if |r| == 0 {
      assert q + r == q;
    } else {
      assert (q + r)[..|q + r| - 1] == q + r[..|r| - 1];
      WithBatchConcat(q, r[..|r| - 1]);
    }
  }

  lemma {:induction false} GatheredWithBatch(q: seq<Call>)
    ensures Gathered(WithBatch(q)) == Gathered(q)
  {
    if |q| > 0 {
      GatheredWithBatch(q[..|q| - 1]);
      if q[|q| - 1].batch.Some? {
        GatheredSnoc(WithBatch(q[..|q| - 1]), q[|q| - 1]);
      } else {
        assert WithBatch(q) == WithBatch(q[..|q| - 1]);
      }
    }
  }

  lemma {:induction false} AcceptedAll(cs: seq<Completion>, q: seq<Call>)
    ensures Accepted(cs + Accept(q)) == Accepted(cs) + WithBatch(q)
    decreases |q|
  {
    if |q| == 0 {
      assert cs + Accept(q) == cs;
    } else {
      var all := cs + Accept(q);
      assert all[..|all| - 1] == cs + Accept(q[..|q| - 1]);
      AcceptedAll(cs, q[..|q| - 1]);
    }
  }

  lemma AcceptedSnoc(cs: seq<Completion>, c: Completion)
    ensures Accepted(cs + [c]) == Accepted(cs) + if c.ok && c.call.batch.Some? then [c.call] else []
  {
    assert (cs + [c])[..|cs|] == cs;
  }

  lemma LoggedSnoc(log: seq<LogEntry>, e: LogEntry)
    ensures LoggedCalls(log + [e]) == LoggedCalls(log) + WithBatch(e.members)
  {
    assert (log + [e])[..|log|] == log;
  }

  lemma NumberedConcat(sn: uint64, us: seq<Update>, vs: seq<Update>)
    requires sn + |us| < SEQUENCES
    ensures Numbered(sn, us + vs) == Numbered(sn, us) + Numbered(sn + |us|, vs)
  {
    hide Numbered;
    NumberedIs(sn, us + vs);
    NumberedIs(sn, us);
    NumberedIs(sn + |us|, vs);
  }

  // ---------------------------------------------------------------------------------------
  // Every step keeps the invariant

  lemma QueueKept(s: State, s': State, done: seq<Completion>)
    requires QueueOk(s) && s'.arrived == s.arrived && |done| <= |s.queue|
    requires s'.completed == s.completed + done && s'.queue == s.queue[|done|..] && CallsOf(done) == s.queue[..|done|]
    ensures QueueOk(s')
  {
    assert s.queue == s.queue[..|done|] + s.queue[|done|..];
    assert CallsOf(s'.completed) == CallsOf(s.completed) + CallsOf(done);
  }

  lemma EnqueueKeeps(s: State, base: nat, c: Call)
    requires Inv(s, base) && Enabled(s, Enqueue(c))
    ensures Inv(Next(s, Enqueue(c)), base)
  {
    hide Gathered, WithBatch, Accepted, LoggedCalls, Numbered, BatchOk, LogNumbered;
    var s' := Next(s, Enqueue(c));
    assert CallsOf(s.completed) + s.queue + [c] == CallsOf(s.completed) + (s.queue + [c]);
    if !s.phase.Idle? {
      assert s'.queue[..s.phase.n] == s.queue[..s.phase.n];
    }
  }

  /** The front call completes without being logged. */
  lemma SkipKeeps(s: State, base: nat, step: Step)
    requires Inv(s, base) && (step.Reject? || step.Nothing?) && Enabled(s, step)
    ensures Inv(Next(s, step), base)
  {
    hide Gathered, WithBatch, Accepted, LoggedCalls, Numbered, BatchOk, LogNumbered, QueueOk;
    var s' := Next(s, step);
    var c := Completion(s.queue[0], step.Nothing?);
    AcceptedSnoc(s.completed, c);
    assert Accepted(s'.completed) == Accepted(s.completed);
    assert CallsOf([c]) == s.queue[..1];
    QueueKept(s, s', [c]);
  }

  lemma FormKeeps(s: State, base: nat, n: nat)
    requires Inv(s, base) && Enabled(s, Form(n))
    ensures Inv(Next(s, Form(n)), base)
  {
    hide Gathered, WithBatch, Accepted, LoggedCalls, Numbered, BatchOk, LogNumbered, TotalSize, Limit;
    var q := s.queue;
    assert CallsOk(q) by {
      assert forall i :: 0 <= i < |q| ==> q[i] == s.arrived[|s.completed| + i];
    }
    GroupFits(q, n);
    forall i | 0 <= i < n && q[i].sync ensures q[0].sync {
      assert i > 0 ==> Joins(q, i);
    }
  }

  lemma AppendKeeps(s: State, base: nat)
    requires Inv(s, base) && Enabled(s, Append)
    ensures Inv(Next(s, Append), base)
  {
    hide Gathered, WithBatch, Accepted, LoggedCalls, Numbered, LogNumbered, BatchOk;
    var s', e := Next(s, Append), LogEntry(Group(s.last + 1, s.phase.updates), InFlight(s));
    LoggedSnoc(s.log, e);
    EntryAppended(s.log, base, s.last, e);
    assert forall i :: 0 <= i < |s.log| ==> s'.log[i] == s.log[i];
  }

  lemma EntryAppended(log: seq<LogEntry>, base: nat, last: nat, e: LogEntry)
    requires LogNumbered(log, base, last) && e.group.sn == last + 1 && e.group.updates == Gathered(e.members)
    requires GroupOk(e.group) && SyncLed(e.members)
    ensures LogNumbered(log + [e], base, last + |e.group.updates|)
  {
    hide Gathered, WithBatch, LoggedCalls, GroupOk, SyncLed;
    var log' := log + [e];
    LoggedSnoc(log, e);
    GatheredConcat(LoggedCalls(log), WithBatch(e.members));
    GatheredWithBatch(e.members);
    forall i | 0 <= i < |log'| ensures EntryOk(log', i, base) {
      if i < |log| {
        assert EntryOk(log, i, base) && log'[..i] == log[..i];
      } else {
        assert log'[..i] == log;
      }
    }
  }

  lemma SyncKeeps(s: State, base: nat)
    requires Inv(s, base) && Enabled(s, Sync)
    ensures Inv(Next(s, Sync), base)
  {
    hide Gathered, WithBatch, Accepted, LoggedCalls, Numbered, BatchOk, LogNumbered;
  }

  /** The updates in flight are numbered right after those of the accepted calls. */
  lemma LastIs(s: State, base: nat)
    requires Inv(s, base)
    ensures s.last == base + |Gathered(Accepted(s.completed))|
    ensures Gathered(LoggedCalls(s.log)) ==
            Gathered(Accepted(s.completed)) + if s.phase.Idle? || s.phase.Grouped? then [] else s.phase.updates
  {
    hide Gathered, WithBatch, Accepted, LoggedCalls, Numbered, BatchOk, QueueOk, MemHolds, SyncOk, EntryOk;
    if s.phase.Idle? || s.phase.Grouped? {
      assert LoggedCalls(s.log) == Accepted(s.completed);
    } else {
      GatheredConcat(Accepted(s.completed), WithBatch(InFlight(s)));
      GatheredWithBatch(InFlight(s));
    }
  }

  lemma ApplyKeeps(s: State, base: nat)
    requires Inv(s, base) && Enabled(s, Apply)
    ensures Inv(Next(s, Apply), base)
  {
    hide Gathered, WithBatch, Accepted, LoggedCalls, Numbered, BatchOk, LogNumbered;
    var g := Gathered(Accepted(s.completed));
    LastIs(s, base);
    NumberedConcat(base + 1, g, s.phase.updates);
    assert g + [] == g;
  }

  lemma FinishKeeps(s: State, base: nat)
    requires Inv(s, base) && Enabled(s, Finish)
    ensures Inv(Next(s, Finish), base)
  {
    hide Gathered, WithBatch, Accepted, LoggedCalls, Numbered, BatchOk, LogNumbered, QueueOk;
    var s', front := Next(s, Finish), s.queue[..s.phase.n];
    AcceptedAll(s.completed, front);
    GatheredConcat(Accepted(s.completed), WithBatch(front));
    GatheredWithBatch(front);
    assert CallsOf(Accept(front)) == front;
    QueueKept(s, s', Accept(front));
    assert Accepted(s'.completed) + [] == Accepted(s'.completed);
    assert Gathered(Accepted(s'.completed)) + [] == Gathered(Accepted(s'.completed));
  }

  lemma StepKeeps(s: State, base: nat, step: Step)
    requires Inv(s, base) && Enabled(s, step)
    ensures Inv(Next(s, step), base)
  {
    hide Inv, Next, Enabled;
    match step
    case Enqueue(c) => EnqueueKeeps(s, base, c);
    case Reject => SkipKeeps(s, base, step);
    case Nothing => SkipKeeps(s, base, step);
    case Form(n) => FormKeeps(s, base, n);
    case Append => AppendKeeps(s, base);
    case Sync => SyncKeeps(s, base);
    case Apply => ApplyKeeps(s, base);
    case Finish => FinishKeeps(s, base);
  }

  // ---------------------------------------------------------------------------------------
  // Every run

  ghost predicate IsRun(ss: seq<State>, steps: seq<Step>, base: nat) {
    && |ss| == |steps| + 1
    && ss[0] == Start(base)
    && (forall i :: 0 <= i < |steps| ==> Enabled(ss[i], steps[i]) && ss[i + 1] == Next(ss[i], steps[i]))
  }

  lemma StartInv(base: nat)
    requires base + 1 < SEQUENCES
    ensures Inv(Start(base), base)
  {
    assert CallsOf([]) + [] == [];
  }

  lemma {:induction false} RunInv(ss: seq<State>, steps: seq<Step>, base: nat, k: nat)
    requires base + 1 < SEQUENCES && IsRun(ss, steps, base) && k < |ss|
    ensures Inv(ss[k], base)
  {
    hide Inv, Next, Enabled;
    if k == 0 {
      StartInv(base);
    } else {
      RunInv(ss, steps, base, k - 1);
      StepKeeps(ss[k - 1], base, steps[k - 1]);
    }
  }

  /** How many updates the accepted ones among the first m completed calls hold. */
  function UpTo(cs: seq<Completion>, m: nat): (n: nat)
    requires m <= |cs|
  {
    if m == 0 then 0
    else
      var c := cs[m - 1];
      UpTo(cs, m - 1) + if c.ok && c.call.batch.Some? then |c.call.batch.value| else 0
  }

  /** Update i of call m, numbered consecutively from base + 1, stands after all updates of the calls accepted before. */
  predicate UpdateAt(mem: seq<Added>, cs: seq<Completion>, base: nat, m: nat, i: nat)
    requires m < |cs| && cs[m].call.batch.Some? && i < |cs[m].call.batch.value|
  {
    var at := UpTo(cs, m) + i;
    at < |mem| && base + 1 + at < SEQUENCES && mem[at] == Added(base + 1 + at, cs[m].call.batch.value[i])
  }

  /** The entries are all updates of the accepted calls, each once, in order. */
  ghost predicate Placed(mem: seq<Added>, cs: seq<Completion>, base: nat) {
    && |mem| == UpTo(cs, |cs|)
    && forall m, i :: 0 <= m < |cs| && cs[m].ok && cs[m].call.batch.Some? && 0 <= i < |cs[m].call.batch.value| ==> UpdateAt(mem, cs, base, m, i)
  }

  lemma {:induction false} UpToPrefix(cs: seq<Completion>, c: Completion, m: nat)
    requires m <= |cs|
    ensures UpTo(cs + [c], m) == UpTo(cs, m)
    decreases m
  {
    if m > 0 {
      UpToPrefix(cs, c, m - 1);
    }
  }

  lemma {:induction false} AcceptedPlaced(cs: seq<Completion>, base: nat)
    requires base + |Gathered(Accepted(cs))| + 1 < SEQUENCES
    ensures UpTo(cs, |cs|) == |Gathered(Accepted(cs))|
    ensures Placed(Numbered(base + 1, Gathered(Accepted(cs))), cs, base)
    decreases |cs|
  {
    hide Gathered, Accepted, Numbered, Placed, UpdateAt;
    if |cs| == 0 {
      NothingAccepted(base);
    } else {
      var n := |cs| - 1;
      var init, c := cs[..n], cs[n];
      assert cs == init + [c];
      var us := if c.ok && c.call.batch.Some? then c.call.batch.value else [];
      AcceptedMore(init, c);
      AcceptedPlaced(init, base);
      var g := Gathered(Accepted(init));
      NumberedConcat(base + 1, g, us);
      NumberedIs(base + 1, g);
      NumberedIs(base + 1 + |g|, us);
      UpToPrefix(init, c, n);
      PlacedMore(Numbered(base + 1, g), Numbered(base + 1 + |g|, us), init, c, base);
    }
  }

  lemma AcceptedMore(cs: seq<Completion>, c: Completion)
    ensures Gathered(Accepted(cs + [c])) == Gathered(Accepted(cs)) + if c.ok && c.call.batch.Some? then c.call.batch.value else []
  {
    hide Gathered, Accepted;
    AcceptedSnoc(cs, c);
    if c.ok && c.call.batch.Some? {
      GatheredSnoc(Accepted(cs), c.call);
    } else {
      assert Accepted(cs) + [] == Accepted(cs);
    }
  }

  lemma PlacedMore(mem: seq<Added>, more: seq<Added>, cs: seq<Completion>, c: Completion, base: nat)
    requires Placed(mem, cs, base) && base + 1 + |mem| + |more| < SEQUENCES + 1
    requires |more| == if c.ok && c.call.batch.Some? then |c.call.batch.value| else 0
    requires forall i :: 0 <= i < |more| ==> base + 1 + |mem| + i < SEQUENCES && more[i] == Added(base + 1 + |mem| + i, c.call.batch.value[i])
    ensures Placed(mem + more, cs + [c], base)
  {
    var cs', all := cs + [c], mem + more;
    UpToPrefix(cs, c, |cs|);
    forall m, i | 0 <= m < |cs'| && cs'[m].ok && cs'[m].call.batch.Some? && 0 <= i < |cs'[m].call.batch.value| ensures UpdateAt(all, cs', base, m, i) {
      UpToPrefix(cs, c, m);
      if m < |cs| {
        assert cs'[m] == cs[m] && UpdateAt(mem, cs, base, m, i);
      }
    }
  }

  lemma NothingAccepted(base: nat)
    requires base + 1 < SEQUENCES
    ensures Gathered(Accepted([])) == [] && Placed(Numbered(base + 1, []), [], base)
  {
  }

  /** How many updates the first n log entries hold. */
  function Lead(log: seq<LogEntry>, n: nat): (t: nat)
    requires n <= |log|
  {
    if n == 0 then 0 else Lead(log, n - 1) + |log[n - 1].group.updates|
  }

  /** Update i of log entry e, numbered consecutively from base + 1, stands after all updates of the entries before. */
  predicate LoggedAt(entries: seq<Added>, log: seq<LogEntry>, base: nat, e: nat, i: nat)
    requires e < |log| && i < |log[e].group.updates|
  {
    var at := Lead(log, e) + i;
    at < |entries| && base + 1 + at < SEQUENCES && entries[at] == Added(base + 1 + at, log[e].group.updates[i])
  }

  /** The entries are all updates of the first n log entries, each once, in order. */
  ghost predicate Replayed(entries: seq<Added>, log: seq<LogEntry>, n: nat, base: nat)
    requires n <= |log|
  {
    && |entries| == Lead(log, n)
    && forall e, i :: 0 <= e < n && 0 <= i < |log[e].group.updates| ==> LoggedAt(entries, log, base, e, i)
  }

  lemma {:induction false} LeadIs(log: seq<LogEntry>, base: nat, last: nat, n: nat)
    requires LogNumbered(log, base, last) && n <= |log|
    ensures Lead(log, n) == |Gathered(LoggedCalls(log[..n]))| == Total(Groups(log), n)
    decreases n
  {
    hide Gathered, LoggedCalls, WithBatch, GroupOk, SyncLed;
    if n == 0 {
      assert log[..0] == [];
      NothingLogged();
    } else {
      LeadIs(log, base, last, n - 1);
      LogPrefix(log, base, n - 1);
      assert log[..n] == log[..n - 1] + [log[n - 1]];
      LoggedSnoc(log[..n - 1], log[n - 1]);
    }
  }

  lemma NothingLogged()
    ensures Gathered(LoggedCalls([])) == []
  {
  }

  lemma OrderReplayed(entries: seq<Added>, log: seq<LogEntry>, base: nat, last: nat, n: nat)
    requires LogNumbered(log, base, last) && last + 1 < SEQUENCES && n <= |log| && InOrder(entries, Groups(log)[..n])
    ensures Replayed(entries, log, n, base)
  {
    hide Gathered, LoggedCalls, SyncLed, Total, Lead, BatchOk;
    var gs := Groups(log)[..n];
    TotalLead(log, base, last, n, n);
    forall e, i | 0 <= e < n && 0 <= i < |log[e].group.updates| ensures LoggedAt(entries, log, base, e, i) {
      TotalLead(log, base, last, n, e);
      assert EntryOk(log, e, base) && gs[e] == log[e].group && EntryAt(entries, gs, e, i);
    }
  }

  lemma TotalLead(log: seq<LogEntry>, base: nat, last: nat, n: nat, k: nat)
    requires LogNumbered(log, base, last) && k <= n <= |log|
    ensures Lead(log, k) == Total(Groups(log)[..n], k) == |Gathered(LoggedCalls(log[..k]))|
  {
    hide Gathered, LoggedCalls, LogNumbered;
    var gs := Groups(log)[..n];
    LeadIs(log, base, last, k);
    assert Groups(log) == gs + Groups(log)[n..];
    TotalPrefix(gs, Groups(log)[n..], k);
  }

  /**
   * In every state of every run the calls complete in order of arrival, each once, and between groups the
   * memtable and the log hold exactly the updates of the accepted batches, in that order, with consecutive
   * sequence numbers from base + 1 to the last sequence.
   */
  lemma AppliedOnce(ss: seq<State>, steps: seq<Step>, base: nat, k: nat)
    requires base + 1 < SEQUENCES && IsRun(ss, steps, base) && k < |ss|
    ensures var s := ss[k];
            && s.arrived == CallsOf(s.completed) + s.queue && Distinct(s.arrived)
            && s.last == base + UpTo(s.completed, |s.completed|) && s.last + 1 < SEQUENCES
            && (forall e :: 0 <= e < |s.log| ==> Lined(s.log[e].group.updates, s.log[e].members))
            && (s.phase.Idle? ==>
                  && Placed(s.mem, s.completed, base) && Replayed(s.mem, s.log, |s.log|, base)
                  && LoggedCalls(s.log) == Accepted(s.completed)
                  && EntriesOf(Groups(s.log)) == s.mem)
  {
    hide IsRun, Next, Enabled, Gathered, WithBatch, Accepted, LoggedCalls, Numbered, EntriesOf, EntryOk, Placed, Lined, InOrder, Replayed;
    var s := ss[k];
    RunInv(ss, steps, base, k);
    LastIs(s, base);
    AcceptedPlaced(s.completed, base);
    EntriesLined(s.log, base);
    if s.phase.Idle? {
      EntriesInOrder(Groups(s.log));
      assert Groups(s.log)[..|s.log|] == Groups(s.log);
      OrderReplayed(EntriesOf(Groups(s.log)), s.log, base, s.last, |s.log|);
      assert Accepted(s.completed) + [] == Accepted(s.completed);
      assert Gathered(Accepted(s.completed)) + [] == Gathered(Accepted(s.completed));
      LogEntries(s.log, base, s.last);
    }
  }

  lemma EntriesLined(log: seq<LogEntry>, base: nat)
    requires forall i :: 0 <= i < |log| ==> EntryOk(log, i, base)
    ensures forall e :: 0 <= e < |log| ==> Lined(log[e].group.updates, log[e].members)
  {
    hide Lined, Gathered, LoggedCalls;
    forall e | 0 <= e < |log| ensures Lined(log[e].group.updates, log[e].members) {
      assert EntryOk(log, e, base);
      GatheredLined(log[e].members);
    }
  }

  /** No sync call is carried by a group whose leader does not sync. */
  lemma SyncNeverCarried(ss: seq<State>, steps: seq<Step>, base: nat, k: nat, i: nat, j: nat)
    requires base + 1 < SEQUENCES && IsRun(ss, steps, base) && k < |ss|
    requires i < |ss[k].log| && j < |ss[k].log[i].members| && ss[k].log[i].members[j].sync
    ensures ss[k].log[i].members[0].sync
  {
    hide IsRun, Next, Enabled, Gathered, WithBatch, Accepted, LoggedCalls, Numbered;
    RunInv(ss, steps, base, k);
    assert EntryOk(ss[k].log, i, base);
  }

  lemma {:induction false} LogEntries(log: seq<LogEntry>, base: nat, last: nat)
    requires LogNumbered(log, base, last) && last + 1 < SEQUENCES
    ensures GroupsOk(Groups(log))
    ensures EntriesOf(Groups(log)) == Numbered(base + 1, Gathered(LoggedCalls(log)))
    ensures Highest(base, Groups(log)) == last
    decreases |log|
  {
    hide Gathered, WithBatch, LoggedCalls, Numbered, EntriesOf, Highest, GroupOk, SyncLed, EntryOk;
    if |log| == 0 {
      Empty(base);
    } else {
      var n := |log| - 1;
      var e, init := log[n], log[..n];
      assert log == init + [e];
      assert Groups(log) == Groups(init) + [e.group];
      LoggedSnoc(init, e);
      LogPrefix(log, base, n);
      LogEntries(init, base, e.group.sn - 1);
      NumberedConcat(base + 1, Gathered(LoggedCalls(init)), e.group.updates);
      EntriesSnoc(Groups(init), e.group);
      HighestSnoc(base, Groups(init), e.group);
    }
  }

  lemma Empty(base: nat)
    requires base + 1 < SEQUENCES
    ensures LoggedCalls([]) == [] && Gathered([]) == [] && EntriesOf([]) == [] && Numbered(base + 1, []) == [] && Highest(base, []) == base
  {
  }

  lemma LogPrefix(log: seq<LogEntry>, base: nat, n: nat)
    requires n < |log| && forall i :: 0 <= i < |log| ==> EntryOk(log, i, base)
    ensures EntryOk(log, n, base) && LogNumbered(log[..n], base, log[n].group.sn - 1)
    ensures GroupOk(log[n].group)
    ensures var us := log[n].group.updates;
            us == Gathered(WithBatch(log[n].members)) &&
            Gathered(LoggedCalls(log[..n]) + WithBatch(log[n].members)) == Gathered(LoggedCalls(log[..n])) + us
  {
    hide Gathered, WithBatch, LoggedCalls, GroupOk, SyncLed;
    forall i | 0 <= i < n ensures EntryOk(log[..n], i, base) {
      assert EntryOk(log, i, base) && log[..n][..i] == log[..i];
    }
    assert EntryOk(log, n, base);
    GatheredWithBatch(log[n].members);
    GatheredConcat(LoggedCalls(log[..n]), WithBatch(log[n].members));
  }

  lemma {:induction false} HighestSnoc(max: uint64, gs: seq<Group>, g: Group)
    requires GroupOk(g) && GroupsOk(gs)
    ensures Highest(max, gs + [g]) == if LastOf(g) > Highest(max, gs) then LastOf(g) else Highest(max, gs)
    decreases |gs|
  {
    hide BatchOk;
    if |gs| == 0 {
      assert gs + [g] == [g];
    } else {
      assert (gs + [g])[1..] == gs[1..] + [g];
      HighestSnoc(if LastOf(gs[0]) > max then LastOf(gs[0]) else max, gs[1..], g);
    }
  }

  /** The bytes of the log file. */
  ghost function LogBytes(codec: Codec, log: seq<LogEntry>): (b: Bytes) {
    if GroupsOk(Groups(log)) then LogAt(codec, 0, Records(Groups(log))) else []
  }

  /** How many entries lie wholly in the first n bytes of the log file. */
  ghost function WholeEntries(codec: Codec, log: seq<LogEntry>, n: nat): (j: nat)
    ensures j <= |log|
  {
    if GroupsOk(Groups(log)) then WholeGroups(codec, Groups(log), n) else 0
  }

  /**
   * After a crash that leaves any prefix x of the log, recovery rebuilds exactly the updates of the calls of
   * the log entries that lie wholly in x, numbered as they were; no synced entry is lost when x holds the
   * synced bytes.
   */
  lemma CrashRecovers(codec: Codec, ss: seq<State>, steps: seq<Step>, base: nat, k: nat, x: Bytes)
    requires base + 1 < SEQUENCES && IsRun(ss, steps, base) && k < |ss|
    requires Sound(codec) && x <= LogBytes(codec, ss[k].log)
    ensures var log, o := ss[k].log, ReadAll(codec, x, 0, None);
            var j := WholeEntries(codec, log, |x|);
            && Replayed(Inserted(o.records), log, j, base)
            && (forall e :: 0 <= e < |log| ==> Lined(log[e].group.updates, log[e].members))
            && MaxSequence(base, o.records) == base + Lead(log, j)
            && Inserted(o.records) == Numbered(base + 1, Gathered(LoggedCalls(log[..j])))
            && ss[k].synced <= |log|
            && (|LogBytes(codec, log[..ss[k].synced])| <= |x| ==> ss[k].synced <= j)
  {
    hide IsRun, Next, Enabled, Gathered, Accepted, LoggedCalls, LogNumbered, Replayed, Lined, LogBytes, WholeEntries, ReadAll, Inserted, MaxSequence, Lead, BatchOk;
    var s := ss[k];
    RunInv(ss, steps, base, k);
    LogRecovers(codec, s.log, base, LastLogged(s), x);
    if |LogBytes(codec, s.log[..s.synced])| <= |x| {
      WholeAtLeast(codec, s.log, base, LastLogged(s), s.synced, |x|);
    }
  }

  /** Recovery itself: the tables it writes hold exactly the updates of the log entries wholly in x, numbered as they were. */
  method RecoverAfterCrash(codec: Codec, ghost ss: seq<State>, ghost steps: seq<Step>, base: nat, ghost k: nat, x: Bytes,
                           paranoid: bool, full: seq<Added> -> bool)
    returns (tables: seq<seq<Added>>, maxSequence: uint64, ok: bool)
    requires base + 1 < SEQUENCES && IsRun(ss, steps, base) && k < |ss|
    requires Sound(codec) && x <= LogBytes(codec, ss[k].log)
    ensures !paranoid ==> ok
    ensures var log, j := ss[k].log, WholeEntries(codec, ss[k].log, |x|);
            ok ==> Replayed(Concat(tables), log, j, base) && maxSequence == base + Lead(log, j)
  {
    hide IsRun, Replayed, LogBytes, WholeEntries, ReadAll, Inserted, MaxSequence, Lead, Intact, Concat, Lined;
    CrashRecovers(codec, ss, steps, base, k, x);
    tables, maxSequence, ok := RecoverLogFile(codec, x, paranoid, base, full);
  }

  /** Replaying a prefix of a log whose entries are numbered from base + 1 on. */
  lemma LogRecovers(codec: Codec, log: seq<LogEntry>, base: nat, last: nat, x: Bytes)
    requires LogNumbered(log, base, last) && last + 1 < SEQUENCES && Sound(codec) && x <= LogBytes(codec, log)
    ensures var o, j := ReadAll(codec, x, 0, None), WholeEntries(codec, log, |x|);
            && Replayed(Inserted(o.records), log, j, base)
            && (forall e :: 0 <= e < |log| ==> Lined(log[e].group.updates, log[e].members))
            && MaxSequence(base, o.records) == base + Lead(log, j)
            && Inserted(o.records) == Numbered(base + 1, Gathered(LoggedCalls(log[..j])))
  {
    hide Gathered, LoggedCalls, Numbered, Records, LogAt, ReadAll, EntriesOf, Highest, Inserted, MaxSequence, GroupOk, EntryOk, CleanCut, Lined, Replayed, InOrder, IsHighest, Lead, WholeGroups;
    var gs, j := Groups(log), WholeEntries(codec, log, |x|);
    LogEntries(log, base, last);
    RecoversPrefix(codec, gs, x, base);
    assert gs[..j] == Groups(log[..j]);
    PrefixNumbered(log, base, last, j);
    EntriesLined(log, base);
    LeadIs(log, base, last, j);
    OrderReplayed(Inserted(ReadAll(codec, x, 0, None).records), log, base, last, j);
  }

  /** Entries whose bytes are all there are whole. */
  lemma WholeAtLeast(codec: Codec, log: seq<LogEntry>, base: nat, last: nat, n: nat, size: nat)
    requires LogNumbered(log, base, last) && last + 1 < SEQUENCES && n <= |log| && |LogBytes(codec, log[..n])| <= size
    ensures n <= WholeEntries(codec, log, size)
  {
    hide Gathered, LoggedCalls, Records, LogAt, Highest, GroupOk, EntryOk, Log.Complete;
    var gs := Groups(log);
    LogEntries(log, base, last);
    assert gs[..n] == Groups(log[..n]);
    RecordsPrefix(gs, n);
    CompleteAtLeast(codec, 0, Records(gs), n, size);
  }

  lemma PrefixNumbered(log: seq<LogEntry>, base: nat, last: nat, j: nat)
    requires LogNumbered(log, base, last) && last + 1 < SEQUENCES && j <= |log|
    ensures EntriesOf(Groups(log[..j])) == Numbered(base + 1, Gathered(LoggedCalls(log[..j])))
    ensures Highest(base, Groups(log[..j])) == base + |Gathered(LoggedCalls(log[..j]))|
  {
    hide Gathered, WithBatch, LoggedCalls, Numbered, EntriesOf, Highest, GroupOk, EntryOk;
    if j == |log| {
      assert log[..j] == log;
      LogEntries(log, base, last);
    } else {
      LogPrefix(log, base, j);
      assert log[j].group.sn < SEQUENCES;
      LogEntries(log[..j], base, log[j].group.sn - 1);
    }
  }

  /** A completed sync call is in a synced log entry. */
  lemma Durable(ss: seq<State>, steps: seq<Step>, base: nat, k: nat, m: nat)
    requires base + 1 < SEQUENCES && IsRun(ss, steps, base) && k < |ss|
    requires m < |ss[k].completed| && ss[k].completed[m].ok && ss[k].completed[m].call.sync && ss[k].completed[m].call.batch.Some?
    ensures exists i :: 0 <= i < ss[k].synced && i < |ss[k].log| && ss[k].completed[m].call in ss[k].log[i].members
  {
    hide IsRun, Next, Enabled, Gathered, WithBatch, Accepted, LoggedCalls, Numbered, LogNumbered, MemHolds, PhaseOk;
    var s := ss[k];
    var c := s.completed[m].call;
    RunInv(ss, steps, base, k);
    AcceptedHas(s.completed, m);
    assert c in LoggedCalls(s.log);
    var i := LoggedIn(s.log, c);
    NotQueued(s, m);
    var j :| 0 <= j < |s.log[i].members| && s.log[i].members[j] == c;
    assert s.log[i].members[j].sync && s.log[i].members != InFlight(s);
  }

  lemma NotQueued(s: State, m: nat)
    requires QueueOk(s) && m < |s.completed|
    ensures s.completed[m].call !in s.queue
  {
    assert s.arrived[m] == s.completed[m].call;
    forall j | 0 <= j < |s.queue| ensures s.queue[j] != s.completed[m].call {
      assert s.arrived[|s.completed| + j] == s.queue[j];
    }
  }

  lemma {:induction false} AcceptedHas(cs: seq<Completion>, m: nat)
    requires m < |cs| && cs[m].ok && cs[m].call.batch.Some?
    ensures cs[m].call in Accepted(cs)
  {
    if m < |cs| - 1 {
      AcceptedHas(cs[..|cs| - 1], m);
    }
  }

  lemma {:induction false} LoggedIn(log: seq<LogEntry>, c: Call) returns (i: nat)
    requires c in LoggedCalls(log)
    ensures i < |log| && c in log[i].members
  {
    var n := |log| - 1;
    if c in LoggedCalls(log[..n]) {
      i := LoggedIn(log[..n], c);
    } else {
      WithBatchIn(log[n].members, c);
      i := n;
    }
  }

  lemma {:induction false} WithBatchIn(q: seq<Call>, c: Call)
    requires c in WithBatch(q)
    ensures c in q
  {
    if c in WithBatch(q[..|q| - 1]) {
      WithBatchIn(q[..|q| - 1], c);
    }
  }
}
