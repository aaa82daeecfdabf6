/**
 * The skip list under interference (db/skiplist.h): one writer links a node store by store while any number
 * of readers search, one load at a time, in every possible interleaving.
 */
module SkipReaders {
  import opened Basics
  import opened SkipList

  /** What the writer is doing: linking node x at level i; own says that x already points to its successor there. */
  datatype Phase = Quiet | Links(x: nat, prev: seq<nat>, i: nat, own: bool)

  /** How an iterator came to its node; seen is the list of nodes that were in the list when the call began. */
  datatype How =
    | Nowhere
    | Sought(target: Key, seen: seq<nat>)
    | Stepped(from: Key, seen: seq<nat>)
    | Backed(target: Key, seen: seq<nat>)
    | WentFirst(seen: seq<nat>)
    | WentLast(seen: seq<nat>)

  datatype Reader =
    | At(node: Option<nat>, how: How)
    | Seeking(target: Key, x: nat, level: nat, seen: seq<nat>)
    | Backing(target: Key, x: nat, level: nat, seen: seq<nat>)
    | Lasting(x: nat, level: nat, seen: seq<nat>)

  datatype State = State(mem: Mem, lists: seq<seq<nat>>, maxHeight: nat, phase: Phase, readers: map<nat, Reader>)

  datatype Step =
    | Insert(key: Key, height: nat, prev: seq<nat>)
    | SetOwn
    | Publish
    | Open(r: nat)
    | StartSeek(r: nat, target: Key, height: nat)
    | SeekToFirst(r: nat)
    | Next(r: nat)
    | StartPrev(r: nat, height: nat)
    | StartLast(r: nat, height: nat)
    | Load(r: nat)

  // ---------------------------------------------------------------------------------------
  // Steps

  ghost predicate Busy(s: State) {
    && s.phase.Links? && Linking(s.mem, s.lists, s.phase.x, s.phase.prev, s.phase.i) && s.phase.i < Height(s.mem, s.phase.x)
    && HasLink(s.mem, s.phase.prev[s.phase.i], s.phase.i) && HasLink(s.mem, s.phase.x, s.phase.i)
  }

  predicate Resting(s: State, r: nat) {
    r in s.readers && s.readers[r].At?
  }

  predicate OnNode(s: State, r: nat) {
    Resting(s, r) && s.readers[r].node.Some? && s.readers[r].node.value < |s.mem.keys| && HasLink(s.mem, s.readers[r].node.value, 0)
  }

  /** The height a reader starts from may be stale; any height at all will do. */
  ghost predicate Enabled(s: State, step: Step) {
    match step
    case Insert(key, height, prev) =>
      && s.phase.Quiet? && Levels(s.mem, s.lists) && 1 <= height <= MAX_HEIGHT && height <= |prev|
      && (forall j :: 0 <= j < height ==> PrevAt(s.mem, s.lists[j], key, prev[j]))
    case SetOwn => Busy(s) && !s.phase.own
    case Publish => Busy(s) && s.phase.own
    case Open(r) => r !in s.readers
    case StartSeek(r, target, height) => Resting(s, r) && 1 <= height <= MAX_HEIGHT && |s.lists| == MAX_HEIGHT
    case SeekToFirst(r) => Resting(s, r) && HasLink(s.mem, HEAD, 0) && |s.lists| == MAX_HEIGHT
    case Next(r) => OnNode(s, r) && |s.lists| == MAX_HEIGHT
    case StartPrev(r, height) => OnNode(s, r) && 1 <= height <= MAX_HEIGHT && |s.lists| == MAX_HEIGHT
    case StartLast(r, height) => Resting(s, r) && 1 <= height <= MAX_HEIGHT && |s.lists| == MAX_HEIGHT
    case Load(r) => r in s.readers && !s.readers[r].At? && HasLink(s.mem, s.readers[r].x, s.readers[r].level)
  }

  function Below(m: Mem, n: Option<nat>, target: Key): (b: bool) {
    n.Some? && n.value < |m.keys| && m.keys[n.value] < target
  }

  /** What a search makes of the link it has just loaded. */
  function Loaded(m: Mem, rd: Reader): (rd': Reader)
    requires !rd.At? && HasLink(m, rd.x, rd.level)
  {
    var n := Link(m, rd.x, rd.level);
    match rd
    case Seeking(target, x, level, seen) =>
      if Below(m, n, target) then Seeking(target, n.value, level, seen)
      else if level == 0 then At(n, Sought(target, seen))
      else Seeking(target, x, level - 1, seen)
    case Backing(target, x, level, seen) =>
      if Below(m, n, target) then Backing(target, n.value, level, seen)
      else if level == 0 then At(if x == HEAD then None else Some(x), Backed(target, seen))
      else Backing(target, x, level - 1, seen)
    case Lasting(x, level, seen) =>
      if n.Some? then Lasting(n.value, level, seen)
      else if level == 0 then At(if x == HEAD then None else Some(x), WentLast(seen))
      else Lasting(x, level - 1, seen)
  }

  ghost function Step1(s: State, step: Step): (s': State)
    requires Enabled(s, step)
  {
    match step
    case Insert(key, height, prev) =>
      s.(mem := NewNode(s.mem, key, height), maxHeight := if height > s.maxHeight then height else s.maxHeight,
         phase := Links(|s.mem.keys|, prev, 0, false))
    case SetOwn =>
      var p := s.phase;
      s.(mem := SetLink(s.mem, p.x, p.i, Link(s.mem, p.prev[p.i], p.i)), phase := p.(own := true))
    case Publish =>
      var p := s.phase;
      var l := s.lists[p.i];
      s.(mem := SetLink(s.mem, p.prev[p.i], p.i, Some(p.x)),
         lists := s.lists[p.i := Inserted(l, PlaceOf(s.mem, l, s.mem.keys[p.x], p.prev[p.i]), p.x)],
         phase := if p.i + 1 == Height(s.mem, p.x) then Quiet else Links(p.x, p.prev, p.i + 1, false))
    case Open(r) => s.(readers := s.readers[r := At(None, Nowhere)])
    case StartSeek(r, target, height) => s.(readers := s.readers[r := Seeking(target, HEAD, height - 1, s.lists[0])])
    case SeekToFirst(r) => s.(readers := s.readers[r := At(Link(s.mem, HEAD, 0), WentFirst(s.lists[0]))])
    case Next(r) =>
      var n := s.readers[r].node.value;
      s.(readers := s.readers[r := At(Link(s.mem, n, 0), Stepped(s.mem.keys[n], s.lists[0]))])
    case StartPrev(r, height) =>
      s.(readers := s.readers[r := Backing(s.mem.keys[s.readers[r].node.value], HEAD, height - 1, s.lists[0])])
    case StartLast(r, height) => s.(readers := s.readers[r := Lasting(HEAD, height - 1, s.lists[0])])
    case Load(r) => s.(readers := s.readers[r := Loaded(s.mem, s.readers[r])])
  }

  // ---------------------------------------------------------------------------------------
  // What readers are promised

  /** No node that was in the list when the call began has been skipped. */
  ghost predicate Promise(m: Mem, node: Option<nat>, how: How) {
    match how
    case Nowhere => true
    case Sought(target, seen) =>
      && (node.Some? ==> node.value < |m.keys| && m.keys[node.value] >= target)
      && forall n :: n in seen ==> n < |m.keys| && (m.keys[n] < target || (node.Some? && m.keys[n] >= m.keys[node.value]))
    case Stepped(from, seen) =>
      && (node.Some? ==> node.value < |m.keys| && m.keys[node.value] > from)
      && forall n :: n in seen ==> n < |m.keys| && (m.keys[n] <= from || (node.Some? && m.keys[n] >= m.keys[node.value]))
    case Backed(target, seen) =>
      && (node.Some? ==> node.value < |m.keys| && m.keys[node.value] < target)
      && forall n :: n in seen ==> n < |m.keys| && (m.keys[n] >= target || (node.Some? && m.keys[n] <= m.keys[node.value]))
    case WentFirst(seen) =>
      && (node.Some? ==> node.value < |m.keys|)
      && forall n :: n in seen ==> n < |m.keys| && node.Some? && m.keys[n] >= m.keys[node.value]
    case WentLast(seen) =>
      && (node.Some? ==> node.value < |m.keys|)
      && forall n :: n in seen ==> n < |m.keys| && node.Some? && m.keys[n] <= m.keys[node.value]
  }

  ghost predicate ReaderOk(m: Mem, lists: seq<seq<nat>>, rd: Reader)
    requires |lists| == MAX_HEIGHT
  {
    match rd
    case At(node, how) => (node.Some? ==> node.value in lists[0]) && Promise(m, node, how)
    case Seeking(target, x, level, seen) => level < MAX_HEIGHT && Stands(m, lists[level], x, target) && Within(seen, lists[0])
    case Backing(target, x, level, seen) => level < MAX_HEIGHT && Stands(m, lists[level], x, target) && Within(seen, lists[0])
    case Lasting(x, level, seen) => level < MAX_HEIGHT && (x == HEAD || x in lists[level]) && Within(seen, lists[0])
  }

  ghost predicate ReadersOk(s: State)
    requires |s.lists| == MAX_HEIGHT
  {
    forall r :: r in s.readers ==> ReaderOk(s.mem, s.lists, s.readers[r])
  }

  ghost predicate PhaseOk(s: State) {
    s.phase.Quiet? || (Busy(s) && (s.phase.own ==> Link(s.mem, s.phase.x, s.phase.i) == Link(s.mem, s.phase.prev[s.phase.i], s.phase.i)))
  }

  ghost predicate Inv(s: State) {
    Levels(s.mem, s.lists) && PhaseOk(s) && ReadersOk(s)
  }

  // ---------------------------------------------------------------------------------------
  // The writer's steps keep what readers rely on

  /** Keys stay, and lists only grow. */
  ghost predicate Grows(m: Mem, lists: seq<seq<nat>>, m': Mem, lists': seq<seq<nat>>) {
    m.keys <= m'.keys && |lists| == |lists'| == MAX_HEIGHT && forall i :: 0 <= i < MAX_HEIGHT ==> Within(lists[i], lists'[i])
  }

  lemma ReaderKept(m: Mem, lists: seq<seq<nat>>, m': Mem, lists': seq<seq<nat>>, rd: Reader)
    requires Grows(m, lists, m', lists') && ReaderOk(m, lists, rd)
    ensures ReaderOk(m', lists', rd)
  {
    assert forall n :: 0 <= n < |m.keys| ==> m'.keys[n] == m.keys[n];
    assert Within(lists[0], lists'[0]);
    if !rd.At? {
      assert Within(lists[rd.level], lists'[rd.level]);
    }
  }

  lemma ReadersKept(s: State, s': State)
    requires |s.lists| == MAX_HEIGHT && ReadersOk(s) && s'.readers == s.readers && Grows(s.mem, s.lists, s'.mem, s'.lists)
    ensures ReadersOk(s')
  {
    hide ReaderOk;
    forall r | r in s'.readers ensures ReaderOk(s'.mem, s'.lists, s'.readers[r]) {
      ReaderKept(s.mem, s.lists, s'.mem, s'.lists, s.readers[r]);
    }
  }

  lemma InsertKeeps(s: State, key: Key, height: nat, prev: seq<nat>)
    requires Inv(s) && Enabled(s, Insert(key, height, prev))
    ensures Inv(Step1(s, Insert(key, height, prev)))
  {
    hide LevelOk, ReaderOk, PrevAt, Link;
    var s' := Step1(s, Insert(key, height, prev));
    StartLinking(s.mem, s.lists, key, height, prev);
    OwnStep(s'.mem, s.lists, s'.phase.x, prev, 0);
    ReadersKept(s, s');
  }

  lemma SetOwnKeeps(s: State)
    requires Inv(s) && Enabled(s, SetOwn)
    ensures Inv(Step1(s, SetOwn))
  {
    hide LevelOk, ReaderOk, PrevAt, Link;
    var s', p := Step1(s, SetOwn), s.phase;
    OwnStep(s.mem, s.lists, p.x, p.prev, p.i);
    SameHeights(s.mem, p.x, p.i, Link(s.mem, p.prev[p.i], p.i));
    ReadersKept(s, s');
  }

  lemma PublishKeeps(s: State)
    requires Inv(s) && Enabled(s, Publish)
    ensures Inv(Step1(s, Publish))
  {
    hide LevelOk, ReaderOk, PrevAt, Link;
    var s', p := Step1(s, Publish), s.phase;
    PrevIs(s.mem, s.lists, p.x, p.prev, p.i);
    var at := PlaceOf(s.mem, s.lists[p.i], s.mem.keys[p.x], p.prev[p.i]);
    PlaceFits(s.mem, s.lists[p.i], s.mem.keys[p.x], at);
    PublishStep(s.mem, s.lists, p.x, p.prev, p.i);
    SameHeights(s.mem, p.prev[p.i], p.i, Some(p.x));
    InsertedHas(s.lists[p.i], at, p.x);
    ReadersKept(s, s');
    if p.i + 1 < Height(s.mem, p.x) {
      OwnStep(s'.mem, s'.lists, p.x, p.prev, p.i + 1);
    }
  }

  // ---------------------------------------------------------------------------------------
  // The readers' steps

  /** A reader that changes its own state only. */
  lemma OneReader(s: State, r: nat, rd: Reader)
    requires Inv(s) && ReaderOk(s.mem, s.lists, rd)
    ensures Inv(s.(readers := s.readers[r := rd]))
  {
    hide ReaderOk, LevelOk, Linking;
  }

  lemma BottomLevel(m: Mem, lists: seq<seq<nat>>)
    requires Levels(m, lists)
    ensures LevelOk(m, lists[0], 0)
  {
    hide LevelOk;
  }

  /** The successor of a node in the bottom list, loaded in one step. */
  lemma NextOf(m: Mem, l: seq<nat>, n: nat)
    requires LevelOk(m, l, 0) && n in l && HasLink(m, n, 0) && n < |m.keys|
    ensures Link(m, n, 0).Some? ==> Link(m, n, 0).value in l
    ensures Promise(m, Link(m, n, 0), Stepped(m.keys[n], l))
  {
    var p := After(l, n);
    InLevel(m, l, 0);
    LinkAt(m, l, 0, p);
    forall k | k in l ensures k < |m.keys| && (m.keys[k] <= m.keys[n] || (p < |l| && m.keys[k] >= m.keys[l[p]])) {
      var j :| 0 <= j < |l| && l[j] == k;
      assert j < p - 1 ==> m.keys[l[j]] < m.keys[l[p - 1]];
      assert j > p ==> m.keys[l[p]] < m.keys[l[j]];
    }
  }

  lemma FirstOf(m: Mem, l: seq<nat>)
    requires LevelOk(m, l, 0)
    ensures HasLink(m, HEAD, 0) && (Link(m, HEAD, 0).Some? ==> Link(m, HEAD, 0).value in l)
    ensures Promise(m, Link(m, HEAD, 0), WentFirst(l))
  {
    LinkAt(m, l, 0, 0);
    forall n | n in l ensures n < |m.keys| && m.keys[n] >= m.keys[l[0]] {
      var j :| 0 <= j < |l| && l[j] == n;
    }
  }

  /** One load of a search for a target. */
  lemma SeekLoad(m: Mem, lists: seq<seq<nat>>, rd: Reader)
    requires Levels(m, lists) && rd.Seeking? && ReaderOk(m, lists, rd) && HasLink(m, rd.x, rd.level)
    ensures ReaderOk(m, lists, Loaded(m, rd))
  {
    hide LevelOk, Link;
    assert LevelOk(m, lists[rd.level], rd.level);
    StepAt(m, lists[rd.level], rd.level, rd.x, rd.target);
    var n := Link(m, rd.x, rd.level);
    if !Below(m, n, rd.target) {
      if rd.level == 0 {
        SeenFirst(m, lists[0], rd.seen, rd.target, n);
      } else {
        assert Within(lists[rd.level], lists[rd.level - 1]);
      }
    }
  }

  lemma SeenFirst(m: Mem, l: seq<nat>, seen: seq<nat>, target: Key, n: Option<nat>)
    requires IsFirst(m, l, target, n) && Within(seen, l)
    ensures Promise(m, n, Sought(target, seen))
  {
    forall k | k in seen ensures k < |m.keys| && (m.keys[k] < target || (n.Some? && m.keys[k] >= m.keys[n.value])) {
      assert k in l;
      var j :| 0 <= j < |l| && l[j] == k;
    }
  }

  lemma BackLoad(m: Mem, lists: seq<seq<nat>>, rd: Reader)
    requires Levels(m, lists) && rd.Backing? && ReaderOk(m, lists, rd) && HasLink(m, rd.x, rd.level)
    ensures ReaderOk(m, lists, Loaded(m, rd))
  {
    hide LevelOk, Link;
    assert LevelOk(m, lists[rd.level], rd.level);
    StepAt(m, lists[rd.level], rd.level, rd.x, rd.target);
    var n := Link(m, rd.x, rd.level);
    if !Below(m, n, rd.target) {
      if rd.level == 0 {
        var p := After(lists[0], rd.x);
        LinkAt(m, lists[0], 0, p);
        LastBefore(m, lists[0], p, rd.target, n);
        SeenBefore(m, lists[0], rd.seen, rd.target, rd.x, p);
      } else {
        assert Within(lists[rd.level], lists[rd.level - 1]);
      }
    }
  }

  lemma SeenBefore(m: Mem, l: seq<nat>, seen: seq<nat>, target: Key, x: nat, p: nat)
    requires LevelOk(m, l, 0) && Stands(m, l, x, target) && p <= |l| && NodeBefore(l, p) == x && Within(seen, l)
    requires forall n :: n in l && n < |m.keys| && m.keys[n] < target ==> p > 0 && m.keys[n] <= m.keys[l[p - 1]]
    ensures Promise(m, if x == HEAD then None else Some(x), Backed(target, seen))
  {
    hide Chain;
    InLevel(m, l, 0);
    forall k | k in seen ensures k < |m.keys| && (m.keys[k] >= target || (x != HEAD && m.keys[k] <= m.keys[x])) {
      assert k in l;
      var j :| 0 <= j < |l| && l[j] == k;
    }
  }

  lemma LastLoad(m: Mem, lists: seq<seq<nat>>, rd: Reader)
    requires Levels(m, lists) && rd.Lasting? && ReaderOk(m, lists, rd) && HasLink(m, rd.x, rd.level)
    ensures ReaderOk(m, lists, Loaded(m, rd))
  {
    hide LevelOk, Link;
    var l := lists[rd.level];
    assert LevelOk(m, l, rd.level);
    var p := After(l, rd.x);
    LinkAt(m, l, rd.level, p);
    if Link(m, rd.x, rd.level).None? {
      if rd.level == 0 {
        SeenLast(m, l, rd.seen, rd.x, p);
      } else {
        assert Within(lists[rd.level], lists[rd.level - 1]);
      }
    }
  }

  lemma SeenLast(m: Mem, l: seq<nat>, seen: seq<nat>, x: nat, p: nat)
    requires LevelOk(m, l, 0) && p == |l| && NodeBefore(l, p) == x && Within(seen, l)
    ensures Promise(m, if x == HEAD then None else Some(x), WentLast(seen))
  {
    InLevel(m, l, 0);
    forall k | k in seen ensures k < |m.keys| && x != HEAD && m.keys[k] <= m.keys[x] {
      assert k in l;
      var j :| 0 <= j < |l| && l[j] == k;
      assert j < p - 1 ==> m.keys[l[j]] < m.keys[l[p - 1]];
    }
  }

  lemma LoadKeeps(s: State, r: nat)
    requires Inv(s) && Enabled(s, Load(r))
    ensures Inv(Step1(s, Load(r)))
  {
    hide ReaderOk, Levels, PhaseOk;
    var rd := s.readers[r];
    match rd
    case Seeking(_, _, _, _) => SeekLoad(s.mem, s.lists, rd); OneReader(s, r, Loaded(s.mem, rd));
    case Backing(_, _, _, _) => BackLoad(s.mem, s.lists, rd); OneReader(s, r, Loaded(s.mem, rd));
    case Lasting(_, _, _) => LastLoad(s.mem, s.lists, rd); OneReader(s, r, Loaded(s.mem, rd));
  }

  lemma CallKeeps(s: State, step: Step)
    requires Inv(s) && Enabled(s, step)
    requires step.Open? || step.StartSeek? || step.SeekToFirst? || step.Next? || step.StartPrev? || step.StartLast?
    ensures Inv(Step1(s, step))
  {
    hide LevelOk, Link, Linking;
    var s' := Step1(s, step);
    BottomLevel(s.mem, s.lists);
    FirstOf(s.mem, s.lists[0]);
    if step.Next? {
      assert ReaderOk(s.mem, s.lists, s.readers[step.r]);
      NextOf(s.mem, s.lists[0], s.readers[step.r].node.value);
    }
    OneReader(s, step.r, s'.readers[step.r]);
  }

  lemma StepKeeps(s: State, step: Step)
    requires Inv(s) && Enabled(s, step)
    ensures Inv(Step1(s, step))
  {
    hide Inv, Enabled, Step1;
    match step
    case Insert(key, height, prev) => InsertKeeps(s, key, height, prev);
    case SetOwn => SetOwnKeeps(s);
    case Publish => PublishKeeps(s);
    case Load(r) => LoadKeeps(s, r);
    case _ => CallKeeps(s, step);
  }

  // ---------------------------------------------------------------------------------------
  // Every run

  ghost predicate Initial(s: State) {
    MemOk(s.mem) && s.readers == map[] && s.phase.Quiet? && |s.lists| == MAX_HEIGHT
    && forall i :: 0 <= i < MAX_HEIGHT ==> s.lists[i] == [] && s.mem.next[HEAD][i] == None
  }

  ghost predicate IsRun(ss: seq<State>, steps: seq<Step>) {
    && |ss| == |steps| + 1 && Initial(ss[0])
    && forall i :: 0 <= i < |steps| ==> Enabled(ss[i], steps[i]) && ss[i + 1] == Step1(ss[i], steps[i])
  }

  /** In every state, intermediate ones included, every level is sorted and part of the level below. */
  lemma {:induction false} RunInv(ss: seq<State>, steps: seq<Step>, k: nat)
    requires IsRun(ss, steps) && k < |ss|
    ensures Inv(ss[k])
  {
    hide Inv, Enabled, Step1;
    if k == 0 {
      InitialInv(ss[0]);
    } else {
      RunInv(ss, steps, k - 1);
      StepKeeps(ss[k - 1], steps[k - 1]);
    }
  }

  lemma InitialInv(s: State)
    requires Initial(s)
    ensures Inv(s)
  {
    hide LevelOk;
    EmptyLevels(s.mem, s.lists);
  }

  /**
   * A seek that began in state j and has returned by state k has not skipped any node that was in the list in
   * state j, whatever the writer did in between.
   */
  lemma {:induction false} SeekNeverSkips(ss: seq<State>, steps: seq<Step>, j: nat, k: nat, r: nat, target: Key, height: nat)
    requires IsRun(ss, steps) && j < k < |ss| && steps[j] == StartSeek(r, target, height)
    requires forall i :: j < i < k ==> r in ss[i].readers && ss[i].readers[r].Seeking?
    requires r in ss[k].readers && ss[k].readers[r].At?
    ensures Levels(ss[j].mem, ss[j].lists) && Promise(ss[k].mem, ss[k].readers[r].node, Sought(target, ss[j].lists[0]))
  {
    hide Inv, Enabled, Levels, Promise, ReaderOk;
    RunInv(ss, steps, j);
    RunInv(ss, steps, k);
    LevelsOf(ss[j]);
    SeekStays(ss, steps, j, k - 1, r, target, height);
    SeekEnds(ss[k - 1], steps[k - 1], r);
    ReaderOf(ss[k], r);
  }

  lemma LevelsOf(s: State)
    requires Inv(s)
    ensures Levels(s.mem, s.lists) && |s.lists| == MAX_HEIGHT
  {
    hide LevelOk;
  }

  lemma ReaderOf(s: State, r: nat)
    requires Inv(s) && r in s.readers && s.readers[r].At?
    ensures Promise(s.mem, s.readers[r].node, s.readers[r].how)
  {
    hide Levels, PhaseOk, Promise;
    LevelsOf(s);
    assert ReaderOk(s.mem, s.lists, s.readers[r]);
  }

  /** Until it returns, a seek keeps its target and the list it began with. */
  lemma {:induction false} SeekStays(ss: seq<State>, steps: seq<Step>, j: nat, i: nat, r: nat, target: Key, height: nat)
    requires IsRun(ss, steps) && j <= i < |steps| && steps[j] == StartSeek(r, target, height)
    requires forall n :: j < n <= i ==> r in ss[n].readers && ss[n].readers[r].Seeking?
    ensures j < i ==> ss[i].readers[r].target == target && ss[i].readers[r].seen == ss[j].lists[0]
    decreases i
  {
    hide Step1, Enabled, Initial;
    if j < i {
      SeekStays(ss, steps, j, i - 1, r, target, height);
      assert Enabled(ss[i - 1], steps[i - 1]) && ss[i - 1 + 1] == Step1(ss[i - 1], steps[i - 1]);
      if i - 1 == j {
        SeekBegins(ss[j], r, target, height);
      } else {
        SeekGoesOn(ss[i - 1], steps[i - 1], r);
      }
    }
  }

  lemma SeekBegins(s: State, r: nat, target: Key, height: nat)
    requires Enabled(s, StartSeek(r, target, height))
    ensures var s' := Step1(s, StartSeek(r, target, height));
            r in s'.readers && s'.readers[r].Seeking? && s'.readers[r].target == target && s'.readers[r].seen == s.lists[0]
  {
  }

  lemma SeekGoesOn(s: State, step: Step, r: nat)
    requires Enabled(s, step) && r in s.readers && s.readers[r].Seeking? && r in Step1(s, step).readers && Step1(s, step).readers[r].Seeking?
    ensures Step1(s, step).readers[r].target == s.readers[r].target && Step1(s, step).readers[r].seen == s.readers[r].seen
  {
  }

  /** The only step that ends a seek is its own load. */
  lemma SeekEnds(s: State, step: Step, r: nat)
    requires Enabled(s, step) && r in s.readers && s.readers[r].Seeking? && r in Step1(s, step).readers && Step1(s, step).readers[r].At?
    ensures Step1(s, step).readers[r].how == Sought(s.readers[r].target, s.readers[r].seen)
  {
  }
}
