/** Threads and the two reader/writer locks: the engine's and the tree's.

    Put, Delete, Get, Sync, Flush and the making of an iterator take the engine's lock first and
    then, where they touch the tree, the tree's; an iterator keeps the tree's read lock for as long
    as it lives. A put with an empty key is logged but returns before it asks for the tree's lock.
    Recovery on a live engine and the counters of the tree take no engine lock; they are not among
    the calls here. A step of the system is one step of one thread. While a writer holds the tree's
    lock the tree may look like anything. */
module Locks {
  import opened KvTypes
  import opened Entries
  import opened WalFormat
  import opened Replay
  import opened Engine

  type Thread = nat
  type Cursor = nat

  /** A reader/writer lock. */
  datatype Lock<H(==)> = Lock(writer: Option<H>, readers: set<H>)

  datatype Holder = ByThread(t: Thread) | ByCursor(i: Cursor)

  datatype Call =
    | PutCall(key: Bytes, value: Bytes)
    | DeleteCall(key: Bytes)
    | SyncCall
    | GetCall(key: Bytes)
    | ScanCall(i: Cursor)

  /** Where a thread is. Between Holding and Leaving it has the engine's lock. */
  datatype Phase =
    | Idle
    | Waiting(call: Call)
    | Holding(call: Call)
    | Logged(r: Record)
    | Writing(r: Record, before: Map)
    | Reading(key: Bytes)
    | Leaving(exclusive: bool, status: Status, answer: Option<Bytes>)

  datatype State = State(
    log: seq<Record>,
    tree: Map,
    counter: U64,
    engineLock: Lock<Thread>,
    treeLock: Lock<Holder>,
    phases: map<Thread, Phase>,
    cursors: map<Cursor, Map>)

  datatype Step =
    | Begin(t: Thread, call: Call)
    | EnterExclusive(t: Thread)
    | EnterShared(t: Thread)
    | WriteLog(t: Thread, time: U64)
    | Synchronize(t: Thread)
    | Reject(t: Thread)
    | LockTree(t: Thread)
    | Mutate(t: Thread, tree: Map)
    | FinishWrite(t: Thread)
    | ShareTree(t: Thread)
    | Answer(t: Thread)
    | OpenCursor(t: Thread)
    | CloseCursor(t: Thread, i: Cursor)
    | Leave(t: Thread)

  predicate Unheld<H>(l: Lock<H>) {
    l.writer.None? && l.readers == {}
  }

  predicate Changes(c: Call) {
    c.PutCall? || c.DeleteCall?
  }

  predicate TakesExclusive(c: Call) {
    Changes(c) || c.SyncCall?
  }

  function RecordOf(c: Call, number: U64, time: U64): Record
    requires Changes(c)
  {
    if c.PutCall? then Record(PUT, number, time, c.key, c.value) else Record(DELETE, number, time, c.key, [])
  }

  /** What a Get of the map answers. */
  function Found(m: Map, key: Bytes): Phase {
    if key in m then Leaving(false, OK, Some(m[key])) else Leaving(false, NotFound, None)
  }

  /** What the tree answers to a change: only the delete of a missing key is told apart. */
  function Answered(m: Map, r: Record): Status {
    if r.kind == DELETE && r.key !in m then NotFound else OK
  }

  /** The tree rejects a put with an empty key before it takes its lock. */
  predicate NeedsTree(r: Record) {
    !(r.kind == PUT && r.key == [])
  }

  /** The step can be taken now. A lock that is not available makes a thread wait. A thread closes
      iterators between its calls. */
  predicate Enabled(s: State, step: Step) {
    && step.t in s.phases
    && match step
       case Begin(t, call) => s.phases[t] == Idle
       case EnterExclusive(t) => s.phases[t].Waiting? && TakesExclusive(s.phases[t].call) && Unheld(s.engineLock)
       case EnterShared(t) => s.phases[t].Waiting? && !TakesExclusive(s.phases[t].call) && s.engineLock.writer.None?
       case WriteLog(t, time) => s.phases[t].Holding? && Changes(s.phases[t].call)
       case Synchronize(t) => s.phases[t] == Holding(SyncCall)
       case Reject(t) => s.phases[t].Logged? && !NeedsTree(s.phases[t].r)
       case LockTree(t) => s.phases[t].Logged? && NeedsTree(s.phases[t].r) && Unheld(s.treeLock)
       case Mutate(t, tree) => s.phases[t].Writing?
       case FinishWrite(t) => s.phases[t].Writing?
       case ShareTree(t) => s.phases[t].Holding? && s.phases[t].call.GetCall? && s.treeLock.writer.None?
       case Answer(t) => s.phases[t].Reading?
       case OpenCursor(t) =>
         && s.phases[t].Holding? && s.phases[t].call.ScanCall? && s.phases[t].call.i !in s.cursors
         && s.treeLock.writer.None?
       case CloseCursor(t, i) => s.phases[t] == Idle && i in s.cursors
       case Leave(t) => s.phases[t].Leaving?
  }

  function Taken(s: State, step: Step): State
    requires Enabled(s, step)
  {
    match step
    case Begin(t, call) => s.(phases := s.phases[t := Waiting(call)])
    case EnterExclusive(t) =>
      s.(engineLock := s.engineLock.(writer := Some(t)), phases := s.phases[t := Holding(s.phases[t].call)])
    case EnterShared(t) =>
      s.(engineLock := s.engineLock.(readers := s.engineLock.readers + {t}),
         phases := s.phases[t := Holding(s.phases[t].call)])
    case WriteLog(t, time) =>
      var r := RecordOf(s.phases[t].call, s.counter, time);
      if Fits(r) then s.(counter := NextNumber(s.counter), log := s.log + [r], phases := s.phases[t := Logged(r)])
      else s.(counter := NextNumber(s.counter), phases := s.phases[t := Leaving(true, InvalidArgument, None)])
    case Synchronize(t) => s.(phases := s.phases[t := Leaving(true, OK, None)])
    case Reject(t) => s.(phases := s.phases[t := Leaving(true, InvalidArgument, None)])
    case LockTree(t) =>
      s.(treeLock := s.treeLock.(writer := Some(ByThread(t))), phases := s.phases[t := Writing(s.phases[t].r, s.tree)])
    case Mutate(t, tree) => s.(tree := tree)
    case FinishWrite(t) =>
      s.(tree := Apply(s.phases[t].before, s.phases[t].r), treeLock := s.treeLock.(writer := None),
         phases := s.phases[t := Leaving(true, Answered(s.phases[t].before, s.phases[t].r), None)])
    case ShareTree(t) =>
      s.(treeLock := s.treeLock.(readers := s.treeLock.readers + {ByThread(t)}),
         phases := s.phases[t := Reading(s.phases[t].call.key)])
    case Answer(t) =>
      s.(treeLock := s.treeLock.(readers := s.treeLock.readers - {ByThread(t)}),
         phases := s.phases[t := Found(s.tree, s.phases[t].key)])
    case OpenCursor(t) =>
      var i := s.phases[t].call.i;
      s.(cursors := s.cursors[i := s.tree], treeLock := s.treeLock.(readers := s.treeLock.readers + {ByCursor(i)}),
         phases := s.phases[t := Leaving(false, OK, None)])
    case CloseCursor(t, i) =>
      s.(cursors := s.cursors - {i}, treeLock := s.treeLock.(readers := s.treeLock.readers - {ByCursor(i)}))
    case Leave(t) =>
      s.(engineLock := if s.phases[t].exclusive then s.engineLock.(writer := None)
                       else s.engineLock.(readers := s.engineLock.readers - {t}),
         phases := s.phases[t := Idle])
  }

  /** An engine right after it was built: nobody is doing anything. */
  ghost predicate Init(s: State) {
    && s.tree == Run(s.log, map[])
    && Unheld(s.engineLock) && Unheld(s.treeLock) && s.cursors == map[]
    && forall t :: t in s.phases ==> s.phases[t] == Idle
  }

  // ---- the locks

  predicate OwnsEngine(p: Phase) {
    match p
    case Holding(call) => TakesExclusive(call)
    case Logged(_) => true
    case Writing(_, _) => true
    case Leaving(exclusive, _, _) => exclusive
    case _ => false
  }

  predicate SharesEngine(p: Phase) {
    match p
    case Holding(call) => !TakesExclusive(call)
    case Reading(_) => true
    case Leaving(exclusive, _, _) => !exclusive
    case _ => false
  }

  ghost predicate Exclusion<H>(l: Lock<H>) {
    l.writer.Some? ==> l.readers == {}
  }

  ghost predicate EngineLocked(phases: map<Thread, Phase>, lock: Lock<Thread>) {
    && Exclusion(lock)
    && (forall t :: t in phases ==> (lock.writer == Some(t) <==> OwnsEngine(phases[t])))
    && (forall t :: t in phases ==> (t in lock.readers <==> SharesEngine(phases[t])))
  }

  /** The holders of the tree's lock are the thread that writes, the threads that read and the live
      iterators, and nobody else. */
  ghost predicate TreeLocked(phases: map<Thread, Phase>, cursors: map<Cursor, Map>, lock: Lock<Holder>) {
    && Exclusion(lock)
    && (forall t :: t in phases ==> (lock.writer == Some(ByThread(t)) <==> phases[t].Writing?))
    && (forall t :: t in phases ==> (ByThread(t) in lock.readers <==> phases[t].Reading?))
    && (forall i :: i in cursors <==> ByCursor(i) in lock.readers)
    && (forall t :: ByThread(t) in lock.readers ==> t in phases)
    && (lock.writer.Some? ==> lock.writer.value.ByThread? && lock.writer.value.t in phases)
  }

  // ---- the log and the tree

  predicate Midway(p: Phase) {
    p.Logged? || p.Writing?
  }

  ghost predicate LastIs(log: seq<Record>, r: Record) {
    log != [] && log[|log| - 1] == r
  }

  /** What the log said before its last record. */
  ghost function BeforeLast(log: seq<Record>): Map
    requires log != []
  {
    Run(log[..|log| - 1], map[])
  }

  /** What a thread that is midway knows. */
  ghost predicate Knows(s: State, p: Phase) {
    match p
    case Logged(r) => LastIs(s.log, r) && s.tree == BeforeLast(s.log)
    case Writing(r, before) => LastIs(s.log, r) && before == BeforeLast(s.log)
    case _ => true
  }

  ghost predicate Quiet(s: State) {
    forall t :: t in s.phases ==> !Midway(s.phases[t])
  }

  ghost predicate Story(s: State) {
    && (Quiet(s) ==> s.tree == Run(s.log, map[]))
    && (forall t :: t in s.phases ==> Knows(s, s.phases[t]))
    && (forall i :: i in s.cursors ==> s.cursors[i] == s.tree)
  }

  ghost predicate Inv(s: State) {
    EngineLocked(s.phases, s.engineLock) && TreeLocked(s.phases, s.cursors, s.treeLock) && Story(s)
  }

  lemma InitInv(s: State)
    requires Init(s)
    ensures Inv(s)
  {
  }

  lemma SameEngineLock(phases: map<Thread, Phase>, lock: Lock<Thread>, t: Thread, p: Phase)
    requires EngineLocked(phases, lock) && t in phases
    requires OwnsEngine(p) == OwnsEngine(phases[t]) && SharesEngine(p) == SharesEngine(phases[t])
    ensures EngineLocked(phases[t := p], lock)
  {
  }

  lemma TakeEngine(phases: map<Thread, Phase>, lock: Lock<Thread>, t: Thread, p: Phase)
    requires EngineLocked(phases, lock) && t in phases && Unheld(lock) && OwnsEngine(p) && !SharesEngine(p)
    ensures EngineLocked(phases[t := p], lock.(writer := Some(t)))
  {
  }

  lemma ShareEngine(phases: map<Thread, Phase>, lock: Lock<Thread>, t: Thread, p: Phase)
    requires EngineLocked(phases, lock) && t in phases && lock.writer.None? && SharesEngine(p) && !OwnsEngine(p)
    ensures EngineLocked(phases[t := p], lock.(readers := lock.readers + {t}))
  {
  }

  lemma ReleaseEngine(phases: map<Thread, Phase>, lock: Lock<Thread>, t: Thread)
    requires EngineLocked(phases, lock) && t in phases && phases[t].Leaving?
    ensures var l := if phases[t].exclusive then lock.(writer := None) else lock.(readers := lock.readers - {t});
            EngineLocked(phases[t := Idle], l)
  {
  }

  lemma StepEngineLocked(s: State, step: Step)
    requires Inv(s) && Enabled(s, step)
    ensures EngineLocked(Taken(s, step).phases, Taken(s, step).engineLock)
  {
    var t, s' := step.t, Taken(s, step);
    match step
    case EnterExclusive(_) => TakeEngine(s.phases, s.engineLock, t, s'.phases[t]);
    case EnterShared(_) => ShareEngine(s.phases, s.engineLock, t, s'.phases[t]);
    case Leave(_) => ReleaseEngine(s.phases, s.engineLock, t);
    case Mutate(_, _) =>
    case CloseCursor(_, _) =>
    case _ => SameEngineLock(s.phases, s.engineLock, t, s'.phases[t]);
  }

  lemma SameTreeLock(phases: map<Thread, Phase>, cursors: map<Cursor, Map>, lock: Lock<Holder>, t: Thread, p: Phase)
    requires TreeLocked(phases, cursors, lock) && t in phases
    requires p.Writing? == phases[t].Writing? && p.Reading? == phases[t].Reading?
    ensures TreeLocked(phases[t := p], cursors, lock)
  {
  }

  lemma TakeTree(phases: map<Thread, Phase>, cursors: map<Cursor, Map>, lock: Lock<Holder>, t: Thread, p: Phase)
    requires TreeLocked(phases, cursors, lock) && t in phases && Unheld(lock) && p.Writing?
    ensures TreeLocked(phases[t := p], cursors, lock.(writer := Some(ByThread(t))))
  {
  }

  lemma ReleaseTree(phases: map<Thread, Phase>, cursors: map<Cursor, Map>, lock: Lock<Holder>, t: Thread, p: Phase)
    requires TreeLocked(phases, cursors, lock) && t in phases && phases[t].Writing? && !p.Writing? && !p.Reading?
    ensures TreeLocked(phases[t := p], cursors, lock.(writer := None))
  {
  }

  lemma ShareTreeLock(phases: map<Thread, Phase>, cursors: map<Cursor, Map>, lock: Lock<Holder>, t: Thread, p: Phase)
    requires TreeLocked(phases, cursors, lock) && t in phases && lock.writer.None? && p.Reading?
    ensures TreeLocked(phases[t := p], cursors, lock.(readers := lock.readers + {ByThread(t)}))
  {
  }

  lemma UnshareTreeLock(phases: map<Thread, Phase>, cursors: map<Cursor, Map>, lock: Lock<Holder>, t: Thread, p: Phase)
    requires TreeLocked(phases, cursors, lock) && t in phases && phases[t].Reading? && !p.Writing? && !p.Reading?
    ensures TreeLocked(phases[t := p], cursors, lock.(readers := lock.readers - {ByThread(t)}))
  {
  }

  lemma CursorShares(phases: map<Thread, Phase>, cursors: map<Cursor, Map>, lock: Lock<Holder>, i: Cursor, m: Map)
    requires TreeLocked(phases, cursors, lock) && lock.writer.None?
    ensures TreeLocked(phases, cursors[i := m], lock.(readers := lock.readers + {ByCursor(i)}))
    ensures TreeLocked(phases, cursors - {i}, lock.(readers := lock.readers - {ByCursor(i)}))
  {
  }

  lemma StepTreeLocked(s: State, step: Step)
    requires Inv(s) && Enabled(s, step)
    ensures TreeLocked(Taken(s, step).phases, Taken(s, step).cursors, Taken(s, step).treeLock)
  {
    var t, s' := step.t, Taken(s, step);
    match step
    case LockTree(_) => TakeTree(s.phases, s.cursors, s.treeLock, t, s'.phases[t]);
    case FinishWrite(_) => ReleaseTree(s.phases, s.cursors, s.treeLock, t, s'.phases[t]);
    case ShareTree(_) => ShareTreeLock(s.phases, s.cursors, s.treeLock, t, s'.phases[t]);
    case Answer(_) => UnshareTreeLock(s.phases, s.cursors, s.treeLock, t, s'.phases[t]);
    case OpenCursor(_) =>
      CursorShares(s.phases, s.cursors, s.treeLock, s.phases[t].call.i, s.tree);
      SameTreeLock(s.phases, s'.cursors, s'.treeLock, t, s'.phases[t]);
    case CloseCursor(_, i) => CursorShares(s.phases, s.cursors, s.treeLock, i, s.tree);
    case Mutate(_, _) =>
    case _ => SameTreeLock(s.phases, s.cursors, s.treeLock, t, s'.phases[t]);
  }

  /** Only one thread owns the engine's lock, nobody shares it then, and only an owner is midway. */
  lemma OwnerAlone(s: State, t: Thread)
    requires EngineLocked(s.phases, s.engineLock) && t in s.phases && OwnsEngine(s.phases[t])
    ensures forall u :: u in s.phases && u != t ==> !Midway(s.phases[u])
    ensures forall u :: u in s.phases ==> !SharesEngine(s.phases[u])
  {
    forall u | u in s.phases && u != t ensures !OwnsEngine(s.phases[u]) {
      assert s.engineLock.writer == Some(t);
    }
  }

  /** Whoever shares the engine's lock sees a tree in step with the log. */
  lemma SharerInStep(s: State, t: Thread)
    requires Inv(s) && t in s.phases && SharesEngine(s.phases[t])
    ensures s.tree == Run(s.log, map[])
  {
    assert s.engineLock.writer.None?;
    assert Quiet(s);
  }

  lemma StoryWriteLog(s: State, step: Step)
    requires Inv(s) && Enabled(s, step) && step.WriteLog?
    ensures Story(Taken(s, step))
  {
    OwnerAlone(s, step.t);
    assert Quiet(s);
    var r := RecordOf(s.phases[step.t].call, s.counter, step.time);
    assert (s.log + [r])[..|s.log|] == s.log;
    assert Fits(r) ==> Midway(Taken(s, step).phases[step.t]);
  }

  lemma StoryFinishWrite(s: State, step: Step)
    requires Inv(s) && Enabled(s, step) && step.FinishWrite?
    ensures Story(Taken(s, step))
  {
    OwnerAlone(s, step.t);
    RunOne(s.log[..|s.log| - 1], s.phases[step.t].r, map[]);
    assert s.log == s.log[..|s.log| - 1] + [s.phases[step.t].r];
  }

  /** A put with an empty key changes nothing, so the tree is in step without it. */
  lemma StoryReject(s: State, step: Step)
    requires Inv(s) && Enabled(s, step) && step.Reject?
    ensures Story(Taken(s, step))
  {
    OwnerAlone(s, step.t);
    RunOne(s.log[..|s.log| - 1], s.phases[step.t].r, map[]);
    assert s.log == s.log[..|s.log| - 1] + [s.phases[step.t].r];
  }

  lemma StoryMutate(s: State, step: Step)
    requires Inv(s) && Enabled(s, step) && step.Mutate?
    ensures Story(Taken(s, step))
  {
    OwnerAlone(s, step.t);
  }

  /** No other step ends or begins the time a thread is midway. */
  lemma StayMidway(s: State, step: Step)
    requires Enabled(s, step) && !step.WriteLog? && !step.Reject? && !step.FinishWrite?
    ensures Quiet(Taken(s, step)) ==> Quiet(s)
  {
    var s' := Taken(s, step);
    if Quiet(s') {
      forall u | u in s.phases ensures !Midway(s.phases[u]) {
        assert !Midway(s'.phases[u]);
      }
    }
  }

  lemma StepStory(s: State, step: Step)
    requires Inv(s) && Enabled(s, step)
    ensures Story(Taken(s, step))
  {
    match step
    case WriteLog(_, _) => StoryWriteLog(s, step);
    case FinishWrite(_) => StoryFinishWrite(s, step);
    case Mutate(_, _) => StoryMutate(s, step);
    case Reject(_) => StoryReject(s, step);
    case _ => StayMidway(s, step);
  }

  // ---- whole runs

  /** Every step of the list can be taken when its turn comes. */
  ghost predicate Possible(s: State, steps: seq<Step>)
    decreases |steps|
  {
    steps == [] || (Enabled(s, steps[0]) && Possible(Taken(s, steps[0]), steps[1..]))
  }

  ghost function Final(s: State, steps: seq<Step>): State
    requires Possible(s, steps)
    decreases |steps|
  {
    if steps == [] then s else Final(Taken(s, steps[0]), steps[1..])
  }

  lemma StepInv(s: State, step: Step)
    requires Inv(s) && Enabled(s, step)
    ensures Inv(Taken(s, step))
  {
    StepEngineLocked(s, step);
    StepTreeLocked(s, step);
    StepStory(s, step);
  }

  lemma {:induction false} RunInv(s: State, steps: seq<Step>)
    requires Inv(s) && Possible(s, steps)
    ensures Inv(Final(s, steps))
    decreases |steps|
  {
    if steps != [] {
      StepInv(s, steps[0]);
      RunInv(Taken(s, steps[0]), steps[1..]);
    }
  }

  /** In every reachable state the tree is what the log says, except while one thread, holding the
      engine's lock, is between its two writes: until it starts on the tree, the tree is what the
      log said before the last record. */
  lemma TreeFollowsLog(s0: State, steps: seq<Step>)
    requires Init(s0) && Possible(s0, steps)
    ensures var s := Final(s0, steps);
            || s.tree == Run(s.log, map[])
            || exists t :: t in s.phases && s.engineLock.writer == Some(t)
                        && (if s.phases[t].Logged? then LastIs(s.log, s.phases[t].r) && s.tree == BeforeLast(s.log)
                            else s.phases[t].Writing? && s.treeLock.writer == Some(ByThread(t)))
  {
    InitInv(s0);
    RunInv(s0, steps);
    var s := Final(s0, steps);
    if !Quiet(s) {
      var t :| t in s.phases && Midway(s.phases[t]);
      assert s.engineLock.writer == Some(t);
      assert Knows(s, s.phases[t]);
    }
  }

  /** Every Get answers from the whole log as it is at that moment. */
  lemma GetSeesLog(s0: State, steps: seq<Step>, t: Thread)
    requires Init(s0) && Possible(s0, steps) && Enabled(Final(s0, steps), Answer(t))
    ensures var s := Final(s0, steps);
            var m, key, p := Run(s.log, map[]), s.phases[t].key, Taken(s, Answer(t)).phases[t];
            && p.Leaving? && !p.exclusive
            && p.status == (if key in m then OK else NotFound)
            && p.answer == (if key in m then Some(m[key]) else None)
  {
    InitInv(s0);
    RunInv(s0, steps);
    SharerInStep(Final(s0, steps), t);
  }

  lemma {:induction false} LogGrows(s: State, steps: seq<Step>)
    requires Possible(s, steps)
    ensures s.log <= Final(s, steps).log
    decreases |steps|
  {
    if steps != [] {
      LogGrows(Taken(s, steps[0]), steps[1..]);
    }
  }

  /** So a Get that ends later answers from a log that holds at least everything logged before. */
  lemma LaterGetSeesMore(s0: State, steps: seq<Step>, more: seq<Step>, t: Thread)
    requires Init(s0) && Possible(s0, steps) && Possible(Final(s0, steps), more)
    requires Enabled(Final(Final(s0, steps), more), Answer(t))
    ensures var s, s1 := Final(s0, steps), Final(Final(s0, steps), more);
            var m, key, p := Run(s1.log, map[]), s1.phases[t].key, Taken(s1, Answer(t)).phases[t];
            && s.log <= s1.log
            && p.Leaving? && !p.exclusive
            && p.status == (if key in m then OK else NotFound)
            && p.answer == (if key in m then Some(m[key]) else None)
  {
    InitInv(s0);
    RunInv(s0, steps);
    RunInv(Final(s0, steps), more);
    SharerInStep(Final(Final(s0, steps), more), t);
    LogGrows(Final(s0, steps), more);
  }

  /** Every change answers from the log as it was before its own record: a delete reports NotFound
      exactly when its key was not in the replay of it. */
  lemma ChangeSeesLog(s0: State, steps: seq<Step>, t: Thread)
    requires Init(s0) && Possible(s0, steps) && Enabled(Final(s0, steps), FinishWrite(t))
    ensures var s := Final(s0, steps);
            var r := s.phases[t].r;
            && LastIs(s.log, r)
            && Taken(s, FinishWrite(t)).phases[t] ==
               Leaving(true, if r.kind == 2 && r.key !in BeforeLast(s.log) then NotFound else OK, None)
            && Taken(s, FinishWrite(t)).tree == Run(s.log, map[])
  {
    InitInv(s0);
    RunInv(s0, steps);
    var s := Final(s0, steps);
    assert Knows(s, s.phases[t]);
    RunOne(s.log[..|s.log| - 1], s.phases[t].r, map[]);
    assert s.log == s.log[..|s.log| - 1] + [s.phases[t].r];
  }

  /** A new iterator starts on the map the log gives. */
  lemma CursorStartsInStep(s0: State, steps: seq<Step>, t: Thread)
    requires Init(s0) && Possible(s0, steps) && Enabled(Final(s0, steps), OpenCursor(t))
    ensures var s := Final(s0, steps);
            Taken(s, OpenCursor(t)).cursors[s.phases[t].call.i] == Run(s.log, map[])
  {
    InitInv(s0);
    RunInv(s0, steps);
    SharerInStep(Final(s0, steps), t);
  }

  /** The run closes iterator i nowhere. */
  ghost predicate Keeps(steps: seq<Step>, i: Cursor) {
    forall k :: 0 <= k < |steps| ==> !(steps[k].CloseCursor? && steps[k].i == i)
  }

  /** While an iterator lives, whatever the other threads do, the tree it walks does not change. */
  lemma {:induction false} CursorSeesOneMap(s: State, steps: seq<Step>, i: Cursor)
    requires Inv(s) && Possible(s, steps) && i in s.cursors && Keeps(steps, i)
    ensures i in Final(s, steps).cursors && Final(s, steps).tree == s.tree == s.cursors[i]
    decreases |steps|
  {
    if steps != [] {
      var s1 := Taken(s, steps[0]);
      StepInv(s, steps[0]);
      NoWriterBesideCursor(s, i);
      assert i in s1.cursors && s1.tree == s.tree;
      CursorSeesOneMap(s1, steps[1..], i);
    }
  }

  lemma NoWriterBesideCursor(s: State, i: Cursor)
    requires Inv(s) && i in s.cursors
    ensures forall t :: t in s.phases ==> !s.phases[t].Writing?
  {
    assert ByCursor(i) in s.treeLock.readers;
  }

  // ---- who waits for whom

  /** A thread that has logged its change and needs the tree goes on if and only if no iterator is
      alive, and until it has finished nobody else gets at the engine, not even to read. */
  lemma BlockedExactly(s: State, t: Thread)
    requires Inv(s) && t in s.phases && s.phases[t].Logged? && NeedsTree(s.phases[t].r)
    ensures Enabled(s, LockTree(t)) <==> s.cursors == map[]
    ensures forall u :: !Enabled(s, EnterShared(u)) && !Enabled(s, EnterExclusive(u))
  {
    OwnerAlone(s, t);
    if s.cursors == map[] {
      forall h ensures h !in s.treeLock.readers {
        match h
        case ByThread(u) => assert u in s.phases ==> !s.phases[u].Reading?;
        case ByCursor(i) => assert i !in s.cursors;
      }
      assert s.treeLock.readers == {};
      assert forall u :: u in s.phases ==> s.treeLock.writer != Some(ByThread(u));
    } else {
      var i :| i in s.cursors;
      assert ByCursor(i) in s.treeLock.readers;
    }
    assert s.engineLock.writer == Some(t);
  }

  /** Once it has the lock nothing holds it up. */
  lemma ThenReturns(s: State, t: Thread)
    requires Inv(s) && t in s.phases && s.phases[t].Logged? && NeedsTree(s.phases[t].r) && s.cursors == map[]
    ensures Enabled(s, LockTree(t))
    ensures var s1 := Taken(s, LockTree(t));
            && Enabled(s1, FinishWrite(t))
            && var s2 := Taken(s1, FinishWrite(t));
               && s2.tree == Run(s.log, map[])
               && Enabled(s2, Leave(t)) && Taken(s2, Leave(t)).phases[t] == Idle
  {
    BlockedExactly(s, t);
    RunOne(s.log[..|s.log| - 1], s.phases[t].r, map[]);
    assert s.log == s.log[..|s.log| - 1] + [s.phases[t].r];
  }

  /** A put with an empty key returns, iterators or not. */
  lemma EmptyKeyReturns(s: State, t: Thread)
    requires Inv(s) && t in s.phases && s.phases[t].Logged? && !NeedsTree(s.phases[t].r)
    ensures Enabled(s, Reject(t))
    ensures var s1 := Taken(s, Reject(t));
            && s1.tree == s.tree == Run(s.log, map[]) && s1.phases[t] == Leaving(true, InvalidArgument, None)
            && Enabled(s1, Leave(t)) && Taken(s1, Leave(t)).phases[t] == Idle
  {
    RunOne(s.log[..|s.log| - 1], s.phases[t].r, map[]);
    assert s.log == s.log[..|s.log| - 1] + [s.phases[t].r];
  }

  /** Only thread t closes iterator i in this run. */
  ghost predicate OwnedBy(steps: seq<Step>, i: Cursor, t: Thread) {
    forall k :: 0 <= k < |steps| && steps[k].CloseCursor? && steps[k].i == i ==> steps[k].t == t
  }

  /** So a thread that owns an iterator and changes anything never gets the tree's lock, in no run
      whatever; it keeps the engine's lock, and the log stands still. */
  lemma {:induction false} OwnCursorBlocks(s: State, steps: seq<Step>, i: Cursor, t: Thread)
    requires Inv(s) && Possible(s, steps) && i in s.cursors && OwnedBy(steps, i, t)
    requires t in s.phases && s.phases[t].Logged? && NeedsTree(s.phases[t].r)
    ensures var s' := Final(s, steps);
            && Inv(s') && i in s'.cursors && t in s'.phases && s'.phases[t] == s.phases[t]
            && s'.log == s.log && s'.engineLock.writer == Some(t)
    decreases |steps|
  {
    assert s.engineLock.writer == Some(t);
    if steps != [] {
      var s1 := Taken(s, steps[0]);
      StepInv(s, steps[0]);
      OwnerAlone(s, t);
      BlockedExactly(s, t);
      assert s1.phases[t] == s.phases[t] && s1.log == s.log && i in s1.cursors;
      OwnCursorBlocks(s1, steps[1..], i, t);
    }
  }
}
