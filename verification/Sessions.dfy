/** Whole runs of engines: sessions one after the other on the same directory, and a crash at the end. */
module Sessions {
  import opened KvTypes
  import opened Entries
  import opened WalFormat
  import opened WalLayout
  import opened Wal
  import opened Replay
  import opened Engine
  import opened Runs
  import opened Restart

  // ---- one operation

  /** The operation's fields fit a buffer of this size, and the reader's limit of 256 MiB. */
  predicate Takes(op: Op, bufferSize: nat) {
    match op
    case PutOp(key, value) =>
      && HEADER_SIZE <= bufferSize && |key| <= bufferSize && |value| <= bufferSize
      && |key| <= 268435456 && |value| <= 268435456
    case DeleteOp(key) => HEADER_SIZE <= bufferSize && |key| <= bufferSize && |key| <= 268435456
    case _ => true
  }

  /** What one operation leaves: a record, numbered by the counter, if it is a put or a delete. */
  ghost predicate Stepped(log: seq<Record>, counter: U64, op: Op, log': seq<Record>, counter': U64) {
    && Added(log, op, log')
    && (if Logs(op) then log'[|log|].number == counter && counter' == NextNumber(counter) else counter' == counter)
  }

  method Perform(e: KVEngine, op: Op)
    requires e.InStep() && Takes(op, e.wal.buffer.Length)
    modifies e, e.tree, e.wal, e.wal.dir, e.wal.buffer
    ensures e.InStep()
    ensures Stepped(old(e.wal.Records()), old(e.sequenceNumber), op, e.wal.Records(), e.sequenceNumber)
    ensures old(e.wal.synced) <= e.wal.synced
    ensures Secures(op, e.Eager()) ==> e.wal.synced == |e.wal.Records()|
  {
    match op
    case PutOp(key, value) => PerformPut(e, op);
    case DeleteOp(key) => PerformDelete(e, op);
    case SyncOp => var s := e.Sync();
    case FlushOp => var s := e.Flush();
  }

  method PerformPut(e: KVEngine, op: Op)
    requires e.InStep() && Takes(op, e.wal.buffer.Length) && op.PutOp?
    modifies e, e.tree, e.wal, e.wal.dir, e.wal.buffer
    ensures e.InStep()
    ensures Stepped(old(e.wal.Records()), old(e.sequenceNumber), op, e.wal.Records(), e.sequenceNumber)
    ensures old(e.wal.synced) <= e.wal.synced
    ensures e.Eager() ==> e.wal.synced == |e.wal.Records()|
  {
    ghost var log, counter, safe := e.wal.Records(), e.sequenceNumber, e.wal.synced;
    var time: U64 := *;
    ghost var r := Record(1, counter, time, op.key, op.value);
    assert Fits(r);
    var s := e.Put(op.key, op.value, time);
    assert e.Recorded(log, safe, r);
    assert e.wal.Records() == log + [r];
    NumberedNext(log, counter, op, r);
  }

  method PerformDelete(e: KVEngine, op: Op)
    requires e.InStep() && Takes(op, e.wal.buffer.Length) && op.DeleteOp?
    modifies e, e.tree, e.wal, e.wal.dir, e.wal.buffer
    ensures e.InStep()
    ensures Stepped(old(e.wal.Records()), old(e.sequenceNumber), op, e.wal.Records(), e.sequenceNumber)
    ensures old(e.wal.synced) <= e.wal.synced
    ensures e.Eager() ==> e.wal.synced == |e.wal.Records()|
  {
    ghost var log, counter, safe := e.wal.Records(), e.sequenceNumber, e.wal.synced;
    var time: U64 := *;
    ghost var r := Record(2, counter, time, op.key, []);
    assert Fits(r);
    var s := e.Delete(op.key, time);
    assert e.Recorded(log, safe, r);
    assert e.wal.Records() == log + [r];
    NumberedNext(log, counter, op, r);
  }

  lemma NumberedNext(log: seq<Record>, counter: U64, op: Op, r: Record)
    requires Describes(r, op) && r.number == counter
    ensures Stepped(log, counter, op, log + [r], NextNumber(counter))
  {
  }

  /** Numbers keep rising as long as the counter does not wrap around. */
  lemma RisingStep(log: seq<Record>, counter: U64, op: Op, log': seq<Record>, counter': U64)
    requires Rising(log, counter) && 1 <= counter && counter + 1 < COUNTER_LIMIT
            && Stepped(log, counter, op, log', counter')
    ensures Rising(log', counter') && counter <= counter' <= counter + 1
  {
    if Logs(op) {
      RisingSnoc(log, log'[|log|], counter);
    }
  }

  /** The state of a run that began with log `base` and counter `first`: what it wrote matches its
      operations, what it secured is safe, and if the numbers were rising and the counter has
      room for `limit` more, they still are. */
  ghost predicate Running(base: seq<Record>, first: U64, ops: seq<Op>, syncEach: bool, limit: int, log: seq<Record>,
                          counter: U64, safe: nat) {
    && History(base, ops, syncEach, log, safe)
    && (Rising(base, first) && 1 <= first && first + limit < COUNTER_LIMIT ==>
          Rising(log, counter) && 1 <= counter <= first + |ops|)
  }

  lemma RunningStart(base: seq<Record>, first: U64, syncEach: bool, limit: int, safe: nat)
    ensures Running(base, first, [], syncEach, limit, base, first, safe)
  {
    assert base[|base|..] == [];
  }

  lemma RunningStep(base: seq<Record>, first: U64, ops: seq<Op>, i: nat, syncEach: bool,
                    log: seq<Record>, counter: U64, safe: nat, log': seq<Record>, counter': U64, safe': nat)
    requires i < |ops| && Running(base, first, ops[..i], syncEach, |ops|, log, counter, safe)
    requires Stepped(log, counter, ops[i], log', counter') && safe <= safe'
    requires Secures(ops[i], syncEach) ==> safe' == |log'|
    ensures Running(base, first, ops[..i + 1], syncEach, |ops|, log', counter', safe')
  {
    HistorySnoc(base, ops[..i], syncEach, log, safe, ops[i], log', safe');
    assert ops[..i + 1] == ops[..i] + [ops[i]];
    if Rising(base, first) && 1 <= first && first + |ops| < COUNTER_LIMIT {
      RisingStep(log, counter, ops[i], log', counter');
    }
  }

  method PerformNext(e: KVEngine, ghost base: seq<Record>, ghost first: U64, ops: seq<Op>, i: nat)
    requires e.InStep() && i < |ops| && Takes(ops[i], e.wal.buffer.Length)
    requires Running(base, first, ops[..i], e.Eager(), |ops|, e.wal.Records(), e.sequenceNumber, e.wal.synced)
    modifies e, e.tree, e.wal, e.wal.dir, e.wal.buffer
    ensures e.InStep() && old(e.wal.synced) <= e.wal.synced
    ensures Running(base, first, ops[..i + 1], e.Eager(), |ops|, e.wal.Records(), e.sequenceNumber, e.wal.synced)
  {
    ghost var log, counter, safe := e.wal.Records(), e.sequenceNumber, e.wal.synced;
    Perform(e, ops[i]);
    RunningStep(base, first, ops, i, e.Eager(), log, counter, safe, e.wal.Records(), e.sequenceNumber, e.wal.synced);
  }

  /** Run a list of operations. The map is what the operations mean, the log tells the same story,
      and everything up to the last secured operation is safe on disk. */
  method Execute(e: KVEngine, ops: seq<Op>)
    requires e.InStep() && forall i :: 0 <= i < |ops| ==> Takes(ops[i], e.wal.buffer.Length)
    modifies e, e.tree, e.wal, e.wal.dir, e.wal.buffer
    ensures e.InStep() && e.tree.Model() == Meaning(ops, old(e.tree.Model()))
    ensures Running(old(e.wal.Records()), old(e.sequenceNumber), ops, e.Eager(), |ops|, e.wal.Records(),
                    e.sequenceNumber, e.wal.synced)
    ensures old(e.wal.synced) <= e.wal.synced
  {
    ghost var base, first := e.wal.Records(), e.sequenceNumber;
    var i := 0;
    RunningStart(base, first, e.Eager(), |ops|, e.wal.synced);
    while i < |ops|
      invariant i <= |ops| && e.InStep() && old(e.wal.synced) <= e.wal.synced
      invariant Running(base, first, ops[..i], e.Eager(), |ops|, e.wal.Records(), e.sequenceNumber, e.wal.synced)
    {
      PerformNext(e, base, first, ops, i);
      i := i + 1;
    }
    assert ops[..i] == ops;
    RunMeaning(base, ops, e.Eager(), e.wal.Records(), e.wal.synced);
  }

  lemma RunMeaning(base: seq<Record>, ops: seq<Op>, syncEach: bool, log: seq<Record>, safe: nat)
    requires History(base, ops, syncEach, log, safe)
    ensures Run(log, map[]) == Meaning(ops, Run(base, map[]))
  {
    assert base + log[|base|..] == log;
    RunCat(base, log[|base|..], map[]);
    MatchesMeaning(ops, log[|base|..], Run(base, map[]));
  }

  // ---- sessions

  /** One life of an engine: its options, and what it is asked to do. */
  datatype Session = Session(options: Options, ops: seq<Op>)

  predicate Acceptable(s: Session) {
    forall i :: 0 <= i < |s.ops| ==> Takes(s.ops[i], s.options.bufferSize)
  }

  function AllOps(sessions: seq<Session>): seq<Op> {
    if sessions == [] then [] else AllOps(sessions[..|sessions| - 1]) + sessions[|sessions| - 1].ops
  }

  /** A new engine on an empty directory. */
  method StartEngine(dir: Directory, crc: Checksum, o: Options) returns (e: KVEngine)
    requires dir.files == map[]
    modifies dir
    ensures fresh(e) && fresh(e.tree) && fresh(e.wal) && fresh(e.wal.buffer) && e.wal.dir == dir
    ensures e.wal.crc == crc && e.wal.bound == e.wal.maxFileSize == o.maxFileSize
    ensures e.Eager() == (o.walSync || o.syncOnWrite) && e.wal.buffer.Length >= o.bufferSize
    ensures e.InStep() && e.wal.Records() == [] && e.tree.Model() == map[] && e.sequenceNumber == 1
  {
    NothingLogged(crc, o.maxFileSize);
    e := new KVEngine(dir, crc, o.maxKeys, o.bufferSize, o.maxFileSize, o.walSync, o.syncOnWrite, [], o.maxFileSize);
  }

  lemma NothingLogged(crc: Checksum, limit: nat)
    ensures HoldsLog(crc, map[], [], limit) && Log([[]]) == []
    ensures Delivered(crc, map[0 := []]) == Parsed([], true)
    ensures HighestNumber([]) == 0 && Run([], map[]) == map[]
  {
    assert Range(0, 0) == {} && Range(0, 1) == {0};
    ReadBack(crc, map[0 := []], [[]]);
  }

  /** Start on an empty directory and run: each log file stays within the limit unless it holds a
      single record. */
  method FirstSession(dir: Directory, crc: Checksum, s: Session) returns (e: KVEngine)
    requires dir.files == map[] && Acceptable(s)
    modifies dir
    ensures fresh(e) && fresh(e.tree) && fresh(e.wal) && fresh(e.wal.buffer) && e.wal.dir == dir
    ensures e.InStep() && e.wal.bound == s.options.maxFileSize && e.tree.Model() == Meaning(s.ops, map[])
    ensures AllReadable(e.wal.Records())
    ensures e.Eager() == (s.options.walSync || s.options.syncOnWrite) && e.wal.buffer.Length >= s.options.bufferSize
    ensures Running([], 1, s.ops, s.options.walSync || s.options.syncOnWrite, |s.ops|, e.wal.Records(),
                    e.sequenceNumber, e.wal.synced)
  {
    e := StartEngine(dir, crc, s.options);
    Execute(e, s.ops);
    ghost var log := e.wal.Records();
    assert log[0..] == log;
    MatchesReadable(s.ops, log, s.options.bufferSize);
  }

  lemma {:induction false} MatchesReadable(ops: seq<Op>, log: seq<Record>, bufferSize: nat)
    requires Matches(ops, log) && forall i :: 0 <= i < |ops| ==> Takes(ops[i], bufferSize)
    ensures AllReadable(log)
    decreases |ops|
  {
    if ops != [] {
      if Logs(ops[0]) {
        MatchesReadable(ops[1..], log[1..], bufferSize);
        AllReadableTail(log);
      } else {
        MatchesReadable(ops[1..], log, bufferSize);
      }
    }
  }

  /** Close the engine, build the next one on the same directory, with whatever options, and run. */
  method NextSession(e: KVEngine, s: Session) returns (e2: KVEngine)
    requires e.InStep() && AllReadable(e.wal.Records()) && Acceptable(s)
    modifies e.wal, e.wal.dir
    ensures fresh(e2) && fresh(e2.tree) && fresh(e2.wal) && fresh(e2.wal.buffer) && e2.wal.dir == e.wal.dir
    ensures e2.Eager() == (s.options.walSync || s.options.syncOnWrite) && e2.wal.buffer.Length >= s.options.bufferSize
    ensures e2.InStep() && e2.tree.Model() == Meaning(s.ops, old(e.tree.Model()))
    ensures AllReadable(e2.wal.Records()) && |old(e.wal.Records())| <= e2.wal.synced
    ensures History(old(e.wal.Records()), s.ops, s.options.walSync || s.options.syncOnWrite, e2.wal.Records(),
                    e2.wal.synced)
    ensures Continued(old(e.wal.Records()), old(e.sequenceNumber), s.ops, e2.wal.Records(), e2.sequenceNumber)
  {
    ghost var counter := e.sequenceNumber;
    e2 := CleanRestart(e, s.options);
    RunOn(e2, s, counter);
  }

  /** The session's operations on a reopened engine; `counter` is where the last one stopped. */
  method RunOn(e: KVEngine, s: Session, ghost counter: U64)
    requires e.InStep() && AllReadable(e.wal.Records()) && Acceptable(s) && e.wal.buffer.Length >= s.options.bufferSize
    requires Numbered(e.wal.Records(), counter) ==>
              Numbered(e.wal.Records(), e.sequenceNumber) && e.sequenceNumber <= counter
    modifies e, e.tree, e.wal, e.wal.dir, e.wal.buffer
    ensures e.InStep() && e.tree.Model() == Meaning(s.ops, old(e.tree.Model()))
    ensures AllReadable(e.wal.Records()) && old(e.wal.synced) <= e.wal.synced
    ensures History(old(e.wal.Records()), s.ops, e.Eager(), e.wal.Records(), e.wal.synced)
    ensures Continued(old(e.wal.Records()), counter, s.ops, e.wal.Records(), e.sequenceNumber)
  {
    ghost var log, resumed := e.wal.Records(), e.sequenceNumber;
    Execute(e, s.ops);
    Continue(log, counter, resumed, s, e.Eager(), e.wal.Records(), e.sequenceNumber, e.wal.synced);
  }

  /** Numbers rise along the log and the counter is past them. */
  ghost predicate Numbered(log: seq<Record>, counter: U64) {
    Rising(log, counter) && 1 <= counter
  }

  /** The numbers rise on over another session, unless the counter wraps around. */
  ghost predicate Continued(log: seq<Record>, counter: U64, ops: seq<Op>, log': seq<Record>, counter': U64) {
    Numbered(log, counter) && counter + |ops| < COUNTER_LIMIT ==>
      Numbered(log', counter') && counter' <= counter + |ops|
  }

  lemma Continue(log: seq<Record>, counter: U64, resumed: U64, s: Session, syncEach: bool, log': seq<Record>,
                 counter': U64, safe: nat)
    requires Acceptable(s) && AllReadable(log) && Running(log, resumed, s.ops, syncEach, |s.ops|, log', counter', safe)
    requires Numbered(log, counter) ==> Numbered(log, resumed) && resumed <= counter
    ensures AllReadable(log') && Continued(log, counter, s.ops, log', counter')
  {
    MatchesReadable(s.ops, log'[|log|..], s.options.bufferSize);
    AllReadableCat(log, log'[|log|..]);
    assert log + log'[|log|..] == log';
  }

  /** What the sessions leave. */
  ghost predicate Done(sessions: seq<Session>, log: seq<Record>, m: Map, counter: U64) {
    && AllReadable(log) && m == Meaning(AllOps(sessions), map[])
    && (1 + |AllOps(sessions)| < COUNTER_LIMIT ==> Numbered(log, counter) && counter <= 1 + |AllOps(sessions)|)
  }

  lemma DoneFirst(s: Session, syncEach: bool, log: seq<Record>, counter: U64, safe: nat)
    requires AllReadable(log) && Running([], 1, s.ops, syncEach, |s.ops|, log, counter, safe)
    ensures Done([s], log, Meaning(s.ops, map[]), counter)
  {
    assert [s][..0] == [] && AllOps([s]) == s.ops;
    assert Rising([], 1);
  }

  lemma DoneNext(sessions: seq<Session>, s: Session, log: seq<Record>, m: Map, counter: U64, log': seq<Record>,
                 counter': U64)
    requires Done(sessions, log, m, counter) && AllReadable(log') && Continued(log, counter, s.ops, log', counter')
    ensures Done(sessions + [s], log', Meaning(s.ops, m), counter')
  {
    assert (sessions + [s])[..|sessions|] == sessions;
    MeaningCat(AllOps(sessions), s.ops, map[]);
  }

  /** Any number of sessions, each with its own options, on one directory: the map is what all their
      operations mean, the tree and the log agree, and numbers rise over all of them. */
  method RunSessions(dir: Directory, crc: Checksum, sessions: seq<Session>) returns (e: KVEngine)
    requires dir.files == map[] && sessions != [] && forall i :: 0 <= i < |sessions| ==> Acceptable(sessions[i])
    modifies dir
    ensures fresh(e) && fresh(e.tree) && fresh(e.wal) && fresh(e.wal.buffer) && e.wal.dir == dir
    ensures e.InStep() && Done(sessions, e.wal.Records(), e.tree.Model(), e.sequenceNumber)
    decreases |sessions|
  {
    var before, last := sessions[..|sessions| - 1], sessions[|sessions| - 1];
    assert sessions == before + [last];
    if before == [] {
      e := FirstSession(dir, crc, last);
      DoneFirst(last, e.Eager(), e.wal.Records(), e.sequenceNumber, e.wal.synced);
    } else {
      var e0 := RunSessions(dir, crc, before);
      ghost var log, m, counter := e0.wal.Records(), e0.tree.Model(), e0.sequenceNumber;
      e := NextSession(e0, last);
      DoneNext(before, last, log, m, counter, e.wal.Records(), e.sequenceNumber);
    }
  }

  /** After any run of sessions a restart with any options gives the map the run means, in step with
      the log. */
  method RunThenRestart(dir: Directory, crc: Checksum, sessions: seq<Session>, o: Options) returns (e: KVEngine)
    requires dir.files == map[] && sessions != [] && forall i :: 0 <= i < |sessions| ==> Acceptable(sessions[i])
    modifies dir
    ensures e.InStep() && e.tree.Model() == Meaning(AllOps(sessions), map[])
    ensures 1 + |AllOps(sessions)| < COUNTER_LIMIT ==> Numbered(e.wal.Records(), e.sequenceNumber)
  {
    var e1 := RunSessions(dir, crc, sessions);
    e := CleanRestart(e1, o);
  }

  // ---- a crash at the end

  /** A change is under way when the process dies: nothing of it done yet, the buffer handed over,
      the full file closed, the next file opened, the record written, or the record synced. */
  method Interrupt(w: WriteAheadLog, op: Op, number: U64) returns (ghost r: Record)
    requires w.Intact() && Logs(op) && Takes(op, w.buffer.Length)
    modifies w, w.dir, w.buffer
    ensures w.Intact() && Describes(r, op) && old(w.synced) <= w.synced
    ensures w.Records() == old(w.Records()) || w.Records() == old(w.Records()) + [r]
  {
    var time: U64 := *;
    var stage: nat := *;
    var change := if op.PutOp? then Record(PUT, number, time, op.key, op.value)
                  else Record(DELETE, number, time, op.key, []);
    r := change;
    if stage < 3 {
      InterruptEarly(w, stage);
    } else if stage == 3 {
      var s := w.MakeRoom(HEADER_SIZE + |change.key| + |change.value|);
    } else {
      InterruptLate(w, change, stage > 4);
    }
  }

  method InterruptEarly(w: WriteAheadLog, stage: nat)
    requires w.Intact()
    modifies w, w.dir
    ensures w.Intact() && old(w.synced) <= w.synced && w.Records() == old(w.Records())
  {
    if stage == 1 {
      var s := w.Flush();
    } else if stage == 2 {
      var s := w.Sync();
    }
  }

  method InterruptLate(w: WriteAheadLog, r: Record, synced: bool)
    requires w.Intact() && Fits(r) && w.Accepts(r.key, r.value)
    modifies w, w.dir, w.buffer
    ensures w.Intact() && old(w.synced) <= w.synced && w.Records() == old(w.Records()) + [r]
  {
    var s := w.MakeRoom(HEADER_SIZE + |r.key| + |r.value|);
    w.AppendRecord(r);
    InterruptEarly(w, if synced then 2 else 0);
  }

  function AsOps(op: Option<Op>): seq<Op> {
    if op.Some? then [op.value] else []
  }

  lemma InFlightReadable(log: seq<Record>, log1: seq<Record>, r: Record, op: Option<Op>, bufferSize: nat)
    requires AllReadable(log) && (op.Some? ==> Takes(op.value, bufferSize) && Describes(r, op.value))
    requires log1 == log || (op.Some? && log1 == log + [r])
    ensures AllReadable(log1)
  {
  }

  /** What k surviving records mean. */
  lemma CrashedRun(base: seq<Record>, ops: seq<Op>, op: Option<Op>, syncEach: bool, log: seq<Record>, safe: nat,
                   r: Record, log1: seq<Record>, k: nat) returns (j: nat)
    requires History(base, ops, syncEach, log, safe) && |base| <= safe <= k <= |log1|
    requires op.Some? ==> Describes(r, op.value)
    requires log1 == log || (op.Some? && log1 == log + [r])
    ensures j <= |ops + AsOps(op)|
    ensures Run(log1[..k], map[]) == Meaning((ops + AsOps(op))[..j], Run(base, map[]))
    ensures forall i :: 0 <= i < |ops| && Secures(ops[i], syncEach) ==> i < j
  {
    var all, tail, m := ops + AsOps(op), log1[|base|..], Run(base, map[]);
    var n: nat := k - |base|;
    assert log1[..k] == base + tail[..n];
    RunCat(base, tail[..n], map[]);
    if log1 == log {
      assert ops[..|ops|] == ops;
      j := SurvivingRun(ops, |ops|, syncEach, tail, safe - |base|, n, m);
      assert all[..j] == ops[..j];
    } else {
      MatchesSnoc(ops, log[|base|..], op.value, r);
      assert tail == log[|base|..] + [r] && all[..|ops|] == ops;
      j := SurvivingRun(all, |ops|, syncEach, tail, safe - |base|, n, m);
      assert forall i :: 0 <= i < |ops| ==> all[i] == ops[i];
    }
  }

  /** The crash may come at any moment: whatever state the log is in, as long as it is well laid out and
      holds the records of the operations so far, or those and the record r of one more change. */
  method CrashAt(w: WriteAheadLog, op: Option<Op>, o: Options, ghost base: seq<Record>, ghost ops: seq<Op>,
                 ghost syncEach: bool, ghost log: seq<Record>, ghost safe: nat, ghost r: Record)
      returns (e: KVEngine, ghost j: nat)
    requires w.Intact() && AllReadable(log) && History(base, ops, syncEach, log, safe)
    requires |base| <= safe <= w.synced
    requires op.Some? ==> Takes(op.value, w.buffer.Length) && Describes(r, op.value)
    requires w.Records() == log || (op.Some? && w.Records() == log + [r])
    modifies w.dir
    ensures e.Valid() && j <= |ops + AsOps(op)|
    ensures e.tree.Model() == Meaning((ops + AsOps(op))[..j], Run(base, map[]))
    ensures forall i :: 0 <= i < |ops| && Secures(ops[i], syncEach) ==> i < j
  {
    ghost var log1 := w.Records();
    InFlightReadable(log, log1, r, op, w.buffer.Length);
    ghost var k;
    e, k := CrashRestart(w, o);
    j := CrashedRun(base, ops, op, syncEach, log, safe, r, log1, k);
  }

  /** The crash ends the session after the given operations, or in the middle of one more change. */
  method CrashSession(e: KVEngine, op: Option<Op>, o: Options, ghost base: seq<Record>, ghost ops: seq<Op>)
      returns (e2: KVEngine, ghost j: nat)
    requires e.InStep() && AllReadable(e.wal.Records()) && |base| <= e.wal.synced
    requires History(base, ops, e.Eager(), e.wal.Records(), e.wal.synced)
    requires op.Some? ==> Logs(op.value) && Takes(op.value, e.wal.buffer.Length)
    modifies e.wal, e.wal.dir, e.wal.buffer
    ensures e2.Valid() && j <= |ops + AsOps(op)|
    ensures e2.tree.Model() == Meaning((ops + AsOps(op))[..j], Run(base, map[]))
    ensures forall i :: 0 <= i < |ops| && Secures(ops[i], e.Eager()) ==> i < j
  {
    ghost var log, safe := e.wal.Records(), e.wal.synced;
    ghost var r := Record(0, 0, 0, [], []);
    if op.Some? {
      r := Interrupt(e.wal, op.value, e.sequenceNumber);
    }
    e2, j := CrashAt(e.wal, op, o, base, ops, e.Eager(), log, safe, r);
  }

  /** Any sessions, and then the one that will crash; `base` is the log that the last one found. */
  method RunUpTo(dir: Directory, crc: Checksum, before: seq<Session>, last: Session)
      returns (e: KVEngine, ghost base: seq<Record>)
    requires dir.files == map[] && Acceptable(last) && forall i :: 0 <= i < |before| ==> Acceptable(before[i])
    modifies dir
    ensures fresh(e) && fresh(e.tree) && fresh(e.wal) && fresh(e.wal.buffer) && e.wal.dir == dir
    ensures e.InStep() && AllReadable(e.wal.Records()) && |base| <= e.wal.synced
    ensures e.Eager() == (last.options.walSync || last.options.syncOnWrite)
            && e.wal.buffer.Length >= last.options.bufferSize
    ensures History(base, last.ops, e.Eager(), e.wal.Records(), e.wal.synced)
    ensures Run(base, map[]) == Meaning(AllOps(before), map[])
  {
    base := [];
    if before == [] {
      e := FirstSession(dir, crc, last);
    } else {
      var e0 := RunSessions(dir, crc, before);
      base := e0.wal.Records();
      e := NextSession(e0, last);
    }
  }

  /** Any sessions, then a last one that ends in a crash, possibly in the middle of a change. The
      new engine's map is that of the earlier sessions and a prefix of the last one, and the prefix
      includes every operation that had secured the log. With either option to sync every write no
      put or delete that had returned is lost. */
  method RunThenCrash(dir: Directory, crc: Checksum, before: seq<Session>, last: Session, op: Option<Op>, o: Options)
      returns (e: KVEngine, ghost j: nat)
    requires dir.files == map[] && Acceptable(last) && forall i :: 0 <= i < |before| ==> Acceptable(before[i])
    requires op.Some? ==> Logs(op.value) && Takes(op.value, last.options.bufferSize)
    modifies dir
    ensures e.Valid() && j <= |last.ops + AsOps(op)|
    ensures e.tree.Model() == Meaning(AllOps(before) + (last.ops + AsOps(op))[..j], map[])
    ensures var syncEach := last.options.walSync || last.options.syncOnWrite;
            forall i :: 0 <= i < |last.ops| && Secures(last.ops[i], syncEach) ==> i < j
    ensures forall i :: 0 <= i < |last.ops| && last.ops[i].SyncOp? ==> i < j
    ensures last.options.walSync || last.options.syncOnWrite ==>
              var all := AllOps(before) + last.ops;
              e.tree.Model() == Meaning(all, map[]) || e.tree.Model() == Meaning(all + AsOps(op), map[])
  {
    var e1;
    ghost var base;
    e1, base := RunUpTo(dir, crc, before, last);
    e, j := CrashSession(e1, op, o, base, last.ops);
    MeaningCat(AllOps(before), (last.ops + AsOps(op))[..j], map[]);
    if last.options.walSync || last.options.syncOnWrite {
      AllChangesSurvive(AllOps(before), last.ops, AsOps(op), j);
    }
  }

  /** If every change of the run is in the prefix, the prefix means what the run means. */
  lemma AllChangesSurvive(before: seq<Op>, ops: seq<Op>, more: seq<Op>, j: nat)
    requires |more| <= 1 && j <= |ops + more| && forall i :: 0 <= i < |ops| && Logs(ops[i]) ==> i < j
    ensures var m := Meaning(before + (ops + more)[..j], map[]);
            m == Meaning(before + ops, map[]) || m == Meaning(before + ops + more, map[])
  {
    if j <= |ops| {
      assert (ops + more)[..j] == ops[..j] && ops == ops[..j] + ops[j..];
      assert before + ops == before + ops[..j] + ops[j..];
      MeaningCat(before + ops[..j], ops[j..], map[]);
      NoChange(ops[j..], Meaning(before + ops[..j], map[]));
    } else {
      assert (ops + more)[..j] == ops + more;
      assert before + (ops + more) == before + ops + more;
    }
  }

  lemma {:induction false} NoChange(ops: seq<Op>, m: Map)
    requires forall i :: 0 <= i < |ops| ==> !Logs(ops[i])
    ensures Meaning(ops, m) == m
  {
    if ops != [] {
      NoChange(ops[1..], m);
    }
  }

  // ---- two ways to lose a change that was reported done

  /** A put of more than 256 MiB, possible with a write buffer of that size: it is reported done, the
      engine has it, and it may even be synced; a clean restart loses it. */
  method LoseOversizedPut(dir: Directory, crc: Checksum, o: Options, key: Bytes, value: Bytes, o2: Options)
      returns (s: Status, ghost had: Map, e: KVEngine)
    requires dir.files == map[] && key != [] && 268435456 < |value| <= o.bufferSize && |key| <= o.bufferSize
    requires Fits(Record(PUT, 1, 0, key, value))
    modifies dir
    ensures s == OK && had == map[key := value] && e.tree.Model() == map[]
  {
    var e1 := StartEngine(dir, crc, o);
    var time: U64 := *;
    ghost var r := Record(1, 1, time, key, value);
    assert Fits(r);
    s := e1.Put(key, value, time);
    had := e1.tree.Model();
    assert e1.Recorded([], 0, r);
    assert e1.wal.Records() == [r];
    NothingLeftOf(r);
    e := CleanRestart(e1, o2);
  }

  lemma NothingLeftOf(r: Record)
    requires !Readable(r)
    ensures [r][..ReadablePrefix([r])] == [] && Run([], map[]) == map[]
  {
  }

  /** Two puts of one key with a sync in between, and no option to sync every write. The second
      record fits the buffer and the file, so it stays in memory; recovering the live engine then
      brings back the older value. */
  method RecoverStale(dir: Directory, crc: Checksum, o: Options, key: Bytes, v: Bytes, w: Bytes)
      returns (s: Status, ghost had: Map, e: KVEngine)
    requires dir.files == map[] && key != [] && Takes(PutOp(key, v), o.bufferSize) && Takes(PutOp(key, w), o.bufferSize)
    requires !o.walSync && !o.syncOnWrite && HEADER_SIZE + |key| + |w| <= o.bufferSize
    requires 2 * HEADER_SIZE + 2 * |key| + |v| + |w| <= o.maxFileSize
    modifies dir
    ensures s == OK && had == map[key := w] && e.tree.Model() == map[key := v]
  {
    e := PutTwice(dir, crc, o, key, v, w);
    ghost var log := e.wal.Records();
    TwoPuts(log, key, v, w);
    had := e.tree.Model();
    assert had == map[key := w];
    ghost var onDisk;
    s, onDisk := RecoverLive(e);
    assert onDisk == 1;
  }

  method PutTwice(dir: Directory, crc: Checksum, o: Options, key: Bytes, v: Bytes, w: Bytes) returns (e: KVEngine)
    requires dir.files == map[] && key != [] && Takes(PutOp(key, v), o.bufferSize) && Takes(PutOp(key, w), o.bufferSize)
    requires !o.walSync && !o.syncOnWrite && HEADER_SIZE + |key| + |w| <= o.bufferSize
    requires 2 * HEADER_SIZE + 2 * |key| + |v| + |w| <= o.maxFileSize
    modifies dir
    ensures fresh(e) && fresh(e.tree) && fresh(e.wal) && fresh(e.wal.buffer) && e.wal.dir == dir
    ensures e.InStep() && e.wal.OnDisk() == 1 && |e.wal.Records()| == 2 && AllReadable(e.wal.Records())
    ensures Describes(e.wal.Records()[0], PutOp(key, v)) && Describes(e.wal.Records()[1], PutOp(key, w))
  {
    e := PutAndSync(dir, crc, o, key, v);
    PutInMemory(e, key, w);
  }

  method PutAndSync(dir: Directory, crc: Checksum, o: Options, key: Bytes, v: Bytes) returns (e: KVEngine)
    requires dir.files == map[] && !o.walSync && !o.syncOnWrite && Takes(PutOp(key, v), o.bufferSize)
    modifies dir
    ensures fresh(e) && fresh(e.tree) && fresh(e.wal) && fresh(e.wal.buffer) && e.wal.dir == dir
    ensures !e.Eager() && e.wal.maxFileSize == o.maxFileSize && e.wal.buffer.Length >= o.bufferSize
    ensures e.InStep() && |e.wal.Records()| == 1 && Describes(e.wal.Records()[0], PutOp(key, v))
    ensures e.wal.OnDisk() == 1 && e.wal.bufferOffset == 0 && e.wal.fileSize <= HEADER_SIZE + |key| + |v|
  {
    e := StartEngine(dir, crc, o);
    PerformPut(e, PutOp(key, v));
    var s := e.Sync();
    FirstFile(e.wal);
  }

  lemma FirstFile(w: WriteAheadLog)
    requires w.Intact() && |w.Records()| == 1
    ensures w.fileSize <= HEADER_SIZE + |w.Records()[0].key| + |w.Records()[0].value|
  {
    assert w.Records() == [w.Records()[0]];
    LastFileWithin(w.crc, w.layout, w.Records()[0]);
  }

  /** A put that fits the buffer and the file leaves the disk as it is. */
  method PutInMemory(e: KVEngine, key: Bytes, w: Bytes)
    requires e.InStep() && !e.Eager() && key != [] && Takes(PutOp(key, w), e.wal.buffer.Length)
    requires e.wal.HasRoom(HEADER_SIZE + |key| + |w|)
    modifies e, e.tree, e.wal, e.wal.dir, e.wal.buffer
    ensures e.InStep() && e.wal.OnDisk() == old(e.wal.OnDisk())
    ensures |e.wal.Records()| == |old(e.wal.Records())| + 1
    ensures e.wal.Records() == old(e.wal.Records()) + [e.wal.Records()[|old(e.wal.Records())|]]
    ensures Describes(e.wal.Records()[|old(e.wal.Records())|], PutOp(key, w))
  {
    ghost var log, counter, safe := e.wal.Records(), e.sequenceNumber, e.wal.synced;
    var time: U64 := *;
    ghost var r := Record(1, counter, time, key, w);
    assert Fits(r);
    var s := e.Put(key, w, time);
    assert e.Recorded(log, safe, r);
  }

  lemma TwoPuts(log: seq<Record>, key: Bytes, v: Bytes, w: Bytes)
    requires key != [] && |log| == 2 && Describes(log[0], PutOp(key, v)) && Describes(log[1], PutOp(key, w))
    ensures Run(log, map[]) == map[key := w] && Run(log[..1], map[key := w]) == map[key := v]
  {
    assert log == [log[0]] + [log[1]] && log[..1] == [log[0]];
    RunOne([], log[0], map[]);
    RunOne([log[0]], log[1], map[]);
    RunOne([], log[0], map[key := w]);
    assert [] + [log[0]] == [log[0]];
    assert map[key := v][key := w] == map[key := w] && map[key := w][key := v] == map[key := v];
    assert map[][key := v] == map[key := v];
  }
}
