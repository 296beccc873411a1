/** What the calls of the threads come to: the record each change logs, what it does to the tree and
    what it answers, and what a Get answers. */
module Calls {
  import opened KvTypes
  import opened Entries
  import opened WalFormat
  import opened Replay
  import opened Runs
  import opened Locks

  /** The record that a change logs, apart from number and time. */
  ghost predicate WritesDown(r: Record, c: Call) {
    match c
    case PutCall(key, value) => r.kind == 1 && r.key == key && r.value == value
    case DeleteCall(key) => r.kind == 2 && r.key == key && r.value == []
    case _ => false
  }

  /** A thread works on the call it began. */
  ghost predicate WorksOn(p: Phase, c: Call) {
    match p
    case Idle => true
    case Waiting(call) => call == c
    case Holding(call) => call == c
    case Logged(r) => WritesDown(r, c)
    case Writing(r, _) => WritesDown(r, c) && NeedsTree(r)
    case Reading(key) => c == GetCall(key)
    case Leaving(_, _, _) => true
  }

  ghost predicate BeginsNothing(steps: seq<Step>, t: Thread) {
    forall i :: 0 <= i < |steps| ==> !(steps[i].Begin? && steps[i].t == t)
  }

  lemma StepWorksOn(s: State, step: Step, t: Thread, c: Call)
    requires Enabled(s, step) && t in s.phases && WorksOn(s.phases[t], c)
    requires !(step.Begin? && step.t == t)
    ensures t in Taken(s, step).phases && WorksOn(Taken(s, step).phases[t], c)
  {
  }

  lemma {:induction false} RunWorksOn(s: State, steps: seq<Step>, t: Thread, c: Call)
    requires Possible(s, steps) && t in s.phases && WorksOn(s.phases[t], c) && BeginsNothing(steps, t)
    ensures t in Final(s, steps).phases && WorksOn(Final(s, steps).phases[t], c)
    decreases |steps|
  {
    if steps != [] {
      StepWorksOn(s, steps[0], t, c);
      RunWorksOn(Taken(s, steps[0]), steps[1..], t, c);
    }
  }

  /** s is a state in which thread t is still busy with call c, begun some steps ago. */
  ghost predicate Busy(s0: State, before: seq<Step>, t: Thread, c: Call, during: seq<Step>, s: State) {
    && Init(s0) && Possible(s0, before)
    && Enabled(Final(s0, before), Begin(t, c))
    && Possible(Taken(Final(s0, before), Begin(t, c)), during) && BeginsNothing(during, t)
    && s == Final(Taken(Final(s0, before), Begin(t, c)), during)
  }

  lemma BusyInv(s0: State, before: seq<Step>, t: Thread, c: Call, during: seq<Step>, s: State)
    requires Busy(s0, before, t, c, during, s)
    ensures Inv(s) && t in s.phases && WorksOn(s.phases[t], c)
  {
    InitInv(s0);
    RunInv(s0, before);
    StepInv(Final(s0, before), Begin(t, c));
    RunInv(Taken(Final(s0, before), Begin(t, c)), during);
    RunWorksOn(Taken(Final(s0, before), Begin(t, c)), during, t, c);
  }

  /** A Get answers OK and the value that the log gives its key, or NotFound if it gives none. */
  lemma GetAnswers(s0: State, before: seq<Step>, t: Thread, key: Bytes, during: seq<Step>, s: State)
    requires Busy(s0, before, t, GetCall(key), during, s) && Enabled(s, Answer(t))
    ensures var m, p := Run(s.log, map[]), Taken(s, Answer(t)).phases[t];
            && p.Leaving? && !p.exclusive
            && (key in m ==> p.status == OK && p.answer == Some(m[key]))
            && (key !in m ==> p.status == NotFound && p.answer == None)
  {
    BusyInv(s0, before, t, GetCall(key), during, s);
    SharerInStep(s, t);
  }

  /** A put logs its key and its value, numbered by the counter, unless one of them is too long. */
  lemma PutLogs(s0: State, before: seq<Step>, t: Thread, key: Bytes, value: Bytes, during: seq<Step>, s: State,
                time: U64)
    requires Busy(s0, before, t, PutCall(key, value), during, s) && Enabled(s, WriteLog(t, time))
    ensures var s' := Taken(s, WriteLog(t, time));
            if |key| <= 4294967295 && |value| <= 4294967295 then
              var r := Record(1, s.counter, time, key, value);
              s'.log == s.log + [r] && s'.phases[t] == Logged(r) && s'.tree == s.tree
            else s'.log == s.log && s'.tree == s.tree && s'.phases[t] == Leaving(true, InvalidArgument, None)
  {
    BusyInv(s0, before, t, PutCall(key, value), during, s);
  }

  lemma DeleteLogs(s0: State, before: seq<Step>, t: Thread, key: Bytes, during: seq<Step>, s: State, time: U64)
    requires Busy(s0, before, t, DeleteCall(key), during, s) && Enabled(s, WriteLog(t, time))
    ensures var s' := Taken(s, WriteLog(t, time));
            if |key| <= 4294967295 then
              var r := Record(2, s.counter, time, key, []);
              s'.log == s.log + [r] && s'.phases[t] == Logged(r) && s'.tree == s.tree
            else s'.log == s.log && s'.tree == s.tree && s'.phases[t] == Leaving(true, InvalidArgument, None)
  {
    BusyInv(s0, before, t, DeleteCall(key), during, s);
  }

  lemma WriterKnows(s: State, t: Thread)
    requires Inv(s) && t in s.phases && s.phases[t].Writing?
    ensures LastIs(s.log, s.phases[t].r) && s.phases[t].before == BeforeLast(s.log)
  {
    assert Knows(s, s.phases[t]);
  }

  /** Then it puts them into the tree, which was what the log said before, and answers OK. */
  lemma PutApplies(s0: State, before: seq<Step>, t: Thread, key: Bytes, value: Bytes, during: seq<Step>, s: State)
    requires Busy(s0, before, t, PutCall(key, value), during, s) && Enabled(s, FinishWrite(t))
    ensures s.log != [] && key != []
    ensures var m, s' := Run(s.log[..|s.log| - 1], map[]), Taken(s, FinishWrite(t));
            s'.tree == m[key := value] && s'.phases[t] == Leaving(true, OK, None)
  {
    BusyInv(s0, before, t, PutCall(key, value), during, s);
    WriterKnows(s, t);
  }

  /** A delete takes its key out of the tree and answers NotFound exactly when it was not there. */
  lemma DeleteApplies(s0: State, before: seq<Step>, t: Thread, key: Bytes, during: seq<Step>, s: State)
    requires Busy(s0, before, t, DeleteCall(key), during, s) && Enabled(s, FinishWrite(t))
    ensures s.log != []
    ensures var m, s' := Run(s.log[..|s.log| - 1], map[]), Taken(s, FinishWrite(t));
            && s'.tree == m - {key}
            && s'.phases[t] == Leaving(true, if key in m then OK else NotFound, None)
  {
    BusyInv(s0, before, t, DeleteCall(key), during, s);
    WriterKnows(s, t);
  }

  /** Only a put with an empty key is turned away after it was logged: it answers InvalidArgument. */
  lemma EmptyPutRejected(s0: State, before: seq<Step>, t: Thread, c: Call, during: seq<Step>, s: State)
    requires Busy(s0, before, t, c, during, s) && Enabled(s, Reject(t))
    ensures c.PutCall? && c.key == []
    ensures var s' := Taken(s, Reject(t));
            s'.phases[t] == Leaving(true, InvalidArgument, None) && s'.tree == s.tree == Run(s.log, map[])
  {
    BusyInv(s0, before, t, c, during, s);
    EmptyKeyReturns(s, t);
  }

  // ---- the changes of a run

  ghost function Ask(asked: map<Thread, Call>, step: Step): map<Thread, Call> {
    if step.Begin? then asked[step.t := step.call] else asked
  }

  /** The operation a call asks for, if it gets into the log. */
  ghost function Asks(c: Call): seq<Op> {
    match c
    case PutCall(key, value) => if |key| <= 4294967295 && |value| <= 4294967295 then [PutOp(key, value)] else []
    case DeleteCall(key) => if |key| <= 4294967295 then [DeleteOp(key)] else []
    case _ => []
  }

  /** The changes of a run, in the order in which their threads wrote to the log; `asked` is what each
      thread asked for last. */
  ghost function ChangesOf(asked: map<Thread, Call>, steps: seq<Step>): seq<Op>
    decreases |steps|
  {
    if steps == [] then []
    else
      (if steps[0].WriteLog? && steps[0].t in asked then Asks(asked[steps[0].t]) else [])
      + ChangesOf(Ask(asked, steps[0]), steps[1..])
  }

  ghost predicate AllWorkOn(s: State, asked: map<Thread, Call>) {
    forall t :: t in s.phases && s.phases[t] != Idle ==> t in asked && WorksOn(s.phases[t], asked[t])
  }

  lemma StepAllWorkOn(s: State, step: Step, asked: map<Thread, Call>)
    requires Enabled(s, step) && AllWorkOn(s, asked)
    ensures AllWorkOn(Taken(s, step), Ask(asked, step))
  {
    var s', asked' := Taken(s, step), Ask(asked, step);
    forall t | t in s'.phases && s'.phases[t] != Idle ensures t in asked' && WorksOn(s'.phases[t], asked'[t]) {
      if !(step.Begin? && step.t == t) && s.phases[t] != Idle {
        StepWorksOn(s, step, t, asked[t]);
      }
    }
  }

  /** What one step adds to the log. */
  lemma StepLogs(s: State, step: Step, asked: map<Thread, Call>)
    requires Enabled(s, step) && AllWorkOn(s, asked)
    ensures var ops, s' := if step.WriteLog? && step.t in asked then Asks(asked[step.t]) else [], Taken(s, step);
            if ops == [] then s'.log == s.log
            else
              && |ops| == 1 && Runs.Logs(ops[0])
              && |s'.log| == |s.log| + 1 && s'.log == s.log + [s'.log[|s.log|]] && Describes(s'.log[|s.log|], ops[0])
  {
  }

  lemma {:induction false} RunLogs(s: State, steps: seq<Step>, asked: map<Thread, Call>)
    requires Possible(s, steps) && AllWorkOn(s, asked)
    ensures s.log <= Final(s, steps).log && Matches(ChangesOf(asked, steps), Final(s, steps).log[|s.log|..])
    decreases |steps|
  {
    if steps != [] {
      var s1, last := Taken(s, steps[0]), Final(s, steps);
      StepAllWorkOn(s, steps[0], asked);
      StepLogs(s, steps[0], asked);
      RunLogs(s1, steps[1..], Ask(asked, steps[0]));
      var ops := if steps[0].WriteLog? && steps[0].t in asked then Asks(asked[steps[0].t]) else [];
      var rest := ChangesOf(Ask(asked, steps[0]), steps[1..]);
      if ops == [] {
        assert ops + rest == rest;
      } else {
        assert last.log[|s.log|..] == [s1.log[|s.log|]] + last.log[|s1.log|..];
        assert (ops + rest)[0] == ops[0] && (ops + rest)[1..] == rest;
      }
    }
  }

  /** Whatever the threads do and however their steps interleave: what was added to the log are the
      changes they asked for, in the order in which they were logged, and whenever nobody is midway
      the tree is what those changes mean. */
  lemma ThreadsDoWhatTheyAsk(s0: State, steps: seq<Step>)
    requires Init(s0) && Possible(s0, steps)
    ensures var s, changes := Final(s0, steps), ChangesOf(map[], steps);
            && s0.log <= s.log && Matches(changes, s.log[|s0.log|..])
            && (Quiet(s) ==> s.tree == Meaning(changes, s0.tree))
  {
    InitInv(s0);
    RunInv(s0, steps);
    RunLogs(s0, steps, map[]);
    var s, changes := Final(s0, steps), ChangesOf(map[], steps);
    assert s.log == s0.log + s.log[|s0.log|..];
    RunCat(s0.log, s.log[|s0.log|..], map[]);
    MatchesMeaning(changes, s.log[|s0.log|..], s0.tree);
  }
}
