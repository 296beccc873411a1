/** Whole runs of an engine, and what a restart or a crash makes of them. */
module Runs {
  import opened KvTypes
  import opened Entries
  import opened WalFormat
  import opened Replay

  datatype Op = PutOp(key: Bytes, value: Bytes) | DeleteOp(key: Bytes) | SyncOp | FlushOp

  /** What one operation does to the map, whatever becomes of the log. */
  function Act(op: Op, m: Map): Map {
    match op
    case PutOp(key, value) => if key == [] then m else m[key := value]
    case DeleteOp(key) => m - {key}
    case SyncOp => m
    case FlushOp => m
  }

  function Meaning(ops: seq<Op>, m: Map): Map {
    if ops == [] then m else Meaning(ops[1..], Act(ops[0], m))
  }

  /** What the last operation of a run does, said outright. */
  lemma MeaningLast(ops: seq<Op>, k: Bytes, v: Bytes, m: Map)
    ensures Meaning([], m) == m
    ensures k != [] ==> Meaning(ops + [PutOp(k, v)], m) == Meaning(ops, m)[k := v]
    ensures Meaning(ops + [PutOp([], v)], m) == Meaning(ops, m)
    ensures Meaning(ops + [DeleteOp(k)], m) == Meaning(ops, m) - {k}
    ensures Meaning(ops + [SyncOp], m) == Meaning(ops + [FlushOp], m) == Meaning(ops, m)
  {
    MeaningCat(ops, [PutOp(k, v)], m);
    MeaningCat(ops, [PutOp([], v)], m);
    MeaningCat(ops, [DeleteOp(k)], m);
    MeaningCat(ops, [SyncOp], m);
    MeaningCat(ops, [FlushOp], m);
  }

  predicate Logs(op: Op) {
    op.PutOp? || op.DeleteOp?
  }

  /** The operation returns only once everything logged so far is on disk: a sync always, a change
      if the engine or its log is set to sync every write. */
  predicate Secures(op: Op, syncEach: bool) {
    op.SyncOp? || (syncEach && Logs(op))
  }

  ghost predicate Describes(r: Record, op: Op) {
    match op
    case PutOp(key, value) => r.kind == PUT && r.key == key && r.value == value
    case DeleteOp(key) => r.kind == DELETE && r.key == key && r.value == []
    case _ => false
  }

  /** The log holds one record for each put and delete, in order. */
  ghost predicate Matches(ops: seq<Op>, log: seq<Record>) {
    if ops == [] then log == []
    else if !Logs(ops[0]) then Matches(ops[1..], log)
    else log != [] && Describes(log[0], ops[0]) && Matches(ops[1..], log[1..])
  }

  lemma {:induction false} MatchesSnoc(ops: seq<Op>, log: seq<Record>, op: Op, r: Record)
    requires Matches(ops, log)
    ensures !Logs(op) ==> Matches(ops + [op], log)
    ensures Describes(r, op) ==> Matches(ops + [op], log + [r])
  {
    if ops == [] {
      assert (ops + [op])[1..] == [] && (log + [r])[1..] == [];
    } else {
      assert (ops + [op])[1..] == ops[1..] + [op];
      if Logs(ops[0]) {
        assert (log + [r])[1..] == log[1..] + [r];
        MatchesSnoc(ops[1..], log[1..], op, r);
      } else {
        MatchesSnoc(ops[1..], log, op, r);
      }
    }
  }

  /** Replaying such a log has the operations' own meaning. */
  lemma {:induction false} MatchesMeaning(ops: seq<Op>, log: seq<Record>, m: Map)
    requires Matches(ops, log)
    ensures Run(log, m) == Meaning(ops, m)
    decreases |ops|
  {
    if ops != [] {
      if Logs(ops[0]) {
        MatchesMeaning(ops[1..], log[1..], Apply(m, log[0]));
      } else {
        MatchesMeaning(ops[1..], log, m);
      }
    }
  }

  ghost function ChangeCount(ops: seq<Op>): nat {
    if ops == [] then 0 else (if Logs(ops[0]) then 1 else 0) + ChangeCount(ops[1..])
  }

  lemma {:induction false} ChangeCountGrows(ops: seq<Op>, i: nat, j: nat)
    requires i <= j <= |ops|
    ensures ChangeCount(ops[..i]) <= ChangeCount(ops[..j])
  {
    if i > 0 {
      assert ops[..i][1..] == ops[1..][..i - 1] && ops[..j][1..] == ops[1..][..j - 1];
      ChangeCountGrows(ops[1..], i - 1, j - 1);
    }
  }

  lemma {:induction false} ChangeCountMatches(ops: seq<Op>, log: seq<Record>)
    requires Matches(ops, log)
    ensures ChangeCount(ops) == |log|
    decreases |ops|
  {
    if ops != [] {
      ChangeCountMatches(ops[1..], if Logs(ops[0]) then log[1..] else log);
    }
  }

  /** A prefix of the log is the log of a prefix of the run: of the longest one that logged no more. */
  lemma {:induction false} PrefixOfRun(ops: seq<Op>, log: seq<Record>, k: nat) returns (j: nat)
    requires Matches(ops, log) && k <= |log|
    ensures j <= |ops| && Matches(ops[..j], log[..k])
    ensures j < |ops| ==> k < ChangeCount(ops[..j + 1])
    decreases |ops|
  {
    if ops == [] {
      return 0;
    }
    if Logs(ops[0]) && k == 0 {
      assert ops[..1][0] == ops[0];
      return 0;
    }
    if Logs(ops[0]) {
      j := PrefixOfRun(ops[1..], log[1..], k - 1);
      assert log[..k][1..] == log[1..][..k - 1];
    } else {
      j := PrefixOfRun(ops[1..], log, k);
    }
    j := j + 1;
    assert ops[..j][1..] == ops[1..][..j - 1];
    if j < |ops| {
      assert ops[..j + 1][1..] == ops[1..][..j];
    }
  }

  /** Every operation that secured the log lies within the first `safe` records. */
  ghost predicate Secured(ops: seq<Op>, syncEach: bool, safe: int) {
    forall i :: 0 <= i < |ops| && Secures(ops[i], syncEach) ==> ChangeCount(ops[..i + 1]) <= safe
  }

  /** If the first k records survive, among them all that the first n operations secured, then the
      map is that of a prefix of the run that includes each of those n that secured the log. */
  lemma SurvivingRun(ops: seq<Op>, n: nat, syncEach: bool, log: seq<Record>, safe: int, k: nat, m: Map) returns (j: nat)
    requires Matches(ops, log) && n <= |ops| && Secured(ops[..n], syncEach, safe) && safe <= k <= |log|
    ensures j <= |ops| && Run(log[..k], m) == Meaning(ops[..j], m)
    ensures forall i :: 0 <= i < n && Secures(ops[i], syncEach) ==> i < j
  {
    j := PrefixOfRun(ops, log, k);
    MatchesMeaning(ops[..j], log[..k], m);
    forall i | 0 <= i < n && Secures(ops[i], syncEach) ensures i < j {
      assert ops[..n][..i + 1] == ops[..i + 1];
      if j <= i {
        ChangeCountGrows(ops, j + 1, i + 1);
      }
    }
  }

  lemma {:induction false} MeaningCat(a: seq<Op>, b: seq<Op>, m: Map)
    ensures Meaning(a + b, m) == Meaning(b, Meaning(a, m))
    decreases |a|
  {
    if a == [] {
      assert a + b == b;
    } else {
      assert (a + b)[0] == a[0] && (a + b)[1..] == a[1..] + b;
      MeaningCat(a[1..], b, Act(a[0], m));
    }
  }

  /** The part of the log a run wrote, and how much of it is safe. */
  ghost predicate History(base: seq<Record>, ops: seq<Op>, syncEach: bool, log: seq<Record>, safe: nat) {
    && base <= log
    && Matches(ops, log[|base|..])
    && Secured(ops, syncEach, safe - |base|)
  }

  /** What one operation adds to the log. */
  ghost predicate Added(log: seq<Record>, op: Op, log': seq<Record>) {
    if Logs(op) then |log'| == |log| + 1 && log' == log + [log'[|log|]] && Describes(log'[|log|], op)
    else log' == log
  }

  lemma HistorySnoc(base: seq<Record>, ops: seq<Op>, syncEach: bool, log: seq<Record>, safe: nat, op: Op,
                    log': seq<Record>, safe': nat)
    requires History(base, ops, syncEach, log, safe) && Added(log, op, log') && safe <= safe'
    requires Secures(op, syncEach) ==> safe' == |log'|
    ensures History(base, ops + [op], syncEach, log', safe')
  {
    var all, part := ops + [op], log[|base|..];
    if Logs(op) {
      MatchesSnoc(ops, part, op, log'[|log|]);
      assert log'[|base|..] == part + [log'[|log|]];
    } else {
      MatchesSnoc(ops, part, op, Record(0, 0, 0, [], []));
    }
    ChangeCountMatches(all, log'[|base|..]);
    assert all[..|ops| + 1] == all;
    forall i | 0 <= i < |all| && Secures(all[i], syncEach) ensures ChangeCount(all[..i + 1]) <= safe' - |base| {
      if i < |ops| {
        assert all[..i + 1] == ops[..i + 1];
      }
    }
  }
}
