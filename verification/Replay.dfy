/** What a list of log records means for the map. */
module Replay {
  import opened KvTypes
  import opened Entries
  import opened WalFormat

  /** The callback of recovery, on the map: puts with an empty key and unknown kinds do nothing. */
  function Apply(m: Map, r: Record): Map {
    if r.kind == PUT then
      if r.key == [] then m else m[r.key := r.value]
    else if r.kind == DELETE then m - {r.key}
    else m
  }

  function Run(log: seq<Record>, m: Map): Map {
    if log == [] then m else Run(log[1..], Apply(m, log[0]))
  }

  lemma {:induction false} RunCat(a: seq<Record>, b: seq<Record>, m: Map)
    ensures Run(a + b, m) == Run(b, Run(a, m))
    decreases |a|
  {
    if a == [] {
      assert a + b == b;
    } else {
      assert (a + b)[0] == a[0] && (a + b)[1..] == a[1..] + b;
      RunCat(a[1..], b, Apply(m, a[0]));
    }
  }

  lemma RunOne(log: seq<Record>, r: Record, m: Map)
    ensures Run(log + [r], m) == Apply(Run(log, m), r)
  {
    RunCat(log, [r], m);
    assert [r][1..] == [];
  }

  /** What the last record of a log does, said outright: kind 1 puts unless the key is empty, kind 2
      deletes, and every other kind does nothing. */
  lemma RunLast(log: seq<Record>, r: Record, m: Map)
    ensures Run([], m) == m
    ensures Run(log + [r], m) ==
            if r.kind == 1 && r.key != [] then Run(log, m)[r.key := r.value]
            else if r.kind == 2 then Run(log, m) - {r.key}
            else Run(log, m)
  {
    RunOne(log, r, m);
  }

  /** What a list of records does to one key. */
  datatype Effect = Untouched | Removed | Stored(value: Bytes)

  function EffectOf(r: Record, k: Bytes): Effect {
    if r.key != k then Untouched
    else if r.kind == PUT && k != [] then Stored(r.value)
    else if r.kind == DELETE then Removed
    else Untouched
  }

  /** The last record that matters for a key decides. */
  function LastEffect(log: seq<Record>, k: Bytes): Effect {
    if log == [] then Untouched
    else
      var later := LastEffect(log[1..], k);
      if later != Untouched then later else EffectOf(log[0], k)
  }

  ghost predicate Agrees(m1: Map, e: Effect, m0: Map, k: Bytes) {
    match e
    case Untouched => (k in m1 <==> k in m0) && (k in m1 ==> m1[k] == m0[k])
    case Removed => k !in m1
    case Stored(v) => k in m1 && m1[k] == v
  }

  lemma {:induction false} LastEffectDecides(log: seq<Record>, m: Map, k: Bytes)
    ensures Agrees(Run(log, m), LastEffect(log, k), m, k)
    decreases |log|
  {
    if log != [] {
      LastEffectDecides(log[1..], Apply(m, log[0]), k);
    }
  }

  lemma {:induction false} LastEffectCat(a: seq<Record>, b: seq<Record>, k: Bytes)
    ensures LastEffect(a + b, k) == if LastEffect(b, k) != Untouched then LastEffect(b, k) else LastEffect(a, k)
  {
    if a == [] {
      assert a + b == b;
    } else {
      assert (a + b)[0] == a[0] && (a + b)[1..] == a[1..] + b;
      LastEffectCat(a[1..], b, k);
    }
  }

  /** For each key the log touches, the map already has the outcome. */
  ghost predicate Redundant(log: seq<Record>, m: Map) {
    forall k :: Agrees(m, LastEffect(log, k), m, k)
  }

  lemma RedundantRun(log: seq<Record>, m: Map)
    ensures Run(log, m) == m <==> Redundant(log, m)
  {
    var m' := Run(log, m);
    forall k: Bytes
      ensures (k in m' <==> k in m) && (k in m' ==> m'[k] == m[k]) <==> Agrees(m, LastEffect(log, k), m, k)
    {
      LastEffectDecides(log, m, k);
    }
    if Redundant(log, m) {
      assert m' == m;
    }
  }

  /** Replaying a log over its own result changes nothing. */
  lemma RunIdempotent(log: seq<Record>, m: Map)
    ensures Run(log, Run(log, m)) == Run(log, m)
  {
    var once := Run(log, m);
    var twice := Run(log, once);
    forall k: Bytes ensures (k in twice <==> k in once) && (k in once ==> twice[k] == once[k]) {
      LastEffectDecides(log, m, k);
      LastEffectDecides(log, once, k);
    }
  }

  /** No record of the first part is outdated by the second part. */
  ghost predicate UpToDate(first: seq<Record>, rest: seq<Record>) {
    forall k :: LastEffect(first, k) != Untouched && LastEffect(rest, k) != Untouched ==>
                  LastEffect(first, k) == LastEffect(rest, k)
  }

  /** Replaying only a first part of the log over the whole log's result leaves the map alone
      if and only if nothing in that part was overwritten later with another outcome. */
  lemma PartialReplay(first: seq<Record>, rest: seq<Record>)
    ensures Run(first, Run(first + rest, map[])) == Run(first + rest, map[]) <==> UpToDate(first, rest)
  {
    var whole := Run(first + rest, map[]);
    var again := Run(first, whole);
    forall k: Bytes
      ensures (k in again <==> k in whole) && (k in whole ==> again[k] == whole[k]) <==>
              (LastEffect(first, k) != Untouched && LastEffect(rest, k) != Untouched ==>
               LastEffect(first, k) == LastEffect(rest, k))
    {
      LastEffectDecides(first, whole, k);
      LastEffectDecides(first + rest, map[], k);
      LastEffectCat(first, rest, k);
    }
    if UpToDate(first, rest) {
      assert again == whole;
    }
  }

  /** So recovering on a live engine before everything is on disk can bring old values back. */
  lemma StaleReplay(k: Bytes, v: Bytes, w: Bytes)
    requires k != [] && v != w
    ensures var first, rest := [Record(PUT, 1, 0, k, v)], [Record(PUT, 2, 0, k, w)];
            && Run(first + rest, map[]) == map[k := w]
            && Run(first, Run(first + rest, map[])) == map[k := v]
  {
    var first, rest := [Record(PUT, 1, 0, k, v)], [Record(PUT, 2, 0, k, w)];
    RunCat(first, rest, map[]);
    assert first[1..] == [] && rest[1..] == [];
    assert Run(first, map[]) == map[k := v];
    assert Run(rest, map[k := v]) == map[k := v][k := w] == map[k := w];
    assert Run(first, map[k := w]) == map[k := w][k := v] == map[k := v];
  }
}
