/** Engines that are closed, crashed or recovered again: the log and the tree tell the same story. */
module Restart {
  import opened KvTypes
  import opened WalFormat
  import opened WalLayout
  import opened Wal
  import opened Replay
  import opened Crash
  import opened Engine

  datatype Options = Options(maxKeys: nat, bufferSize: nat, maxFileSize: nat, walSync: bool, syncOnWrite: bool)

  // ---- what recovery does to the counter

  /** After a restart the counter is past every number in the log again. */
  lemma ResumedRising(log: seq<Record>, counter: U64)
    requires Rising(log, counter)
    ensures Rising(log, Resumed(Parsed(log, true), 1)) && 1 <= Resumed(Parsed(log, true), 1)
    ensures 1 <= counter ==> Resumed(Parsed(log, true), 1) <= counter
    ensures Rising(log, Resumed(Parsed(log, true), counter))
  {
    RisingHighest(log, counter);
    if log != [] {
      assert log[|log| - 1].number + 1 < COUNTER_LIMIT;
    }
  }

  /** Recovery from a first part of a longer log takes the counter back below numbers in use,
      unless that part is empty. */
  lemma PartlyResumed(log: seq<Record>, counter: U64, k: nat)
    requires Rising(log, counter) && k <= |log|
    ensures Rising(log, Resumed(Parsed(log[..k], true), counter)) <==> k == 0 || k == |log|
  {
    var part := log[..k];
    assert Rising(part, counter);
    RisingHighest(part, counter);
    if k == |log| {
      assert part == log;
      ResumedRising(log, counter);
    } else if k > 0 {
      assert part[k - 1] == log[k - 1];
      assert Resumed(Parsed(part, true), counter) == log[k - 1].number + 1;
      assert log[k - 1].number < log[k].number;
    }
  }

  // ---- a clean restart

  /** What reading back a well laid out log comes to. */
  lemma ReadBack(crc: Checksum, files: map<nat, Bytes>, layout: Layout)
    requires Holds(crc, files, layout)
    ensures layout != [] ==> files != map[]
    ensures Delivered(crc, files) == Parsed(Log(layout)[..ReadablePrefix(Log(layout))], AllReadable(Log(layout)))
    ensures AllReadable(Log(layout)) ==> Delivered(crc, files) == Parsed(Log(layout), true)
  {
    DeliverInverts(crc, files, layout);
    if layout != [] {
      assert 0 in Range(0, |layout|);
    }
    if AllReadable(Log(layout)) {
      ReadablePrefixAll(Log(layout));
      assert Log(layout)[..|Log(layout)|] == Log(layout);
    }
  }

  /** The writer takes fields of up to 4 GiB, the reader only up to 256 MiB. A record beyond that
      costs itself and all that follow it: a restart gives the map before it, which is the old map
      if and only if nothing in the lost part made a difference. */
  lemma OversizedCutsLog(log: seq<Record>, r: Record, rest: seq<Record>)
    requires AllReadable(log) && !Readable(r)
    ensures var whole, lost := log + [r] + rest, [r] + rest;
            && whole[..ReadablePrefix(whole)] == log
            && (Run(whole[..ReadablePrefix(whole)], map[]) == Run(whole, map[]) <==> Redundant(lost, Run(log, map[])))
  {
    var whole, lost := log + [r] + rest, [r] + rest;
    assert whole == log + lost;
    ReadablePrefixCat(log, lost);
    RunCat(log, lost, map[]);
    RedundantRun(lost, Run(log, map[]));
  }

  /** Close the log of an engine that is destroyed. */
  method Shut(e: KVEngine)
    requires e.InStep()
    modifies e.wal, e.wal.dir
    ensures e.wal.layout == old(e.wal.layout) && e.wal.layout != []
    ensures HoldsLog(e.wal.crc, e.wal.dir.files, e.wal.layout, e.wal.bound)
  {
    e.wal.Close();
  }

  /** Build an engine on a directory that is not empty; `layout` describes the log if it is well laid out. */
  method Reopen(dir: Directory, crc: Checksum, o: Options, ghost layout: Layout, ghost bound: nat) returns (e: KVEngine)
    requires dir.files != map[]
    modifies dir
    ensures fresh(e) && fresh(e.tree) && fresh(e.wal) && fresh(e.wal.buffer)
    ensures e.Valid() && e.wal.dir == dir && e.wal.crc == crc && dir.files == old(dir.files)
    ensures e.Eager() == (o.walSync || o.syncOnWrite) && e.wal.buffer.Length >= o.bufferSize && e.wal.bound == bound
    ensures e.tree.Model() == Run(Delivered(crc, dir.files).records, map[])
    ensures e.sequenceNumber == Resumed(Delivered(crc, dir.files), 1)
    ensures layout != [] && old(HoldsLog(crc, dir.files, layout, bound))
            && AllReadable(Log(layout)) && o.maxFileSize <= bound ==>
              e.InStep() && e.wal.Records() == Log(layout) && e.wal.synced == |Log(layout)|
  {
    if Holds(crc, dir.files, layout) {
      ReadBack(crc, dir.files, layout);
    }
    e := new KVEngine(dir, crc, o.maxKeys, o.bufferSize, o.maxFileSize, o.walSync, o.syncOnWrite, layout, bound);
  }

  function Larger(a: nat, b: nat): nat {
    if a < b then b else a
  }

  lemma LooserBound(crc: Checksum, files: map<nat, Bytes>, layout: Layout, a: nat, b: nat)
    requires HoldsLog(crc, files, layout, a) && a <= b
    ensures HoldsLog(crc, files, layout, b)
  {
  }

  /** Destroy the engine and build a new one on the same directory, whatever its options.
      Recovery delivers the log up to the first record with a field the reader finds too large,
      and reports success exactly when there is none; then the new engine has the same map and is
      in step with the same log, all of it on disk. */
  method CleanRestart(e: KVEngine, o: Options) returns (e2: KVEngine)
    requires e.InStep()
    modifies e.wal, e.wal.dir
    ensures fresh(e2) && fresh(e2.tree) && fresh(e2.wal) && fresh(e2.wal.buffer)
    ensures e2.Valid() && e2.wal.dir == e.wal.dir && e2.wal.crc == e.wal.crc
    ensures e2.Eager() == (o.walSync || o.syncOnWrite) && e2.wal.buffer.Length >= o.bufferSize
    ensures e2.wal.bound == Larger(e.wal.bound, o.maxFileSize)
    ensures var log := old(e.wal.Records());
            && Delivered(e.wal.crc, e.wal.dir.files) == Parsed(log[..ReadablePrefix(log)], AllReadable(log))
            && e2.tree.Model() == Run(log[..ReadablePrefix(log)], map[])
    ensures old(AllReadable(e.wal.Records())) ==> e2.tree.Model() == old(e.tree.Model())
    ensures var log := old(e.wal.Records());
            var small := forall i :: 0 <= i < |log| ==> |log[i].key| <= 268435456 && |log[i].value| <= 268435456;
            && (Delivered(e.wal.crc, e.wal.dir.files).ok <==> small)
            && (small ==> e2.tree.Model() == old(e.tree.Model()))
    ensures old(AllReadable(e.wal.Records())) ==>
              e2.InStep() && e2.wal.Records() == old(e.wal.Records()) && e2.wal.synced == |e2.wal.Records()|
    ensures old(AllReadable(e.wal.Records()) && Rising(e.wal.Records(), e.sequenceNumber) && 1 <= e.sequenceNumber) ==>
              Rising(old(e.wal.Records()), e2.sequenceNumber) && 1 <= e2.sequenceNumber <= old(e.sequenceNumber)
  {
    ghost var log, counter := e.wal.Records(), e.sequenceNumber;
    Shut(e);
    ghost var layout, bound := e.wal.layout, Larger(e.wal.bound, o.maxFileSize);
    ReadBack(e.wal.crc, e.wal.dir.files, layout);
    LooserBound(e.wal.crc, e.wal.dir.files, layout, e.wal.bound, bound);
    e2 := Reopen(e.wal.dir, e.wal.crc, o, layout, bound);
    if Rising(log, counter) {
      ResumedRising(log, counter);
    }
  }

  // ---- a crash

  /** The files as a crash finds them: the first k records survive, among them all safe ones. */
  ghost method Lost(w: WriteAheadLog) returns (k: nat)
    requires w.Intact() && AllReadable(w.Records())
    ensures w.synced <= k <= |w.Records()| && k == w.OnDisk() && w.dir.files != map[]
    ensures Delivered(w.crc, w.dir.files) == Parsed(w.Records()[..k], true)
  {
    k := w.OnDisk();
    OnDiskHolds(w.crc, w.bound, w.dir.files, w.Image(), w.fileNumber, w.layout);
    DeliverTorn(w.crc, w.dir.files, w.layout, |w.dir.files[w.fileNumber]|);
  }

  /** The current file ends with a whole record. */
  ghost predicate Untorn(w: WriteAheadLog)
    requires w.LaidOut()
    reads w, w.dir, w.buffer
  {
    exists k :: EndsAfter(w.crc, w.dir.files[w.fileNumber], w.layout[w.fileNumber], k)
  }

  /** The process dies, buffers, tree and all, at any moment: between operations or between the log
      write and the tree write of one. A new engine is built on what the disk holds. Its map is that
      of a prefix of the log which includes everything a sync made safe. If no record was torn, the
      new engine is in step with that prefix and can go on. The counter is past the surviving numbers. */
  method CrashRestart(w: WriteAheadLog, o: Options) returns (e: KVEngine, ghost k: nat)
    requires w.Intact() && AllReadable(w.Records())
    modifies w.dir
    ensures fresh(e) && fresh(e.tree) && fresh(e.wal) && fresh(e.wal.buffer)
    ensures e.Valid() && e.wal.dir == w.dir && e.wal.crc == w.crc
    ensures w.synced <= k <= |w.Records()|
    ensures e.tree.Model() == Run(w.Records()[..k], map[])
    ensures old(Untorn(w)) ==> e.InStep() && e.wal.Records() == w.Records()[..k]
    ensures e.sequenceNumber == Resumed(Parsed(w.Records()[..k], true), 1)
    ensures forall counter :: Rising(w.Records(), counter) ==> Rising(w.Records()[..k], e.sequenceNumber)
  {
    ghost var layout;
    ghost var bound := Larger(w.bound, o.maxFileSize);
    k, layout := Salvaged(w, bound);
    e := Reopen(w.dir, w.crc, o, layout, bound);
    SurvivorsRising(w.Records(), k);
  }

  lemma SurvivorsRising(log: seq<Record>, k: nat)
    requires k <= |log|
    ensures forall counter :: Rising(log, counter) ==> Rising(log[..k], Resumed(Parsed(log[..k], true), 1))
  {
    forall counter | Rising(log, counter) ensures Rising(log[..k], Resumed(Parsed(log[..k], true), 1)) {
      ResumedRising(log[..k], counter);
    }
  }

  ghost method Salvaged(w: WriteAheadLog, bound: nat) returns (k: nat, layout: Layout)
    requires w.Intact() && AllReadable(w.Records()) && w.bound <= bound
    ensures w.synced <= k <= |w.Records()| && w.dir.files != map[]
    ensures Delivered(w.crc, w.dir.files) == Parsed(w.Records()[..k], true)
    ensures Untorn(w) ==>
              && layout != [] && HoldsLog(w.crc, w.dir.files, layout, bound)
              && Log(layout) == w.Records()[..k] && AllReadable(Log(layout))
  {
    k := Lost(w);
    layout := [];
    if j :| EndsAfter(w.crc, w.dir.files[w.fileNumber], w.layout[w.fileNumber], j) {
      layout := Remaining(w, j, k);
      LooserBound(w.crc, w.dir.files, layout, w.bound, bound);
    }
  }

  ghost method Remaining(w: WriteAheadLog, j: nat, k: nat) returns (layout: Layout)
    requires w.Intact() && EndsAfter(w.crc, w.dir.files[w.fileNumber], w.layout[w.fileNumber], j)
    requires AllReadable(w.Records()) && k <= |w.Records()|
    requires Delivered(w.crc, w.dir.files) == Parsed(w.Records()[..k], true)
    ensures layout != [] && HoldsLog(w.crc, w.dir.files, layout, w.bound)
    ensures Log(layout) == w.Records()[..k] && AllReadable(Log(layout))
  {
    layout := Shortened(w.layout, j);
    CleanCut(w.crc, w.bound, w.dir.files, w.Image(), w.fileNumber, w.layout, j);
    ReadBack(w.crc, w.dir.files, layout);
    assert Log(layout) <= Log(w.layout);
  }

  // ---- recovery of a live engine

  /** Recovering a live engine replays what is on disk over the map it already has and moves the
      counter behind the last number on disk. The map stays the same if and only if no record on
      disk is outdated by one that is still in memory; the counter stays past the numbers in use if
      and only if all or nothing of the log is on disk. */
  method RecoverLive(e: KVEngine) returns (s: Status, ghost k: nat)
    requires e.InStep() && AllReadable(e.wal.Records())
    modifies e, e.tree
    ensures s == OK && e.Valid() && k == e.wal.OnDisk() && old(e.wal.synced) <= k <= |e.wal.Records()|
    ensures e.tree.Model() == Run(e.wal.Records()[..k], old(e.tree.Model()))
    ensures e.tree.Model() == old(e.tree.Model()) <==> UpToDate(e.wal.Records()[..k], e.wal.Records()[k..])
    ensures UpToDate(e.wal.Records()[..k], e.wal.Records()[k..]) ==> e.InStep()
    ensures e.sequenceNumber == Resumed(Parsed(e.wal.Records()[..k], true), old(e.sequenceNumber))
    ensures Rising(e.wal.Records(), old(e.sequenceNumber)) ==>
              (Rising(e.wal.Records(), e.sequenceNumber) <==> k == 0 || k == |e.wal.Records()|)
  {
    k := Lost(e.wal);
    ghost var log, counter := e.wal.Records(), e.sequenceNumber;
    s := RecoverPart(e, k);
    StalePart(log, k);
    if Rising(log, counter) {
      PartlyResumed(log, counter, k);
    }
  }

  method RecoverPart(e: KVEngine, ghost k: nat) returns (s: Status)
    requires e.InStep() && k <= |e.wal.Records()|
    requires Delivered(e.wal.crc, e.wal.dir.files) == Parsed(e.wal.Records()[..k], true)
    modifies e, e.tree
    ensures s == OK && e.Valid() && e.wal.Intact()
    ensures e.tree.Model() == Run(e.wal.Records()[..k], old(e.tree.Model()))
    ensures e.sequenceNumber == Resumed(Parsed(e.wal.Records()[..k], true), old(e.sequenceNumber))
  {
    s := e.Recover();
  }

  lemma StalePart(log: seq<Record>, k: nat)
    requires k <= |log|
    ensures Run(log[..k], Run(log, map[])) == Run(log, map[]) <==> UpToDate(log[..k], log[k..])
  {
    assert log[..k] + log[k..] == log;
    PartialReplay(log[..k], log[k..]);
  }

  /** Recovering a live engine once everything is on disk leaves its map alone. */
  method RecoverAgain(e: KVEngine) returns (s: Status)
    requires e.InStep() && AllReadable(e.wal.Records())
    modifies e, e.tree, e.wal, e.wal.dir
    ensures s == OK && e.InStep() && e.tree.Model() == old(e.tree.Model())
    ensures e.wal.Records() == old(e.wal.Records())
    ensures Rising(e.wal.Records(), old(e.sequenceNumber)) ==> Rising(e.wal.Records(), e.sequenceNumber)
  {
    s := e.Sync();
    SyncedReadBack(e);
    s := RecoverSynced(e);
  }

  method RecoverSynced(e: KVEngine) returns (s: Status)
    requires e.InStep() && Delivered(e.wal.crc, e.wal.dir.files) == Parsed(e.wal.Records(), true)
    modifies e, e.tree
    ensures s == OK && e.InStep() && e.tree.Model() == old(e.tree.Model())
    ensures e.wal.Records() == old(e.wal.Records())
    ensures Rising(e.wal.Records(), old(e.sequenceNumber)) ==> Rising(e.wal.Records(), e.sequenceNumber)
  {
    ghost var log, counter := e.wal.Records(), e.sequenceNumber;
    RunIdempotent(log, map[]);
    assert log[..|log|] == log;
    s := RecoverPart(e, |log|);
    if Rising(log, counter) {
      ResumedRising(log, counter);
    }
  }

  ghost method SyncedReadBack(e: KVEngine)
    requires e.InStep() && e.wal.synced == |e.wal.Records()| && AllReadable(e.wal.Records())
    ensures Delivered(e.wal.crc, e.wal.dir.files) == Parsed(e.wal.Records(), true)
  {
    var k := Lost(e.wal);
    assert e.wal.Records()[..k] == e.wal.Records();
  }
}
