/** The engine: log first, apply second, rebuild by replay. */
module Engine {
  import opened KvTypes
  import opened BTree
  import opened WalFormat
  import opened WalLayout
  import opened Wal
  import opened Replay

  const COUNTER_LIMIT: int := 0x1_0000_0000_0000_0000

  /** The counter is a 64-bit atomic and wraps around. */
  function NextNumber(n: U64): (r: U64)
    ensures r == if n == 18446744073709551615 then 0 else n + 1
  {
    (n + 1) % COUNTER_LIMIT
  }

  /** Sequence numbers rise along the log and stay below the counter. */
  ghost predicate Rising(log: seq<Record>, counter: U64) {
    && (forall i :: 0 <= i < |log| ==> 1 <= log[i].number < counter)
    && (forall i, j :: 0 <= i < j < |log| ==> log[i].number < log[j].number)
  }

  lemma RisingSnoc(log: seq<Record>, r: Record, counter: U64)
    requires Rising(log, counter) && r.number == counter && counter >= 1 && counter + 1 < COUNTER_LIMIT
    ensures Rising(log + [r], counter + 1)
  {
  }

  /** The highest number of a rising log is that of its last record. */
  lemma {:induction false} RisingHighest(log: seq<Record>, counter: U64)
    requires Rising(log, counter)
    ensures HighestNumber(log) == if log == [] then 0 else log[|log| - 1].number
    ensures log != [] ==> HighestNumber(log) >= 1
  {
    if log != [] {
      var tail := log[1..];
      assert forall i :: 0 <= i < |tail| ==> tail[i] == log[i + 1];
      RisingHighest(tail, counter);
    }
  }

  class KVEngine {
    const tree: BPlusTree
    const wal: WriteAheadLog
    const syncOnWrite: bool
    var sequenceNumber: U64

    /** Every put and delete is on disk when it returns: the engine or its log syncs each. */
    predicate Eager() {
      syncOnWrite || wal.syncOnWrite
    }

    ghost predicate Valid()
      reads this, tree, wal, wal.dir, wal.buffer
    {
      tree.Valid() && wal.Valid()
    }

    /** The tree is what replaying the log gives. */
    ghost predicate InStep()
      reads this, tree, wal, wal.dir, wal.buffer
    {
      tree.Valid() && wal.Intact() && tree.Model() == Run(wal.Records(), map[])
    }

    constructor (dir: Directory, crc: Checksum, maxKeys: nat, bufferSize: nat, maxFileSize: nat,
                 walSync: bool, syncOnWrite: bool, ghost layout: Layout, ghost bound: nat)
      modifies dir
      ensures Valid() && fresh(tree) && fresh(wal) && fresh(wal.buffer) && wal.dir == dir
      ensures wal.crc == crc && wal.maxFileSize == maxFileSize && this.syncOnWrite == syncOnWrite
      ensures wal.buffer.Length == if bufferSize < 1 then 1 else bufferSize
      ensures dir.files == if old(dir.files) == map[] then map[0 := []] else old(dir.files)
      ensures wal.syncOnWrite == walSync && wal.bound == bound && wal.layout == (if layout == [] then [[]] else layout)
      ensures old(HoldsLog(crc, dir.files, layout, bound)) && maxFileSize <= bound ==>
                wal.Intact() && wal.synced == |wal.Records()|
      ensures var d := Delivered(crc, dir.files);
              && tree.Model() == Run(d.records, map[])
              && sequenceNumber == Resumed(d, 1)
              && Past(d, sequenceNumber)
    {
      this.syncOnWrite := syncOnWrite;
      sequenceNumber := 1;
      tree := new BPlusTree(maxKeys);
      wal := new WriteAheadLog(dir, crc, bufferSize, maxFileSize, walSync, layout, bound);
      new;
      InitialRecovery();
    }

    /** The recovery at the end of construction; what it reports is only printed. */
    method InitialRecovery()
      requires Valid() && tree.Model() == map[] && sequenceNumber == 1
      modifies this, tree
      ensures Valid() && (old(wal.Intact()) ==> wal.Intact())
      ensures var d := Delivered(wal.crc, wal.dir.files);
              tree.Model() == Run(d.records, map[]) && sequenceNumber == Resumed(d, 1) && Past(d, sequenceNumber)
    {
      var s := Recover();
    }

    /** Replay the log into the tree and move the counter past the numbers seen. */
    method Recover() returns (s: Status)
      requires Valid()
      modifies this, tree
      ensures tree.Valid()
      ensures var d := Delivered(wal.crc, wal.dir.files);
              && s == (if d.ok then OK else Corruption)
              && tree.Model() == Run(d.records, old(tree.Model()))
              && sequenceNumber == Resumed(d, old(sequenceNumber))
      ensures s == Corruption ==> sequenceNumber == old(sequenceNumber)
      ensures Past(Delivered(wal.crc, wal.dir.files), sequenceNumber)
    {
      var records, maxSequence;
      s, records, maxSequence := wal.Recover();
      ReplayAll(records);
      if s == OK && maxSequence > 0 {
        sequenceNumber := NextNumber(maxSequence);
      }
      ResumedPast(Delivered(wal.crc, wal.dir.files), old(sequenceNumber));
    }

    method ReplayAll(records: seq<Record>)
      requires tree.Valid()
      modifies tree
      ensures tree.Valid() && tree.Model() == Run(records, old(tree.Model()))
    {
      ghost var m0 := tree.Model();
      var i := 0;
      assert records[..0] == [];
      while i < |records|
        invariant i <= |records| && tree.Valid() && tree.Model() == Run(records[..i], m0)
      {
        RecoveryCallback(records[i]);
        RunOne(records[..i], records[i], m0);
        assert records[..i + 1] == records[..i] + [records[i]];
        i := i + 1;
      }
      assert records[..i] == records;
    }

    method RecoveryCallback(r: Record)
      requires tree.Valid()
      modifies tree
      ensures tree.Valid() && tree.Model() == Apply(old(tree.Model()), r)
      ensures tree.Model() == if r.kind == 1 && r.key != [] then old(tree.Model())[r.key := r.value]
                              else if r.kind == 2 then old(tree.Model()) - {r.key}
                              else old(tree.Model())
    {
      if r.kind == PUT {
        var s := tree.Put(r.key, r.value);
      } else if r.kind == DELETE {
        var s := tree.Delete(r.key);
      }
    }

    /** The first half of an operation: the log, and its sync if every write is synced. */
    method LogPut(key: Bytes, value: Bytes, number: U64, time: U64) returns (s: Status)
      requires wal.Valid() && wal.Manages(key, value)
      modifies wal, wal.dir, wal.buffer
      ensures wal.Valid()
      ensures var r := Record(PUT, number, time, key, value);
              && s == (if Fits(r) then OK else InvalidArgument)
              && (old(wal.Intact()) ==> wal.Intact() && Recorded(old(wal.Records()), old(wal.synced), r))
      ensures s == OK && !Eager() && old(wal.Intact() && wal.HasRoom(HEADER_SIZE + |key| + |value|)) ==>
                wal.Intact() && wal.OnDisk() == old(wal.OnDisk())
    {
      s := wal.Put(key, value, number, time);
      if s == OK {
        s := SyncIfSet();
      }
    }

    /** The engine's option to sync every write. */
    method SyncIfSet() returns (s: Status)
      requires wal.Valid()
      modifies wal, wal.dir
      ensures s == OK && wal.Valid()
      ensures old(wal.Intact()) ==>
                && wal.Intact() && wal.Records() == old(wal.Records())
                && wal.synced == if syncOnWrite then |wal.Records()| else old(wal.synced)
      ensures !syncOnWrite ==> unchanged(wal) && unchanged(wal.dir)
    {
      s := OK;
      if syncOnWrite {
        s := wal.Sync();
      }
    }

    method LogDelete(key: Bytes, number: U64, time: U64) returns (s: Status)
      requires wal.Valid() && wal.Manages(key, [])
      modifies wal, wal.dir, wal.buffer
      ensures wal.Valid()
      ensures var r := Record(DELETE, number, time, key, []);
              && s == (if Fits(r) then OK else InvalidArgument)
              && (old(wal.Intact()) ==> wal.Intact() && Recorded(old(wal.Records()), old(wal.synced), r))
    {
      s := wal.Delete(key, number, time);
      if s == OK {
        s := SyncIfSet();
      }
    }

    /** The log took in r if its sizes fit, and what was safe stays safe; with either option to sync
        every write, r is safe too. */
    ghost predicate Recorded(before: seq<Record>, synced: nat, r: Record)
      reads wal
    {
      && wal.Records() == (if Fits(r) then before + [r] else before)
      && wal.synced >= synced
      && (Fits(r) && Eager() ==> wal.synced == |wal.Records()|)
    }

    /** The second half of an operation: the tree. */
    method ApplyPut(key: Bytes, value: Bytes) returns (s: Status)
      requires Valid()
      modifies tree
      ensures Valid() && (old(wal.Intact()) ==> wal.Intact())
      ensures s == (if key != [] then OK else InvalidArgument)
      ensures tree.Model() == if key != [] then old(tree.Model())[key := value] else old(tree.Model())
      ensures unchanged(wal) && unchanged(wal.dir)
    {
      s := tree.Put(key, value);
    }

    method ApplyDelete(key: Bytes) returns (s: Status)
      requires Valid()
      modifies tree
      ensures Valid() && (old(wal.Intact()) ==> wal.Intact())
      ensures s == (if key in old(tree.Model()) then OK else NotFound)
      ensures tree.Model() == old(tree.Model()) - {key}
    {
      s := tree.Delete(key);
    }

    /** Log the operation, then apply it. A put the tree rejects stays in the log and changes nothing. */
    method Put(key: Bytes, value: Bytes, time: U64) returns (s: Status)
      requires Valid() && wal.Manages(key, value)
      modifies this, tree, wal, wal.dir, wal.buffer
      ensures Valid() && sequenceNumber == NextNumber(old(sequenceNumber))
      ensures sequenceNumber == if old(sequenceNumber) == 18446744073709551615 then 0 else old(sequenceNumber) + 1
      ensures var fits := |key| <= 4294967295 && |value| <= 4294967295;
              && s == (if fits && key != [] then OK else InvalidArgument)
              && tree.Model() == (if fits && key != [] then old(tree.Model())[key := value] else old(tree.Model()))
      ensures old(InStep()) ==>
                InStep() && Recorded(old(wal.Records()), old(wal.synced),
                                     Record(1, old(sequenceNumber), time, key, value))
      ensures Fits(Record(PUT, old(sequenceNumber), time, key, value)) && !Eager()
              && old(wal.Intact() && wal.HasRoom(HEADER_SIZE + |key| + |value|)) ==>
                wal.Intact() && wal.OnDisk() == old(wal.OnDisk())
    {
      var number := sequenceNumber;
      sequenceNumber := NextNumber(sequenceNumber);
      ghost var r, log := Record(PUT, number, time, key, value), wal.Records();
      s := LogPut(key, value, number, time);
      if s == OK {
        RunOne(log, r, map[]);
        s := ApplyPut(key, value);
      }
    }

    method Delete(key: Bytes, time: U64) returns (s: Status)
      requires Valid() && wal.Manages(key, [])
      modifies this, tree, wal, wal.dir, wal.buffer
      ensures Valid() && sequenceNumber == NextNumber(old(sequenceNumber))
      ensures sequenceNumber == if old(sequenceNumber) == 18446744073709551615 then 0 else old(sequenceNumber) + 1
      ensures var fits := |key| <= 4294967295;
              && s == (if !fits then InvalidArgument else if key in old(tree.Model()) then OK else NotFound)
              && tree.Model() == (if fits then old(tree.Model()) - {key} else old(tree.Model()))
      ensures old(InStep()) ==>
                InStep() && Recorded(old(wal.Records()), old(wal.synced), Record(2, old(sequenceNumber), time, key, []))
    {
      var number := sequenceNumber;
      sequenceNumber := NextNumber(sequenceNumber);
      ghost var r, log := Record(DELETE, number, time, key, []), wal.Records();
      s := LogDelete(key, number, time);
      if s == OK {
        RunOne(log, r, map[]);
        s := ApplyDelete(key);
      }
    }

    method Get(key: Bytes) returns (s: Status, value: Bytes)
      requires Valid()
      ensures key in tree.Model() ==> s == OK && value == tree.Model()[key]
      ensures key !in tree.Model() ==> s == NotFound
    {
      s, value := tree.Get(key);
    }

    method Sync() returns (s: Status)
      requires Valid()
      modifies wal, wal.dir
      ensures s == OK && Valid()
      ensures old(InStep()) ==> InStep() && wal.Records() == old(wal.Records()) && wal.synced == |wal.Records()|
      ensures old(InStep()) ==> wal.OnDisk() == |wal.Records()| && wal.bufferOffset == 0
    {
      s := wal.Sync();
    }

    method Flush() returns (s: Status)
      requires Valid()
      modifies wal, wal.dir
      ensures s == OK && Valid()
      ensures wal.bufferOffset == 0 && wal.Image() == old(wal.Image())
      ensures old(InStep()) ==> InStep() && wal.Records() == old(wal.Records()) && wal.synced == old(wal.synced)
    {
      s := wal.Flush();
    }
  }

  /** Every number is short of the last one that a 64-bit counter can hold. */
  ghost predicate Short(records: seq<Record>) {
    forall i :: 0 <= i < |records| ==> records[i].number < 18446744073709551615
  }

  /** The counter is one past the highest number delivered, rising or not, if there is one above 0. */
  ghost predicate Past(d: Parsed, counter: U64) {
    d.ok && Short(d.records) && (exists i :: 0 <= i < |d.records| && d.records[i].number > 0) ==>
      && (forall i :: 0 <= i < |d.records| ==> d.records[i].number < counter)
      && exists i :: 0 <= i < |d.records| && d.records[i].number == counter - 1
  }

  /** Where recovery leaves the counter: where it was if a file is corrupt or no number was seen, and
      otherwise one past the highest number, rising or not. */
  lemma ResumedPast(d: Parsed, counter: U64)
    ensures !d.ok ==> Resumed(d, counter) == counter
    ensures d.ok && (forall i :: 0 <= i < |d.records| ==> d.records[i].number == 0) ==> Resumed(d, counter) == counter
    ensures Past(d, Resumed(d, counter))
  {
    HighestIs(d.records);
  }

  /** Where recovery leaves the counter. */
  ghost function Resumed(d: Parsed, counter: U64): U64 {
    if d.ok && HighestNumber(d.records) > 0 then NextNumber(HighestNumber(d.records)) else counter
  }
}
