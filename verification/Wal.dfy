/** The write-ahead log: a buffer in front of numbered append-only files. */
module Wal {
  import opened KvTypes
  import opened WalFormat
  import opened WalLayout

  /** The log directory as a reader sees it: the bytes on disk of each numbered file. */
  class Directory {
    var files: map<nat, Bytes>

    constructor ()
      ensures files == map[]
    {
      files := map[];
    }
  }

  class WriteAheadLog {
    const dir: Directory
    const crc: Checksum
    const maxFileSize: nat
    const syncOnWrite: bool
    const buffer: array<byte>
    var bufferOffset: nat
    var fileNumber: nat
    var fileSize: nat
    /** Bytes the file stream has taken but not yet passed on to the disk. */
    var pending: Bytes
    /** The records in each file, and how many records the last sync made safe. */
    ghost var layout: Layout
    ghost var synced: nat
    /** The largest file limit that the log was ever opened with. */
    ghost const bound: nat

    ghost predicate Open()
      reads `bufferOffset, `fileNumber, dir, buffer
    {
      buffer.Length >= 1 && bufferOffset <= buffer.Length && fileNumber in dir.files
    }

    ghost predicate Valid()
      reads `bufferOffset, `fileNumber, `fileSize, `pending, dir, buffer
    {
      Open() && fileSize == |Image()|
    }

    /** Everything written to the current file, wherever it is by now. */
    ghost function Image(): Bytes
      requires Open()
      reads `bufferOffset, `fileNumber, `pending, dir, buffer
    {
      dir.files[fileNumber] + pending + buffer[..bufferOffset]
    }

    /** The layout of the log: the closed files and then the image of the current one are the
        encodings of the records, no record spans two files, and no file exceeds the bound unless
        it holds a single record. */
    ghost predicate LaidOut()
      reads `bufferOffset, `fileNumber, `fileSize, `pending, `layout, dir, buffer
    {
      Valid() && maxFileSize <= bound && LaidOutAs(crc, bound, dir.files, Image(), fileNumber, layout)
    }

    /** The log is laid out, and what the last sync made safe is on disk. */
    ghost predicate Intact()
      reads this, dir, buffer
    {
      LaidOut() && synced <= OnDisk()
    }

    /** The records written so far. */
    ghost function Records(): seq<Record>
      reads `layout
    {
      Log(layout)
    }

    /** How many of them lie wholly on disk. */
    ghost function OnDisk(): nat
      requires fileNumber in dir.files && AllFilesFit(layout) && layout != []
      reads `layout, `fileNumber, dir
    {
      Surviving(crc, layout, |dir.files[fileNumber]|)
    }

    constructor (dir: Directory, crc: Checksum, bufferSize: nat, maxFileSize: nat, syncOnWrite: bool,
                 ghost layout: Layout, ghost bound: nat)
      modifies dir
      ensures this.dir == dir && this.crc == crc && this.maxFileSize == maxFileSize && this.syncOnWrite == syncOnWrite
      ensures fresh(buffer) && buffer.Length == if bufferSize < 1 then 1 else bufferSize
      ensures Valid() && bufferOffset == 0 && pending == []
      ensures fileNumber in dir.files && forall n :: n in dir.files ==> n <= fileNumber
      ensures dir.files == if old(dir.files) == map[] then map[0 := []] else old(dir.files)
      ensures this.bound == bound && this.layout == if layout == [] then [[]] else layout
      ensures old(HoldsLog(crc, dir.files, layout, bound)) && maxFileSize <= bound ==> Intact() && synced == |Records()|
    {
      this.dir := dir;
      this.crc := crc;
      this.maxFileSize := maxFileSize;
      this.syncOnWrite := syncOnWrite;
      this.bound := bound;
      this.layout := if layout == [] then [[]] else layout;
      buffer := new byte[if bufferSize < 1 then 1 else bufferSize];
      bufferOffset := 0;
      pending := [];
      fileSize := 0;
      fileNumber := 0;
      synced := 0;
      new;
      fileNumber := HighestFile();
      OpenFile();
      SameFiles(old(dir.files), dir.files, fileNumber);
      Adopt(old(dir.files), layout);
    }

    /** Opening a directory that holds a well laid out log takes the log over. */
    ghost method Adopt(files: map<nat, Bytes>, layout: Layout)
      requires Valid() && bufferOffset == 0 && pending == []
      requires if files == map[] then fileNumber == 0
               else fileNumber in files && forall n :: n in files ==> n <= fileNumber
      requires dir.files == files[fileNumber := if fileNumber in files then files[fileNumber] else []]
      requires this.layout == (if layout == [] then [[]] else layout) && synced == 0
      modifies `synced
      ensures HoldsLog(crc, files, layout, bound) && maxFileSize <= bound ==> Intact() && synced == |Records()|
    {
      if HoldsLog(crc, files, layout, bound) && maxFileSize <= bound {
        Reopens(crc, bound, files, dir.files, fileNumber, layout);
        assert Image() == dir.files[fileNumber];
        TakeOver();
      }
    }

    /** The log on disk becomes the log of this object. */
    ghost method TakeOver()
      requires Valid() && maxFileSize <= bound && LaidOutAs(crc, bound, dir.files, Image(), fileNumber, layout)
      requires Surviving(crc, layout, |dir.files[fileNumber]|) == |Log(layout)|
      modifies `synced
      ensures Intact() && synced == |Records()|
    {
      synced := |Records()|;
    }

    /** The number of the newest file, or 0 in an empty directory. */
    method HighestFile() returns (highest: nat)
      ensures dir.files == map[] ==> highest == 0
      ensures dir.files != map[] ==> highest in dir.files && forall n :: n in dir.files ==> n <= highest
    {
      highest := 0;
      var found := false;
      var todo := dir.files.Keys;
      while todo != {}
        invariant todo <= dir.files.Keys
        invariant !found ==> highest == 0 && todo == dir.files.Keys
        invariant found ==> highest in dir.files && forall n :: n in dir.files && n !in todo ==> n <= highest
        decreases |todo|
      {
        var n :| n in todo;
        if !found || n > highest {
          highest := n;
          found := true;
        }
        todo := todo - {n};
      }
    }

    /** Open the current file for appending, creating it if it is not there. */
    method OpenFile()
      requires bufferOffset == 0 && pending == []
      modifies dir, `fileSize
      ensures var files := old(dir.files);
              dir.files == files[fileNumber := if fileNumber in files then files[fileNumber] else []]
      ensures fileSize == |dir.files[fileNumber]|
    {
      if fileNumber !in dir.files {
        dir.files := dir.files[fileNumber := []];
      }
      fileSize := |dir.files[fileNumber]|;
    }

    /** Hand bytes to the file stream, which passes on as much as it likes. */
    method StreamWrite(data: Bytes)
      requires fileNumber in dir.files
      modifies dir, `pending
      ensures OnlyFile(old(dir.files), dir.files, fileNumber)
      ensures dir.files[fileNumber] + pending == old(dir.files[fileNumber] + pending) + data
      ensures |dir.files[fileNumber]| >= |old(dir.files)[fileNumber]|
    {
      var all := pending + data;
      var n: nat :| n <= |all|;
      dir.files := dir.files[fileNumber := dir.files[fileNumber] + all[..n]];
      pending := all[n..];
      Rejoin(old(dir.files)[fileNumber], old(pending), data, n);
    }

    /** Make the stream pass everything on. */
    method StreamFlush()
      requires fileNumber in dir.files
      modifies dir, `pending
      ensures OnlyFile(old(dir.files), dir.files, fileNumber)
      ensures dir.files[fileNumber] == old(dir.files[fileNumber] + pending) && pending == []
    {
      dir.files := dir.files[fileNumber := dir.files[fileNumber] + pending];
      pending := [];
    }

    method FlushBuffer()
      requires Open()
      modifies dir, `pending, `bufferOffset
      ensures Open() && bufferOffset == 0 && Image() == old(Image())
      ensures OnlyFile(old(dir.files), dir.files, fileNumber)
      ensures |dir.files[fileNumber]| >= |old(dir.files)[fileNumber]|
    {
      if bufferOffset > 0 {
        StreamWrite(buffer[..bufferOffset]);
        bufferOffset := 0;
        assert buffer[..0] == [];
      }
    }

    /** Copy bytes into the buffer, flushing it first when they do not fit. */
    method Append(data: Bytes)
      requires Open() && |data| <= buffer.Length
      modifies dir, buffer, `pending, `bufferOffset
      ensures Open() && Image() == old(Image()) + data
      ensures OnlyFile(old(dir.files), dir.files, fileNumber)
      ensures |dir.files[fileNumber]| >= |old(dir.files)[fileNumber]|
      ensures old(bufferOffset) + |data| <= buffer.Length ==>
                dir.files == old(dir.files) && bufferOffset == old(bufferOffset) + |data|
    {
      if bufferOffset + |data| > buffer.Length {
        FlushBuffer();
      }
      ghost var before := buffer[..bufferOffset];
      forall i | 0 <= i < |data| {
        buffer[bufferOffset + i] := data[i];
      }
      bufferOffset := bufferOffset + |data|;
      assert buffer[..bufferOffset] == before + data;
    }

    /** Push everything written so far to the disk. */
    method Sync() returns (s: Status)
      requires Valid()
      modifies dir, `pending, `bufferOffset, `synced
      ensures s == OK && Valid() && Image() == old(Image())
      ensures OnlyFile(old(dir.files), dir.files, fileNumber)
      ensures dir.files[fileNumber] == Image() && pending == [] && bufferOffset == 0
      ensures old(LaidOut()) ==> Intact() && synced == OnDisk() == |Records()|
    {
      ghost var f0, n := dir.files, fileNumber;
      FlushBuffer();
      StreamFlush();
      assert buffer[..0] == [];
      synced := |Records()|;
      if LaidOutAs(crc, bound, f0, Image(), n, layout) {
        DiskProgress(crc, bound, f0, dir.files, Image(), n, layout);
      }
      s := OK;
    }

    /** Hand the buffer to the stream; nothing is promised about the disk. */
    method Flush() returns (s: Status)
      requires Valid()
      modifies dir, `pending, `bufferOffset
      ensures s == OK && Valid() && Image() == old(Image()) && bufferOffset == 0
      ensures OnlyFile(old(dir.files), dir.files, fileNumber)
      ensures old(Intact()) ==> Intact()
    {
      ghost var f0, n := dir.files, fileNumber;
      FlushBuffer();
      if LaidOutAs(crc, bound, f0, Image(), n, layout) {
        DiskProgress(crc, bound, f0, dir.files, Image(), n, layout);
      }
      s := OK;
    }

    /** Close the current file and open the next one. */
    method OpenNextFile()
      requires Valid()
      modifies dir, `pending, `bufferOffset, `fileNumber, `fileSize
      ensures Valid() && bufferOffset == 0 && pending == [] && Image() == dir.files[fileNumber]
      ensures fileNumber == old(fileNumber) + 1 && NextFile(old(dir.files), dir.files, old(Image()), old(fileNumber))
    {
      FlushBuffer();
      StreamFlush();
      fileNumber := fileNumber + 1;
      OpenFile();
      assert buffer[..0] == [];
    }

    /** Close the current file and go on with the next number. */
    method RotateLog() returns (s: Status)
      requires Valid()
      modifies dir, `pending, `bufferOffset, `fileNumber, `fileSize, `layout
      ensures s == OK && Valid()
      ensures fileNumber == old(fileNumber) + 1 && NextFile(old(dir.files), dir.files, old(Image()), old(fileNumber))
      ensures Image() == dir.files[fileNumber]
      ensures old(Intact()) ==> Intact() && layout == old(layout) + [[]] && Records() == old(Records())
    {
      ghost var f0, n, image := dir.files, fileNumber, Image();
      ghost var whole := LaidOut();
      OpenNextFile();
      if whole {
        RotateLaidOut(crc, bound, f0, dir.files, image, n, layout);
        SetLayout(layout + [[]]);
      }
      s := OK;
    }

    /** The layout catches up with what was written. */
    ghost method SetLayout(l: Layout)
      requires Valid() && maxFileSize <= bound && LaidOutAs(crc, bound, dir.files, Image(), fileNumber, l)
      modifies `layout
      ensures LaidOut() && layout == l
    {
      layout := l;
    }

    /** Another `size` bytes fit the current file and the buffer. */
    ghost predicate HasRoom(size: nat)
      reads `fileSize, `bufferOffset
    {
      fileSize + size <= maxFileSize && bufferOffset + size <= buffer.Length
    }

    /** Rotate when the current file has no room for another `size` bytes. */
    method MakeRoom(size: nat) returns (s: Status)
      requires Valid()
      modifies dir, `pending, `bufferOffset, `fileNumber, `fileSize, `layout
      ensures s == OK && Valid()
      ensures old(Intact()) ==> Intact() && Records() == old(Records())
      ensures old(Intact()) ==> fileSize + size <= maxFileSize || layout[fileNumber] == []
      ensures old(HasRoom(size)) ==> unchanged(this) && unchanged(dir)
      ensures fileNumber == old(fileNumber) <==> old(fileSize) + size <= maxFileSize
      ensures fileNumber == old(fileNumber) ==> unchanged(this) && unchanged(dir)
      ensures fileNumber != old(fileNumber) ==>
                && fileNumber == old(fileNumber) + 1 && Image() == dir.files[fileNumber]
                && NextFile(old(dir.files), dir.files, old(Image()), old(fileNumber))
    {
      if fileSize + size > maxFileSize {
        s := RotateLog();
      } else {
        s := OK;
      }
    }

    /** The memory each part of a record is copied through is large enough for it. */
    ghost predicate Accepts(key: Bytes, value: Bytes) {
      HEADER_SIZE <= buffer.Length && |key| <= buffer.Length && |value| <= buffer.Length
    }

    /** Copy header, key and value into the buffer, one after the other. */
    method CopyRecord(r: Record)
      requires Valid() && Accepts(r.key, r.value) && Fits(r)
      modifies dir, buffer, `pending, `bufferOffset, `fileSize
      ensures Valid() && Image() == old(Image()) + Encode(crc, r)
      ensures OnlyFile(old(dir.files), dir.files, fileNumber)
      ensures |dir.files[fileNumber]| >= |old(dir.files)[fileNumber]|
      ensures old(bufferOffset) + |Encode(crc, r)| <= buffer.Length ==> dir.files == old(dir.files)
    {
      ghost var image := Image();
      var header := BuildHeader(crc, r);
      Append(header[..]);
      Append(r.key);
      Append(r.value);
      fileSize := fileSize + HEADER_SIZE + |r.key| + |r.value|;
      EncodeParts(crc, r, image);
    }

    method AppendRecord(r: Record)
      requires Valid() && Accepts(r.key, r.value) && Fits(r)
      modifies dir, buffer, `pending, `bufferOffset, `fileSize, `layout
      ensures Valid() && Image() == old(Image()) + Encode(crc, r)
      ensures OnlyFile(old(dir.files), dir.files, fileNumber)
      ensures old(Intact() && (fileSize + |Encode(crc, r)| <= maxFileSize || layout[fileNumber] == [])) ==>
                Intact() && Records() == old(Records()) + [r]
      ensures old(Intact() && HasRoom(|Encode(crc, r)|)) ==> Intact() && OnDisk() == old(OnDisk())
    {
      ghost var f0, n, image := dir.files, fileNumber, Image();
      ghost var ready := LaidOut() && (fileSize + |Encode(crc, r)| <= maxFileSize || layout[fileNumber] == []);
      CopyRecord(r);
      if ready {
        RecordWritten(crc, bound, f0, dir.files, image, n, layout, r);
        NothingReached(crc, bound, f0, image, n, layout, r);
        SetLayout(layout[n := layout[n] + [r]]);
      }
    }

    /** The log's own option to sync every record; what the sync reports is not looked at. */
    method SyncIfAsked()
      requires Valid()
      modifies dir, `pending, `bufferOffset, `synced
      ensures Valid()
      ensures old(Intact()) ==> Intact() && synced == if syncOnWrite then |Records()| else old(synced)
      ensures Image() == old(Image()) && OnlyFile(old(dir.files), dir.files, fileNumber)
      ensures !syncOnWrite ==> unchanged(this) && unchanged(dir)
    {
      if syncOnWrite {
        var s := Sync();
      }
    }

    /** The memory is large enough, as far as the sizes are copied at all. */
    ghost predicate Manages(key: Bytes, value: Bytes) {
      |key| <= 0xffff_ffff && |value| <= 0xffff_ffff ==> Accepts(key, value)
    }

    /** The record stands at the end of what was written: in the same file if its size allowed it, and
        otherwise in the next one, the file before being closed with everything in it. */
    ghost predicate Appended(files: map<nat, Bytes>, image: Bytes, n: nat, size: nat, r: Record)
      reads `bufferOffset, `fileNumber, `pending, dir, buffer
    {
      && Open() && Fits(r)
      && if size + 29 + |r.key| + |r.value| <= maxFileSize then fileNumber == n && Image() == image + Encode(crc, r)
         else
           && fileNumber == n + 1 && n in dir.files && dir.files[n] == image
           && Image() == (if n + 1 in files then files[n + 1] else []) + Encode(crc, r)
    }

    /** Write a record that has room, and sync it if every record is synced. */
    method WriteHere(r: Record)
      requires Valid() && Accepts(r.key, r.value) && Fits(r)
      modifies dir, buffer, `pending, `bufferOffset, `fileSize, `layout, `synced
      ensures Valid() && Image() == old(Image()) + Encode(crc, r)
      ensures OnlyFile(old(dir.files), dir.files, fileNumber)
      ensures old(Intact() && (fileSize + |Encode(crc, r)| <= maxFileSize || layout[fileNumber] == [])) ==>
                && Intact() && Records() == old(Records()) + [r]
                && synced == if syncOnWrite then |Records()| else old(synced)
      ensures !syncOnWrite && old(Intact() && HasRoom(|Encode(crc, r)|)) ==> Intact() && OnDisk() == old(OnDisk())
    {
      AppendRecord(r);
      SyncIfAsked();
    }

    /** Append one record, in a new file if the current one has no room for it. */
    method WriteRecord(kind: byte, key: Bytes, value: Bytes, number: U64, time: U64) returns (s: Status)
      requires Valid() && Manages(key, value)
      modifies dir, buffer, `pending, `bufferOffset, `fileNumber, `fileSize, `layout, `synced
      ensures Valid()
      ensures s == if Fits(Record(kind, number, time, key, value)) then OK else InvalidArgument
      ensures s == OK <==> |key| <= 4294967295 && |value| <= 4294967295
      ensures s == OK ==> Appended(old(dir.files), old(Image()), old(fileNumber), old(fileSize),
                                   Record(kind, number, time, key, value))
      ensures s == OK && old(Intact()) ==>
                && Intact() && Records() == old(Records()) + [Record(kind, number, time, key, value)]
                && synced == if syncOnWrite then |Records()| else old(synced)
      ensures s == OK && !syncOnWrite && old(Intact() && HasRoom(HEADER_SIZE + |key| + |value|)) ==>
                Intact() && OnDisk() == old(OnDisk())
      ensures s != OK ==> unchanged(this) && unchanged(dir) && unchanged(buffer)
    {
      if |key| > 0xffff_ffff || |value| > 0xffff_ffff {
        return InvalidArgument;
      }
      var r := Record(kind, number, time, key, value);
      s := MakeRoom(HEADER_SIZE + |key| + |value|);
      if s != OK {
        return;
      }
      WriteHere(r);
    }

    method Put(key: Bytes, value: Bytes, number: U64, time: U64) returns (s: Status)
      requires Valid() && Manages(key, value)
      modifies dir, buffer, `pending, `bufferOffset, `fileNumber, `fileSize, `layout, `synced
      ensures Valid()
      ensures s == OK ==> Appended(old(dir.files), old(Image()), old(fileNumber), old(fileSize),
                                   Record(1, number, time, key, value))
      ensures var r := Record(1, number, time, key, value);
              && s == (if Fits(r) then OK else InvalidArgument)
              && (s == OK && old(Intact()) ==>
                    && Intact() && Records() == old(Records()) + [r]
                    && synced == if syncOnWrite then |Records()| else old(synced))
      ensures s == OK && !syncOnWrite && old(Intact() && HasRoom(HEADER_SIZE + |key| + |value|)) ==>
                Intact() && OnDisk() == old(OnDisk())
      ensures s != OK ==> unchanged(this) && unchanged(dir) && unchanged(buffer)
    {
      s := WriteRecord(PUT, key, value, number, time);
    }

    method Delete(key: Bytes, number: U64, time: U64) returns (s: Status)
      requires Valid() && Manages(key, [])
      modifies dir, buffer, `pending, `bufferOffset, `fileNumber, `fileSize, `layout, `synced
      ensures Valid()
      ensures s == OK ==> Appended(old(dir.files), old(Image()), old(fileNumber), old(fileSize),
                                   Record(2, number, time, key, []))
      ensures var r := Record(2, number, time, key, []);
              && s == (if Fits(r) then OK else InvalidArgument)
              && (s == OK && old(Intact()) ==>
                    && Intact() && Records() == old(Records()) + [r]
                    && synced == if syncOnWrite then |Records()| else old(synced))
      ensures s != OK ==> unchanged(this) && unchanged(dir) && unchanged(buffer)
    {
      s := WriteRecord(DELETE, key, [], number, time);
    }

    /** The destructor: everything buffered goes to the file, and the file is closed. */
    method Close()
      requires Valid()
      modifies dir, `pending, `bufferOffset
      ensures OnlyFile(old(dir.files), dir.files, fileNumber) && dir.files[fileNumber] == old(Image())
      ensures old(LaidOut()) ==> HoldsLog(crc, dir.files, layout, bound)
    {
      ghost var f0, n := dir.files, fileNumber;
      FlushBuffer();
      StreamFlush();
      assert buffer[..0] == [];
      if LaidOutAs(crc, bound, f0, Image(), n, layout) {
        ClosedWhole(crc, bound, f0, dir.files, Image(), n, layout);
      }
    }

    // ---- recovery

    /** The lowest-numbered file among those not read yet. */
    method LowestFile(rest: set<nat>) returns (n: nat)
      requires rest != {}
      ensures n == Least(rest)
    {
      n :| n in rest;
      var todo := rest - {n};
      while todo != {}
        invariant n in rest && todo <= rest
        invariant forall m :: m in rest && m !in todo ==> n <= m
        decreases |todo|
      {
        var m :| m in todo;
        todo := todo - {m};
        if m < n {
          n := m;
        }
      }
    }

    /** Read all files in numeric order: the records delivered, and the highest sequence number
        when no file is corrupt. */
    method Recover() returns (s: Status, records: seq<Record>, maxSequence: U64)
      ensures var d := Delivered(crc, dir.files);
              records == d.records && s == if d.ok then OK else Corruption
      ensures s == OK ==> maxSequence == HighestNumber(records)
      ensures s == OK ==> forall i :: 0 <= i < |records| ==> records[i].number <= maxSequence
      ensures s == OK ==> maxSequence == 0 || exists i :: 0 <= i < |records| && records[i].number == maxSequence
      ensures s != OK ==> maxSequence == 0
    {
      records, maxSequence := [], 0;
      var rest := dir.files.Keys;
      var highest: U64 := 0;
      while rest != {}
        invariant rest <= dir.files.Keys && highest == HighestNumber(records)
        invariant Delivered(crc, dir.files) == Ahead(records, Join(ParseEach(crc, InOrder(dir.files, rest))))
        decreases |rest|
      {
        var n := LowestFile(rest);
        ReadNext(crc, dir.files, rest, records);
        var found, ok := ParseFile(crc, dir.files[n]);
        records := records + found;
        if !ok {
          return Corruption, records, 0;
        }
        highest := HighestOf(records[..|records| - |found|], found, highest);
        rest := rest - {n};
      }
      NothingLeft(crc, dir.files, records);
      HighestIs(records);
      return OK, records, highest;
    }

    method HighestOf(ghost before: seq<Record>, found: seq<Record>, start: U64) returns (highest: U64)
      requires start == HighestNumber(before)
      ensures highest == HighestNumber(before + found)
    {
      highest := start;
      var i := 0;
      assert before + found[..0] == before;
      while i < |found|
        invariant i <= |found| && highest == HighestNumber(before + found[..i])
      {
        assert before + found[..i + 1] == before + found[..i] + [found[i]];
        HighestCat(before + found[..i], [found[i]]);
        if found[i].number > highest {
          highest := found[i].number;
        }
        i := i + 1;
      }
      assert found[..i] == found;
    }
  }

  ghost function Highest(a: U64, b: U64): U64 {
    if a < b then b else a
  }

  /** The highest sequence number in a list of records, or 0. */
  ghost function HighestNumber(rs: seq<Record>): U64 {
    if rs == [] then 0 else Highest(rs[0].number, HighestNumber(rs[1..]))
  }

  /** It is their maximum. */
  lemma {:induction false} HighestIs(rs: seq<Record>)
    ensures forall i :: 0 <= i < |rs| ==> rs[i].number <= HighestNumber(rs)
    ensures HighestNumber(rs) == 0 || exists i :: 0 <= i < |rs| && rs[i].number == HighestNumber(rs)
  {
    if rs != [] {
      var rest := rs[1..];
      HighestIs(rest);
      assert forall i :: 1 <= i < |rs| ==> rs[i] == rest[i - 1];
      if i :| 0 <= i < |rest| && rest[i].number == HighestNumber(rest) {
        assert rs[i + 1] == rest[i];
      }
    }
  }

  lemma {:induction false} HighestCat(a: seq<Record>, b: seq<Record>)
    ensures HighestNumber(a + b) == Highest(HighestNumber(a), HighestNumber(b))
    ensures |b| == 1 ==> HighestNumber(b) == b[0].number
  {
    if a == [] {
      assert a + b == b;
    } else {
      assert (a + b)[0] == a[0] && (a + b)[1..] == a[1..] + b;
      HighestCat(a[1..], b);
    }
  }

  /** One more file of the remaining ones. */
  lemma ReadNext(crc: Checksum, files: map<nat, Bytes>, rest: set<nat>, records: seq<Record>)
    requires rest != {} && rest <= files.Keys
    ensures var all, p, later := Join(ParseEach(crc, InOrder(files, rest))), Parse(crc, files[Least(rest)]),
                                 Join(ParseEach(crc, InOrder(files, rest - {Least(rest)})));
            Ahead(records, all) ==
            if p.ok then Ahead(records + p.records, later) else Parsed(records + p.records, false)
  {
    var n := Least(rest);
    var ps := ParseEach(crc, InOrder(files, rest));
    assert ps[0] == Parse(crc, files[n]);
    assert ps[1..] == ParseEach(crc, InOrder(files, rest - {n}));
    JoinStep(ps, records);
  }

  lemma NothingLeft(crc: Checksum, files: map<nat, Bytes>, records: seq<Record>)
    ensures Ahead(records, Join(ParseEach(crc, InOrder(files, {})))) == Parsed(records, true)
  {
    assert ParseEach(crc, InOrder(files, {})) == [];
    assert records + [] == records;
  }

  lemma SameFiles(f0: map<nat, Bytes>, f1: map<nat, Bytes>, n: nat)
    requires f1 == f0[n := if n in f0 then f0[n] else []]
    ensures n in f0 ==> f1 == f0
    ensures f0 == map[] ==> f1 == map[n := []]
  {
  }

  lemma EncodeParts(crc: Checksum, r: Record, image: Bytes)
    requires Fits(r)
    ensures image + Header(crc, r) + r.key + r.value == image + Encode(crc, r)
  {
  }

  lemma Rejoin(file: Bytes, pending: Bytes, data: Bytes, n: nat)
    requires n <= |pending + data|
    ensures file + (pending + data)[..n] + (pending + data)[n..] == file + pending + data
  {
  }
}
