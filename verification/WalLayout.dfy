/** How the records of a log lie in its numbered files, and what reading the files delivers. */
module WalLayout {
  import opened KvTypes
  import opened WalFormat

  /** The records of each file, in file order. */
  type Layout = seq<seq<Record>>

  ghost function Log(layout: Layout): seq<Record> {
    if layout == [] then [] else layout[0] + Log(layout[1..])
  }

  lemma {:induction false} LogCat(a: Layout, b: Layout)
    ensures Log(a + b) == Log(a) + Log(b)
  {
    if a == [] {
      assert a + b == b;
    } else {
      assert (a + b)[0] == a[0] && (a + b)[1..] == a[1..] + b;
      LogCat(a[1..], b);
      assert a[0] + (Log(a[1..]) + Log(b)) == a[0] + Log(a[1..]) + Log(b);
    }
  }

  lemma LogSnoc(layout: Layout, last: seq<Record>)
    ensures Log(layout + [last]) == Log(layout) + last
  {
    LogCat(layout, [last]);
    assert [last][1..] == [];
    assert Log([last]) == last;
  }

  ghost predicate AllFilesFit(layout: Layout) {
    forall i :: 0 <= i < |layout| ==> AllFit(layout[i])
  }

  /** No file exceeds the limit unless it holds a single record. */
  ghost predicate Bounded(crc: Checksum, layout: Layout, limit: nat)
    requires AllFilesFit(layout)
  {
    forall i :: 0 <= i < |layout| ==> |EncodeAll(crc, layout[i])| <= limit || |layout[i]| == 1
  }

  // ---- the files of a directory in numeric order

  ghost predicate IsLeast(s: set<nat>, n: nat) {
    n in s && forall m :: m in s ==> n <= m
  }

  lemma {:induction false} LeastExists(s: set<nat>) returns (n: nat)
    requires s != {}
    ensures IsLeast(s, n)
    decreases |s|
  {
    var x :| x in s;
    n := x;
    if s != {x} {
      var rest := LeastExists(s - {x});
      n := if x < rest then x else rest;
      assert forall m :: m in s ==> m == x || m in s - {x};
    }
  }

  ghost function Least(s: set<nat>): (n: nat)
    requires s != {}
    ensures IsLeast(s, n)
  {
    assert exists n :: IsLeast(s, n) by {
      var n := LeastExists(s);
    }
    var n :| IsLeast(s, n);
    n
  }

  /** The contents of the files, lowest number first. */
  ghost function InOrder(files: map<nat, Bytes>, numbers: set<nat>): seq<Bytes>
    requires numbers <= files.Keys
    decreases |numbers|
  {
    if numbers == {} then [] else [files[Least(numbers)]] + InOrder(files, numbers - {Least(numbers)})
  }

  ghost function Range(lo: nat, hi: nat): (s: set<nat>)
    ensures forall n :: n in s <==> lo <= n < hi
    decreases hi - lo
  {
    if lo >= hi then {} else {lo} + Range(lo + 1, hi)
  }

  lemma {:induction false} InOrderRange(files: map<nat, Bytes>, lo: nat, hi: nat)
    requires lo <= hi && Range(lo, hi) <= files.Keys
    ensures |InOrder(files, Range(lo, hi))| == hi - lo
    ensures forall i :: lo <= i < hi ==> i in files && InOrder(files, Range(lo, hi))[i - lo] == files[i]
    decreases hi - lo
  {
    if lo < hi {
      assert lo in Range(lo, hi);
      assert Least(Range(lo, hi)) == lo;
      assert Range(lo, hi) - {lo} == Range(lo + 1, hi);
      InOrderRange(files, lo + 1, hi);
    }
    assert forall i :: lo <= i < hi ==> i in Range(lo, hi);
  }

  // ---- reading the files one after the other

  /** A file that is corrupt ends the reading; a torn file does not. */
  ghost function Join(files: seq<Parsed>): Parsed {
    if files == [] then Parsed([], true)
    else if !files[0].ok then files[0]
    else Parsed(files[0].records + Join(files[1..]).records, Join(files[1..]).ok)
  }

  ghost function ParseEach(crc: Checksum, contents: seq<Bytes>): (ps: seq<Parsed>)
    ensures |ps| == |contents| && forall i :: 0 <= i < |ps| ==> ps[i] == Parse(crc, contents[i])
  {
    seq(|contents|, i requires 0 <= i < |contents| => Parse(crc, contents[i]))
  }

  lemma JoinStep(ps: seq<Parsed>, records: seq<Record>)
    requires ps != []
    ensures Ahead(records, Join(ps)) ==
            if ps[0].ok then Ahead(records + ps[0].records, Join(ps[1..])) else Parsed(records + ps[0].records, false)
  {
    assert records + (ps[0].records + Join(ps[1..]).records) == records + ps[0].records + Join(ps[1..]).records;
  }

  lemma ParseEachFile(crc: Checksum, files: map<nat, Bytes>, n: nat)
    requires files.Keys == Range(0, n)
    ensures |ParseEach(crc, InOrder(files, files.Keys))| == n
    ensures forall i :: 0 <= i < n ==>
              i in files && ParseEach(crc, InOrder(files, files.Keys))[i] == Parse(crc, files[i])
  {
    InOrderRange(files, 0, n);
  }

  ghost function Delivered(crc: Checksum, files: map<nat, Bytes>): Parsed {
    Join(ParseEach(crc, InOrder(files, files.Keys)))
  }

  lemma AllReadableCat(a: seq<Record>, b: seq<Record>)
    ensures AllReadable(a + b) <==> AllReadable(a) && AllReadable(b)
  {
    var c := a + b;
    assert forall i :: 0 <= i < |a| ==> c[i] == a[i];
    assert forall i :: 0 <= i < |b| ==> c[|a| + i] == b[i];
    if AllReadable(c) {
      forall i | 0 <= i < |b| ensures Readable(b[i]) {
        assert Readable(c[|a| + i]);
      }
    }
  }

  lemma {:induction false} ReadablePrefixCat(a: seq<Record>, b: seq<Record>)
    ensures ReadablePrefix(a + b) == if AllReadable(a) then |a| + ReadablePrefix(b) else ReadablePrefix(a)
  {
    if a == [] {
      assert a + b == b;
    } else {
      assert (a + b)[0] == a[0] && (a + b)[1..] == a[1..] + b;
      AllReadableTail(a);
      ReadablePrefixCat(a[1..], b);
    }
  }

  lemma ReadablePrefixAll(a: seq<Record>)
    ensures ReadablePrefix(a) == |a| <==> AllReadable(a)
  {
  }

  lemma Take(a: seq<Record>, b: seq<Record>, k: nat)
    requires k <= |b|
    ensures (a + b)[..|a| + k] == a + b[..k]
  {
  }

  lemma TakeLess(a: seq<Record>, b: seq<Record>, k: nat)
    requires k <= |a|
    ensures (a + b)[..k] == a[..k]
  {
  }

  lemma {:induction false} JoinInverts(files: seq<Parsed>, layout: Layout)
    requires |files| == |layout|
    requires forall i :: 0 <= i < |files| ==>
              files[i] == Parsed(layout[i][..ReadablePrefix(layout[i])], AllReadable(layout[i]))
    ensures Join(files) == Parsed(Log(layout)[..ReadablePrefix(Log(layout))], AllReadable(Log(layout)))
  {
    if layout != [] {
      var a, b := layout[0], Log(layout[1..]);
      AllReadableCat(a, b);
      ReadablePrefixCat(a, b);
      if AllReadable(a) {
        JoinInverts(files[1..], layout[1..]);
        ReadablePrefixAll(a);
        Take(a, b, ReadablePrefix(b));
        assert a[..|a|] == a;
      } else {
        TakeLess(a, b, ReadablePrefix(a));
      }
    }
  }

  /** The files hold exactly the encodings of the layout. */
  ghost predicate Holds(crc: Checksum, files: map<nat, Bytes>, layout: Layout) {
    && AllFilesFit(layout)
    && files.Keys == Range(0, |layout|)
    && forall i :: 0 <= i < |layout| ==> files[i] == EncodeAll(crc, layout[i])
  }

  /** The files are those of a well laid out log. */
  ghost predicate HoldsLog(crc: Checksum, files: map<nat, Bytes>, layout: Layout, limit: nat) {
    Holds(crc, files, layout) && Bounded(crc, layout, limit)
  }

  /** Reading whole files delivers the log up to the first record the reader rejects,
      and succeeds exactly when there is none. */
  lemma DeliverInverts(crc: Checksum, files: map<nat, Bytes>, layout: Layout)
    requires Holds(crc, files, layout)
    ensures Delivered(crc, files) == Parsed(Log(layout)[..ReadablePrefix(Log(layout))], AllReadable(Log(layout)))
  {
    ParseEachFile(crc, files, |layout|);
    var ps := ParseEach(crc, InOrder(files, files.Keys));
    forall i | 0 <= i < |ps| ensures ps[i] == Parsed(layout[i][..ReadablePrefix(layout[i])], AllReadable(layout[i])) {
      ParseInverts(crc, layout[i]);
    }
    JoinInverts(ps, layout);
  }

  /** The number of records that survive when the last file keeps only its first n bytes. */
  ghost function Surviving(crc: Checksum, layout: Layout, n: nat): (k: nat)
    requires AllFilesFit(layout) && layout != []
    ensures k <= |Log(layout)|
  {
    var last := |layout| - 1;
    LogLast(layout);
    |Log(layout[..last])| + WholeRecords(crc, layout[last], n)
  }

  lemma LogLast(layout: Layout)
    requires layout != []
    ensures Log(layout) == Log(layout[..|layout| - 1]) + layout[|layout| - 1]
  {
    assert layout == layout[..|layout| - 1] + [layout[|layout| - 1]];
    LogSnoc(layout[..|layout| - 1], layout[|layout| - 1]);
  }

  lemma {:induction false} JoinSnoc(files: seq<Parsed>, last: Parsed, layout: Layout)
    requires |files| == |layout| && AllReadable(Log(layout))
    requires forall i :: 0 <= i < |files| ==> files[i] == Parsed(layout[i], true)
    ensures Join(files + [last]) == Parsed(Log(layout) + last.records, last.ok)
  {
    var fs := files + [last];
    if layout == [] {
      assert fs == [last] && fs[1..] == [];
      assert [] + last.records == last.records == last.records + [];
    } else {
      assert fs[0] == files[0] && fs[1..] == files[1..] + [last];
      AllReadableCat(layout[0], Log(layout[1..]));
      JoinSnoc(files[1..], last, layout[1..]);
      assert layout[0] + (Log(layout[1..]) + last.records) == layout[0] + Log(layout[1..]) + last.records;
    }
  }

  /** The closed files are whole; of the last one the first n bytes are on disk. */
  ghost predicate HoldsTorn(crc: Checksum, files: map<nat, Bytes>, layout: Layout, n: nat) {
    && AllFilesFit(layout) && layout != []
    && files.Keys == Range(0, |layout|)
    && (forall i :: 0 <= i < |layout| - 1 ==> files[i] == EncodeAll(crc, layout[i]))
    && var last := |layout| - 1;
       n <= |EncodeAll(crc, layout[last])| && files[last] == EncodeAll(crc, layout[last])[..n]
  }

  lemma ParseReadable(crc: Checksum, rs: seq<Record>)
    requires AllFit(rs) && AllReadable(rs)
    ensures Parse(crc, EncodeAll(crc, rs)) == Parsed(rs, true)
  {
    ParseInverts(crc, rs);
    ReadablePrefixAll(rs);
    assert rs[..|rs|] == rs;
  }

  lemma ClosedParses(crc: Checksum, files: map<nat, Bytes>, layout: Layout, n: nat, i: nat)
    requires HoldsTorn(crc, files, layout, n) && AllReadable(Log(layout)) && i < |layout| - 1
    ensures i in files && Parse(crc, files[i]) == Parsed(layout[i], true)
  {
    ReadableFile(layout, i);
    ParseReadable(crc, layout[i]);
  }

  lemma LastParses(crc: Checksum, files: map<nat, Bytes>, layout: Layout, n: nat)
    requires HoldsTorn(crc, files, layout, n) && AllReadable(Log(layout))
    ensures var last := |layout| - 1;
            last in files && Parse(crc, files[last]) == Parsed(layout[last][..WholeRecords(crc, layout[last], n)], true)
  {
    ReadableFile(layout, |layout| - 1);
    ParseTorn(crc, layout[|layout| - 1], n);
  }

  /** What parsing the files one by one gives when the last one is torn. */
  lemma ParseEachTorn(crc: Checksum, files: map<nat, Bytes>, layout: Layout, n: nat)
    requires HoldsTorn(crc, files, layout, n) && AllReadable(Log(layout))
    ensures var ps, last := ParseEach(crc, InOrder(files, files.Keys)), |layout| - 1;
            && |ps| == |layout|
            && (forall i :: 0 <= i < last ==> ps[i] == Parsed(layout[i], true))
            && ps[last] == Parsed(layout[last][..WholeRecords(crc, layout[last], n)], true)
  {
    var last := |layout| - 1;
    ParseEachFile(crc, files, |layout|);
    forall i | 0 <= i < last ensures i in files && Parse(crc, files[i]) == Parsed(layout[i], true) {
      ClosedParses(crc, files, layout, n, i);
    }
    LastParses(crc, files, layout, n);
  }

  /** Whatever byte prefix of the last file survives a crash, reading succeeds and delivers
      exactly the records that lie wholly on disk: a prefix of the log. */
  lemma DeliverTorn(crc: Checksum, files: map<nat, Bytes>, layout: Layout, n: nat)
    requires HoldsTorn(crc, files, layout, n) && AllReadable(Log(layout))
    ensures Delivered(crc, files) == Parsed(Log(layout)[..Surviving(crc, layout, n)], true)
  {
    ParseEachTorn(crc, files, layout, n);
    JoinTorn(ParseEach(crc, InOrder(files, files.Keys)), layout, WholeRecords(crc, layout[|layout| - 1], n));
  }

  lemma JoinTorn(ps: seq<Parsed>, layout: Layout, k: nat)
    requires layout != [] && |ps| == |layout| && AllReadable(Log(layout)) && k <= |layout[|layout| - 1]|
    requires forall i :: 0 <= i < |layout| - 1 ==> ps[i] == Parsed(layout[i], true)
    requires ps[|layout| - 1] == Parsed(layout[|layout| - 1][..k], true)
    ensures |Log(layout[..|layout| - 1])| + k <= |Log(layout)|
    ensures Join(ps) == Parsed(Log(layout)[..|Log(layout[..|layout| - 1])| + k], true)
  {
    var last := |layout| - 1;
    var whole := layout[..last];
    LogLast(layout);
    AllReadableCat(Log(whole), layout[last]);
    JoinSnoc(ps[..last], ps[last], whole);
    assert ps == ps[..last] + [ps[last]];
    Take(Log(whole), layout[last], k);
  }

  lemma {:induction false} ReadableFile(layout: Layout, i: nat)
    requires AllReadable(Log(layout)) && i < |layout|
    ensures AllReadable(layout[i])
  {
    AllReadableCat(layout[0], Log(layout[1..]));
    if i > 0 {
      ReadableFile(layout[1..], i - 1);
    }
  }

  /** More bytes on disk never mean fewer records. */
  lemma {:induction false} WholeRecordsMonotone(crc: Checksum, a: seq<Record>, b: seq<Record>, n: nat, m: nat)
    requires AllFit(a) && AllFit(b) && n <= m
    ensures AllFit(a + b) && WholeRecords(crc, a, n) <= WholeRecords(crc, a + b, m)
  {
    if a != [] && n >= |Encode(crc, a[0])| {
      assert (a + b)[0] == a[0] && (a + b)[1..] == a[1..] + b;
      WholeRecordsMonotone(crc, a[1..], b, n - |Encode(crc, a[0])|, m - |Encode(crc, a[0])|);
    }
  }

  lemma {:induction false} WholeRecordsAll(crc: Checksum, rs: seq<Record>)
    requires AllFit(rs)
    ensures WholeRecords(crc, rs, |EncodeAll(crc, rs)|) == |rs|
  {
    if rs != [] {
      WholeRecordsAll(crc, rs[1..]);
    }
  }

  /** A record behind bytes that are not all there does not count. */
  lemma {:induction false} WholeRecordsBefore(crc: Checksum, rs: seq<Record>, r: Record, n: nat)
    requires AllFit(rs) && Fits(r) && n <= |EncodeAll(crc, rs)|
    ensures AllFit(rs + [r]) && WholeRecords(crc, rs + [r], n) == WholeRecords(crc, rs, n)
  {
    if rs == [] {
      assert rs + [r] == [r];
    } else {
      assert (rs + [r])[0] == rs[0] && (rs + [r])[1..] == rs[1..] + [r];
      if n >= |Encode(crc, rs[0])| {
        WholeRecordsBefore(crc, rs[1..], r, n - |Encode(crc, rs[0])|);
      }
    }
  }

  // ---- the log while it is being written

  /** Files 0 .. n - 1 are closed; `image` is everything written to file n, on disk or not. */
  ghost predicate LaidOutAs(crc: Checksum, limit: nat, files: map<nat, Bytes>, image: Bytes, n: nat, layout: Layout) {
    && AllFilesFit(layout) && Bounded(crc, layout, limit)
    && |layout| == n + 1
    && files.Keys == Range(0, n + 1)
    && (forall i :: 0 <= i < n ==> files[i] == EncodeAll(crc, layout[i]))
    && image == EncodeAll(crc, layout[n])
  }

  /** Between two moments only file n changed. */
  ghost predicate OnlyFile(f0: map<nat, Bytes>, f1: map<nat, Bytes>, n: nat) {
    && n in f0 && f0.Keys == f1.Keys
    && forall k :: k in f0 && k != n ==> f1[k] == f0[k]
  }

  /** Bytes of the current file reaching the disk do not disturb the layout,
      and no record that was on disk is lost. */
  lemma DiskProgress(crc: Checksum, limit: nat, f0: map<nat, Bytes>, f1: map<nat, Bytes>, image: Bytes, n: nat,
                     layout: Layout)
    requires LaidOutAs(crc, limit, f0, image, n, layout)
    requires OnlyFile(f0, f1, n) && |f0[n]| <= |f1[n]|
    ensures LaidOutAs(crc, limit, f1, image, n, layout)
    ensures Surviving(crc, layout, |f0[n]|) <= Surviving(crc, layout, |f1[n]|)
    ensures f1[n] == image ==> Surviving(crc, layout, |f1[n]|) == |Log(layout)|
  {
    SurvivingMonotone(crc, layout, [], |f0[n]|, |f1[n]|);
    assert layout[n] + [] == layout[n] && layout[n := layout[n]] == layout;
    if f1[n] == image {
      SurvivingAll(crc, layout, |f1[n]|);
    }
  }

  lemma AppendLog(layout: Layout, n: nat, r: Record)
    requires |layout| == n + 1
    ensures Log(layout[n := layout[n] + [r]]) == Log(layout) + [r]
  {
    var grown := layout[n := layout[n] + [r]];
    LogLast(layout);
    LogLast(grown);
    assert grown[..n] == layout[..n];
  }

  lemma AppendLaidOut(crc: Checksum, limit: nat, files: map<nat, Bytes>, image: Bytes, n: nat, layout: Layout,
                      r: Record)
    requires LaidOutAs(crc, limit, files, image, n, layout) && Fits(r)
    requires |image| + |Encode(crc, r)| <= limit || layout[n] == []
    ensures LaidOutAs(crc, limit, files, image + Encode(crc, r), n, layout[n := layout[n] + [r]])
    ensures Log(layout[n := layout[n] + [r]]) == Log(layout) + [r]
  {
    EncodeOne(crc, r);
    EncodeCat(crc, layout[n], [r]);
    AppendLog(layout, n, r);
  }

  /** A record was added to the image of the current file while parts of it reached the disk. */
  lemma RecordWritten(crc: Checksum, limit: nat, f0: map<nat, Bytes>, f1: map<nat, Bytes>, image: Bytes, n: nat,
                      layout: Layout, r: Record)
    requires LaidOutAs(crc, limit, f0, image, n, layout) && Fits(r)
    requires |image| + |Encode(crc, r)| <= limit || layout[n] == []
    requires OnlyFile(f0, f1, n) && |f0[n]| <= |f1[n]|
    ensures var grown := layout[n := layout[n] + [r]];
            && LaidOutAs(crc, limit, f1, image + Encode(crc, r), n, grown)
            && Log(grown) == Log(layout) + [r]
            && Surviving(crc, layout, |f0[n]|) <= Surviving(crc, grown, |f1[n]|)
  {
    AppendLaidOut(crc, limit, f0, image, n, layout, r);
    SurvivingMonotone(crc, layout, [r], |f0[n]|, |f0[n]|);
    DiskProgress(crc, limit, f0, f1, image + Encode(crc, r), n, layout[n := layout[n] + [r]]);
  }

  /** A record that reached the image but not the disk leaves what is on disk as it was. */
  lemma NothingReached(crc: Checksum, limit: nat, files: map<nat, Bytes>, image: Bytes, n: nat, layout: Layout,
                       r: Record)
    requires LaidOutAs(crc, limit, files, image, n, layout) && Fits(r) && n in files && files[n] <= image
    ensures var grown := layout[n := layout[n] + [r]];
            AllFilesFit(grown) && Surviving(crc, grown, |files[n]|) == Surviving(crc, layout, |files[n]|)
  {
    WholeRecordsBefore(crc, layout[n], r, |files[n]|);
    assert layout[n := layout[n] + [r]][..n] == layout[..n];
  }

  /** The last file is no longer than the log. */
  lemma LastFileWithin(crc: Checksum, layout: Layout, r: Record)
    requires AllFilesFit(layout) && layout != [] && Log(layout) == [r]
    ensures |EncodeAll(crc, layout[|layout| - 1])| <= HEADER_SIZE + |r.key| + |r.value|
  {
    var last := layout[|layout| - 1];
    LogLast(layout);
    if last != [] {
      assert |last| == 1 && last[0] == Log(layout)[|Log(layout)| - 1];
      assert last == [r];
      EncodeOne(crc, r);
    }
  }

  /** File n was closed with everything written to it, and file n + 1 opened. */
  ghost predicate NextFile(f0: map<nat, Bytes>, f1: map<nat, Bytes>, image: Bytes, n: nat) {
    && n in f0 && f1.Keys == f0.Keys + {n + 1}
    && f1[n] == image
    && f1[n + 1] == (if n + 1 in f0 then f0[n + 1] else [])
    && forall k :: k in f0 && k != n && k != n + 1 ==> f1[k] == f0[k]
  }

  lemma NextKeys(f0: map<nat, Bytes>, f1: map<nat, Bytes>, image: Bytes, n: nat)
    requires f0.Keys == Range(0, n + 1) && NextFile(f0, f1, image, n)
    ensures f1.Keys == Range(0, n + 2) && f1[n + 1] == [] && f1[n] == image
    ensures forall i :: 0 <= i < n ==> i in f0 && i in f1 && f1[i] == f0[i]
  {
    assert n + 1 !in Range(0, n + 1);
    assert Range(0, n + 2) == Range(0, n + 1) + {n + 1};
    forall i | 0 <= i < n ensures i in f0 && i in f1 && f1[i] == f0[i] {
      assert i in Range(0, n + 1);
    }
  }

  lemma EmptyLast(crc: Checksum, layout: Layout, limit: nat)
    requires AllFilesFit(layout) && Bounded(crc, layout, limit)
    ensures AllFilesFit(layout + [[]]) && Bounded(crc, layout + [[]], limit)
    ensures Log(layout + [[]]) == Log(layout)
    ensures Surviving(crc, layout + [[]], 0) == |Log(layout)|
  {
    LogSnoc(layout, []);
    assert (layout + [[]])[..|layout|] == layout;
  }

  lemma RotateLaidOut(crc: Checksum, limit: nat, f0: map<nat, Bytes>, f1: map<nat, Bytes>, image: Bytes, n: nat,
                      layout: Layout)
    requires LaidOutAs(crc, limit, f0, image, n, layout) && NextFile(f0, f1, image, n)
    ensures f1[n + 1] == []
    ensures LaidOutAs(crc, limit, f1, [], n + 1, layout + [[]])
    ensures Log(layout + [[]]) == Log(layout)
    ensures Surviving(crc, layout + [[]], 0) == |Log(layout)|
  {
    var next := layout + [[]];
    EmptyLast(crc, layout, limit);
    NextKeys(f0, f1, image, n);
    forall i | 0 <= i < n + 1 ensures f1[i] == EncodeAll(crc, next[i]) {
      assert next[i] == layout[i];
    }
  }

  lemma SurvivingMonotone(crc: Checksum, layout: Layout, more: seq<Record>, n: nat, m: nat)
    requires AllFilesFit(layout) && layout != [] && AllFit(more) && n <= m
    ensures var grown := layout[|layout| - 1 := layout[|layout| - 1] + more];
            AllFilesFit(grown) && Surviving(crc, layout, n) <= Surviving(crc, grown, m)
  {
    var last := |layout| - 1;
    var grown := layout[last := layout[last] + more];
    WholeRecordsMonotone(crc, layout[last], more, n, m);
    assert grown[..last] == layout[..last];
  }

  lemma SurvivingAll(crc: Checksum, layout: Layout, n: nat)
    requires AllFilesFit(layout) && layout != [] && n == |EncodeAll(crc, layout[|layout| - 1])|
    ensures Surviving(crc, layout, n) == |Log(layout)|
  {
    WholeRecordsAll(crc, layout[|layout| - 1]);
    LogLast(layout);
  }

  lemma ClosedHolds(crc: Checksum, limit: nat, files: map<nat, Bytes>, n: nat, layout: Layout)
    requires n in files && LaidOutAs(crc, limit, files, files[n], n, layout)
    ensures Holds(crc, files, layout)
  {
    forall i | 0 <= i < |layout| ensures i in files && files[i] == EncodeAll(crc, layout[i]) {
      assert i in Range(0, n + 1);
    }
  }

  /** Once the current file is whole, the directory holds the log. */
  lemma ClosedWhole(crc: Checksum, limit: nat, f0: map<nat, Bytes>, f1: map<nat, Bytes>, image: Bytes, n: nat,
                    layout: Layout)
    requires LaidOutAs(crc, limit, f0, image, n, layout) && OnlyFile(f0, f1, n) && f1[n] == image && f0[n] <= image
    ensures HoldsLog(crc, f1, layout, limit)
  {
    DiskProgress(crc, limit, f0, f1, image, n, layout);
    ClosedHolds(crc, limit, f1, n, layout);
  }

  /** At any moment the disk holds the closed files and a prefix of the current one. */
  lemma OnDiskHolds(crc: Checksum, limit: nat, files: map<nat, Bytes>, image: Bytes, n: nat, layout: Layout)
    requires LaidOutAs(crc, limit, files, image, n, layout)
    requires n in files && files[n] <= image
    ensures HoldsTorn(crc, files, layout, |files[n]|)
  {
    assert files[n] == image[..|files[n]|];
  }

  lemma NewestFile(files: map<nat, Bytes>, newest: nat, n: nat)
    requires n > 0 && files.Keys == Range(0, n) && newest in files && forall m :: m in files ==> m <= newest
    ensures newest == n - 1
  {
    assert n - 1 in Range(0, n);
  }

  lemma OpensEmpty(crc: Checksum, limit: nat)
    ensures LaidOutAs(crc, limit, map[0 := []], [], 0, [[]])
    ensures Surviving(crc, [[]], 0) == |Log([[]])|
  {
    assert Range(0, 1) == {0};
    SurvivingAll(crc, [[]], 0);
  }

  lemma HoldsLaidOut(crc: Checksum, limit: nat, files: map<nat, Bytes>, n: nat, layout: Layout)
    requires Holds(crc, files, layout) && Bounded(crc, layout, limit) && |layout| == n + 1
    ensures n in files && LaidOutAs(crc, limit, files, files[n], n, layout)
    ensures Surviving(crc, layout, |files[n]|) == |Log(layout)|
  {
    SurvivingAll(crc, layout, |files[n]|);
  }

  /** Opening the newest file of a directory for appending takes over the log it holds. */
  lemma Reopens(crc: Checksum, limit: nat, f0: map<nat, Bytes>, f1: map<nat, Bytes>, newest: nat, layout: Layout)
    requires Holds(crc, f0, layout) && Bounded(crc, layout, limit)
    requires if f0 == map[] then newest == 0 else newest in f0 && forall m :: m in f0 ==> m <= newest
    requires f1 == f0[newest := if newest in f0 then f0[newest] else []]
    ensures var l := if layout == [] then [[]] else layout;
            && LaidOutAs(crc, limit, f1, f1[newest], newest, l)
            && Surviving(crc, l, |f1[newest]|) == |Log(l)|
  {
    if layout == [] {
      assert Range(0, 0) == {} && f0 == map[];
      assert f1 == map[0 := []];
      OpensEmpty(crc, limit);
    } else {
      NewestFile(f0, newest, |layout|);
      assert f1 == f0;
      HoldsLaidOut(crc, limit, f1, newest, layout);
    }
  }
}
