/** What a crash leaves behind: the closed files and some byte prefix of the current one. */
module Crash {
  import opened KvTypes
  import opened WalFormat
  import opened WalLayout
  import opened Replay

  /** How many bytes of the current file hold the first k records of the log. */
  ghost function SafeBytes(crc: Checksum, layout: Layout, k: nat): nat
    requires AllFilesFit(layout) && layout != [] && k <= |Log(layout)|
  {
    var last := |layout| - 1;
    var closed := |Log(layout[..last])|;
    LogLast(layout);
    if k <= closed then 0 else |EncodeAll(crc, layout[last][..k - closed])|
  }

  lemma {:induction false} WholeRecordsExact(crc: Checksum, rs: seq<Record>, k: nat, n: nat)
    requires AllFit(rs) && k <= |rs|
    ensures WholeRecords(crc, rs, n) >= k <==> n >= |EncodeAll(crc, rs[..k])|
  {
    if k > 0 {
      EncodePrefix(crc, rs, k - 1);
      var size := |Encode(crc, rs[0])|;
      if n >= size {
        WholeRecordsExact(crc, rs[1..], k - 1, n - size);
      }
    }
  }

  /** The first k records survive exactly when their bytes do. */
  lemma SafeBytesExact(crc: Checksum, layout: Layout, k: nat, n: nat)
    requires AllFilesFit(layout) && layout != [] && k <= |Log(layout)|
    ensures Surviving(crc, layout, n) >= k <==> n >= SafeBytes(crc, layout, k)
  {
    var last := |layout| - 1;
    var closed := |Log(layout[..last])|;
    LogLast(layout);
    if k > closed {
      WholeRecordsExact(crc, layout[last], k - closed, n);
    }
  }

  /** Crash consistency. Whatever bytes of the current file are left, as long as they cover the
      records that a sync made safe, recovery succeeds, the records it delivers are a prefix of
      the log, and the prefix includes every safe record. */
  lemma CrashConsistent(crc: Checksum, limit: nat, files: map<nat, Bytes>, image: Bytes, n: nat, layout: Layout,
                        synced: nat, cut: nat)
    requires LaidOutAs(crc, limit, files, image, n, layout) && AllReadable(Log(layout))
    requires synced <= |Log(layout)| && SafeBytes(crc, layout, synced) <= cut <= |image|
    ensures exists k :: synced <= k <= |Log(layout)|
                     && Delivered(crc, files[n := image[..cut]]) == Parsed(Log(layout)[..k], true)
                     && Run(Delivered(crc, files[n := image[..cut]]).records, map[]) == Run(Log(layout)[..k], map[])
  {
    var left := files[n := image[..cut]];
    assert left.Keys == Range(0, n + 1);
    assert HoldsTorn(crc, left, layout, cut);
    DeliverTorn(crc, left, layout, cut);
    SafeBytesExact(crc, layout, synced, cut);
    assert Surviving(crc, layout, cut) >= synced;
  }

  /** A file that grows at its end keeps the bytes that were safe. */
  lemma SafeBytesGrown(crc: Checksum, layout: Layout, r: Record, k: nat)
    requires AllFilesFit(layout) && layout != [] && k <= |Log(layout)| && Fits(r)
    ensures var last := |layout| - 1;
            var grown := layout[last := layout[last] + [r]];
            AllFilesFit(grown) && k <= |Log(grown)| && SafeBytes(crc, grown, k) == SafeBytes(crc, layout, k)
  {
    var last := |layout| - 1;
    var grown := layout[last := layout[last] + [r]];
    LogLast(layout);
    LogLast(grown);
    assert grown[..last] == layout[..last];
    var closed := |Log(layout[..last])|;
    if k > closed {
      TakeLess(layout[last], [r], k - closed);
    }
  }

  /** A crash in the middle of writing a record: with any part of what was written and of the new
      record on disk, recovery delivers a prefix of the log, or the log and the new record. */
  lemma CrashWhileWriting(crc: Checksum, limit: nat, files: map<nat, Bytes>, image: Bytes, n: nat, layout: Layout,
                          r: Record, synced: nat, cut: nat)
    requires LaidOutAs(crc, limit, files, image, n, layout) && AllReadable(Log(layout) + [r]) && Fits(r)
    requires synced <= |Log(layout)| && SafeBytes(crc, layout, synced) <= cut <= |image + Encode(crc, r)|
    ensures exists k :: synced <= k <= |Log(layout)| + 1
                     && Delivered(crc, files[n := (image + Encode(crc, r))[..cut]]) ==
                        Parsed((Log(layout) + [r])[..k], true)
  {
    var more := limit + |image| + |Encode(crc, r)|;
    assert LaidOutAs(crc, more, files, image, n, layout);
    AppendLaidOut(crc, more, files, image, n, layout, r);
    SafeBytesGrown(crc, layout, r, synced);
    CrashConsistent(crc, more, files, image + Encode(crc, r), n, layout[n := layout[n] + [r]], synced, cut);
  }

  /** A crash in the middle of a rotation, before or after the next file was created. */
  lemma CrashWhileRotating(crc: Checksum, limit: nat, files: map<nat, Bytes>, image: Bytes, n: nat, layout: Layout)
    requires LaidOutAs(crc, limit, files, image, n, layout) && AllReadable(Log(layout))
    ensures Delivered(crc, files[n := image]) == Parsed(Log(layout), true)
    ensures Delivered(crc, files[n := image][n + 1 := []]) == Parsed(Log(layout), true)
  {
    var closed := files[n := image];
    assert n in Range(0, n + 1) && n + 1 !in Range(0, n + 1);
    assert closed.Keys == files.Keys;
    assert LaidOutAs(crc, limit, closed, image, n, layout);
    WholeLog(crc, limit, closed, n, layout);
    RotateLaidOut(crc, limit, closed, closed[n + 1 := []], image, n, layout);
    WholeLog(crc, limit, closed[n + 1 := []], n + 1, layout + [[]]);
  }

  lemma WholeLog(crc: Checksum, limit: nat, files: map<nat, Bytes>, n: nat, layout: Layout)
    requires n in files && LaidOutAs(crc, limit, files, files[n], n, layout) && AllReadable(Log(layout))
    ensures Delivered(crc, files) == Parsed(Log(layout), true)
  {
    ClosedHolds(crc, limit, files, n, layout);
    DeliverInverts(crc, files, layout);
    ReadablePrefixAll(Log(layout));
    assert Log(layout)[..|Log(layout)|] == Log(layout);
  }

  /** The layout of what is left, when the cut falls between two records. */
  ghost function Shortened(layout: Layout, k: nat): Layout
    requires layout != [] && k <= |layout[|layout| - 1]|
  {
    layout[|layout| - 1 := layout[|layout| - 1][..k]]
  }

  lemma {:induction false} WholePrefix(crc: Checksum, rs: seq<Record>, k: nat)
    requires AllFit(rs) && k <= |rs|
    ensures |EncodeAll(crc, rs[..k])| <= |EncodeAll(crc, rs)|
    ensures WholeRecords(crc, rs, |EncodeAll(crc, rs[..k])|) == k
  {
    if k > 0 {
      EncodePrefix(crc, rs, k - 1);
      WholePrefix(crc, rs[1..], k - 1);
    }
  }

  lemma ShortenedLog(crc: Checksum, layout: Layout, k: nat)
    requires AllFilesFit(layout) && layout != [] && k <= |layout[|layout| - 1]|
    ensures var left := |EncodeAll(crc, layout[|layout| - 1][..k])|;
            Log(Shortened(layout, k)) == Log(layout)[..Surviving(crc, layout, left)]
  {
    var last := |layout| - 1;
    var cut := Shortened(layout, k);
    WholePrefix(crc, layout[last], k);
    assert cut[..last] == layout[..last];
    LogLast(layout);
    LogLast(cut);
    Take(Log(layout[..last]), layout[last], k);
  }

  lemma ShortenedFits(crc: Checksum, layout: Layout, k: nat, limit: nat)
    requires AllFilesFit(layout) && Bounded(crc, layout, limit) && layout != [] && k <= |layout[|layout| - 1]|
    ensures AllFilesFit(Shortened(layout, k)) && Bounded(crc, Shortened(layout, k), limit)
  {
    var last := |layout| - 1;
    var cut := Shortened(layout, k);
    WholePrefix(crc, layout[last], k);
    assert AllFit(layout[last]);
    assert |EncodeAll(crc, layout[last])| <= limit || |layout[last]| == 1;
    assert k == |layout[last]| ==> cut[last] == layout[last];
    forall i | 0 <= i < |cut| ensures |EncodeAll(crc, cut[i])| <= limit || |cut[i]| == 1 {
      if i != last {
        assert cut[i] == layout[i];
      }
    }
  }

  /** A crash that tears no record leaves a well laid out log of the surviving prefix, so the
      log can be reopened, appended to and recovered again. */
  lemma CleanCut(crc: Checksum, limit: nat, files: map<nat, Bytes>, image: Bytes, n: nat, layout: Layout, k: nat)
    requires LaidOutAs(crc, limit, files, image, n, layout) && k <= |layout[n]|
    requires n in files && files[n] == EncodeAll(crc, layout[n][..k])
    ensures Holds(crc, files, Shortened(layout, k)) && Bounded(crc, Shortened(layout, k), limit)
    ensures Log(Shortened(layout, k)) == Log(layout)[..Surviving(crc, layout, |files[n]|)]
  {
    ShortenedLog(crc, layout, k);
    ShortenedFits(crc, layout, k, limit);
    var cut := Shortened(layout, k);
    forall i | 0 <= i < |cut| ensures i in files && files[i] == EncodeAll(crc, cut[i]) {
      assert i in Range(0, n + 1);
      assert i != n ==> cut[i] == layout[i];
    }
  }

  lemma RangeSize(a: nat, b: nat)
    requires Range(0, a) == Range(0, b)
    ensures a == b
  {
    assert a in Range(0, b) <==> a in Range(0, a);
    assert b in Range(0, a) <==> b in Range(0, b);
  }

  /** The file holds exactly the first k records. */
  ghost predicate EndsAfter(crc: Checksum, file: Bytes, rs: seq<Record>, k: nat)
    requires AllFit(rs)
  {
    k <= |rs| && file == EncodeAll(crc, rs[..k])
  }

  /** What is left is a well laid out log of readable records if and only if no record was torn. */
  lemma WholeExactly(crc: Checksum, limit: nat, files: map<nat, Bytes>, image: Bytes, n: nat, layout: Layout)
    requires LaidOutAs(crc, limit, files, image, n, layout) && AllReadable(Log(layout))
    requires n in files && files[n] <= image
    ensures (exists l :: HoldsLog(crc, files, l, limit) && AllReadable(Log(l))) <==>
            exists k :: EndsAfter(crc, files[n], layout[n], k)
  {
    if l :| HoldsLog(crc, files, l, limit) && AllReadable(Log(l)) {
      WholeFile(crc, limit, files, image, n, layout, l);
    }
    if k :| EndsAfter(crc, files[n], layout[n], k) {
      CleanCut(crc, limit, files, image, n, layout, k);
      ReadableStart(Log(layout), Surviving(crc, layout, |files[n]|));
      assert HoldsLog(crc, files, Shortened(layout, k), limit);
    }
  }

  lemma ReadableStart(log: seq<Record>, k: nat)
    requires AllReadable(log) && k <= |log|
    ensures AllReadable(log[..k])
  {
  }

  lemma WholeFile(crc: Checksum, limit: nat, files: map<nat, Bytes>, image: Bytes, n: nat, layout: Layout, l: Layout)
    requires LaidOutAs(crc, limit, files, image, n, layout) && AllReadable(Log(layout))
    requires n in files && files[n] <= image && Holds(crc, files, l) && AllReadable(Log(l))
    ensures EndsAfter(crc, files[n], layout[n], WholeRecords(crc, layout[n], |files[n]|))
  {
    RangeSize(|l|, n + 1);
    ReadableFile(l, n);
    ReadableFile(layout, n);
    SameBytes(crc, layout[n], l[n], |files[n]|);
    assert files[n] == EncodeAll(crc, layout[n])[..|files[n]|];
  }

  lemma SameBytes(crc: Checksum, rs: seq<Record>, qs: seq<Record>, cut: nat)
    requires AllFit(rs) && AllReadable(rs) && AllFit(qs) && AllReadable(qs) && cut <= |EncodeAll(crc, rs)|
    ensures EncodeAll(crc, rs)[..cut] == EncodeAll(crc, qs) ==> rs[..WholeRecords(crc, rs, cut)] == qs
  {
    ParseReadable(crc, qs);
    ParseTorn(crc, rs, cut);
  }

  /** A record torn anywhere makes the bytes no encoding of readable records. */
  lemma TornIsNotWhole(crc: Checksum, rs: seq<Record>, torn: Record, n: nat, qs: seq<Record>)
    requires AllFit(rs) && AllReadable(rs) && Fits(torn) && Readable(torn) && 0 < n < |Encode(crc, torn)|
    requires AllFit(qs) && AllReadable(qs)
    ensures EncodeAll(crc, rs) + Encode(crc, torn)[..n] != EncodeAll(crc, qs)
  {
    ParseAfter(crc, rs, Encode(crc, torn)[..n]);
    ReadTorn(crc, torn, n);
    ParseReadable(crc, qs);
    assert Ahead(rs, Parsed([], true)) == Parsed(rs, true);
  }

  /** A torn record must not be appended to: the log is reopened without cutting the torn bytes
      off, and here the record written after a single leftover byte is never delivered although
      recovery reports success. */
  lemma TornTailHidesAppends(crc: Checksum, torn: Record, r: Record)
    requires Fits(torn) && Fits(r) && |r.key| == 1 && r.value == [] && r.time < 0x100_0000_0000_0000
    ensures Parse(crc, Encode(crc, torn)[..1] + Encode(crc, r)) == Parsed([], true)
  {
    var b := Encode(crc, torn)[..1] + Encode(crc, r);
    assert DecodeFixed32(b, 17) == 0x100 && DecodeFixed32(b, 21) == 0;
  }

  /** Bytes appended behind a record torn inside its header complete the header. The sizes are read
      from the mixture: if they reach past the end, everything appended is hidden and recovery reports
      success; if they are too large, or the checksum read from the mixture disagrees, the bytes are
      corrupt; otherwise a record is delivered that nobody wrote. */
  lemma TornHeaderTakesAppends(crc: Checksum, rs: seq<Record>, torn: Record, n: nat, more: Bytes)
    requires AllFit(rs) && AllReadable(rs) && Fits(torn) && 0 < n < HEADER_SIZE
    ensures var b, p := Encode(crc, torn)[..n] + more, Parse(crc, EncodeAll(crc, rs) + (Encode(crc, torn)[..n] + more));
            if n + |more| < HEADER_SIZE then p == Parsed(rs, true)
            else
              var keySize, valueSize := DecodeFixed32(b, 17), DecodeFixed32(b, 21);
              if keySize > MAX_FIELD || valueSize > MAX_FIELD then p == Parsed(rs, false)
              else if |b| < HEADER_SIZE + keySize + valueSize then p == Parsed(rs, true)
              else if crc(b[..25] + b[HEADER_SIZE..HEADER_SIZE + keySize + valueSize]) != DecodeFixed32(b, 25) then
                p == Parsed(rs, false)
              else |p.records| > |rs| && p.records[..|rs|] == rs && p.records[|rs|].kind == torn.kind
  {
    var b := Encode(crc, torn)[..n] + more;
    assert b[0] == torn.kind;
    ReadMixture(crc, b);
    Continues(crc, rs, b);
  }

  lemma ReadMixture(crc: Checksum, b: Bytes)
    requires |b| >= 1
    ensures var s := ReadOne(crc, b);
            if |b| < HEADER_SIZE then s == End
            else
              var keySize, valueSize := DecodeFixed32(b, 17), DecodeFixed32(b, 21);
              if keySize > MAX_FIELD || valueSize > MAX_FIELD then s == Bad
              else if |b| < HEADER_SIZE + keySize + valueSize then s == End
              else if crc(b[..25] + b[HEADER_SIZE..HEADER_SIZE + keySize + valueSize]) != DecodeFixed32(b, 25) then
                s == Bad
              else s.Got? && s.r.kind == b[0]
  {
    if |b| >= HEADER_SIZE {
      var keySize, valueSize := DecodeFixed32(b, 17), DecodeFixed32(b, 21);
      if |b| >= HEADER_SIZE + keySize + valueSize {
        var k := HEADER_SIZE + keySize;
        assert b[..25] + b[HEADER_SIZE..k] + b[k..k + valueSize] == b[..25] + b[HEADER_SIZE..k + valueSize];
      }
    }
  }

  /** What the first step behind readable records makes of the whole. */
  lemma Continues(crc: Checksum, rs: seq<Record>, rest: Bytes)
    requires AllFit(rs) && AllReadable(rs)
    ensures var s, p := ReadOne(crc, rest), Parse(crc, EncodeAll(crc, rs) + rest);
            && (s == End ==> p == Parsed(rs, true))
            && (s == Bad ==> p == Parsed(rs, false))
            && (s.Got? ==> |p.records| > |rs| && p.records[..|rs|] == rs && p.records[|rs|] == s.r)
  {
    ParseAfter(crc, rs, rest);
  }

  /** The same for a record torn behind its header. What is appended is taken for the missing part
      of the torn record: if it is shorter than that, all of it is hidden and recovery reports
      success; otherwise the bytes are corrupt unless their checksum happens to agree. */
  lemma TornRecordTakesAppends(crc: Checksum, rs: seq<Record>, torn: Record, n: nat, more: Bytes)
    requires AllFit(rs) && AllReadable(rs) && Fits(torn) && Readable(torn) && HEADER_SIZE <= n < |Encode(crc, torn)|
    ensures var missing, p := |Encode(crc, torn)| - n, Parse(crc, EncodeAll(crc, rs) + (Encode(crc, torn)[..n] + more));
            if |more| < missing then p == Parsed(rs, true)
            else
              var body := Encode(crc, torn)[HEADER_SIZE..n] + more[..missing];
              if crc(HeaderFields(torn) + body) != crc(HeaderFields(torn) + torn.key + torn.value) then
                p == Parsed(rs, false)
              else
                && |p.records| > |rs|
                && p.records[|rs|] == torn.(key := body[..|torn.key|], value := body[|torn.key|..])
  {
    ParseAfter(crc, rs, Encode(crc, torn)[..n] + more);
    TornRead(crc, torn, n, more);
  }

  lemma TornRead(crc: Checksum, torn: Record, n: nat, more: Bytes)
    requires Fits(torn) && Readable(torn) && HEADER_SIZE <= n < |Encode(crc, torn)|
    ensures var missing, s := |Encode(crc, torn)| - n, ReadOne(crc, Encode(crc, torn)[..n] + more);
            if |more| < missing then s == End
            else
              var body := Encode(crc, torn)[HEADER_SIZE..n] + more[..missing];
              if crc(HeaderFields(torn) + body) != crc(HeaderFields(torn) + torn.key + torn.value) then s == Bad
              else s == Got(torn.(key := body[..|torn.key|], value := body[|torn.key|..]), |Encode(crc, torn)|)
  {
    var e := Encode(crc, torn);
    var b := e[..n] + more;
    assert b[..HEADER_SIZE] == Header(crc, torn);
    HeadFields(crc, torn, b);
    if |e| - n <= |more| {
      var body := e[HEADER_SIZE..n] + more[..|e| - n];
      var k := HEADER_SIZE + |torn.key|;
      MixedBody(e, n, more, k);
      assert b[..25] + b[HEADER_SIZE..k] + b[k..|e|] == HeaderFields(torn) + body;
    }
  }

  lemma MixedBody(e: Bytes, n: nat, more: Bytes, k: nat)
    requires HEADER_SIZE <= n < |e| <= n + |more| && HEADER_SIZE <= k <= |e|
    ensures var b, body := e[..n] + more, e[HEADER_SIZE..n] + more[..|e| - n];
            b[HEADER_SIZE..k] == body[..k - HEADER_SIZE] && b[k..|e|] == body[k - HEADER_SIZE..]
            && b[HEADER_SIZE..k] + b[k..|e|] == body
  {
    var b, body := e[..n] + more, e[HEADER_SIZE..n] + more[..|e| - n];
    assert b[HEADER_SIZE..|e|] == body;
    assert b[HEADER_SIZE..k] + b[k..|e|] == b[HEADER_SIZE..|e|];
  }
}
