/** Sorted runs of entries: the reference meaning of the tree.

    A key order on byte strings turns a finite map into exactly one sorted run.
    `PutRun` and `DelRun` are map update and map removal on runs; `Between` is
    the range query. */
module Entries {
  import opened KvTypes

  datatype Entry = Entry(key: Bytes, value: Bytes)

  type Map = map<Bytes, Bytes>

  ghost predicate Sorted(s: seq<Entry>) {
    forall i, j :: 0 <= i < j < |s| ==> Rank(s[i].key) < Rank(s[j].key)
  }

  ghost predicate Below(s: seq<Entry>, k: Bytes) {
    forall i :: 0 <= i < |s| ==> Rank(s[i].key) < Rank(k)
  }

  ghost predicate Above(s: seq<Entry>, k: Bytes) {
    forall i :: 0 <= i < |s| ==> Rank(k) < Rank(s[i].key)
  }

  ghost predicate HasKey(s: seq<Entry>, k: Bytes) {
    exists i :: 0 <= i < |s| && s[i].key == k
  }

  ghost function PutRun(s: seq<Entry>, k: Bytes, v: Bytes): (r: seq<Entry>)
    ensures r != []
  {
    if s == [] then [Entry(k, v)]
    else if s[0].key == k then [Entry(k, v)] + s[1..]
    else if Rank(k) < Rank(s[0].key) then [Entry(k, v)] + s
    else [s[0]] + PutRun(s[1..], k, v)
  }

  ghost function DelRun(s: seq<Entry>, k: Bytes): seq<Entry> {
    if s == [] then []
    else if s[0].key == k then s[1..]
    else [s[0]] + DelRun(s[1..], k)
  }

  /** The finite map a run stands for. */
  ghost function Contents(s: seq<Entry>): Map {
    if s == [] then map[] else Contents(s[1..])[s[0].key := s[0].value]
  }

  // ---- first entry and rest

  lemma HasKeyTail(s: seq<Entry>, k: Bytes)
    requires s != []
    ensures HasKey(s, k) <==> s[0].key == k || HasKey(s[1..], k)
  {
    if HasKey(s, k) {
      var i :| 0 <= i < |s| && s[i].key == k;
      if i > 0 {
        assert s[1..][i - 1].key == k;
      }
    }
    if HasKey(s[1..], k) {
      var i :| 0 <= i < |s[1..]| && s[1..][i].key == k;
      assert s[i + 1].key == k;
    }
  }

  lemma SortedTail(s: seq<Entry>)
    requires s != [] && Sorted(s)
    ensures Sorted(s[1..]) && Above(s[1..], s[0].key)
    ensures !HasKey(s[1..], s[0].key)
  {
  }

  lemma SortedCons(e: Entry, s: seq<Entry>)
    requires Sorted(s) && Above(s, e.key)
    ensures Sorted([e] + s)
  {
  }

  lemma AboveTail(s: seq<Entry>, k: Bytes)
    requires s != [] && Above(s, k)
    ensures Above(s[1..], k)
  {
  }

  lemma BelowTail(s: seq<Entry>, pos: nat, k: Bytes)
    requires 0 < pos <= |s| && Below(s[..pos], k)
    ensures Below(s[1..][..pos - 1], k)
  {
    assert s[1..][..pos - 1] == s[..pos][1..];
  }

  // ---- how the operations act on a run cut in pieces

  lemma {:induction false} PutAt(s: seq<Entry>, pos: nat, k: Bytes, v: Bytes)
    requires pos <= |s| && Below(s[..pos], k)
    requires pos < |s| ==> Rank(k) <= Rank(s[pos].key)
    ensures pos < |s| && s[pos].key == k ==> PutRun(s, k, v) == s[pos := Entry(k, v)]
    ensures !(pos < |s| && s[pos].key == k) ==> PutRun(s, k, v) == s[..pos] + [Entry(k, v)] + s[pos..]
  {
    if pos == 0 {
      if s != [] {
        CompareIsRank(s[0].key, k);
      }
    } else {
      assert s[..pos][0] == s[0];
      BelowTail(s, pos, k);
      PutAt(s[1..], pos - 1, k, v);
      assert s[..pos] == [s[0]] + s[1..][..pos - 1];
      assert s == [s[0]] + s[1..];
    }
  }

  lemma {:induction false} DelAt(s: seq<Entry>, pos: nat, k: Bytes)
    requires pos <= |s| && Below(s[..pos], k)
    requires pos < |s| && s[pos].key == k
    ensures DelRun(s, k) == s[..pos] + s[pos + 1..]
  {
    if pos > 0 {
      assert s[..pos][0] == s[0];
      BelowTail(s, pos, k);
      DelAt(s[1..], pos - 1, k);
      assert s[..pos] == [s[0]] + s[1..][..pos - 1];
    }
  }

  /** A key that sorts after `a` and before `b` only concerns the middle of a + m + b. */
  lemma PutMiddle(a: seq<Entry>, m: seq<Entry>, b: seq<Entry>, k: Bytes, v: Bytes)
    requires Below(a, k) && Above(b, k)
    ensures PutRun(a + m + b, k, v) == a + PutRun(m, k, v) + b
    ensures HasKey(a + m + b, k) <==> HasKey(m, k)
  {
    HasKeyMiddle(a, m, b, k);
    PutAfter(a, m, k, v);
    PutBefore(a + m, b, k, v);
  }

  lemma DelMiddle(a: seq<Entry>, m: seq<Entry>, b: seq<Entry>, k: Bytes)
    requires Below(a, k) && Above(b, k)
    ensures DelRun(a + m + b, k) == a + DelRun(m, k) + b
    ensures HasKey(a + m + b, k) <==> HasKey(m, k)
  {
    HasKeyMiddle(a, m, b, k);
    DelAfter(a, m, k);
    DelBefore(a + m, b, k);
  }

  lemma HasKeyMiddle(a: seq<Entry>, m: seq<Entry>, b: seq<Entry>, k: Bytes)
    requires Below(a, k) && Above(b, k)
    ensures HasKey(a + m + b, k) <==> HasKey(m, k)
  {
    if HasKey(m, k) {
      var i :| 0 <= i < |m| && m[i].key == k;
      assert (a + m + b)[|a| + i].key == k;
    }
    if HasKey(a + m + b, k) {
      var i :| 0 <= i < |a + m + b| && (a + m + b)[i].key == k;
      if |a| <= i < |a| + |m| {
        assert m[i - |a|].key == k;
      }
    }
  }

  lemma {:induction false} PutAfter(a: seq<Entry>, m: seq<Entry>, k: Bytes, v: Bytes)
    requires Below(a, k)
    ensures PutRun(a + m, k, v) == a + PutRun(m, k, v)
  {
    if a == [] {
      assert a + m == m;
    } else {
      assert (a + m)[1..] == a[1..] + m;
      PutAfter(a[1..], m, k, v);
      assert a + PutRun(m, k, v) == [a[0]] + (a[1..] + PutRun(m, k, v));
    }
  }

  lemma {:induction false} PutBefore(m: seq<Entry>, b: seq<Entry>, k: Bytes, v: Bytes)
    requires Above(b, k)
    ensures PutRun(m + b, k, v) == PutRun(m, k, v) + b
  {
    if m == [] {
      assert m + b == b;
    } else {
      assert (m + b)[1..] == m[1..] + b;
      PutBefore(m[1..], b, k, v);
    }
  }

  lemma {:induction false} DelAfter(a: seq<Entry>, m: seq<Entry>, k: Bytes)
    requires Below(a, k)
    ensures DelRun(a + m, k) == a + DelRun(m, k)
  {
    if a == [] {
      assert a + m == m;
    } else {
      assert (a + m)[1..] == a[1..] + m;
      DelAfter(a[1..], m, k);
      assert a + DelRun(m, k) == [a[0]] + (a[1..] + DelRun(m, k));
    }
  }

  lemma {:induction false} DelAbsent(s: seq<Entry>, k: Bytes)
    requires !HasKey(s, k)
    ensures DelRun(s, k) == s
  {
    if s != [] {
      assert s[0].key != k;
      assert forall i :: 0 <= i < |s[1..]| ==> s[1..][i] == s[i + 1];
      DelAbsent(s[1..], k);
    }
  }

  lemma {:induction false} DelBefore(m: seq<Entry>, b: seq<Entry>, k: Bytes)
    requires Above(b, k)
    ensures DelRun(m + b, k) == DelRun(m, k) + b
  {
    if m == [] {
      assert m + b == b;
      DelAbsent(b, k);
    } else {
      assert (m + b)[1..] == m[1..] + b;
      DelBefore(m[1..], b, k);
    }
  }

  // ---- the operations keep a run sorted

  lemma {:induction false} PutAbove(s: seq<Entry>, k: Bytes, v: Bytes, x: Bytes)
    requires Above(s, x) && Rank(x) < Rank(k)
    ensures Above(PutRun(s, k, v), x)
  {
    if s != [] && s[0].key != k && Rank(s[0].key) <= Rank(k) {
      AboveTail(s, x);
      PutAbove(s[1..], k, v, x);
    }
  }

  lemma {:induction false} DelAbove(s: seq<Entry>, k: Bytes, x: Bytes)
    requires Above(s, x)
    ensures Above(DelRun(s, k), x)
  {
    if s != [] {
      AboveTail(s, x);
      DelAbove(s[1..], k, x);
    }
  }

  lemma {:induction false} PutSorted(s: seq<Entry>, k: Bytes, v: Bytes)
    requires Sorted(s)
    ensures Sorted(PutRun(s, k, v))
    ensures |PutRun(s, k, v)| == |s| + if HasKey(s, k) then 0 else 1
  {
    if s != [] {
      SortedTail(s);
      HasKeyTail(s, k);
      CompareIsRank(s[0].key, k);
      if s[0].key == k {
        SortedCons(Entry(k, v), s[1..]);
      } else if Rank(k) < Rank(s[0].key) {
        SortedCons(Entry(k, v), s);
      } else {
        PutSorted(s[1..], k, v);
        PutAbove(s[1..], k, v, s[0].key);
        SortedCons(s[0], PutRun(s[1..], k, v));
      }
    }
  }

  lemma {:induction false} DelSorted(s: seq<Entry>, k: Bytes)
    requires Sorted(s)
    ensures Sorted(DelRun(s, k))
    ensures |DelRun(s, k)| == |s| - if HasKey(s, k) then 1 else 0
  {
    if s != [] {
      SortedTail(s);
      HasKeyTail(s, k);
      if s[0].key != k {
        DelSorted(s[1..], k);
        DelAbove(s[1..], k, s[0].key);
        SortedCons(s[0], DelRun(s[1..], k));
      }
    }
  }

  // ---- runs and maps

  lemma {:induction false} ContentsKeys(s: seq<Entry>, k: Bytes)
    ensures k in Contents(s) <==> HasKey(s, k)
  {
    if s != [] {
      ContentsKeys(s[1..], k);
      HasKeyTail(s, k);
    }
  }

  /** In a sorted run every entry is what the map holds for its key. */
  lemma {:induction false} ContentsAt(s: seq<Entry>, i: nat)
    requires Sorted(s) && i < |s|
    ensures s[i].key in Contents(s) && Contents(s)[s[i].key] == s[i].value
  {
    if i > 0 {
      assert forall j :: 0 <= j < |s[1..]| ==> s[1..][j] == s[j + 1];
      ContentsAt(s[1..], i - 1);
      assert Rank(s[0].key) < Rank(s[i].key);
    }
  }

  lemma {:induction false} ContentsSize(s: seq<Entry>)
    requires Sorted(s)
    ensures |Contents(s)| == |s|
  {
    if s != [] {
      SortedTail(s);
      ContentsSize(s[1..]);
      ContentsKeys(s[1..], s[0].key);
    }
  }

  /** Putting into a sorted run is map update. */
  lemma {:induction false} PutContents(s: seq<Entry>, k: Bytes, v: Bytes)
    requires Sorted(s)
    ensures Contents(PutRun(s, k, v)) == Contents(s)[k := v]
  {
    if s != [] {
      var r := PutRun(s, k, v);
      SortedTail(s);
      if s[0].key == k {
        assert r[1..] == s[1..];
      } else if Rank(k) < Rank(s[0].key) {
        assert r[1..] == s;
      } else {
        assert r[1..] == PutRun(s[1..], k, v);
        PutContents(s[1..], k, v);
      }
    }
  }

  /** Deleting from a sorted run is map removal. */
  lemma {:induction false} DelContents(s: seq<Entry>, k: Bytes)
    requires Sorted(s)
    ensures Contents(DelRun(s, k)) == Contents(s) - {k}
  {
    if s != [] {
      var r := DelRun(s, k);
      SortedTail(s);
      ContentsKeys(s[1..], s[0].key);
      if s[0].key == k {
        assert Contents(s) - {k} == Contents(s[1..]);
      } else {
        assert r[1..] == DelRun(s[1..], k);
        DelContents(s[1..], k);
      }
    }
  }

  /** The first key of a sorted run is the least key of its map. */
  lemma ContentsLeast(s: seq<Entry>, k: Bytes)
    requires Sorted(s) && k in Contents(s)
    ensures s != [] && Rank(s[0].key) <= Rank(k)
  {
    ContentsKeys(s, k);
    var i :| 0 <= i < |s| && s[i].key == k;
  }

  /** A sorted run is determined by its map. */
  lemma {:induction false} RunUnique(s: seq<Entry>, t: seq<Entry>)
    requires Sorted(s) && Sorted(t) && Contents(s) == Contents(t)
    ensures s == t
  {
    ContentsSize(s);
    ContentsSize(t);
    if s != [] {
      ContentsAt(s, 0);
      ContentsAt(t, 0);
      ContentsLeast(s, t[0].key);
      ContentsLeast(t, s[0].key);
      CompareIsRank(s[0].key, t[0].key);
      DelContents(s, s[0].key);
      DelContents(t, s[0].key);
      SortedTail(s);
      SortedTail(t);
      RunUnique(s[1..], t[1..]);
      assert s == [s[0]] + s[1..] && t == [t[0]] + t[1..];
    }
  }

  // ---- range queries

  ghost predicate Within(k: Bytes, start: Option<Bytes>, limit: Option<Bytes>) {
    && (start.Some? ==> Rank(start.value) <= Rank(k))
    && (limit.Some? ==> Rank(k) < Rank(limit.value))
  }

  /** The entries with start <= key < limit, in order. */
  ghost function Between(s: seq<Entry>, start: Option<Bytes>, limit: Option<Bytes>): seq<Entry> {
    if s == [] then []
    else if Within(s[0].key, start, limit) then [s[0]] + Between(s[1..], start, limit)
    else Between(s[1..], start, limit)
  }

  lemma {:induction false} BetweenAbove(s: seq<Entry>, start: Option<Bytes>, limit: Option<Bytes>, x: Bytes)
    requires Above(s, x)
    ensures Above(Between(s, start, limit), x)
  {
    if s != [] {
      AboveTail(s, x);
      BetweenAbove(s[1..], start, limit, x);
    }
  }

  lemma {:induction false} BetweenSorted(s: seq<Entry>, start: Option<Bytes>, limit: Option<Bytes>)
    requires Sorted(s)
    ensures Sorted(Between(s, start, limit))
  {
    if s != [] {
      SortedTail(s);
      BetweenSorted(s[1..], start, limit);
      BetweenAbove(s[1..], start, limit, s[0].key);
      if Within(s[0].key, start, limit) {
        SortedCons(s[0], Between(s[1..], start, limit));
      }
    }
  }

  lemma {:induction false} BetweenAt(s: seq<Entry>, start: Option<Bytes>, limit: Option<Bytes>, k: Bytes)
    requires Sorted(s)
    ensures var m := Contents(Between(s, start, limit));
            && (k in m <==> k in Contents(s) && Within(k, start, limit))
            && (k in m ==> m[k] == Contents(s)[k])
  {
    if s != [] {
      SortedTail(s);
      BetweenAt(s[1..], start, limit, k);
      ContentsKeys(s[1..], s[0].key);
      if Within(s[0].key, start, limit) {
        assert Between(s, start, limit)[1..] == Between(s[1..], start, limit);
      }
    }
  }

  /** A range query delivers a sorted run holding exactly the map's entries in the range. */
  lemma BetweenMeaning(s: seq<Entry>, start: Option<Bytes>, limit: Option<Bytes>)
    requires Sorted(s)
    ensures Sorted(Between(s, start, limit))
    ensures Contents(Between(s, start, limit)) ==
            map k | k in Contents(s) && Within(k, start, limit) :: Contents(s)[k]
  {
    BetweenSorted(s, start, limit);
    forall k: Bytes
      ensures var m := Contents(Between(s, start, limit));
              && (k in m <==> k in Contents(s) && Within(k, start, limit))
              && (k in m ==> m[k] == Contents(s)[k])
    {
      BetweenAt(s, start, limit, k);
    }
  }

  /** Cutting a run in front of the range loses nothing, and past the limit nothing is left. */
  lemma {:induction false} BetweenCut(a: seq<Entry>, b: seq<Entry>, start: Option<Bytes>, limit: Option<Bytes>)
    ensures Between(a + b, start, limit) == Between(a, start, limit) + Between(b, start, limit)
  {
    if a == [] {
      assert a + b == b;
    } else {
      assert (a + b)[1..] == a[1..] + b;
      BetweenCut(a[1..], b, start, limit);
    }
  }

  lemma {:induction false} BetweenNone(s: seq<Entry>, start: Option<Bytes>, limit: Option<Bytes>)
    requires forall i :: 0 <= i < |s| ==> !Within(s[i].key, start, limit)
    ensures Between(s, start, limit) == []
  {
    if s != [] {
      assert forall i :: 0 <= i < |s[1..]| ==> s[1..][i] == s[i + 1];
      BetweenNone(s[1..], start, limit);
    }
  }

  /** Once the start is passed it no longer restricts anything. */
  lemma {:induction false} BetweenFrom(s: seq<Entry>, start: Option<Bytes>, limit: Option<Bytes>)
    requires start.Some? ==> forall i :: 0 <= i < |s| ==> Rank(start.value) <= Rank(s[i].key)
    ensures Between(s, start, limit) == Between(s, None, limit)
  {
    if s != [] {
      assert forall i :: 0 <= i < |s[1..]| ==> s[1..][i] == s[i + 1];
      BetweenFrom(s[1..], start, limit);
    }
  }
}
