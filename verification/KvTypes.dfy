/** Byte strings, the status codes, and the default key order.

    Keys are compared the way `Slice::compare` does: the common prefix first, then
    the lengths.  `Rank` places every byte string on the real line; the lemma
    `CompareIsRank` shows that the three-way comparison is exactly the order of the ranks,
    so the rest of the project states key order as `<` on reals. */
module KvTypes {

  type byte = b: int | 0 <= b < 256
  type Bytes = seq<byte>

  datatype Status =
    | OK
    | NotFound
    | Corruption
    | InvalidArgument
    | IOError
    | InternalError

  datatype Option<+T> = None | Some(value: T)

  function Min(a: nat, b: nat): nat {
    if a < b then a else b
  }

  /** The sign of `memcmp` on bytes i..n of two buffers. */
  function MemCmp(a: Bytes, b: Bytes, i: nat, n: nat): int
    requires i <= n <= |a| && n <= |b|
    decreases n - i
  {
    if i == n then 0
    else if a[i] < b[i] then -1
    else if a[i] > b[i] then 1
    else MemCmp(a, b, i + 1, n)
  }

  function Compare(a: Bytes, b: Bytes): int {
    var r := MemCmp(a, b, 0, Min(|a|, |b|));
    if r == 0 then
      if |a| < |b| then -1 else if |a| > |b| then 1 else 0
    else r
  }

  ghost function RankFrom(k: Bytes, i: nat): (r: real)
    requires i <= |k|
    ensures 0.0 <= r < 1.0
    ensures i < |k| ==> 0.0 < r
    decreases |k| - i
  {
    if i == |k| then 0.0 else (k[i] as real + 1.0 + RankFrom(k, i + 1)) / 257.0
  }

  /** The position of a byte string on the real line. */
  ghost function Rank(k: Bytes): real {
    RankFrom(k, 0)
  }

  lemma {:induction false} MemCmpIsRank(a: Bytes, b: Bytes, i: nat)
    requires i <= Min(|a|, |b|)
    ensures var c := MemCmp(a, b, i, Min(|a|, |b|));
            && (c < 0 || (c == 0 && |a| < |b|) <==> RankFrom(a, i) < RankFrom(b, i))
            && (c > 0 || (c == 0 && |a| > |b|) <==> RankFrom(a, i) > RankFrom(b, i))
            && (c == 0 && |a| == |b| ==> a[i..] == b[i..])
    decreases |a| - i
  {
    if i < Min(|a|, |b|) {
      MemCmpIsRank(a, b, i + 1);
      if a[i] == b[i] {
        assert a[i..] == [a[i]] + a[i + 1..];
        assert b[i..] == [b[i]] + b[i + 1..];
      } else if a[i] < b[i] {
        assert a[i] as real + 1.0 <= b[i] as real;
      } else {
        assert b[i] as real + 1.0 <= a[i] as real;
      }
    }
  }

  /** The three-way comparison is the order of the ranks, and it separates distinct keys. */
  lemma CompareIsRank(a: Bytes, b: Bytes)
    ensures Compare(a, b) < 0 <==> Rank(a) < Rank(b)
    ensures Compare(a, b) > 0 <==> Rank(a) > Rank(b)
    ensures Compare(a, b) == 0 <==> a == b
    ensures Rank(a) == Rank(b) <==> a == b
  {
    MemCmpIsRank(a, b, 0);
    if Compare(a, b) == 0 {
      assert a[0..] == a && b[0..] == b;
    }
  }

  /** `Slice::compare` is a strict total order on byte strings. */
  lemma CompareTotalOrder(a: Bytes, b: Bytes, c: Bytes)
    ensures Compare(a, b) == 0 <==> a == b
    ensures Compare(a, b) < 0 <==> Compare(b, a) > 0
    ensures Compare(a, b) < 0 && Compare(b, c) < 0 ==> Compare(a, c) < 0
    ensures a == [] && b != [] ==> Compare(a, b) < 0
  {
    CompareIsRank(a, b);
    CompareIsRank(b, a);
    CompareIsRank(b, c);
    CompareIsRank(a, c);
  }

  /** The lexicographic order, said outright: a is a proper prefix of b, or smaller in the first
      byte where they differ. */
  ghost predicate Precedes(a: Bytes, b: Bytes) {
    exists i: nat :: DiffersAt(a, b, i) && i < |b| && (i < |a| ==> a[i] < b[i])
  }

  /** i is the length of the longest common prefix. */
  ghost predicate DiffersAt(a: Bytes, b: Bytes, i: nat) {
    && i <= |a| && i <= |b|
    && (forall j :: 0 <= j < i ==> a[j] == b[j])
    && (i < |a| && i < |b| ==> a[i] != b[i])
  }

  lemma {:induction false} MemCmpFirstDifference(a: Bytes, b: Bytes, i: nat) returns (d: nat)
    requires i <= Min(|a|, |b|) && forall j :: 0 <= j < i ==> a[j] == b[j]
    ensures DiffersAt(a, b, d)
    ensures MemCmp(a, b, i, Min(|a|, |b|)) ==
            if d == |a| || d == |b| then 0 else if a[d] < b[d] then -1 else 1
    decreases |a| - i
  {
    if i == Min(|a|, |b|) || a[i] != b[i] {
      d := i;
    } else {
      d := MemCmpFirstDifference(a, b, i + 1);
    }
  }

  lemma CompareLexicographic(a: Bytes, b: Bytes)
    ensures Compare(a, b) < 0 <==> Precedes(a, b)
  {
    var d := MemCmpFirstDifference(a, b, 0);
    assert forall i: nat :: DiffersAt(a, b, i) ==> i == d;
  }

  ghost predicate Increasing(keys: seq<Bytes>) {
    forall i, j :: 0 <= i < j < |keys| ==> Rank(keys[i]) < Rank(keys[j])
  }

  /** The first position whose key is not below `key`. */
  method LowerBound(keys: seq<Bytes>, key: Bytes) returns (lo: nat)
    requires Increasing(keys)
    ensures lo <= |keys|
    ensures forall i :: 0 <= i < lo ==> Rank(keys[i]) < Rank(key)
    ensures forall i :: lo <= i < |keys| ==> Rank(key) <= Rank(keys[i])
  {
    lo := 0;
    var hi := |keys|;
    while lo < hi
      invariant lo <= hi <= |keys|
      invariant forall i :: 0 <= i < lo ==> Rank(keys[i]) < Rank(key)
      invariant forall i :: hi <= i < |keys| ==> Rank(key) <= Rank(keys[i])
    {
      var mid := lo + (hi - lo) / 2;
      CompareIsRank(keys[mid], key);
      if Compare(keys[mid], key) < 0 {
        lo := mid + 1;
      } else {
        hi := mid;
      }
    }
  }

  /** The first position whose key is above `key`: an exact match descends to its right. */
  method UpperBound(keys: seq<Bytes>, key: Bytes) returns (lo: nat)
    requires Increasing(keys)
    ensures lo <= |keys|
    ensures forall i :: 0 <= i < lo ==> Rank(keys[i]) <= Rank(key)
    ensures forall i :: lo <= i < |keys| ==> Rank(key) < Rank(keys[i])
  {
    lo := 0;
    var hi := |keys|;
    while lo < hi
      invariant lo <= hi <= |keys|
      invariant forall i :: 0 <= i < lo ==> Rank(keys[i]) <= Rank(key)
      invariant forall i :: hi <= i < |keys| ==> Rank(key) < Rank(keys[i])
    {
      var mid := lo + (hi - lo) / 2;
      CompareIsRank(keys[mid], key);
      if Compare(keys[mid], key) <= 0 {
        lo := mid + 1;
      } else {
        hi := mid;
      }
    }
  }

  /** A partition point is unique, so the searches return the only right answer. */
  lemma BoundsUnique(keys: seq<Bytes>, key: Bytes, p: nat, q: nat)
    requires Increasing(keys) && p <= |keys| && q <= |keys|
    requires forall i :: 0 <= i < p ==> Rank(keys[i]) < Rank(key)
    requires forall i :: p <= i < |keys| ==> Rank(key) <= Rank(keys[i])
    requires forall i :: 0 <= i < q ==> Rank(keys[i]) <= Rank(key)
    requires forall i :: q <= i < |keys| ==> Rank(key) < Rank(keys[i])
    ensures q == if key in keys then p + 1 else p
    ensures key in keys <==> p < |keys| && keys[p] == key
  {
    if p > 0 {
      assert Rank(keys[p - 1]) < Rank(key);
    }
    if p < q {
      CompareIsRank(keys[p], key);
      assert Rank(keys[q - 1]) <= Rank(key);
    }
    forall i | 0 <= i < |keys| && keys[i] == key ensures i == p < q {
      assert Rank(key) <= Rank(keys[p]);
    }
  }
}
