/** How many entries a tree of a given height holds. */
module TreeHeight {
  import opened TreeShape
  import opened BTree

  ghost function Pow(b: nat, e: nat): (p: nat)
    ensures b > 0 ==> p > 0
  {
    if e == 0 then 1 else b * Pow(b, e - 1)
  }

  lemma {:induction false} PowMonotone(a: nat, b: nat, e: nat)
    requires a <= b
    ensures Pow(a, e) <= Pow(b, e)
  {
    if e > 0 {
      PowMonotone(a, b, e - 1);
      TimesMonotone(a, b, Pow(a, e - 1), Pow(b, e - 1));
    }
  }

  lemma TimesMonotone(a: nat, b: nat, x: nat, y: nat)
    requires a <= b && x <= y
    ensures a * x <= b * y
  {
    assert a * x <= a * y <= b * y;
  }

  /** Siblings that each hold between lo and hi entries. */
  lemma {:induction false} ForestSize(kids: seq<Tree>, lo: nat, hi: nat)
    requires forall i :: 0 <= i < |kids| ==> lo <= |Flat(kids[i])| <= hi
    ensures |kids| * lo <= |FlatAll(kids)| <= |kids| * hi
  {
    if kids != [] {
      ForestSize(kids[1..], lo, hi);
      assert |kids| * lo == lo + |kids[1..]| * lo;
      assert |kids| * hi == hi + |kids[1..]| * hi;
    }
  }

  lemma {:induction false} SubtreeSize(t: Tree, h: nat, mx: nat)
    requires Good(t, h, mx)
    ensures (mx / 2) * Pow(mx / 2 + 1, h) <= |Flat(t)| <= mx * Pow(mx + 1, h)
    decreases h
  {
    if h > 0 {
      ChildrenSize(t, h, mx);
      var m := mx / 2;
      var lo, hi := m * Pow(m + 1, h - 1), mx * Pow(mx + 1, h - 1);
      TimesMonotone(m + 1, |t.kids|, lo, lo);
      TimesMonotone(|t.kids|, mx + 1, hi, hi);
      assert (m + 1) * lo == m * Pow(m + 1, h) by { Swap(m + 1, m, Pow(m + 1, h - 1)); }
      assert (mx + 1) * hi == mx * Pow(mx + 1, h) by { Swap(mx + 1, mx, Pow(mx + 1, h - 1)); }
    }
  }

  lemma Swap(a: nat, b: nat, c: nat)
    ensures a * (b * c) == b * (a * c)
  {
  }

  lemma {:induction false} ChildrenSize(t: Tree, h: nat, mx: nat)
    requires h > 0 && Body(t, h, mx)
    ensures t.Fork?
    ensures |t.kids| * ((mx / 2) * Pow(mx / 2 + 1, h - 1)) <= |Flat(t)| <= |t.kids| * (mx * Pow(mx + 1, h - 1))
    decreases h, 0
  {
    var lo, hi := (mx / 2) * Pow(mx / 2 + 1, h - 1), mx * Pow(mx + 1, h - 1);
    forall i | 0 <= i < |t.kids| ensures lo <= |Flat(t.kids[i])| <= hi {
      SubtreeSize(t.kids[i], h - 1, mx);
    }
    ForestSize(t.kids, lo, hi);
  }

  /** The height is logarithmic in the size: with m = maxKeys / 2, a tree of height H >= 2 holds
      between 2 m (m + 1)^(H - 2) and maxKeys (maxKeys + 1)^(H - 1) entries. */
  lemma HeightBound(tree: BPlusTree)
    requires tree.Valid()
    ensures var m := tree.maxKeys / 2;
            tree.height >= 2 ==> 2 * (m * Pow(m + 1, tree.height - 2)) <= tree.size
    ensures tree.size <= tree.maxKeys * Pow(tree.maxKeys + 1, tree.height - 1)
    ensures tree.height >= 2 ==> Pow(2, tree.height - 1) <= tree.size
  {
    var t, h, mx := tree.shape, tree.height - 1, tree.maxKeys;
    var m := mx / 2;
    if h > 0 {
      ChildrenSize(t, h, mx);
      var lo, hi := m * Pow(m + 1, h - 1), mx * Pow(mx + 1, h - 1);
      TimesMonotone(2, |t.kids|, lo, lo);
      TimesMonotone(|t.kids|, mx + 1, hi, hi);
      assert (mx + 1) * hi == mx * Pow(mx + 1, h) by { Swap(mx + 1, mx, Pow(mx + 1, h - 1)); }
      PowMonotone(2, m + 1, h - 1);
      TimesMonotone(1, m, Pow(2, h - 1), Pow(m + 1, h - 1));
    } else {
      assert Pow(mx + 1, 0) == 1;
    }
  }
}
