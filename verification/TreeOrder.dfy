/** When a table that passes the integrity check is in order, exactly. */
module TreeOrder {
  import opened KvTypes
  import opened Entries
  import opened TreeShape
  import opened TreeChain
  import opened BTree
  import opened TreeVerify

  /** At every node, every key below child i is below separator i: what the check never looks at. */
  ghost predicate UnderSeparators(t: Tree) {
    match t
    case Tip(_, _, _) => true
    case Fork(_, seps, kids) =>
      && (forall i :: 0 <= i < |seps| && i < |kids| ==> Below(Flat(kids[i]), seps[i]))
      && (forall i :: 0 <= i < |kids| ==> UnderSeparators(kids[i]))
  }

  /** At every node, no child but the first begins with the empty key: where one does, the check
      skips the separator. */
  ghost predicate FirstsNamed(t: Tree) {
    match t
    case Tip(_, _, _) => true
    case Fork(_, _, kids) =>
      && (forall i :: 1 <= i < |kids| ==> FirstKey(kids[i]) != [])
      && (forall i :: 0 <= i < |kids| ==> FirstsNamed(kids[i]))
  }

  ghost predicate NoEmptyKey(s: seq<Entry>) {
    forall i :: 0 <= i < |s| ==> s[i].key != []
  }

  // ---- pieces of a sibling list

  lemma FlatSplit(kids: seq<Tree>, i: nat)
    requires i < |kids|
    ensures FlatAll(kids) == FlatAll(kids[..i]) + Flat(kids[i]) + FlatAll(kids[i + 1..])
  {
    var a, b := kids[..i + 1], kids[i + 1..];
    assert kids == a + b;
    FlatCat(a, b);
    FlatNext(kids, i);
  }

  lemma FlatNext(kids: seq<Tree>, n: nat)
    requires n < |kids|
    ensures FlatAll(kids[..n + 1]) == FlatAll(kids[..n]) + Flat(kids[n])
  {
    assert kids[..n + 1] == kids[..n] + [kids[n]];
    FlatCat(kids[..n], [kids[n]]);
    One(kids[n]);
  }

  /** A properly filled node begins with its first key. */
  lemma {:induction false} FirstOfLocal(t: Tree, isRoot: bool, mx: nat)
    requires Shaped(t) && LocalOk(t, isRoot, mx) && mx >= 3 && (t.Tip? ==> !isRoot)
    ensures Flat(t) != [] && FirstKey(t) == Flat(t)[0].key
    decreases t
  {
    if t.Fork? {
      FirstOfLocal(t.kids[0], false, mx);
    }
  }

  lemma EmptyIsLeast(k: Bytes)
    ensures Rank([]) <= Rank(k)
  {
    CompareIsRank([], k);
  }

  /** In a sorted list of siblings the first key of the right one is above all of the left one. */
  lemma NeighboursApart(kids: seq<Tree>, i: nat, j: nat)
    requires i + 1 < |kids| && Sorted(FlatAll(kids)) && Flat(kids[i + 1]) != [] && j < |Flat(kids[i])|
    ensures Rank(Flat(kids[i])[j].key) < Rank(Flat(kids[i + 1])[0].key)
  {
    FlatNext(kids, i);
    FlatSplit(kids, i + 1);
    var a, b := |FlatAll(kids[..i])| + j, |FlatAll(kids[..i + 1])|;
    assert FlatAll(kids)[a] == Flat(kids[i])[j];
    assert FlatAll(kids)[b] == Flat(kids[i + 1])[0];
  }

  // ---- sorted entries put every key in its place

  lemma SortedFork(t: Tree, isRoot: bool, mx: nat, i: nat)
    requires t.Fork? && Shaped(t) && LocalOk(t, isRoot, mx) && mx >= 3 && Sorted(Flat(t)) && i < |t.seps|
    ensures FirstKey(t.kids[i + 1]) != [] && Below(Flat(t.kids[i]), t.seps[i])
  {
    FirstOfLocal(t.kids[i], false, mx);
    FirstOfLocal(t.kids[i + 1], false, mx);
    NeighboursApart(t.kids, i, 0);
    EmptyIsLeast(Flat(t.kids[i])[0].key);
    forall j | 0 <= j < |Flat(t.kids[i])| ensures Rank(Flat(t.kids[i])[j].key) < Rank(t.seps[i]) {
      NeighboursApart(t.kids, i, j);
    }
  }

  lemma {:induction false} SortedPlaces(t: Tree, isRoot: bool, mx: nat)
    requires Shaped(t) && LocalOk(t, isRoot, mx) && mx >= 3 && Sorted(Flat(t))
    ensures UnderSeparators(t) && FirstsNamed(t)
    decreases t
  {
    if t.Fork? {
      forall i | 1 <= i < |t.kids| ensures FirstKey(t.kids[i]) != [] {
        SortedFork(t, isRoot, mx, i - 1);
      }
      forall i | 0 <= i < |t.seps| && i < |t.kids| ensures Below(Flat(t.kids[i]), t.seps[i]) {
        SortedFork(t, isRoot, mx, i);
      }
      forall i | 0 <= i < |t.kids| ensures UnderSeparators(t.kids[i]) && FirstsNamed(t.kids[i]) {
        KidSorted(t, i);
        SortedPlaces(t.kids[i], false, mx);
      }
    }
  }

  // ---- keys in their places are sorted

  lemma AppendSorted(a: seq<Entry>, b: seq<Entry>, k: Bytes)
    requires Sorted(a) && Sorted(b) && Below(a, k) && (b != [] ==> Rank(k) <= Rank(b[0].key))
    ensures Sorted(a + b)
  {
  }

  lemma {:induction false} PlacesFork(t: Tree, isRoot: bool, mx: nat, n: nat)
    requires t.Fork? && Shaped(t) && LocalOk(t, isRoot, mx) && mx >= 3 && UnderSeparators(t) && FirstsNamed(t)
    requires n <= |t.kids| && forall i :: 0 <= i < |t.kids| ==> Sorted(Flat(t.kids[i]))
    ensures Sorted(FlatAll(t.kids[..n])) && (0 < n <= |t.seps| ==> Below(FlatAll(t.kids[..n]), t.seps[n - 1]))
    decreases n
  {
    if n > 0 {
      var before, kid := FlatAll(t.kids[..n - 1]), t.kids[n - 1];
      PlacesFork(t, isRoot, mx, n - 1);
      FlatNext(t.kids, n - 1);
      if n == 1 {
        assert t.kids[..0] == [] && before == [];
        assert before + Flat(kid) == Flat(kid);
      } else {
        FirstOfLocal(kid, false, mx);
        assert t.seps[n - 2] == FirstKey(kid);
        AppendSorted(before, Flat(kid), t.seps[n - 2]);
      }
    }
  }

  lemma {:induction false} PlacesSorted(t: Tree, isRoot: bool, mx: nat)
    requires Shaped(t) && LocalOk(t, isRoot, mx) && mx >= 3 && UnderSeparators(t) && FirstsNamed(t)
    ensures Sorted(Flat(t))
    decreases t
  {
    match t
    case Tip(_, es, _) =>
      assert forall i :: 0 <= i < |es| ==> KeysOf(es)[i] == es[i].key;
    case Fork(_, _, kids) =>
      forall i | 0 <= i < |kids| ensures Sorted(Flat(kids[i])) {
        PlacesSorted(kids[i], false, mx);
      }
      PlacesFork(t, isRoot, mx, |kids|);
      assert kids[..|kids|] == kids;
  }

  /** A tree that passes the check's local tests is in order if and only if every key below a child
      is below the next separator and no child but the first begins with the empty key. */
  lemma OrderedExactly(t: Tree, isRoot: bool, mx: nat)
    requires Shaped(t) && LocalOk(t, isRoot, mx) && mx >= 3
    ensures Sorted(Flat(t)) <==> UnderSeparators(t) && FirstsNamed(t)
  {
    if Sorted(Flat(t)) {
      SortedPlaces(t, isRoot, mx);
    }
    if UnderSeparators(t) && FirstsNamed(t) {
      PlacesSorted(t, isRoot, mx);
    }
  }

  lemma {:induction false} NamedFirsts(t: Tree, isRoot: bool, mx: nat)
    requires Shaped(t) && LocalOk(t, isRoot, mx) && mx >= 3 && NoEmptyKey(Flat(t))
    ensures FirstsNamed(t)
    decreases t
  {
    if t.Fork? {
      forall i | 0 <= i < |t.kids| ensures FirstsNamed(t.kids[i]) && FirstKey(t.kids[i]) != [] {
        FlatSplit(t.kids, i);
        var before, all := |FlatAll(t.kids[..i])|, Flat(t);
        assert forall j :: 0 <= j < |Flat(t.kids[i])| ==> all[before + j] == Flat(t.kids[i])[j];
        FirstOfLocal(t.kids[i], false, mx);
        NamedFirsts(t.kids[i], false, mx);
      }
    }
  }

  /** Without empty keys, which a put rejects, the separators alone decide. */
  lemma OrderedWithoutEmptyKey(t: Tree, isRoot: bool, mx: nat)
    requires Shaped(t) && LocalOk(t, isRoot, mx) && mx >= 3 && NoEmptyKey(Flat(t))
    ensures Sorted(Flat(t)) <==> UnderSeparators(t)
  {
    NamedFirsts(t, isRoot, mx);
    OrderedExactly(t, isRoot, mx);
  }

  // ---- reachable trees

  lemma {:induction false} BodyNamed(t: Tree, h: nat, mx: nat)
    requires Body(t, h, mx)
    ensures NoEmptyKey(Flat(t))
    decreases t, 1
  {
    if t.Fork? {
      BodiesNamed(t.kids, h - 1, mx);
    }
  }

  lemma {:induction false} BodiesNamed(kids: seq<Tree>, h: nat, mx: nat)
    requires Forest(kids, h, mx)
    ensures NoEmptyKey(FlatAll(kids))
    decreases kids, 0
  {
    if kids != [] {
      BodyNamed(kids[0], h, mx);
      BodiesNamed(kids[1..], h, mx);
    }
  }

  /** Put and Delete never make a table that passes without being in order. */
  lemma ReachableOrdered(tree: BPlusTree)
    requires tree.Valid()
    ensures Passes(tree.nodes, tree.shape, tree.size, tree.maxKeys) && Sorted(Flat(tree.shape))
    ensures UnderSeparators(tree.shape) && NoEmptyKey(Flat(tree.shape))
  {
    ValidPasses(tree);
    BodyNamed(tree.shape, tree.height - 1, tree.maxKeys);
    OrderedExactly(tree.shape, true, tree.maxKeys);
  }

  // ---- the second hole

  /** Leaf a, then a leaf with the empty key and c, under the separator b. */
  const EMPTY_KEY_TABLE: seq<Node> :=
    [Free, Leaf([[97]], [[]], 2), Leaf([[], [99]], [[], []], 0), Internal([[98]], [1, 2])]

  ghost function EmptyKeyLeft(): Tree {
    Tip(1, [Entry([97], [])], 2)
  }

  ghost function EmptyKeyRight(): Tree {
    Tip(2, [Entry([], []), Entry([99], [])], 0)
  }

  ghost function EmptyKeyTree(): Tree {
    Fork(3, [[98]], [EmptyKeyLeft(), EmptyKeyRight()])
  }

  lemma EmptyKeyLocal()
    ensures LocalOk(EmptyKeyTree(), true, 3) && Shaped(EmptyKeyTree())
    ensures DepthOk(EmptyKeyTree(), 0, LeftDepth(EmptyKeyTree(), 0))
    ensures UnderSeparators(EmptyKeyTree())
  {
    var l, r := EmptyKeyLeft(), EmptyKeyRight();
    GapOrder();
    CompareIsRank([], [99]);
    assert LocalOk(l, false, 3) && LocalOk(r, false, 3);
    assert DepthOk(l, 1, 1) && DepthOk(r, 1, 1);
  }

  /** Here every key is under its separator, and the check passes all the same: it does not compare
      a separator with a child that begins with the empty key. */
  lemma PassesWithEmptyKey()
    ensures Passes(EMPTY_KEY_TABLE, EmptyKeyTree(), 3, 3) && UnderSeparators(EmptyKeyTree())
    ensures !Sorted(Flat(EmptyKeyTree()))
  {
    var l, r, t := EmptyKeyLeft(), EmptyKeyRight(), EmptyKeyTree();
    Two(l, r);
    TwoTips(l, r);
    assert Rep(EMPTY_KEY_TABLE, l) && Rep(EMPTY_KEY_TABLE, r) && Rep(EMPTY_KEY_TABLE, t);
    EmptyKeyLocal();
    var leaves := TipIds(Tips(t));
    assert leaves == [1, 2];
    assert NextOf(EMPTY_KEY_TABLE, leaves[0]) == 2 && NextOf(EMPTY_KEY_TABLE, leaves[1]) == 0;
    assert ChainOk(EMPTY_KEY_TABLE, leaves);
    assert Flat(t)[1].key == [] && Flat(t)[0].key == [97];
    EmptyIsLeast([97]);
  }
}
