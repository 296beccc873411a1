/** The integrity check, what exactly it decides, and what it overlooks. */
module TreeVerify {
  import opened KvTypes
  import opened Entries
  import opened TreeShape
  import opened TreeGraft
  import opened TreeChain
  import opened BTree

  // ---- what the check decides

  /** Every internal node has one child more than it has keys. */
  ghost predicate Shaped(t: Tree) {
    match t
    case Tip(_, _, _) => true
    case Fork(_, seps, kids) => |kids| == |seps| + 1 && forall i :: 0 <= i < |kids| ==> Shaped(kids[i])
  }

  ghost function KeysOf(es: seq<Entry>): (ks: seq<Bytes>)
    ensures |ks| == |es| && forall i :: 0 <= i < |es| ==> ks[i] == es[i].key
  {
    seq(|es|, i requires 0 <= i < |es| => es[i].key)
  }

  /** The checks made at the nodes of t: local key order, occupancy, exact separators. */
  ghost predicate LocalOk(t: Tree, isRoot: bool, mx: nat) {
    match t
    case Tip(_, es, _) => Increasing(KeysOf(es)) && (isRoot || |es| >= mx / 2)
    case Fork(_, seps, kids) =>
      && Increasing(seps)
      && (isRoot || |seps| >= mx / 2)
      && (forall i :: 0 <= i < |kids| ==> LocalOk(kids[i], false, mx))
      && (forall i :: 1 <= i < |kids| && i <= |seps| && FirstKey(kids[i]) != [] ==> seps[i - 1] == FirstKey(kids[i]))
  }

  ghost predicate DepthOk(t: Tree, depth: nat, expected: int) {
    match t
    case Tip(_, _, _) => depth == expected
    case Fork(_, _, kids) => forall i :: 0 <= i < |kids| ==> DepthOk(kids[i], depth + 1, expected)
  }

  ghost function LeftDepth(t: Tree, depth: nat): nat {
    match t
    case Tip(_, _, _) => depth
    case Fork(_, _, kids) => if kids == [] then depth else LeftDepth(kids[0], depth + 1)
  }

  ghost function NextOf(nodes: seq<Node>, id: Id): Id {
    if id < |nodes| && nodes[id].Leaf? then nodes[id].next else 0
  }

  /** Following the chain from the first leaf meets the listed leaves and stops. */
  ghost predicate ChainOk(nodes: seq<Node>, leaves: seq<Id>) {
    |leaves| > 1 ==>
      forall i :: 0 <= i < |leaves| ==>
        NextOf(nodes, leaves[i]) == if i + 1 < |leaves| then leaves[i + 1] else 0
  }

  ghost predicate Passes(nodes: seq<Node>, t: Tree, size: nat, mx: nat) {
    && Rep(nodes, t) && Shaped(t)
    && LocalOk(t, true, mx)
    && DepthOk(t, 0, LeftDepth(t, 0))
    && |Flat(t)| == size
    && ChainOk(nodes, TipIds(Tips(t)))
  }

  /** The tree of nodes that the recursion meets. A slot that is not in use shows as a leaf without
      entries; a node may have too few children. */
  ghost predicate Outline(nodes: seq<Node>, t: Tree) {
    match t
    case Tip(id, es, next) =>
      if Live(nodes, id) == 1 then id > 0 && Stores(nodes[id], es, next) else es == []
    case Fork(id, seps, kids) =>
      && 0 < id < |nodes| && nodes[id].Internal?
      && nodes[id].keys == seps
      && Names(nodes[id].children, kids)
      && |kids| <= |seps| + 1
      && forall i :: 0 <= i < |kids| ==> Outline(nodes, kids[i])
  }

  /** Nothing is missing. */
  ghost predicate Whole(nodes: seq<Node>, t: Tree) {
    Rep(nodes, t) && Shaped(t)
  }

  ghost predicate AllLeaves(nodes: seq<Node>, ids: seq<Id>) {
    forall i :: 0 <= i < |ids| ==> 0 < ids[i] < |nodes| && nodes[ids[i]].Leaf?
  }

  // ---- the check itself

  datatype Tally = Tally(leaves: seq<Id>, counted: nat, leafDepth: int, ok: bool)

  /** What the recursion over the nodes has found so far. */
  class Audit {
    var leaves: seq<Id>
    var counted: nat
    var leafDepth: int
    var ok: bool

    constructor ()
      ensures leaves == [] && counted == 0 && leafDepth == -1 && ok
    {
      leaves, counted, leafDepth, ok := [], 0, -1, true;
    }

    ghost function Found(): Tally
      reads this
    {
      Tally(leaves, counted, leafDepth, ok)
    }
  }

  method KeysStrictlyIncreasing(keys: seq<Bytes>) returns (r: bool)
    ensures r <==> Increasing(keys)
  {
    var i := 1;
    while i < |keys|
      invariant 1 <= i
      invariant i <= |keys| ==> Increasing(keys[..i])
      invariant |keys| == 0 || i <= |keys|
    {
      CompareIsRank(keys[i - 1], keys[i]);
      if Compare(keys[i - 1], keys[i]) >= 0 {
        return false;
      }
      IncreasingSnoc(keys[..i], keys[i]);
      assert keys[..i + 1] == keys[..i] + [keys[i]];
      i := i + 1;
    }
    if |keys| > 0 {
      assert keys[..i] == keys;
    }
    return true;
  }

  lemma IncreasingSnoc(keys: seq<Bytes>, k: Bytes)
    requires keys != [] && Increasing(keys) && Rank(keys[|keys| - 1]) < Rank(k)
    ensures Increasing(keys + [k])
  {
  }

  lemma TipIdsCat(a: seq<Tree>, b: seq<Tree>)
    ensures TipIds(a + b) == TipIds(a) + TipIds(b)
  {
  }

  lemma FirstKids(kids: seq<Tree>, i: nat)
    requires i < |kids|
    ensures TipIds(TipsAll(kids[..i + 1])) == TipIds(TipsAll(kids[..i])) + TipIds(Tips(kids[i]))
    ensures |FlatAll(kids[..i + 1])| == |FlatAll(kids[..i])| + |Flat(kids[i])|
  {
    assert kids[..i + 1] == kids[..i] + [kids[i]];
    FlatCat(kids[..i], [kids[i]]);
    TipsCat(kids[..i], [kids[i]]);
    One(kids[i]);
    TipIdsCat(TipsAll(kids[..i]), Tips(kids[i]));
  }

  /** What the recursion below one node adds to the findings. */
  ghost predicate Adds(nodes: seq<Node>, t: Tree, depth: nat, isRoot: bool, mx: nat, f0: Tally, f1: Tally) {
    && AllLeaves(nodes, f1.leaves)
    && (Whole(nodes, t) ==>
          && f1.leaves == f0.leaves + TipIds(Tips(t)) && f1.counted == f0.counted + |Flat(t)|
          && f1.leafDepth == if f0.leafDepth >= 0 then f0.leafDepth else LeftDepth(t, depth))
    && (f1.ok <==> f0.ok && Whole(nodes, t) && LocalOk(t, isRoot, mx) && DepthOk(t, depth, f1.leafDepth))
  }

  /** What the recursion below the first n children adds. */
  ghost predicate AddsKids(nodes: seq<Node>, kids: seq<Tree>, n: nat, depth: nat, mx: nat, f0: Tally, f1: Tally)
    requires n <= |kids|
  {
    && AllLeaves(nodes, f1.leaves)
    && (KidsWhole(nodes, kids, n) ==>
          && f1.leaves == f0.leaves + TipIds(TipsAll(kids[..n])) && f1.counted == f0.counted + |FlatAll(kids[..n])|
          && f1.leafDepth == if n == 0 || f0.leafDepth >= 0 then f0.leafDepth else LeftDepth(kids[0], depth))
    && (f1.ok <==> f0.ok && KidsWhole(nodes, kids, n) && KidsOk(kids, n, mx, depth, f1.leafDepth))
  }

  ghost predicate KidsWhole(nodes: seq<Node>, kids: seq<Tree>, n: nat)
    requires n <= |kids|
  {
    forall i :: 0 <= i < n ==> Whole(nodes, kids[i])
  }

  ghost predicate KidsOk(kids: seq<Tree>, n: nat, mx: nat, depth: nat, expected: int)
    requires n <= |kids|
  {
    forall i :: 0 <= i < n ==> LocalOk(kids[i], false, mx) && DepthOk(kids[i], depth, expected)
  }

  lemma AddsNoKids(nodes: seq<Node>, kids: seq<Tree>, depth: nat, mx: nat, f: Tally)
    requires AllLeaves(nodes, f.leaves)
    ensures AddsKids(nodes, kids, 0, depth, mx, f, f)
  {
    assert kids[..0] == [] && TipIds([]) == [];
  }

  lemma AddsKid(nodes: seq<Node>, kids: seq<Tree>, n: nat, depth: nat, mx: nat, f0: Tally, f1: Tally, f2: Tally)
    requires n < |kids| && AddsKids(nodes, kids, n, depth, mx, f0, f1) && f0.leafDepth >= -1
    requires Adds(nodes, kids[n], depth, false, mx, f1, f2)
    ensures AddsKids(nodes, kids, n + 1, depth, mx, f0, f2)
  {
    FirstKids(kids, n);
  }

  /** The node's own checks and those below it. */
  lemma AddsFork(nodes: seq<Node>, t: Tree, depth: nat, isRoot: bool, mx: nat, f0: Tally, f1: Tally, f2: Tally)
    requires t.Fork? && Outline(nodes, t)
    requires AddsKids(nodes, t.kids, |t.kids|, depth + 1, mx, f0.(ok := f0.ok && NodeOk(t, isRoot, mx)), f1)
    requires f2 == f1.(ok := f1.ok && FirstsOk(t))
    ensures Adds(nodes, t, depth, isRoot, mx, f0, f2)
  {
    assert t.kids[..|t.kids|] == t.kids;
    WholeFork(nodes, t);
    if |t.kids| == |t.seps| + 1 {
      LocalFork(t, depth, isRoot, mx, f2.leafDepth);
    }
  }

  lemma WholeFork(nodes: seq<Node>, t: Tree)
    requires t.Fork? && Outline(nodes, t)
    ensures Whole(nodes, t) <==> |t.kids| == |t.seps| + 1 && KidsWhole(nodes, t.kids, |t.kids|)
  {
    if Whole(nodes, t) {
      assert RepAll(nodes, t.kids);
    } else if |t.kids| == |t.seps| + 1 && KidsWhole(nodes, t.kids, |t.kids|) {
      assert RepAll(nodes, t.kids);
    }
  }

  lemma LocalFork(t: Tree, depth: nat, isRoot: bool, mx: nat, expected: int)
    requires t.Fork? && |t.kids| == |t.seps| + 1
    ensures LocalOk(t, isRoot, mx) && DepthOk(t, depth, expected) <==>
            NodeOk(t, isRoot, mx) && FirstsOk(t) && KidsOk(t.kids, |t.kids|, mx, depth + 1, expected)
  {
  }

  ghost predicate NodeOk(t: Tree, isRoot: bool, mx: nat)
    requires t.Fork?
  {
    |t.kids| == |t.seps| + 1 && (isRoot || |t.seps| >= mx / 2) && Increasing(t.seps)
  }

  ghost predicate FirstsOk(t: Tree)
    requires t.Fork?
  {
    forall i :: 1 <= i < |t.kids| && i <= |t.seps| && FirstKey(t.kids[i]) != [] ==> t.seps[i - 1] == FirstKey(t.kids[i])
  }

  method VerifyNode(tree: BPlusTree, a: Audit, id: Id, depth: nat, isRoot: bool, ghost t: Tree) returns (first: Bytes)
    requires tree.Pool() && Outline(tree.nodes, t) && t.id == id
    requires AllLeaves(tree.nodes, a.leaves) && a.leafDepth >= -1
    modifies a
    ensures first == FirstKey(t) && a.leafDepth >= -1
    ensures Adds(tree.nodes, t, depth, isRoot, tree.maxKeys, old(a.Found()), a.Found())
    decreases t, 1
  {
    var node := tree.GetNode(id);
    if node == Free {
      a.ok := false;
      return [];
    }
    if node.Leaf? {
      first := VerifyLeaf(tree, a, id, node, depth, isRoot, t);
    } else {
      first := VerifyInternal(tree, a, node, depth, isRoot, t);
    }
  }

  method VerifyLeaf(tree: BPlusTree, a: Audit, id: Id, node: Node, depth: nat, isRoot: bool, ghost t: Tree)
      returns (first: Bytes)
    requires tree.Pool() && t.Tip? && Rep(tree.nodes, t) && t.id == id && node == tree.nodes[id]
    requires AllLeaves(tree.nodes, a.leaves) && a.leafDepth >= -1
    modifies a
    ensures first == FirstKey(t) && a.leafDepth >= -1
    ensures Adds(tree.nodes, t, depth, isRoot, tree.maxKeys, old(a.Found()), a.Found())
  {
    assert node.keys == KeysOf(t.es);
    var increasing := KeysStrictlyIncreasing(node.keys);
    if !increasing {
      a.ok := false;
    }
    if !isRoot && |node.keys| < tree.maxKeys / 2 {
      a.ok := false;
    }
    if a.leafDepth < 0 {
      a.leafDepth := depth;
    } else if a.leafDepth != depth {
      a.ok := false;
    }
    a.counted := a.counted + |node.keys|;
    a.leaves := a.leaves + [id];
    assert TipIds(Tips(t)) == [id];
    return if node.keys == [] then [] else node.keys[0];
  }

  method VerifyInternal(tree: BPlusTree, a: Audit, node: Node, depth: nat, isRoot: bool, ghost t: Tree)
      returns (first: Bytes)
    requires tree.Pool() && t.Fork? && Outline(tree.nodes, t) && node == tree.nodes[t.id]
    requires AllLeaves(tree.nodes, a.leaves) && a.leafDepth >= -1
    modifies a
    ensures first == FirstKey(t) && a.leafDepth >= -1
    ensures Adds(tree.nodes, t, depth, isRoot, tree.maxKeys, old(a.Found()), a.Found())
    decreases t, 0
  {
    ghost var f0 := a.Found();
    if |node.children| != |node.keys| + 1 || node.children == [] {
      a.ok := false;
    }
    if !isRoot && |node.keys| < tree.maxKeys / 2 {
      a.ok := false;
    }
    var increasing := KeysStrictlyIncreasing(node.keys);
    if !increasing {
      a.ok := false;
    }
    assert a.Found() == f0.(ok := f0.ok && NodeOk(t, isRoot, tree.maxKeys));
    var firsts := VerifyChildren(tree, a, node.children, depth + 1, t.kids);
    ghost var f1 := a.Found();
    CompareSeparators(a, node.keys, firsts);
    AddsFork(tree.nodes, t, depth, isRoot, tree.maxKeys, f0, f1, a.Found());
    return if firsts == [] then [] else firsts[0];
  }

  method VerifyChildren(tree: BPlusTree, a: Audit, children: seq<Id>, depth: nat, ghost kids: seq<Tree>)
    returns (firsts: seq<Bytes>)
    requires tree.Pool() && Names(children, kids)
    requires forall i :: 0 <= i < |kids| ==> Outline(tree.nodes, kids[i])
    requires AllLeaves(tree.nodes, a.leaves) && a.leafDepth >= -1
    modifies a
    ensures |firsts| == |kids| && forall i :: 0 <= i < |kids| ==> firsts[i] == FirstKey(kids[i])
    ensures a.leafDepth >= -1 && AddsKids(tree.nodes, kids, |kids|, depth, tree.maxKeys, old(a.Found()), a.Found())
    decreases kids, 0
  {
    firsts := [];
    var i := 0;
    ghost var f0 := a.Found();
    AddsNoKids(tree.nodes, kids, depth, tree.maxKeys, f0);
    while i < |children|
      invariant 0 <= i <= |kids| && |firsts| == i && forall j :: 0 <= j < i ==> firsts[j] == FirstKey(kids[j])
      invariant a.leafDepth >= -1 && AddsKids(tree.nodes, kids, i, depth, tree.maxKeys, f0, a.Found())
    {
      ghost var f1 := a.Found();
      var first := VerifyNode(tree, a, children[i], depth, false, kids[i]);
      AddsKid(tree.nodes, kids, i, depth, tree.maxKeys, f0, f1, a.Found());
      firsts := firsts + [first];
      i := i + 1;
    }
  }

  method CompareSeparators(a: Audit, keys: seq<Bytes>, firsts: seq<Bytes>)
    requires |firsts| <= |keys| + 1
    modifies a
    ensures a.leaves == old(a.leaves) && a.counted == old(a.counted) && a.leafDepth == old(a.leafDepth)
    ensures a.ok <==> old(a.ok) && forall i :: 1 <= i < |firsts| && firsts[i] != [] ==> keys[i - 1] == firsts[i]
  {
    var i := 1;
    while i < |firsts|
      invariant 1 <= i && (i <= |firsts| || i == 1)
      invariant a.leaves == old(a.leaves) && a.counted == old(a.counted) && a.leafDepth == old(a.leafDepth)
      invariant a.ok <==> old(a.ok) && forall j :: 1 <= j < i && firsts[j] != [] ==> keys[j - 1] == firsts[j]
    {
      CompareIsRank(keys[i - 1], firsts[i]);
      if firsts[i] != [] && Compare(keys[i - 1], firsts[i]) != 0 {
        a.ok := false;
      }
      i := i + 1;
    }
  }

  /** Follow the chain beside the list of leaves found by the recursion. */
  method VerifyChain(tree: BPlusTree, leaves: seq<Id>) returns (ok: bool)
    requires tree.Pool() && |leaves| > 1
    requires AllLeaves(tree.nodes, leaves)
    ensures ok <==> ChainOk(tree.nodes, leaves)
  {
    ok := true;
    var id := leaves[0];
    var visited := 0;
    while id != 0 && visited <= |leaves|
      invariant 0 <= visited <= |leaves|
      invariant ok && (visited < |leaves| && id != leaves[visited] ==> visited > 0)
      invariant visited > 0 ==> id == NextOf(tree.nodes, leaves[visited - 1])
      invariant forall i :: 0 <= i < visited - 1 ==> NextOf(tree.nodes, leaves[i]) == leaves[i + 1]
      decreases |leaves| + 1 - visited
    {
      var leaf := tree.GetNode(id);
      if leaf == Free {
        ChainBroken(tree.nodes, leaves, visited, id);
        return false;
      }
      if visited >= |leaves| || leaves[visited] != id {
        ChainBroken(tree.nodes, leaves, visited, id);
        return false;
      }
      id := leaf.next;
      visited := visited + 1;
    }
    if visited != |leaves| || id != 0 {
      ChainBroken(tree.nodes, leaves, visited, id);
      ok := false;
    }
  }

  lemma ChainBroken(nodes: seq<Node>, leaves: seq<Id>, v: nat, id: Id)
    requires |leaves| > 1 && 0 < v <= |leaves| && id == NextOf(nodes, leaves[v - 1])
    requires id != if v < |leaves| then leaves[v] else 0
    ensures !ChainOk(nodes, leaves)
  {
  }

  /** The whole check, decided exactly: true if and only if no node is missing, every internal node
      has one child more than keys, and the listed conditions hold. */
  method VerifyTable(tree: BPlusTree, ghost t: Tree) returns (ok: bool)
    requires tree.Pool() && Outline(tree.nodes, t) && t.id == tree.rootId
    ensures ok <==> Passes(tree.nodes, t, tree.size, tree.maxKeys)
  {
    if tree.rootId == 0 || tree.GetNode(tree.rootId) == Free {
      return false;
    }
    var a := new Audit();
    var first := VerifyNode(tree, a, tree.rootId, 0, true, t);
    ok := a.ok;
    if a.counted != tree.size {
      ok := false;
    }
    if |a.leaves| > 1 {
      var chained := VerifyChain(tree, a.leaves);
      ok := ok && chained;
    }
    if Whole(tree.nodes, t) {
      assert a.leaves == TipIds(Tips(t));
    }
  }

  lemma {:induction false} RepOutline(nodes: seq<Node>, t: Tree)
    requires Rep(nodes, t) && Shaped(t)
    ensures Outline(nodes, t)
    decreases t
  {
    if t.Fork? {
      forall i | 0 <= i < |t.kids| ensures Outline(nodes, t.kids[i]) {
        RepOutline(nodes, t.kids[i]);
      }
    }
  }

  // ---- every reachable tree passes

  lemma {:induction false} BodyShaped(t: Tree, h: nat, mx: nat)
    requires Body(t, h, mx)
    ensures Shaped(t)
    decreases t
  {
    if t.Fork? {
      forall i | 0 <= i < |t.kids| ensures Shaped(t.kids[i]) {
        assert Good(t.kids[i], h - 1, mx);
        BodyShaped(t.kids[i], h - 1, mx);
      }
    }
  }

  lemma {:induction false} BodyDepth(t: Tree, h: nat, mx: nat, depth: nat)
    requires Body(t, h, mx)
    ensures DepthOk(t, depth, depth + h) && LeftDepth(t, depth) == depth + h
    decreases t
  {
    if t.Fork? {
      forall i | 0 <= i < |t.kids|
        ensures DepthOk(t.kids[i], depth + 1, depth + h) && LeftDepth(t.kids[i], depth + 1) == depth + h
      {
        assert Good(t.kids[i], h - 1, mx);
        BodyDepth(t.kids[i], h - 1, mx, depth + 1);
      }
    }
  }

  lemma {:induction false} BodyLocal(t: Tree, h: nat, mx: nat, isRoot: bool)
    requires Body(t, h, mx) && mx >= 3 && Sorted(Flat(t)) && (isRoot || mx / 2 <= Count(t))
    ensures LocalOk(t, isRoot, mx)
    decreases t
  {
    if t.Fork? {
      SeparatorsIncrease(t, h, mx);
      forall i | 0 <= i < |t.kids| ensures LocalOk(t.kids[i], false, mx) {
        assert Good(t.kids[i], h - 1, mx);
        KidSorted(t, i);
        BodyLocal(t.kids[i], h - 1, mx, false);
      }
    }
  }

  lemma KidSorted(t: Tree, i: nat)
    requires t.Fork? && i < |t.kids| && Sorted(Flat(t))
    ensures Sorted(Flat(t.kids[i]))
  {
    GraftPieces(t.kids, i, [], 0);
    SortedMiddle(FlatAll(t.kids[..i]), Flat(t.kids[i]), FlatAll(t.kids[i + 1..]));
  }

  lemma SubChain(nodes: seq<Node>, t: Tree, h: nat, mx: nat)
    requires Sub(nodes, t, h, mx, 0)
    ensures ChainOk(nodes, TipIds(Tips(t)))
  {
    var tips := Tips(t);
    TipsFlat(t);
    TipsRep(nodes, t);
    TipsChained(t, h, mx, 0);
    var leaves := TipIds(tips);
    forall i | 0 <= i < |leaves|
      ensures NextOf(nodes, leaves[i]) == if i + 1 < |leaves| then leaves[i + 1] else 0
    {
      assert Rep(nodes, tips[i]);
      assert tips[i].next == Start(tips[i + 1..], 0);
    }
    assert ChainOk(nodes, leaves);
  }

  /** In every reachable state the check returns true. */
  method Verify(tree: BPlusTree) returns (ok: bool)
    requires tree.Valid()
    ensures ok
  {
    ghost var t, mx := tree.shape, tree.maxKeys;
    ghost var h: nat := tree.height - 1;
    BodyShaped(t, h, mx);
    RepOutline(tree.nodes, t);
    ok := VerifyTable(tree, t);
    ValidPasses(tree);
  }

  lemma ValidPasses(tree: BPlusTree)
    requires tree.Valid()
    ensures Passes(tree.nodes, tree.shape, tree.size, tree.maxKeys)
  {
    var t, h, mx := tree.shape, tree.height - 1, tree.maxKeys;
    BodyShaped(t, h, mx);
    BodyDepth(t, h, mx, 0);
    BodyLocal(t, h, mx, true);
    SubChain(tree.nodes, t, h, mx);
  }

  // ---- what the check overlooks

  /** Leaves a, c and b, d under the separator b. */
  const GAP_TABLE: seq<Node> :=
    [Free, Leaf([[97], [99]], [[], []], 2), Leaf([[98], [100]], [[], []], 0), Internal([[98]], [1, 2])]

  ghost function GapLeft(): Tree {
    Tip(1, [Entry([97], []), Entry([99], [])], 2)
  }

  ghost function GapRight(): Tree {
    Tip(2, [Entry([98], []), Entry([100], [])], 0)
  }

  ghost function GapTree(): Tree {
    Fork(3, [[98]], [GapLeft(), GapRight()])
  }

  lemma GapOrder()
    ensures Rank([97]) < Rank([98]) < Rank([99]) < Rank([100])
  {
    CompareIsRank([97], [98]);
    CompareIsRank([98], [99]);
    CompareIsRank([99], [100]);
    assert MemCmp([97], [98], 0, 1) == -1 && MemCmp([98], [99], 0, 1) == -1 && MemCmp([99], [100], 0, 1) == -1;
  }

  lemma GapLocal()
    ensures LocalOk(GapTree(), true, 3) && Shaped(GapTree())
    ensures DepthOk(GapTree(), 0, LeftDepth(GapTree(), 0))
  {
    var l, r := GapLeft(), GapRight();
    GapOrder();
    assert LocalOk(l, false, 3) && LocalOk(r, false, 3);
    assert DepthOk(l, 1, 1) && DepthOk(r, 1, 1);
  }

  lemma GapPasses()
    ensures Passes(GAP_TABLE, GapTree(), 4, 3)
  {
    var l, r, t := GapLeft(), GapRight(), GapTree();
    Two(l, r);
    TwoTips(l, r);
    assert Rep(GAP_TABLE, l) && Rep(GAP_TABLE, r) && Rep(GAP_TABLE, t);
    GapLocal();
    var leaves := TipIds(Tips(t));
    assert leaves == [1, 2];
    assert NextOf(GAP_TABLE, leaves[0]) == 2 && NextOf(GAP_TABLE, leaves[1]) == 0;
    assert ChainOk(GAP_TABLE, leaves);
  }

  /** The check never compares the last key of a child with the next separator: this table passes
      although its entries are out of order, and the stored key c, which a search looks for to the
      right of the separator b, is not there. */
  lemma PassesOutOfOrder()
    ensures Passes(GAP_TABLE, GapTree(), 4, 3)
    ensures !Sorted(Flat(GapTree()))
    ensures [99] in Contents(Flat(GapTree())) && [99] !in Contents(Flat(GapRight()))
    ensures Rank(GapTree().seps[0]) < Rank([99])
  {
    GapPasses();
    GapOrder();
    Two(GapLeft(), GapRight());
    var f := Flat(GapTree());
    assert f[1].key == [99] && f[2].key == [98];
    ContentsKeys(f, [99]);
    ContentsKeys(GapRight().es, [99]);
  }

  lemma TwoTips(l: Tree, r: Tree)
    requires l.Tip? && r.Tip?
    ensures TipsAll([l, r]) == [l, r]
  {
    assert [l, r] == [l] + [r];
    TipsCat([l], [r]);
    One(l);
    One(r);
  }
}
