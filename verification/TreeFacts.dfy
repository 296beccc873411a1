/** What the invariant says about every node of a reachable tree. */
module TreeFacts {
  import opened KvTypes
  import opened Entries
  import opened TreeShape
  import opened BTree
  import opened TreeVerify

  /** u is a subtree of t, d levels down. */
  ghost predicate Inside(u: Tree, t: Tree, d: nat)
    decreases t
  {
    if d == 0 then u == t
    else t.Fork? && exists i :: 0 <= i < |t.kids| && Inside(u, t.kids[i], d - 1)
  }

  lemma {:induction false} InsideOk(nodes: seq<Node>, t: Tree, h: nat, mx: nat, u: Tree, d: nat)
    requires Rep(nodes, t) && Body(t, h, mx) && Sorted(Flat(t)) && Inside(u, t, d)
    ensures d <= h && Rep(nodes, u) && Body(u, h - d, mx) && Sorted(Flat(u))
    ensures d > 0 ==> mx / 2 <= Count(u) <= mx
    decreases d
  {
    if d > 0 {
      var i :| 0 <= i < |t.kids| && Inside(u, t.kids[i], d - 1);
      KidSorted(t, i);
      InsideOk(nodes, t.kids[i], h - 1, mx, u, d - 1);
    }
  }

  /** In every node of a reachable tree: all leaves are equally deep, every node but the root holds
      between maxKeys / 2 and maxKeys keys, and the keys in the node are those of the table. */
  lemma Occupancy(tree: BPlusTree, u: Tree, d: nat)
    requires tree.Valid() && Inside(u, tree.shape, d)
    ensures u.id < |tree.nodes| && tree.nodes[u.id] != Free && |tree.nodes[u.id].keys| == Count(u)
    ensures u.Tip? <==> d == tree.height - 1
    ensures d > 0 ==> tree.maxKeys / 2 <= |tree.nodes[u.id].keys|
    ensures |tree.nodes[u.id].keys| <= tree.maxKeys
  {
    InsideOk(tree.nodes, tree.shape, tree.height - 1, tree.maxKeys, u, d);
  }

  /** Key i - 1 of every internal node is the least key below child i, and above all keys below
      child i - 1. */
  lemma SeparatorIsLeast(tree: BPlusTree, u: Tree, d: nat, i: nat)
    requires tree.Valid() && Inside(u, tree.shape, d) && u.Fork? && 0 < i < |u.kids|
    ensures u.id < |tree.nodes| && tree.nodes[u.id].Internal? && i <= |tree.nodes[u.id].keys|
    ensures var sep, below := tree.nodes[u.id].keys[i - 1], Contents(Flat(u.kids[i]));
            sep in below && forall k :: k in below ==> Rank(sep) <= Rank(k)
    ensures forall k :: k in Contents(Flat(u.kids[i - 1])) ==> Rank(k) < Rank(tree.nodes[u.id].keys[i - 1])
  {
    var h: nat, mx := tree.height - 1, tree.maxKeys;
    InsideOk(tree.nodes, tree.shape, h, mx, u, d);
    var sep, right := u.seps[i - 1], Flat(u.kids[i]);
    KidSorted(u, i);
    FirstKeyIsFirst(u.kids[i], h - d - 1, mx);
    ContentsKeys(right, sep);
    forall k | k in Contents(right) ensures Rank(sep) <= Rank(k) {
      ContentsLeast(right, k);
    }
    SeparatorsIncrease(u, h - d, mx);
    assert forall j :: 0 <= j < i - 1 ==> Rank(u.seps[j]) < Rank(sep);
    Descend(u, h - d, mx, i, sep);
    forall k | k in Contents(Flat(u.kids[i - 1])) ensures Rank(k) < Rank(sep) {
      ContentsKeys(Flat(u.kids[i - 1]), k);
      KidBefore(u.kids[..i], i - 1, k);
    }
  }

  lemma KidBefore(kids: seq<Tree>, i: nat, k: Bytes)
    requires i < |kids| && HasKey(Flat(kids[i]), k)
    ensures HasKey(FlatAll(kids), k)
  {
    var a, b := kids[..i], kids[i + 1..];
    assert kids == a + [kids[i]] + b;
    FlatCat(a + [kids[i]], b);
    FlatCat(a, [kids[i]]);
    One(kids[i]);
    var j :| 0 <= j < |Flat(kids[i])| && Flat(kids[i])[j].key == k;
    assert FlatAll(kids)[|FlatAll(kids[..i])| + j].key == k;
  }

  // ---- what the check says about each node

  lemma {:induction false} ChecksInside(t: Tree, isRoot: bool, mx: nat, depth: nat, expected: int, u: Tree, d: nat)
    requires Shaped(t) && LocalOk(t, isRoot, mx) && DepthOk(t, depth, expected) && Inside(u, t, d)
    ensures Shaped(u) && LocalOk(u, isRoot && d == 0, mx) && DepthOk(u, depth + d, expected)
    decreases d
  {
    if d > 0 {
      var i :| 0 <= i < |t.kids| && Inside(u, t.kids[i], d - 1);
      ChecksInside(t.kids[i], false, mx, depth + 1, expected, u, d - 1);
    }
  }

  /** Passing the check means, for each node u that lies d levels below the root: its keys increase, it
      holds at least max / 2 of them unless it is the root, a leaf is as deep as every other, and an
      internal node has one child more than keys and in front of each child that begins with a key
      that key as its separator. */
  lemma PassesEachNode(nodes: seq<Node>, t: Tree, size: nat, mx: nat, u: Tree, d: nat)
    requires Passes(nodes, t, size, mx) && Inside(u, t, d)
    ensures u.id < |nodes| && (nodes[u.id].Leaf? || nodes[u.id].Internal?)
    ensures var n := nodes[u.id];
            && (forall i, j :: 0 <= i < j < |n.keys| ==> Compare(n.keys[i], n.keys[j]) < 0)
            && (d > 0 ==> mx / 2 <= |n.keys|)
            && (u.Tip? ==> n.Leaf? && d == LeftDepth(t, 0))
            && (u.Fork? ==>
                  && n.Internal?
                  && |n.children| == |n.keys| + 1 == |u.kids|
                  && forall i :: 1 <= i < |u.kids| && FirstKey(u.kids[i]) != [] ==>
                            n.keys[i - 1] == FirstKey(u.kids[i]))
  {
    ChecksInside(t, true, mx, 0, LeftDepth(t, 0), u, d);
    InsideRep(nodes, t, u, d);
    var n := nodes[u.id];
    if u.Tip? {
      assert n.keys == KeysOf(u.es);
    }
    forall i, j | 0 <= i < j < |n.keys| ensures Compare(n.keys[i], n.keys[j]) < 0 {
      CompareIsRank(n.keys[i], n.keys[j]);
    }
  }

  lemma {:induction false} InsideRep(nodes: seq<Node>, t: Tree, u: Tree, d: nat)
    requires Rep(nodes, t) && Inside(u, t, d)
    ensures Rep(nodes, u)
    decreases d
  {
    if d > 0 {
      var i :| 0 <= i < |t.kids| && Inside(u, t.kids[i], d - 1);
      assert RepAll(nodes, t.kids);
      InsideRep(nodes, t.kids[i], u, d - 1);
    }
  }

  // ---- node accounting

  lemma {:induction false} FirstLeafInside(t: Tree, h: nat, mx: nat)
    requires Body(t, h, mx)
    ensures FirstLeaf(t) in Ids(t)
    decreases t
  {
    if t.Fork? {
      FirstLeafInside(t.kids[0], h - 1, mx);
      IdsWithin(t.kids, 0);
    }
  }

  /** Everything a node refers to is in the same tree, or comes right after it. */
  ghost predicate RefersWithin(nodes: seq<Node>, x: Id, m: multiset<Id>, after: Id) {
    x < |nodes| &&
    match nodes[x]
    case Free => false
    case Leaf(_, _, next) => next == after || next in m
    case Internal(_, children) => forall i :: 0 <= i < |children| ==> children[i] in m
  }

  lemma {:induction false} References(nodes: seq<Node>, t: Tree, h: nat, mx: nat, after: Id, x: Id)
    requires Rep(nodes, t) && Body(t, h, mx) && Links(t, after) && x in Ids(t)
    ensures RefersWithin(nodes, x, Ids(t), after)
    decreases t
  {
    if t.Fork? {
      if x == t.id {
        NamesChildren(nodes, t, after);
      } else {
        var i := KidOf(t.kids, x);
        var kid, next := t.kids[i], Follow(t.kids, i, after);
        assert Rep(nodes, kid) && Good(kid, h - 1, mx) && Links(kid, next);
        References(nodes, kid, h - 1, mx, next, x);
        RefersUp(nodes, t, i, h, mx, after, x);
      }
    }
  }

  lemma RefersUp(nodes: seq<Node>, t: Tree, i: nat, h: nat, mx: nat, after: Id, x: Id)
    requires t.Fork? && Body(t, h, mx) && i < |t.kids|
    requires RefersWithin(nodes, x, Ids(t.kids[i]), Follow(t.kids, i, after))
    ensures RefersWithin(nodes, x, Ids(t), after)
  {
    FollowInside(t.kids, i, h - 1, mx, after);
    IdsWithin(t.kids, i);
    RefersMore(nodes, x, Ids(t.kids[i]), Follow(t.kids, i, after), Ids(t), after);
  }

  lemma NamesChildren(nodes: seq<Node>, t: Tree, after: Id)
    requires t.Fork? && Rep(nodes, t)
    ensures RefersWithin(nodes, t.id, Ids(t), after)
  {
    forall i | 0 <= i < |t.kids| ensures t.kids[i].id in Ids(t) {
      IdsWithin(t.kids, i);
      assert t.kids[i].id in Ids(t.kids[i]);
    }
  }

  lemma FollowInside(kids: seq<Tree>, i: nat, h: nat, mx: nat, after: Id)
    requires i < |kids| && Forest(kids, h, mx)
    ensures Follow(kids, i, after) == after || Follow(kids, i, after) in IdsAll(kids)
  {
    if i + 1 < |kids| {
      FirstLeafInside(kids[i + 1], h, mx);
      IdsWithin(kids, i + 1);
    }
  }

  lemma RefersMore(nodes: seq<Node>, x: Id, m: multiset<Id>, next: Id, whole: multiset<Id>, after: Id)
    requires RefersWithin(nodes, x, m, next) && m <= whole && (next == after || next in whole)
    ensures RefersWithin(nodes, x, whole, after)
  {
  }

  lemma {:induction false} KidOf(kids: seq<Tree>, x: Id) returns (i: nat)
    requires x in IdsAll(kids)
    ensures i < |kids| && x in Ids(kids[i])
  {
    if x in Ids(kids[0]) {
      i := 0;
    } else {
      i := KidOf(kids[1..], x);
      i := i + 1;
    }
  }

  ghost function InUse(nodes: seq<Node>): set<Id> {
    set x: Id | x < |nodes| && nodes[x] != Free
  }

  lemma {:induction false} OnceSize(m: multiset<Id>, s: set<Id>)
    requires forall x :: m[x] == if x in s then 1 else 0
    ensures |m| == |s|
    decreases |s|
  {
    if s == {} {
      assert m == multiset{};
    } else {
      var x :| x in s;
      OnceSize(m - multiset{x}, s - {x});
      assert m == (m - multiset{x}) + multiset{x};
    }
  }

  /** In every reachable state the nodes of the tree are exactly the slots in use, each reached
      once; the count is their number; the free list holds the other slots, each once; and no
      child or chain link refers to a freed slot. */
  lemma NodeAccounting(tree: BPlusTree)
    requires tree.Valid()
    ensures forall x: Id :: Ids(tree.shape)[x] == if x in InUse(tree.nodes) then 1 else 0
    ensures tree.nodeCount == |InUse(tree.nodes)|
    ensures forall i, j :: 0 <= i < j < |tree.freeList| ==> tree.freeList[i] != tree.freeList[j]
    ensures forall x: Id :: x in tree.freeList <==> 0 < x < tree.nextNodeId && x !in InUse(tree.nodes)
    ensures forall x :: x in InUse(tree.nodes) ==> RefersWithin(tree.nodes, x, multiset(InUse(tree.nodes)), 0)
  {
    var ids, used := Ids(tree.shape), InUse(tree.nodes);
    assert forall x: Id :: Live(tree.nodes, x) == if x in used then 1 else 0;
    OnceSize(ids, used);
    assert ids == multiset(used);
    forall x | x in used ensures RefersWithin(tree.nodes, x, multiset(used), 0) {
      References(tree.nodes, tree.shape, tree.height - 1, tree.maxKeys, 0, x);
    }
    NoDuplicates(tree.freeList);
    forall x: Id ensures x in tree.freeList <==> 0 < x < tree.nextNodeId && x !in used {
      assert x in tree.freeList <==> multiset(tree.freeList)[x] > 0;
    }
  }

  lemma NoDuplicates(s: seq<Id>)
    requires Once(multiset(s))
    ensures forall i, j :: 0 <= i < j < |s| ==> s[i] != s[j]
  {
    forall i, j | 0 <= i < j < |s| ensures s[i] != s[j] {
      assert s == s[..j] + s[j..];
      assert multiset(s)[s[j]] == multiset(s[..j])[s[j]] + multiset(s[j..])[s[j]];
      assert s[j..][0] == s[j] && s[..j][i] == s[i];
    }
  }
}
