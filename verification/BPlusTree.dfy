/** The B+ tree: a table of nodes changed in place, with a ghost tree beside it. */
module BTree {
  import opened KvTypes
  import opened Entries
  import opened TreeShape
  import opened TreeChain
  import opened TreeGraft
  import opened TreeRepair

  /** What an insertion reports to the parent when the child had to be split. */
  datatype SplitResult = SplitResult(split: bool, separator: Bytes, right: Id)

  /** Slot 0 is never used; the free list holds each freed slot once. */
  ghost predicate PoolOk(nodes: seq<Node>, nodeFree: seq<bool>, freeList: seq<Id>, nextNodeId: Id) {
    && |nodes| == |nodeFree| == nextNodeId
    && nextNodeId >= 1 && nodes[0] == Free
    && (forall x :: 0 <= x < |nodes| ==> (nodeFree[x] <==> nodes[x] == Free))
    && (forall x: Id :: multiset(freeList)[x] == if 0 < x < |nodes| && nodes[x] == Free then 1 else 0)
  }

  /** id was free before and is the only node in use that was not in use before. */
  ghost predicate Fresh(n0: seq<Node>, n1: seq<Node>, id: Id) {
    && id > 0 && Live(n0, id) == 0 && Live(n1, id) == 1
    && |n0| <= |n1|
    && (forall x: Id :: x != id ==> Live(n1, x) == Live(n0, x))
    && (forall x :: 0 <= x < |n0| && x != id ==> n1[x] == n0[x])
  }

  /** Rewriting one leaf. */
  lemma TipWritten(n0: seq<Node>, t: Tree, leaf: Node, es: seq<Entry>)
    requires t.Tip? && Rep(n0, t) && Stores(leaf, es, t.next)
    ensures var n1, t1 := n0[t.id := leaf], t.(es := es);
            && RepAll(n1, [t1])
            && FlatAll([t1]) == es
            && Linked([t1], t.next)
            && IdsAll([t1]) == Ids(t)
            && Frame(n0, n1, Ids(t)) && Books(n0, n1, Ids(t), Ids(t))
  {
    One(t.(es := es));
  }

  /** The table after a leaf moved its upper part to a fresh node. */
  lemma TipSplit(n0: seq<Node>, n1: seq<Node>, t: Tree, mid: nat, rid: Id, left: Node, right: Node)
    requires t.Tip? && Rep(n0, t) && Fresh(n0, n1, rid) && mid <= |t.es|
    requires Stores(left, t.es[..mid], rid) && Stores(right, t.es[mid..], t.next)
    ensures var n2 := n1[rid := right][t.id := left];
            && RepAll(n2, [Tip(t.id, t.es[..mid], rid), Tip(rid, t.es[mid..], t.next)])
            && Frame(n0, n2, Ids(t)) && Books(n0, n2, Ids(t), Ids(t) + multiset{rid})
  {
    assert t.id != rid;
  }

  /** The leaf with its value at pos replaced, or with a new entry at pos. */
  function PutInNode(n: Node, pos: nat, k: Bytes, v: Bytes): Node
    requires n.Leaf? && |n.keys| == |n.values| && pos <= |n.keys|
  {
    if pos < |n.keys| && n.keys[pos] == k then
      n.(values := n.values[pos := v])
    else
      n.(keys := n.keys[..pos] + [k] + n.keys[pos..], values := n.values[..pos] + [v] + n.values[pos..])
  }

  /** Putting into a leaf at its lower bound is putting into its run. */
  lemma LeafPut(n: Node, es: seq<Entry>, next: Id, pos: nat, k: Bytes, v: Bytes)
    requires Stores(n, es, next) && pos <= |es|
    requires forall i :: 0 <= i < pos ==> Rank(n.keys[i]) < Rank(k)
    requires pos < |es| ==> Rank(k) <= Rank(n.keys[pos])
    ensures Stores(PutInNode(n, pos, k, v), PutRun(es, k, v), next)
  {
    PutAt(es, pos, k, v);
  }

  lemma {:induction false} PutKeepsKeys(es: seq<Entry>, k: Bytes, v: Bytes)
    requires k != [] && forall i :: 0 <= i < |es| ==> es[i].key != []
    ensures forall i :: 0 <= i < |PutRun(es, k, v)| ==> PutRun(es, k, v)[i].key != []
  {
    if es != [] {
      PutKeepsKeys(es[1..], k, v);
    }
  }

  /** A key is in a leaf exactly when it sits at its lower bound. */
  lemma LeafHas(n: Node, es: seq<Entry>, next: Id, pos: nat, k: Bytes)
    requires Stores(n, es, next) && pos <= |es| && Sorted(es)
    requires forall i :: 0 <= i < pos ==> Rank(n.keys[i]) < Rank(k)
    requires forall i :: pos <= i < |es| ==> Rank(k) <= Rank(n.keys[i])
    ensures HasKey(es, k) <==> pos < |es| && n.keys[pos] == k
  {
    if HasKey(es, k) {
      var i :| 0 <= i < |es| && es[i].key == k;
      assert Rank(n.keys[i]) == Rank(k);
      assert Rank(k) <= Rank(n.keys[pos]) && Rank(es[pos].key) <= Rank(es[i].key);
      CompareIsRank(es[pos].key, k);
    }
    if pos < |es| && n.keys[pos] == k {
      assert es[pos].key == k;
    }
  }

  /** The table after an internal node moved its upper part to a fresh node. */
  lemma ForkSplit(n0: seq<Node>, n1: seq<Node>, t: Tree, mid: nat, rid: Id)
    requires t.Fork? && Rep(n0, t) && Once(Ids(t)) && Fresh(n0, n1, rid) && mid < |t.seps| && |t.kids| == |t.seps| + 1
    ensures var n := n0[t.id];
            var n2 := n1[rid := Internal(n.keys[mid + 1..], n.children[mid + 1..])]
                        [t.id := Internal(n.keys[..mid], n.children[..mid + 1])];
            && RepAll(n2, [Fork(t.id, t.seps[..mid], t.kids[..mid + 1]),
                           Fork(rid, t.seps[mid + 1..], t.kids[mid + 1..])])
            && Frame(n0, n2, Ids(t)) && Books(n0, n2, Ids(t), Ids(t) + multiset{rid})
  {
    var n := n0[t.id];
    var n2 := n1[rid := Internal(n.keys[mid + 1..], n.children[mid + 1..])]
                [t.id := Internal(n.keys[..mid], n.children[..mid + 1])];
    assert Ids(t)[t.id] <= 1;
    RepAllLive(n0, t.kids);
    RepAllFrame(n0, n2, t.kids);
    var l, r := Fork(t.id, t.seps[..mid], t.kids[..mid + 1]), Fork(rid, t.seps[mid + 1..], t.kids[mid + 1..]);
    assert rid != t.id;
    assert RepAll(n2, l.kids) && Rep(n2, l);
    assert RepAll(n2, r.kids) && Rep(n2, r);
  }

  lemma GraftNames(children: seq<Id>, kids: seq<Tree>, idx: nat, parts: seq<Tree>)
    requires Names(children, kids) && idx < |kids| && |parts| == 2 && parts[0].id == kids[idx].id
    ensures Names(children[..idx + 1] + [parts[1].id] + children[idx + 1..], Graft(kids, idx, parts))
  {
  }

  lemma GrownWritten(n0: seq<Node>, n1: seq<Node>, t: Tree, big: Tree, node: Node,
                     h: nat, after: Id, k: Bytes, v: Bytes, mx: nat)
    requires Sub(n0, t, h, mx, after) && Grown(n0, n1, t, big, h, mx, after, k, v)
    requires node.Internal? && node.keys == big.seps && Names(node.children, big.kids)
    ensures var n2 := n1[t.id := node];
            && RepAll(n2, [big]) && Rep(n2, big) && Once(Ids(big))
            && Frame(n0, n2, Ids(t)) && Books(n0, n2, Ids(t), Ids(big))
            && IdsAll([big]) == Ids(big) && FlatAll([big]) == Flat(big) && Linked([big], after)
  {
    ForkRep(n1, t.id, node.keys, node.children, big.kids);
    OnceAfter(n0, n1, t, Ids(big));
    One(big);
  }

  /** A child that was not split leaves the parent's node as it is. */
  lemma GraftWhole(n0: seq<Node>, n1: seq<Node>, t: Tree, out: seq<Tree>, idx: nat,
                   h: nat, mx: nat, after: Id, k: Bytes, v: Bytes)
    requires t.Fork? && Sub(n0, t, h, mx, after) && Count(t) <= mx && idx < |t.kids| && |out| == 1
    requires 0 < t.id < |n1| && n1[t.id] == n0[t.id] && out[0].id == t.kids[idx].id
    requires Grown(n0, n1, t, Fork(t.id, t.seps, Graft(t.kids, idx, out)), h, mx, after, k, v)
    ensures Inserted(n0, n1, t, [Fork(t.id, t.seps, Graft(t.kids, idx, out))], h, mx, after, k, v)
  {
    var t1 := Fork(t.id, t.seps, Graft(t.kids, idx, out));
    One(t1);
    assert Names(n1[t.id].children, t1.kids);
    assert Rep(n1, t1);
  }

  /** Node counts across a graft. */
  lemma GraftCount(t: Tree, idx: nat, out: seq<Tree>)
    requires t.Fork? && idx < |t.kids|
    ensures |IdsAll(Graft(t.kids, idx, out))| + 1 + |Ids(t.kids[idx])| == |Ids(t)| + |IdsAll(out)|
  {
    GraftPieces(t.kids, idx, out, 0);
  }

  /** A child of a subtree is a subtree. */
  lemma ChildSub(nodes: seq<Node>, t: Tree, h: nat, mx: nat, after: Id, idx: nat, k: Bytes)
    requires t.Fork? && Sub(nodes, t, h, mx, after) && mx >= 3 && idx < |t.kids|
    requires idx > 0 ==> Rank(t.seps[idx - 1]) <= Rank(k)
    requires idx < |t.seps| ==> Rank(k) < Rank(t.seps[idx])
    ensures Sub(nodes, t.kids[idx], h - 1, mx, Follow(t.kids, idx, after))
    ensures Good(t.kids[idx], h - 1, mx)
    ensures HasKey(Flat(t), k) <==> HasKey(Flat(t.kids[idx]), k)
    ensures |Ids(t.kids[idx])| < |Ids(t)|
  {
    GraftCount(t, idx, []);
    Descend(t, h, mx, idx, k);
    HasKeyMiddle(FlatAll(t.kids[..idx]), Flat(t.kids[idx]), FlatAll(t.kids[idx + 1..]), k);
    IdsApart(t, idx);
    assert Good(t.kids[idx], h - 1, mx);
    assert Linked(t.kids, after) && RepAll(nodes, t.kids);
  }

  /** Starting from ids that are exactly the nodes in use, they stay so. */
  lemma AllIds(n0: seq<Node>, n1: seq<Node>, m0: multiset<Id>, m1: multiset<Id>)
    requires Books(n0, n1, m0, m1) && forall x: Id :: m0[x] == Live(n0, x)
    ensures forall x: Id :: m1[x] == Live(n1, x)
  {
    forall x: Id ensures m1[x] == Live(n1, x) {
      assert m1[x] + Live(n0, x) == m0[x] + Live(n1, x);
    }
  }

  /** The whole table is the tree t and nothing else. */
  ghost predicate Sound(nodes: seq<Node>, t: Tree, h: nat, mx: nat) {
    && RootOk(t, h, mx)
    && Sub(nodes, t, h, mx, 0)
    && forall x: Id :: Ids(t)[x] == Live(nodes, x)
  }

  /** What an insertion into the root leaves, before the root is settled. */
  ghost predicate Unsettled(nodes: seq<Node>, t: Tree, out: seq<Tree>, h: nat, mx: nat) {
    && 1 <= |out| <= 2
    && RepAll(nodes, out) && Linked(out, 0) && Sorted(FlatAll(out))
    && (|out| == 1 ==> Body(out[0], h, mx) && Count(t) <= Count(out[0]) <= mx)
    && (|out| == 2 ==> Forest(out, h, mx))
    && forall x: Id :: IdsAll(out)[x] == Live(nodes, x)
  }

  lemma RootUnsettled(n0: seq<Node>, n1: seq<Node>, t: Tree, out: seq<Tree>, h: nat, mx: nat, k: Bytes, v: Bytes)
    requires Sound(n0, t, h, mx) && Inserted(n0, n1, t, out, h, mx, 0, k, v)
    ensures Unsettled(n1, t, out, h, mx)
    ensures |FlatAll(out)| == |Flat(t)| + if k in Contents(Flat(t)) then 0 else 1
    ensures Contents(FlatAll(out)) == Contents(Flat(t))[k := v]
  {
    ContentsKeys(Flat(t), k);
    PutContents(Flat(t), k, v);
    PutSorted(Flat(t), k, v);
    AllIds(n0, n1, Ids(t), IdsAll(out));
  }

  lemma RootInserted(nodes: seq<Node>, t: Tree, out: seq<Tree>, h: nat, mx: nat)
    requires RootOk(t, h, mx) && Unsettled(nodes, t, out, h, mx) && |out| == 1
    ensures Sound(nodes, out[0], h, mx)
    ensures t.Tip? <==> out[0].Tip?
    ensures Flat(out[0]) == FlatAll(out) && Ids(out[0]) == IdsAll(out)
  {
    assert out == [out[0]];
    One(out[0]);
    assert Rep(nodes, out[0]);
    assert Follow(out, 0, 0) == 0 && Links(out[0], 0);
  }

  lemma RootGrown(n0: seq<Node>, n1: seq<Node>, t: Tree, out: seq<Tree>, id: Id, h: nat, mx: nat)
    requires mx >= 3 && Unsettled(n0, t, out, h, mx) && |out| == 2 && Fresh(n0, n1, id)
    ensures var root := Fork(id, [FirstKey(out[1])], out);
            && Sound(n1[id := Internal(root.seps, [out[0].id, out[1].id])], root, h + 1, mx)
            && Flat(root) == FlatAll(out) && Ids(root) == IdsAll(out) + multiset{id}
  {
    var root := Fork(id, [FirstKey(out[1])], out);
    SiblingsFrame(n0, n1, out, multiset{id});
    assert IdsAll(out)[id] == Live(n0, id) == 0;
    ForkRep(n1, id, root.seps, [out[0].id, out[1].id], out);
    forall x: Id ensures Ids(root)[x] == Live(n1, x) {
      assert IdsAll(out)[x] == Live(n0, x);
    }
  }

  /** The whole table after a deletion, before the root is settled. */
  ghost predicate Shrunk(nodes: seq<Node>, t: Tree, h: nat, mx: nat) {
    && Body(t, h, mx) && Count(t) <= mx
    && Sub(nodes, t, h, mx, 0)
    && forall x: Id :: Ids(t)[x] == Live(nodes, x)
  }

  lemma RootErased(n0: seq<Node>, n1: seq<Node>, t: Tree, t1: Tree, h: nat, mx: nat, k: Bytes)
    requires Sound(n0, t, h, mx) && Erased(n0, n1, t, t1, h, mx, 0, k)
    ensures Shrunk(n1, t1, h, mx)
    ensures HasKey(Flat(t), k) ==> |Flat(t1)| + 1 == |Flat(t)|
    ensures Contents(Flat(t1)) == Contents(Flat(t)) - {k}
  {
    DelContents(Flat(t), k);
    DelSorted(Flat(t), k);
    AllIds(n0, n1, Ids(t), Ids(t1));
    OnceAfter(n0, n1, t, Ids(t1));
  }

  lemma EmptyHasNothing(s: seq<Entry>, k: Bytes)
    ensures |s| == 0 ==> k !in Contents(s) && Contents(s) - {k} == Contents(s)
  {
  }

  /** A root with a single child gives way to it. */
  lemma RootCollapse(nodes: seq<Node>, t: Tree, h: nat, mx: nat)
    requires mx >= 3 && Shrunk(nodes, t, h, mx) && t.Fork? && Count(t) == 0
    ensures |t.kids| == 1 && Sound(nodes[t.id := Free], t.kids[0], h - 1, mx)
    ensures Flat(t.kids[0]) == Flat(t) && Ids(t) == Ids(t.kids[0]) + multiset{t.id}
    ensures nodes[t.id].Internal? && nodes[t.id].children == [t.kids[0].id] && h >= 1
    ensures t.kids[0].id < |nodes| && nodes[t.kids[0].id] != Free && (nodes[t.kids[0].id].Leaf? <==> t.kids[0].Tip?)
  {
    var x, n1 := t.kids[0], nodes[t.id := Free];
    assert t.kids == [x];
    One(x);
    assert Good(x, h - 1, mx);
    assert RepAll(nodes, t.kids) && Rep(nodes, x);
    assert Follow(t.kids, 0, 0) == 0 && Linked(t.kids, 0) && Links(t.kids[0], 0);
    RootFreed(nodes, t.id, x);
  }

  lemma RootFreed(nodes: seq<Node>, id: Id, x: Tree)
    requires id < |nodes| && Rep(nodes, x) && Once(multiset{id} + Ids(x))
    requires forall y: Id :: (multiset{id} + Ids(x))[y] == Live(nodes, y)
    ensures Rep(nodes[id := Free], x) && Once(Ids(x))
    ensures forall y: Id :: Ids(x)[y] == Live(nodes[id := Free], y)
  {
    assert (multiset{id} + Ids(x))[id] <= 1;
    RepFrame(nodes, nodes[id := Free], x);
    forall y: Id ensures Ids(x)[y] == Live(nodes[id := Free], y) {
      assert (multiset{id} + Ids(x))[y] == Live(nodes, y);
    }
    forall y ensures Ids(x)[y] <= 1 {
      assert (multiset{id} + Ids(x))[y] <= 1;
    }
  }

  /** What the table holds for leaf i. */
  lemma LeafOf(nodes: seq<Node>, t: Tree, h: nat, mx: nat, i: nat)
    requires Rep(nodes, t) && Body(t, h, mx) && Sorted(Flat(t)) && i < |Tips(t)|
    ensures Tips(t)[i].Tip? && Rep(nodes, Tips(t)[i]) && Sorted(Tips(t)[i].es)
  {
    var tip := Tips(t)[i];
    TipsFlat(t);
    TipsRep(nodes, t);
    GraftPieces(Tips(t), i, [], 0);
    SortedMiddle(FlatAll(Tips(t)[..i]), tip.es, FlatAll(Tips(t)[i + 1..]));
  }

  lemma SortedMiddle(a: seq<Entry>, m: seq<Entry>, b: seq<Entry>)
    requires Sorted(a + m + b)
    ensures Sorted(m)
  {
    forall i, j | 0 <= i < j < |m| ensures Rank(m[i].key) < Rank(m[j].key) {
      assert (a + m + b)[|a| + i] == m[i] && (a + m + b)[|a| + j] == m[j];
    }
  }

  /** A key between its neighbour leaves is in the tree exactly when leaf i has it. */
  lemma LeafDecides(t: Tree, i: nat, k: Bytes)
    requires i < |Tips(t)| && Tips(t)[i].Tip?
    requires Below(FlatAll(Tips(t)[..i]), k) && Above(FlatAll(Tips(t)[i + 1..]), k)
    ensures k in Contents(Flat(t)) <==> HasKey(Tips(t)[i].es, k)
  {
    TipsFlat(t);
    GraftPieces(Tips(t), i, [], 0);
    HasKeyMiddle(FlatAll(Tips(t)[..i]), Tips(t)[i].es, FlatAll(Tips(t)[i + 1..]), k);
    ContentsKeys(Flat(t), k);
  }

  lemma LeafValue(t: Tree, i: nat, pos: nat)
    requires i < |Tips(t)| && Tips(t)[i].Tip? && pos < |Tips(t)[i].es| && Sorted(Flat(t))
    ensures var e := Tips(t)[i].es[pos]; e.key in Contents(Flat(t)) && Contents(Flat(t))[e.key] == e.value
  {
    TipsFlat(t);
    GraftPieces(Tips(t), i, [], 0);
    ContentsAt(Flat(t), |FlatAll(Tips(t)[..i])| + pos);
  }

  /** The nodes of the neighbours of child idx show how many keys they hold. */
  lemma KidSizes(nodes: seq<Node>, t: Tree, idx: nat, h: nat, mx: nat)
    requires t.Fork? && Rep(nodes, t) && Underfull(t, idx, h, mx)
    ensures |nodes[t.id].children| == |t.kids|
    ensures forall i :: 0 <= i < |t.kids| ==> nodes[t.id].children[i] == t.kids[i].id
    ensures forall i :: 0 <= i < |t.kids| && i != idx ==>
              && 0 < t.kids[i].id < |nodes| && nodes[t.kids[i].id] != Free
              && |nodes[t.kids[i].id].keys| == Count(t.kids[i]) && mx / 2 <= Count(t.kids[i])
  {
    forall i | 0 <= i < |t.kids| && i != idx
      ensures 0 < t.kids[i].id < |nodes| && nodes[t.kids[i].id] != Free
      ensures |nodes[t.kids[i].id].keys| == Count(t.kids[i]) && mx / 2 <= Count(t.kids[i])
    {
      assert Good(t.kids[i], h - 1, mx) && Rep(nodes, t.kids[i]);
    }
  }

  lemma Between3(a: seq<Tree>, t: Tree, b: seq<Tree>)
    ensures (a + [t] + b)[..|a|] == a && (a + [t] + b)[|a| + 1..] == b && (a + [t] + b)[|a|] == t
  {
  }

  lemma UpdatesCommute(nodes: seq<Node>, a: Id, x: Node, b: Id, y: Node)
    requires a < |nodes| && b < |nodes| && a != b
    ensures nodes[a := x][b := y] == nodes[b := y][a := x]
  {
  }

  class BPlusTree {
    const maxKeys: nat
    var nodes: seq<Node>
    var nodeFree: seq<bool>
    var freeList: seq<Id>
    var nextNodeId: Id
    var rootId: Id
    var rootIsLeaf: bool
    var size: nat
    var nodeCount: nat
    var height: nat
    ghost var shape: Tree

    ghost predicate Pool()
      reads this
    {
      PoolOk(nodes, nodeFree, freeList, nextNodeId)
    }

    ghost predicate Valid()
      reads this
    {
      && maxKeys >= 3
      && Pool()
      && height >= 1
      && rootId == shape.id
      && rootIsLeaf == shape.Tip?
      && Sound(nodes, shape, height - 1, maxKeys)
      && size == |Flat(shape)|
      && nodeCount == |Ids(shape)|
    }

    /** The map the tree stands for. */
    ghost function Model(): Map
      reads this
    {
      Contents(Flat(shape))
    }

    constructor (max: nat)
      ensures Valid() && Model() == map[] && size == 0 && height == 1 && nodeCount == 1
      ensures maxKeys == if max < 3 then 3 else max
    {
      maxKeys := if max < 3 then 3 else max;
      nodes := [Free];
      nodeFree := [true];
      freeList := [];
      nextNodeId := 1;
      rootIsLeaf := true;
      size := 0;
      nodeCount := 0;
      height := 1;
      new;
      rootId := AllocateNode(true);
      nodeCount := 1;
      shape := Tip(rootId, [], 0);
    }

    // ---- node management

    method AllocateNode(isLeaf: bool) returns (id: Id)
      requires Pool()
      modifies `nodes, `nodeFree, `freeList, `nextNodeId, `nodeCount
      ensures Pool() && Fresh(old(nodes), nodes, id)
      ensures nodes[id] == if isLeaf then Leaf([], [], 0) else Internal([], [])
      ensures nodeCount == old(nodeCount) + 1
      ensures old(freeList) != [] ==> id == old(freeList[|freeList| - 1]) && nextNodeId == old(nextNodeId)
      ensures old(freeList) == [] ==> id == old(nextNodeId) && nextNodeId == id + 1
    {
      nodeCount := nodeCount + 1;
      var node := if isLeaf then Leaf([], [], 0) else Internal([], []);
      if freeList != [] {
        id := freeList[|freeList| - 1];
        assert freeList == freeList[..|freeList| - 1] + [id];
        assert id in multiset(freeList);
        freeList := freeList[..|freeList| - 1];
        nodes := nodes[id := node];
        nodeFree := nodeFree[id := false];
      } else {
        id := nextNodeId;
        nextNodeId := nextNodeId + 1;
        nodes := nodes + [node];
        nodeFree := nodeFree + [false];
      }
    }

    method FreeNode(id: Id)
      requires Pool()
      modifies `nodes, `nodeFree, `freeList, `nodeCount
      ensures Pool()
      ensures Live(old(nodes), id) == 1 ==>
                nodes == old(nodes)[id := Free] && freeList == old(freeList) + [id]
                && nodeCount == if old(nodeCount) > 0 then old(nodeCount) - 1 else 0
      ensures Live(old(nodes), id) == 0 ==>
                nodes == old(nodes) && freeList == old(freeList) && nodeCount == old(nodeCount)
    {
      if GetNode(id) != Free {
        nodes := nodes[id := Free];
        nodeFree := nodeFree[id := true];
        freeList := freeList + [id];
        if nodeCount > 0 {
          nodeCount := nodeCount - 1;
        }
      }
    }

    method SetNode(id: Id, node: Node)
      requires Pool() && id < |nodes| && nodes[id] != Free && node != Free
      modifies `nodes
      ensures Pool() && nodes == old(nodes)[id := node]
    {
      nodes := nodes[id := node];
    }

    function GetNode(id: Id): (n: Node)
      requires Pool()
      reads this
      ensures n == if id < |nodes| then nodes[id] else Free
      ensures n != Free <==> Live(nodes, id) == 1
    {
      if id != 0 && id < |nodes| && !nodeFree[id] then nodes[id] else Free
    }

    // ---- insertion

    method InsertIntoLeaf(id: Id, key: Bytes, value: Bytes, ghost t: Tree)
      returns (inserted: bool, result: SplitResult, ghost out: seq<Tree>)
      requires Pool() && maxKeys >= 3 && key != []
      requires t.Tip? && t.id == id && Sub(nodes, t, 0, maxKeys, t.next) && Count(t) <= maxKeys
      modifies `nodes, `nodeFree, `freeList, `nextNodeId, `nodeCount
      ensures Pool()
      ensures Inserted(old(nodes), nodes, t, out, 0, maxKeys, t.next, key, value)
      ensures inserted <==> !HasKey(t.es, key)
      ensures result.split <==> |out| == 2
      ensures result.split ==> result.separator == FirstKey(out[1]) && result.right == out[1].id
      ensures nodeCount + 1 == old(nodeCount) + |out| && |IdsAll(out)| == |out|
    {
      var leaf := nodes[id];
      KeysIncrease(leaf, t.es, t.next);
      var pos := LowerBound(leaf.keys, key);
      LeafPut(leaf, t.es, t.next, pos, key, value);
      LeafHas(leaf, t.es, t.next, pos, key);
      result := SplitResult(false, [], 0);
      ghost var big := t.(es := PutRun(t.es, key, value));
      TipWritten(old(nodes), t, PutInNode(leaf, pos, key, value), big.es);
      PutKeepsKeys(t.es, key, value);
      PutSorted(t.es, key, value);
      out := [big];
      if pos < |leaf.keys| {
        CompareIsRank(leaf.keys[pos], key);
      }
      if pos < |leaf.keys| && Compare(leaf.keys[pos], key) == 0 {
        SetNode(id, leaf.(values := leaf.values[pos := value]));
        inserted := false;
        return;
      }
      leaf := leaf.(keys := leaf.keys[..pos] + [key] + leaf.keys[pos..],
                    values := leaf.values[..pos] + [value] + leaf.values[pos..]);
      SetNode(id, leaf);
      inserted := true;
      if |leaf.keys| > maxKeys {
        assert Rep(nodes, out[0]);
        result, out := SplitLeaf(id, big);
      }
    }

    method SplitLeaf(id: Id, ghost t: Tree) returns (result: SplitResult, ghost out: seq<Tree>)
      requires Pool() && maxKeys >= 3
      requires t.Tip? && t.id == id && Rep(nodes, t) && Body(t, 0, maxKeys) && Count(t) == maxKeys + 1
      modifies `nodes, `nodeFree, `freeList, `nextNodeId, `nodeCount
      ensures Pool() && |out| == 2 && RepAll(nodes, out)
      ensures FlatAll(out) == t.es && Linked(out, t.next) && Forest(out, 0, maxKeys)
      ensures out[0].id == id && FirstLeaf(out[0]) == id
      ensures Frame(old(nodes), nodes, Ids(t)) && Books(old(nodes), nodes, Ids(t), IdsAll(out))
      ensures result == SplitResult(true, FirstKey(out[1]), out[1].id)
      ensures nodeCount == old(nodeCount) + 1 && |IdsAll(out)| == 2
    {
      var rightId := AllocateNode(true);
      ghost var n1 := nodes;
      var leaf := nodes[id];
      var mid := |leaf.keys| / 2;
      var right := Leaf(leaf.keys[mid..], leaf.values[mid..], leaf.next);
      SetNode(rightId, right);
      SetNode(id, Leaf(leaf.keys[..mid], leaf.values[..mid], rightId));
      result := SplitResult(true, right.keys[0], rightId);
      SplitTip(t, mid, rightId, maxKeys);
      TipSplit(old(nodes), n1, t, mid, rightId, nodes[id], nodes[rightId]);
      out := [Tip(id, t.es[..mid], rightId), Tip(rightId, t.es[mid..], t.next)];
    }

    method Insert(id: Id, key: Bytes, value: Bytes, ghost t: Tree, ghost h: nat, ghost after: Id)
      returns (s: Status, inserted: bool, result: SplitResult, ghost out: seq<Tree>)
      requires Pool() && maxKeys >= 3 && key != []
      requires t.id == id && Sub(nodes, t, h, maxKeys, after) && Count(t) <= maxKeys
      modifies `nodes, `nodeFree, `freeList, `nextNodeId, `nodeCount
      ensures s == OK && Pool()
      ensures Inserted(old(nodes), nodes, t, out, h, maxKeys, after, key, value)
      ensures inserted <==> !HasKey(Flat(t), key)
      ensures result.split <==> |out| == 2
      ensures result.split ==> result.separator == FirstKey(out[1]) && result.right == out[1].id
      ensures nodeCount + |Ids(t)| == old(nodeCount) + |IdsAll(out)|
      decreases t
    {
      inserted, result, out := false, SplitResult(false, [], 0), [];
      var node := GetNode(id);
      if node == Free {
        return InternalError, inserted, result, out;
      }
      if node.Leaf? {
        inserted, result, out := InsertIntoLeaf(id, key, value, t);
        return OK, inserted, result, out;
      }
      SeparatorsIncrease(t, h, maxKeys);
      var idx := UpperBound(node.keys, key);
      if idx >= |node.children| {
        return InternalError, inserted, result, out;
      }
      ChildSub(nodes, t, h, maxKeys, after, idx, key);
      var childResult;
      s, inserted, childResult, out := Insert(node.children[idx], key, value, t.kids[idx], h - 1,
                                              Follow(t.kids, idx, after));
      if s != OK {
        return;
      }
      GraftInserted(old(nodes), nodes, t, out, idx, h, maxKeys, after, key, value);
      GraftCount(t, idx, out);
      result, out := AbsorbChild(id, idx, childResult, t, out, h, after, key, value, old(nodes));
    }

    /** A binary search puts the separator of a split child where the key descended. */
    method SeparatorIndex(keys: seq<Bytes>, separator: Bytes, ghost t: Tree, ghost big: Tree, ghost idx: nat,
                          ghost h: nat)
      returns (pos: nat)
      requires maxKeys >= 3 && t.Fork? && Body(t, h, maxKeys) && Sorted(Flat(t))
      requires big.Fork? && Body(big, h, maxKeys) && Sorted(Flat(big))
      requires keys == t.seps && idx <= |keys| && big.seps == keys[..idx] + [separator] + keys[idx..]
      ensures pos == idx
    {
      SeparatorsIncrease(t, h, maxKeys);
      pos := LowerBound(keys, separator);
      SeparatorLands(big, keys, idx, separator, h, maxKeys, pos);
    }

    /** After inserting into child idx, take in its new right half if it was split. */
    method AbsorbChild(id: Id, ghost idx: nat, child: SplitResult, ghost t: Tree, ghost parts: seq<Tree>,
                       ghost h: nat, ghost after: Id, ghost key: Bytes, ghost value: Bytes, ghost n0: seq<Node>)
      returns (result: SplitResult, ghost out: seq<Tree>)
      requires Pool() && maxKeys >= 3 && t.Fork? && t.id == id && idx < |t.kids| && 1 <= |parts| <= 2
      requires Sub(n0, t, h, maxKeys, after) && Count(t) <= maxKeys
      requires id < |nodes| && nodes[id] == n0[id]
      requires Grown(n0, nodes, t, Fork(id, GraftSeps(t.seps, idx, parts), Graft(t.kids, idx, parts)), h, maxKeys,
                     after, key, value)
      requires child.split <==> |parts| == 2
      requires child.split ==> child.separator == FirstKey(parts[1]) && child.right == parts[1].id
      requires parts[0].id == t.kids[idx].id
      modifies `nodes, `nodeFree, `freeList, `nextNodeId, `nodeCount
      ensures Pool()
      ensures Inserted(n0, nodes, t, out, h, maxKeys, after, key, value)
      ensures result.split <==> |out| == 2
      ensures result.split ==> result.separator == FirstKey(out[1]) && result.right == out[1].id
      ensures nodeCount + 1 == old(nodeCount) + |out|
      ensures |IdsAll(out)| == |IdsAll(Graft(t.kids, idx, parts))| + |out|
    {
      result := SplitResult(false, [], 0);
      if !child.split {
        GraftWhole(n0, nodes, t, parts, idx, h, maxKeys, after, key, value);
        out := [Fork(id, t.seps, Graft(t.kids, idx, parts))];
        One(out[0]);
        return;
      }
      result, out := AddChild(id, idx, child, t, parts, h, after, key, value, n0);
    }

    /** Take in the right half of a child that was split. */
    method AddChild(id: Id, ghost idx: nat, child: SplitResult, ghost t: Tree, ghost parts: seq<Tree>,
                    ghost h: nat, ghost after: Id, ghost key: Bytes, ghost value: Bytes, ghost n0: seq<Node>)
      returns (result: SplitResult, ghost out: seq<Tree>)
      requires Pool() && maxKeys >= 3 && t.Fork? && t.id == id && idx < |t.kids| && |parts| == 2
      requires Sub(n0, t, h, maxKeys, after) && Count(t) <= maxKeys
      requires id < |nodes| && nodes[id] == n0[id]
      requires Grown(n0, nodes, t, Fork(id, GraftSeps(t.seps, idx, parts), Graft(t.kids, idx, parts)), h, maxKeys,
                     after, key, value)
      requires child.separator == FirstKey(parts[1]) && child.right == parts[1].id
      requires parts[0].id == t.kids[idx].id
      modifies `nodes, `nodeFree, `freeList, `nextNodeId, `nodeCount
      ensures Pool()
      ensures Inserted(n0, nodes, t, out, h, maxKeys, after, key, value)
      ensures result.split <==> |out| == 2
      ensures result.split ==> result.separator == FirstKey(out[1]) && result.right == out[1].id
      ensures nodeCount + 1 == old(nodeCount) + |out|
      ensures |IdsAll(out)| == |IdsAll(Graft(t.kids, idx, parts))| + |out|
    {
      result := SplitResult(false, [], 0);
      ghost var big := Fork(id, GraftSeps(t.seps, idx, parts), Graft(t.kids, idx, parts));
      var node := nodes[id];
      PutSorted(Flat(t), key, value);
      var pos := SeparatorIndex(node.keys, child.separator, t, big, idx, h);
      node := Internal(node.keys[..pos] + [child.separator] + node.keys[pos..],
                       node.children[..pos + 1] + [child.right] + node.children[pos + 1..]);
      GraftNames(nodes[id].children, t.kids, idx, parts);
      GrownWritten(n0, nodes, t, big, node, h, after, key, value, maxKeys);
      SetNode(id, node);
      ghost var n1 := nodes;
      out := [big];
      if |node.keys| > maxKeys {
        result, out := SplitInternal(id, big, h, after);
        Chain(n0, n1, nodes, Ids(t), Ids(big), IdsAll(out));
      }
    }

    method SplitInternal(id: Id, ghost t: Tree, ghost h: nat, ghost after: Id)
      returns (result: SplitResult, ghost out: seq<Tree>)
      requires Pool() && maxKeys >= 3
      requires t.Fork? && t.id == id && Rep(nodes, t) && Body(t, h, maxKeys) && Links(t, after)
      requires Once(Ids(t)) && Count(t) == maxKeys + 1
      modifies `nodes, `nodeFree, `freeList, `nextNodeId, `nodeCount
      ensures Pool() && |out| == 2 && RepAll(nodes, out)
      ensures FlatAll(out) == Flat(t) && Linked(out, after) && Forest(out, h, maxKeys)
      ensures out[0].id == id && FirstLeaf(out[0]) == FirstLeaf(t)
      ensures Frame(old(nodes), nodes, Ids(t)) && Books(old(nodes), nodes, Ids(t), IdsAll(out))
      ensures result == SplitResult(true, FirstKey(out[1]), out[1].id)
      ensures nodeCount == old(nodeCount) + 1
      ensures |IdsAll(out)| == |Ids(t)| + 1
    {
      var rightId := AllocateNode(false);
      ghost var n1 := nodes;
      var node := nodes[id];
      var mid := |node.keys| / 2;
      result := SplitResult(true, node.keys[mid], rightId);
      SetNode(rightId, Internal(node.keys[mid + 1..], node.children[mid + 1..]));
      SetNode(id, Internal(node.keys[..mid], node.children[..mid + 1]));
      SplitFork(t, mid, rightId, h, maxKeys, after);
      ForkSplit(old(nodes), n1, t, mid, rightId);
      out := [Fork(id, t.seps[..mid], t.kids[..mid + 1]), Fork(rightId, t.seps[mid + 1..], t.kids[mid + 1..])];
    }

    /** Put `key` at `value`: the tree's map is updated, nothing else changes. */
    method Put(key: Bytes, value: Bytes) returns (s: Status)
      requires Valid()
      modifies this
      ensures Valid()
      ensures key == [] ==> s == InvalidArgument && unchanged(this)
      ensures key != [] ==> s == OK && Flat(shape) == PutRun(old(Flat(shape)), key, value)
      ensures key != [] ==> Model() == old(Model())[key := value]
      ensures size == old(size) + if key != [] && key !in old(Model()) then 1 else 0
    {
      if key == [] {
        return InvalidArgument;
      }
      var inserted, result;
      ghost var out;
      s, inserted, result, out := InsertAtRoot(key, value);
      if s == OK {
        SettleRoot(result, if inserted then size + 1 else size, out);
      }
    }

    method InsertAtRoot(key: Bytes, value: Bytes)
      returns (s: Status, inserted: bool, result: SplitResult, ghost out: seq<Tree>)
      requires Valid() && key != []
      modifies `nodes, `nodeFree, `freeList, `nextNodeId, `nodeCount
      ensures s == OK && Pool() && Unsettled(nodes, shape, out, height - 1, maxKeys)
      ensures result.split == (|out| == 2) && rootId == out[0].id
      ensures result.split ==> result.separator == FirstKey(out[1]) && result.right == out[1].id
      ensures nodeCount == |IdsAll(out)|
      ensures FlatAll(out) == PutRun(Flat(shape), key, value)
      ensures Contents(FlatAll(out)) == old(Model())[key := value]
      ensures inserted <==> key !in old(Model())
      ensures |FlatAll(out)| == |Flat(shape)| + if inserted then 1 else 0
    {
      ghost var n0, t := nodes, shape;
      ghost var h: nat := height - 1;
      ContentsKeys(Flat(t), key);
      s, inserted, result, out := Insert(rootId, key, value, t, h, 0);
      RootUnsettled(n0, nodes, t, out, h, maxKeys, key, value);
    }

    /** Record the new size, and grow a new root if the old one was split. */
    method SettleRoot(result: SplitResult, newSize: nat, ghost out: seq<Tree>)
      requires maxKeys >= 3 && Pool() && height >= 1 && rootIsLeaf == shape.Tip? && RootOk(shape, height - 1, maxKeys)
      requires Unsettled(nodes, shape, out, height - 1, maxKeys) && result.split == (|out| == 2)
      requires result.split ==> result.separator == FirstKey(out[1]) && result.right == out[1].id
      requires rootId == out[0].id && newSize == |FlatAll(out)| && nodeCount == |IdsAll(out)|
      modifies this
      ensures Valid() && Flat(shape) == FlatAll(out) && size == newSize
    {
      if result.split {
        GrowRoot(result, newSize, out);
      } else {
        RootInserted(nodes, shape, out, height - 1, maxKeys);
        size := newSize;
        shape := out[0];
      }
    }

    /** The root was split: a new root takes the two halves. */
    method GrowRoot(result: SplitResult, newSize: nat, ghost out: seq<Tree>)
      requires maxKeys >= 3 && Pool() && height >= 1
      requires Unsettled(nodes, shape, out, height - 1, maxKeys) && |out| == 2
      requires result.separator == FirstKey(out[1]) && result.right == out[1].id && rootId == out[0].id
      requires newSize == |FlatAll(out)| && nodeCount == |IdsAll(out)|
      modifies this
      ensures Valid() && Flat(shape) == FlatAll(out)
      ensures size == newSize && height == old(height) + 1
    {
      var newRootId := AllocateNode(false);
      RootGrown(old(nodes), nodes, shape, out, newRootId, height - 1, maxKeys);
      SetNode(newRootId, Internal([result.separator], [rootId, result.right]));
      size := newSize;
      rootId := newRootId;
      rootIsLeaf := false;
      height := height + 1;
      shape := Fork(newRootId, [result.separator], out);
    }

    // ---- lookup

    /** The leaf that holds `key` if any leaf does, and its place among the leaves. */
    method FindLeaf(key: Bytes) returns (leafId: Id, ghost i: nat)
      requires Valid()
      ensures i < |Tips(shape)| && leafId == Tips(shape)[i].id && leafId != 0
      ensures Below(FlatAll(Tips(shape)[..i]), key)
      ensures Above(FlatAll(Tips(shape)[i + 1..]), key)
    {
      var current := rootId;
      leafId, i := 0, 0;
      ghost var t, after, a, b := shape, 0, [], [];
      ghost var h: nat := height - 1;
      assert Tips(shape) == a + Tips(t) + b;
      while current != 0
        invariant current == t.id && Sub(nodes, t, h, maxKeys, after)
        invariant Tips(shape) == a + Tips(t) + b
        invariant Below(FlatAll(a), key) && Above(FlatAll(b), key)
        decreases t
      {
        var node := GetNode(current);
        if node == Free {
          return;
        }
        if node.Leaf? {
          i := |a|;
          leafId := current;
          Between3(a, t, b);
          return;
        }
        SeparatorsIncrease(t, h, maxKeys);
        var idx := UpperBound(node.keys, key);
        if idx >= |node.children| {
          return;
        }
        TipsDescend(t, h, maxKeys, idx, key, a, b);
        ChildSub(nodes, t, h, maxKeys, after, idx, key);
        current := node.children[idx];
        a, b := a + TipsAll(t.kids[..idx]), TipsAll(t.kids[idx + 1..]) + b;
        t, h, after := t.kids[idx], h - 1, Follow(t.kids, idx, after);
      }
      return;
    }

    /** Look `key` up: found exactly when it occurs anywhere in the tree. */
    method Get(key: Bytes) returns (s: Status, value: Bytes)
      requires Valid()
      ensures key in Model() ==> s == OK && value == Model()[key]
      ensures key !in Model() ==> s == NotFound
    {
      value := [];
      var leafId, i := FindLeaf(key);
      var leaf := GetNode(leafId);
      LeafOf(nodes, shape, height - 1, maxKeys, i);
      LeafDecides(shape, i, key);
      ghost var tip := Tips(shape)[i];
      if leaf == Free {
        return InternalError, value;
      }
      KeysIncrease(leaf, tip.es, tip.next);
      var pos := LowerBound(leaf.keys, key);
      LeafHas(leaf, tip.es, tip.next, pos, key);
      if pos < |leaf.keys| {
        CompareIsRank(leaf.keys[pos], key);
      }
      if pos < |leaf.keys| && Compare(leaf.keys[pos], key) == 0 {
        LeafValue(shape, i, pos);
        return OK, leaf.values[pos];
      }
      return NotFound, value;
    }

    // ---- rebalancing

    /** A leaf takes the last entry of its left neighbour. */
    method BorrowLastEntry(leftId: Id, childId: Id, ghost l: Tree, ghost r: Tree, ghost after: Id)
        returns (ghost out: seq<Tree>)
      requires Pool() && maxKeys >= 3 && Neighbours(nodes, l, r, 0, maxKeys, after) && l.Tip? && r.Tip?
      requires leftId == l.id && childId == r.id && Count(l) > maxKeys / 2 && Count(r) + 1 == maxKeys / 2
      modifies `nodes
      ensures Pool() && |out| == 2 && Rebalanced(old(nodes), nodes, l, r, out, 0, maxKeys, after)
      ensures IdsAll(out) == Ids(l) + Ids(r)
    {
      ghost var n0 := nodes;
      var left, child := nodes[leftId], nodes[childId];
      var n := |left.keys|;
      var right' := Leaf([left.keys[n - 1]] + child.keys, [left.values[n - 1]] + child.values, child.next);
      var left' := Leaf(left.keys[..n - 1], left.values[..n - 1], left.next);
      TipsShare(n0, l, r, l.es[..n - 1], [l.es[n - 1]] + r.es, left', right', after, maxKeys);
      SetNode(leftId, left');
      SetNode(childId, right');
      out := [Tip(l.id, l.es[..n - 1], r.id), Tip(r.id, [l.es[n - 1]] + r.es, after)];
    }

    /** A leaf takes the first entry of its right neighbour. */
    method BorrowFirstEntry(childId: Id, rightId: Id, ghost l: Tree, ghost r: Tree, ghost after: Id)
        returns (ghost out: seq<Tree>)
      requires Pool() && maxKeys >= 3 && Neighbours(nodes, l, r, 0, maxKeys, after) && l.Tip? && r.Tip?
      requires childId == l.id && rightId == r.id && Count(r) > maxKeys / 2 && Count(l) + 1 == maxKeys / 2
      modifies `nodes
      ensures Pool() && |out| == 2 && Rebalanced(old(nodes), nodes, l, r, out, 0, maxKeys, after)
      ensures IdsAll(out) == Ids(l) + Ids(r)
      ensures |nodes[rightId].keys| > 0
    {
      ghost var n0 := nodes;
      var child, right := nodes[childId], nodes[rightId];
      var left' := Leaf(child.keys + [right.keys[0]], child.values + [right.values[0]], child.next);
      var right' := Leaf(right.keys[1..], right.values[1..], right.next);
      TipsShare(n0, l, r, l.es + [r.es[0]], r.es[1..], left', right', after, maxKeys);
      SetNode(childId, left');
      SetNode(rightId, right');
      out := [Tip(l.id, l.es + [r.es[0]], r.id), Tip(r.id, r.es[1..], after)];
    }

    /** A leaf takes over everything in its right neighbour and its place in the chain. */
    method JoinLeaves(leftId: Id, rightId: Id, ghost l: Tree, ghost r: Tree, ghost after: Id)
        returns (ghost out: seq<Tree>)
      requires Pool() && maxKeys >= 3 && Neighbours(nodes, l, r, 0, maxKeys, after) && l.Tip? && r.Tip?
      requires leftId == l.id && rightId == r.id && Count(l) + Count(r) + 1 == 2 * (maxKeys / 2)
      modifies `nodes
      ensures leftId != rightId && rightId < |nodes| == |old(nodes)| && nodes[rightId] == old(nodes)[rightId]
      ensures Pool() && |out| == 1 && Rebalanced(old(nodes), nodes[rightId := Free], l, r, out, 0, maxKeys, after)
      ensures |IdsAll(out)| + 1 == |Ids(l)| + |Ids(r)|
    {
      ghost var n0 := nodes;
      var left, right := nodes[leftId], nodes[rightId];
      var left' := Leaf(left.keys + right.keys, left.values + right.values, right.next);
      JoinTips(n0, l, r, left', after, maxKeys);
      SetNode(leftId, left');
      out := [Tip(l.id, l.es + r.es, after)];
      assert |IdsAll(out) + multiset{r.id}| == |Ids(l) + Ids(r)|;
    }

    method BorrowLastChildOf(leftId: Id, childId: Id, sep: Bytes, ghost l: Tree, ghost r: Tree, ghost h: nat,
                             ghost after: Id)
      returns (up: Bytes, ghost out: seq<Tree>)
      requires Pool() && maxKeys >= 3 && Neighbours(nodes, l, r, h, maxKeys, after) && l.Fork? && r.Fork?
      requires leftId == l.id && childId == r.id && Count(l) > maxKeys / 2 && Count(r) + 1 == maxKeys / 2
      requires sep == FirstKey(r)
      modifies `nodes
      ensures Pool() && |out| == 2 && Rebalanced(old(nodes), nodes, l, r, out, h, maxKeys, after)
      ensures IdsAll(out) == Ids(l) + Ids(r)
    {
      ghost var n0 := nodes;
      var left, child := nodes[leftId], nodes[childId];
      var n := |left.keys|;
      var right' := Internal([sep] + child.keys, [left.children[n]] + child.children);
      var left' := Internal(left.keys[..n - 1], left.children[..n]);
      up := left.keys[n - 1];
      BorrowLastChild(n0, l, r, sep, left', right', after, h, maxKeys);
      SetNode(leftId, left');
      SetNode(childId, right');
      out := [Fork(l.id, left'.keys, l.kids[..n]), Fork(r.id, right'.keys, [l.kids[n]] + r.kids)];
    }

    method BorrowFirstChildOf(childId: Id, rightId: Id, sep: Bytes, ghost l: Tree, ghost r: Tree, ghost h: nat,
                              ghost after: Id)
      returns (up: Bytes, ghost out: seq<Tree>)
      requires Pool() && maxKeys >= 3 && Neighbours(nodes, l, r, h, maxKeys, after) && l.Fork? && r.Fork?
      requires childId == l.id && rightId == r.id && Count(r) > maxKeys / 2 && Count(l) + 1 == maxKeys / 2
      requires sep == FirstKey(r)
      modifies `nodes
      ensures Pool() && |out| == 2 && Rebalanced(old(nodes), nodes, l, r, out, h, maxKeys, after)
      ensures IdsAll(out) == Ids(l) + Ids(r)
    {
      ghost var n0 := nodes;
      var child, right := nodes[childId], nodes[rightId];
      var left' := Internal(child.keys + [sep], child.children + [right.children[0]]);
      var right' := Internal(right.keys[1..], right.children[1..]);
      up := right.keys[0];
      BorrowFirstChild(n0, l, r, sep, left', right', after, h, maxKeys);
      SetNode(childId, left');
      SetNode(rightId, right');
      out := [Fork(l.id, left'.keys, l.kids + [r.kids[0]]), Fork(r.id, right'.keys, r.kids[1..])];
    }

    method JoinInternals(leftId: Id, rightId: Id, sep: Bytes, ghost l: Tree, ghost r: Tree, ghost h: nat,
                         ghost after: Id)
      returns (ghost out: seq<Tree>)
      requires Pool() && maxKeys >= 3 && Neighbours(nodes, l, r, h, maxKeys, after) && l.Fork? && r.Fork?
      requires leftId == l.id && rightId == r.id && Count(l) + Count(r) + 1 == 2 * (maxKeys / 2)
      requires sep == FirstKey(r)
      modifies `nodes
      ensures leftId != rightId && rightId < |nodes| == |old(nodes)| && nodes[rightId] == old(nodes)[rightId]
      ensures Pool() && |out| == 1 && Rebalanced(old(nodes), nodes[rightId := Free], l, r, out, h, maxKeys, after)
      ensures |IdsAll(out)| + 1 == |Ids(l)| + |Ids(r)|
    {
      ghost var n0 := nodes;
      var left, right := nodes[leftId], nodes[rightId];
      var left' := Internal(left.keys + [sep] + right.keys, left.children + right.children);
      JoinForks(n0, l, r, sep, left', after, h, maxKeys);
      SetNode(leftId, left');
      out := [Fork(l.id, left'.keys, l.kids + r.kids)];
      assert |IdsAll(out) + multiset{r.id}| == |Ids(l) + Ids(r)|;
    }

    /** The smallest key below a node, found by walking down its left edge. */
    method FirstKeyOfSubtree(id: Id, ghost t: Tree) returns (k: Bytes)
      requires Pool() && Rep(nodes, t) && t.id == id
      ensures k == FirstKey(t)
      decreases t
    {
      var node := GetNode(id);
      if node == Free {
        return [];
      }
      if node.Leaf? {
        return if node.keys == [] then [] else node.keys[0];
      }
      if node.children == [] {
        return [];
      }
      k := FirstKeyOfSubtree(node.children[0], t.kids[0]);
    }

    /** Recompute the separator in front of child i. */
    method UpdateSeparator(id: Id, i: nat, ghost n0: seq<Node>, ghost t: Tree, ghost t1: Tree, ghost h: nat,
                           ghost after: Id)
      returns (ghost t2: Tree)
      requires Pool() && maxKeys >= 3 && Repaired(n0, nodes, t, t1, h, maxKeys, after) && 0 < i < |t1.kids|
      requires t.id == id && id in Ids(t) && Live(n0, id) == 1
      modifies `nodes
      ensures Pool() && Repaired(n0, nodes, t, t2, h, maxKeys, after) && Ids(t2) == Ids(t1)
      ensures t2 == Fork(id, t1.seps[i - 1 := FirstKey(t1.kids[i])], t1.kids)
    {
      var node := nodes[id];
      assert RepAll(nodes, t1.kids);
      var first := FirstKeyOfSubtree(node.children[i], t1.kids[i]);
      FirstKeyIsFirst(t1.kids[i], h - 1, maxKeys);
      Reseparate(n0, nodes, t, t1, t1.seps[i - 1 := first], h, maxKeys, after);
      t2 := t1;
      if first != [] {
        SetNode(id, Internal(node.keys[i - 1 := first], node.children));
        t2 := Fork(id, t1.seps[i - 1 := first], t1.kids);
      }
    }

    /** Recompute every separator. */
    method RefreshSeparators(id: Id, ghost n0: seq<Node>, ghost t: Tree, ghost t1: Tree, ghost h: nat, ghost after: Id)
      returns (ghost t2: Tree)
      requires Pool() && maxKeys >= 3 && Repaired(n0, nodes, t, t1, h, maxKeys, after)
      requires t.id == id && id in Ids(t) && Live(n0, id) == 1
      modifies `nodes
      ensures Pool() && Repaired(n0, nodes, t, t2, h, maxKeys, after) && Ids(t2) == Ids(t1)
      ensures Exact(t2.seps, t2.kids)
    {
      t2 := t1;
      var i := 1;
      while i < |nodes[id].children|
        invariant Pool() && Repaired(n0, nodes, t, t2, h, maxKeys, after) && Ids(t2) == Ids(t1)
        invariant t2.kids == t1.kids && 1 <= i <= |t2.kids|
        invariant forall j :: 0 <= j < i - 1 ==> t2.seps[j] == FirstKey(t2.kids[j + 1])
        decreases |t2.kids| - i
      {
        t2 := UpdateSeparator(id, i, n0, t, t2, h, after);
        i := i + 1;
      }
    }

    /** The left neighbour has a key to spare. */
    method BorrowLeft(id: Id, idx: nat, ghost t: Tree, ghost h: nat, ghost after: Id) returns (ghost t2: Tree)
      requires Pool() && maxKeys >= 3 && Loose(nodes, t, after) && t.id == id
      requires Underfull(t, idx, h, maxKeys) && 0 < idx && Count(t.kids[idx - 1]) > maxKeys / 2
      modifies `nodes
      ensures Pool() && Repaired(old(nodes), nodes, t, t2, h, maxKeys, after) && |Ids(t2)| == |Ids(t)|
    {
      ghost var n0 := nodes;
      NeighboursOf(n0, t, idx - 1, idx, h, maxKeys, after);
      var node := nodes[id];
      var keys;
      ghost var out;
      keys, out := BorrowFromLeft(node.keys, idx, node.children[idx - 1], node.children[idx],
                                  t.kids[idx - 1], t.kids[idx], h - 1, Follow(t.kids, idx, after));
      PairNames(node.children, t.kids, idx - 1, out);
      PairSurgery(n0, nodes, t, idx - 1, idx, out, keys, node.children, h, maxKeys, after);
      SetNode(id, Internal(keys, node.children));
      t2 := UpdateSeparator(id, idx, n0, t, Fork(id, keys, Pair(t.kids, idx - 1, out)), h, after);
    }

    method BorrowFromLeft(seps: seq<Bytes>, idx: nat, leftId: Id, childId: Id, ghost l: Tree, ghost r: Tree,
                          ghost h: nat, ghost after: Id)
      returns (keys: seq<Bytes>, ghost out: seq<Tree>)
      requires Pool() && maxKeys >= 3 && Neighbours(nodes, l, r, h, maxKeys, after) && (l.Tip? <==> r.Tip?)
      requires leftId == l.id && childId == r.id && Count(l) > maxKeys / 2 && Count(r) + 1 == maxKeys / 2
      requires 0 < idx <= |seps| && (FirstKey(r) != [] ==> seps[idx - 1] == FirstKey(r))
      modifies `nodes
      ensures Pool() && |out| == 2 && Rebalanced(old(nodes), nodes, l, r, out, h, maxKeys, after)
      ensures IdsAll(out) == Ids(l) + Ids(r) && |keys| == |seps|
    {
      if nodes[childId].Leaf? {
        keys := seps;
        out := BorrowLastEntry(leftId, childId, l, r, after);
      } else {
        var up;
        FirstKeyIsFirst(r, h, maxKeys);
        up, out := BorrowLastChildOf(leftId, childId, seps[idx - 1], l, r, h, after);
        keys := seps[idx - 1 := up];
      }
    }

    /** The right neighbour has a key to spare. */
    method BorrowRight(id: Id, idx: nat, ghost t: Tree, ghost h: nat, ghost after: Id) returns (ghost t2: Tree)
      requires Pool() && maxKeys >= 3 && Loose(nodes, t, after) && t.id == id
      requires Underfull(t, idx, h, maxKeys) && idx + 1 < |t.kids| && Count(t.kids[idx + 1]) > maxKeys / 2
      modifies `nodes
      ensures Pool() && Repaired(old(nodes), nodes, t, t2, h, maxKeys, after) && |Ids(t2)| == |Ids(t)|
    {
      ghost var n0 := nodes;
      NeighboursOf(n0, t, idx, idx, h, maxKeys, after);
      var node := nodes[id];
      var up;
      ghost var out;
      up, out := BorrowFromRight(node.keys[idx], node.children[idx], node.children[idx + 1],
                                 t.kids[idx], t.kids[idx + 1], h - 1, Follow(t.kids, idx + 1, after));
      PairNames(node.children, t.kids, idx, out);
      PairSurgery(n0, nodes, t, idx, idx, out, node.keys[idx := up], node.children, h, maxKeys, after);
      SetNode(id, Internal(node.keys[idx := up], node.children));
      t2 := Fork(id, node.keys[idx := up], Pair(t.kids, idx, out));
    }

    method BorrowFromRight(sep: Bytes, childId: Id, rightId: Id, ghost l: Tree, ghost r: Tree, ghost h: nat,
                           ghost after: Id)
      returns (up: Bytes, ghost out: seq<Tree>)
      requires Pool() && maxKeys >= 3 && Neighbours(nodes, l, r, h, maxKeys, after) && (l.Tip? <==> r.Tip?)
      requires childId == l.id && rightId == r.id && Count(r) > maxKeys / 2 && Count(l) + 1 == maxKeys / 2
      requires FirstKey(r) != [] ==> sep == FirstKey(r)
      modifies `nodes
      ensures Pool() && |out| == 2 && Rebalanced(old(nodes), nodes, l, r, out, h, maxKeys, after)
      ensures IdsAll(out) == Ids(l) + Ids(r)
    {
      if nodes[childId].Leaf? {
        out := BorrowFirstEntry(childId, rightId, l, r, after);
        up := nodes[rightId].keys[0];
      } else {
        FirstKeyIsFirst(r, h, maxKeys);
        up, out := BorrowFirstChildOf(childId, rightId, sep, l, r, h, after);
      }
    }

    /** Merge child i + 1 into child i and free its node. */
    method Merge(id: Id, i: nat, ghost idx: nat, ghost t: Tree, ghost h: nat, ghost after: Id) returns (ghost t2: Tree)
      requires Pool() && maxKeys >= 3 && Loose(nodes, t, after) && t.id == id && nodeCount >= |Ids(t)|
      requires Underfull(t, idx, h, maxKeys) && i <= idx <= i + 1 < |t.kids|
      requires Count(t.kids[i]) + Count(t.kids[i + 1]) + 1 == 2 * (maxKeys / 2)
      modifies `nodes, `nodeFree, `freeList, `nodeCount
      ensures Pool() && Repaired(old(nodes), nodes, t, t2, h, maxKeys, after)
      ensures nodeCount + |Ids(t)| == old(nodeCount) + |Ids(t2)|
    {
      ghost var n0 := nodes;
      NeighboursOf(n0, t, i, idx, h, maxKeys, after);
      var node := nodes[id];
      var rightId := node.children[i + 1];
      ghost var out := JoinChildren(node.keys[i], node.children[i], rightId, t.kids[i], t.kids[i + 1], h - 1,
                                    Follow(t.kids, i + 1, after));
      t2 := DropChild(id, i, rightId, idx, n0, t, out, h, after);
    }

    /** Child i + 1 was merged into child i: take it out of the parent and free it. */
    method DropChild(id: Id, i: nat, rightId: Id, ghost idx: nat, ghost n0: seq<Node>, ghost t: Tree,
                     ghost out: seq<Tree>, ghost h: nat, ghost after: Id) returns (ghost t2: Tree)
      requires Pool() && maxKeys >= 3 && Loose(n0, t, after) && t.id == id && nodeCount > 0
      requires Underfull(t, idx, h, maxKeys) && i <= idx <= i + 1 < |t.kids|
      requires rightId == t.kids[i + 1].id && rightId != id && rightId < |nodes| && nodes[rightId] != Free
      requires |out| == 1 && Rebalanced(n0, nodes[rightId := Free], t.kids[i], t.kids[i + 1], out, h - 1, maxKeys,
                                        Follow(t.kids, i + 1, after))
      modifies `nodes, `nodeFree, `freeList, `nodeCount
      ensures Pool() && Repaired(n0, nodes, t, t2, h, maxKeys, after)
      ensures nodeCount == old(nodeCount) - 1
      ensures |Ids(t2)| + |Ids(t.kids[i])| + |Ids(t.kids[i + 1])| == |Ids(t)| + |IdsAll(out)|
    {
      ghost var n1 := nodes[rightId := Free];
      NeighboursOf(n0, t, i, idx, h, maxKeys, after);
      MergeNames(n0[id].children, t.kids, i, out);
      PairSurgery(n0, n1, t, i, idx, out, t.seps[..i] + t.seps[i + 1..],
                  n0[id].children[..i + 1] + n0[id].children[i + 2..], h, maxKeys, after);
      var node := nodes[id];
      node := Internal(node.keys[..i] + node.keys[i + 1..], node.children[..i + 1] + node.children[i + 2..]);
      UpdatesCommute(nodes, id, node, rightId, Free);
      t2 := Fork(id, node.keys, Pair(t.kids, i, out));
      RewriteAndFree(id, node, rightId);
    }

    method RewriteAndFree(id: Id, node: Node, freed: Id)
      requires Pool() && nodeCount > 0 && node != Free && id != freed
      requires id < |nodes| && nodes[id] != Free && freed < |nodes| && nodes[freed] != Free
      modifies `nodes, `nodeFree, `freeList, `nodeCount
      ensures Pool() && nodes == old(nodes)[id := node][freed := Free]
      ensures freeList == old(freeList) + [freed] && nodeCount == old(nodeCount) - 1
    {
      SetNode(id, node);
      FreeNode(freed);
    }

    method JoinChildren(sep: Bytes, leftId: Id, rightId: Id, ghost l: Tree, ghost r: Tree, ghost h: nat,
                        ghost after: Id)
      returns (ghost out: seq<Tree>)
      requires Pool() && maxKeys >= 3 && Neighbours(nodes, l, r, h, maxKeys, after) && (l.Tip? <==> r.Tip?)
      requires leftId == l.id && rightId == r.id && Count(l) + Count(r) + 1 == 2 * (maxKeys / 2)
      requires FirstKey(r) != [] ==> sep == FirstKey(r)
      modifies `nodes
      ensures leftId != rightId && rightId < |nodes| == |old(nodes)| && nodes[rightId] == old(nodes)[rightId]
      ensures nodes[rightId] != Free
      ensures Pool() && |out| == 1 && Rebalanced(old(nodes), nodes[rightId := Free], l, r, out, h, maxKeys, after)
      ensures |IdsAll(out)| + 1 == |Ids(l)| + |Ids(r)|
    {
      if nodes[leftId].Leaf? {
        out := JoinLeaves(leftId, rightId, l, r, after);
      } else {
        FirstKeyIsFirst(r, h, maxKeys);
        out := JoinInternals(leftId, rightId, sep, l, r, h, after);
      }
    }

    /** Child idx has too few keys: borrow from a neighbour that can spare one, else merge. */
    method Rebalance(id: Id, idx: nat, ghost t: Tree, ghost h: nat, ghost after: Id) returns (ghost t2: Tree)
      requires Pool() && maxKeys >= 3 && Loose(nodes, t, after) && t.id == id && nodeCount >= |Ids(t)|
      requires Underfull(t, idx, h, maxKeys) && Count(t) >= 1
      modifies `nodes, `nodeFree, `freeList, `nodeCount
      ensures Pool() && Repaired(old(nodes), nodes, t, t2, h, maxKeys, after)
      ensures nodeCount + |Ids(t)| == old(nodeCount) + |Ids(t2)|
    {
      t2 := t;
      var minKeys := maxKeys / 2;
      var children := nodes[id].children;
      KidSizes(nodes, t, idx, h, maxKeys);
      if idx > 0 {
        var left := GetNode(children[idx - 1]);
        if left != Free && |left.keys| > minKeys {
          t2 := BorrowLeft(id, idx, t, h, after);
          return;
        }
      }
      if idx + 1 < |children| {
        var right := GetNode(children[idx + 1]);
        if right != Free && |right.keys| > minKeys {
          t2 := BorrowRight(id, idx, t, h, after);
          return;
        }
      }
      if idx > 0 {
        t2 := Merge(id, idx - 1, idx, t, h, after);
      } else if idx + 1 < |children| {
        t2 := Merge(id, idx, idx, t, h, after);
      }
    }

    // ---- deletion

    method EraseFromLeaf(id: Id, isRoot: bool, key: Bytes, ghost t: Tree)
      returns (s: Status, underflow: bool, firstKey: Bytes, ghost t1: Tree)
      requires Pool() && maxKeys >= 3
      requires t.Tip? && t.id == id && Sub(nodes, t, 0, maxKeys, t.next)
      modifies `nodes
      ensures Pool()
      ensures s == if HasKey(t.es, key) then OK else NotFound
      ensures s == NotFound ==> nodes == old(nodes)
      ensures s == OK ==> Erased(old(nodes), nodes, t, t1, 0, maxKeys, t.next, key) && Ids(t1) == Ids(t) && t1.Tip?
      ensures s == OK ==> firstKey == FirstKey(t1) && (underflow <==> !isRoot && Count(t1) < maxKeys / 2)
    {
      underflow, firstKey, t1 := false, [], t;
      var leaf := nodes[id];
      KeysIncrease(leaf, t.es, t.next);
      var pos := LowerBound(leaf.keys, key);
      LeafHas(leaf, t.es, t.next, pos, key);
      if pos < |leaf.keys| {
        CompareIsRank(leaf.keys[pos], key);
      }
      if pos >= |leaf.keys| || Compare(leaf.keys[pos], key) != 0 {
        return NotFound, underflow, firstKey, t1;
      }
      s := OK;
      t1 := t.(es := t.es[..pos] + t.es[pos + 1..]);
      leaf := leaf.(keys := leaf.keys[..pos] + leaf.keys[pos + 1..],
                    values := leaf.values[..pos] + leaf.values[pos + 1..]);
      TipErased(nodes, t, leaf, pos, maxKeys, key);
      SetNode(id, leaf);
      firstKey := if leaf.keys == [] then [] else leaf.keys[0];
      underflow := !isRoot && |leaf.keys| < maxKeys / 2;
    }

    /** Delete `key` below a node; a missing key leaves the table as it is. */
    method Erase(id: Id, isRoot: bool, key: Bytes, ghost t: Tree, ghost h: nat, ghost after: Id)
      returns (s: Status, underflow: bool, firstKey: Bytes, ghost t1: Tree)
      requires Pool() && maxKeys >= 3 && nodeCount >= |Ids(t)|
      requires t.id == id && Sub(nodes, t, h, maxKeys, after) && (t.Fork? ==> Count(t) >= 1)
      modifies `nodes, `nodeFree, `freeList, `nodeCount
      ensures Pool()
      ensures s == if HasKey(Flat(t), key) then OK else NotFound
      ensures s == NotFound ==>
                unchanged(`nodes) && unchanged(`nodeFree) && unchanged(`freeList) && unchanged(`nodeCount)
      ensures s == OK ==> Erased(old(nodes), nodes, t, t1, h, maxKeys, after, key)
      ensures s == OK ==> firstKey == FirstKey(t1) && (underflow <==> !isRoot && Count(t1) < maxKeys / 2)
      ensures s == OK ==> nodeCount + |Ids(t)| == old(nodeCount) + |Ids(t1)|
      ensures s == OK ==> (t.Tip? <==> t1.Tip?)
      decreases t, 1
    {
      underflow, firstKey, t1 := false, [], t;
      var node := GetNode(id);
      if node == Free {
        return InternalError, underflow, firstKey, t1;
      }
      if node.Leaf? {
        s, underflow, firstKey, t1 := EraseFromLeaf(id, isRoot, key, t);
      } else {
        s, firstKey, t1 := EraseFromInternal(id, key, t, h, after);
        underflow := s == OK && !isRoot && |nodes[id].keys| < maxKeys / 2;
      }
    }

    method EraseFromInternal(id: Id, key: Bytes, ghost t: Tree, ghost h: nat, ghost after: Id)
      returns (s: Status, firstKey: Bytes, ghost t1: Tree)
      requires Pool() && maxKeys >= 3 && nodeCount >= |Ids(t)|
      requires t.Fork? && t.id == id && Sub(nodes, t, h, maxKeys, after) && Count(t) >= 1
      modifies `nodes, `nodeFree, `freeList, `nodeCount
      ensures Pool() && id < |nodes| && nodes[id] != Free
      ensures s == if HasKey(Flat(t), key) then OK else NotFound
      ensures s == NotFound ==>
                unchanged(`nodes) && unchanged(`nodeFree) && unchanged(`freeList) && unchanged(`nodeCount)
      ensures s == OK ==> Erased(old(nodes), nodes, t, t1, h, maxKeys, after, key) && t1.Fork?
      ensures s == OK ==> firstKey == FirstKey(t1) && |nodes[id].keys| == Count(t1)
      ensures s == OK ==> nodeCount + |Ids(t)| == old(nodeCount) + |Ids(t1)|
      decreases t, 0
    {
      firstKey, t1 := [], t;
      ghost var n0 := nodes;
      var node := nodes[id];
      SeparatorsIncrease(t, h, maxKeys);
      var idx := UpperBound(node.keys, key);
      if idx >= |node.children| {
        return InternalError, firstKey, t1;
      }
      ChildSub(nodes, t, h, maxKeys, after, idx, key);
      var childUnderflow;
      ghost var x;
      s, childUnderflow, firstKey, x := Erase(node.children[idx], false, key, t.kids[idx], h - 1,
                                              Follow(t.kids, idx, after));
      if s == OK {
        firstKey, t1 := Mend(id, idx, childUnderflow, firstKey, n0, t, x, h, after, key);
      }
    }

    /** Child idx was deleted from: refresh its separator and repair the node. */
    method Mend(id: Id, idx: nat, childUnderflow: bool, childFirst: Bytes, ghost n0: seq<Node>, ghost t: Tree,
                ghost x: Tree, ghost h: nat, ghost after: Id, ghost key: Bytes)
      returns (firstKey: Bytes, ghost t1: Tree)
      requires Pool() && maxKeys >= 3 && t.Fork? && t.id == id && idx < |t.kids|
      requires Sub(n0, t, h, maxKeys, after) && Count(t) >= 1
      requires idx > 0 ==> Rank(t.seps[idx - 1]) <= Rank(key)
      requires idx < |t.seps| ==> Rank(key) < Rank(t.seps[idx])
      requires Erased(n0, nodes, t.kids[idx], x, h - 1, maxKeys, Follow(t.kids, idx, after), key)
      requires childFirst == FirstKey(x) && (childUnderflow <==> Count(x) < maxKeys / 2)
      requires nodeCount + |Ids(t.kids[idx])| >= |Ids(t)| + |Ids(x)|
      modifies `nodes, `nodeFree, `freeList, `nodeCount
      ensures Pool() && Erased(n0, nodes, t, t1, h, maxKeys, after, key) && t1.Fork?
      ensures firstKey == FirstKey(t1)
      ensures nodeCount + |Ids(t)| + |Ids(x)| == old(nodeCount) + |Ids(t.kids[idx])| + |Ids(t1)|
    {
      GraftErased(n0, nodes, t, x, idx, h, maxKeys, after, key);
      ghost var ks := Graft(t.kids, idx, [x]);
      var node := nodes[id];
      var keys := Refreshed(node.keys, idx, childFirst);
      LooseReseparate(nodes, Fork(id, t.seps, ks), keys, after);
      RefreshedNear(t, x, idx, h, maxKeys);
      ghost var nA, t2 := nodes, Fork(id, keys, ks);
      SetNode(id, Internal(keys, node.children));
      ghost var n1 := nodes;
      Rewritten(nA, id, n1[id], Ids(t2));
      firstKey, t1 := Repair(id, idx, childUnderflow, t2, h, after);
      MendDone(n0, nA, n1, nodes, t, t2, t1, h, maxKeys, after, key);
    }

    method Repair(id: Id, idx: nat, childUnderflow: bool, ghost t: Tree, ghost h: nat, ghost after: Id)
      returns (firstKey: Bytes, ghost t1: Tree)
      requires Pool() && maxKeys >= 3 && Loose(nodes, t, after) && t.id == id && nodeCount >= |Ids(t)|
      requires h > 0 && idx < |t.kids| && Count(t) >= 1
      requires if childUnderflow then Underfull(t, idx, h, maxKeys) else Forest(t.kids, h - 1, maxKeys)
      modifies `nodes, `nodeFree, `freeList, `nodeCount
      ensures Pool() && Repaired(old(nodes), nodes, t, t1, h, maxKeys, after) && Exact(t1.seps, t1.kids)
      ensures firstKey == FirstKey(t1) && Body(t1, h, maxKeys)
      ensures nodeCount + |Ids(t)| == old(nodeCount) + |Ids(t1)|
    {
      t1 := t;
      if childUnderflow {
        t1 := Rebalance(id, idx, t, h, after);
      }
      assert Live(old(nodes), id) == 1 && id in Ids(t);
      t1 := RefreshSeparators(id, old(nodes), t, t1, h, after);
      assert RepAll(nodes, t1.kids);
      firstKey := FirstKeyOfSubtree(nodes[id].children[0], t1.kids[0]);
    }

    /** Delete `key`: the tree's map loses it; a missing key changes nothing at all. */
    method Delete(key: Bytes) returns (s: Status)
      requires Valid()
      modifies this
      ensures Valid()
      ensures s == if key in old(Model()) then OK else NotFound
      ensures s == NotFound ==> unchanged(this)
      ensures s == OK ==> Flat(shape) == DelRun(old(Flat(shape)), key) && size == old(size) - 1
      ensures Model() == old(Model()) - {key}
    {
      EmptyHasNothing(Flat(shape), key);
      if size == 0 {
        return NotFound;
      }
      ghost var m, t1 := Model(), shape;
      s, t1 := EraseAtRoot(key);
      if s == OK {
        size := size - 1;
        CollapseRoot(t1);
      } else {
        assert m - {key} == m;
      }
    }

    method EraseAtRoot(key: Bytes) returns (s: Status, ghost t1: Tree)
      requires Valid()
      modifies `nodes, `nodeFree, `freeList, `nodeCount
      ensures s == if key in old(Model()) then OK else NotFound
      ensures s == NotFound ==> unchanged(this)
      ensures s == OK ==> Pool() && Shrunk(nodes, t1, height - 1, maxKeys) && t1.id == rootId
      ensures s == OK ==> nodeCount == |Ids(t1)| && (t1.Tip? <==> rootIsLeaf)
      ensures s == OK ==> Flat(t1) == DelRun(Flat(shape), key) && |Flat(t1)| + 1 == |Flat(shape)|
      ensures s == OK ==> Contents(Flat(t1)) == old(Model()) - {key}
    {
      ghost var n0, t := nodes, shape;
      ghost var h: nat := height - 1;
      ContentsKeys(Flat(t), key);
      var underflow, firstKey;
      s, underflow, firstKey, t1 := Erase(rootId, true, key, t, h, 0);
      if s == OK {
        RootErased(n0, nodes, t, t1, h, maxKeys, key);
      }
    }

    /** An internal root left with a single child is freed and the child takes its place. */
    method CollapseRoot(ghost t1: Tree)
      requires maxKeys >= 3 && Pool() && height >= 1 && Shrunk(nodes, t1, height - 1, maxKeys)
      requires t1.id == rootId && (t1.Tip? <==> rootIsLeaf) && size == |Flat(t1)| && nodeCount == |Ids(t1)|
      modifies this
      ensures Valid() && Flat(shape) == Flat(t1) && size == old(size)
    {
      if !rootIsLeaf {
        var children := nodes[rootId].children;
        if |children| == 1 {
          DropRoot(children[0], t1);
          return;
        } else if |children| == 0 {
          assert false;
        }
      }
      shape := t1;
    }

    method DropRoot(child: Id, ghost t1: Tree)
      requires maxKeys >= 3 && Pool() && height >= 1 && Shrunk(nodes, t1, height - 1, maxKeys)
      requires t1.Fork? && Count(t1) == 0 && |t1.kids| == 1 && child == t1.kids[0].id
      requires t1.id == rootId && size == |Flat(t1)| && nodeCount == |Ids(t1)|
      modifies this
      ensures Valid() && Flat(shape) == Flat(t1) && size == old(size) && height == old(height) - 1
    {
      RootCollapse(nodes, t1, height - 1, maxKeys);
      var oldRoot := rootId;
      rootId := child;
      rootIsLeaf := GetNode(rootId).Leaf?;
      if height > 1 {
        height := height - 1;
      }
      shape := t1.kids[0];
      FreeNode(oldRoot);
    }
  }
}
