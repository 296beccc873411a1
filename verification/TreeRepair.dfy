/** Rebalancing two neighbouring children after a deletion. */
module TreeRepair {
  import opened KvTypes
  import opened Entries
  import opened TreeShape
  import opened TreeGraft

  /** Separators are exact wherever the child has a first key at all. */
  ghost predicate NearExact(seps: seq<Bytes>, kids: seq<Tree>) {
    && |kids| == |seps| + 1
    && forall i :: 0 <= i < |seps| ==> FirstKey(kids[i + 1]) != [] ==> seps[i] == FirstKey(kids[i + 1])
  }

  /** An internal node in the table whose separators may be out of date. */
  ghost predicate Loose(nodes: seq<Node>, t: Tree, after: Id) {
    && t.Fork?
    && |t.kids| == |t.seps| + 1
    && Rep(nodes, t)
    && Links(t, after)
    && Once(Ids(t))
  }

  /** Child idx has one key too few; all others are properly filled. */
  ghost predicate Underfull(t: Tree, idx: nat, h: nat, mx: nat) {
    && t.Fork? && h > 0 && idx < |t.kids|
    && NearExact(t.seps, t.kids)
    && (forall i :: 0 <= i < |t.kids| && i != idx ==> Good(t.kids[i], h - 1, mx))
    && Body(t.kids[idx], h - 1, mx)
    && Count(t.kids[idx]) + 1 == mx / 2
  }

  /** All children are properly filled again and nothing was lost. */
  ghost predicate Repaired(n0: seq<Node>, n1: seq<Node>, t: Tree, t1: Tree, h: nat, mx: nat, after: Id) {
    && h > 0
    && Loose(n1, t1, after)
    && t1.id == t.id
    && Forest(t1.kids, h - 1, mx)
    && Flat(t1) == Flat(t)
    && FirstLeaf(t1) == FirstLeaf(t)
    && Count(t) - 1 <= Count(t1) <= Count(t)
    && Frame(n0, n1, Ids(t))
    && Books(n0, n1, Ids(t), Ids(t1))
  }

  /** The siblings with children i and i + 1 replaced by the trees in `out`. */
  ghost function Pair(kids: seq<Tree>, i: nat, out: seq<Tree>): seq<Tree>
    requires i + 1 < |kids|
  {
    kids[..i] + out + kids[i + 2..]
  }

  lemma PairPieces(kids: seq<Tree>, i: nat, out: seq<Tree>, after: Id)
    requires i + 1 < |kids|
    ensures kids == kids[..i] + [kids[i], kids[i + 1]] + kids[i + 2..]
    ensures FlatAll(kids) == FlatAll(kids[..i]) + (Flat(kids[i]) + Flat(kids[i + 1])) + FlatAll(kids[i + 2..])
    ensures IdsAll(kids) == IdsAll(kids[..i]) + (Ids(kids[i]) + Ids(kids[i + 1])) + IdsAll(kids[i + 2..])
    ensures FlatAll(Pair(kids, i, out)) == FlatAll(kids[..i]) + FlatAll(out) + FlatAll(kids[i + 2..])
    ensures IdsAll(Pair(kids, i, out)) == IdsAll(kids[..i]) + IdsAll(out) + IdsAll(kids[i + 2..])
    ensures Head(kids[i + 2..], after) == Follow(kids, i + 1, after)
  {
    var m := [kids[i], kids[i + 1]];
    assert kids == kids[..i] + m + kids[i + 2..];
    Cut(kids[..i], m, kids[i + 2..], after);
    Cut(kids[..i], out, kids[i + 2..], after);
    Two(kids[i], kids[i + 1]);
  }

  lemma PairLinks(kids: seq<Tree>, i: nat, out: seq<Tree>, after: Id)
    requires i + 1 < |kids| && Linked(kids, after)
    requires out != [] && FirstLeaf(out[0]) == FirstLeaf(kids[i])
    requires Linked(out, Follow(kids, i + 1, after))
    ensures Linked(Pair(kids, i, out), after)
    ensures Head(Pair(kids, i, out), after) == Head(kids, after)
  {
    PairPieces(kids, i, out, after);
    Cut(kids[..i], [kids[i], kids[i + 1]], kids[i + 2..], after);
    Cut(kids[..i], out, kids[i + 2..], after);
  }

  lemma PairForest(t: Tree, i: nat, idx: nat, out: seq<Tree>, h: nat, mx: nat)
    requires Underfull(t, idx, h, mx) && i <= idx <= i + 1 < |t.kids|
    requires Forest(out, h - 1, mx)
    ensures Forest(Pair(t.kids, i, out), h - 1, mx)
  {
    ForestCat(t.kids[..i], out, h - 1, mx);
    ForestCat(t.kids[..i] + out, t.kids[i + 2..], h - 1, mx);
  }

  /** What two neighbours l, r became: the same entries, ids and links, properly filled. */
  ghost predicate Rebalanced(n0: seq<Node>, n1: seq<Node>, l: Tree, r: Tree, out: seq<Tree>,
                             h: nat, mx: nat, after: Id) {
    && 1 <= |out| <= 2
    && RepAll(n1, out)
    && Forest(out, h, mx)
    && FlatAll(out) == Flat(l) + Flat(r)
    && Linked(out, after)
    && out[0].id == l.id && (|out| == 2 ==> out[1].id == r.id)
    && FirstLeaf(out[0]) == FirstLeaf(l)
    && Frame(n0, n1, Ids(l) + Ids(r))
    && Books(n0, n1, Ids(l) + Ids(r), IdsAll(out))
  }

  /** The table after two neighbours and then their parent were rewritten. */
  lemma PairTable(n0: seq<Node>, n1: seq<Node>, t: Tree, i: nat, out: seq<Tree>, seps: seq<Bytes>, children: seq<Id>)
    requires t.Fork? && Rep(n0, t) && Once(Ids(t)) && i + 1 < |t.kids|
    requires RepAll(n1, out) && Names(children, Pair(t.kids, i, out))
    requires Frame(n0, n1, Ids(t.kids[i]) + Ids(t.kids[i + 1]))
    requires Books(n0, n1, Ids(t.kids[i]) + Ids(t.kids[i + 1]), IdsAll(out))
    ensures t.id < |n1| && n1[t.id] == n0[t.id]
    ensures var n2, t1 := n1[t.id := Internal(seps, children)], Fork(t.id, seps, Pair(t.kids, i, out));
            && Rep(n2, t1) && Once(Ids(t1))
            && Frame(n0, n2, Ids(t)) && Books(n0, n2, Ids(t), Ids(t1))
  {
    var m := Ids(t.kids[i]) + Ids(t.kids[i + 1]);
    PairPieces(t.kids, i, out, 0);
    assert Ids(t) == multiset{t.id} + (IdsAll(t.kids[..i]) + m + IdsAll(t.kids[i + 2..]));
    SpliceRep(n0, n1, t.id, t.kids[..i], m, t.kids[i + 2..], out);
    ForkRep(n1, t.id, seps, children, Pair(t.kids, i, out));
    PairTableFrame(n0, n1, t, Internal(seps, children), multiset{t.id} + IdsAll(Pair(t.kids, i, out)));
  }

  lemma PairTableFrame(n0: seq<Node>, n1: seq<Node>, t: Tree, node: Node, m1: multiset<Id>)
    requires Rep(n0, t) && Once(Ids(t)) && node != Free
    requires Frame(n0, n1, Ids(t)) && Books(n0, n1, Ids(t), m1) && n1[t.id] == n0[t.id]
    ensures Frame(n0, n1[t.id := node], Ids(t)) && Books(n0, n1[t.id := node], Ids(t), m1) && Once(m1)
  {
    assert Live(n0, t.id) == 1;
    assert t.id in Ids(t);
    OnceAfter(n0, n1, t, m1);
  }

  /** Replacing two neighbours in the parent repairs it. */
  lemma PairSurgery(n0: seq<Node>, n1: seq<Node>, t: Tree, i: nat, idx: nat, out: seq<Tree>,
                    seps: seq<Bytes>, children: seq<Id>, h: nat, mx: nat, after: Id)
    requires Loose(n0, t, after) && Underfull(t, idx, h, mx) && i <= idx <= i + 1 < |t.kids|
    requires Rebalanced(n0, n1, t.kids[i], t.kids[i + 1], out, h - 1, mx, Follow(t.kids, i + 1, after))
    requires |seps| + 2 == |t.seps| + |out| && Names(children, Pair(t.kids, i, out))
    ensures t.id < |n1| && n1[t.id] == n0[t.id]
    ensures Repaired(n0, n1[t.id := Internal(seps, children)], t, Fork(t.id, seps, Pair(t.kids, i, out)), h, mx, after)
    ensures |Ids(Fork(t.id, seps, Pair(t.kids, i, out)))| + |Ids(t.kids[i])| + |Ids(t.kids[i + 1])| ==
              |Ids(t)| + |IdsAll(out)|
  {
    PairTable(n0, n1, t, i, out, seps, children);
    PairPieces(t.kids, i, out, after);
    PairLinks(t.kids, i, out, after);
    PairForest(t, i, idx, out, h, mx);
  }

  /** What is known about two neighbours in an underfull parent. */
  ghost predicate Neighbours(nodes: seq<Node>, l: Tree, r: Tree, h: nat, mx: nat, after: Id) {
    && Rep(nodes, l) && Rep(nodes, r) && Once(Ids(l) + Ids(r))
    && Body(l, h, mx) && Body(r, h, mx)
    && Links(l, FirstLeaf(r)) && Links(r, after)
    && Count(l) <= mx && Count(r) <= mx
  }

  lemma NeighboursOf(nodes: seq<Node>, t: Tree, i: nat, idx: nat, h: nat, mx: nat, after: Id)
    requires Loose(nodes, t, after) && Underfull(t, idx, h, mx) && i <= idx <= i + 1 < |t.kids|
    ensures Neighbours(nodes, t.kids[i], t.kids[i + 1], h - 1, mx, Follow(t.kids, i + 1, after))
    ensures nodes[t.id].Internal? && nodes[t.id].keys == t.seps && Names(nodes[t.id].children, t.kids)
    ensures t.id != t.kids[i].id && t.id != t.kids[i + 1].id
    ensures FirstKey(t.kids[i + 1]) != [] ==> t.seps[i] == FirstKey(t.kids[i + 1])
    ensures t.kids[i].Tip? <==> t.kids[i + 1].Tip?
  {
    PairPieces(t.kids, i, [], after);
    OnceApart(t.id, IdsAll(t.kids[..i]), Ids(t.kids[i]) + Ids(t.kids[i + 1]), IdsAll(t.kids[i + 2..]));
    assert RepAll(nodes, t.kids) && Linked(t.kids, after);
    assert Links(t.kids[i], Follow(t.kids, i, after)) && Links(t.kids[i + 1], Follow(t.kids, i + 1, after));
    assert Good(t.kids[i], h - 1, mx) || Good(t.kids[i + 1], h - 1, mx);
  }

  lemma PairNames(children: seq<Id>, kids: seq<Tree>, i: nat, out: seq<Tree>)
    requires Names(children, kids) && i + 1 < |kids| && |out| == 2
    requires out[0].id == kids[i].id && out[1].id == kids[i + 1].id
    ensures Names(children, Pair(kids, i, out))
  {
  }

  lemma MergeNames(children: seq<Id>, kids: seq<Tree>, i: nat, out: seq<Tree>)
    requires Names(children, kids) && i + 1 < |kids| && |out| == 1 && out[0].id == kids[i].id
    ensures Names(children[..i + 1] + children[i + 2..], Pair(kids, i, out))
  {
  }

  /** Rewriting separators does not disturb a repaired node. */
  lemma Reseparate(n0: seq<Node>, n1: seq<Node>, t: Tree, t1: Tree, seps: seq<Bytes>, h: nat, mx: nat, after: Id)
    requires Repaired(n0, n1, t, t1, h, mx, after) && |seps| == |t1.seps| && t.id in Ids(t)
    requires Live(n0, t.id) == 1
    ensures var n2, t2 := n1[t1.id := Internal(seps, n1[t1.id].children)], Fork(t1.id, seps, t1.kids);
            Repaired(n0, n2, t, t2, h, mx, after) && Ids(t2) == Ids(t1)
  {
    LooseReseparate(n1, t1, seps, after);
  }

  lemma LooseReseparate(n1: seq<Node>, t1: Tree, seps: seq<Bytes>, after: Id)
    requires Loose(n1, t1, after) && |seps| == |t1.seps|
    ensures Loose(n1[t1.id := Internal(seps, n1[t1.id].children)], Fork(t1.id, seps, t1.kids), after)
  {
    assert Ids(t1)[t1.id] <= 1;
    ForkRep(n1, t1.id, seps, n1[t1.id].children, t1.kids);
  }

  // ---- two internal neighbours share out their children

  lemma RegroupRep(n0: seq<Node>, l: Tree, r: Tree, p: seq<Tree>, q: seq<Tree>, nl: Node, nr: Node)
    requires l.Fork? && r.Fork? && Rep(n0, l) && Rep(n0, r) && Once(Ids(l) + Ids(r))
    requires p + q == l.kids + r.kids
    requires nl.Internal? && nr.Internal? && Names(nl.children, p) && Names(nr.children, q)
    ensures l.id != r.id
    ensures var n1 := n0[l.id := nl][r.id := nr];
            && Rep(n1, Fork(l.id, nl.keys, p)) && Rep(n1, Fork(r.id, nr.keys, q))
            && Frame(n0, n1, Ids(l) + Ids(r))
            && Books(n0, n1, Ids(l) + Ids(r), Ids(l) + Ids(r))
  {
    var n1 := n0[l.id := nl][r.id := nr];
    PairApart(l, r);
    RepAllCat(n0, l.kids, r.kids);
    RepAllFrame(n0, n1, l.kids + r.kids);
    RepAllCat(n1, p, q);
  }

  lemma Regroup(n0: seq<Node>, l: Tree, r: Tree, p: seq<Tree>, q: seq<Tree>, nl: Node, nr: Node, after: Id)
    requires l.Fork? && r.Fork? && Rep(n0, l) && Rep(n0, r) && Once(Ids(l) + Ids(r))
    requires p + q == l.kids + r.kids && p != [] && q != [] && l.kids != [] && r.kids != []
    requires nl.Internal? && nr.Internal? && Names(nl.children, p) && Names(nr.children, q)
    requires Links(l, FirstLeaf(r)) && Links(r, after)
    ensures l.id != r.id
    ensures var n1, out := n0[l.id := nl][r.id := nr], [Fork(l.id, nl.keys, p), Fork(r.id, nr.keys, q)];
            && RepAll(n1, out)
            && FlatAll(out) == Flat(l) + Flat(r)
            && IdsAll(out) == Ids(l) + Ids(r)
            && Linked(out, after)
            && FirstLeaf(out[0]) == FirstLeaf(l)
            && Frame(n0, n1, Ids(l) + Ids(r))
            && Books(n0, n1, Ids(l) + Ids(r), IdsAll(out))
  {
    RegroupRep(n0, l, r, p, q, nl, nr);
    RegroupShape(l, r, p, q, nl.keys, nr.keys, after);
  }

  lemma RegroupShape(l: Tree, r: Tree, p: seq<Tree>, q: seq<Tree>, lk: seq<Bytes>, rk: seq<Bytes>, after: Id)
    requires l.Fork? && r.Fork? && p + q == l.kids + r.kids && p != [] && q != [] && l.kids != [] && r.kids != []
    requires Links(l, FirstLeaf(r)) && Links(r, after)
    ensures var out := [Fork(l.id, lk, p), Fork(r.id, rk, q)];
            && FlatAll(out) == Flat(l) + Flat(r)
            && IdsAll(out) == Ids(l) + Ids(r)
            && Linked(out, after)
            && FirstLeaf(out[0]) == FirstLeaf(l)
  {
    var l1, r1 := Fork(l.id, lk, p), Fork(r.id, rk, q);
    RegroupFlat(l, r, p, q, after);
    Two(l1, r1);
    Interchange(multiset{l.id}, IdsAll(p), multiset{r.id}, IdsAll(q), IdsAll(l.kids), IdsAll(r.kids));
    LinkedPair(l1, r1, after);
  }

  lemma Interchange(a: multiset<Id>, p: multiset<Id>, b: multiset<Id>, q: multiset<Id>, p': multiset<Id>,
                    q': multiset<Id>)
    requires p + q == p' + q'
    ensures (a + p) + (b + q) == (a + p') + (b + q')
  {
    assert (a + p) + (b + q) == (a + b) + (p + q);
    assert (a + p') + (b + q') == (a + b) + (p' + q');
  }

  lemma LinkedPair(l: Tree, r: Tree, after: Id)
    requires Links(l, FirstLeaf(r)) && Links(r, after)
    ensures Linked([l, r], after)
  {
  }

  lemma PairApart(l: Tree, r: Tree)
    requires l.Fork? && r.Fork? && Once(Ids(l) + Ids(r))
    ensures l.id != r.id
    ensures l.id !in IdsAll(l.kids + r.kids) && r.id !in IdsAll(l.kids + r.kids)
  {
    IdsCat(l.kids, r.kids);
    var all := Ids(l) + Ids(r);
    assert all[l.id] <= 1 && all[r.id] <= 1;
  }

  lemma RegroupFlat(l: Tree, r: Tree, p: seq<Tree>, q: seq<Tree>, after: Id)
    requires l.Fork? && r.Fork? && p + q == l.kids + r.kids && p != [] && q != [] && l.kids != [] && r.kids != []
    requires Links(l, FirstLeaf(r)) && Links(r, after)
    ensures FlatAll(p) + FlatAll(q) == Flat(l) + Flat(r)
    ensures IdsAll(p) + IdsAll(q) == IdsAll(l.kids) + IdsAll(r.kids)
    ensures Linked(p, FirstLeaf(q[0])) && Linked(q, after)
    ensures FirstLeaf(p[0]) == FirstLeaf(l)
  {
    FlatCat(p, q);
    FlatCat(l.kids, r.kids);
    IdsCat(p, q);
    IdsCat(l.kids, r.kids);
    LinkedCat(p, q, after);
    LinkedCat(l.kids, r.kids, after);
    assert p[0] == (p + q)[0] == l.kids[0];
  }

  lemma JoinForks(n0: seq<Node>, l: Tree, r: Tree, sep: Bytes, nl: Node, after: Id, h: nat, mx: nat)
    requires l.Fork? && r.Fork? && Rep(n0, l) && Rep(n0, r) && Once(Ids(l) + Ids(r))
    requires Body(l, h, mx) && Body(r, h, mx) && sep == FirstKey(r)
    requires Links(l, FirstLeaf(r)) && Links(r, after)
    requires nl.Internal? && nl.keys == l.seps + [sep] + r.seps && Names(nl.children, l.kids + r.kids)
    requires mx / 2 <= |l.seps| + |r.seps| + 1 <= mx
    ensures l.id != r.id
    ensures Rebalanced(n0, n0[l.id := nl][r.id := Free], l, r, [Fork(l.id, nl.keys, l.kids + r.kids)], h, mx, after)
    ensures IdsAll([Fork(l.id, nl.keys, l.kids + r.kids)]) + multiset{r.id} == Ids(l) + Ids(r)
  {
    JoinRep(n0, l, r, nl);
    JoinShape(l, r, nl.keys, sep, after, h, mx);
    One(Fork(l.id, nl.keys, l.kids + r.kids));
  }

  lemma JoinRep(n0: seq<Node>, l: Tree, r: Tree, nl: Node)
    requires l.Fork? && r.Fork? && Rep(n0, l) && Rep(n0, r) && Once(Ids(l) + Ids(r))
    requires nl.Internal? && Names(nl.children, l.kids + r.kids)
    ensures l.id != r.id
    ensures var n1, t := n0[l.id := nl][r.id := Free], Fork(l.id, nl.keys, l.kids + r.kids);
            && Rep(n1, t)
            && Ids(t) + multiset{r.id} == Ids(l) + Ids(r)
            && Frame(n0, n1, Ids(l) + Ids(r)) && Books(n0, n1, Ids(l) + Ids(r), Ids(t))
  {
    var n1, t := n0[l.id := nl][r.id := Free], Fork(l.id, nl.keys, l.kids + r.kids);
    PairApart(l, r);
    RepAllCat(n0, l.kids, r.kids);
    RepAllFrame(n0, n1, t.kids);
    IdsCat(l.kids, r.kids);
    assert Ids(t) + multiset{r.id} == Ids(l) + Ids(r);
    FreedBooks(n0, l.id, r.id, nl, Ids(l) + Ids(r), Ids(t));
  }

  lemma FreedBooks(n0: seq<Node>, l: Id, r: Id, nl: Node, m0: multiset<Id>, m1: multiset<Id>)
    requires l < |n0| && r < |n0| && l != r && n0[l] != Free && n0[r] != Free && nl != Free
    requires l in m0 && r in m0 && m1 + multiset{r} == m0
    ensures Frame(n0, n0[l := nl][r := Free], m0) && Books(n0, n0[l := nl][r := Free], m0, m1)
  {
    var n1 := n0[l := nl][r := Free];
    forall x: Id ensures m1[x] + Live(n0, x) == m0[x] + Live(n1, x) {
      assert (m1 + multiset{r})[x] == m0[x];
    }
  }

  lemma JoinShape(l: Tree, r: Tree, keys: seq<Bytes>, sep: Bytes, after: Id, h: nat, mx: nat)
    requires l.Fork? && r.Fork? && Body(l, h, mx) && Body(r, h, mx) && sep == FirstKey(r)
    requires Links(l, FirstLeaf(r)) && Links(r, after)
    requires keys == l.seps + [sep] + r.seps && mx / 2 <= |keys| <= mx
    ensures var t := Fork(l.id, keys, l.kids + r.kids);
            Good(t, h, mx) && Links(t, after) && Flat(t) == Flat(l) + Flat(r) && FirstLeaf(t) == FirstLeaf(l)
  {
    FlatCat(l.kids, r.kids);
    LinkedCat(l.kids, r.kids, after);
    JoinForest(l, r, h, mx);
    JoinExact(l, r, sep);
    assert (l.kids + r.kids)[0] == l.kids[0];
  }

  lemma JoinForest(l: Tree, r: Tree, h: nat, mx: nat)
    requires l.Fork? && r.Fork? && Body(l, h, mx) && Body(r, h, mx)
    ensures Forest(l.kids + r.kids, h - 1, mx)
  {
    ForestCat(l.kids, r.kids, h - 1, mx);
  }

  lemma JoinExact(l: Tree, r: Tree, sep: Bytes)
    requires l.Fork? && r.Fork? && Exact(l.seps, l.kids) && Exact(r.seps, r.kids) && sep == FirstKey(r)
    ensures Exact(l.seps + [sep] + r.seps, l.kids + r.kids)
  {
    var ss, ks := l.seps + [sep] + r.seps, l.kids + r.kids;
    forall i | 0 <= i < |ss| ensures ss[i] == FirstKey(ks[i + 1]) {
      if i < |l.seps| {
        assert ks[i + 1] == l.kids[i + 1];
      } else if i == |l.seps| {
        assert ks[i + 1] == r.kids[0];
      } else {
        assert ss[i] == r.seps[i - |l.seps| - 1] && ks[i + 1] == r.kids[i - |l.seps|];
      }
    }
  }

  /** r takes over the last child of l; the old separator comes down, the last key of l goes up. */
  lemma BorrowLastChild(n0: seq<Node>, l: Tree, r: Tree, sep: Bytes, nl: Node, nr: Node, after: Id, h: nat, mx: nat)
    requires l.Fork? && r.Fork? && Rep(n0, l) && Rep(n0, r) && Once(Ids(l) + Ids(r)) && mx >= 3
    requires Good(l, h, mx) && Count(l) > mx / 2 && Body(r, h, mx) && Count(r) + 1 == mx / 2 && sep == FirstKey(r)
    requires Links(l, FirstLeaf(r)) && Links(r, after)
    requires |l.kids| == |l.seps| + 1
    requires nl.Internal? && nl.keys == l.seps[..|l.seps| - 1] && Names(nl.children, l.kids[..|l.seps|])
    requires nr.Internal? && nr.keys == [sep] + r.seps && Names(nr.children, [l.kids[|l.seps|]] + r.kids)
    ensures l.id != r.id
    ensures Rebalanced(n0, n0[l.id := nl][r.id := nr], l, r,
                       [Fork(l.id, nl.keys, l.kids[..|l.seps|]), Fork(r.id, nr.keys, [l.kids[|l.seps|]] + r.kids)],
                       h, mx, after)
    ensures IdsAll([Fork(l.id, nl.keys, l.kids[..|l.seps|]), Fork(r.id, nr.keys, [l.kids[|l.seps|]] + r.kids)]) ==
              Ids(l) + Ids(r)
  {
    var n := |l.seps|;
    var p, q := l.kids[..n], [l.kids[n]] + r.kids;
    assert p + q == l.kids + r.kids;
    Regroup(n0, l, r, p, q, nl, nr, after);
    WithoutLast(l, h, mx);
    assert Good(l.kids[n], h - 1, mx);
    WithFirst(r, l.kids[n], sep, h, mx);
  }

  lemma WithoutLast(l: Tree, h: nat, mx: nat)
    requires l.Fork? && Good(l, h, mx) && Count(l) > mx / 2 && |l.kids| == |l.seps| + 1
    ensures Good(Fork(l.id, l.seps[..|l.seps| - 1], l.kids[..|l.seps|]), h, mx)
  {
  }

  lemma WithFirst(r: Tree, x: Tree, sep: Bytes, h: nat, mx: nat)
    requires r.Fork? && Body(r, h, mx) && Good(x, h - 1, mx) && mx / 2 <= Count(r) + 1 <= mx && sep == FirstKey(r)
    ensures Good(Fork(r.id, [sep] + r.seps, [x] + r.kids), h, mx)
  {
    var q := [x] + r.kids;
    forall i | 0 <= i < |r.seps| + 1 ensures ([sep] + r.seps)[i] == FirstKey(q[i + 1]) {
    }
  }

  /** l takes over the first child of r. */
  lemma BorrowFirstChild(n0: seq<Node>, l: Tree, r: Tree, sep: Bytes, nl: Node, nr: Node, after: Id, h: nat, mx: nat)
    requires l.Fork? && r.Fork? && Rep(n0, l) && Rep(n0, r) && Once(Ids(l) + Ids(r)) && mx >= 3
    requires Body(l, h, mx) && Count(l) + 1 == mx / 2 && Good(r, h, mx) && Count(r) > mx / 2 && sep == FirstKey(r)
    requires Links(l, FirstLeaf(r)) && Links(r, after)
    requires |r.kids| == |r.seps| + 1
    requires nl.Internal? && nl.keys == l.seps + [sep] && Names(nl.children, l.kids + [r.kids[0]])
    requires nr.Internal? && nr.keys == r.seps[1..] && Names(nr.children, r.kids[1..])
    ensures l.id != r.id
    ensures Rebalanced(n0, n0[l.id := nl][r.id := nr], l, r,
                       [Fork(l.id, nl.keys, l.kids + [r.kids[0]]), Fork(r.id, nr.keys, r.kids[1..])], h, mx, after)
    ensures IdsAll([Fork(l.id, nl.keys, l.kids + [r.kids[0]]), Fork(r.id, nr.keys, r.kids[1..])]) == Ids(l) + Ids(r)
  {
    var p, q := l.kids + [r.kids[0]], r.kids[1..];
    assert p + q == l.kids + r.kids;
    Regroup(n0, l, r, p, q, nl, nr, after);
    assert Good(r.kids[0], h - 1, mx);
    WithLast(l, r.kids[0], sep, h, mx);
    WithoutFirst(r, h, mx);
  }

  lemma WithoutFirst(r: Tree, h: nat, mx: nat)
    requires r.Fork? && Good(r, h, mx) && Count(r) > mx / 2 && |r.kids| == |r.seps| + 1
    ensures Good(Fork(r.id, r.seps[1..], r.kids[1..]), h, mx)
  {
  }

  lemma WithLast(l: Tree, x: Tree, sep: Bytes, h: nat, mx: nat)
    requires l.Fork? && Body(l, h, mx) && Good(x, h - 1, mx) && mx / 2 <= Count(l) + 1 <= mx && sep == FirstKey(x)
    ensures Good(Fork(l.id, l.seps + [sep], l.kids + [x]), h, mx)
  {
    var p := l.kids + [x];
    forall i | 0 <= i < |l.seps| + 1 ensures (l.seps + [sep])[i] == FirstKey(p[i + 1]) {
    }
  }

  // ---- two neighbouring leaves share out their entries

  lemma TipsShare(n0: seq<Node>, l: Tree, r: Tree, le: seq<Entry>, re: seq<Entry>, nl: Node, nr: Node, after: Id,
                  mx: nat)
    requires l.Tip? && r.Tip? && Rep(n0, l) && Rep(n0, r) && Once(Ids(l) + Ids(r))
    requires Body(l, 0, mx) && Body(r, 0, mx) && l.es + r.es == le + re
    requires l.next == r.id && r.next == after
    requires Stores(nl, le, r.id) && Stores(nr, re, after)
    requires mx / 2 <= |le| <= mx && mx / 2 <= |re| <= mx
    ensures l.id != r.id
    ensures Rebalanced(n0, n0[l.id := nl][r.id := nr], l, r, [Tip(l.id, le, r.id), Tip(r.id, re, after)], 0, mx, after)
    ensures IdsAll([Tip(l.id, le, r.id), Tip(r.id, re, after)]) == Ids(l) + Ids(r)
  {
    var l1, r1 := Tip(l.id, le, r.id), Tip(r.id, re, after);
    assert (Ids(l) + Ids(r))[l.id] <= 1;
    Two(l1, r1);
    KeyedShare(l.es, r.es, le, re);
    LinkedPair(l1, r1, after);
    assert Good(l1, 0, mx) && Good(r1, 0, mx);
  }

  ghost predicate Keyed(es: seq<Entry>) {
    forall i :: 0 <= i < |es| ==> es[i].key != []
  }

  lemma KeyedShare(a: seq<Entry>, b: seq<Entry>, c: seq<Entry>, d: seq<Entry>)
    requires Keyed(a) && Keyed(b) && a + b == c + d
    ensures Keyed(c) && Keyed(d)
  {
    assert forall i :: 0 <= i < |c| ==> c[i] == (a + b)[i];
    assert forall i :: 0 <= i < |d| ==> d[i] == (a + b)[|c| + i];
  }

  lemma JoinTips(n0: seq<Node>, l: Tree, r: Tree, nl: Node, after: Id, mx: nat)
    requires l.Tip? && r.Tip? && Rep(n0, l) && Rep(n0, r) && Once(Ids(l) + Ids(r))
    requires Body(l, 0, mx) && Body(r, 0, mx) && l.next == r.id && r.next == after
    requires Stores(nl, l.es + r.es, after)
    requires mx / 2 <= |l.es| + |r.es| <= mx
    ensures l.id != r.id
    ensures Rebalanced(n0, n0[l.id := nl][r.id := Free], l, r, [Tip(l.id, l.es + r.es, after)], 0, mx, after)
    ensures IdsAll([Tip(l.id, l.es + r.es, after)]) + multiset{r.id} == Ids(l) + Ids(r)
  {
    var l1 := Tip(l.id, l.es + r.es, after);
    assert (Ids(l) + Ids(r))[l.id] <= 1;
    One(l1);
    assert Good(l1, 0, mx);
  }

  // ---- deletion below one child

  /** What deleting below t leaves behind. */
  ghost predicate Erased(n0: seq<Node>, n1: seq<Node>, t: Tree, t1: Tree, h: nat, mx: nat, after: Id, k: Bytes) {
    && t1.id == t.id
    && Rep(n1, t1)
    && Body(t1, h, mx)
    && Flat(t1) == DelRun(Flat(t), k)
    && Links(t1, after)
    && FirstLeaf(t1) == FirstLeaf(t)
    && Count(t) - 1 <= Count(t1) <= Count(t)
    && Frame(n0, n1, Ids(t))
    && Books(n0, n1, Ids(t), Ids(t1))
  }

  /** Deleting the entry at pos from a leaf. */
  lemma TipErased(n0: seq<Node>, t: Tree, leaf: Node, pos: nat, mx: nat, k: Bytes)
    requires t.Tip? && Rep(n0, t) && Body(t, 0, mx) && pos < |t.es| && t.es[pos].key == k && Below(t.es[..pos], k)
    requires Stores(leaf, t.es[..pos] + t.es[pos + 1..], t.next)
    ensures Erased(n0, n0[t.id := leaf], t, t.(es := t.es[..pos] + t.es[pos + 1..]), 0, mx, t.next, k)
  {
    DelAt(t.es, pos, k);
    assert t.es == t.es[..pos] + t.es[pos..];
    assert Keyed(t.es[..pos]) && Keyed(t.es[pos + 1..]);
  }

  lemma GraftErased(n0: seq<Node>, n1: seq<Node>, t: Tree, x: Tree, idx: nat, h: nat, mx: nat, after: Id, k: Bytes)
    requires t.Fork? && Sub(n0, t, h, mx, after) && mx >= 3 && idx < |t.kids|
    requires idx > 0 ==> Rank(t.seps[idx - 1]) <= Rank(k)
    requires idx < |t.seps| ==> Rank(k) < Rank(t.seps[idx])
    requires Erased(n0, n1, t.kids[idx], x, h - 1, mx, Follow(t.kids, idx, after), k)
    ensures var t1 := Fork(t.id, t.seps, Graft(t.kids, idx, [x]));
            && Loose(n1, t1, after) && n1[t.id] == n0[t.id]
            && Flat(t1) == DelRun(Flat(t), k)
            && FirstLeaf(t1) == FirstLeaf(t)
            && Frame(n0, n1, Ids(t)) && Books(n0, n1, Ids(t), Ids(t1))
    ensures |IdsAll(Graft(t.kids, idx, [x]))| + 1 + |Ids(t.kids[idx])| == |Ids(t)| + |Ids(x)|
  {
    GraftErasedFlat(t, x, idx, h, mx, k);
    GraftOneRep(n0, n1, t, x, idx);
    GraftOneLinks(t, x, idx, after);
    GraftPieces(t.kids, idx, [x], after);
  }

  /** Deleting below one child, refreshing its separator and repairing the node add up to a deletion. */
  lemma MendDone(n0: seq<Node>, nA: seq<Node>, n1: seq<Node>, n2: seq<Node>, t: Tree, t2: Tree, t1: Tree,
                 h: nat, mx: nat, after: Id, k: Bytes)
    requires Frame(n0, nA, Ids(t)) && Books(n0, nA, Ids(t), Ids(t2))
    requires Frame(nA, n1, Ids(t2)) && Books(nA, n1, Ids(t2), Ids(t2))
    requires Repaired(n1, n2, t2, t1, h, mx, after) && Exact(t1.seps, t1.kids)
    requires Flat(t2) == DelRun(Flat(t), k) && FirstLeaf(t2) == FirstLeaf(t)
    requires t2.id == t.id && Count(t2) == Count(t)
    ensures Erased(n0, n2, t, t1, h, mx, after, k)
  {
    Chain(n0, nA, n1, Ids(t), Ids(t2), Ids(t2));
    Chain(n0, n1, n2, Ids(t), Ids(t2), Ids(t1));
  }

  lemma GraftOneRep(n0: seq<Node>, n1: seq<Node>, t: Tree, x: Tree, idx: nat)
    requires t.Fork? && Rep(n0, t) && Once(Ids(t)) && idx < |t.kids|
    requires x.id == t.kids[idx].id && Rep(n1, x)
    requires Frame(n0, n1, Ids(t.kids[idx])) && Books(n0, n1, Ids(t.kids[idx]), Ids(x))
    ensures var t1 := Fork(t.id, t.seps, Graft(t.kids, idx, [x]));
            && Rep(n1, t1) && Once(Ids(t1)) && n1[t.id] == n0[t.id]
            && Frame(n0, n1, Ids(t)) && Books(n0, n1, Ids(t), Ids(t1))
    ensures IdsAll([x]) == Ids(x)
  {
    var t1 := Fork(t.id, t.seps, Graft(t.kids, idx, [x]));
    One(x);
    GraftRep(n0, n1, t, idx, [x]);
    GraftOneNames(n0[t.id].children, t.kids, x, idx);
    OnceAfter(n0, n1, t, Ids(t1));
  }

  lemma GraftOneNames(children: seq<Id>, kids: seq<Tree>, x: Tree, idx: nat)
    requires Names(children, kids) && idx < |kids| && x.id == kids[idx].id
    ensures Names(children, Graft(kids, idx, [x]))
  {
  }

  lemma GraftOneLinks(t: Tree, x: Tree, idx: nat, after: Id)
    requires t.Fork? && Links(t, after) && idx < |t.kids|
    requires Links(x, Follow(t.kids, idx, after)) && FirstLeaf(x) == FirstLeaf(t.kids[idx])
    ensures var t1 := Fork(t.id, t.seps, Graft(t.kids, idx, [x])); Links(t1, after) && FirstLeaf(t1) == FirstLeaf(t)
  {
    assert Follow([x], 0, Follow(t.kids, idx, after)) == Follow(t.kids, idx, after);
    GraftLinks(t.kids, idx, [x], after);
  }

  lemma GraftErasedFlat(t: Tree, x: Tree, idx: nat, h: nat, mx: nat, k: Bytes)
    requires t.Fork? && Body(t, h, mx) && Sorted(Flat(t)) && mx >= 3 && idx < |t.kids|
    requires idx > 0 ==> Rank(t.seps[idx - 1]) <= Rank(k)
    requires idx < |t.seps| ==> Rank(k) < Rank(t.seps[idx])
    requires Flat(x) == DelRun(Flat(t.kids[idx]), k)
    ensures FlatAll(Graft(t.kids, idx, [x])) == DelRun(Flat(t), k)
  {
    One(x);
    Descend(t, h, mx, idx, k);
    GraftPieces(t.kids, idx, [x], 0);
    DelMiddle(FlatAll(t.kids[..idx]), Flat(t.kids[idx]), FlatAll(t.kids[idx + 1..]), k);
  }

  /** The separators after child idx was deleted from and its own separator refreshed. */
  function Refreshed(seps: seq<Bytes>, idx: nat, first: Bytes): (r: seq<Bytes>)
    requires idx <= |seps|
    ensures |r| == |seps|
  {
    if idx > 0 && first != [] then seps[idx - 1 := first] else seps
  }

  lemma RefreshedNear(t: Tree, x: Tree, idx: nat, h: nat, mx: nat)
    requires t.Fork? && Body(t, h, mx) && idx < |t.kids|
    requires Body(x, h - 1, mx) && Count(t.kids[idx]) - 1 <= Count(x) <= Count(t.kids[idx])
    ensures var t1 := Fork(t.id, Refreshed(t.seps, idx, FirstKey(x)), Graft(t.kids, idx, [x]));
            && NearExact(t1.seps, t1.kids)
            && t1.kids[idx] == x
            && (forall i :: 0 <= i < |t1.kids| && i != idx ==> Good(t1.kids[i], h - 1, mx))
            && (Count(x) >= mx / 2 ==> Forest(t1.kids, h - 1, mx))
            && (Count(x) < mx / 2 ==> Underfull(t1, idx, h, mx))
  {
    var ks := Graft(t.kids, idx, [x]);
    assert forall i :: 0 <= i < |ks| ==> ks[i] == if i == idx then x else t.kids[i];
    assert Good(t.kids[idx], h - 1, mx);
    var ss := Refreshed(t.seps, idx, FirstKey(x));
    forall i | 0 <= i < |ss| && FirstKey(ks[i + 1]) != [] ensures ss[i] == FirstKey(ks[i + 1]) {
    }
  }
}
