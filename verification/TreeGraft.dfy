/** Replacing one child of an internal node, and splitting overfull nodes. */
module TreeGraft {
  import opened KvTypes
  import opened Entries
  import opened TreeShape

  /** The siblings with child idx replaced by the trees in `out`. */
  ghost function Graft(kids: seq<Tree>, idx: nat, out: seq<Tree>): seq<Tree>
    requires idx < |kids|
  {
    kids[..idx] + out + kids[idx + 1..]
  }

  lemma GraftPieces(kids: seq<Tree>, idx: nat, out: seq<Tree>, after: Id)
    requires idx < |kids|
    ensures kids == kids[..idx] + [kids[idx]] + kids[idx + 1..]
    ensures FlatAll(kids) == FlatAll(kids[..idx]) + Flat(kids[idx]) + FlatAll(kids[idx + 1..])
    ensures FlatAll(Graft(kids, idx, out)) == FlatAll(kids[..idx]) + FlatAll(out) + FlatAll(kids[idx + 1..])
    ensures IdsAll(kids) == IdsAll(kids[..idx]) + Ids(kids[idx]) + IdsAll(kids[idx + 1..])
    ensures IdsAll(Graft(kids, idx, out)) == IdsAll(kids[..idx]) + IdsAll(out) + IdsAll(kids[idx + 1..])
    ensures Head(kids[idx + 1..], after) == Follow(kids, idx, after)
  {
    assert kids == kids[..idx] + [kids[idx]] + kids[idx + 1..];
    Cut(kids[..idx], [kids[idx]], kids[idx + 1..], after);
    Cut(kids[..idx], out, kids[idx + 1..], after);
    One(kids[idx]);
  }

  /** A grafted subtree joins the leaf chain on both sides, whoever owns the neighbours. */
  lemma GraftLinks(kids: seq<Tree>, idx: nat, out: seq<Tree>, after: Id)
    requires idx < |kids| && Linked(kids, after)
    requires out != [] && FirstLeaf(out[0]) == FirstLeaf(kids[idx])
    requires Linked(out, Follow(kids, idx, after))
    ensures Linked(Graft(kids, idx, out), after)
    ensures Head(Graft(kids, idx, out), after) == Head(kids, after)
  {
    GraftPieces(kids, idx, out, after);
    Cut(kids[..idx], [kids[idx]], kids[idx + 1..], after);
    Cut(kids[..idx], out, kids[idx + 1..], after);
  }

  lemma OnceApart(id: Id, a: multiset<Id>, m: multiset<Id>, b: multiset<Id>)
    requires Once(multiset{id} + (a + m + b))
    ensures id !in a && id !in m && id !in b
    ensures forall y :: y in m ==> y !in a && y !in b
    ensures forall y :: y in a ==> y !in m && y !in b
    ensures forall y :: y in b ==> y !in m && y !in a
    ensures Once(a) && Once(m) && Once(b)
  {
    var all := multiset{id} + (a + m + b);
    forall y: Id ensures a[y] + m[y] + b[y] + (if y == id then 1 else 0) <= 1 {
      assert all[y] <= 1;
    }
  }

  /** The ids of an internal node's children are apart from each other and from its own. */
  lemma IdsApart(t: Tree, idx: nat)
    requires t.Fork? && Once(Ids(t)) && idx < |t.kids|
    ensures Once(Ids(t.kids[idx]))
  {
    GraftPieces(t.kids, idx, [], 0);
    OnceApart(t.id, IdsAll(t.kids[..idx]), Ids(t.kids[idx]), IdsAll(t.kids[idx + 1..]));
  }

  lemma SiblingsFrame(n0: seq<Node>, n1: seq<Node>, kids: seq<Tree>, m: multiset<Id>)
    requires RepAll(n0, kids) && Frame(n0, n1, m)
    requires forall y :: y in IdsAll(kids) ==> y !in m
    ensures RepAll(n1, kids)
  {
    RepAllLive(n0, kids);
    RepAllFrame(n0, n1, kids);
  }

  /** Some siblings are replaced; the others, and the node above, survive whatever happens there. */
  lemma SpliceRep(n0: seq<Node>, n1: seq<Node>, id: Id, a: seq<Tree>, m: multiset<Id>, b: seq<Tree>, out: seq<Tree>)
    requires RepAll(n0, a) && RepAll(n0, b) && RepAll(n1, out) && Live(n0, id) == 1
    requires Once(multiset{id} + (IdsAll(a) + m + IdsAll(b)))
    requires Frame(n0, n1, m) && Books(n0, n1, m, IdsAll(out))
    ensures RepAll(n1, a + out + b)
    ensures n1[id] == n0[id] && Live(n1, id) == 1 && id !in IdsAll(a + out + b)
    ensures Frame(n0, n1, multiset{id} + (IdsAll(a) + m + IdsAll(b)))
    ensures Books(n0, n1, multiset{id} + (IdsAll(a) + m + IdsAll(b)), multiset{id} + IdsAll(a + out + b))
  {
    OnceApart(id, IdsAll(a), m, IdsAll(b));
    SiblingsFrame(n0, n1, a, m);
    SiblingsFrame(n0, n1, b, m);
    Cut(a, out, b, 0);
    RepAllCat(n1, a + out, b);
    RepAllCat(n1, a, out);
    assert IdsAll(out)[id] + Live(n0, id) == m[id] + Live(n1, id);
    GraftBooks(n0, n1, id, IdsAll(a), m, IdsAll(out), IdsAll(b));
  }

  lemma GraftRep(n0: seq<Node>, n1: seq<Node>, t: Tree, idx: nat, out: seq<Tree>)
    requires t.Fork? && Rep(n0, t) && Once(Ids(t)) && idx < |t.kids|
    requires Frame(n0, n1, Ids(t.kids[idx])) && Books(n0, n1, Ids(t.kids[idx]), IdsAll(out))
    requires RepAll(n1, out)
    ensures RepAll(n1, Graft(t.kids, idx, out))
    ensures n1[t.id] == n0[t.id] && Live(n1, t.id) == 1
    ensures t.id !in IdsAll(Graft(t.kids, idx, out))
    ensures Frame(n0, n1, Ids(t))
    ensures Books(n0, n1, Ids(t), multiset{t.id} + IdsAll(Graft(t.kids, idx, out)))
  {
    GraftPieces(t.kids, idx, out, 0);
    SpliceRep(n0, n1, t.id, t.kids[..idx], Ids(t.kids[idx]), t.kids[idx + 1..], out);
  }

  lemma GraftBooks(n0: seq<Node>, n1: seq<Node>, id: Id, a: multiset<Id>, m0: multiset<Id>, m1: multiset<Id>,
                   b: multiset<Id>)
    requires Books(n0, n1, m0, m1)
    ensures Books(n0, n1, multiset{id} + (a + m0 + b), multiset{id} + (a + m1 + b))
  {
  }

  /** Two steps on the table, one after the other. */
  lemma Chain(n0: seq<Node>, n1: seq<Node>, n2: seq<Node>, m0: multiset<Id>, m1: multiset<Id>, m2: multiset<Id>)
    requires Frame(n0, n1, m0) && Books(n0, n1, m0, m1)
    requires Frame(n1, n2, m1) && Books(n1, n2, m1, m2)
    ensures Frame(n0, n2, m0) && Books(n0, n2, m0, m2)
  {
    forall x | 0 <= x < |n0| && n0[x] != Free && x !in m0 ensures n2[x] == n0[x] {
      assert m1[x] + Live(n0, x) == m0[x] + Live(n1, x);
    }
    forall x: Id ensures m2[x] + Live(n0, x) == m0[x] + Live(n2, x) {
      assert m1[x] + Live(n0, x) == m0[x] + Live(n1, x);
      assert m2[x] + Live(n1, x) == m1[x] + Live(n2, x);
    }
  }

  /** Rewriting one node of a subtree in use. */
  lemma Rewritten(n0: seq<Node>, id: Id, node: Node, m: multiset<Id>)
    requires id < |n0| && n0[id] != Free && node != Free && id in m
    ensures Frame(n0, n0[id := node], m) && Books(n0, n0[id := node], m, m)
  {
  }

  /** Books and Rep together keep ids unique. */
  lemma OnceAfter(n0: seq<Node>, n1: seq<Node>, t: Tree, m1: multiset<Id>)
    requires Rep(n0, t) && Once(Ids(t)) && Books(n0, n1, Ids(t), m1) && Frame(n0, n1, Ids(t))
    ensures Once(m1)
  {
    RepLive(n0, t);
    forall x ensures m1[x] <= 1 {
      if x in Ids(t) {
        assert Ids(t)[x] == 1 && Live(n0, x) == 1;
      } else {
        assert m1[x] + Live(n0, x) == Live(n1, x);
      }
    }
  }

  /** Writing an internal node above siblings already in place. */
  lemma ForkRep(nodes: seq<Node>, id: Id, seps: seq<Bytes>, children: seq<Id>, kids: seq<Tree>)
    requires RepAll(nodes, kids) && id !in IdsAll(kids) && 0 < id < |nodes|
    requires Names(children, kids)
    ensures Rep(nodes[id := Internal(seps, children)], Fork(id, seps, kids))
  {
    RepAllFrame(nodes, nodes[id := Internal(seps, children)], kids);
  }

  // ---- insertion into one child

  /** What inserting below t leaves behind: t itself, or t and a new right sibling. */
  ghost predicate Inserted(n0: seq<Node>, n1: seq<Node>, t: Tree, out: seq<Tree>,
                           h: nat, mx: nat, after: Id, k: Bytes, v: Bytes) {
    && 1 <= |out| <= 2
    && RepAll(n1, out)
    && FlatAll(out) == PutRun(Flat(t), k, v)
    && Linked(out, after)
    && out[0].id == t.id
    && FirstLeaf(out[0]) == FirstLeaf(t)
    && Frame(n0, n1, Ids(t))
    && Books(n0, n1, Ids(t), IdsAll(out))
    && (|out| == 1 ==> Body(out[0], h, mx) && Count(t) <= Count(out[0]) <= mx)
    && (|out| == 2 ==> Forest(out, h, mx))
  }

  ghost function GraftSeps(seps: seq<Bytes>, idx: nat, out: seq<Tree>): seq<Bytes>
    requires idx <= |seps|
  {
    if |out| == 2 then seps[..idx] + [FirstKey(out[1])] + seps[idx..] else seps
  }

  lemma PutFirst(s: seq<Entry>, k: Bytes, v: Bytes)
    requires s != [] && Rank(s[0].key) <= Rank(k)
    ensures PutRun(s, k, v)[0].key == s[0].key
  {
    CompareIsRank(s[0].key, k);
  }

  lemma InsertedForest(t: Tree, idx: nat, out: seq<Tree>, h: nat, mx: nat)
    requires t.Fork? && Body(t, h, mx) && idx < |t.kids| && 1 <= |out| <= 2
    requires |out| == 1 ==> Body(out[0], h - 1, mx) && Count(t.kids[idx]) <= Count(out[0]) <= mx
    requires |out| == 2 ==> Forest(out, h - 1, mx)
    ensures Forest(Graft(t.kids, idx, out), h - 1, mx)
    ensures Good(out[0], h - 1, mx)
  {
    assert Good(t.kids[idx], h - 1, mx);
    assert Forest(out, h - 1, mx);
    ForestCat(t.kids[..idx], out, h - 1, mx);
    ForestCat(t.kids[..idx] + out, t.kids[idx + 1..], h - 1, mx);
  }

  /** The new separator belongs at the index the key descended through. */
  lemma InsertedExact(t: Tree, idx: nat, out: seq<Tree>, h: nat, mx: nat)
    requires t.Fork? && Body(t, h, mx) && idx < |t.kids| && 1 <= |out| <= 2
    requires idx > 0 ==> FirstKey(out[0]) == FirstKey(t.kids[idx])
    ensures Exact(GraftSeps(t.seps, idx, out), Graft(t.kids, idx, out))
  {
    var ks, ss := Graft(t.kids, idx, out), GraftSeps(t.seps, idx, out);
    forall i | 0 <= i < |ss| ensures ss[i] == FirstKey(ks[i + 1]) {
      if i < idx {
        assert ss[i] == t.seps[i];
      } else if |out| == 2 && i == idx {
        assert ks[i + 1] == out[1];
      } else if |out| == 2 {
        assert ss[i] == t.seps[i - 1] && ks[i + 1] == t.kids[i];
      }
    }
  }

  /** An internal node, possibly overfull, after one child was inserted into. */
  ghost predicate Grown(n0: seq<Node>, n1: seq<Node>, t: Tree, t1: Tree,
                        h: nat, mx: nat, after: Id, k: Bytes, v: Bytes) {
    && t1.Fork?
    && t1.id == t.id
    && RepAll(n1, t1.kids)
    && t.id !in IdsAll(t1.kids)
    && Live(n1, t.id) == 1
    && Body(t1, h, mx)
    && Count(t) <= Count(t1) <= Count(t) + 1
    && Flat(t1) == PutRun(Flat(t), k, v)
    && Links(t1, after)
    && FirstLeaf(t1) == FirstLeaf(t)
    && Frame(n0, n1, Ids(t))
    && Books(n0, n1, Ids(t), Ids(t1))
  }

  lemma GraftFlat(t: Tree, out: seq<Tree>, idx: nat, h: nat, mx: nat, k: Bytes, v: Bytes)
    requires t.Fork? && Body(t, h, mx) && Sorted(Flat(t)) && mx >= 3 && idx < |t.kids|
    requires idx > 0 ==> Rank(t.seps[idx - 1]) <= Rank(k)
    requires idx < |t.seps| ==> Rank(k) < Rank(t.seps[idx])
    requires FlatAll(out) == PutRun(Flat(t.kids[idx]), k, v)
    ensures FlatAll(Graft(t.kids, idx, out)) == PutRun(Flat(t), k, v)
  {
    Descend(t, h, mx, idx, k);
    GraftPieces(t.kids, idx, out, 0);
    PutMiddle(FlatAll(t.kids[..idx]), Flat(t.kids[idx]), FlatAll(t.kids[idx + 1..]), k, v);
  }

  lemma GraftEntries(t: Tree, out: seq<Tree>, idx: nat, h: nat, mx: nat, k: Bytes, v: Bytes)
    requires t.Fork? && Body(t, h, mx) && Sorted(Flat(t)) && mx >= 3 && idx < |t.kids|
    requires idx > 0 ==> Rank(t.seps[idx - 1]) <= Rank(k)
    requires idx < |t.seps| ==> Rank(k) < Rank(t.seps[idx])
    requires 1 <= |out| <= 2 && FlatAll(out) == PutRun(Flat(t.kids[idx]), k, v)
    requires |out| == 1 ==> Body(out[0], h - 1, mx) && Count(t.kids[idx]) <= Count(out[0]) <= mx
    requires |out| == 2 ==> Forest(out, h - 1, mx)
    ensures FlatAll(Graft(t.kids, idx, out)) == PutRun(Flat(t), k, v)
    ensures Body(Fork(t.id, GraftSeps(t.seps, idx, out), Graft(t.kids, idx, out)), h, mx)
  {
    GraftFlat(t, out, idx, h, mx, k, v);
    InsertedForest(t, idx, out, h, mx);
    if idx > 0 {
      Descend(t, h, mx, idx, k);
      InsertedFirst(t.kids[idx], out, h - 1, mx, k, v);
    }
    InsertedExact(t, idx, out, h, mx);
  }

  lemma GraftInserted(n0: seq<Node>, n1: seq<Node>, t: Tree, out: seq<Tree>, idx: nat,
                      h: nat, mx: nat, after: Id, k: Bytes, v: Bytes)
    requires t.Fork? && Sub(n0, t, h, mx, after) && mx >= 3 && idx < |t.kids|
    requires idx > 0 ==> Rank(t.seps[idx - 1]) <= Rank(k)
    requires idx < |t.seps| ==> Rank(k) < Rank(t.seps[idx])
    requires Inserted(n0, n1, t.kids[idx], out, h - 1, mx, Follow(t.kids, idx, after), k, v)
    ensures Grown(n0, n1, t, Fork(t.id, GraftSeps(t.seps, idx, out), Graft(t.kids, idx, out)), h, mx, after, k, v)
    ensures n1[t.id] == n0[t.id]
  {
    GraftEntries(t, out, idx, h, mx, k, v);
    GraftRep(n0, n1, t, idx, out);
    GraftLinks(t.kids, idx, out, after);
  }

  lemma InsertedFirst(x: Tree, out: seq<Tree>, h: nat, mx: nat, k: Bytes, v: Bytes)
    requires Body(x, h, mx) && mx >= 3 && out != [] && Good(out[0], h, mx)
    requires Flat(x) != [] && Rank(Flat(x)[0].key) <= Rank(k)
    requires FlatAll(out) == PutRun(Flat(x), k, v)
    ensures FirstKey(out[0]) == FirstKey(x)
  {
    ForestFirst(out, h, mx);
    PutFirst(Flat(x), k, v);
    FirstKeyIsFirst(x, h, mx);
  }

  /** So a binary search for it lands exactly there. */
  lemma SeparatorLands(t: Tree, seps: seq<Bytes>, idx: nat, sep: Bytes, h: nat, mx: nat, pos: nat)
    requires t.Fork? && Body(t, h, mx) && Sorted(Flat(t)) && mx >= 3
    requires idx <= |seps| && pos <= |seps| && t.seps == seps[..idx] + [sep] + seps[idx..]
    requires forall i :: 0 <= i < pos ==> Rank(seps[i]) < Rank(sep)
    requires forall i :: pos <= i < |seps| ==> Rank(sep) <= Rank(seps[i])
    ensures pos == idx
  {
    SeparatorsIncrease(t, h, mx);
    if idx > 0 {
      assert t.seps[idx - 1] == seps[idx - 1] && t.seps[idx] == sep;
    }
    if idx < |seps| {
      assert t.seps[idx + 1] == seps[idx] && t.seps[idx] == sep;
    }
  }

  // ---- splits

  /** An overfull internal node gives its upper half to a new right sibling; the middle key moves up. */
  lemma SplitFork(t: Tree, mid: nat, rid: Id, h: nat, mx: nat, after: Id)
    requires t.Fork? && Body(t, h, mx) && mx >= 3 && Links(t, after)
    requires Count(t) == mx + 1 && mid == (mx + 1) / 2
    ensures var l, r := Fork(t.id, t.seps[..mid], t.kids[..mid + 1]), Fork(rid, t.seps[mid + 1..], t.kids[mid + 1..]);
            && Good(l, h, mx) && Good(r, h, mx)
            && FlatAll([l, r]) == Flat(t)
            && IdsAll([l, r]) == Ids(t) + multiset{rid}
            && Linked([l, r], after)
            && FirstLeaf(l) == FirstLeaf(t)
            && FirstKey(r) == t.seps[mid]
  {
    var a, b := t.kids[..mid + 1], t.kids[mid + 1..];
    var l, r := Fork(t.id, t.seps[..mid], a), Fork(rid, t.seps[mid + 1..], b);
    assert t.kids == a + b;
    FlatCat(a, b);
    IdsCat(a, b);
    LinkedCat(a, b, after);
    Two(l, r);
    assert IdsAll([l, r]) == multiset{t.id} + IdsAll(a) + (multiset{rid} + IdsAll(b));
    assert Exact(l.seps, a);
    assert Exact(r.seps, b);
    assert Links(l, FirstLeaf(r)) && Links(r, after);
  }

  lemma SplitTip(t: Tree, mid: nat, rid: Id, mx: nat)
    requires t.Tip? && Body(t, 0, mx) && mx >= 3
    requires Count(t) == mx + 1 && mid == (mx + 1) / 2
    ensures var l, r := Tip(t.id, t.es[..mid], rid), Tip(rid, t.es[mid..], t.next);
            && Good(l, 0, mx) && Good(r, 0, mx)
            && FlatAll([l, r]) == t.es
            && IdsAll([l, r]) == Ids(t) + multiset{rid}
            && Linked([l, r], t.next)
            && FirstKey(r) == t.es[mid].key
  {
    var l, r := Tip(t.id, t.es[..mid], rid), Tip(rid, t.es[mid..], t.next);
    Two(l, r);
    assert t.es == t.es[..mid] + t.es[mid..];
  }
}
