/** The leaves of a tree, and the chain that links them. */
module TreeChain {
  import opened KvTypes
  import opened Entries
  import opened TreeShape

  lemma {:induction false} TipsFlat(t: Tree)
    ensures FlatAll(Tips(t)) == Flat(t)
    ensures forall i :: 0 <= i < |Tips(t)| ==> Tips(t)[i].Tip?
    decreases t, 1
  {
    if t.Tip? {
      One(t);
    } else {
      TipsAllFlat(t.kids);
    }
  }

  lemma {:induction false} TipsAllFlat(kids: seq<Tree>)
    ensures FlatAll(TipsAll(kids)) == FlatAll(kids)
    ensures forall i :: 0 <= i < |TipsAll(kids)| ==> TipsAll(kids)[i].Tip?
    decreases kids, 0
  {
    if kids != [] {
      TipsFlat(kids[0]);
      TipsAllFlat(kids[1..]);
      FlatCat(Tips(kids[0]), TipsAll(kids[1..]));
    }
  }

  /** A tree has at least one leaf, and the leftmost one is where the chain starts. */
  lemma {:induction false} TipsFirst(t: Tree, h: nat, mx: nat)
    requires Body(t, h, mx)
    ensures Tips(t) != [] && Tips(t)[0].id == FirstLeaf(t)
    decreases t
  {
    if t.Fork? {
      assert Good(t.kids[0], h - 1, mx);
      TipsFirst(t.kids[0], h - 1, mx);
    }
  }

  /** The id a list of leaves starts with. */
  ghost function Start(tips: seq<Tree>, after: Id): Id {
    if tips == [] then after else tips[0].id
  }

  /** Every leaf points to the next one, the last one to `after`. */
  ghost predicate Chained(tips: seq<Tree>, after: Id) {
    forall i :: 0 <= i < |tips| ==> tips[i].Tip? && tips[i].next == Start(tips[i + 1..], after)
  }

  lemma ChainedCat(a: seq<Tree>, b: seq<Tree>, after: Id)
    requires Chained(a, Start(b, after)) && Chained(b, after)
    ensures Chained(a + b, after) && Start(a + b, after) == Start(a, Start(b, after))
  {
    var c := a + b;
    forall i | 0 <= i < |c| ensures c[i].Tip? && c[i].next == Start(c[i + 1..], after) {
      if i < |a| {
        assert c[i + 1..] == a[i + 1..] + b;
      } else {
        assert c[i + 1..] == b[i - |a| + 1..];
      }
    }
  }

  lemma {:induction false} TipsChained(t: Tree, h: nat, mx: nat, after: Id)
    requires Body(t, h, mx) && Links(t, after)
    ensures Chained(Tips(t), after) && Start(Tips(t), after) == FirstLeaf(t)
    decreases t, 1
  {
    if t.Fork? {
      TipsAllChained(t.kids, h - 1, mx, after);
    }
  }

  lemma {:induction false} TipsAllChained(kids: seq<Tree>, h: nat, mx: nat, after: Id)
    requires Forest(kids, h, mx) && Linked(kids, after)
    ensures Chained(TipsAll(kids), after) && Start(TipsAll(kids), after) == Head(kids, after)
    decreases kids, 0
  {
    if kids != [] {
      assert kids == [kids[0]] + kids[1..];
      LinkedCat([kids[0]], kids[1..], after);
      var rest := Head(kids[1..], after);
      assert Follow([kids[0]], 0, rest) == rest;
      assert Links(kids[0], rest);
      TipsAllChained(kids[1..], h, mx, after);
      TipsChained(kids[0], h, mx, rest);
      TipsFirst(kids[0], h, mx);
      ChainedCat(Tips(kids[0]), TipsAll(kids[1..]), after);
    }
  }

  lemma {:induction false} TipsRep(nodes: seq<Node>, t: Tree)
    requires Rep(nodes, t)
    ensures RepAll(nodes, Tips(t))
    ensures IdsAll(Tips(t)) <= Ids(t)
    decreases t, 1
  {
    if t.Tip? {
      One(t);
    } else {
      TipsAllRep(nodes, t.kids);
    }
  }

  lemma {:induction false} TipsAllRep(nodes: seq<Node>, kids: seq<Tree>)
    requires RepAll(nodes, kids)
    ensures RepAll(nodes, TipsAll(kids))
    ensures IdsAll(TipsAll(kids)) <= IdsAll(kids)
    decreases kids, 0
  {
    if kids != [] {
      TipsRep(nodes, kids[0]);
      TipsAllRep(nodes, kids[1..]);
      RepAllCat(nodes, Tips(kids[0]), TipsAll(kids[1..]));
      IdsCat(Tips(kids[0]), TipsAll(kids[1..]));
    }
  }

  lemma TipsAround(a: seq<Tree>, t: Tree, b: seq<Tree>)
    ensures TipsAll(a + [t] + b) == TipsAll(a) + Tips(t) + TipsAll(b)
  {
    TipsCat(a + [t], b);
    TipsCat(a, [t]);
    One(t);
  }

  /** Descending to child idx leaves the leaves of the other children on either side. */
  lemma TipsCut(kids: seq<Tree>, idx: nat)
    requires idx < |kids|
    ensures TipsAll(kids) == TipsAll(kids[..idx]) + Tips(kids[idx]) + TipsAll(kids[idx + 1..])
  {
    var a, b := kids[..idx], kids[idx + 1..];
    assert kids == a + [kids[idx]] + b;
    TipsAround(a, kids[idx], b);
  }

  /** One step down keeps the key between the leaves passed on the left and on the right. */
  lemma TipsDescend(t: Tree, h: nat, mx: nat, idx: nat, k: Bytes, a: seq<Tree>, b: seq<Tree>)
    requires t.Fork? && Body(t, h, mx) && mx >= 3 && Sorted(Flat(t)) && idx < |t.kids|
    requires idx > 0 ==> Rank(t.seps[idx - 1]) <= Rank(k)
    requires idx < |t.seps| ==> Rank(k) < Rank(t.seps[idx])
    requires Below(FlatAll(a), k) && Above(FlatAll(b), k)
    ensures var a', b' := a + TipsAll(t.kids[..idx]), TipsAll(t.kids[idx + 1..]) + b;
            && a + Tips(t) + b == a' + Tips(t.kids[idx]) + b'
            && Below(FlatAll(a'), k) && Above(FlatAll(b'), k)
  {
    Descend(t, h, mx, idx, k);
    TipsCut(t.kids, idx);
    TipsAllFlat(t.kids[..idx]);
    TipsAllFlat(t.kids[idx + 1..]);
    var l, m, r := TipsAll(t.kids[..idx]), Tips(t.kids[idx]), TipsAll(t.kids[idx + 1..]);
    FlatCat(a, l);
    FlatCat(r, b);
    Reassociate(a, l, m, r, b);
  }

  lemma Reassociate(a: seq<Tree>, l: seq<Tree>, m: seq<Tree>, r: seq<Tree>, b: seq<Tree>)
    ensures a + (l + m + r) + b == (a + l) + m + (r + b)
  {
  }

  // ---- following the chain through the table

  /** The leaves met when following `next` from id for at most n steps. */
  ghost function Walk(nodes: seq<Node>, id: Id, n: nat): seq<Id>
    decreases n
  {
    if n == 0 || id == 0 || id >= |nodes| || !nodes[id].Leaf? then []
    else [id] + Walk(nodes, nodes[id].next, n - 1)
  }

  ghost function TipIds(tips: seq<Tree>): (ids: seq<Id>)
    ensures |ids| == |tips| && forall i :: 0 <= i < |ids| ==> ids[i] == tips[i].id
  {
    seq(|tips|, i requires 0 <= i < |tips| => tips[i].id)
  }

  lemma {:induction false} WalkChained(nodes: seq<Node>, tips: seq<Tree>, n: nat)
    requires RepAll(nodes, tips) && Chained(tips, 0) && n >= |tips|
    ensures Walk(nodes, Start(tips, 0), n) == TipIds(tips)
  {
    if tips == [] {
      assert TipIds(tips) == [];
    } else {
      assert Rep(nodes, tips[0]);
      var rest := tips[1..];
      forall i | 0 <= i < |rest| ensures rest[i].Tip? && rest[i].next == Start(rest[i + 1..], 0) {
        assert rest[i] == tips[i + 1] && rest[i + 1..] == tips[i + 2..];
      }
      WalkChained(nodes, rest, n - 1);
      assert tips[0].next == Start(rest, 0);
      assert TipIds(tips) == [tips[0].id] + TipIds(rest);
    }
  }

  lemma {:induction false} DistinctIds(tips: seq<Tree>, i: nat, j: nat)
    requires Once(IdsAll(tips)) && i < j < |tips|
    ensures tips[i].id != tips[j].id
  {
    var a, b := tips[..j], tips[j..];
    assert tips == a + b;
    IdsCat(a, b);
    IdsWithin(a, i);
    IdsWithin(b, 0);
    assert tips[i].id in Ids(a[i]) && tips[j].id in Ids(b[0]);
    assert IdsAll(tips)[tips[i].id] <= 1;
  }

  /** From the leftmost leaf the chain visits exactly the leaves of the tree, in order,
      each once, and then stops. */
  lemma ChainVisitsLeaves(nodes: seq<Node>, t: Tree, h: nat, mx: nat, n: nat)
    requires Sub(nodes, t, h, mx, 0) && n >= |Tips(t)|
    ensures Walk(nodes, FirstLeaf(t), n) == TipIds(Tips(t))
    ensures forall i, j :: 0 <= i < j < |Tips(t)| ==> Tips(t)[i].id != Tips(t)[j].id
    ensures FlatAll(Tips(t)) == Flat(t)
  {
    TipsFlat(t);
    TipsRep(nodes, t);
    TipsChained(t, h, mx, 0);
    WalkChained(nodes, Tips(t), n);
    forall x ensures IdsAll(Tips(t))[x] <= 1 {
      assert Ids(t)[x] <= 1;
    }
    forall i, j | 0 <= i < j < |Tips(t)| ensures Tips(t)[i].id != Tips(t)[j].id {
      DistinctIds(Tips(t), i, j);
    }
  }
}
