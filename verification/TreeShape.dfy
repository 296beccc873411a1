/** The node table of the B+ tree and the tree it stands for.

    Nodes live in a table and refer to each other by id.  `Tree` is the tree a table
    spells out (`Rep` ties the two); it carries the ids and the leaf links, so every
    property of the table is a property of a `Tree`:

      `Body`/`Good`  equal leaf depth, occupancy and exact separators
      `Flat`         the entries from left to right
      `Ids`          the ids used, with multiplicity
      `Links`        the leaf chain

    Rebalancing always replaces a few neighbouring children by others, so the lemmas
    here are about lists of sibling trees. */
module TreeShape {
  import opened KvTypes
  import opened Entries

  /** A slot number in the node table; 0 is "no node". */
  type Id = nat

  datatype Node =
    | Free
    | Leaf(keys: seq<Bytes>, values: seq<Bytes>, next: Id)
    | Internal(keys: seq<Bytes>, children: seq<Id>)

  datatype Tree =
    | Tip(id: Id, es: seq<Entry>, next: Id)
    | Fork(id: Id, seps: seq<Bytes>, kids: seq<Tree>)

  // ---- what a tree stands for

  ghost function Flat(t: Tree): seq<Entry>
    decreases t, 1
  {
    match t
    case Tip(_, es, _) => es
    case Fork(_, _, kids) => FlatAll(kids)
  }

  ghost function FlatAll(kids: seq<Tree>): seq<Entry>
    decreases kids, 0
  {
    if kids == [] then [] else Flat(kids[0]) + FlatAll(kids[1..])
  }

  ghost function Ids(t: Tree): multiset<Id>
    decreases t, 1
  {
    match t
    case Tip(id, _, _) => multiset{id}
    case Fork(id, _, kids) => multiset{id} + IdsAll(kids)
  }

  ghost function IdsAll(kids: seq<Tree>): multiset<Id>
    decreases kids, 0
  {
    if kids == [] then multiset{} else Ids(kids[0]) + IdsAll(kids[1..])
  }

  /** The leaves from left to right. */
  ghost function Tips(t: Tree): seq<Tree>
    decreases t, 1
  {
    match t
    case Tip(_, _, _) => [t]
    case Fork(_, _, kids) => TipsAll(kids)
  }

  ghost function TipsAll(kids: seq<Tree>): seq<Tree>
    decreases kids, 0
  {
    if kids == [] then [] else Tips(kids[0]) + TipsAll(kids[1..])
  }

  /** The first key stored below a node, or the empty string when there is none. */
  ghost function FirstKey(t: Tree): Bytes {
    match t
    case Tip(_, es, _) => if es == [] then [] else es[0].key
    case Fork(_, _, kids) => if kids == [] then [] else FirstKey(kids[0])
  }

  ghost function FirstLeaf(t: Tree): Id {
    match t
    case Tip(id, _, _) => id
    case Fork(_, _, kids) => if kids == [] then 0 else FirstLeaf(kids[0])
  }

  /** The number of keys in the node itself. */
  ghost function Count(t: Tree): nat {
    match t
    case Tip(_, es, _) => |es|
    case Fork(_, seps, _) => |seps|
  }

  // ---- the invariant

  /** Separator i is the least key below child i + 1. */
  ghost predicate Exact(seps: seq<Bytes>, kids: seq<Tree>) {
    && |kids| == |seps| + 1
    && forall i :: 0 <= i < |seps| ==> seps[i] == FirstKey(kids[i + 1])
  }

  /** A subtree of height h whose nodes below the top are all properly filled. */
  ghost predicate Body(t: Tree, h: nat, mx: nat)
    decreases t, 0
  {
    match t
    case Tip(_, es, _) => h == 0 && forall i :: 0 <= i < |es| ==> es[i].key != []
    case Fork(_, seps, kids) =>
      && h > 0
      && Exact(seps, kids)
      && forall i :: 0 <= i < |kids| ==> Good(kids[i], h - 1, mx)
  }

  /** A properly filled subtree: between mx/2 and mx keys in every node. */
  ghost predicate Good(t: Tree, h: nat, mx: nat)
    decreases t, 1
  {
    mx / 2 <= Count(t) <= mx && Body(t, h, mx)
  }

  ghost predicate Forest(kids: seq<Tree>, h: nat, mx: nat) {
    forall i :: 0 <= i < |kids| ==> Good(kids[i], h, mx)
  }

  /** The root may be less than half full, but an internal root has two children. */
  ghost predicate RootOk(t: Tree, h: nat, mx: nat) {
    Body(t, h, mx) && Count(t) <= mx && (t.Fork? ==> 1 <= Count(t))
  }

  /** Where the leaf chain goes on after child i. */
  ghost function Follow(kids: seq<Tree>, i: nat, after: Id): Id {
    if i + 1 < |kids| then FirstLeaf(kids[i + 1]) else after
  }

  /** The leaves of t are chained in order and the last one points to `after`. */
  ghost predicate Links(t: Tree, after: Id)
    decreases t, 1
  {
    match t
    case Tip(_, _, next) => next == after
    case Fork(_, _, kids) => Linked(kids, after)
  }

  ghost predicate Linked(kids: seq<Tree>, after: Id)
    decreases kids, 0
  {
    forall i :: 0 <= i < |kids| ==> Links(kids[i], Follow(kids, i, after))
  }

  ghost function Head(kids: seq<Tree>, after: Id): Id {
    if kids == [] then after else FirstLeaf(kids[0])
  }

  // ---- the table

  ghost predicate Stores(n: Node, es: seq<Entry>, next: Id) {
    && n.Leaf?
    && |n.keys| == |n.values| == |es|
    && n.next == next
    && forall i :: 0 <= i < |es| ==> n.keys[i] == es[i].key && n.values[i] == es[i].value
  }

  ghost predicate Names(ids: seq<Id>, kids: seq<Tree>) {
    |ids| == |kids| && forall i :: 0 <= i < |ids| ==> ids[i] == kids[i].id
  }

  /** The table spells out t. */
  ghost predicate Rep(nodes: seq<Node>, t: Tree)
    decreases t, 1
  {
    && 0 < t.id < |nodes|
    && match t
       case Tip(id, es, next) => Stores(nodes[id], es, next)
       case Fork(id, seps, kids) =>
         && nodes[id].Internal?
         && nodes[id].keys == seps
         && Names(nodes[id].children, kids)
         && RepAll(nodes, kids)
  }

  ghost predicate RepAll(nodes: seq<Node>, kids: seq<Tree>)
    decreases kids, 0
  {
    forall i :: 0 <= i < |kids| ==> Rep(nodes, kids[i])
  }

  ghost predicate Once(m: multiset<Id>) {
    forall x :: m[x] <= 1
  }

  ghost function Live(nodes: seq<Node>, x: Id): nat {
    if x < |nodes| && nodes[x] != Free then 1 else 0
  }

  /** Nodes in use outside m are untouched. */
  ghost predicate Frame(n0: seq<Node>, n1: seq<Node>, m: multiset<Id>) {
    && |n0| <= |n1|
    && forall x :: 0 <= x < |n0| && n0[x] != Free && x !in m ==> n1[x] == n0[x]
  }

  /** Ids enter and leave a subtree exactly as nodes are allocated and freed. */
  ghost predicate Books(n0: seq<Node>, n1: seq<Node>, m0: multiset<Id>, m1: multiset<Id>) {
    forall x: Id :: m1[x] + Live(n0, x) == m0[x] + Live(n1, x)
  }

  /** A subtree of the table with everything the algorithms rely on. */
  ghost predicate Sub(nodes: seq<Node>, t: Tree, h: nat, mx: nat, after: Id) {
    && Rep(nodes, t)
    && Body(t, h, mx)
    && Sorted(Flat(t))
    && Links(t, after)
    && Once(Ids(t))
  }

  // ---- lists of siblings

  lemma {:induction false} FlatCat(a: seq<Tree>, b: seq<Tree>)
    ensures FlatAll(a + b) == FlatAll(a) + FlatAll(b)
  {
    if a == [] {
      assert a + b == b;
    } else {
      assert (a + b)[1..] == a[1..] + b;
      FlatCat(a[1..], b);
    }
  }

  lemma {:induction false} IdsCat(a: seq<Tree>, b: seq<Tree>)
    ensures IdsAll(a + b) == IdsAll(a) + IdsAll(b)
  {
    if a == [] {
      assert a + b == b;
    } else {
      assert (a + b)[1..] == a[1..] + b;
      IdsCat(a[1..], b);
    }
  }

  lemma {:induction false} TipsCat(a: seq<Tree>, b: seq<Tree>)
    ensures TipsAll(a + b) == TipsAll(a) + TipsAll(b)
  {
    if a == [] {
      assert a + b == b;
    } else {
      assert (a + b)[1..] == a[1..] + b;
      TipsCat(a[1..], b);
    }
  }

  lemma One(t: Tree)
    ensures FlatAll([t]) == Flat(t)
    ensures IdsAll([t]) == Ids(t)
    ensures TipsAll([t]) == Tips(t)
  {
    assert [t][1..] == [];
  }

  lemma Two(l: Tree, r: Tree)
    ensures FlatAll([l, r]) == Flat(l) + Flat(r)
    ensures IdsAll([l, r]) == Ids(l) + Ids(r)
  {
    assert [l, r] == [l] + [r];
    One(l);
    One(r);
    FlatCat([l], [r]);
    IdsCat([l], [r]);
  }

  lemma LinkedCat(a: seq<Tree>, b: seq<Tree>, after: Id)
    ensures Linked(a + b, after) <==> Linked(a, Head(b, after)) && Linked(b, after)
    ensures Head(a + b, after) == Head(a, Head(b, after))
  {
    var c := a + b;
    forall i | 0 <= i < |a|
      ensures c[i] == a[i] && Follow(c, i, after) == Follow(a, i, Head(b, after))
    {
    }
    forall i | 0 <= i < |b|
      ensures c[|a| + i] == b[i] && Follow(c, |a| + i, after) == Follow(b, i, after)
    {
    }
    if Linked(c, after) {
      forall i | 0 <= i < |b| ensures Links(b[i], Follow(b, i, after)) {
        assert Links(c[|a| + i], Follow(c, |a| + i, after));
      }
      forall i | 0 <= i < |a| ensures Links(a[i], Follow(a, i, Head(b, after))) {
        assert Links(c[i], Follow(c, i, after));
      }
    }
    if Linked(a, Head(b, after)) && Linked(b, after) {
      forall i | 0 <= i < |c| ensures Links(c[i], Follow(c, i, after)) {
        if i >= |a| {
          assert Links(b[i - |a|], Follow(b, i - |a|, after));
        }
      }
    }
  }

  /** Cutting a sibling list into three. */
  lemma Cut(a: seq<Tree>, m: seq<Tree>, b: seq<Tree>, after: Id)
    ensures FlatAll(a + m + b) == FlatAll(a) + FlatAll(m) + FlatAll(b)
    ensures IdsAll(a + m + b) == IdsAll(a) + IdsAll(m) + IdsAll(b)
    ensures Linked(a + m + b, after) <==>
            Linked(a, Head(m, Head(b, after))) && Linked(m, Head(b, after)) && Linked(b, after)
    ensures Head(a + m + b, after) == Head(a, Head(m, Head(b, after)))
  {
    FlatCat(a + m, b);
    FlatCat(a, m);
    IdsCat(a + m, b);
    IdsCat(a, m);
    LinkedCat(a + m, b, after);
    LinkedCat(a, m, Head(b, after));
  }

  // ---- framing

  lemma {:induction false} RepFrame(n0: seq<Node>, n1: seq<Node>, t: Tree)
    requires Rep(n0, t)
    requires forall x :: x in Ids(t) && x < |n0| ==> x < |n1| && n1[x] == n0[x]
    ensures Rep(n1, t)
    decreases t, 1
  {
    if t.Fork? {
      assert forall x :: x in IdsAll(t.kids) ==> x in Ids(t);
      RepAllFrame(n0, n1, t.kids);
    }
  }

  lemma {:induction false} RepAllFrame(n0: seq<Node>, n1: seq<Node>, kids: seq<Tree>)
    requires RepAll(n0, kids)
    requires forall x :: x in IdsAll(kids) && x < |n0| ==> x < |n1| && n1[x] == n0[x]
    ensures RepAll(n1, kids)
    decreases kids, 0
  {
    forall i | 0 <= i < |kids| ensures Rep(n1, kids[i]) {
      IdsWithin(kids, i);
      RepFrame(n0, n1, kids[i]);
    }
  }

  lemma {:induction false} IdsWithin(kids: seq<Tree>, i: nat)
    requires i < |kids|
    ensures Ids(kids[i]) <= IdsAll(kids)
    decreases kids, 0
  {
    if i > 0 {
      IdsWithin(kids[1..], i - 1);
    }
  }

  lemma {:induction false} RepLive(nodes: seq<Node>, t: Tree)
    requires Rep(nodes, t)
    ensures forall x :: x in Ids(t) ==> Live(nodes, x) == 1 && x > 0
    decreases t, 1
  {
    if t.Fork? {
      RepAllLive(nodes, t.kids);
    }
  }

  lemma {:induction false} RepAllLive(nodes: seq<Node>, kids: seq<Tree>)
    requires RepAll(nodes, kids)
    ensures forall x :: x in IdsAll(kids) ==> Live(nodes, x) == 1 && x > 0
    decreases kids, 0
  {
    if kids != [] {
      RepLive(nodes, kids[0]);
      assert RepAll(nodes, kids[1..]);
      RepAllLive(nodes, kids[1..]);
    }
  }

  lemma RepAllCat(nodes: seq<Node>, a: seq<Tree>, b: seq<Tree>)
    ensures RepAll(nodes, a + b) <==> RepAll(nodes, a) && RepAll(nodes, b)
  {
    var c := a + b;
    assert forall i :: 0 <= i < |a| ==> c[i] == a[i];
    assert forall i :: 0 <= i < |b| ==> c[|a| + i] == b[i];
    if RepAll(nodes, c) {
      forall i | 0 <= i < |b| ensures Rep(nodes, b[i]) {
        assert Rep(nodes, c[|a| + i]);
      }
    }
  }

  lemma ForestCat(a: seq<Tree>, b: seq<Tree>, h: nat, mx: nat)
    ensures Forest(a + b, h, mx) <==> Forest(a, h, mx) && Forest(b, h, mx)
  {
    var c := a + b;
    assert forall i :: 0 <= i < |a| ==> c[i] == a[i];
    assert forall i :: 0 <= i < |b| ==> c[|a| + i] == b[i];
    if Forest(c, h, mx) {
      forall i | 0 <= i < |b| ensures Good(b[i], h, mx) {
        assert Good(c[|a| + i], h, mx);
      }
    }
  }

  // ---- first keys

  /** The first key of a subtree is the key of its first entry. */
  lemma {:induction false} FirstKeyIsFirst(t: Tree, h: nat, mx: nat)
    requires Body(t, h, mx) && mx >= 3
    ensures Flat(t) == [] ==> FirstKey(t) == [] && t.Tip?
    ensures Flat(t) != [] ==> FirstKey(t) == Flat(t)[0].key && FirstKey(t) != []
    ensures Count(t) > 0 ==> Flat(t) != []
    decreases t
  {
    if t.Fork? {
      assert Good(t.kids[0], h - 1, mx);
      FirstKeyIsFirst(t.kids[0], h - 1, mx);
      assert FlatAll(t.kids) == Flat(t.kids[0]) + FlatAll(t.kids[1..]);
    }
  }

  lemma SortedPieces(a: seq<Entry>, m: seq<Entry>, b: seq<Entry>, k: Bytes)
    requires Sorted(a + m + b)
    requires a != [] ==> m != [] && Rank(m[0].key) <= Rank(k)
    requires b != [] ==> Rank(k) < Rank(b[0].key)
    ensures Below(a, k) && Above(b, k) && Sorted(m)
  {
    var s := a + m + b;
    forall i | 0 <= i < |a| ensures Rank(a[i].key) < Rank(k) {
      assert s[i] == a[i] && s[|a|] == m[0];
    }
    forall i | 0 <= i < |b| ensures Rank(k) < Rank(b[i].key) {
      assert s[|a| + |m| + i] == b[i] && s[|a| + |m|] == b[0];
    }
    forall i, j | 0 <= i < j < |m| ensures Rank(m[i].key) < Rank(m[j].key) {
      assert s[|a| + i] == m[i] && s[|a| + j] == m[j];
    }
  }

  /** The first entry of a non-empty list of siblings. */
  lemma ForestFirst(kids: seq<Tree>, h: nat, mx: nat)
    requires kids != [] && Good(kids[0], h, mx) && mx >= 3
    ensures FlatAll(kids) != [] && FirstKey(kids[0]) == FlatAll(kids)[0].key
    ensures Flat(kids[0]) != [] && FlatAll(kids)[0] == Flat(kids[0])[0]
    ensures FirstKey(kids[0]) != []
  {
    FirstKeyIsFirst(kids[0], h, mx);
  }

  /** A key descends into the only child that can hold it. */
  lemma Descend(t: Tree, h: nat, mx: nat, idx: nat, k: Bytes)
    requires t.Fork? && Body(t, h, mx) && mx >= 3 && Sorted(Flat(t)) && idx < |t.kids|
    requires idx > 0 ==> Rank(t.seps[idx - 1]) <= Rank(k)
    requires idx < |t.seps| ==> Rank(k) < Rank(t.seps[idx])
    ensures Flat(t) == FlatAll(t.kids[..idx]) + Flat(t.kids[idx]) + FlatAll(t.kids[idx + 1..])
    ensures Below(FlatAll(t.kids[..idx]), k)
    ensures Above(FlatAll(t.kids[idx + 1..]), k)
    ensures Sorted(Flat(t.kids[idx]))
    ensures Flat(t.kids[idx]) != []
    ensures idx > 0 ==> Rank(Flat(t.kids[idx])[0].key) <= Rank(k)
  {
    var a, x, b := t.kids[..idx], t.kids[idx], t.kids[idx + 1..];
    assert t.kids == a + [x] + b;
    Cut(a, [x], b, 0);
    One(x);
    assert Good(x, h - 1, mx);
    ForestFirst([x], h - 1, mx);
    if b != [] {
      assert b[0] == t.kids[idx + 1];
      ForestFirst(b, h - 1, mx);
    }
    SortedPieces(FlatAll(a), Flat(x), FlatAll(b), k);
  }

  /** Exact separators over sorted entries are strictly increasing. */
  lemma SeparatorsIncrease(t: Tree, h: nat, mx: nat)
    requires t.Fork? && Body(t, h, mx) && mx >= 3 && Sorted(Flat(t))
    ensures Increasing(t.seps)
  {
    forall i, j | 0 <= i < j < |t.seps| ensures Rank(t.seps[i]) < Rank(t.seps[j]) {
      SeparatorOrder(t, h, mx, i, j);
    }
  }

  lemma SeparatorOrder(t: Tree, h: nat, mx: nat, i: nat, j: nat)
    requires t.Fork? && Body(t, h, mx) && mx >= 3 && Sorted(Flat(t)) && i < j < |t.seps|
    ensures Rank(t.seps[i]) < Rank(t.seps[j])
  {
    var kids := t.kids;
    var a, b := kids[..j + 1], kids[j + 1..];
    assert kids == a + b;
    FlatCat(a, b);
    var a0, a1 := a[..i + 1], a[i + 1..];
    assert a == a0 + a1;
    FlatCat(a0, a1);
    assert a1[0] == kids[i + 1] && b[0] == kids[j + 1];
    assert Good(kids[i + 1], h - 1, mx) && Good(kids[j + 1], h - 1, mx);
    FirstKeyIsFirst(kids[i + 1], h - 1, mx);
    FirstKeyIsFirst(kids[j + 1], h - 1, mx);
    var f := Flat(t);
    assert f[|FlatAll(a0)|] == Flat(kids[i + 1])[0];
    assert f[|FlatAll(a)|] == Flat(kids[j + 1])[0];
  }

  lemma KeysIncrease(n: Node, es: seq<Entry>, next: Id)
    requires Stores(n, es, next) && Sorted(es)
    ensures Increasing(n.keys)
  {
  }
}
