/** The iterator: a cursor on the leaf chain with an optional start and limit.

    The tree's lock is held for the life of an iterator, so the tree does not change under it. */
module Cursor {
  import opened KvTypes
  import opened Entries
  import opened TreeShape
  import opened TreeChain
  import opened TreeGraft
  import opened BTree

  /** The entries from position idx of leaf i on. */
  ghost function After(tips: seq<Tree>, i: nat, idx: nat): seq<Entry>
    requires i < |tips| && tips[i].Tip? && idx <= |tips[i].es|
  {
    tips[i].es[idx..] + FlatAll(tips[i + 1..])
  }

  lemma AfterLeaf(tips: seq<Tree>, i: nat, idx: nat)
    requires i < |tips| && tips[i].Tip? && idx <= |tips[i].es|
    requires i + 1 < |tips| ==> tips[i + 1].Tip?
    ensures After(tips, i, idx) == tips[i].es[idx..] + if i + 1 < |tips| then After(tips, i + 1, 0) else []
  {
    if i + 1 < |tips| {
      assert tips[i + 1..][0] == tips[i + 1] && tips[i + 1..][1..] == tips[i + 2..];
      assert FlatAll(tips[i + 1..]) == tips[i + 1].es + FlatAll(tips[i + 2..]);
    } else {
      assert tips[i + 1..] == [];
    }
  }

  lemma AfterWhole(tips: seq<Tree>, i: nat, idx: nat)
    requires i < |tips| && tips[i].Tip? && idx <= |tips[i].es|
    ensures FlatAll(tips) == FlatAll(tips[..i]) + tips[i].es[..idx] + After(tips, i, idx)
  {
    GraftPieces(tips, i, [], 0);
    CutRun(FlatAll(tips[..i]), tips[i].es, idx, FlatAll(tips[i + 1..]));
  }

  lemma CutRun(a: seq<Entry>, es: seq<Entry>, idx: nat, b: seq<Entry>)
    requires idx <= |es|
    ensures a + es + b == a + es[..idx] + (es[idx..] + b)
  {
  }

  /** Past the limit nothing is left to deliver. */
  lemma PastLimit(s: seq<Entry>, limit: Option<Bytes>)
    requires Sorted(s) && (s != [] ==> !Within(s[0].key, None, limit))
    ensures Between(s, None, limit) == []
    ensures forall i :: 0 <= i < |s| ==> !Within(s[i].key, None, limit)
  {
    forall i | 0 <= i < |s| ensures !Within(s[i].key, None, limit) {
      assert i > 0 ==> Rank(s[0].key) < Rank(s[i].key);
    }
    BetweenNone(s, None, limit);
  }

  /** Leaving a leaf that is used up, or past the limit, drops nothing that was due. */
  lemma SkipLeaf(tips: seq<Tree>, i: nat, idx: nat, limit: Option<Bytes>)
    requires i < |tips| && tips[i].Tip? && idx <= |tips[i].es| && Sorted(FlatAll(tips))
    requires i + 1 < |tips| ==> tips[i + 1].Tip?
    requires idx < |tips[i].es| ==> !Within(tips[i].es[idx].key, None, limit)
    ensures Between(After(tips, i, idx), None, limit) ==
            Between(if i + 1 < |tips| then After(tips, i + 1, 0) else [], None, limit)
  {
    AfterLeaf(tips, i, idx);
    var rest := if i + 1 < |tips| then After(tips, i + 1, 0) else [];
    var here := tips[i].es[idx..];
    BetweenCut(here, rest, None, limit);
    if here != [] {
      AfterSorted(tips, i, idx);
      PastLimit(here, limit);
    }
  }

  lemma AfterSorted(tips: seq<Tree>, i: nat, idx: nat)
    requires i < |tips| && tips[i].Tip? && idx <= |tips[i].es| && Sorted(FlatAll(tips))
    ensures Sorted(tips[i].es[idx..])
  {
    GraftPieces(tips, i, [], 0);
    SortedMiddle(FlatAll(tips[..i]), tips[i].es, FlatAll(tips[i + 1..]));
  }

  /** A cursor at the lower bound of `start` has everything from `start` on ahead of it. */
  lemma SeekPosition(tips: seq<Tree>, i: nat, idx: nat, start: Bytes, limit: Option<Bytes>)
    requires i < |tips| && tips[i].Tip? && idx <= |tips[i].es|
    requires Below(FlatAll(tips[..i]), start) && Above(FlatAll(tips[i + 1..]), start)
    requires forall j :: 0 <= j < idx ==> Rank(tips[i].es[j].key) < Rank(start)
    requires forall j :: idx <= j < |tips[i].es| ==> Rank(start) <= Rank(tips[i].es[j].key)
    ensures Between(After(tips, i, idx), None, limit) == Between(FlatAll(tips), Some(start), limit)
  {
    var before := FlatAll(tips[..i]) + tips[i].es[..idx];
    AfterWhole(tips, i, idx);
    BetweenCut(before, After(tips, i, idx), Some(start), limit);
    BetweenNone(before, Some(start), limit);
    BetweenFrom(After(tips, i, idx), Some(start), limit);
  }

  lemma FirstPosition(tips: seq<Tree>)
    requires tips != [] && tips[0].Tip?
    ensures After(tips, 0, 0) == FlatAll(tips)
  {
    AfterWhole(tips, 0, 0);
  }

  class TreeIterator {
    const tree: BPlusTree
    const start: Option<Bytes>
    const limit: Option<Bytes>
    var currentLeaf: Id
    var currentIdx: nat
    ghost var leafNo: nat

    /** The cursor is at the end or at a place in a leaf of the tree. */
    ghost predicate Placed()
      reads this, tree
    {
      && tree.Valid()
      && (currentLeaf != 0 ==>
            && leafNo < |Tips(tree.shape)|
            && Tips(tree.shape)[leafNo].Tip?
            && Tips(tree.shape)[leafNo].id == currentLeaf
            && currentIdx <= |Tips(tree.shape)[leafNo].es|)
    }

    /** Only the end of the chain counts as the end. */
    ghost predicate AtChain()
      reads this, tree
    {
      currentLeaf == 0 ==> leafNo == |Tips(tree.shape)|
    }

    /** All leaves before leaf i hold smaller keys than k and all after it larger ones. */
    ghost predicate StartsIn(i: nat, k: Bytes)
      reads tree
    {
      && i < |Tips(tree.shape)|
      && Below(FlatAll(Tips(tree.shape)[..i]), k) && Above(FlatAll(Tips(tree.shape)[i + 1..]), k)
    }

    /** Everything still to be delivered. */
    ghost function Pending(): seq<Entry>
      requires Placed()
      reads this, tree
    {
      if currentLeaf == 0 then [] else Between(After(Tips(tree.shape), leafNo, currentIdx), None, limit)
    }

    /** The cursor rests on an entry below the limit or at the end. */
    ghost predicate Settled()
      reads this, tree
    {
      && Placed()
      && (currentLeaf != 0 ==>
            var es := Tips(tree.shape)[leafNo].es;
            currentIdx < |es| && Within(es[currentIdx].key, None, limit))
    }

    lemma SettledPending()
      requires Settled()
      ensures currentLeaf != 0 ==>
                var e := Tips(tree.shape)[leafNo].es[currentIdx];
                Pending() != [] && Pending()[0] == e
                && Pending()[1..] == Between(After(Tips(tree.shape), leafNo, currentIdx + 1), None, limit)
    {
      if currentLeaf != 0 {
        var s := After(Tips(tree.shape), leafNo, currentIdx);
        assert s[1..] == After(Tips(tree.shape), leafNo, currentIdx + 1);
      }
    }

    constructor (tree: BPlusTree, start: Option<Bytes>, limit: Option<Bytes>)
      requires tree.Valid()
      ensures this.tree == tree && this.start == start && this.limit == limit
      ensures Settled() && AtChain() && Pending() == Between(Flat(tree.shape), start, limit)
    {
      this.tree := tree;
      this.start := start;
      this.limit := limit;
      currentLeaf := 0;
      currentIdx := 0;
      leafNo := 0;
      new;
      ghost var from, visited := SeekToFirst();
    }

    /** The node of the leaf the cursor is in. */
    method Leaf() returns (leaf: Node)
      requires Placed() && currentLeaf != 0
      ensures Stores(leaf, Tips(tree.shape)[leafNo].es, Tips(tree.shape)[leafNo].next)
      ensures Increasing(leaf.keys)
    {
      LeafOf(tree.nodes, tree.shape, tree.height - 1, tree.maxKeys, leafNo);
      leaf := tree.GetNode(currentLeaf);
      KeysIncrease(leaf, Tips(tree.shape)[leafNo].es, Tips(tree.shape)[leafNo].next);
    }

    /** Move to the first entry of the range; `from` is the leaf the walk begins in. */
    method SeekToFirst() returns (ghost from: nat, ghost visited: nat)
      requires tree.Valid()
      modifies this
      ensures Settled() && Pending() == Between(Flat(tree.shape), start, limit)
      ensures from < |Tips(tree.shape)| && leafNo == from + visited && AtChain()
      ensures start.None? ==> from == 0
      ensures start.Some? ==> StartsIn(from, start.value)
    {
      if start.Some? {
        from, visited := Seek(start.value);
        return;
      }
      LeftmostLeaf();
      from := 0;
      visited := SkipEmptyOrPastLimit();
    }

    /** Walk down the left edge of the tree. */
    method LeftmostLeaf()
      requires tree.Valid()
      modifies this
      ensures Placed() && currentLeaf != 0 && leafNo == 0 && Pending() == Between(Flat(tree.shape), None, limit)
    {
      currentLeaf := tree.rootId;
      currentIdx := 0;
      ghost var t := tree.shape;
      ghost var h: nat := tree.height - 1;
      while currentLeaf != 0
        invariant tree.Valid() && currentLeaf == t.id && currentIdx == 0
        invariant Rep(tree.nodes, t) && Body(t, h, tree.maxKeys) && FirstLeaf(t) == FirstLeaf(tree.shape)
        decreases t
      {
        var node := tree.GetNode(currentLeaf);
        if node == Free || node.Leaf? {
          break;
        }
        assert RepAll(tree.nodes, t.kids) && Good(t.kids[0], h - 1, tree.maxKeys);
        currentLeaf := node.children[0];
        t, h := t.kids[0], h - 1;
      }
      TipsFirst(tree.shape, tree.height - 1, tree.maxKeys);
      TipsFlat(tree.shape);
      leafNo := 0;
      FirstPosition(Tips(tree.shape));
    }

    /** Move to the first entry not below `target`. */
    method Seek(target: Bytes) returns (ghost from: nat, ghost visited: nat)
      requires tree.Valid()
      modifies this
      ensures Settled() && Pending() == Between(Flat(tree.shape), Some(target), limit)
      ensures from < |Tips(tree.shape)| && StartsIn(from, target) && leafNo == from + visited && AtChain()
    {
      ghost var i;
      currentLeaf, i := tree.FindLeaf(target);
      leafNo := i;
      currentIdx := 0;
      TipsFlat(tree.shape);
      var leaf := Leaf();
      currentIdx := LowerBound(leaf.keys, target);
      SeekPosition(Tips(tree.shape), leafNo, currentIdx, target, limit);
      from := leafNo;
      visited := SkipEmptyOrPastLimit();
    }

    /** Follow the chain to the next leaf when nothing of this one is due any more. */
    method NextLeaf(next: Id)
      requires Placed() && currentLeaf != 0 && next == Tips(tree.shape)[leafNo].next
      requires var es := Tips(tree.shape)[leafNo].es;
               currentIdx < |es| ==> !Within(es[currentIdx].key, None, limit)
      modifies this
      ensures Placed() && Pending() == old(Pending()) && leafNo == old(leafNo) + 1
      ensures AtChain()
    {
      LeafDone(tree, leafNo, currentIdx, limit);
      currentLeaf := next;
      currentIdx := 0;
      leafNo := leafNo + 1;
    }

    /** Walk on until the cursor rests on an entry below the limit, and count the leaves left behind.
        When nothing is due any more, that is every leaf from here to the end of the chain. */
    method SkipEmptyOrPastLimit() returns (ghost visited: nat)
      requires Placed()
      modifies this
      ensures Settled() && Pending() == old(Pending())
      ensures leafNo == old(leafNo) + visited
      ensures old(AtChain()) ==> AtChain()
    {
      visited := 0;
      while currentLeaf != 0
        invariant Placed() && Pending() == old(Pending())
        invariant leafNo == old(leafNo) + visited && (old(AtChain()) ==> AtChain())
        decreases currentLeaf != 0, |Tips(tree.shape)| - leafNo
      {
        var leaf := Leaf();
        if currentIdx < |leaf.keys| {
          BelowLimit(leaf.keys[currentIdx], limit);
          if limit.None? || Compare(leaf.keys[currentIdx], limit.value) < 0 {
            SettledPending();
            return;
          }
        }
        NextLeaf(leaf.next);
        visited := visited + 1;
      }
    }

    /** True when the cursor is on an entry. */
    predicate HasEntry()
      requires Settled()
      reads this, tree
      ensures HasEntry() <==> Pending() != []
    {
      SettledPending();
      currentLeaf != 0
    }

    /** Move past one entry, and count the leaves left behind. */
    method Next() returns (ghost visited: nat)
      requires Settled()
      modifies this
      ensures Settled()
      ensures Pending() == if old(Pending()) == [] then [] else old(Pending())[1..]
      ensures leafNo == old(leafNo) + visited && (old(AtChain()) ==> AtChain())
    {
      visited := 0;
      SettledPending();
      if !HasEntry() {
        return;
      }
      var leaf := Leaf();
      currentIdx := currentIdx + 1;
      if currentIdx >= |leaf.keys| {
        NextLeaf(leaf.next);
        visited := 1;
      }
      ghost var walked := SkipEmptyOrPastLimit();
      visited := visited + walked;
    }

    method Current() returns (e: Entry)
      requires Settled() && HasEntry()
      ensures e == Pending()[0]
    {
      SettledPending();
      var leaf := Leaf();
      e := Entry(leaf.keys[currentIdx], leaf.values[currentIdx]);
    }

    /** A full scan delivers exactly the entries in the range, in order. Whatever the limit and however
        few they are, it walks from the leaf that the start falls into to the end of the chain. */
    method Scan() returns (out: seq<Entry>, ghost from: nat, ghost visited: nat)
      requires tree.Valid()
      modifies this
      ensures out == Between(Flat(tree.shape), start, limit)
      ensures from < |Tips(tree.shape)| && visited == |Tips(tree.shape)| - from
      ensures if start.None? then from == 0 else StartsIn(from, start.value)
    {
      out := [];
      from, visited := SeekToFirst();
      while HasEntry()
        invariant Settled() && out + Pending() == Between(Flat(tree.shape), start, limit)
        invariant leafNo == from + visited && AtChain()
        decreases |Pending()|
      {
        var e := Current();
        TakeFirst(out, Pending());
        out := out + [e];
        ghost var walked := Next();
        visited := visited + walked;
      }
    }
  }

  /** A scan without results, from the empty string to the empty string: it walks over every leaf of
      the tree, so over a number of leaves that grows in proportion to the size of the tree. */
  method WalkForNothing(tree: BPlusTree) returns (out: seq<Entry>, ghost visited: nat)
    requires tree.Valid()
    ensures out == [] && visited == |Tips(tree.shape)| && tree.size <= visited * tree.maxKeys
  {
    var it := new TreeIterator(tree, Some([]), Some([]));
    NothingBetween(Flat(tree.shape));
    ghost var from;
    out, from, visited := it.Scan();
    TipsFlat(tree.shape);
    TipsFull(tree.shape, tree.height - 1, tree.maxKeys);
    LeavesHold(Tips(tree.shape), tree.maxKeys);
    FirstLeafFirst(tree, from);
  }

  lemma NothingBetween(s: seq<Entry>)
    ensures Between(s, Some([]), Some([])) == []
  {
    forall i | 0 <= i < |s| ensures !Within(s[i].key, Some([]), Some([])) {
      CompareIsRank([], s[i].key);
    }
    BetweenNone(s, Some([]), Some([]));
  }

  /** The empty string falls into the first leaf: an earlier one would hold smaller keys, or none,
      which only a root leaf can. */
  lemma FirstLeafFirst(tree: BPlusTree, from: nat)
    requires tree.Valid() && from < |Tips(tree.shape)|
    requires Below(FlatAll(Tips(tree.shape)[..from]), [])
    ensures from == 0
  {
    if from > 0 {
      TipsFilled(tree.shape, tree.height - 1, tree.maxKeys);
      var before := Tips(tree.shape)[..from];
      assert FlatAll(before) == Flat(before[0]) + FlatAll(before[1..]);
      CompareIsRank([], FlatAll(before)[0].key);
    }
  }

  lemma {:induction false} LeavesHold(tips: seq<Tree>, mx: nat)
    requires forall i :: 0 <= i < |tips| ==> tips[i].Tip? && |tips[i].es| <= mx
    ensures |FlatAll(tips)| <= |tips| * mx
  {
    if tips != [] {
      LeavesHold(tips[1..], mx);
    }
  }

  lemma {:induction false} TipsFull(t: Tree, h: nat, mx: nat)
    requires Body(t, h, mx) && Count(t) <= mx
    ensures forall i :: 0 <= i < |Tips(t)| ==> Tips(t)[i].Tip? && |Tips(t)[i].es| <= mx
    decreases t, 1
  {
    if t.Fork? {
      TipsAllFull(t.kids, h - 1, mx);
    }
  }

  lemma {:induction false} TipsAllFull(kids: seq<Tree>, h: nat, mx: nat)
    requires Forest(kids, h, mx)
    ensures forall i :: 0 <= i < |TipsAll(kids)| ==> TipsAll(kids)[i].Tip? && |TipsAll(kids)[i].es| <= mx
    decreases kids, 0
  {
    if kids != [] {
      TipsFull(kids[0], h, mx);
      TipsAllFull(kids[1..], h, mx);
    }
  }

  lemma {:induction false} TipsFilled(t: Tree, h: nat, mx: nat)
    requires Body(t, h, mx) && mx >= 3
    ensures |Tips(t)| > 1 ==> forall i :: 0 <= i < |Tips(t)| ==> Flat(Tips(t)[i]) != []
    decreases t, 1
  {
    if t.Fork? {
      TipsAllFilled(t.kids, h - 1, mx);
    }
  }

  lemma {:induction false} TipsAllFilled(kids: seq<Tree>, h: nat, mx: nat)
    requires Forest(kids, h, mx) && mx >= 3
    ensures forall i :: 0 <= i < |TipsAll(kids)| ==> Flat(TipsAll(kids)[i]) != []
    decreases kids, 0
  {
    if kids != [] {
      GoodFilled(kids[0], h, mx);
      TipsAllFilled(kids[1..], h, mx);
    }
  }

  lemma {:induction false} GoodFilled(t: Tree, h: nat, mx: nat)
    requires Good(t, h, mx) && mx >= 3
    ensures forall i :: 0 <= i < |Tips(t)| ==> Flat(Tips(t)[i]) != []
    decreases t, 1
  {
    if t.Fork? {
      TipsAllFilled(t.kids, h - 1, mx);
    }
  }

  /** What a scan delivers, in terms of the map: its entries in the range, in increasing order. */
  lemma ScanMeaning(tree: BPlusTree, start: Option<Bytes>, limit: Option<Bytes>)
    requires tree.Valid()
    ensures var out := Between(Flat(tree.shape), start, limit);
            && (forall i, j :: 0 <= i < j < |out| ==> Compare(out[i].key, out[j].key) < 0)
            && Contents(out) == (map k | k in tree.Model() && Within(k, start, limit) :: tree.Model()[k])
            && forall k: Bytes :: k in Contents(out) <==>
                 && k in tree.Model()
                 && (start.Some? ==> Compare(start.value, k) <= 0) && (limit.Some? ==> Compare(k, limit.value) < 0)
  {
    var out := Between(Flat(tree.shape), start, limit);
    BetweenMeaning(Flat(tree.shape), start, limit);
    forall i, j | 0 <= i < j < |out| ensures Compare(out[i].key, out[j].key) < 0 {
      CompareIsRank(out[i].key, out[j].key);
    }
    forall k: Bytes
      ensures k in Contents(out) <==>
              && k in tree.Model()
              && (start.Some? ==> Compare(start.value, k) <= 0) && (limit.Some? ==> Compare(k, limit.value) < 0)
    {
      if start.Some? {
        CompareIsRank(start.value, k);
      }
      if limit.Some? {
        CompareIsRank(k, limit.value);
      }
    }
  }

  lemma TakeFirst(a: seq<Entry>, b: seq<Entry>)
    requires b != []
    ensures a + b == (a + [b[0]]) + b[1..]
  {
  }

  lemma BelowLimit(k: Bytes, limit: Option<Bytes>)
    ensures Within(k, None, limit) <==> limit.None? || Compare(k, limit.value) < 0
  {
    if limit.Some? {
      CompareIsRank(k, limit.value);
    }
  }

  /** What follows a leaf of which nothing is due any more. */
  lemma LeafDone(tree: BPlusTree, i: nat, idx: nat, limit: Option<Bytes>)
    requires tree.Valid() && i < |Tips(tree.shape)| && Tips(tree.shape)[i].Tip? && idx <= |Tips(tree.shape)[i].es|
    requires var es := Tips(tree.shape)[i].es; idx < |es| ==> !Within(es[idx].key, None, limit)
    ensures var tips := Tips(tree.shape);
            if i + 1 < |tips| then
              && tips[i + 1].Tip? && tips[i + 1].id != 0 && tips[i].next == tips[i + 1].id
              && Between(After(tips, i, idx), None, limit) == Between(After(tips, i + 1, 0), None, limit)
            else tips[i].next == 0 && Between(After(tips, i, idx), None, limit) == []
  {
    TipsFlat(tree.shape);
    TipsChained(tree.shape, tree.height - 1, tree.maxKeys, 0);
    SkipLeaf(Tips(tree.shape), i, idx, limit);
    TipIdsLive(tree, i);
  }

  /** Leaf ids are never 0, so only the end of the chain stops a walk. */
  lemma TipIdsLive(tree: BPlusTree, i: nat)
    requires tree.Valid() && i < |Tips(tree.shape)|
    ensures i + 1 < |Tips(tree.shape)| ==>
              Tips(tree.shape)[i + 1].Tip? && Tips(tree.shape)[i + 1].id != 0
              && Start(Tips(tree.shape)[i + 1..], 0) == Tips(tree.shape)[i + 1].id
  {
    TipsFlat(tree.shape);
    TipsRep(tree.nodes, tree.shape);
    if i + 1 < |Tips(tree.shape)| {
      assert Rep(tree.nodes, Tips(tree.shape)[i + 1]);
    }
  }
}
