/** Removing a key from the B-tree of one level (BTreeRemove::remove_1d). */
module BTreeRemove {
  import opened Ranges
  import opened Items
  import opened Nodes
  import opened BTrees
  import opened BTreeSplit
  import opened BTreeInsert
  import opened BTreeTrade
  import opened BTreeBorrow
  import opened BTreeFill

  // ---------- order ----------

  // Child i is the only place left where the key can be.
  ghost predicate MustBeIn(t: BT, i: nat, k: Range) {
    && i <= |t.items|
    && (i > 0 ==> t.items[i - 1].key.low < k.low)
    && (i < |t.items| ==> t.items[i].key.low >= k.low && t.items[i].key != k)
  }

  lemma {:induction false} DescendDel(t: BT, i: nat, k: Range, kid: BT)
    requires |t.kids| == |t.items| + 1 && MustBeIn(t, i, k) && Ascending(Flat(t))
    requires Flat(kid) == Del(Flat(t.kids[i]), k)
    ensures Flat(WithKid(t, i, kid)) == Del(Flat(t), k)
    ensures Has(Flat(t), k) == Has(Flat(t.kids[i]), k)
    ensures Ascending(Flat(t.kids[i]))
  {
    hide Flat, Del, Has, LeftOf, RightOf;
    ChildBounds(t, i);
    FlatAt(t, i);
    FlatReplaceKid(t, i, kid);
    RightMisses(t, i, k);
    DelInMiddle(LeftOf(t, i), Flat(t.kids[i]), RightOf(t, i), k);
  }

  lemma {:induction false} RightMisses(t: BT, i: nat, k: Range)
    requires |t.kids| == |t.items| + 1 && MustBeIn(t, i, k) && Ascending(Flat(t))
    ensures forall p :: 0 <= p < |RightOf(t, i)| ==> RightOf(t, i)[p].key != k
  {
    hide Flat;
    var r := RightOf(t, i);
    if i < |t.items| {
      FlatAt(t, i);
      SuffixAscending(LeftOf(t, i) + Flat(t.kids[i]), r);
      assert r[0] == t.items[i];
      forall p | 0 <= p < |r|
        ensures r[p].key != k
      {
        assert p > 0 ==> r[0].key.low < r[p].key.low;
      }
    }
  }

  // Own keys in their place among the others.
  lemma OwnInFlat(t: BT, j: nat) returns (p: nat)
    requires Shaped(t.items, t.kids) && j < |t.items|
    ensures p < |Flat(t)| && Flat(t)[p] == t.items[j]
  {
    if t.kids == [] {
      p := j;
    } else {
      FlatAround(t, j);
      p := |LeftOf(t, j)| + |Flat(t.kids[j])|;
    }
  }

  // The keys of child i lie before key i, those of child i + 1 behind it.
  lemma {:induction false} NeighbourLows(t: BT, i: nat, p: nat)
    requires |t.kids| == |t.items| + 1 && i < |t.items| && Ascending(Flat(t))
    ensures p < |Flat(t.kids[i])| ==> Flat(t.kids[i])[p].key.low < t.items[i].key.low
    ensures p < |Flat(t.kids[i + 1])| ==> t.items[i].key.low < Flat(t.kids[i + 1])[p].key.low
  {
    hide Flat;
    var l, a, b, r := LeftOf(t, i), Flat(t.kids[i]), Flat(t.kids[i + 1]), RightOf(t, i + 1);
    FlatAround(t, i);
    var s := Flat(t);
    assert s[|l| + |a|] == t.items[i];
    if p < |a| {
      assert s[|l| + p] == a[p];
    }
    if p < |b| {
      assert s[|l| + |a| + 1 + p] == b[p];
    }
  }

  lemma {:induction false} OwnAscending(t: BT, i: nat)
    requires |t.kids| == |t.items| + 1 && i + 1 < |t.items| && Ascending(Flat(t))
    requires t.kids[i + 1].items != [] && Shaped(t.kids[i + 1].items, t.kids[i + 1].kids)
    ensures t.items[i].key.low < t.items[i + 1].key.low
  {
    var p := OwnInFlat(t.kids[i + 1], 0);
    NeighbourLows(t, i, p);
    NeighbourLows(t, i + 1, p);
  }

  // ---------- the node ----------

  // The first key that starts no earlier.
  method FindKey(pool: NodePool, node: Index, k: Range) returns (i: nat)
    requires node in pool.slots
    ensures i <= pool.slots[node].keyCnt
    ensures forall j :: 0 <= j < i ==> pool.slots[node].keys[j].key.low < k.low
    ensures i < pool.slots[node].keyCnt ==> pool.slots[node].keys[i].key.low >= k.low
  {
    i := 0;
    while i < pool.slots[node].keyCnt && pool.slots[node].keys[i].key.low < k.low
      invariant i <= pool.slots[node].keyCnt
      invariant forall j :: 0 <= j < i ==> pool.slots[node].keys[j].key.low < k.low
    {
      i := i + 1;
    }
  }

  // ---------- filling a child ----------

  // The same keys; the child that the key must be in has one to spare.
  ghost predicate Filled(m0: Memory, m1: Memory, t: BT, t': BT, parent: Option<Index>, h: nat, c: nat, k: Range) {
    && Levelled(m0, m1, t, t', parent, h)
    && |t'.items| + 1 >= |t.items|
    && MustBeIn(t', c, k) && c < |t'.kids| && |t'.kids[c].items| > MIN_DEGREE
  }

  lemma {:induction false} PrevMustBeIn(t: BT, i: nat, k: Range)
    requires TwoAlike(t, i) && i < |t.items| && Ascending(Flat(t)) && t.kids[i].items != []
    requires MustBeIn(t, i + 1, k)
    ensures MustBeIn(PrevTraded(t, i), i + 1, k)
  {
    var l := t.kids[i];
    var p := OwnInFlat(l, |l.items| - 1);
    NeighbourLows(t, i, p);
  }

  lemma {:induction false} NextMustBeIn(t: BT, i: nat, k: Range)
    requires TwoAlike(t, i) && i < |t.items| && Ascending(Flat(t)) && t.kids[i + 1].items != []
    requires MustBeIn(t, i, k)
    ensures MustBeIn(NextTraded(t, i), i, k)
  {
    var p := OwnInFlat(t.kids[i + 1], 0);
    NeighbourLows(t, i, p);
  }

  // After a merge at i the key is in the merged child.
  lemma {:induction false} MergedMustBeIn(t: BT, i: nat, k: Range)
    requires TwoAlike(t, i) && i < |t.items| && Ascending(Flat(t)) && t.kids[i + 1].items != []
    requires i > 0 ==> t.items[i - 1].key.low < k.low
    requires i + 1 < |t.items| ==>
        t.items[i].key.low >= k.low || (t.items[i + 1].key.low >= k.low && t.items[i + 1].key != k)
    ensures MustBeIn(WithJoined(t, i, Merged(t, i)), i, k)
  {
    if i + 1 < |t.items| {
      OwnAscending(t, i);
    }
  }

  lemma KidAt(m: Memory, t: BT, parent: Option<Index>, h: nat, i: nat)
    requires Sub(m, t, parent, h) && h > 0 && i < |t.kids|
    ensures |t.kids| == |t.items| + 1 && t.id in m && m[t.id].keyCnt == |t.items|
    ensures m[t.id].children[i] == Some(t.kids[i].id)
    ensures t.kids[i].id in m && m[t.kids[i].id].keyCnt == |t.kids[i].items| >= MIN_DEGREE
    ensures Sub(m, t.kids[i], Some(t.id), h - 1) && Shaped(t.kids[i].items, t.kids[i].kids)
    ensures t.id !in Ids(t.kids[i])
  {
    assert Sub(m, t.kids[i], Some(t.id), h - 1);
    KidInside(t, i);
  }

  /** Gives the child one more key: from a sibling that has one to spare, else by a merge. */
  method Fill(pool: NodePool, node: Index, idx: nat, ghost k: Range, ghost t: BT, ghost parent: Option<Index>,
              ghost h: nat)
    returns (ghost t': BT, ghost c: nat)
    requires Sub(pool.slots, t, parent, h) && h > 0 && node == t.id && t.items != []
    requires idx < |t.kids| && |t.kids[idx].items| == MIN_DEGREE
    requires Ascending(Flat(t)) && MustBeIn(t, idx, k)
    requires forall j :: 0 <= j < idx ==> t.items[j].key.low < k.low
    modifies pool
    ensures Filled(old(pool.slots), pool.slots, t, t', parent, h, c, k)
    ensures c == if idx == |t.items| && idx > |t'.items| then idx - 1 else idx
  {
    hide Sub, Flat, Ids, Holds, Levelled;
    KidAt(pool.slots, t, parent, h, idx);
    if idx > 0 {
      KidAt(pool.slots, t, parent, h, idx - 1);
      TwoKidsHold(pool.slots, t, parent, h, idx - 1);
    }
    if idx < |t.items| {
      KidAt(pool.slots, t, parent, h, idx + 1);
      TwoKidsHold(pool.slots, t, parent, h, idx);
    }
    c := idx;
    if idx != 0 && pool.slots[pool.slots[node].children[idx - 1].value].keyCnt >= MIN_DEGREE + 1 {
      PrevMustBeIn(t, idx - 1, k);
      t' := BorrowFromPrev(pool, node, idx, t, parent, h);
    } else if idx != pool.slots[node].keyCnt
        && pool.slots[pool.slots[node].children[idx + 1].value].keyCnt >= MIN_DEGREE + 1 {
      NextMustBeIn(t, idx, k);
      t' := BorrowFromNext(pool, node, idx, t, parent, h);
    } else if idx != pool.slots[node].keyCnt {
      MergedMustBeIn(t, idx, k);
      t' := Merge(pool, node, idx, t, parent, h);
    } else {
      MergedMustBeIn(t, idx - 1, k);
      t' := Merge(pool, node, idx - 1, t, parent, h);
      c := idx - 1;
    }
  }

  // ---------- predecessor and successor ----------

  lemma {:induction false} LastOfFlat(t: BT)
    requires |t.kids| == |t.items| + 1 && Flat(t.kids[|t.items|]) != []
    ensures Flat(t) != [] && Flat(t)[|Flat(t)| - 1] == Flat(t.kids[|t.items|])[|Flat(t.kids[|t.items|])| - 1]
  {
    FlatAt(t, |t.items|);
    assert RightOf(t, |t.items|) == [];
  }

  lemma {:induction false} FirstOfFlat(t: BT)
    requires |t.kids| == |t.items| + 1 && Flat(t.kids[0]) != []
    ensures Flat(t) != [] && Flat(t)[0] == Flat(t.kids[0])[0]
  {
    FlatAt(t, 0);
    assert LeftOf(t, 0) == [];
  }

  lemma {:induction false} FlatNonEmpty(m: Memory, t: BT, parent: Option<Index>, h: nat)
    requires Sub(m, t, parent, h) && t.items != []
    ensures Flat(t) != []
  {
    if h > 0 {
      FlatAround(t, 0);
    }
  }

  // The largest key below child idx.
  method GetPred(pool: NodePool, node: Index, idx: nat, ghost t: BT, ghost parent: Option<Index>, ghost h: nat)
    returns (x: KeyInfo)
    requires Sub(pool.slots, t, parent, h) && h > 0 && node == t.id && idx < |t.kids|
    ensures var f := Flat(t.kids[idx]); f != [] && x == f[|f| - 1]
  {
    hide Sub, Flat, Holds;
    KidAt(pool.slots, t, parent, h, idx);
    var cur := pool.slots[node].children[idx].value;
    ghost var c, p := t.kids[idx], t.id;
    ghost var hc: nat := h - 1;
    FlatNonEmpty(pool.slots, c, Some(p), hc);
    NodeShape(pool.slots, c, Some(p), hc);
    while !pool.slots[cur].isLeaf
      invariant Sub(pool.slots, c, Some(p), hc) && cur == c.id && cur in pool.slots && |c.items| >= MIN_DEGREE
      invariant pool.slots[cur].isLeaf <==> hc == 0
      invariant Flat(c) != [] && Flat(t.kids[idx]) != []
      invariant Flat(c)[|Flat(c)| - 1] == Flat(t.kids[idx])[|Flat(t.kids[idx])| - 1]
      decreases hc
    {
      NodeShape(pool.slots, c, Some(p), hc);
      KidAt(pool.slots, c, Some(p), hc, |c.items|);
      FlatNonEmpty(pool.slots, c.kids[|c.items|], Some(c.id), hc - 1);
      NodeShape(pool.slots, c.kids[|c.items|], Some(c.id), hc - 1);
      LastOfFlat(c);
      cur := pool.slots[cur].children[pool.slots[cur].keyCnt].value;
      c, p, hc := c.kids[|c.items|], c.id, hc - 1;
    }
    NodeShape(pool.slots, c, Some(p), hc);
    x := pool.slots[cur].keys[pool.slots[cur].keyCnt - 1];
  }

  // The smallest key below child idx + 1.
  method GetSucc(pool: NodePool, node: Index, idx: nat, ghost t: BT, ghost parent: Option<Index>, ghost h: nat)
    returns (x: KeyInfo)
    requires Sub(pool.slots, t, parent, h) && h > 0 && node == t.id && idx + 1 < |t.kids|
    ensures var f := Flat(t.kids[idx + 1]); f != [] && x == f[0]
  {
    hide Sub, Flat, Holds;
    KidAt(pool.slots, t, parent, h, idx + 1);
    var cur := pool.slots[node].children[idx + 1].value;
    ghost var c, p := t.kids[idx + 1], t.id;
    ghost var hc: nat := h - 1;
    FlatNonEmpty(pool.slots, c, Some(p), hc);
    NodeShape(pool.slots, c, Some(p), hc);
    while !pool.slots[cur].isLeaf
      invariant Sub(pool.slots, c, Some(p), hc) && cur == c.id && cur in pool.slots && |c.items| >= MIN_DEGREE
      invariant pool.slots[cur].isLeaf <==> hc == 0
      invariant Flat(c) != [] && Flat(t.kids[idx + 1]) != [] && Flat(c)[0] == Flat(t.kids[idx + 1])[0]
      decreases hc
    {
      NodeShape(pool.slots, c, Some(p), hc);
      KidAt(pool.slots, c, Some(p), hc, 0);
      FlatNonEmpty(pool.slots, c.kids[0], Some(c.id), hc - 1);
      NodeShape(pool.slots, c.kids[0], Some(c.id), hc - 1);
      FirstOfFlat(c);
      cur := pool.slots[cur].children[0].value;
      c, p, hc := c.kids[0], c.id, hc - 1;
    }
    NodeShape(pool.slots, c, Some(p), hc);
    x := pool.slots[cur].keys[0];
  }

  // ---------- the operation ----------

  // The in-order sequence lost exactly the key, if it had it.
  ghost predicate Removed(m0: Memory, m1: Memory, t: BT, t': BT, parent: Option<Index>, h: nat, k: Range) {
    && Sub(m1, t', parent, h) && t'.id == t.id && |t'.items| + 1 >= |t.items|
    && Flat(t') == Del(Flat(t), k)
    && Framed(m0, m1, Ids(t), Ids(t'))
  }

  lemma DelAt<N>(s: seq<Item<N>>, p: nat)
    requires Ascending(s) && p < |s|
    ensures Del(s, s[p].key) == s[..p] + s[p + 1..] && Has(s, s[p].key)
  {
    FindIs(s, s[p].key, p);
  }

  // Removes key idx of a leaf.
  method RemoveFromLeaf(pool: NodePool, node: Index, idx: nat, ghost t: BT, ghost parent: Option<Index>)
    returns (ghost t': BT)
    requires Sub(pool.slots, t, parent, 0) && node == t.id && idx < |t.items| && Ascending(Flat(t))
    modifies pool
    ensures Removed(old(pool.slots), pool.slots, t, t', parent, 0, t.items[idx].key)
  {
    NodeShape(pool.slots, t, parent, 0);
    pool.ShiftKeysLeft(node, idx + 1, pool.slots[node].keyCnt);
    pool.SetKeyCnt(node, pool.slots[node].keyCnt - 1);
    t' := BT(t.id, t.items[..idx] + t.items[idx + 1..], []);
    assert Keys(pool.slots[node]) == t'.items;
    LeafSub(pool.slots, t', parent);
    LeafSub(old(pool.slots), t, parent);
    DelAt(t.items, idx);
  }

  ghost function WithItem(t: BT, i: nat, x: KeyInfo): BT
    requires i < |t.items|
  {
    BT(t.id, t.items[i := x], t.kids)
  }

  lemma {:induction false} ItemWritten(m0: Memory, m1: Memory, t: BT, parent: Option<Index>, h: nat, i: nat, x: KeyInfo)
    requires Sub(m0, t, parent, h) && i < |t.items| && m1 == m0[t.id := WithKey(m0[t.id], i, x)]
    ensures Sub(m1, WithItem(t, i, x), parent, h) && Framed(m0, m1, Ids(t), Ids(WithItem(t, i, x)))
    ensures Ids(WithItem(t, i, x)) == Ids(t)
  {
    SubIds(m0, t, parent, h);
    SubsFrame(m0, m1, t.kids, t.id, h);
    assert Keys(m1[t.id]) == t.items[i := x];
  }

  // The neighbour of the key in order took its place, and is gone below.
  lemma PredTookOver(t: BT, i: nat, kid: BT)
    requires |t.kids| == |t.items| + 1 && i < |t.items| && Ascending(Flat(t))
    requires var f := Flat(t.kids[i]); f != [] && Flat(kid) == f[..|f| - 1]
    ensures var f := Flat(t.kids[i]);
            Flat(WithKid(WithItem(t, i, f[|f| - 1]), i, kid)) == Del(Flat(t), t.items[i].key)
    ensures Has(Flat(t), t.items[i].key)
  {
    hide Flat, LeftOf, RightOf;
    var f := Flat(t.kids[i]);
    var pred := f[|f| - 1];
    var l, g, r := LeftOf(t, i), Flat(t.kids[i + 1]), RightOf(t, i + 1);
    assert WithKid(WithItem(t, i, pred), i, kid) == WithPair(t, i, kid, pred, t.kids[i + 1]);
    PairFlatIs(t, i, kid, pred, t.kids[i + 1]);
    FlatAround(t, i);
    DelAt(Flat(t), |l| + |f|);
    assert f[..|f| - 1] + [pred] == f;
  }

  lemma SuccTookOver(t: BT, i: nat, kid: BT)
    requires |t.kids| == |t.items| + 1 && i < |t.items| && Ascending(Flat(t))
    requires var f := Flat(t.kids[i + 1]); f != [] && Flat(kid) == f[1..]
    ensures var f := Flat(t.kids[i + 1]);
            Flat(WithKid(WithItem(t, i, f[0]), i + 1, kid)) == Del(Flat(t), t.items[i].key)
    ensures Has(Flat(t), t.items[i].key)
  {
    hide Flat, LeftOf, RightOf;
    var f := Flat(t.kids[i + 1]);
    var l, g, r := LeftOf(t, i), Flat(t.kids[i]), RightOf(t, i + 1);
    assert WithKid(WithItem(t, i, f[0]), i + 1, kid) == WithPair(t, i, t.kids[i], f[0], kid);
    PairFlatIs(t, i, t.kids[i], f[0], kid);
    FlatAround(t, i);
    DelAt(Flat(t), |l| + |g|);
    assert [f[0]] + f[1..] == f;
  }

  lemma {:induction false} KidAscending(t: BT, i: nat)
    requires |t.kids| == |t.items| + 1 && i <= |t.items| && Ascending(Flat(t))
    ensures Ascending(Flat(t.kids[i]))
  {
    ChildBounds(t, i);
  }

  // The removal in a child, seen from its parent.
  lemma {:induction false} KidRemoved(m0: Memory, m1: Memory, m2: Memory, t: BT, t1: BT, parent: Option<Index>, h: nat,
                                      c: nat, kid: BT, k: Range, k1: Range)
    requires h > 0 && Sub(m1, t1, parent, h) && t1.id == t.id && |t1.items| + 1 >= |t.items|
    requires Framed(m0, m1, Ids(t), Ids(t1))
    requires c < |t1.kids| && |t1.kids[c].items| > MIN_DEGREE
    requires Removed(m1, m2, t1.kids[c], kid, Some(t1.id), h - 1, k1)
    requires Flat(WithKid(t1, c, kid)) == Del(Flat(t), k)
    ensures Removed(m0, m2, t, WithKid(t1, c, kid), parent, h, k)
  {
    hide Sub, Flat, Ids, Del;
    assert Ids(kid) + {} == Ids(kid);
    ReplaceKid(m1, m2, t1, parent, h, c, kid, {});
    assert Ids(WithKid(t1, c, kid)) + {} == Ids(WithKid(t1, c, kid));
    FramedTrans(m0, m1, m2, Ids(t), Ids(t1), Ids(WithKid(t1, c, kid)));
  }

  // Removes key idx of an inner node.
  method RemoveFromNonLeaf(pool: NodePool, node: Index, idx: nat, ghost t: BT, ghost parent: Option<Index>,
                           ghost h: nat) returns (ghost t': BT)
    requires Sub(pool.slots, t, parent, h) && h > 0 && node == t.id && idx < |t.items| && Ascending(Flat(t))
    requires forall j :: 0 <= j < idx ==> t.items[j].key.low < t.items[idx].key.low
    modifies pool
    ensures Removed(old(pool.slots), pool.slots, t, t', parent, h, t.items[idx].key)
    ensures Has(Flat(t), t.items[idx].key)
    decreases h, 0
  {
    hide Sub, Flat, Ids, Holds, Del, Has, Removed;
    TwoKidsHold(pool.slots, t, parent, h, idx);
    KidAt(pool.slots, t, parent, h, idx);
    KidAt(pool.slots, t, parent, h, idx + 1);
    if pool.slots[pool.slots[node].children[idx].value].keyCnt >= MIN_DEGREE + 1 {
      t' := ReplaceByPred(pool, node, idx, t, parent, h);
    } else if pool.slots[pool.slots[node].children[idx + 1].value].keyCnt >= MIN_DEGREE + 1 {
      t' := ReplaceBySucc(pool, node, idx, t, parent, h);
    } else {
      t' := MergeAndRemove(pool, node, idx, t, parent, h);
    }
  }

  method ReplaceByPred(pool: NodePool, node: Index, idx: nat, ghost t: BT, ghost parent: Option<Index>, ghost h: nat)
    returns (ghost t': BT)
    requires Sub(pool.slots, t, parent, h) && h > 0 && node == t.id && idx < |t.items| && Ascending(Flat(t))
    requires idx < |t.kids| && |t.kids[idx].items| > MIN_DEGREE
    modifies pool
    ensures Removed(old(pool.slots), pool.slots, t, t', parent, h, t.items[idx].key)
    ensures Has(Flat(t), t.items[idx].key)
    decreases h - 1, 2
  {
    hide Sub, Flat, Ids, Holds, Del, Has, Removed;
    ghost var m0 := pool.slots;
    KidAt(pool.slots, t, parent, h, idx);
    KidAscending(t, idx);
    var pred := GetPred(pool, node, idx, t, parent, h);
    pool.SetKey(node, idx, pred);
    ItemWritten(m0, pool.slots, t, parent, h, idx, pred);
    ghost var t1, m1 := WithItem(t, idx, pred), pool.slots;
    KidAt(m1, t1, parent, h, idx);
    var found;
    ghost var kid;
    found, kid := Remove(pool, pool.slots[node].children[idx].value, pred.key, t1.kids[idx], Some(node), h - 1);
    RemovedFlat(m1, pool.slots, t1.kids[idx], kid, Some(node), h - 1, pred.key, |Flat(t.kids[idx])| - 1);
    PredTookOver(t, idx, kid);
    t' := WithKid(t1, idx, kid);
    KidRemoved(m0, m1, pool.slots, t, t1, parent, h, idx, kid, t.items[idx].key, pred.key);
  }

  lemma {:induction false} RemovedFlat(m0: Memory, m1: Memory, t: BT, t': BT, parent: Option<Index>, h: nat, k: Range,
                                       p: nat)
    requires Removed(m0, m1, t, t', parent, h, k) && Ascending(Flat(t)) && p < |Flat(t)| && Flat(t)[p].key == k
    ensures var f := Flat(t); Flat(t') == f[..p] + f[p + 1..]
    ensures p + 1 == |Flat(t)| ==> Flat(t') == Flat(t)[..p]
    ensures p == 0 ==> Flat(t') == Flat(t)[1..]
  {
    hide Sub, Flat, Ids, Del;
    DelAt(Flat(t), p);
  }

  method ReplaceBySucc(pool: NodePool, node: Index, idx: nat, ghost t: BT, ghost parent: Option<Index>, ghost h: nat)
    returns (ghost t': BT)
    requires Sub(pool.slots, t, parent, h) && h > 0 && node == t.id && idx < |t.items| && Ascending(Flat(t))
    requires idx + 1 < |t.kids| && |t.kids[idx + 1].items| > MIN_DEGREE
    modifies pool
    ensures Removed(old(pool.slots), pool.slots, t, t', parent, h, t.items[idx].key)
    ensures Has(Flat(t), t.items[idx].key)
    decreases h - 1, 2
  {
    hide Sub, Flat, Ids, Holds, Del, Has, Removed;
    ghost var m0 := pool.slots;
    KidAt(pool.slots, t, parent, h, idx + 1);
    KidAscending(t, idx + 1);
    var succ := GetSucc(pool, node, idx, t, parent, h);
    pool.SetKey(node, idx, succ);
    ItemWritten(m0, pool.slots, t, parent, h, idx, succ);
    ghost var t1, m1 := WithItem(t, idx, succ), pool.slots;
    KidAt(m1, t1, parent, h, idx + 1);
    var found;
    ghost var kid;
    found, kid := Remove(pool, pool.slots[node].children[idx + 1].value, succ.key, t1.kids[idx + 1], Some(node), h - 1);
    RemovedFlat(m1, pool.slots, t1.kids[idx + 1], kid, Some(node), h - 1, succ.key, 0);
    SuccTookOver(t, idx, kid);
    t' := WithKid(t1, idx + 1, kid);
    KidRemoved(m0, m1, pool.slots, t, t1, parent, h, idx + 1, kid, t.items[idx].key, succ.key);
  }

  method MergeAndRemove(pool: NodePool, node: Index, idx: nat, ghost t: BT, ghost parent: Option<Index>, ghost h: nat)
    returns (ghost t': BT)
    requires Sub(pool.slots, t, parent, h) && h > 0 && node == t.id && idx < |t.items| && Ascending(Flat(t))
    requires TwoAlike(t, idx)
    requires |t.kids[idx].items| == MIN_DEGREE && |t.kids[idx + 1].items| == MIN_DEGREE
    requires forall j :: 0 <= j < idx ==> t.items[j].key.low < t.items[idx].key.low
    modifies pool
    ensures Removed(old(pool.slots), pool.slots, t, t', parent, h, t.items[idx].key)
    ensures Has(Flat(t), t.items[idx].key)
    decreases h - 1, 2
  {
    hide Sub, Flat, Ids, Holds, Del, Has, Removed;
    ghost var m0, k0 := pool.slots, t.items[idx].key;
    OwnKey(m0, t, parent, h, idx);
    var k := pool.slots[node].keys[idx].key;
    MergedMustBeIn(t, idx, k0);
    OwnHas(t, idx);
    ghost var t1 := Merge(pool, node, idx, t, parent, h);
    ghost var m1 := pool.slots;
    KidAt(m1, t1, parent, h, idx);
    KidAscending(t1, idx);
    var found;
    ghost var kid;
    found, kid := Remove(pool, pool.slots[node].children[idx].value, k, t1.kids[idx], Some(node), h - 1);
    RemovedDel(m1, pool.slots, t1.kids[idx], kid, Some(node), h - 1, k);
    DescendDel(t1, idx, k, kid);
    t' := WithKid(t1, idx, kid);
    KidRemoved(m0, m1, pool.slots, t, t1, parent, h, idx, kid, k0, k);
  }

  lemma {:induction false} OwnKey(m: Memory, t: BT, parent: Option<Index>, h: nat, i: nat)
    requires Sub(m, t, parent, h) && i < |t.items|
    ensures t.id in m && m[t.id].keyCnt == |t.items| && m[t.id].keys[i] == t.items[i]
  {
    NodeShape(m, t, parent, h);
  }

  lemma {:induction false} OwnHas(t: BT, i: nat)
    requires Shaped(t.items, t.kids) && i < |t.items| && Ascending(Flat(t))
    ensures Has(Flat(t), t.items[i].key)
  {
    hide Flat;
    var p := OwnInFlat(t, i);
    FindIs(Flat(t), t.items[i].key, p);
  }

  lemma {:induction false} RemovedDel(m0: Memory, m1: Memory, t: BT, t': BT, parent: Option<Index>, h: nat, k: Range)
    requires Removed(m0, m1, t, t', parent, h, k)
    ensures Flat(t') == Del(Flat(t), k)
  {
  }

  // The key is not in this node: fills the child that must have it, and descends.
  method RemoveBelow(pool: NodePool, node: Index, idx: nat, k: Range, ghost t: BT, ghost parent: Option<Index>,
                     ghost h: nat)
    returns (found: bool, ghost t': BT)
    requires Sub(pool.slots, t, parent, h) && h > 0 && node == t.id && t.items != [] && Ascending(Flat(t))
    requires MustBeIn(t, idx, k) && forall j :: 0 <= j < idx ==> t.items[j].key.low < k.low
    modifies pool
    ensures Removed(old(pool.slots), pool.slots, t, t', parent, h, k)
    ensures found == Has(Flat(t), k)
    decreases h, 0
  {
    hide Sub, Flat, Ids, Holds, Del, Has, Removed, MustBeIn;
    ghost var m0 := pool.slots;
    MustBeKid(m0, t, parent, h, idx, k);
    KidAt(m0, t, parent, h, idx);
    var flag := idx == pool.slots[node].keyCnt;
    ghost var t1, c := t, idx;
    StillFilled(m0, t, parent, h, idx, k);
    if pool.slots[pool.slots[node].children[idx].value].keyCnt < MIN_DEGREE + 1 {
      t1, c := Fill(pool, node, idx, k, t, parent, h);
    }
    ghost var m1 := pool.slots;
    KidAt(m1, t1, parent, h, c);
    KidAscending(t1, c);
    var ch := if flag && idx > pool.slots[node].keyCnt then pool.slots[node].children[idx - 1].value
              else pool.slots[node].children[idx].value;
    ghost var kid;
    found, kid := Remove(pool, ch, k, t1.kids[c], Some(node), h - 1);
    RemovedDel(m1, pool.slots, t1.kids[c], kid, Some(node), h - 1, k);
    DescendDel(t1, c, k, kid);
    t' := WithKid(t1, c, kid);
    KidRemoved(m0, m1, pool.slots, t, t1, parent, h, c, kid, k, k);
  }

  lemma {:induction false} MustBeKid(m: Memory, t: BT, parent: Option<Index>, h: nat, i: nat, k: Range)
    requires Sub(m, t, parent, h) && h > 0 && MustBeIn(t, i, k)
    ensures i <= |t.items| && |t.kids| == |t.items| + 1
  {
  }

  lemma {:induction false} StillFilled(m: Memory, t: BT, parent: Option<Index>, h: nat, i: nat, k: Range)
    requires Sub(m, t, parent, h) && h > 0 && MustBeIn(t, i, k) && i < |t.kids|
    ensures |t.kids[i].items| > MIN_DEGREE ==> Filled(m, m, t, t, parent, h, i, k)
  {
    SubIds(m, t, parent, h);
  }

  /** Removes the key from a subtree; found tells whether it was there. */
  method Remove(pool: NodePool, node: Index, k: Range, ghost t: BT, ghost parent: Option<Index>, ghost h: nat)
    returns (found: bool, ghost t': BT)
    requires Sub(pool.slots, t, parent, h) && node == t.id && t.items != [] && Ascending(Flat(t))
    modifies pool
    ensures Removed(old(pool.slots), pool.slots, t, t', parent, h, k)
    ensures found == Has(Flat(t), k)
    decreases h, 1
  {
    hide Sub, Flat, Ids, Holds, Del, Has, Removed;
    NodeShape(pool.slots, t, parent, h);
    var idx := FindKey(pool, node, k);
    if idx < pool.slots[node].keyCnt && pool.slots[node].keys[idx].key == k {
      OwnHas(t, idx);
      if pool.slots[node].isLeaf {
        t' := RemoveFromLeaf(pool, node, idx, t, parent);
      } else {
        t' := RemoveFromNonLeaf(pool, node, idx, t, parent, h);
      }
      found := true;
    } else if pool.slots[node].isLeaf {
      found := false;
      t' := t;
      NothingRemoved(pool.slots, t, parent, idx, k);
    } else {
      found, t' := RemoveBelow(pool, node, idx, k, t, parent, h);
    }
  }

  lemma {:induction false} NothingRemoved(m: Memory, t: BT, parent: Option<Index>, i: nat, k: Range)
    requires Sub(m, t, parent, 0) && Ascending(Flat(t)) && i <= |t.items|
    requires forall j :: 0 <= j < i ==> t.items[j].key.low < k.low
    requires i < |t.items| ==> t.items[i].key.low >= k.low && t.items[i].key != k
    ensures Removed(m, m, t, t, parent, 0, k) && !Has(Flat(t), k)
  {
    SubIds(m, t, parent, 0);
    NodeShape(m, t, parent, 0);
    forall j | 0 <= j < |t.items|
      ensures t.items[j].key != k
    {
    }
  }

  // ---------- the root ----------

  // The memory and the root after a removal that went to its end.
  ghost predicate RemovedFromTree(m0: Memory, m1: Memory, t: BT, root: Option<Index>, t': BT, h': nat, k: Range) {
    if root.None? then Del(Flat(t), k) == [] && Framed(m0, m1, Ids(t), {})
    else
      && t'.id == root.value && t'.items != [] && Sub(m1, t', None, h')
      && Flat(t') == Del(Flat(t), k)
      && Framed(m0, m1, Ids(t), Ids(t'))
  }

  lemma EmptyLeaf(m0: Memory, m1: Memory, m2: Memory, t: BT, t1: BT, k: Range)
    requires Removed(m0, m1, t, t1, None, 0, k) && t1.items == [] && m2 == m1 - {t1.id}
    ensures RemovedFromTree(m0, m2, t, None, t1, 0, k)
  {
    LeafSub(m1, t1, None);
    FramedTrans(m0, m1, m2, Ids(t), Ids(t1), {});
  }

  lemma {:induction false} OnlyKidIds(m: Memory, t: BT, h: nat)
    requires Sub(m, t, None, h) && h > 0 && t.items == []
    ensures |t.kids| == 1 && Ids(t) == {t.id} + Ids(t.kids[0]) && Flat(t) == Flat(t.kids[0])
    ensures Ids(t.kids[0]) == {t.kids[0].id} + KidIds(t.kids[0].kids) && t.kids[0].id !in KidIds(t.kids[0].kids)
  {
    assert t.kids == [t.kids[0]];
    OneKid(t.kids[0]);
    assert Parts(t.kids) == [Flat(t.kids[0])];
    assert Sub(m, t.kids[0], Some(t.id), h - 1);
  }

  lemma OnlyChild(m0: Memory, m1: Memory, m2: Memory, t: BT, t1: BT, h: nat, k: Range)
    requires Removed(m0, m1, t, t1, None, h, k) && t1.items == [] && h > 0
    requires |t1.kids| == 1 && t1.kids[0].id in m1 && t1.kids[0].id != t1.id
    requires m2 == m1[t1.kids[0].id := WithParent(m1[t1.kids[0].id], None)] - {t1.id}
    ensures RemovedFromTree(m0, m2, t, Some(t1.kids[0].id), t1.kids[0], h - 1, k)
  {
    hide Sub, Flat, Del, Ids;
    var kid := t1.kids[0];
    KidAt(m1, t1, None, h, 0);
    SubIds(m1, t1, None, h);
    assert t1.kids == [kid];
    OneKid(kid);
    OnlyKidIds(m1, t1, h);
    Reparent(m1, m2, kid, Some(t1.id), None, h - 1);
    FramedTrans(m0, m1, m2, Ids(t), Ids(t1), Ids(kid));
  }

  /**
   * Removes a key from a level and returns the new root. When the key is not stored the
   * program throws in mid-descent: the keys are what they were, but nothing has
   * replaced a root that a merge has emptied by then.
   */
  method Remove1D(pool: NodePool, k: Range, root: Index, ghost t: BT, ghost h: nat)
    returns (found: bool, root': Option<Index>, ghost t': BT, ghost h': nat)
    requires Sub(pool.slots, t, None, h) && root == t.id && t.items != [] && Ascending(Flat(t))
    modifies pool
    ensures found == Has(Flat(t), k)
    ensures found ==> RemovedFromTree(old(pool.slots), pool.slots, t, root', t', h', k)
    ensures !found ==> root' == Some(root) && h' == h && Removed(old(pool.slots), pool.slots, t, t', None, h, k)
  {
    hide Sub, Flat, Ids, Del, Has, Removed;
    ghost var m0 := pool.slots;
    found, t' := Remove(pool, root, k, t, None, h);
    h' := h;
    root' := Some(root);
    if !found {
      return;
    }
    ghost var m1, t1 := pool.slots, t';
    RemovedRoot(m0, m1, t, t1, h, k);
    if pool.slots[root].keyCnt == 0 {
      if pool.slots[root].isLeaf {
        root' := None;
        pool.Release(root);
        EmptyLeaf(m0, m1, pool.slots, t, t1, k);
      } else {
        var child := pool.slots[root].children[0].value;
        root' := Some(child);
        pool.SetParent(child, None);
        pool.Release(root);
        h' := h - 1;
        t' := t1.kids[0];
        OnlyChild(m0, m1, pool.slots, t, t1, h, k);
      }
    }
  }

  lemma RemovedRoot(m0: Memory, m1: Memory, t: BT, t1: BT, h: nat, k: Range)
    requires Removed(m0, m1, t, t1, None, h, k)
    ensures t1.id == t.id && t1.id in m1 && m1[t1.id].keyCnt == |t1.items| && (m1[t1.id].isLeaf <==> h == 0)
    ensures h > 0 ==> |t1.kids| == |t1.items| + 1 && m1[t1.id].children[0] == Some(t1.kids[0].id)
    ensures h > 0 ==> t1.kids[0].id in m1 && t1.kids[0].id != t1.id
    ensures t1.items != [] ==> RemovedFromTree(m0, m1, t, Some(t1.id), t1, h, k)
  {
    NodeShape(m1, t1, None, h);
    if h > 0 {
      KidsLinked(m1, t1, None, h);
    }
  }
}
