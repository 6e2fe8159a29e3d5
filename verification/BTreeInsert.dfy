/** Inserting a key into a B-tree that is not full (BTreeInsert::insert_non_full). */
module BTreeInsert {
  import opened Ranges
  import opened Items
  import opened Nodes
  import opened Interleave
  import opened BTrees
  import opened BTreeSplit
  import opened Tries
  import opened Layers
  import opened RuleSpecs
  import opened ChainBuilder

  // ---------- order ----------

  lemma LeftEnd(t: BT, i: nat)
    requires |t.kids| == |t.items| + 1 && 0 < i <= |t.items|
    ensures LeftOf(t, i) != [] && LeftOf(t, i)[|LeftOf(t, i)| - 1] == t.items[i - 1]
  {
    BeforeSnoc(t.items, Parts(t.kids), i - 1);
  }

  // The neighbours of a key bound everything left and right of the child between them.
  lemma {:induction false} ChildBounds(t: BT, i: nat)
    requires |t.kids| == |t.items| + 1 && i <= |t.items| && Ascending(Flat(t))
    ensures Ascending(Flat(t.kids[i]))
    ensures i > 0 ==> forall p :: 0 <= p < |LeftOf(t, i)| ==> LeftOf(t, i)[p].key.low <= t.items[i - 1].key.low
    ensures i == 0 ==> LeftOf(t, i) == []
    ensures i < |t.items| ==> forall p :: 0 <= p < |RightOf(t, i)| ==> RightOf(t, i)[p].key.low >= t.items[i].key.low
    ensures i == |t.items| ==> RightOf(t, i) == []
  {
    FlatAt(t, i);
    var l, r := LeftOf(t, i), RightOf(t, i);
    SliceAscending(l, Flat(t.kids[i]), r);
    assert Flat(t) == l + (Flat(t.kids[i]) + r);
    if i > 0 {
      LeftEnd(t, i);
      PrefixAscending(l, Flat(t.kids[i]) + r);
    }
    if i < |t.items| {
      assert r[0] == t.items[i];
      SuffixAscending(l + Flat(t.kids[i]), r);
    }
  }

  lemma PrefixAscending<N>(a: seq<Item<N>>, b: seq<Item<N>>)
    requires Ascending(a + b)
    ensures Ascending(a)
  {
    assert forall i :: 0 <= i < |a| ==> a[i] == (a + b)[i];
  }

  lemma SuffixAscending<N>(a: seq<Item<N>>, b: seq<Item<N>>)
    requires Ascending(a + b)
    ensures Ascending(b)
  {
    assert forall i :: 0 <= i < |b| ==> b[i] == (a + b)[|a| + i];
  }

  // Putting a key into the child that its neighbours select puts it into the tree.
  lemma {:induction false} DescendPut(t: BT, i: nat, k: BT, x: KeyInfo)
    requires |t.kids| == |t.items| + 1 && i <= |t.items| && Ascending(Flat(t))
    requires i > 0 ==> t.items[i - 1].key.low <= x.key.low
    requires i < |t.items| ==> t.items[i].key.low > x.key.low
    requires Flat(k) == Put(Flat(t.kids[i]), x)
    ensures Flat(WithKid(t, i, k)) == Put(Flat(t), x)
  {
    ChildBounds(t, i);
    FlatAt(t, i);
    FlatReplaceKid(t, i, k);
    PutInMiddle(LeftOf(t, i), Flat(t.kids[i]), RightOf(t, i), x);
  }

  // ---------- the leaf ----------

  function LeafWith(n: Node, p: nat, x: KeyInfo): (r: RawNode)
    requires p <= n.keyCnt < MAX_DEGREE
  {
    n.(keys := ShiftedRight(n.keys, p, n.keyCnt)[p := x], keyCnt := n.keyCnt + 1)
  }

  lemma LeafWithIs(n: Node, p: nat, x: KeyInfo)
    requires p <= n.keyCnt < MAX_DEGREE
    ensures KeysRight(n, p, n.keyCnt).keyCnt == n.keyCnt
    ensures LeafWith(n, p, x) == WithKey(KeysRight(n, p, n.keyCnt), p, x).(keyCnt := n.keyCnt + 1)
  {
  }

  // Moves all greater keys one place ahead; p is the gap this leaves.
  method ShiftGreater(pool: NodePool, node: Index, low: nat) returns (p: nat)
    requires node in pool.slots && pool.slots[node].keyCnt < MAX_DEGREE
    modifies pool
    ensures IsPlace(Keys(old(pool.slots)[node]), low, p)
    ensures pool.slots == old(pool.slots)[node := KeysRight(old(pool.slots)[node], p, old(pool.slots)[node].keyCnt)]
  {
    hide KeysRight, KeysLeft, ChildrenLeft;
    ghost var n0 := pool.slots[node];
    var cnt := pool.slots[node].keyCnt;
    p := cnt;
    NothingShifted(n0);
    while p > 0 && pool.slots[node].keys[p - 1].key.low > low
      invariant p <= cnt
      invariant pool.slots == old(pool.slots)[node := KeysRight(n0, p, cnt)]
      invariant forall j :: p <= j < cnt ==> n0.keys[j].key.low > low
    {
      KeysRightStep(n0, p, cnt);
      pool.MoveKey(node, p - 1, node, p);
      p := p - 1;
    }
    if p > 0 {
      KeysRightStep(n0, p, cnt);
    }
  }

  // Stores a key in a leaf that has room for it.
  method InsertIntoLeaf(pool: NodePool, node: Index, x: KeyInfo) returns (p: nat)
    requires node in pool.slots && pool.slots[node].keyCnt < MAX_DEGREE
    modifies pool
    ensures p == Place(Keys(old(pool.slots)[node]), x.key.low)
    ensures p <= old(pool.slots)[node].keyCnt
    ensures pool.slots == old(pool.slots)[node := LeafWith(old(pool.slots)[node], p, x)]
  {
    hide KeysRight, LeafWith;
    ghost var n0 := pool.slots[node];
    p := ShiftGreater(pool, node, x.key.low);
    PlaceIs(Keys(n0), x.key.low, p);
    LeafWithIs(n0, p, x);
    pool.SetKey(node, p, x);
    pool.SetKeyCnt(node, pool.slots[node].keyCnt + 1);
  }

  lemma LeafHolds(n: Node, t: BT, parent: Option<Index>, p: nat, x: KeyInfo)
    requires Holds(n, t, parent) && t.kids == [] && p <= |t.items| < MAX_DEGREE
    ensures Sized(LeafWith(n, p, x))
    ensures Holds(LeafWith(n, p, x), BT(t.id, t.items[..p] + [x] + t.items[p..], []), parent)
    ensures LeafWith(n, p, x).keys[p] == x
  {
    var r := LeafWith(n, p, x);
    assert r.keys[..r.keyCnt] == t.items[..p] + [x] + t.items[p..];
  }

  // ---------- the child to descend into ----------

  method FindChild(pool: NodePool, node: Index, k: Range) returns (i: nat)
    requires node in pool.slots
    ensures i == Place(Keys(pool.slots[node]), k.low)
  {
    var j := pool.slots[node].keyCnt - 1;
    while j >= 0 && pool.slots[node].keys[j].key.low > k.low
      invariant -1 <= j < pool.slots[node].keyCnt
      invariant forall q :: j < q < pool.slots[node].keyCnt ==> pool.slots[node].keys[q].key.low > k.low
    {
      j := j - 1;
    }
    i := j + 1;
    PlaceIs(Keys(pool.slots[node]), k.low, i);
  }

  // ---------- the operation ----------

  // The key that an insertion adds to a level, with what it builds below that key.
  ghost predicate NewKey(m: Memory, x: KeyInfo, below: Option<Layer>, c: InsertCookie)
    requires c.Valid() && c.level < c.requiresLevels <= D
  {
    && x.key == c.ActualKey()
    && x.value == (if c.RequiresMoreLevels() then NO_VALUE else c.rule.value)
    && x.next == RootOf(below)
    && (below.Some? <==> c.RequiresMoreLevels())
    && RepOf(m, below, c.level + 1, c.order)
    && (below.Some? ==> Meaning(below.value) == Chain(c.NextLevel().Rest(), c.rule.value))
  }

  // What an insertion did: the in-order sequence got the new key at its sorted place, and
  // the only slots that changed hands are the tree's own and those built below the key.
  ghost predicate Inserted(m0: Memory, m1: Memory, t: BT, t': BT, parent: Option<Index>, h: nat,
                           x: KeyInfo, below: Option<Layer>, c: InsertCookie)
    requires c.Valid() && c.level < c.requiresLevels <= D
  {
    && t'.id == t.id && |t'.items| >= |t.items|
    && Grown(m0, m1, t, t', parent, h, x, below, c)
  }

  // The same for a tree that may have got another root.
  ghost predicate Grown(m0: Memory, m1: Memory, t: BT, t': BT, parent: Option<Index>, h: nat,
                        x: KeyInfo, below: Option<Layer>, c: InsertCookie)
    requires c.Valid() && c.level < c.requiresLevels <= D
  {
    && NewKey(m1, x, below, c)
    && Sub(m1, t', parent, h)
    && Flat(t') == Put(Flat(t), x)
    && Framed(m0, m1, Ids(t), Ids(t') + IdsOf(below))
    && Ids(t') !! IdsOf(below)
  }

  lemma NewKeyIsChain(m: Memory, x: KeyInfo, below: Option<Layer>, c: InsertCookie)
    requires c.Valid() && c.level < c.requiresLevels <= D && NewKey(m, x, below, c)
    ensures c.Rest() != [] && Item(x.key, x.value, MeaningOf(below)) == Chain(c.Rest(), c.rule.value).entries[0]
  {
    assert c.Rest()[0] == c.ActualKey();
    assert c.RequiresMoreLevels() ==> c.Rest()[1..] == c.NextLevel().Rest();
  }

  lemma {:induction false} LeafNode(m: Memory, t: BT, parent: Option<Index>)
    requires Sub(m, t, parent, 0)
    ensures t.kids == [] && t.id in m && Holds(m[t.id], t, parent)
    ensures Keys(m[t.id]) == t.items && m[t.id].keyCnt == |t.items|
  {
  }

  // The key at place p of the node leads to what was built below it.
  ghost predicate BelowBuilt(m0: Memory, m1: Memory, n: Index, p: nat, x0: KeyInfo, below: Option<Layer>,
                             c: InsertCookie)
    requires c.Valid() && c.level < c.requiresLevels <= D && p < MAX_DEGREE
  {
    && n in m0 && n in m1 && n !in IdsOf(below)
    && m1[n] == WithKey(m0[n], p, Linking(x0, RootOf(below)))
    && Framed(m0, m1, {n}, {n} + IdsOf(below))
    && NewKey(m1, Linking(x0, RootOf(below)), below, c)
  }

  lemma NothingBelow(m: Memory, n: Index, p: nat, x0: KeyInfo, c: InsertCookie)
    requires c.Valid() && c.level < c.requiresLevels <= D && !c.RequiresMoreLevels()
    requires n in m && p < MAX_DEGREE && m[n].keys[p] == x0 == Item(c.ActualKey(), c.rule.value, None)
    ensures BelowBuilt(m, m, n, p, x0, None, c)
  {
    assert m[n].keys[p := x0] == m[n].keys;
  }

  method BuildBelow(pool: NodePool, node: Index, p: nat, x0: KeyInfo, c: InsertCookie)
    returns (ghost below: Option<Layer>)
    requires c.Valid() && c.level < c.requiresLevels <= D
    requires node in pool.slots && p < MAX_DEGREE && pool.slots[node].keys[p] == x0
    requires x0 == Item(c.ActualKey(), if c.RequiresMoreLevels() then NO_VALUE else c.rule.value, None)
    modifies pool
    ensures BelowBuilt(old(pool.slots), pool.slots, node, p, x0, below, c)
  {
    hide Rep, AllIds, Meaning, Chain, BelowBuilt;
    ghost var m0 := pool.slots;
    below := None;
    if c.RequiresMoreLevels() {
      ghost var b := ContinueBelow(pool, node, p, c.NextLevel());
      below := Some(b);
      SomethingBelow(m0, pool.slots, node, p, x0, b, c);
    } else {
      NothingBelow(m0, node, p, x0, c);
    }
  }

  lemma {:induction false} SomethingBelow(m0: Memory, m1: Memory, n: Index, p: nat, x0: KeyInfo, b: Layer,
                                          c: InsertCookie)
    requires c.Valid() && c.level < c.requiresLevels <= D && c.RequiresMoreLevels()
    requires n in m0 && n in m1 && p < MAX_DEGREE && x0 == Item(c.ActualKey(), NO_VALUE, None)
    requires m1[n] == WithKey(m0[n], p, Linking(x0, Some(Root(b)))) && n !in AllIds(b)
    requires Framed(m0, m1, {n}, {n} + AllIds(b))
    requires Rep(m1, b, c.level + 1, c.order) && Meaning(b) == Chain(c.NextLevel().Rest(), c.rule.value)
    ensures BelowBuilt(m0, m1, n, p, x0, Some(b), c)
  {
    hide Rep, AllIds, Meaning, Chain;
  }

  method InsertAtLeaf(pool: NodePool, node: Index, c: InsertCookie, ghost t: BT, ghost parent: Option<Index>)
    returns (ghost t': BT, ghost x: KeyInfo, ghost below: Option<Layer>)
    requires Sub(pool.slots, t, parent, 0) && node == t.id && |t.items| < MAX_DEGREE
    requires c.Valid() && c.level < c.requiresLevels <= D
    modifies pool
    ensures Inserted(old(pool.slots), pool.slots, t, t', parent, 0, x, below, c)
  {
    hide Sub, Holds, LeafWith, BelowBuilt, Inserted, Grown;
    ghost var m0 := pool.slots;
    LeafNode(m0, t, parent);
    var x0: KeyInfo := Item(c.ActualKey(), if c.RequiresMoreLevels() then NO_VALUE else c.rule.value, None);
    var p := InsertIntoLeaf(pool, node, x0);
    ghost var m1 := pool.slots;
    LeafHolds(m0[node], t, parent, p, x0);
    below := BuildBelow(pool, node, p, x0, c);
    x := Linking(x0, RootOf(below));
    t' := BT(t.id, t.items[..p] + [x] + t.items[p..], []);
    LeafDone(m0, m1, pool.slots, t, parent, p, x0, below, c);
  }

  lemma LeafDone(m0: Memory, m1: Memory, m2: Memory, t: BT, parent: Option<Index>, p: nat, x0: KeyInfo,
                 below: Option<Layer>, c: InsertCookie)
    requires c.Valid() && c.level < c.requiresLevels <= D
    requires t.kids == [] && t.id in m0 && Holds(m0[t.id], t, parent)
    requires |t.items| < MAX_DEGREE && p == Place(t.items, x0.key.low)
    requires Holds(LeafWith(m0[t.id], p, x0), BT(t.id, t.items[..p] + [x0] + t.items[p..], []), parent)
    requires m1 == m0[t.id := LeafWith(m0[t.id], p, x0)]
    requires BelowBuilt(m1, m2, t.id, p, x0, below, c)
    ensures var x := Linking(x0, RootOf(below));
            Inserted(m0, m2, t, BT(t.id, t.items[..p] + [x] + t.items[p..], []), parent, 0, x, below, c)
  {
    hide Rep, AllIds, Meaning, Chain, Sub;
    var x := Linking(x0, RootOf(below));
    var t' := BT(t.id, t.items[..p] + [x] + t.items[p..], []);
    assert (t.items[..p] + [x0] + t.items[p..])[p := x] == t'.items;
    LeafSub(m0, t, parent);
    LeafSub(m2, t', parent);
    assert x.key == x0.key;
  }

  // No stored key starts where the new one starts.
  ghost predicate NewLow<N>(s: seq<Item<N>>, low: nat) {
    forall p :: 0 <= p < |s| ==> s[p].key.low != low
  }

  lemma {:induction false} KidNewLow(t: BT, i: nat, low: nat)
    requires |t.kids| == |t.items| + 1 && i <= |t.items| && NewLow(Flat(t), low)
    ensures NewLow(Flat(t.kids[i]), low)
  {
    FlatAt(t, i);
    var l, f, r := LeftOf(t, i), Flat(t.kids[i]), RightOf(t, i);
    assert forall p :: 0 <= p < |f| ==> f[p] == (l + f + r)[|l| + p];
  }

  lemma {:induction false} OwnNewLow(t: BT, i: nat, low: nat)
    requires |t.kids| == |t.items| + 1 && i < |t.items| && NewLow(Flat(t), low)
    ensures t.items[i].key.low != low
  {
    FlatAround(t, i);
    var l, f := LeftOf(t, i), Flat(t.kids[i]);
    assert Flat(t)[|l| + |f|] == t.items[i];
  }

  // Child i is where a key with this low end belongs.
  ghost predicate Selects(t: BT, i: nat, low: nat) {
    && i <= |t.items|
    && (i > 0 ==> t.items[i - 1].key.low <= low)
    && (i < |t.items| ==> t.items[i].key.low > low)
  }

  // The same keys, with room in the child that is going to get the new one.
  ghost predicate Roomy(m0: Memory, m1: Memory, t: BT, t': BT, parent: Option<Index>, h: nat, i: nat, low: nat) {
    && Sub(m1, t', parent, h) && t'.id == t.id && |t'.items| >= |t.items|
    && Selects(t', i, low) && i < |t'.kids| && MIN_DEGREE <= |t'.kids[i].items| < MAX_DEGREE
    && Flat(t') == Flat(t)
    && Framed(m0, m1, Ids(t), Ids(t'))
  }

  // Splits the child if it is full and picks the half that gets the new key.
  method SplitIfFull(pool: NodePool, node: Index, i0: nat, k: Range,
                     ghost t: BT, ghost parent: Option<Index>, ghost h: nat)
    returns (i: nat, ghost t': BT)
    requires Sub(pool.slots, t, parent, h) && h > 0 && node == t.id && |t.items| < MAX_DEGREE
    requires Selects(t, i0, k.low) && NewLow(Flat(t), k.low)
    modifies pool
    ensures Roomy(old(pool.slots), pool.slots, t, t', parent, h, i, k.low)
    ensures i0 < |t.kids| && |t.kids[i0].items| == MAX_DEGREE ==> |t'.items| == |t.items| + 1
  {
    i := i0;
    t' := t;
    KidsLinked(pool.slots, t, parent, h);
    KidCount(pool.slots, t, parent, h, i);
    SubIds(pool.slots, t, parent, h);
    var ch := pool.slots[node].children[i].value;
    if pool.slots[ch].keyCnt == MAX_DEGREE {
      var z := SplitChild(pool, node, i, ch, t, parent, h);
      t' := Split(t, i, z);
      SplitFlat(t, i, z);
      assert Keys(pool.slots[node]) == t'.items;
      if pool.slots[node].keys[i].key.low < k.low {
        i := i + 1;
      }
      SplitSelects(t, i0, z, k.low, i);
    }
  }

  lemma {:induction false} SplitSelects(t: BT, i0: nat, z: Index, low: nat, i: nat)
    requires |t.kids| == |t.items| + 1 && i0 < |t.kids| && |t.kids[i0].items| == MAX_DEGREE
    requires t.kids[i0].kids == [] || |t.kids[i0].kids| == MAX_DEGREE + 1
    requires Selects(t, i0, low) && NewLow(Flat(t), low)
    requires i == if Split(t, i0, z).items[i0].key.low < low then i0 + 1 else i0
    ensures Selects(Split(t, i0, z), i, low)
    ensures i < |Split(t, i0, z).kids| && |Split(t, i0, z).kids[i].items| == MIN_DEGREE
  {
    SplitFlat(t, i0, z);
    OwnNewLow(Split(t, i0, z), i0, low);
    SplitSides(t, i0, z);
  }

  lemma {:induction false} KidCount(m: Memory, t: BT, parent: Option<Index>, h: nat, i: nat)
    requires Sub(m, t, parent, h) && i < |t.kids|
    ensures h > 0 && t.kids[i].id in m && m[t.kids[i].id].keyCnt == |t.kids[i].items|
    ensures |t.kids[i].items| >= MIN_DEGREE
    ensures t.kids[i].kids == [] || |t.kids[i].kids| == |t.kids[i].items| + 1
  {
    assert Sub(m, t.kids[i], Some(t.id), h - 1);
  }

  /** Adds the key of the current level, and the rest of the rule below it. */
  method InsertNonFull(pool: NodePool, node: Index, c: InsertCookie,
                       ghost t: BT, ghost parent: Option<Index>, ghost h: nat)
    returns (ghost t': BT, ghost x: KeyInfo, ghost below: Option<Layer>)
    requires Sub(pool.slots, t, parent, h) && node == t.id && |t.items| < MAX_DEGREE
    requires c.Valid() && c.level < c.requiresLevels <= D
    requires Ascending(Flat(t)) && NewLow(Flat(t), c.ActualKey().low)
    modifies pool
    ensures Inserted(old(pool.slots), pool.slots, t, t', parent, h, x, below, c)
    decreases h, 1
  {
    if pool.slots[node].isLeaf {
      t', x, below := InsertAtLeaf(pool, node, c, t, parent);
    } else {
      var i := FindChild(pool, node, c.ActualKey());
      t', x, below := InsertIntoChild(pool, node, i, c, t, parent, h);
    }
  }

  // Splits child i0 if it is full and inserts into the half that the key belongs to.
  method InsertIntoChild(pool: NodePool, node: Index, i0: nat, c: InsertCookie,
                         ghost t: BT, ghost parent: Option<Index>, ghost h: nat)
    returns (ghost t': BT, ghost x: KeyInfo, ghost below: Option<Layer>)
    requires Sub(pool.slots, t, parent, h) && h > 0 && node == t.id && |t.items| < MAX_DEGREE
    requires c.Valid() && c.level < c.requiresLevels <= D
    requires Ascending(Flat(t)) && NewLow(Flat(t), c.ActualKey().low) && Selects(t, i0, c.ActualKey().low)
    modifies pool
    ensures Inserted(old(pool.slots), pool.slots, t, t', parent, h, x, below, c)
    ensures i0 < |t.kids| && |t.kids[i0].items| == MAX_DEGREE ==> |t'.items| == |t.items| + 1
    decreases h, 0
  {
    hide Sub, Flat, Ids, Roomy, Grown;
    var k := c.ActualKey();
    var i;
    ghost var t1;
    i, t1 := SplitIfFull(pool, node, i0, k, t, parent, h);
    ghost var m1 := pool.slots;
    CanDescend(m1, t1, parent, h, i, k.low);
    var ch := pool.slots[node].children[i].value;
    ghost var kid;
    kid, x, below := InsertNonFull(pool, ch, c, t1.kids[i], Some(node), h - 1);
    t' := WithKid(t1, i, kid);
    Descended(old(pool.slots), m1, pool.slots, t, t1, parent, h, i, kid, x, below, c);
  }

  lemma CanDescend(m: Memory, t: BT, parent: Option<Index>, h: nat, i: nat, low: nat)
    requires Sub(m, t, parent, h) && h > 0 && i < |t.kids|
    requires Ascending(Flat(t)) && NewLow(Flat(t), low)
    ensures t.id in m && i <= MAX_DEGREE && m[t.id].children[i] == Some(t.kids[i].id)
    ensures Sub(m, t.kids[i], Some(t.id), h - 1)
    ensures Ascending(Flat(t.kids[i])) && NewLow(Flat(t.kids[i]), low)
  {
    KidsLinked(m, t, parent, h);
    ChildBounds(t, i);
    KidNewLow(t, i, low);
  }

  lemma {:induction false} Descended(m0: Memory, m1: Memory, m2: Memory, t: BT, t1: BT, parent: Option<Index>, h: nat,
                  i: nat, kid: BT, x: KeyInfo, below: Option<Layer>, c: InsertCookie)
    requires c.Valid() && c.level < c.requiresLevels <= D
    requires Roomy(m0, m1, t, t1, parent, h, i, c.ActualKey().low) && h > 0 && Ascending(Flat(t))
    requires Inserted(m1, m2, t1.kids[i], kid, Some(t1.id), h - 1, x, below, c)
    ensures Inserted(m0, m2, t, WithKid(t1, i, kid), parent, h, x, below, c)
  {
    ReplaceKid(m1, m2, t1, parent, h, i, kid, IdsOf(below));
    DescendPut(t1, i, kid, x);
    FramedTrans(m0, m1, m2, Ids(t), Ids(t1), Ids(WithKid(t1, i, kid)) + IdsOf(below));
  }
}
