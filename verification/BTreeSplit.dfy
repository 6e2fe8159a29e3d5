/** Splitting a full child (BTreeInsert::split_child). */
module BTreeSplit {
  import opened Nodes
  import opened Interleave
  import opened BTrees

  ghost function Lower(y: BT): BT
    requires |y.items| == MAX_DEGREE
  {
    BT(y.id, y.items[..MIN_DEGREE], if |y.kids| <= MIN_DEGREE then y.kids else y.kids[..MIN_DEGREE + 1])
  }

  ghost function Upper(y: BT, z: Index): BT
    requires |y.items| == MAX_DEGREE
  {
    BT(z, y.items[MIN_DEGREE + 1..], UpperKids(y))
  }

  // The roots of the subtrees that change their parent.
  ghost function Moved(y: BT): seq<Index>
    requires |y.items| == MAX_DEGREE
  {
    Roots(UpperKids(y))
  }

  ghost function UpperKids(y: BT): seq<BT> {
    if |y.kids| <= MIN_DEGREE then [] else y.kids[MIN_DEGREE + 1..]
  }

  // The subtree after the split: the middle key of child i moved up, between the two halves.
  ghost function Split(t: BT, i: nat, z: Index): BT
    requires i < |t.kids| && i <= |t.items| && |t.kids[i].items| == MAX_DEGREE
  {
    var y := t.kids[i];
    BT(t.id,
       t.items[..i] + [y.items[MIN_DEGREE]] + t.items[i..],
       t.kids[..i] + [Lower(y), Upper(y, z)] + t.kids[i + 1..])
  }

  ghost function Roots(kids: seq<BT>): (r: seq<Index>)
    ensures |r| == |kids|
    ensures forall i :: 0 <= i < |kids| ==> r[i] == kids[i].id
  {
    seq(|kids|, i requires 0 <= i < |kids| => kids[i].id)
  }

  lemma {:induction false} RootsInside(kids: seq<BT>)
    ensures forall x :: x in Roots(kids) ==> x in KidIds(kids)
  {
    forall x | x in Roots(kids)
      ensures x in KidIds(kids)
    {
      var i :| 0 <= i < |kids| && x == kids[i].id;
      assert x in Ids(kids[i]);
    }
  }

  lemma RootsDistinct(kids: seq<BT>)
    requires Apart(kids)
    ensures Distinct(Roots(kids))
  {
    forall i, j | 0 <= i < j < |kids|
      ensures kids[i].id != kids[j].id
    {
      assert kids[i].id in Ids(kids[i]) && kids[j].id in Ids(kids[j]);
    }
  }

  // ---------- the in-order sequence does not change ----------

  lemma {:induction false} HalvesFlat(y: BT, z: Index)
    requires |y.items| == MAX_DEGREE && (y.kids == [] || |y.kids| == |y.items| + 1)
    ensures Flat(y) == Flat(Lower(y)) + [y.items[MIN_DEGREE]] + Flat(Upper(y, z))
  {
    if y.kids == [] {
      assert y.items == y.items[..MIN_DEGREE] + [y.items[MIN_DEGREE]] + y.items[MIN_DEGREE + 1..];
    } else {
      assert Parts(Lower(y).kids) == Parts(y.kids)[..MIN_DEGREE + 1];
      assert Parts(UpperKids(y)) == Parts(y.kids)[MIN_DEGREE + 1..];
      ZipHalves(y.items, Parts(y.kids), MIN_DEGREE);
    }
  }

  lemma {:induction false} ZipHalves(items: seq<KeyInfo>, p: seq<seq<KeyInfo>>, i: nat)
    requires |p| == |items| + 1 && i < |items|
    ensures Zip(items, p) == Zip(items[..i], p[..i + 1]) + [items[i]] + Zip(items[i + 1..], p[i + 1..])
  {
    ZipAround(items, p, i);
    ZipAt(items[..i], p[..i + 1], i);
    assert items[..i][..i] == items[..i] && p[..i + 1][..i] == p[..i];
    ZipAfter(items[i + 1..], p[i + 1..]);
    assert p[i + 1..][1..] == p[i + 2..];
  }

  lemma {:induction false} SplitFlat(t: BT, i: nat, z: Index)
    requires |t.kids| == |t.items| + 1 && i <= |t.items| && |t.kids[i].items| == MAX_DEGREE
    requires t.kids[i].kids == [] || |t.kids[i].kids| == MAX_DEGREE + 1
    ensures Flat(Split(t, i, z)) == Flat(t)
  {
    var y := t.kids[i];
    var l, a, m, b, r := LeftOf(t, i), Flat(Lower(y)), [y.items[MIN_DEGREE]], Flat(Upper(y, z)), RightOf(t, i);
    assert Flat(t) == l + (a + m + b) + r by {
      FlatAt(t, i);
      HalvesFlat(y, z);
    }
    assert Flat(Split(t, i, z)) == l + a + m + b + r by {
      FlatAround(Split(t, i, z), i);
      SplitSides(t, i, z);
    }
    Reassociate(l, a, m, b, r);
  }

  lemma Reassociate<A>(l: seq<A>, a: seq<A>, m: seq<A>, b: seq<A>, r: seq<A>)
    ensures l + (a + m + b) + r == l + a + m + b + r
  {
  }

  lemma SplitSides(t: BT, i: nat, z: Index)
    requires |t.kids| == |t.items| + 1 && i <= |t.items| && |t.kids[i].items| == MAX_DEGREE
    ensures LeftOf(Split(t, i, z), i) == LeftOf(t, i)
    ensures RightOf(Split(t, i, z), i + 1) == RightOf(t, i)
    ensures Split(t, i, z).kids[i] == Lower(t.kids[i]) && Split(t, i, z).kids[i + 1] == Upper(t.kids[i], z)
    ensures Split(t, i, z).items[i] == t.kids[i].items[MIN_DEGREE]
  {
    var s := Split(t, i, z);
    assert s.items[..i] == t.items[..i] && s.items[i + 1..] == t.items[i..];
    assert s.kids[..i] == t.kids[..i] && s.kids[i + 2..] == t.kids[i + 1..];
    assert Parts(s.kids)[..i] == Parts(s.kids[..i]) == Parts(t.kids)[..i];
    assert Parts(s.kids)[i + 2..] == Parts(s.kids[i + 2..]) == Parts(t.kids[i + 1..]) == Parts(t.kids)[i + 1..];
  }

  // ---------- what the split leaves in memory ----------

  ghost predicate AfterSplit(m0: Memory, m1: Memory, t: BT, parent: Option<Index>, i: nat, z: Index)
    requires i < |t.kids| && i <= |t.items| && |t.kids[i].items| == MAX_DEGREE
  {
    && z !in m0
    && m1.Keys == m0.Keys + {z}
    && Holds(m1[z], Upper(t.kids[i], z), Some(t.id))
    && t.kids[i].id in m1 && Holds(m1[t.kids[i].id], Lower(t.kids[i]), Some(t.id))
    && t.id in m1 && Holds(m1[t.id], Split(t, i, z), parent)
    && (forall x :: x in m0 && x in Moved(t.kids[i]) ==> m1[x] == WithParent(m0[x], Some(z)))
    && (forall x :: x in m0 && x != t.id && x != t.kids[i].id && x !in Moved(t.kids[i]) ==> m1[x] == m0[x])
  }

  lemma HalvesIds(y: BT, z: Index)
    requires |y.items| == MAX_DEGREE && (y.kids == [] || |y.kids| == |y.items| + 1)
    requires Apart(y.kids)
    ensures KidIds(y.kids) == KidIds(Lower(y).kids) + KidIds(UpperKids(y))
    ensures Apart(Lower(y).kids) && Apart(UpperKids(y))
    ensures KidIds(Lower(y).kids) !! KidIds(UpperKids(y))
  {
    if y.kids != [] {
      assert y.kids == y.kids[..MIN_DEGREE + 1] + y.kids[MIN_DEGREE + 1..];
      KidIdsConcat(y.kids[..MIN_DEGREE + 1], y.kids[MIN_DEGREE + 1..]);
      ApartConcat(y.kids[..MIN_DEGREE + 1], y.kids[MIN_DEGREE + 1..]);
    }
  }

  lemma {:induction false} HalvesSubs(m: Memory, y: BT, parent: Option<Index>, h: nat, z: Index)
    requires Sub(m, y, parent, h) && |y.items| == MAX_DEGREE
    ensures Subs(m, Lower(y).kids, y.id, h) && Subs(m, UpperKids(y), y.id, h)
  {
    if h > 0 {
      SubsConcat(m, y.kids[..MIN_DEGREE + 1], y.kids[MIN_DEGREE + 1..], y.id, h);
      assert y.kids == y.kids[..MIN_DEGREE + 1] + y.kids[MIN_DEGREE + 1..];
    }
  }

  lemma {:induction false} LowerSub(m0: Memory, m1: Memory, y: BT, node: Index, h: nat, z: Index)
    requires Sub(m0, y, Some(node), h) && |y.items| == MAX_DEGREE
    requires y.id in m1 && Holds(m1[y.id], Lower(y), Some(node))
    requires Same(m0, m1, KidIds(Lower(y).kids))
    ensures Sub(m1, Lower(y), Some(node), h)
  {
    HalvesIds(y, z);
    HalvesSubs(m0, y, Some(node), h, z);
    SubsFrame(m0, m1, Lower(y).kids, y.id, h);
  }

  // Subtrees whose roots were handed over to a new parent.
  lemma {:induction false} SubsReparent(m0: Memory, m1: Memory, kids: seq<BT>, p0: Index, p1: Index, h: nat)
    requires Subs(m0, kids, p0, h) && Apart(kids)
    requires forall x :: x in KidIds(kids) && x !in Roots(kids) ==> x in m0 && x in m1 && m1[x] == m0[x]
    requires forall x :: x in Roots(kids) ==> x in m0 && x in m1 && m1[x] == WithParent(m0[x], Some(p1))
    ensures Subs(m1, kids, p1, h)
  {
    forall i | 0 <= i < |kids|
      ensures h > 0 && |kids[i].items| >= MIN_DEGREE
    {
      assert Sub(m0, kids[i], Some(p0), h - 1);
    }
    forall i | 0 <= i < |kids|
      ensures Sub(m1, kids[i], Some(p1), h - 1)
    {
      assert Sub(m0, kids[i], Some(p0), h - 1) && Roots(kids)[i] == kids[i].id;
      BelowRoot(kids, i);
      Reparent(m0, m1, kids[i], Some(p0), Some(p1), h - 1);
    }
  }

  lemma {:induction false} BelowRoot(kids: seq<BT>, i: nat)
    requires Apart(kids) && i < |kids| && kids[i].id !in KidIds(kids[i].kids)
    ensures KidIds(kids[i].kids) <= KidIds(kids)
    ensures forall x :: x in KidIds(kids[i].kids) ==> x !in Roots(kids)
  {
    forall x | x in KidIds(kids[i].kids)
      ensures x in KidIds(kids) && x !in Roots(kids)
    {
      assert x in Ids(kids[i]) && x != kids[i].id;
      forall j | 0 <= j < |kids|
        ensures kids[j].id != x
      {
        assert kids[j].id in Ids(kids[j]);
      }
    }
  }

  lemma {:induction false} UpperSub(m0: Memory, m1: Memory, y: BT, node: Index, h: nat, z: Index)
    requires Sub(m0, y, Some(node), h) && |y.items| == MAX_DEGREE
    requires z in m1 && z !in KidIds(y.kids) && Holds(m1[z], Upper(y, z), Some(node))
    requires var kids := UpperKids(y);
             && (forall x :: x in KidIds(kids) && x !in Roots(kids) ==> x in m0 && x in m1 && m1[x] == m0[x])
             && (forall x :: x in Roots(kids) ==> x in m0 && x in m1 && m1[x] == WithParent(m0[x], Some(z)))
    ensures Sub(m1, Upper(y, z), Some(node), h)
  {
    HalvesIds(y, z);
    HalvesSubs(m0, y, Some(node), h, z);
    SubsReparent(m0, m1, UpperKids(y), y.id, z, h);
  }

  lemma {:induction false} HalvesApart(y: BT, z: Index)
    requires |y.items| == MAX_DEGREE && (y.kids == [] || |y.kids| == |y.items| + 1)
    requires Apart(y.kids) && y.id !in KidIds(y.kids) && z !in Ids(y)
    ensures Ids(Lower(y)) !! Ids(Upper(y, z))
    ensures Ids(Lower(y)) + Ids(Upper(y, z)) == Ids(y) + {z}
  {
    HalvesIds(y, z);
  }

  lemma {:induction false} KidSub(m: Memory, t: BT, parent: Option<Index>, h: nat, i: nat)
    requires Sub(m, t, parent, h) && h > 0 && i < |t.kids|
    ensures var y := t.kids[i];
            && Sub(m, y, Some(t.id), h - 1) && i <= |t.items| && Ids(y) <= m.Keys && t.id !in Ids(y)
            && KidIds(y.kids) <= Ids(y) && y.id in Ids(y) && y.id !in KidIds(y.kids)
            && Apart(y.kids) && (y.kids == [] || |y.kids| == |y.items| + 1)
  {
    assert Sub(m, t.kids[i], Some(t.id), h - 1);
    SubIds(m, t.kids[i], Some(t.id), h - 1);
    KidInside(t, i);
  }

  lemma SplitRest(m0: Memory, m1: Memory, t: BT, parent: Option<Index>, i: nat, z: Index)
    requires i < |t.kids| && i <= |t.items| && |t.kids[i].items| == MAX_DEGREE && AfterSplit(m0, m1, t, parent, i, z)
    ensures z !in m0 && m1.Keys == m0.Keys + {z}
    ensures forall x :: x in m0 && x in Moved(t.kids[i]) ==> m1[x] == WithParent(m0[x], Some(z))
    ensures forall x :: x in m0 && x != t.id && x != t.kids[i].id && x !in Moved(t.kids[i]) ==> m1[x] == m0[x]
  {
  }

  // Apart from the three nodes and the moved roots, the split touches nothing.
  lemma {:induction false} SplitOthersSame(m0: Memory, m1: Memory, t: BT, parent: Option<Index>, h: nat, i: nat,
                                           z: Index)
    requires Sub(m0, t, parent, h) && h > 0 && i < |t.kids| && |t.kids[i].items| == MAX_DEGREE
    requires AfterSplit(m0, m1, t, parent, i, z)
    ensures Same(m0, m1, KidIds(Lower(t.kids[i]).kids))
    ensures z !in Ids(t.kids[i]) && t.id !in Ids(t.kids[i])
    ensures var kids := UpperKids(t.kids[i]);
            && (forall x :: x in KidIds(kids) && x !in Roots(kids) ==> x in m0 && x in m1 && m1[x] == m0[x])
            && (forall x :: x in Roots(kids) ==> x in m0 && x in m1 && m1[x] == WithParent(m0[x], Some(z)))
  {
    hide Sub, Holds, AfterSplit, KidIds, Ids, Roots, Apart, Lower, UpperKids, Split, Upper;
    var y := t.kids[i];
    KidSub(m0, t, parent, h, i);
    SplitRest(m0, m1, t, parent, i, z);
    HalvesIds(y, z);
    RootsInside(UpperKids(y));
  }

  lemma SplitHalves(m0: Memory, m1: Memory, t: BT, parent: Option<Index>, h: nat, i: nat, z: Index)
    requires Sub(m0, t, parent, h) && h > 0 && i < |t.kids| && |t.kids[i].items| == MAX_DEGREE
    requires AfterSplit(m0, m1, t, parent, i, z)
    ensures Sub(m1, Lower(t.kids[i]), Some(t.id), h - 1)
    ensures Sub(m1, Upper(t.kids[i], z), Some(t.id), h - 1)
  {
    hide Sub, Holds, Moved, Lower, Upper, Split, KidIds, Roots;
    KidSub(m0, t, parent, h, i);
    SplitOthersSame(m0, m1, t, parent, h, i, z);
    LowerSub(m0, m1, t.kids[i], t.id, h - 1, z);
    UpperSub(m0, m1, t.kids[i], t.id, h - 1, z);
  }

  lemma {:induction false} SplitFramed(m0: Memory, m1: Memory, t: BT, parent: Option<Index>, h: nat, i: nat, z: Index)
    requires Sub(m0, t, parent, h) && h > 0 && i < |t.kids| && |t.kids[i].items| == MAX_DEGREE
    requires AfterSplit(m0, m1, t, parent, i, z)
    ensures Framed(m0, m1, {t.id} + Ids(t.kids[i]), {t.id} + (Ids(t.kids[i]) + {z}))
  {
    var y := t.kids[i];
    assert Sub(m0, y, Some(t.id), h - 1);
    SubIds(m0, y, Some(t.id), h - 1);
    HalvesIds(y, z);
    RootsInside(UpperKids(y));
  }

  lemma {:induction false} SplitRegrouped(m0: Memory, m1: Memory, t: BT, parent: Option<Index>, h: nat, i: nat,
                                          z: Index)
    requires Sub(m0, t, parent, h) && h > 0 && i < |t.kids| && |t.kids[i].items| == MAX_DEGREE
    requires AfterSplit(m0, m1, t, parent, i, z)
    ensures var y := t.kids[i];
            && Apart([Lower(y), Upper(y, z)])
            && Regrouped(m0, m1, t, Split(t, i, z), t.kids[..i], [y], [Lower(y), Upper(y, z)], t.kids[i + 1..], {})
  {
    var y := t.kids[i];
    assert t.kids == t.kids[..i] + [y] + t.kids[i + 1..];
    OneKid(y);
    TwoKids(Lower(y), Upper(y, z));
    assert Sub(m0, y, Some(t.id), h - 1);
    SplitOthersSame(m0, m1, t, parent, h, i, z);
    HalvesApart(y, z);
    SplitFramed(m0, m1, t, parent, h, i, z);
  }

  // The split keeps the node invariant and uses one more slot.
  lemma {:induction false} SplitKeeps(m0: Memory, m1: Memory, t: BT, parent: Option<Index>, h: nat, i: nat, z: Index)
    requires Sub(m0, t, parent, h) && h > 0 && i < |t.kids| && |t.kids[i].items| == MAX_DEGREE
    requires AfterSplit(m0, m1, t, parent, i, z)
    ensures Sub(m1, Split(t, i, z), parent, h)
    ensures Framed(m0, m1, Ids(t), Ids(Split(t, i, z)))
  {
    var y := t.kids[i];
    SplitHalves(m0, m1, t, parent, h, i, z);
    SplitRegrouped(m0, m1, t, parent, h, i, z);
    Regroup(m0, m1, t, Split(t, i, z), parent, h, t.kids[..i], [y], [Lower(y), Upper(y, z)], t.kids[i + 1..], {});
  }

  // ---------- the operation ----------

  // Memory once the new right half exists, before it is linked to the parent.
  ghost predicate Detached(m0: Memory, m1: Memory, y: BT, node: Index, z: Index)
    requires |y.items| == MAX_DEGREE
  {
    && z !in m0 && y.id in m0
    && m1.Keys == m0.Keys + {z}
    && Holds(m1[z], Upper(y, z), None)
    && Holds(m1[y.id], Lower(y), Some(node))
    && (forall x :: x in m0 && x in Moved(y) ==> m1[x] == WithParent(m0[x], Some(z)))
    && (forall x :: x in m0 && x != y.id && x !in Moved(y) ==> m1[x] == m0[x])
  }

  lemma {:induction false} MovedRoots(m: Memory, y: BT, parent: Option<Index>, h: nat)
    requires Sub(m, y, parent, h) && |y.items| == MAX_DEGREE
    ensures Distinct(Moved(y)) && y.id !in Moved(y)
    ensures forall j :: 0 <= j < |UpperKids(y)| ==>
              && Moved(y)[j] in m
              && m[y.id].children[MIN_DEGREE + 1 + j] == Some(Moved(y)[j])
  {
    var up := UpperKids(y);
    HalvesIds(y, y.id);
    RootsDistinct(up);
    RootsInside(up);
    SubIds(m, y, parent, h);
    forall j | 0 <= j < |up|
      ensures Roots(up)[j] in m && m[y.id].children[MIN_DEGREE + 1 + j] == Some(Roots(up)[j])
    {
      assert Roots(up)[j] in Roots(up);
      assert up[j] == y.kids[MIN_DEGREE + 1 + j];
    }
  }

  // The two steps of the split on node records alone.
  ghost predicate DetachedNodes(m0: Memory, m1: Memory, y: Index, z: Index, moved: seq<Index>) {
    && z !in m0 && y in m0 && y !in moved && z !in moved
    && |moved| == (if m0[y].isLeaf then 0 else MIN_DEGREE + 1)
    && m1.Keys == m0.Keys + {z}
    && m1[z] == Node(
                  Copied(NewNode().keys, 0, m0[y].keys, MIN_DEGREE + 1, MIN_DEGREE),
                  NewNode().dims,
                  Copied(NewNode().children, 0, Somes(moved), 0, |moved|),
                  MIN_DEGREE, m0[y].isLeaf, false, None)
    && m1[y] == m0[y].(keyCnt := MIN_DEGREE)
    && (forall x :: x in m0 && x in moved ==> m1[x] == WithParent(m0[x], Some(z)))
    && (forall x :: x in m0 && x != y && x !in moved ==> m1[x] == m0[x])
  }

  // The new right half of the node, with these children.
  function UpperNode(n: Node, children: seq<Option<Index>>): (r: RawNode) {
    Node(Copied(NewNode().keys, 0, n.keys, MIN_DEGREE + 1, MIN_DEGREE),
         NewNode().dims, children, MIN_DEGREE, n.isLeaf, false, None)
  }

  method CopyUpper(pool: NodePool, y: Index) returns (z: Index)
    requires y in pool.slots
    modifies pool
    ensures z !in old(pool.slots)
    ensures pool.slots == old(pool.slots)[z := UpperNode(old(pool.slots)[y], NewNode().children)]
  {
    z := pool.Get();
    pool.SetLeaf(z, pool.slots[y].isLeaf);
    pool.SetKeyCnt(z, MIN_DEGREE);
    pool.CopyKeys(y, MIN_DEGREE + 1, z, 0, MIN_DEGREE);
  }

  // The children of y that move, as they stand before the step.
  ghost predicate Movable(m: Memory, y: Index, moved: seq<Index>) {
    && y in m && y !in moved && Distinct(moved)
    && |moved| == (if m[y].isLeaf then 0 else MIN_DEGREE + 1)
    && forall j :: 0 <= j < |moved| ==> m[y].children[MIN_DEGREE + 1 + j] == Some(moved[j]) && moved[j] in m
  }

  lemma StillMovable(m0: Memory, m1: Memory, y: Index, z: Index, moved: seq<Index>)
    requires Movable(m0, y, moved) && z !in m0 && m1 == m0[z := UpperNode(m0[y], NewNode().children)]
    ensures Movable(m1, y, moved) && z !in moved && y != z && z in m1
  {
  }

  lemma DetachedStep(m0: Memory, m1: Memory, m2: Memory, y: Index, z: Index, moved: seq<Index>)
    requires Movable(m0, y, moved) && z !in m0
    requires m1 == m0[z := UpperNode(m0[y], NewNode().children)]
    requires if moved == [] then m2 == m1 else Adopted(m1, m2, z, 0, moved)
    ensures y in m2 && DetachedNodes(m0, m2[y := m2[y].(keyCnt := MIN_DEGREE)], y, z, moved)
  {
    if moved == [] {
      assert Copied(NewNode().children, 0, Somes(moved), 0, 0) == NewNode().children;
    }
  }

  // Moves the upper half of the keys and children of y into a new node.
  method DetachUpper(pool: NodePool, y: Index, ghost moved: seq<Index>) returns (z: Index)
    requires Movable(pool.slots, y, moved)
    modifies pool
    ensures DetachedNodes(old(pool.slots), pool.slots, y, z, moved)
  {
    hide UpperNode, Adopted, DetachedNodes, Copied;
    ghost var m0 := pool.slots;
    z := CopyUpper(pool, y);
    ghost var m1 := pool.slots;
    StillMovable(m0, m1, y, z, moved);
    if !pool.slots[y].isLeaf {
      pool.AdoptChildren(y, MIN_DEGREE + 1, z, 0, MIN_DEGREE + 1, moved);
    }
    DetachedStep(m0, m1, pool.slots, y, z, moved);
    pool.SetKeyCnt(y, MIN_DEGREE);
  }

  // The new right half.
  lemma UpperHolds(n: Node, y: BT, node: Index, z: Index, r: Node)
    requires |y.items| == MAX_DEGREE && Holds(n, y, Some(node)) && (y.kids == [] || |y.kids| == |y.items| + 1)
    requires r == Node(Copied(NewNode().keys, 0, n.keys, MIN_DEGREE + 1, MIN_DEGREE), NewNode().dims,
                       Copied(NewNode().children, 0, Somes(Moved(y)), 0, |Moved(y)|), MIN_DEGREE, n.isLeaf, false, None)
    ensures Holds(r, Upper(y, z), None)
  {
    hide Copied, Somes;
    assert n.keys == y.items;
    CopiedPart(NewNode().keys, n.keys, MIN_DEGREE + 1, MIN_DEGREE);
    assert Keys(r) == y.items[MIN_DEGREE + 1..];
    CopiedPart(NewNode().children, Somes(Moved(y)), 0, |Moved(y)|);
    UpperChildren(y, z, r);
  }

  lemma CopiedPart<A>(dst: seq<A>, src: seq<A>, from: nat, cnt: nat)
    requires cnt <= |dst| && from + cnt <= |src|
    ensures Copied(dst, 0, src, from, cnt)[..cnt] == src[from..from + cnt]
    ensures cnt == 0 ==> Copied(dst, 0, src, from, cnt) == dst
  {
  }

  lemma UpperChildren(y: BT, z: Index, r: Node)
    requires |y.items| == MAX_DEGREE && (y.kids == [] || |y.kids| == |y.items| + 1)
    requires r.children[..|Moved(y)|] == Somes(Moved(y))
    ensures forall i :: 0 <= i < |Upper(y, z).kids| ==> r.children[i] == Some(Upper(y, z).kids[i].id)
  {
    forall i | 0 <= i < |Upper(y, z).kids|
      ensures r.children[i] == Some(Upper(y, z).kids[i].id)
    {
      assert r.children[i] == r.children[..|Moved(y)|][i] == Some(Moved(y)[i]);
    }
  }

  // What is left of the node.
  lemma LowerHolds(n: Node, y: BT, node: Index)
    requires |y.items| == MAX_DEGREE && Holds(n, y, Some(node)) && (y.kids == [] || |y.kids| == |y.items| + 1)
    ensures Holds(n.(keyCnt := MIN_DEGREE), Lower(y), Some(node)) && n.keys == y.items
  {
    assert n.keys == y.items;
  }

  lemma {:induction false} HoldsRoot(m: Memory, t: BT, parent: Option<Index>, h: nat)
    requires Sub(m, t, parent, h)
    ensures t.id in m && Holds(m[t.id], t, parent) && (t.kids == [] || |t.kids| == |t.items| + 1)
  {
  }

  lemma {:induction false} DetachedHolds(m0: Memory, m1: Memory, y: BT, node: Index, h: nat, z: Index)
    requires Sub(m0, y, Some(node), h) && |y.items| == MAX_DEGREE
    requires DetachedNodes(m0, m1, y.id, z, Moved(y))
    ensures Detached(m0, m1, y, node, z) && m1[y.id].keys == y.items
  {
    hide Sub, Holds, Copied, Moved, Upper, Lower, NewNode, Somes;
    HoldsRoot(m0, y, Some(node), h);
    UpperHolds(m0[y.id], y, node, z, m1[z]);
    LowerHolds(m0[y.id], y, node);
  }

  function LinkedTo(n: Node, i: nat, z: Index, middle: KeyInfo): (r: RawNode)
    requires i <= n.keyCnt < MAX_DEGREE
  {
    Node(
      ShiftedRight(n.keys, i, n.keyCnt)[i := middle],
      n.dims,
      ShiftedRight(n.children, i + 1, n.keyCnt + 1)[i + 1 := Some(z)],
      n.keyCnt + 1, n.isLeaf, n.isCompressed, n.parent)
  }

  // Makes room for z among the children of the node.
  method LinkChild(pool: NodePool, node: Index, i: nat, z: Index)
    requires node in pool.slots && z in pool.slots && node != z && i <= pool.slots[node].keyCnt < MAX_DEGREE
    requires forall j :: i + 1 <= j <= pool.slots[node].keyCnt ==>
               && pool.slots[node].children[j].Some?
               && pool.slots[node].children[j].value in pool.slots
               && pool.slots[node].children[j].value != node
               && pool.slots[pool.slots[node].children[j].value].parent == Some(node)
    modifies pool
    ensures var n := old(pool.slots)[node];
            pool.slots == old(pool.slots)
                          [node := n.(children := ShiftedRight(n.children, i + 1, n.keyCnt + 1)[i + 1 := Some(z)])]
                          [z := WithParent(old(pool.slots)[z], Some(node))]
  {
    pool.MoveChildrenRight(node, i + 1, pool.slots[node].keyCnt + 1);
    pool.SetChild(node, i + 1, z);
  }

  // Makes room for the middle key of y among the keys of the node.
  method LinkKey(pool: NodePool, node: Index, i: nat, y: Index)
    requires node in pool.slots && y in pool.slots && node != y && i <= pool.slots[node].keyCnt < MAX_DEGREE
    modifies pool
    ensures var n, middle := old(pool.slots)[node], old(pool.slots)[y].keys[MIN_DEGREE];
            pool.slots == old(pool.slots)
                          [node := n.(keys := ShiftedRight(n.keys, i, n.keyCnt)[i := middle], keyCnt := n.keyCnt + 1)]
  {
    var cnt := pool.slots[node].keyCnt;
    pool.ShiftKeysRight(node, i, cnt);
    pool.MoveKey(y, MIN_DEGREE, node, i);
    pool.SetKeyCnt(node, cnt + 1);
  }

  // Makes room for z right of its sibling y and for the middle key between them.
  method LinkUpper(pool: NodePool, node: Index, i: nat, y: Index, z: Index)
    requires node in pool.slots && y in pool.slots && z in pool.slots && node != y && node != z && y != z
    requires i <= pool.slots[node].keyCnt < MAX_DEGREE
    requires forall j :: i + 1 <= j <= pool.slots[node].keyCnt ==>
               && pool.slots[node].children[j].Some?
               && pool.slots[node].children[j].value in pool.slots
               && pool.slots[node].children[j].value != node
               && pool.slots[pool.slots[node].children[j].value].parent == Some(node)
    modifies pool
    ensures pool.slots == old(pool.slots)
                          [node := LinkedTo(old(pool.slots)[node], i, z, old(pool.slots)[y].keys[MIN_DEGREE])]
                          [z := WithParent(old(pool.slots)[z], Some(node))]
  {
    hide ShiftedRight;
    LinkChild(pool, node, i, z);
    LinkKey(pool, node, i, y);
  }

  lemma LinkedHolds(n: Node, t: BT, parent: Option<Index>, i: nat, z: Index)
    requires Holds(n, t, parent) && i < |t.kids| && |t.kids| == |t.items| + 1 && |t.items| < MAX_DEGREE
    requires |t.kids[i].items| == MAX_DEGREE
    ensures var r := LinkedTo(n, i, z, t.kids[i].items[MIN_DEGREE]);
            Sized(r) && Holds(r, Split(t, i, z), parent)
  {
    var r := LinkedTo(n, i, z, t.kids[i].items[MIN_DEGREE]);
    var s := Split(t, i, z);
    assert r.keys[..r.keyCnt] == s.items;
    forall j | 0 <= j < |s.kids|
      ensures r.children[j] == Some(s.kids[j].id)
    {
      if j <= i {
        assert s.kids[j].id == t.kids[j].id;
      } else if j > i + 1 {
        assert s.kids[j] == t.kids[j - 1];
      }
    }
  }

  // Neither the parent nor another child of it is among the moved roots.
  lemma {:induction false} NotMoved(m: Memory, t: BT, parent: Option<Index>, h: nat, i: nat)
    requires Sub(m, t, parent, h) && h > 0 && i < |t.kids| && |t.kids[i].items| == MAX_DEGREE
    ensures t.id != t.kids[i].id && t.id !in Moved(t.kids[i])
    ensures forall j :: 0 <= j < |t.kids| && j != i ==>
        t.kids[j].id !in Ids(t.kids[i]) && t.kids[j].id !in Moved(t.kids[i])
  {
    var y := t.kids[i];
    assert Sub(m, y, Some(t.id), h - 1);
    KidInside(t, i);
    HalvesIds(y, y.id);
    RootsInside(UpperKids(y));
    assert forall x :: x in Moved(y) ==> x in Ids(y);
    forall j | 0 <= j < |t.kids| && j != i
      ensures t.kids[j].id !in Ids(y)
    {
      assert t.kids[j].id in Ids(t.kids[j]);
    }
  }

  lemma {:induction false} KidsLinked(m: Memory, t: BT, parent: Option<Index>, h: nat)
    requires Sub(m, t, parent, h)
    ensures forall j :: 0 <= j < |t.kids| ==>
              && t.kids[j].id in m && t.kids[j].id != t.id
              && m[t.kids[j].id].parent == Some(t.id)
              && m[t.id].children[j] == Some(t.kids[j].id)
  {
    forall j | 0 <= j < |t.kids|
      ensures t.kids[j].id in m && t.kids[j].id != t.id && m[t.kids[j].id].parent == Some(t.id)
    {
      KidInside(t, j);
      assert Sub(m, t.kids[j], Some(t.id), h - 1);
    }
  }

  // After the first step the parent is untouched and its other children still point to it.
  lemma CanLink(m0: Memory, m1: Memory, t: BT, i: nat, z: Index)
    requires t.id in m0 && i < |t.kids| && |t.kids[i].items| == MAX_DEGREE && m0[t.id].keyCnt + 1 == |t.kids|
    requires DetachedNodes(m0, m1, t.kids[i].id, z, Moved(t.kids[i]))
    requires t.id != t.kids[i].id && t.id !in Moved(t.kids[i])
    requires forall j :: 0 <= j < |t.kids| && j != i ==>
        t.kids[j].id !in Ids(t.kids[i]) && t.kids[j].id !in Moved(t.kids[i])
    requires forall j :: 0 <= j < |t.kids| ==>
               && t.kids[j].id in m0 && t.kids[j].id != t.id
               && m0[t.kids[j].id].parent == Some(t.id)
               && m0[t.id].children[j] == Some(t.kids[j].id)
    ensures t.id in m1 && m1[t.id] == m0[t.id]
    ensures forall j :: i + 1 <= j <= m1[t.id].keyCnt ==>
              && m1[t.id].children[j].Some?
              && m1[t.id].children[j].value in m1
              && m1[t.id].children[j].value != t.id
              && m1[m1[t.id].children[j].value].parent == Some(t.id)
  {
    forall j | i + 1 <= j < |t.kids|
      ensures m1[t.id].children[j] == Some(t.kids[j].id) && m1[t.kids[j].id] == m0[t.kids[j].id]
    {
      assert t.kids[i].id in Ids(t.kids[i]);
    }
  }

  lemma SplitDone(m0: Memory, m1: Memory, m2: Memory, t: BT, parent: Option<Index>, i: nat, z: Index)
    requires t.id in m0 && Holds(m0[t.id], t, parent) && |t.kids| == |t.items| + 1
    requires i < |t.kids| && |t.kids[i].items| == MAX_DEGREE && |t.items| < MAX_DEGREE
    requires Detached(m0, m1, t.kids[i], t.id, z)
    requires m1[t.id] == m0[t.id] && m1[t.kids[i].id].keys == t.kids[i].items
    requires t.id != t.kids[i].id && t.id != z && t.id !in Moved(t.kids[i])
    requires m2 == m1[t.id := LinkedTo(m1[t.id], i, z, m1[t.kids[i].id].keys[MIN_DEGREE])]
                     [z := WithParent(m1[z], Some(t.id))]
    ensures AfterSplit(m0, m2, t, parent, i, z)
  {
    LinkedHolds(m0[t.id], t, parent, i, z);
  }

  lemma NodeOf(m: Memory, t: BT, parent: Option<Index>, h: nat, i: nat)
    requires Sub(m, t, parent, h) && h > 0 && i < |t.kids|
    ensures t.id in m && Holds(m[t.id], t, parent) && |t.kids| == |t.items| + 1
    ensures Sub(m, t.kids[i], Some(t.id), h - 1)
    ensures |t.kids[i].kids| == 0 || |t.kids[i].kids| == |t.kids[i].items| + 1
  {
  }

  lemma DetachedOthers(m0: Memory, m1: Memory, y: Index, z: Index, moved: seq<Index>)
    requires DetachedNodes(m0, m1, y, z, moved)
    ensures m1.Keys == m0.Keys + {z} && z !in m0 && y in m0
  {
  }

  lemma {:induction false} SplitSteps(m0: Memory, m1: Memory, m2: Memory, t: BT, parent: Option<Index>, h: nat, i: nat,
                                      z: Index)
    requires Sub(m0, t, parent, h) && h > 0 && i < |t.kids| && |t.kids[i].items| == MAX_DEGREE
    requires |t.items| < MAX_DEGREE
    requires DetachedNodes(m0, m1, t.kids[i].id, z, Moved(t.kids[i])) && m1[t.id] == m0[t.id]
    requires m2 == m1[t.id := LinkedTo(m1[t.id], i, z, m1[t.kids[i].id].keys[MIN_DEGREE])]
                     [z := WithParent(m1[z], Some(t.id))]
    ensures Sub(m2, Split(t, i, z), parent, h)
    ensures Framed(m0, m2, Ids(t), Ids(Split(t, i, z)))
  {
    hide Sub, Ids, Holds, DetachedNodes, Detached, AfterSplit, LinkedTo, Framed;
    NodeOf(m0, t, parent, h, i);
    DetachedOthers(m0, m1, t.kids[i].id, z, Moved(t.kids[i]));
    DetachedHolds(m0, m1, t.kids[i], t.id, h - 1, z);
    NotMoved(m0, t, parent, h, i);
    SplitDone(m0, m1, m2, t, parent, i, z);
    SplitKeeps(m0, m2, t, parent, h, i, z);
  }

  /** Splits the full child y, which is child i of the node; z is the new right half. */
  method SplitChild(pool: NodePool, node: Index, i: nat, y: Index,
                    ghost t: BT, ghost parent: Option<Index>, ghost h: nat)
    returns (z: Index)
    requires Sub(pool.slots, t, parent, h) && h > 0
    requires node == t.id && i < |t.kids| && y == t.kids[i].id
    requires |t.items| < MAX_DEGREE && |t.kids[i].items| == MAX_DEGREE
    modifies pool
    ensures z !in old(pool.slots)
    ensures Sub(pool.slots, Split(t, i, z), parent, h)
    ensures Framed(old(pool.slots), pool.slots, Ids(t), Ids(Split(t, i, z)))
  {
    ghost var m0 := pool.slots;
    ghost var yt := t.kids[i];
    assert Sub(m0, yt, Some(t.id), h - 1);
    MovedRoots(m0, yt, Some(t.id), h - 1);
    NotMoved(m0, t, parent, h, i);
    KidsLinked(m0, t, parent, h);
    z := DetachUpper(pool, y, Moved(yt));
    ghost var m1 := pool.slots;
    CanLink(m0, m1, t, i, z);
    LinkUpper(pool, node, i, y, z);
    SplitSteps(m0, m1, pool.slots, t, parent, h, i, z);
  }
}
