/** Giving a child one more key before the removal descends into it (BTreeRemove::fill). */
module BTreeFill {
  import opened Nodes
  import opened BTrees
  import opened BTreeSplit
  import opened BTreeTrade
  import opened BTreeBorrow

  // Two neighbours and their parent, as the memory holds them.
  lemma {:induction false} TwoKidsHold(m: Memory, t: BT, parent: Option<Index>, h: nat, i: nat)
    requires Sub(m, t, parent, h) && h > 0 && i < |t.items|
    ensures TwoAlike(t, i) && t.id in m && Holds(m[t.id], t, parent)
    ensures var l, r := t.kids[i], t.kids[i + 1];
            && l.id in m && Holds(m[l.id], l, Some(t.id)) && |l.items| >= MIN_DEGREE
            && r.id in m && Holds(m[r.id], r, Some(t.id)) && |r.items| >= MIN_DEGREE
            && (if h == 1 then l.kids == [] && r.kids == [] else |l.kids| == |l.items| + 1 && |r.kids| == |r.items| + 1)
            && t.id != l.id && t.id != r.id && l.id != r.id
            && Ids(l) !! Ids(r) && t.id !in Ids(l) + Ids(r) && Ids(l) + Ids(r) <= m.Keys
    ensures m[t.id].children[i] == Some(t.kids[i].id) && m[t.id].children[i + 1] == Some(t.kids[i + 1].id)
  {
    var l, r := t.kids[i], t.kids[i + 1];
    assert Sub(m, l, Some(t.id), h - 1) && Sub(m, r, Some(t.id), h - 1);
    SubIds(m, l, Some(t.id), h - 1);
    SubIds(m, r, Some(t.id), h - 1);
    KidInside(t, i);
    KidInside(t, i + 1);
    assert Ids(l) !! Ids(r);
  }

  // A node over two groups of subtrees.
  lemma {:induction false} GroupedSub(m: Memory, t: BT, parent: Option<Index>, h: nat, a: seq<BT>, b: seq<BT>)
    requires t.kids == a + b && t.id in m && Holds(m[t.id], t, parent)
    requires if h == 0 then t.kids == [] else |t.kids| == |t.items| + 1
    requires Apart(a) && Apart(b) && KidIds(a) !! KidIds(b) && t.id !in KidIds(a) && t.id !in KidIds(b)
    requires Subs(m, a, t.id, h) && Subs(m, b, t.id, h)
    ensures Sub(m, t, parent, h) && Ids(t) == {t.id} + KidIds(a) + KidIds(b)
  {
    hide Subs, Holds;
    KidIdsConcat(a, b);
    ApartConcat(a, b);
    SubsConcat(m, a, b, t.id, h);
    SubIntro(m, t, parent, h);
  }

  lemma {:induction false} NoGroup(m: Memory, parent: Index, h: nat)
    ensures Apart([]) && KidIds([]) == {} && Subs(m, [], parent, h)
  {
  }

  lemma {:induction false} IdsSplit(t: BT, a: seq<BT>, b: seq<BT>)
    requires t.kids == a + b
    ensures Ids(t) == {t.id} + KidIds(a) + KidIds(b)
  {
    KidIdsConcat(a, b);
  }

  // ---------- from the next sibling ----------

  ghost function NextMoved(t: BT, i: nat): seq<BT>
    requires i + 1 < |t.kids| && Along(t.kids[i + 1]) <= |t.kids[i + 1].kids|
  {
    t.kids[i + 1].kids[..Along(t.kids[i + 1])]
  }

  lemma NextSubs(m0: Memory, m1: Memory, t: BT, parent: Option<Index>, h: nat, i: nat)
    requires Sub(m0, t, parent, h) && h > 0 && i < |t.items| && TwoAlike(t, i)
    requires |t.kids[i].items| < MAX_DEGREE && |t.kids[i + 1].items| > MIN_DEGREE
    requires BorrowedNext(m0, m1, t.id, i, t.kids[i].id, t.kids[i + 1].id, Roots(NextMoved(t, i)))
    ensures Sub(m1, NextTaker(t, i), Some(t.id), h - 1) && Sub(m1, NextGiver(t, i), Some(t.id), h - 1)
    ensures Ids(NextTaker(t, i)) !! Ids(NextGiver(t, i))
    ensures Ids(NextTaker(t, i)) + Ids(NextGiver(t, i)) == Ids(t.kids[i]) + Ids(t.kids[i + 1])
  {
    hide Sub, Subs, Ids, KidIds, Holds, Traded, Apart;
    var l, r := t.kids[i], t.kids[i + 1];
    var b, kr := NextMoved(t, i), r.kids[Along(r)..];
    TwoKidsHold(m0, t, parent, h, i);
    PiecesOfRight(m0, t, parent, h, i, Along(r));
    TradedSubs(m0, m1, t.id, l.id, r.id, l.kids, b, kr, r.id, l.id, h - 1);
    TookAtEndHolds(m0[l.id], l, Some(t.id), t.items[i], b);
    KeyOf(m0, t, parent, i);
    GaveFirstHolds(m0[r.id], r, Some(t.id));
    GroupedSub(m1, NextTaker(t, i), Some(t.id), h - 1, l.kids, b);
    NoGroup(m1, r.id, h - 1);
    assert kr == kr + [];
    GroupedSub(m1, NextGiver(t, i), Some(t.id), h - 1, kr, []);
    assert r.kids == b + kr && l.kids == l.kids + [];
    IdsSplit(r, b, kr);
    IdsSplit(l, l.kids, []);
  }

  lemma KeyOf(m: Memory, t: BT, parent: Option<Index>, i: nat)
    requires t.id in m && Holds(m[t.id], t, parent) && i < |t.items|
    ensures m[t.id].keys[i] == t.items[i] && m[t.id].keyCnt == |t.items|
  {
    assert Keys(m[t.id])[i] == t.items[i];
  }

  lemma PairHolds(n: Node, t: BT, parent: Option<Index>, i: nat, l: BT, x: KeyInfo, r: BT)
    requires Holds(n, t, parent) && |t.kids| == |t.items| + 1 && i < |t.items|
    requires l.id == t.kids[i].id && r.id == t.kids[i + 1].id
    ensures Holds(WithKey(n, i, x), WithPair(t, i, l, x, r), parent)
  {
    var t' := WithPair(t, i, l, x, r);
    assert WithKey(n, i, x).keys[..n.keyCnt] == t'.items;
    forall j | 0 <= j < |t'.kids|
      ensures t'.kids[j].id == t.kids[j].id
    {
    }
  }

  // The same level of the tree, with the keys spread differently over two neighbours.
  ghost predicate Levelled(m0: Memory, m1: Memory, t: BT, t': BT, parent: Option<Index>, h: nat) {
    && Sub(m1, t', parent, h) && t'.id == t.id && Flat(t') == Flat(t)
    && Framed(m0, m1, Ids(t), Ids(t'))
  }

  lemma {:induction false} NextDone(m0: Memory, m1: Memory, t: BT, parent: Option<Index>, h: nat, i: nat)
    requires Sub(m0, t, parent, h) && h > 0 && i < |t.items| && TwoAlike(t, i)
    requires |t.kids[i].items| < MAX_DEGREE && |t.kids[i + 1].items| > MIN_DEGREE
    requires BorrowedNext(m0, m1, t.id, i, t.kids[i].id, t.kids[i + 1].id, Roots(NextMoved(t, i)))
    ensures Levelled(m0, m1, t, NextTraded(t, i), parent, h)
  {
    hide Sub, Flat, Ids, Holds;
    var l, r := t.kids[i], t.kids[i + 1];
    TwoKidsHold(m0, t, parent, h, i);
    NextSubs(m0, m1, t, parent, h, i);
    NextFlat(t, i);
    KeyOf(m0, r, Some(t.id), 0);
    PairHolds(m0[t.id], t, parent, i, NextTaker(t, i), r.items[0], NextGiver(t, i));
    MovedInside(r, 0, Along(r));
    PairFramed(m0, m1, t, i, Roots(NextMoved(t, i)), l.id);
    PairDone(m0, m1, t, parent, h, i, NextTaker(t, i), r.items[0], NextGiver(t, i));
  }

  lemma {:induction false} MovedInside(t: BT, from: nat, to: nat)
    requires from <= to <= |t.kids|
    ensures forall x :: x in Roots(t.kids[from..to]) ==> x in Ids(t)
  {
    forall x | x in Roots(t.kids[from..to])
      ensures x in Ids(t)
    {
      var j :| 0 <= j < to - from && x == t.kids[from..to][j].id;
      KidInside(t, from + j);
    }
  }

  lemma PairFramed(m0: Memory, m1: Memory, t: BT, i: nat, g: seq<Index>, to: Index)
    requires i + 1 < |t.kids| && t.id in m0 && Ids(t.kids[i]) + Ids(t.kids[i + 1]) <= m0.Keys && m1.Keys == m0.Keys
    requires Traded(m0, m1, t.id, t.kids[i].id, t.kids[i + 1].id, g, to)
    requires forall x :: x in g ==> x in Ids(t.kids[i]) + Ids(t.kids[i + 1])
    ensures var s := {t.id} + (Ids(t.kids[i]) + Ids(t.kids[i + 1])); Framed(m0, m1, s, s)
  {
    var l, r := t.kids[i], t.kids[i + 1];
    var s := {t.id} + (Ids(l) + Ids(r));
    TradeFramed(m0, m1, t.id, l.id, r.id, g, to, s, s);
  }

  lemma {:induction false} RootsOfKids(m: Memory, y: BT, parent: Option<Index>, h: nat, from: nat, to: nat)
    requires Sub(m, y, parent, h) && from <= to <= |y.kids|
    ensures y.id in m && m[y.id].keyCnt == |y.items| && |y.kids| <= MAX_DEGREE + 1
    ensures m[y.id].isLeaf <==> h == 0
    ensures var g := Roots(y.kids[from..to]);
            && |g| == to - from && Distinct(g)
            && (forall j :: 0 <= j < |g| ==> g[j] in m && m[y.id].children[from + j] == Some(g[j]))
            && (forall j :: 0 <= j < |g| ==> g[j] in KidIds(y.kids))
  {
    hide KidIds;
    var g := Roots(y.kids[from..to]);
    SubIds(m, y, parent, h);
    assert Apart(y.kids[from..to]);
    RootsDistinct(y.kids[from..to]);
    forall j | 0 <= j < |g|
      ensures g[j] in KidIds(y.kids) && g[j] in m && m[y.id].children[from + j] == Some(g[j])
    {
      KidInside(y, from + j);
    }
  }

  lemma {:induction false} RootsElsewhere(m: Memory, t: BT, parent: Option<Index>, h: nat, k: nat, x: Index)
    requires Sub(m, t, parent, h) && h > 0 && k < |t.kids| && x in KidIds(t.kids[k].kids)
    ensures x != t.id && forall j :: 0 <= j < |t.kids| ==> x != t.kids[j].id
  {
    hide KidIds, Holds;
    KidInside(t, k);
    assert Sub(m, t.kids[k], Some(t.id), h - 1);
    forall j | 0 <= j < |t.kids|
      ensures x != t.kids[j].id
    {
      if j != k {
        assert t.kids[j].id in Ids(t.kids[j]) && Ids(t.kids[j]) !! Ids(t.kids[k]);
      }
    }
  }

  // What the moving of subtrees needs to know about their roots.
  lemma {:induction false} MovedReady(m: Memory, t: BT, parent: Option<Index>, h: nat, k: nat, from: nat, to: nat)
    requires Sub(m, t, parent, h) && h > 0 && k < |t.kids| && from <= to <= |t.kids[k].kids|
    ensures t.kids[k].id in m && m[t.kids[k].id].keyCnt == |t.kids[k].items| && |t.kids[k].kids| <= MAX_DEGREE + 1
    ensures var g := Roots(t.kids[k].kids[from..to]);
            && |g| == to - from && Distinct(g) && t.id !in g
            && (forall j :: 0 <= j < |t.kids| ==> t.kids[j].id !in g)
            && (forall j :: 0 <= j < |g| ==> g[j] in m && m[t.kids[k].id].children[from + j] == Some(g[j]))
    ensures m[t.kids[k].id].isLeaf <==> h == 1
  {
    hide KidIds, Holds, Roots, Apart;
    var g := Roots(t.kids[k].kids[from..to]);
    RootsOfKids(m, t.kids[k], Some(t.id), h - 1, from, to);
    forall x | x in g
      ensures x != t.id && forall j :: 0 <= j < |t.kids| ==> x != t.kids[j].id
    {
      RootsElsewhere(m, t, parent, h, k, x);
    }
  }

  method BorrowFromNext(pool: NodePool, node: Index, idx: nat, ghost t: BT, ghost parent: Option<Index>, ghost h: nat)
    returns (ghost t': BT)
    requires Sub(pool.slots, t, parent, h) && h > 0 && node == t.id && idx < |t.items| && TwoAlike(t, idx)
    requires |t.kids[idx].items| < MAX_DEGREE && |t.kids[idx + 1].items| > MIN_DEGREE
    modifies pool
    ensures t' == NextTraded(t, idx)
    ensures Levelled(old(pool.slots), pool.slots, t, t', parent, h)
  {
    hide Sub, Flat, Ids, Holds;
    ghost var r := t.kids[idx + 1];
    TwoKidsHold(pool.slots, t, parent, h, idx);
    MovedReady(pool.slots, t, parent, h, idx, 0, 0);
    MovedReady(pool.slots, t, parent, h, idx + 1, 0, Along(r));
    KeyOf(pool.slots, t, parent, idx);
    var ch := pool.slots[node].children[idx].value;
    var sib := pool.slots[node].children[idx + 1].value;
    ghost var m0 := pool.slots;
    BorrowNextNodes(pool, node, idx, ch, sib, Roots(NextMoved(t, idx)));
    NextDone(m0, pool.slots, t, parent, h, idx);
    t' := NextTraded(t, idx);
  }

  // ---------- from the previous sibling ----------

  ghost function PrevMoved(t: BT, i: nat): seq<BT>
    requires i + 1 < |t.kids| && Along(t.kids[i]) <= |t.kids[i].kids|
  {
    t.kids[i].kids[|t.kids[i].kids| - Along(t.kids[i])..]
  }

  lemma PrevSubs(m0: Memory, m1: Memory, t: BT, parent: Option<Index>, h: nat, i: nat)
    requires Sub(m0, t, parent, h) && h > 0 && i < |t.items| && TwoAlike(t, i)
    requires |t.kids[i].items| > MIN_DEGREE && |t.kids[i + 1].items| < MAX_DEGREE
    requires BorrowedPrev(m0, m1, t.id, i + 1, t.kids[i + 1].id, t.kids[i].id, Roots(PrevMoved(t, i)))
    ensures Sub(m1, PrevGiver(t, i), Some(t.id), h - 1) && Sub(m1, PrevTaker(t, i), Some(t.id), h - 1)
    ensures Ids(PrevGiver(t, i)) !! Ids(PrevTaker(t, i))
    ensures Ids(PrevGiver(t, i)) + Ids(PrevTaker(t, i)) == Ids(t.kids[i]) + Ids(t.kids[i + 1])
  {
    hide Sub, Subs, Ids, KidIds, Holds, Traded, Apart;
    var l, r := t.kids[i], t.kids[i + 1];
    var c := |l.kids| - Along(l);
    var kl, b := l.kids[..c], PrevMoved(t, i);
    TwoKidsHold(m0, t, parent, h, i);
    PiecesOfLeft(m0, t, parent, h, i, Along(l));
    TradedSubs(m0, m1, t.id, l.id, r.id, kl, b, r.kids, l.id, r.id, h - 1);
    KeyOf(m0, t, parent, i);
    TookAtStartHolds(m0[r.id], r, Some(t.id), t.items[i], b);
    GaveLastHolds(m0[l.id], l, Some(t.id));
    GroupedSub(m1, PrevTaker(t, i), Some(t.id), h - 1, b, r.kids);
    NoGroup(m1, l.id, h - 1);
    assert kl == kl + [];
    GroupedSub(m1, PrevGiver(t, i), Some(t.id), h - 1, kl, []);
    assert l.kids == kl + b && r.kids == r.kids + [];
    IdsSplit(l, kl, b);
    IdsSplit(r, r.kids, []);
  }

  lemma {:induction false} PrevDone(m0: Memory, m1: Memory, t: BT, parent: Option<Index>, h: nat, i: nat)
    requires Sub(m0, t, parent, h) && h > 0 && i < |t.items| && TwoAlike(t, i)
    requires |t.kids[i].items| > MIN_DEGREE && |t.kids[i + 1].items| < MAX_DEGREE
    requires BorrowedPrev(m0, m1, t.id, i + 1, t.kids[i + 1].id, t.kids[i].id, Roots(PrevMoved(t, i)))
    ensures Levelled(m0, m1, t, PrevTraded(t, i), parent, h)
  {
    hide Sub, Flat, Ids, Holds;
    var l, r := t.kids[i], t.kids[i + 1];
    TwoKidsHold(m0, t, parent, h, i);
    PrevSubs(m0, m1, t, parent, h, i);
    PrevFlat(t, i);
    KeyOf(m0, l, Some(t.id), |l.items| - 1);
    PairHolds(m0[t.id], t, parent, i, PrevGiver(t, i), l.items[|l.items| - 1], PrevTaker(t, i));
    MovedInside(l, |l.kids| - Along(l), |l.kids|);
    assert PrevMoved(t, i) == l.kids[|l.kids| - Along(l)..|l.kids|];
    PairFramed(m0, m1, t, i, Roots(PrevMoved(t, i)), r.id);
    PairDone(m0, m1, t, parent, h, i, PrevGiver(t, i), l.items[|l.items| - 1], PrevTaker(t, i));
  }

  lemma {:induction false} PrevReady(m: Memory, t: BT, parent: Option<Index>, h: nat, idx: nat)
    requires Sub(m, t, parent, h) && h > 0 && 0 < idx <= |t.items| && TwoAlike(t, idx - 1)
    requires |t.kids[idx - 1].items| > MIN_DEGREE && |t.kids[idx].items| < MAX_DEGREE
    ensures var l, r, g := t.kids[idx - 1], t.kids[idx], Roots(PrevMoved(t, idx - 1));
            && t.id in m && m[t.id].keyCnt == |t.items| && l.id in m && r.id in m
            && t.id != l.id && t.id != r.id && l.id != r.id
            && m[t.id].children[idx] == Some(r.id) && m[t.id].children[idx - 1] == Some(l.id)
            && m[l.id].keyCnt > 0 && m[r.id].keyCnt < MAX_DEGREE && m[r.id].isLeaf == m[l.id].isLeaf
            && |g| == (if m[r.id].isLeaf then 0 else 1) && t.id !in g && l.id !in g && r.id !in g
            && (forall j :: 0 <= j < |g| ==> g[j] in m && m[l.id].children[m[l.id].keyCnt] == Some(g[j]))
    ensures Along(t.kids[idx - 1]) <= |t.kids[idx - 1].kids|
  {
    hide Sub, Ids, Holds, Roots;
    var l := t.kids[idx - 1];
    assert PrevMoved(t, idx - 1) == l.kids[|l.kids| - Along(l)..|l.kids|];
    assert l.kids != [] ==> |l.kids| - Along(l) == |l.items|;
    TwoKidsHold(m, t, parent, h, idx - 1);
    MovedReady(m, t, parent, h, idx, 0, 0);
    MovedReady(m, t, parent, h, idx - 1, |l.kids| - Along(l), |l.kids|);
    KeyOf(m, t, parent, idx - 1);
  }

  method BorrowFromPrev(pool: NodePool, node: Index, idx: nat, ghost t: BT, ghost parent: Option<Index>, ghost h: nat)
    returns (ghost t': BT)
    requires Sub(pool.slots, t, parent, h) && h > 0 && node == t.id && 0 < idx <= |t.items| && TwoAlike(t, idx - 1)
    requires |t.kids[idx - 1].items| > MIN_DEGREE && |t.kids[idx].items| < MAX_DEGREE
    modifies pool
    ensures t' == PrevTraded(t, idx - 1)
    ensures Levelled(old(pool.slots), pool.slots, t, t', parent, h)
  {
    hide Sub, Flat, Ids, Holds, Along, PrevMoved, PrevTraded, Roots;
    PrevReady(pool.slots, t, parent, h, idx);
    var ch := pool.slots[node].children[idx].value;
    var sib := pool.slots[node].children[idx - 1].value;
    ghost var m0 := pool.slots;
    BorrowPrevNodes(pool, node, idx, ch, sib, Roots(PrevMoved(t, idx - 1)));
    PrevDone(m0, pool.slots, t, parent, h, idx - 1);
    t' := PrevTraded(t, idx - 1);
  }

  // ---------- merging ----------

  lemma MergedSub(m0: Memory, m1: Memory, t: BT, parent: Option<Index>, h: nat, i: nat)
    requires Sub(m0, t, parent, h) && h > 0 && i < |t.items| && TwoAlike(t, i)
    requires |t.kids[i].items| == MIN_DEGREE && |t.kids[i + 1].items| == MIN_DEGREE
    requires MergedNodes(m0, m1, t.id, i, t.kids[i].id, t.kids[i + 1].id, Roots(t.kids[i + 1].kids))
    ensures Sub(m1, Merged(t, i), Some(t.id), h - 1)
    ensures Ids(Merged(t, i)) == Ids(t.kids[i]) + Ids(t.kids[i + 1]) - {t.kids[i + 1].id}
  {
    hide Sub, Subs, Ids, KidIds, Holds, Traded, Apart;
    var l, r := t.kids[i], t.kids[i + 1];
    TwoKidsHold(m0, t, parent, h, i);
    PiecesOfRight(m0, t, parent, h, i, |r.kids|);
    assert r.kids[..|r.kids|] == r.kids;
    TradedSubs(m0, m1, t.id, l.id, r.id, l.kids, r.kids, r.kids[|r.kids|..], r.id, l.id, h - 1);
    KeyOf(m0, t, parent, i);
    TookAllHolds(m0[l.id], l, Some(t.id), t.items[i], m0[r.id], r, Some(t.id));
    GroupedSub(m1, Merged(t, i), Some(t.id), h - 1, l.kids, r.kids);
    NoGroup(m1, l.id, h - 1);
    assert l.kids == l.kids + [] && r.kids == r.kids + [];
    IdsSplit(l, l.kids, []);
    IdsSplit(r, r.kids, []);
  }

  lemma MergeFramed(m0: Memory, m1: Memory, t: BT, i: nat, g: seq<Index>)
    requires i + 1 < |t.kids| && t.id in m0 && Ids(t.kids[i]) + Ids(t.kids[i + 1]) <= m0.Keys
    requires m1.Keys == m0.Keys - {t.kids[i + 1].id}
    requires t.id !in Ids(t.kids[i]) + Ids(t.kids[i + 1])
    requires Traded(m0, m1, t.id, t.kids[i].id, t.kids[i + 1].id, g, t.kids[i].id)
    requires forall x :: x in g ==> x in Ids(t.kids[i + 1])
    ensures var s := Ids(t.kids[i]) + Ids(t.kids[i + 1]); Framed(m0, m1, {t.id} + s, {t.id} + (s - {t.kids[i + 1].id}))
  {
    var l, r := t.kids[i], t.kids[i + 1];
    var s := Ids(l) + Ids(r);
    TradeFramed(m0, m1, t.id, l.id, r.id, g, l.id, {t.id} + s, {t.id} + (s - {r.id}));
  }

  lemma {:induction false} MergedDone(m0: Memory, m1: Memory, t: BT, parent: Option<Index>, h: nat, i: nat)
    requires Sub(m0, t, parent, h) && h > 0 && i < |t.items| && TwoAlike(t, i)
    requires |t.kids[i].items| == MIN_DEGREE && |t.kids[i + 1].items| == MIN_DEGREE
    requires MergedNodes(m0, m1, t.id, i, t.kids[i].id, t.kids[i + 1].id, Roots(t.kids[i + 1].kids))
    ensures Levelled(m0, m1, t, WithJoined(t, i, Merged(t, i)), parent, h)
  {
    hide Sub, Flat, Ids, Holds;
    var l, r := t.kids[i], t.kids[i + 1];
    TwoKidsHold(m0, t, parent, h, i);
    MergedSub(m0, m1, t, parent, h, i);
    MergedFlat(t, i);
    WithoutKeyHolds(m0[t.id], t, parent, i, Merged(t, i));
    MovedInside(r, 0, |r.kids|);
    assert r.kids[0..|r.kids|] == r.kids;
    MergeFramed(m0, m1, t, i, Roots(r.kids));
    JoinedDone(m0, m1, t, parent, h, i, Merged(t, i));
  }

  method Merge(pool: NodePool, node: Index, idx: nat, ghost t: BT, ghost parent: Option<Index>, ghost h: nat)
    returns (ghost t': BT)
    requires Sub(pool.slots, t, parent, h) && h > 0 && node == t.id && idx < |t.items| && TwoAlike(t, idx)
    requires |t.kids[idx].items| == MIN_DEGREE && |t.kids[idx + 1].items| == MIN_DEGREE
    modifies pool
    ensures t' == WithJoined(t, idx, Merged(t, idx))
    ensures Levelled(old(pool.slots), pool.slots, t, t', parent, h)
    ensures pool.slots.Keys == old(pool.slots.Keys) - {t.kids[idx + 1].id}
  {
    hide Sub, Flat, Ids, Holds;
    ghost var r := t.kids[idx + 1];
    TwoKidsHold(pool.slots, t, parent, h, idx);
    MovedReady(pool.slots, t, parent, h, idx, 0, 0);
    MovedReady(pool.slots, t, parent, h, idx + 1, 0, |r.kids|);
    assert r.kids[0..|r.kids|] == r.kids;
    KeyOf(pool.slots, t, parent, idx);
    var ch := pool.slots[node].children[idx].value;
    var sib := pool.slots[node].children[idx + 1].value;
    ghost var m0 := pool.slots;
    MergeNodes(pool, node, idx, ch, sib, Roots(r.kids));
    MergedDone(m0, pool.slots, t, parent, h, idx);
    t' := WithJoined(t, idx, Merged(t, idx));
  }
}
