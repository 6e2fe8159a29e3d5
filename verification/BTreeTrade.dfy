/** Moving keys and subtrees between two neighbouring children of a node. */
module BTreeTrade {
  import opened Nodes
  import opened Interleave
  import opened BTrees
  import opened BTreeSplit

  // ---------- the in-order sequence ----------

  lemma {:induction false} ZipJoin<A>(a: seq<A>, x: A, b: seq<A>, ps: seq<seq<A>>, qs: seq<seq<A>>)
    requires |ps| == |a| + 1 && |qs| == |b| + 1
    ensures Zip(a + [x] + b, ps + qs) == Zip(a, ps) + [x] + Zip(b, qs)
  {
    var own, parts := a + [x] + b, ps + qs;
    if a == [] {
      assert own[1..] == b && parts[1..] == qs && own[0] == x;
    } else {
      ZipJoin(a[1..], x, b, ps[1..], qs);
      assert own[1..] == a[1..] + [x] + b && parts[1..] == ps[1..] + qs && own[0] == a[0];
    }
  }

  ghost predicate Shaped(items: seq<KeyInfo>, kids: seq<BT>) {
    kids == [] || |kids| == |items| + 1
  }

  // One node made of two and a key between them.
  lemma JoinFlat(id: Index, a: seq<KeyInfo>, x: KeyInfo, b: seq<KeyInfo>, ks: seq<BT>, ls: seq<BT>)
    requires Shaped(a, ks) && Shaped(b, ls) && (ks == [] <==> ls == [])
    ensures Flat(BT(id, a + [x] + b, ks + ls)) == Flat(BT(id, a, ks)) + [x] + Flat(BT(id, b, ls))
  {
    if ks != [] {
      assert Parts(ks + ls) == Parts(ks) + Parts(ls);
      ZipJoin(a, x, b, Parts(ks), Parts(ls));
    } else {
      assert ks + ls == [];
    }
  }

  lemma {:induction false} FlatIgnoresId(id: Index, t: BT)
    ensures Flat(BT(id, t.items, t.kids)) == Flat(t)
  {
  }

  // Children i and i + 1 and the key between them were exchanged for others.
  ghost function WithPair(t: BT, i: nat, l: BT, x: KeyInfo, r: BT): BT
    requires i + 1 < |t.kids| && i < |t.items|
  {
    BT(t.id, t.items[i := x], t.kids[..i] + [l, r] + t.kids[i + 2..])
  }

  ghost function WithJoined(t: BT, i: nat, l: BT): BT
    requires i + 1 < |t.kids| && i < |t.items|
  {
    BT(t.id, t.items[..i] + t.items[i + 1..], t.kids[..i] + [l] + t.kids[i + 2..])
  }

  lemma {:induction false} PairFlatIs(t: BT, i: nat, l: BT, x: KeyInfo, r: BT)
    requires |t.kids| == |t.items| + 1 && i < |t.items|
    ensures Flat(WithPair(t, i, l, x, r)) == LeftOf(t, i) + Flat(l) + [x] + Flat(r) + RightOf(t, i + 1)
  {
    hide Flat;
    var t' := WithPair(t, i, l, x, r);
    FlatAround(t', i);
    assert t'.items[..i] == t.items[..i] && t'.items[i + 1..] == t.items[i + 1..];
    assert Parts(t'.kids)[..i] == Parts(t.kids)[..i];
    assert Parts(t'.kids)[i + 2..] == Parts(t.kids)[i + 2..];
  }

  lemma {:induction false} PairFlat(t: BT, i: nat, l: BT, x: KeyInfo, r: BT)
    requires |t.kids| == |t.items| + 1 && i < |t.items|
    requires Flat(l) + [x] + Flat(r) == Flat(t.kids[i]) + [t.items[i]] + Flat(t.kids[i + 1])
    ensures Flat(WithPair(t, i, l, x, r)) == Flat(t)
  {
    hide Flat, LeftOf, RightOf;
    FlatAround(t, i);
    PairFlatIs(t, i, l, x, r);
    Regrouping(LeftOf(t, i), Flat(l), x, Flat(r), RightOf(t, i + 1));
    Regrouping(LeftOf(t, i), Flat(t.kids[i]), t.items[i], Flat(t.kids[i + 1]), RightOf(t, i + 1));
  }

  lemma Regrouping<A>(p: seq<A>, a: seq<A>, x: A, b: seq<A>, q: seq<A>)
    ensures p + a + [x] + b + q == p + (a + [x] + b) + q
  {
  }

  lemma {:induction false} JoinedFlat(t: BT, i: nat, l: BT)
    requires |t.kids| == |t.items| + 1 && i < |t.items|
    requires Flat(l) == Flat(t.kids[i]) + [t.items[i]] + Flat(t.kids[i + 1])
    ensures Flat(WithJoined(t, i, l)) == Flat(t)
  {
    hide Flat;
    var t' := WithJoined(t, i, l);
    FlatAround(t, i);
    FlatAt(t', i);
    assert t'.items[..i] == t.items[..i] && t'.items[i..] == t.items[i + 1..];
    assert Parts(t'.kids)[..i] == Parts(t.kids)[..i];
    assert Parts(t'.kids)[i + 1..] == Parts(t.kids)[i + 2..];
    Regrouping(LeftOf(t, i), Flat(t.kids[i]), t.items[i], Flat(t.kids[i + 1]), RightOf(t, i + 1));
  }

  // ---------- subtrees that change hands ----------

  // Two neighbours below `node`: kl stays with l, kr stays with r, b changes hands.
  ghost predicate Pieces(m: Memory, node: Index, l: Index, r: Index, kl: seq<BT>, b: seq<BT>, kr: seq<BT>, from: Index,
                         h: nat) {
    && l in m && r in m && node in m && node != l && node != r && l != r
    && Apart(kl) && Apart(b) && Apart(kr)
    && KidIds(kl) !! KidIds(b) && KidIds(kl) !! KidIds(kr) && KidIds(b) !! KidIds(kr)
    && {node, l, r} !! KidIds(kl) && {node, l, r} !! KidIds(b) && {node, l, r} !! KidIds(kr)
    && KidIds(kl) <= m.Keys && KidIds(b) <= m.Keys && KidIds(kr) <= m.Keys
    && Subs(m, kl, l, h) && Subs(m, b, from, h) && Subs(m, kr, r, h)
  }

  // The step only touches the three nodes and the parent pointers of the roots in b.
  ghost predicate Traded(m0: Memory, m1: Memory, node: Index, l: Index, r: Index, b: seq<Index>, to: Index) {
    && (forall x :: x in m0 && x != node && x != l && x != r && x !in b ==> x in m1 && m1[x] == m0[x])
    && (forall x :: x in m0 && x in b ==> x in m1 && m1[x] == WithParent(m0[x], Some(to)))
    && (forall x :: x in m1 ==> x in m0)
  }

  lemma {:induction false} TradedSubs(m0: Memory, m1: Memory, node: Index, l: Index, r: Index, kl: seq<BT>, b: seq<BT>,
                                      kr: seq<BT>,
                   from: Index, to: Index, h: nat)
    requires Pieces(m0, node, l, r, kl, b, kr, from, h)
    requires Traded(m0, m1, node, l, r, Roots(b), to)
    ensures Subs(m1, kl, l, h) && Subs(m1, b, to, h) && Subs(m1, kr, r, h)
  {
    hide Sub, Ids, KidIds, Subs;
    RootsInside(b);
    SubsFrame(m0, m1, kl, l, h);
    SubsFrame(m0, m1, kr, r, h);
    SubsReparent(m0, m1, b, from, to, h);
  }

  lemma {:induction false} SubIntro(m: Memory, t: BT, parent: Option<Index>, h: nat)
    requires t.id in m && Holds(m[t.id], t, parent)
    requires if h == 0 then t.kids == [] else |t.kids| == |t.items| + 1
    requires t.id !in KidIds(t.kids) && Apart(t.kids) && Subs(m, t.kids, t.id, h)
    ensures Sub(m, t, parent, h)
  {
  }

  // The two neighbours as they are before the step, with the first n children of r set apart.
  lemma {:induction false} PiecesOfRight(m: Memory, t: BT, parent: Option<Index>, h: nat, i: nat, n: nat)
    requires Sub(m, t, parent, h) && h > 0 && i + 1 < |t.kids| && n <= |t.kids[i + 1].kids|
    ensures var l, r := t.kids[i], t.kids[i + 1];
            Pieces(m, t.id, l.id, r.id, l.kids, r.kids[..n], r.kids[n..], r.id, h - 1)
  {
    var l, r := t.kids[i], t.kids[i + 1];
    PairApart(m, t, parent, h, i);
    assert r.kids == r.kids[..n] + r.kids[n..];
    KidIdsConcat(r.kids[..n], r.kids[n..]);
    ApartConcat(r.kids[..n], r.kids[n..]);
    SubsConcat(m, r.kids[..n], r.kids[n..], r.id, h - 1);
  }

  // The same with the last n children of l set apart.
  lemma {:induction false} PiecesOfLeft(m: Memory, t: BT, parent: Option<Index>, h: nat, i: nat, n: nat)
    requires Sub(m, t, parent, h) && h > 0 && i + 1 < |t.kids| && n <= |t.kids[i].kids|
    ensures var l, r := t.kids[i], t.kids[i + 1];
            var c := |l.kids| - n;
            Pieces(m, t.id, l.id, r.id, l.kids[..c], l.kids[c..], r.kids, l.id, h - 1)
  {
    var l, r := t.kids[i], t.kids[i + 1];
    var c := |l.kids| - n;
    PairApart(m, t, parent, h, i);
    assert l.kids == l.kids[..c] + l.kids[c..];
    KidIdsConcat(l.kids[..c], l.kids[c..]);
    ApartConcat(l.kids[..c], l.kids[c..]);
    SubsConcat(m, l.kids[..c], l.kids[c..], l.id, h - 1);
  }

  lemma {:induction false} PairApart(m: Memory, t: BT, parent: Option<Index>, h: nat, i: nat)
    requires Sub(m, t, parent, h) && h > 0 && i + 1 < |t.kids|
    ensures var l, r := t.kids[i], t.kids[i + 1];
            && t.id in m && l.id in m && r.id in m && t.id != l.id && t.id != r.id && l.id != r.id
            && {t.id, l.id, r.id} !! KidIds(l.kids) && {t.id, l.id, r.id} !! KidIds(r.kids)
            && KidIds(l.kids) !! KidIds(r.kids)
            && KidIds(l.kids) <= m.Keys && KidIds(r.kids) <= m.Keys
            && Apart(l.kids) && Apart(r.kids)
            && Subs(m, l.kids, l.id, h - 1) && Subs(m, r.kids, r.id, h - 1)
  {
    var l, r := t.kids[i], t.kids[i + 1];
    assert Sub(m, l, Some(t.id), h - 1) && Sub(m, r, Some(t.id), h - 1);
    SubIds(m, l, Some(t.id), h - 1);
    SubIds(m, r, Some(t.id), h - 1);
    KidInside(t, i);
    KidInside(t, i + 1);
    assert Ids(l) !! Ids(r);
  }

  // ---------- back to the whole node ----------

  lemma PairSplit(t: BT, i: nat)
    requires i + 1 < |t.kids|
    ensures t.kids == t.kids[..i] + [t.kids[i], t.kids[i + 1]] + t.kids[i + 2..]
  {
  }

  lemma TradeFramed(m0: Memory, m1: Memory, node: Index, l: Index, r: Index, b: seq<Index>, to: Index, s: set<Index>,
                    s': set<Index>)
    requires Traded(m0, m1, node, l, r, b, to)
    requires s <= m0.Keys && {node, l, r} <= s && (forall x :: x in b ==> x in s)
    requires s' <= s && s' <= m1.Keys
    requires forall x :: x in s - s' ==> x !in m1
    ensures Framed(m0, m1, s, s')
  {
  }

  lemma {:induction false} Branches(m: Memory, t: BT, parent: Option<Index>, h: nat)
    requires Sub(m, t, parent, h) && h > 0
    ensures t.id in m && |t.kids| == |t.items| + 1
  {
  }

  // Both neighbours are still there: the same nodes, other keys.
  lemma PairDone(m0: Memory, m1: Memory, t: BT, parent: Option<Index>, h: nat, i: nat, l: BT, x: KeyInfo, r: BT)
    requires Sub(m0, t, parent, h) && h > 0 && i < |t.items|
    requires t.id in m1 && Holds(m1[t.id], WithPair(t, i, l, x, r), parent)
    requires Sub(m1, l, Some(t.id), h - 1) && Sub(m1, r, Some(t.id), h - 1)
    requires |l.items| >= MIN_DEGREE && |r.items| >= MIN_DEGREE
    requires Ids(l) !! Ids(r) && Ids(l) + Ids(r) == Ids(t.kids[i]) + Ids(t.kids[i + 1])
    requires Framed(m0, m1, {t.id} + (Ids(l) + Ids(r)), {t.id} + (Ids(l) + Ids(r)))
    requires t.id !in Ids(l) + Ids(r)
    ensures Sub(m1, WithPair(t, i, l, x, r), parent, h)
    ensures Framed(m0, m1, Ids(t), Ids(WithPair(t, i, l, x, r)))
  {
    hide Ids, KidIds, Subs, Holds, Sub;
    Branches(m0, t, parent, h);
    var t' := WithPair(t, i, l, x, r);
    PairSplit(t, i);
    TwoKids(t.kids[i], t.kids[i + 1]);
    TwoKids(l, r);
    PairSubs(m1, l, r, t.id, h);
    Regroup(m0, m1, t, t', parent, h, t.kids[..i], [t.kids[i], t.kids[i + 1]], [l, r], t.kids[i + 2..], {});
    assert Ids(t') + {} == Ids(t');
  }

  lemma {:induction false} PairSubs(m: Memory, l: BT, r: BT, parent: Index, h: nat)
    requires h > 0 && Sub(m, l, Some(parent), h - 1) && Sub(m, r, Some(parent), h - 1)
    requires |l.items| >= MIN_DEGREE && |r.items| >= MIN_DEGREE
    ensures Subs(m, [l, r], parent, h)
  {
  }

  // Only one of them is left.
  lemma JoinedDone(m0: Memory, m1: Memory, t: BT, parent: Option<Index>, h: nat, i: nat, l: BT)
    requires Sub(m0, t, parent, h) && h > 0 && i < |t.items|
    requires t.id in m1 && Holds(m1[t.id], WithJoined(t, i, l), parent)
    requires Sub(m1, l, Some(t.id), h - 1) && |l.items| >= MIN_DEGREE
    requires Ids(l) <= Ids(t.kids[i]) + Ids(t.kids[i + 1])
    requires Framed(m0, m1, {t.id} + (Ids(t.kids[i]) + Ids(t.kids[i + 1])), {t.id} + Ids(l))
    requires t.id !in Ids(l)
    ensures Sub(m1, WithJoined(t, i, l), parent, h)
    ensures Framed(m0, m1, Ids(t), Ids(WithJoined(t, i, l)))
  {
    hide Ids, KidIds, Holds, Sub;
    Branches(m0, t, parent, h);
    var t' := WithJoined(t, i, l);
    PairSplit(t, i);
    TwoKids(t.kids[i], t.kids[i + 1]);
    OneKid(l);
    assert Subs(m1, [l], t.id, h);
    assert {t.id} + KidIds([l]) + {} == {t.id} + Ids(l);
    Regroup(m0, m1, t, t', parent, h, t.kids[..i], [t.kids[i], t.kids[i + 1]], [l], t.kids[i + 2..], {});
    assert Ids(t') + {} == Ids(t');
  }
}
