/** Giving all the nodes of a tree back (BTree::destroy_node). */
module TreeDestroy {
  import opened Nodes
  import opened Interleave
  import opened BTrees
  import opened Layers
  import opened LayerSearch
  import opened RuleDump

  // ---------- nodes, each as often as it is reached ----------

  // The nodes of the layers below these keys.
  ghost function HangBag(items: seq<KeyInfo>, subs: map<Index, Layer>): multiset<Index> {
    if items == [] then multiset{}
    else multiset(IdsOf(SubOf(subs, items[0].next))) + HangBag(items[1..], subs)
  }

  ghost function TreeBag(t: BT, subs: map<Index, Layer>): multiset<Index>
    decreases t, 1
  {
    multiset{t.id} + HangBag(t.items, subs) + KidsBag(t.kids, subs)
  }

  ghost function KidsBag(kids: seq<BT>, subs: map<Index, Layer>): multiset<Index>
    decreases kids, 0
  {
    if kids == [] then multiset{} else TreeBag(kids[0], subs) + KidsBag(kids[1..], subs)
  }

  ghost predicate NoneTwice(bag: multiset<Index>) {
    forall x :: x in bag ==> bag[x] <= 1
  }

  ghost function Elems(bag: multiset<Index>): set<Index> {
    set x | x in bag
  }

  lemma ElemsSum(a: multiset<Index>, b: multiset<Index>)
    ensures Elems(a + b) == Elems(a) + Elems(b)
    ensures NoneTwice(a + b) ==> NoneTwice(a) && NoneTwice(b) && Elems(a) !! Elems(b)
  {
    if NoneTwice(a + b) {
      forall x | x in a
        ensures a[x] <= 1 && x !in b
      {
        assert x in a + b;
      }
      forall x | x in b
        ensures b[x] <= 1
      {
        assert x in a + b;
      }
    }
  }

  lemma ElemsOfSet(s: set<Index>)
    ensures Elems(multiset(s)) == s && NoneTwice(multiset(s))
  {
  }

  // ---------- no node is reached twice ----------

  ghost function OwnBag(t: BT): multiset<Index>
    decreases t, 1
  {
    multiset{t.id} + OwnKidsBag(t.kids)
  }

  ghost function OwnKidsBag(kids: seq<BT>): multiset<Index>
    decreases kids, 0
  {
    if kids == [] then multiset{} else OwnBag(kids[0]) + OwnKidsBag(kids[1..])
  }

  ghost function HangParts(parts: seq<seq<KeyInfo>>, subs: map<Index, Layer>): multiset<Index> {
    if parts == [] then multiset{} else HangBag(parts[0], subs) + HangParts(parts[1..], subs)
  }

  lemma {:induction false} HangConcat(a: seq<KeyInfo>, b: seq<KeyInfo>, subs: map<Index, Layer>)
    ensures HangBag(a + b, subs) == HangBag(a, subs) + HangBag(b, subs)
  {
    hide IdsOf;
    if a == [] {
      assert a + b == b;
    } else {
      HangConcat(a[1..], b, subs);
      assert (a + b)[1..] == a[1..] + b;
    }
  }

  lemma {:induction false} HangZip(own: seq<KeyInfo>, parts: seq<seq<KeyInfo>>, subs: map<Index, Layer>)
    requires |parts| == |own| + 1
    ensures HangBag(Zip(own, parts), subs) == HangBag(own, subs) + HangParts(parts, subs)
  {
    hide IdsOf;
    if own == [] {
      assert HangParts(parts[1..], subs) == multiset{};
    } else {
      HangZip(own[1..], parts[1..], subs);
      HangConcat(parts[0] + [own[0]], Zip(own[1..], parts[1..]), subs);
      HangConcat(parts[0], [own[0]], subs);
      HangConcat([own[0]], own[1..], subs);
      assert [own[0]] + own[1..] == own;
      SumShuffle(HangBag(parts[0], subs), HangBag([own[0]], subs), HangBag(own[1..], subs),
                 HangParts(parts[1..], subs));
    }
  }

  lemma {:induction false} TreeBagIs(m: Memory, t: BT, parent: Option<Index>, h: nat, subs: map<Index, Layer>)
    requires Sub(m, t, parent, h)
    ensures TreeBag(t, subs) == OwnBag(t) + HangBag(Flat(t), subs)
    decreases h, 1, 0
  {
    hide IdsOf;
    KidsBagIs(m, t.kids, t.id, h, subs);
    if h > 0 {
      HangZip(t.items, Parts(t.kids), subs);
    } else {
      assert Parts(t.kids) == [];
    }
    FourSum(multiset{t.id}, HangBag(t.items, subs), OwnKidsBag(t.kids), HangParts(Parts(t.kids), subs));
  }

  lemma FourSum<A>(a: multiset<A>, b: multiset<A>, c: multiset<A>, d: multiset<A>)
    ensures a + b + (c + d) == (a + c) + (b + d)
  {
  }

  lemma {:induction false} KidsBagIs(m: Memory, kids: seq<BT>, parent: Index, h: nat, subs: map<Index, Layer>)
    requires Subs(m, kids, parent, h)
    ensures KidsBag(kids, subs) == OwnKidsBag(kids) + HangParts(Parts(kids), subs)
    decreases h, 0, |kids|
  {
    hide IdsOf, Sub;
    if kids != [] {
      TreeBagIs(m, kids[0], Some(parent), h - 1, subs);
      assert Subs(m, kids[1..], parent, h);
      KidsBagIs(m, kids[1..], parent, h, subs);
      assert Parts(kids)[1..] == Parts(kids[1..]);
      FourSum(OwnBag(kids[0]), HangBag(Flat(kids[0]), subs), OwnKidsBag(kids[1..]), HangParts(Parts(kids[1..]), subs));
    }
  }

  lemma {:induction false} OwnBagIs(m: Memory, t: BT, parent: Option<Index>, h: nat)
    requires Sub(m, t, parent, h)
    ensures OwnBag(t) == multiset(Ids(t))
    decreases h, 1, 0
  {
    OwnKidsBagIs(m, t.kids, t.id, h);
    assert multiset(Ids(t)) == multiset{t.id} + multiset(KidIds(t.kids));
  }

  lemma {:induction false} OwnKidsBagIs(m: Memory, kids: seq<BT>, parent: Index, h: nat)
    requires Subs(m, kids, parent, h) && Apart(kids)
    ensures OwnKidsBag(kids) == multiset(KidIds(kids))
    decreases h, 0, |kids|
  {
    hide Sub, Ids;
    if kids != [] {
      var rest := kids[1..];
      assert kids == [kids[0]] + rest;
      OwnBagIs(m, kids[0], Some(parent), h - 1);
      ApartConcat([kids[0]], rest);
      KidIdsConcat([kids[0]], rest);
      OneKid(kids[0]);
      SubsConcat(m, [kids[0]], rest, parent, h);
      OwnKidsBagIs(m, rest, parent, h);
      assert multiset(KidIds(kids)) == multiset(KidIds([kids[0]])) + multiset(KidIds(rest));
    } else {
      assert KidIds(kids) == {};
    }
  }

  lemma {:induction false} HangCount(items: seq<KeyInfo>, l: Layer, j: Index, x: Index)
    requires j in l.subs && x in AllIds(l.subs[j]) && SubsApart(OwnIds(l), l.subs)
    ensures HangBag(items, l.subs)[x] == Nexts(items)[j]
  {
    if items != [] {
      HangCount(items[1..], l, j, x);
    }
  }

  lemma {:induction false} HangNone(items: seq<KeyInfo>, l: Layer, x: Index)
    requires x !in BelowIds(l)
    ensures x !in HangBag(items, l.subs)
  {
    if items != [] {
      HangNone(items[1..], l, x);
      var s := SubOf(l.subs, items[0].next);
      if s.Some? {
        SubInside(l, items[0].next.value);
      }
    }
  }

  lemma {:induction false} HangIsBelow(m: Memory, l: Layer, level: nat, order: Order)
    requires Rep(m, l, level, order)
    ensures HangBag(Own(l), l.subs) == multiset(BelowIds(l))
  {
    hide AllIds;
    forall x
      ensures HangBag(Own(l), l.subs)[x] == multiset(BelowIds(l))[x]
    {
      if x in BelowIds(l) {
        var j :| j in l.subs && x in AllIds(l.subs[j]);
        HangCount(Own(l), l, j, x);
        assert multiset(l.subs.Keys)[j] == 1;
      } else {
        HangNone(Own(l), l, x);
      }
    }
  }

  lemma {:induction false} OwnAndBelow(m: Memory, l: Layer, level: nat, order: Order)
    requires Rep(m, l, level, order)
    ensures multiset(AllIds(l)) == multiset(OwnIds(l)) + multiset(BelowIds(l))
  {
    hide OwnRep, Linked, OwnIds, Own, Ids, KidIds;
    assert OwnIds(l) !! BelowIds(l);
  }

  // The nodes reached from the root of a layer form a proper tree: none is reached twice.
  lemma {:induction false} ReachedOnce(m: Memory, l: Layer, level: nat, order: Order)
    requires Rep(m, l, level, order)
    ensures l.Plain? ==> TreeBag(l.bt, l.subs) == multiset(AllIds(l))
    ensures l.Packed? ==> multiset{l.id} + HangBag(l.items, l.subs) == multiset(AllIds(l))
  {
    hide Rep, AllIds, BelowIds, Ids, TreeBag, HangBag, OwnBag, Sub, Flat;
    HangIsBelow(m, l, level, order);
    OwnAndBelow(m, l, level, order);
    RootNode(m, l, level, order);
    if l.Plain? {
      TreeBagIs(m, l.bt, None, l.h, l.subs);
      OwnBagIs(m, l.bt, None, l.h);
    } else {
      assert multiset(OwnIds(l)) == multiset{l.id};
    }
  }

  // ---------- releasing them ----------

  // The pool as it was at the start, without the nodes released so far.
  ghost predicate Released(pool: NodePool, m0: Memory, gone: set<Index>)
    reads pool
  {
    pool.slots == m0 - gone
  }

  // A piece of the tree that is still to be released.
  ghost predicate Pending(bag: multiset<Index>, gone: set<Index>) {
    NoneTwice(bag) && Elems(bag) !! gone
  }

  lemma PendingParts(a: multiset<Index>, b: multiset<Index>, gone: set<Index>)
    requires Pending(a + b, gone)
    ensures Pending(a, gone) && Pending(b, gone + Elems(a)) && Elems(a + b) == Elems(a) + Elems(b)
  {
    ElemsSum(a, b);
  }

  lemma {:induction false} KidsBagAt(kids: seq<BT>, i: nat, subs: map<Index, Layer>)
    requires i < |kids|
    ensures KidsBag(kids[i..], subs) == TreeBag(kids[i], subs) + KidsBag(kids[i + 1..], subs)
  {
    assert kids[i..][1..] == kids[i + 1..];
  }

  lemma {:induction false} HangBagAt(items: seq<KeyInfo>, i: nat, subs: map<Index, Layer>)
    requires i < |items|
    ensures HangBag(items[i..], subs) == multiset(IdsOf(SubOf(subs, items[i].next))) + HangBag(items[i + 1..], subs)
  {
    hide IdsOf;
    assert items[i..][1..] == items[i + 1..];
  }

  // Releases the next layers of the keys of a node.
  method DestroyBelow(pool: NodePool, n: Index, ghost items: seq<KeyInfo>, ghost subs: map<Index, Layer>,
                      ghost level: nat, ghost order: Order, ghost m0: Memory, ghost gone: set<Index>)
    requires Released(pool, m0, gone) && n in pool.slots && level <= D
    requires pool.slots[n].keyCnt == |items| && forall i :: 0 <= i < |items| ==>
        pool.slots[n].keys[i].next == items[i].next
    requires forall i :: 0 <= i < |items| ==> Hangs(m0, items[i], subs, level, order)
    requires Pending(HangBag(items, subs), gone) && n !in HangBag(items, subs)
    modifies pool
    ensures Released(pool, m0, gone + Elems(HangBag(items, subs)))
    decreases D - level, 2, 0, 0
  {
    hide Rep, AllIds, IdsOf, HangBag, Elems, NoneTwice, Pending;
    ghost var done := gone;
    ghost var node := pool.slots[n];
    StartAt(items, subs);
    var i := 0;
    while i < pool.slots[n].keyCnt
      invariant 0 <= i <= |items| && n in pool.slots && pool.slots[n] == node
      invariant Released(pool, m0, done) && Pending(HangBag(items[i..], subs), done)
      invariant n !in HangBag(items[i..], subs)
      invariant done + Elems(HangBag(items[i..], subs)) == gone + Elems(HangBag(items, subs))
    {
      ghost var s := SubOf(subs, items[i].next);
      HangBagAt(items, i, subs);
      PendingParts(multiset(IdsOf(s)), HangBag(items[i + 1..], subs), done);
      PendingSet(IdsOf(s), done);
      SubHangs(m0, items[i], subs, level, order);
      DestroyLayer(pool, pool.slots[n].keys[i].next, s, level, order, m0, done);
      done := done + IdsOf(s);
      i := i + 1;
    }
    EndAt(items, subs);
  }

  lemma StartAt(items: seq<KeyInfo>, subs: map<Index, Layer>)
    ensures items[0..] == items
  {
  }

  lemma {:induction false} EndAt(items: seq<KeyInfo>, subs: map<Index, Layer>)
    ensures Elems(HangBag(items[|items|..], subs)) == {}
  {
  }

  lemma PendingSet(s: set<Index>, gone: set<Index>)
    ensures Elems(multiset(s)) == s
    ensures Pending(multiset(s), gone) <==> s !! gone
    ensures forall x :: x in s <==> x in multiset(s)
  {
    ElemsOfSet(s);
  }

  lemma SubHangs(m: Memory, x: KeyInfo, subs: map<Index, Layer>, level: nat, order: Order)
    requires Hangs(m, x, subs, level, order)
    ensures RepOf(m, SubOf(subs, x.next), level, order) && RootOf(SubOf(subs, x.next)) == x.next
  {
  }

  // Releases the children of a node, with everything below them.
  method DestroyChildren(pool: NodePool, n: Index, ghost t: BT, ghost parent: Option<Index>, ghost h: nat,
                         ghost subs: map<Index, Layer>, ghost level: nat, ghost order: Order, ghost m0: Memory,
                             ghost gone: set<Index>)
    requires Released(pool, m0, gone) && n in pool.slots && n == t.id && level < D
    requires Sub(m0, t, parent, h) && Hanging(m0, Flat(t), subs, level + 1, order)
    requires Pending(KidsBag(t.kids, subs), gone) && n !in KidsBag(t.kids, subs)
    modifies pool
    ensures Released(pool, m0, gone + Elems(KidsBag(t.kids, subs)))
    decreases D - level, 0, h, 0
  {
    hide Sub, Flat, Hanging, KidsBag, TreeBag, Elems, NoneTwice, Pending;
    NodeShape(m0, t, parent, h);
    KidsHold(m0, t, parent, h);
    ghost var done := gone;
    ghost var node := pool.slots[n];
    assert t.kids[0..] == t.kids;
    if !pool.slots[n].isLeaf {
      LeafIsFlat(m0, t, parent, h);
      var i := 0;
      while i < pool.slots[n].keyCnt + 1
        invariant 0 <= i <= |t.kids| && n in pool.slots && pool.slots[n] == node
        invariant Released(pool, m0, done) && Pending(KidsBag(t.kids[i..], subs), done)
        invariant n !in KidsBag(t.kids[i..], subs)
        invariant done + Elems(KidsBag(t.kids[i..], subs)) == gone + Elems(KidsBag(t.kids, subs))
      {
        ghost var bag := TreeBag(t.kids[i], subs);
        KidsBagAt(t.kids, i, subs);
        PendingParts(bag, KidsBag(t.kids[i + 1..], subs), done);
        KidHangs(m0, t, i, subs, level + 1, order);
        KidThere(m0, t, h, i, subs, done);
        DestroyTree(pool, pool.slots[n].children[i].value, t.kids[i], Some(n), h - 1, subs, level, order, m0, done);
        ElemsAre(bag);
        done := done + Elems(bag);
        i := i + 1;
      }
      NoKids(t.kids, subs);
    } else {
      LeafIsFlat(m0, t, parent, h);
      NoKids(t.kids, subs);
    }
  }

  lemma {:induction false} LeafIsFlat(m: Memory, t: BT, parent: Option<Index>, h: nat)
    requires Sub(m, t, parent, h)
    ensures t.id in m && (m[t.id].isLeaf <==> h == 0)
    ensures h == 0 ==> t.kids == []
  {
  }

  lemma {:induction false} NoKids(kids: seq<BT>, subs: map<Index, Layer>)
    ensures Elems(KidsBag(kids[|kids|..], subs)) == {}
    ensures kids == [] ==> Elems(KidsBag(kids, subs)) == {}
  {
  }

  lemma ElemsAre(bag: multiset<Index>)
    ensures forall x :: x in bag <==> x in Elems(bag)
  {
  }

  lemma KidThere(m: Memory, t: BT, h: nat, i: nat, subs: map<Index, Layer>, gone: set<Index>)
    requires i < |t.kids| && h > 0 && Sub(m, t.kids[i], Some(t.id), h - 1) && Pending(TreeBag(t.kids[i], subs), gone)
    ensures t.kids[i].id in m - gone
  {
    assert t.kids[i].id in TreeBag(t.kids[i], subs);
  }

  // Releases a node of a plain level with everything below it.
  method DestroyTree(pool: NodePool, n: Index, ghost t: BT, ghost parent: Option<Index>, ghost h: nat,
                     ghost subs: map<Index, Layer>, ghost level: nat, ghost order: Order, ghost m0: Memory,
                         ghost gone: set<Index>)
    requires Released(pool, m0, gone) && n in pool.slots && n == t.id && level < D
    requires Sub(m0, t, parent, h) && Hanging(m0, Flat(t), subs, level + 1, order)
    requires Pending(TreeBag(t, subs), gone)
    modifies pool
    ensures Released(pool, m0, gone + Elems(TreeBag(t, subs)))
    decreases D - level, 0, h, 1
  {
    hide Sub, Flat, Hanging, KidsBag, HangBag, Elems, NoneTwice, Pending, TreeBag;
    NodeShape(m0, t, parent, h);
    KidsHold(m0, t, parent, h);
    ghost var kids, hang := KidsBag(t.kids, subs), HangBag(t.items, subs);
    TreePieces(t, subs, gone);
    DestroyChildren(pool, n, t, parent, h, subs, level, order, m0, gone);
    ElemsAre(kids);
    OwnAllHang(m0, t, parent, h, subs, level + 1, order);
    DestroyBelow(pool, n, t.items, subs, level + 1, order, m0, gone + Elems(kids));
    ElemsAre(hang);
    pool.Release(n);
    assert m0 - (gone + Elems(kids) + Elems(hang)) - {n} == m0 - (gone + Elems(TreeBag(t, subs)));
  }

  lemma {:induction false} TreePieces(t: BT, subs: map<Index, Layer>, gone: set<Index>)
    requires Pending(TreeBag(t, subs), gone)
    ensures var kids, hang := KidsBag(t.kids, subs), HangBag(t.items, subs);
            && Pending(kids, gone) && Pending(hang, gone + Elems(kids))
            && t.id !in kids && t.id !in hang && t.id !in gone
            && Elems(TreeBag(t, subs)) == {t.id} + Elems(hang) + Elems(kids)
  {
    hide KidsBag, HangBag;
    var kids, hang := KidsBag(t.kids, subs), HangBag(t.items, subs);
    ElemsSum(multiset{t.id}, hang);
    ElemsSum(multiset{t.id} + hang, kids);
    assert t.id in multiset{t.id};
    assert Elems(multiset{t.id}) == {t.id};
  }

  lemma {:induction false} OwnAllHang(m: Memory, t: BT, parent: Option<Index>, h: nat, subs: map<Index, Layer>,
                                      level: nat, order: Order)
    requires Sub(m, t, parent, h) && Hanging(m, Flat(t), subs, level, order)
    ensures forall i :: 0 <= i < |t.items| ==> Hangs(m, t.items[i], subs, level, order)
  {
    hide Hangs, Flat;
    forall i | 0 <= i < |t.items|
      ensures Hangs(m, t.items[i], subs, level, order)
    {
      OwnHangs(m, t, i, subs, level, order);
    }
  }

  /** Releases all nodes of a layer and of the layers below it, each of them once. */
  method DestroyLayer(pool: NodePool, n: Option<Index>, ghost l: Option<Layer>, ghost level: nat, ghost order: Order,
                      ghost m0: Memory, ghost gone: set<Index>)
    requires RepOf(m0, l, level, order) && RootOf(l) == n && level <= D
    requires Released(pool, m0, gone) && IdsOf(l) !! gone
    modifies pool
    ensures Released(pool, m0, gone + IdsOf(l))
    decreases D - level, 1, 0, 0
  {
    hide Rep, AllIds, HangBag, TreeBag, Elems, Pending;
    if n.Some? {
      RootNode(m0, l.value, level, order);
      RootInside(l.value);
      ReachedOnce(m0, l.value, level, order);
      PendingSet(AllIds(l.value), gone);
      LayerHangs(m0, l.value, level, order);
      if pool.slots[n.value].isCompressed {
        DestroyPacked(pool, n.value, l.value, level, order, m0, gone);
      } else {
        DestroyTree(pool, n.value, l.value.bt, None, l.value.h, l.value.subs, level, order, m0, gone);
      }
    }
  }

  method DestroyPacked(pool: NodePool, n: Index, ghost l: Layer, ghost level: nat, ghost order: Order, ghost m0: Memory,
                       ghost gone: set<Index>)
    requires l.Packed? && Rep(m0, l, level, order) && l.id == n
    requires Released(pool, m0, gone) && AllIds(l) !! gone
    modifies pool
    ensures Released(pool, m0, gone + AllIds(l))
    decreases D - level, 0, 0, 0
  {
    hide Rep, AllIds, HangBag, Elems, Pending;
    RootNode(m0, l, level, order);
    RootInside(l);
    ReachedOnce(m0, l, level, order);
    PendingSet(AllIds(l), gone);
    PackedPieces(l, gone);
    LayerHangs(m0, l, level, order);
    DestroyBelow(pool, n, l.items, l.subs, level + Span(l), order, m0, gone);
    ElemsAre(HangBag(l.items, l.subs));
    pool.Release(n);
    assert m0 - (gone + Elems(HangBag(l.items, l.subs))) - {n} == m0 - (gone + AllIds(l));
  }

  lemma {:induction false} PackedPieces(l: Layer, gone: set<Index>)
    requires l.Packed? && multiset{l.id} + HangBag(l.items, l.subs) == multiset(AllIds(l)) && AllIds(l) !! gone
    ensures Pending(HangBag(l.items, l.subs), gone) && l.id !in HangBag(l.items, l.subs)
    ensures AllIds(l) == {l.id} + Elems(HangBag(l.items, l.subs))
  {
    hide HangBag, AllIds;
    var hang := HangBag(l.items, l.subs);
    ElemsOfSet(AllIds(l));
    ElemsSum(multiset{l.id}, hang);
    assert l.id in multiset{l.id};
    assert Elems(multiset{l.id}) == {l.id};
  }

  /** Destroying a tree gives exactly its nodes back. */
  method Destroy(pool: NodePool, root: Option<Index>, ghost l: Option<Layer>, ghost order: Order)
    requires RepOf(pool.slots, l, 0, order) && RootOf(l) == root
    modifies pool
    ensures pool.slots == old(pool.slots) - IdsOf(l)
  {
    DestroyLayer(pool, root, l, 0, order, pool.slots, {});
    assert {} + IdsOf(l) == IdsOf(l);
  }
}
