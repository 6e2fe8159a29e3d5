/** What changing one key of a layer does to its links and to its meaning. */
module LayerSteps {
  import opened Items
  import opened Nodes
  import opened BTrees
  import opened Tries
  import opened Layers

  lemma LinkedIn(items: seq<KeyInfo>, subs: map<Index, Layer>, p: nat)
    requires Linked(items, subs) && p < |items| && items[p].next.Some?
    ensures items[p].next.value in subs
  {
    NextsAt(items, p);
  }

  lemma {:induction false} NextsMember(items: seq<KeyInfo>, q: nat)
    requires q < |items| && items[q].next.Some?
    ensures items[q].next.value in Nexts(items)
  {
    NextsAt(items, q);
  }

  // Two keys never share a next layer.
  lemma LinkedOnce(items: seq<KeyInfo>, subs: map<Index, Layer>, p: nat, q: nat)
    requires Linked(items, subs) && p < |items| && q < |items| && p != q && items[p].next.Some?
    ensures items[q].next != items[p].next
  {
    assert multiset(subs.Keys)[items[p].next.value] <= 1;
    if items[q].next == items[p].next {
      HeldTwice(items, p, q);
    }
  }

  lemma {:induction false} HeldTwice(items: seq<KeyInfo>, p: nat, q: nat)
    requires p < |items| && q < |items| && p != q && items[p].next.Some? && items[q].next == items[p].next
    ensures Nexts(items)[items[p].next.value] >= 2
  {
    hide Nexts;
    NextsAt(items, p);
    if q < p {
      assert items[..p][q] == items[q];
      NextsMember(items[..p], q);
    } else {
      assert items[p + 1..][q - p - 1] == items[q];
      NextsMember(items[p + 1..], q - p - 1);
    }
  }

  lemma KeysAdd(subs: map<Index, Layer>, come: Layer)
    requires Root(come) !in subs
    ensures multiset(WithSub(subs, Some(come)).Keys) == multiset(subs.Keys) + multiset{Root(come)}
  {
    assert WithSub(subs, Some(come)).Keys == subs.Keys + {Root(come)};
  }

  lemma KeysDrop(subs: map<Index, Layer>, g: Index)
    requires g in subs
    ensures multiset((subs - {g}).Keys) == multiset(subs.Keys) - multiset{g}
  {
    assert (subs - {g}).Keys == subs.Keys - {g};
  }

  lemma SumSwap<A>(a: multiset<A>, n: multiset<A>, b: multiset<A>)
    ensures a + n + b == a + b + n
  {
  }

  lemma {:induction false} NextsPut(items: seq<KeyInfo>, x: KeyInfo)
    ensures Nexts(Put(items, x)) == Nexts(items) + NextOf(x)
  {
    var p := Place(items, x.key.low);
    assert items == items[..p] + items[p..];
    NextsConcat(items[..p], items[p..]);
    NextsConcat(items[..p] + [x], items[p..]);
    NextsConcat(items[..p], [x]);
    SumSwap(Nexts(items[..p]), NextOf(x), Nexts(items[p..]));
  }

  lemma LinkedPut(items: seq<KeyInfo>, subs: map<Index, Layer>, x: KeyInfo, come: Option<Layer>)
    requires Linked(items, subs) && x.next == RootOf(come)
    requires come.Some? ==> Root(come.value) !in subs
    ensures Linked(Put(items, x), WithSub(subs, come))
  {
    NextsPut(items, x);
    if come.Some? {
      KeysAdd(subs, come.value);
    }
  }

  lemma NextsSet(items: seq<KeyInfo>, p: nat, x: KeyInfo)
    requires p < |items|
    ensures Nexts(items[p := x]) == Nexts(items) - NextOf(items[p]) + NextOf(x)
  {
    NextsAt(items, p);
    NextsAt(items[p := x], p);
    assert items[p := x][..p] == items[..p] && items[p := x][p + 1..] == items[p + 1..];
  }

  lemma LinkedSet(l: Layer, p: nat, x: KeyInfo, come: Option<Layer>)
    requires Linked(Own(l), l.subs) && p < |Own(l)| && x.next == RootOf(come)
    requires come.Some? ==> Root(come.value) !in Kept(l, Own(l)[p].next)
    ensures Linked(Own(l)[p := x], WithSub(Kept(l, Own(l)[p].next), come))
  {
    var items := Own(l);
    var kept := Kept(l, items[p].next);
    NextsSet(items, p, x);
    assert Nexts(items) - NextOf(items[p]) == multiset(kept.Keys) by {
      if items[p].next.Some? {
        LinkedIn(items, l.subs, p);
        KeysDrop(l.subs, items[p].next.value);
      }
    }
    if come.Some? {
      KeysAdd(kept, come.value);
    }
  }

  // ---------- meaning of a plain layer ----------

  lemma EntriesSet(l: Layer, p: nat, x: KeyInfo, come: Option<Layer>)
    requires Linked(Own(l), l.subs) && p < |Own(l)| && x.next == RootOf(come)
    requires come.Some? ==> Root(come.value) !in Kept(l, Own(l)[p].next)
    ensures Entries(Own(l)[p := x], WithSub(Kept(l, Own(l)[p].next), come)) ==
            Entries(Own(l), l.subs)[p := Item(x.key, x.value, MeaningOf(come))]
  {
    var items := Own(l);
    var subs' := WithSub(Kept(l, items[p].next), come);
    forall q | 0 <= q < |items| && q != p
      ensures AsEntry(items[q], subs') == AsEntry(items[q], l.subs)
    {
      if items[q].next.Some? {
        LinkedIn(items, l.subs, q);
        LinkedOnce(items, l.subs, q, p);
      }
    }
  }

  lemma EntriesPut(items: seq<KeyInfo>, subs: map<Index, Layer>, x: KeyInfo, come: Option<Layer>)
    requires Linked(items, subs) && x.next == RootOf(come)
    requires come.Some? ==> Root(come.value) !in subs
    ensures Entries(Put(items, x), WithSub(subs, come)) ==
            Put(Entries(items, subs), Item(x.key, x.value, MeaningOf(come)))
  {
    hide AsEntry, Linked, WithSub;
    var subs' := WithSub(subs, come);
    var p := Place(items, x.key.low);
    var es := Entries(items, subs);
    EntryKeys(items, subs);
    PlaceIs(es, x.key.low, p);
    OldEntries(items, subs, come);
    NewEntry(subs, x, come);
    assert Entries(Put(items, x), subs') == es[..p] + [Item(x.key, x.value, MeaningOf(come))] + es[p..];
  }

  lemma EntryKeys(items: seq<KeyInfo>, subs: map<Index, Layer>)
    ensures forall q :: 0 <= q < |items| ==> Entries(items, subs)[q].key == items[q].key
  {
  }

  // A layer that comes is not below any key so far.
  lemma OldEntries(items: seq<KeyInfo>, subs: map<Index, Layer>, come: Option<Layer>)
    requires Linked(items, subs) && (come.Some? ==> Root(come.value) !in subs)
    ensures forall q :: 0 <= q < |items| ==> AsEntry(items[q], WithSub(subs, come)) == AsEntry(items[q], subs)
  {
    hide Linked;
    forall q | 0 <= q < |items|
      ensures AsEntry(items[q], WithSub(subs, come)) == AsEntry(items[q], subs)
    {
      if items[q].next.Some? {
        LinkedIn(items, subs, q);
      }
    }
  }

  lemma NewEntry(subs: map<Index, Layer>, x: KeyInfo, come: Option<Layer>)
    requires x.next == RootOf(come)
    ensures AsEntry(x, WithSub(subs, come)) == Item(x.key, x.value, MeaningOf(come))
  {
  }

  // ---------- meaning of a compressed layer ----------

  lemma {:induction false} PackedMeaningSet(items: seq<KeyInfo>, below: Trie, path: Path, v: Value, p: nat)
    requires p < |items| && |path| == p + 1
    requires forall i :: 0 <= i <= p ==> path[i] == items[i].key
    ensures PackedMeaning(items[p := Item(items[p].key, v, items[p].next)], below) ==
            Insert(PackedMeaning(items, below), path, v)
  {
    var items' := items[p := Item(items[p].key, v, items[p].next)];
    assert Find(PackedMeaning(items, below).entries, path[0]) == 0;
    if p > 0 {
      assert items'[1..] == items[1..][p - 1 := Item(items[p].key, v, items[p].next)];
      PackedMeaningSet(items[1..], below, path[1..], v, p - 1);
    }
  }

  // A path that runs through all the keys goes on in what lies below.
  lemma {:induction false} PackedMeaningThrough(items: seq<KeyInfo>, below: Trie, path: Path, v: Value)
    requires |path| > |items|
    requires forall i :: 0 <= i < |items| ==> path[i] == items[i].key
    ensures PackedMeaning(items, Insert(below, path[|items|..], v)) == Insert(PackedMeaning(items, below), path, v)
  {
    if items == [] {
      assert path[0..] == path;
    } else {
      assert path[1..][|items| - 1..] == path[|items|..];
      PackedMeaningThrough(items[1..], below, path[1..], v);
    }
  }

  // ---------- layers with at most one layer below ----------

  ghost function OnlySub(sub: Option<Layer>): map<Index, Layer> {
    WithSub(map[], sub)
  }

  lemma {:induction false} NextsLast(items: seq<KeyInfo>)
    requires items != [] && forall i :: 0 <= i < |items| - 1 ==> items[i].next == None
    ensures Nexts(items) == NextOf(items[|items| - 1])
  {
    hide Nexts;
    NextsFirst(items);
    if |items| > 1 {
      assert forall i :: 0 <= i < |items| - 2 ==> items[1..][i] == items[i + 1];
      assert items[0].next == None;
      NextsLast(items[1..]);
      NothingMore(Nexts(items[1..]));
    } else {
      assert items[1..] == [];
      NextsOfNone();
      NothingMore(NextOf(items[0]));
    }
  }

  lemma NothingMore<A>(m: multiset<A>)
    ensures multiset{} + m == m && m + multiset{} == m
  {
  }

  lemma LinkedLast(items: seq<KeyInfo>, sub: Option<Layer>)
    requires items != [] && forall i :: 0 <= i < |items| - 1 ==> items[i].next == None
    requires items[|items| - 1].next == RootOf(sub)
    ensures Linked(items, OnlySub(sub))
  {
    NextsLast(items);
    if sub.Some? {
      KeysAdd(map[], sub.value);
    }
  }

  lemma {:induction false} OnlySubIds(l: Layer, sub: Option<Layer>)
    requires l.subs == OnlySub(sub)
    ensures AllIds(l) == OwnIds(l) + IdsOf(sub)
  {
    CameIds(l, map[], sub);
  }

  lemma {:induction false} RepOnlySub(m: Memory, l: Layer, sub: Option<Layer>, level: nat, order: Order)
    requires l.subs == OnlySub(sub) && OwnRep(m, l, level, order) && Linked(Own(l), l.subs)
    requires OwnIds(l) !! IdsOf(sub) && RepOf(m, sub, level + Span(l), order)
    ensures Rep(m, l, level, order) && AllIds(l) == OwnIds(l) + IdsOf(sub)
  {
    OnlySubIds(l, sub);
    RepIntro(m, l, level, order);
  }

  // A node with a single key, on its own level.
  ghost function Single(root: Index, x: KeyInfo, sub: Option<Layer>): Layer {
    Plain(BT(root, [x], []), 0, OnlySub(sub))
  }

  lemma {:induction false} SingleRep(m: Memory, root: Index, x: KeyInfo, sub: Option<Layer>, level: nat, order: Order)
    requires root in m && Holds(m[root], BT(root, [x], []), None) && x.key.Valid() && x.next == RootOf(sub)
    requires level < D && root !in IdsOf(sub) && RepOf(m, sub, level + 1, order)
    ensures Rep(m, Single(root, x, sub), level, order)
    ensures AllIds(Single(root, x, sub)) == {root} + IdsOf(sub)
  {
    hide Rep, AllIds;
    var bt := BT(root, [x], []);
    var l := Single(root, x, sub);
    LeafSub(m, bt, None);
    assert OwnRep(m, l, level, order);
    assert Linked(Own(l), l.subs) by {
      LinkedLast([x], sub);
    }
    RepOnlySub(m, l, sub, level, order);
  }

  lemma SingleMeaning(root: Index, x: KeyInfo, sub: Option<Layer>)
    requires x.next == RootOf(sub)
    ensures Meaning(Single(root, x, sub)) == Trie([Item(x.key, x.value, MeaningOf(sub))])
  {
    var bt := BT(root, [x], []);
    MeaningPlain(bt, 0, OnlySub(sub));
    assert Entries([x], OnlySub(sub)) == [Item(x.key, x.value, MeaningOf(sub))];
  }

  lemma {:induction false} PackedRep(m: Memory, root: Index, items: seq<KeyInfo>, sub: Option<Layer>, level: nat,
                                     order: Order)
    requires root in m && HoldsPacked(m[root], items, level, order)
    requires items[|items| - 1].next == RootOf(sub)
    requires root !in IdsOf(sub) && RepOf(m, sub, level + |items|, order)
    ensures Rep(m, Packed(root, items, OnlySub(sub)), level, order)
    ensures AllIds(Packed(root, items, OnlySub(sub))) == {root} + IdsOf(sub)
  {
    hide Rep, AllIds;
    var l := Packed(root, items, OnlySub(sub));
    assert OwnRep(m, l, level, order);
    assert Linked(Own(l), l.subs) by {
      LinkedLast(items, sub);
    }
    RepOnlySub(m, l, sub, level, order);
  }

  lemma {:induction false} PackedOnlyMeaning(root: Index, items: seq<KeyInfo>, sub: Option<Layer>)
    requires items != [] && items[|items| - 1].next == RootOf(sub)
    ensures Meaning(Packed(root, items, OnlySub(sub))) == PackedMeaning(items, MeaningOf(sub))
  {
    MeaningPacked(root, items, OnlySub(sub));
  }
}
