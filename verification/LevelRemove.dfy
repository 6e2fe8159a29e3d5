/** Removing a key from one level of a layered tree: what else stays as it was. */
module LevelRemove {
  import opened Ranges
  import opened Items
  import opened Nodes
  import opened BTrees
  import opened Tries
  import opened Layers
  import opened LayerUpdates
  import opened LayerSearch
  import opened BTreeRemove

  // ---------- sorted items without one key ----------

  lemma {:induction false} FindWithout<N>(a: seq<Item<N>>, x: Item<N>, b: seq<Item<N>>, q: Range)
    requires q != x.key
    ensures Has(a + b, q) <==> Has(a + ([x] + b), q)
    ensures Has(a + b, q) ==> (a + b)[Find(a + b, q)] == (a + ([x] + b))[Find(a + ([x] + b), q)]
  {
    FindConcat(a, b, q);
    FindConcat(a, [x] + b, q);
    FindConcat([x], b, q);
    assert Find([x], q) == 1;
  }

  lemma NotElsewhere<N>(s: seq<Item<N>>, p: nat)
    requires Ascending(s) && p < |s|
    ensures !Has(s[..p] + s[p + 1..], s[p].key)
  {
    var d := s[..p] + s[p + 1..];
    forall i | 0 <= i < |d|
      ensures d[i].key != s[p].key
    {
      assert d[i] == if i < p then s[i] else s[i + 1];
    }
  }

  lemma {:induction false} FindAfterDel<N>(s: seq<Item<N>>, k: Range, q: Range)
    requires Ascending(s)
    ensures q == k ==> !Has(Del(s, k), q)
    ensures q != k ==> (Has(Del(s, k), q) <==> Has(s, q))
    ensures q != k && Has(s, q) ==> Del(s, k)[Find(Del(s, k), q)] == s[Find(s, q)]
  {
    hide Find, Ascending;
    var p := Find(s, k);
    if p < |s| {
      NotElsewhere(s, p);
      assert s == s[..p] + ([s[p]] + s[p + 1..]);
      if q != k {
        FindWithout(s[..p], s[p], s[p + 1..], q);
      }
    }
  }

  // Removal takes one key with all that is stored behind it, and nothing else.
  lemma {:induction false} DelGet(t: Trie, k: Range, q: Path)
    requires Separated(t.entries) && q != []
    ensures Get(Trie(Del(t.entries, k)), q) == if q[0] == k then NO_VALUE else Get(t, q)
  {
    SeparatedAscending(t.entries);
    FindAfterDel(t.entries, k, q[0]);
  }

  lemma DelEntries(items: seq<KeyInfo>, subs: map<Index, Layer>, k: Range)
    requires Separated(items)
    ensures Entries(Del(items, k), subs) == Del(Entries(items, subs), k)
  {
    var p := Find(items, k);
    var es := Entries(items, subs);
    assert forall i :: 0 <= i < |es| ==> es[i].key == items[i].key;
    if p < |items| {
      EntryFound(items, subs, p);
    } else {
      assert Find(es, k) == |es|;
    }
  }

  lemma NothingAdded<A>(x: multiset<A>, y: multiset<A>)
    ensures x + multiset{} + y == x + y
  {
  }

  lemma {:induction false} NextsDel(items: seq<KeyInfo>, k: Range)
    requires Has(items, k) ==> items[Find(items, k)].next == None
    ensures Nexts(Del(items, k)) == Nexts(items)
  {
    hide Nexts;
    var p := Find(items, k);
    if p < |items| {
      NextsAt(items, p);
      NextsConcat(items[..p], items[p + 1..]);
      NothingAdded(Nexts(items[..p]), Nexts(items[p + 1..]));
    }
  }

  // ---------- the layer ----------

  // The layer lost the key; everything below its other keys is as before.
  ghost predicate LevelRemoved(m0: Memory, m1: Memory, l: Layer, l': Option<Layer>, level: nat, order: Order,
                               k: Range) {
    && RepOf(m1, l', level, order)
    && Framed(m0, m1, AllIds(l), IdsOf(l'))
    && MeaningOf(l') == Trie(Del(Meaning(l).entries, k))
  }

  lemma {:induction false} LevelLost(m0: Memory, m1: Memory, l: Layer, t': BT, h': nat, level: nat, order: Order,
                                     k: Range)
    requires l.Plain? && Rep(m0, l, level, order)
    requires Has(Flat(l.bt), k) ==> Flat(l.bt)[Find(Flat(l.bt), k)].next == None
    requires t'.items != [] && Sub(m1, t', None, h') && Flat(t') == Del(Flat(l.bt), k)
    requires Framed(m0, m1, Ids(l.bt), Ids(t'))
    ensures LevelRemoved(m0, m1, l, Some(Plain(t', h', l.subs)), level, order, k)
  {
    hide Sub, Flat, Ids, Del, Has, AllIds, Meaning, Entries;
    var l' := Plain(t', h', l.subs);
    RootNode(m0, l, level, order);
    DelSeparated(Flat(l.bt), k);
    NextsDel(Flat(l.bt), k);
    LostSwapped(m0, m1, l, l', level, order);
    Swap(m0, m1, l, l', level, order, None, None);
    SwapFrame(m0, m1, l, l', level, order, None, None);
    MeaningPlain(l.bt, l.h, l.subs);
    MeaningPlain(t', h', l.subs);
    DelEntries(Flat(l.bt), l.subs, k);
  }

  lemma {:induction false} LostSwapped(m0: Memory, m1: Memory, l: Layer, l': Layer, level: nat, order: Order)
    requires l.Plain? && l'.Plain? && l'.subs == l.subs && Rep(m0, l, level, order)
    requires l'.bt.items != [] && Sub(m1, l'.bt, None, l'.h) && Separated(Flat(l'.bt))
    requires Nexts(Flat(l'.bt)) == Nexts(Flat(l.bt)) && Framed(m0, m1, Ids(l.bt), Ids(l'.bt))
    ensures Swapped(m0, m1, l, l', level, order, None, None)
  {
    hide Sub, Flat, Ids;
    assert OwnIds(l) + GoneIds(l, None) == OwnIds(l);
    assert OwnIds(l') + IdsOf(None) == OwnIds(l');
  }

  lemma {:induction false} LevelGone(m0: Memory, m1: Memory, l: Layer, level: nat, order: Order, k: Range)
    requires l.Plain? && Rep(m0, l, level, order)
    requires Has(Flat(l.bt), k) ==> Flat(l.bt)[Find(Flat(l.bt), k)].next == None
    requires Del(Flat(l.bt), k) == [] && Framed(m0, m1, Ids(l.bt), {})
    ensures LevelRemoved(m0, m1, l, None, level, order, k)
  {
    hide Sub, Flat, Ids, Del, Has, Meaning, Entries;
    RootNode(m0, l, level, order);
    NextsDel(Flat(l.bt), k);
    NothingLinked(l);
    MeaningPlain(l.bt, l.h, l.subs);
    DelEntries(Flat(l.bt), l.subs, k);
  }

  lemma {:induction false} NothingLinked(l: Layer)
    requires l.Plain? && Linked(Own(l), l.subs) && Nexts(Flat(l.bt)) == multiset{}
    ensures l.subs == map[] && AllIds(l) == Ids(l.bt)
  {
    forall j
      ensures j !in l.subs
    {
      assert j in l.subs ==> j in multiset(l.subs.Keys);
    }
  }

  /** Removes a key that has no next layer from a level. */
  method RemoveKey(pool: NodePool, k: Range, root: Index, ghost l: Layer, ghost level: nat, ghost order: Order)
    returns (found: bool, root': Option<Index>, ghost l': Option<Layer>)
    requires l.Plain? && Rep(pool.slots, l, level, order) && Root(l) == root
    requires Has(Flat(l.bt), k) ==> Flat(l.bt)[Find(Flat(l.bt), k)].next == None
    modifies pool
    ensures found == Has(Flat(l.bt), k)
    ensures found ==> RootOf(l') == root' && LevelRemoved(old(pool.slots), pool.slots, l, l', level, order, k)
  {
    hide Sub, Flat, Ids, Del, Has, AllIds, Meaning, Rep;
    ghost var m0 := pool.slots;
    RootNode(m0, l, level, order);
    SeparatedAscending(Flat(l.bt));
    RootHasKeys(m0, l, level, order);
    ghost var t', h';
    found, root', t', h' := Remove1D(pool, k, root, l.bt, l.h);
    if root'.None? {
      l' := None;
      LevelGone(m0, pool.slots, l, level, order, k);
    } else {
      l' := Some(Plain(t', h', l.subs));
      if found {
        LevelLost(m0, pool.slots, l, t', h', level, order, k);
      }
    }
  }

  lemma {:induction false} RootHasKeys(m: Memory, l: Layer, level: nat, order: Order)
    requires l.Plain? && Rep(m, l, level, order)
    ensures l.bt.items != []
  {
  }
}
