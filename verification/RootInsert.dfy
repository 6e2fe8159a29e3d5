/** Inserting into the root of one level (BTreeInsert::insert_to_root). */
module RootInsert {
  import opened Ranges
  import opened Items
  import opened Nodes
  import opened BTrees
  import opened BTreeInsert
  import opened Tries
  import opened Layers
  import opened LayerSteps
  import opened RuleSpecs

  // An empty inner node above the old root.
  ghost function Above(s: Index, t: BT): BT {
    BT(s, [], [t])
  }

  lemma {:induction false} AboveFlat(s: Index, t: BT)
    ensures Flat(Above(s, t)) == Flat(t)
  {
    assert Parts([t]) == [Flat(t)];
  }

  lemma AboveSub(m0: Memory, m1: Memory, s: Index, t: BT, h: nat)
    requires Sub(m0, t, None, h) && |t.items| >= MIN_DEGREE && s !in m0
    requires m1.Keys == m0.Keys + {s}
    requires Holds(m1[s], Above(s, t), None)
    requires m1[t.id] == WithParent(m0[t.id], Some(s))
    requires forall x :: x in m0 && x != t.id ==> m1[x] == m0[x]
    ensures Sub(m1, Above(s, t), None, h + 1)
    ensures Framed(m0, m1, Ids(t), Ids(Above(s, t)))
  {
    SubIds(m0, t, None, h);
    OneKid(t);
    Reparent(m0, m1, t, None, Some(s), h);
  }

  // Makes the old root the only child of a new, empty root.
  method AddRoot(pool: NodePool, root: Index, ghost t: BT, ghost h: nat) returns (s: Index)
    requires Sub(pool.slots, t, None, h) && root == t.id && |t.items| >= MIN_DEGREE
    modifies pool
    ensures Sub(pool.slots, Above(s, t), None, h + 1)
    ensures Framed(old(pool.slots), pool.slots, Ids(t), Ids(Above(s, t)))
  {
    ghost var m0 := pool.slots;
    s := pool.Get();
    pool.SetLeaf(s, false);
    pool.SetChild(s, 0, root);
    AboveSub(m0, pool.slots, s, t, h);
  }

  // The full root is split below a new root, and the key goes into one of the halves.
  method InsertToFullTree(pool: NodePool, root: Index, c: InsertCookie, ghost t: BT, ghost h: nat)
    returns (s: Index, ghost t': BT, ghost x: KeyInfo, ghost below: Option<Layer>)
    requires Sub(pool.slots, t, None, h) && root == t.id && |t.items| == MAX_DEGREE
    requires c.Valid() && c.level < c.requiresLevels <= D
    requires Ascending(Flat(t)) && NewLow(Flat(t), c.ActualKey().low)
    modifies pool
    ensures s == t'.id && |t'.items| >= 1
    ensures Grown(old(pool.slots), pool.slots, t, t', None, h + 1, x, below, c)
  {
    ghost var m0 := pool.slots;
    s := AddRoot(pool, root, t, h);
    AboveFlat(s, t);
    ghost var m1 := pool.slots;
    // the only child is full, so this splits it
    t', x, below := InsertIntoChild(pool, s, 0, c, Above(s, t), None, h + 1);
    GrownFromAbove(m0, m1, pool.slots, s, t, t', h, x, below, c);
  }

  lemma {:induction false} GrownFromAbove(m0: Memory, m1: Memory, m2: Memory, s: Index, t: BT, t': BT, h: nat,
                       x: KeyInfo, below: Option<Layer>, c: InsertCookie)
    requires c.Valid() && c.level < c.requiresLevels <= D
    requires Framed(m0, m1, Ids(t), Ids(Above(s, t)))
    requires Grown(m1, m2, Above(s, t), t', None, h + 1, x, below, c)
    ensures Grown(m0, m2, t, t', None, h + 1, x, below, c)
  {
    AboveFlat(s, t);
    FramedTrans(m0, m1, m2, Ids(t), Ids(Above(s, t)), Ids(t') + IdsOf(below));
  }

  lemma {:induction false} RootHolds(m: Memory, t: BT, h: nat)
    requires Sub(m, t, None, h)
    ensures t.id in m && m[t.id].keyCnt == |t.items|
  {
  }

  /** Adds the key to a B-tree, which grows in height when its root is full. */
  method InsertToTree(pool: NodePool, root: Index, c: InsertCookie, ghost t: BT, ghost h: nat)
    returns (root': Index, ghost t': BT, ghost h': nat, ghost x: KeyInfo, ghost below: Option<Layer>)
    requires Sub(pool.slots, t, None, h) && root == t.id && |t.items| >= 1
    requires c.Valid() && c.level < c.requiresLevels <= D
    requires Ascending(Flat(t)) && NewLow(Flat(t), c.ActualKey().low)
    modifies pool
    ensures root' == t'.id && |t'.items| >= 1
    ensures |t.items| < MAX_DEGREE ==> root' == root
    ensures Grown(old(pool.slots), pool.slots, t, t', None, h', x, below, c)
  {
    hide Sub, Flat, Ids, Grown;
    RootHolds(pool.slots, t, h);
    if pool.slots[root].keyCnt == MAX_DEGREE {
      root', t', x, below := InsertToFullTree(pool, root, c, t, h);
      h' := h + 1;
    } else {
      t', x, below := InsertNonFull(pool, root, c, t, None, h);
      h' := h;
      root' := root;
    }
  }

  // ---------- as a step of a layer ----------

  lemma {:induction false} NewSubIsFresh(m0: Memory, m1: Memory, l: Layer, level: nat, order: Order, b: set<Index>,
                                         below: Option<Layer>)
    requires Rep(m0, l, level, order) && Framed(m0, m1, OwnIds(l), b + IdsOf(below)) && below.Some?
    ensures Root(below.value) !in l.subs
  {
    RootInside(below.value);
    if Root(below.value) in l.subs {
      var j := Root(below.value);
      RepIds(m0, l, level, order);
      RootInside(l.subs[j]);
      SubInside(l, j);
      assert false;
    }
  }

  // The layer after its tree has grown by one key.
  ghost function GrownLayer(l: Layer, t': BT, h': nat, below: Option<Layer>): Layer {
    Plain(t', h', WithSub(l.subs, below))
  }

  lemma {:induction false} GrownOwn(m: Memory, l: Layer, t': BT, h': nat, x: KeyInfo, below: Option<Layer>, level: nat,
                                    order: Order)
    requires l.Plain? && Separated(Flat(l.bt)) && Linked(Flat(l.bt), l.subs) && level < D
    requires below.Some? ==> Root(below.value) !in l.subs
    requires x.key.Valid() && DisjointFromAll(x.key, Flat(l.bt)) && x.next == RootOf(below)
    requires Flat(t') == Put(Flat(l.bt), x) && Sub(m, t', None, h') && |t'.items| >= 1
    ensures OwnRep(m, GrownLayer(l, t', h', below), level, order)
    ensures Linked(Flat(t'), WithSub(l.subs, below))
  {
    PutSeparated(Flat(l.bt), x);
    LinkedPut(Flat(l.bt), l.subs, x, below);
  }

  lemma {:induction false} GrownSwapped(m0: Memory, m1: Memory, l: Layer, t': BT, h': nat, below: Option<Layer>,
                                        level: nat, order: Order)
    requires l.Plain? && OwnRep(m1, GrownLayer(l, t', h', below), level, order)
    requires Linked(Flat(t'), WithSub(l.subs, below))
    requires Framed(m0, m1, Ids(l.bt), Ids(t') + IdsOf(below)) && Ids(t') !! IdsOf(below)
    requires RepOf(m1, below, level + 1, order)
    ensures Swapped(m0, m1, l, GrownLayer(l, t', h', below), level, order, None, below)
  {
    AddedSwapped(m0, m1, l, GrownLayer(l, t', h', below), level, level + 1, order, below);
  }

  lemma {:induction false} GrownStep(m0: Memory, m1: Memory, l: Layer, t': BT, h': nat, x: KeyInfo,
                                     below: Option<Layer>, level: nat, order: Order)
    requires l.Plain? && Separated(Flat(l.bt)) && Linked(Flat(l.bt), l.subs) && level < D
    requires below.Some? ==> Root(below.value) !in l.subs
    requires x.key.Valid() && DisjointFromAll(x.key, Flat(l.bt)) && x.next == RootOf(below)
    requires Flat(t') == Put(Flat(l.bt), x) && Sub(m1, t', None, h') && |t'.items| >= 1
    requires Framed(m0, m1, Ids(l.bt), Ids(t') + IdsOf(below)) && Ids(t') !! IdsOf(below)
    requires RepOf(m1, below, level + 1, order)
    ensures Swapped(m0, m1, l, GrownLayer(l, t', h', below), level, order, None, below)
  {
    GrownOwn(m1, l, t', h', x, below, level, order);
    GrownSwapped(m0, m1, l, t', h', below, level, order);
  }

  lemma {:induction false} GrownMeaning(m0: Memory, m1: Memory, l: Layer, t': BT, h': nat, x: KeyInfo,
                                        below: Option<Layer>, c: InsertCookie)
    requires c.Valid() && c.level < c.requiresLevels <= D
    requires l.Plain? && Rep(m0, l, c.level, c.order) && DisjointFromAll(c.ActualKey(), Flat(l.bt))
    requires Grown(m0, m1, l.bt, t', None, h', x, below, c)
    ensures c.Rest() != []
    ensures Meaning(GrownLayer(l, t', h', below)) == Insert(Meaning(l), c.Rest(), c.rule.value)
  {
    if below.Some? {
      NewSubIsFresh(m0, m1, l, c.level, c.order, Ids(t'), below);
    }
    var items := Flat(l.bt);
    MeaningPlain(l.bt, l.h, l.subs);
    MeaningPlain(t', h', WithSub(l.subs, below));
    EntriesPut(items, l.subs, x, below);
    NewKeyIsChain(m1, x, below, c);
    assert c.Rest()[0] == c.ActualKey();
    NotStored(items, l.subs, c.ActualKey());
  }

  lemma {:induction false} NotStored(items: seq<KeyInfo>, subs: map<Index, Layer>, k: Range)
    requires k.Valid() && DisjointFromAll(k, items)
    ensures Find(Entries(items, subs), k) == |items|
  {
    var es := Entries(items, subs);
    forall i | 0 <= i < |es|
      ensures es[i].key != k
    {
      assert k.DisjointFrom(items[i].key);
    }
  }

  // The outcome of an insertion into a layer, as the layers above see it.
  ghost predicate LayerInserted(m0: Memory, m1: Memory, l: Layer, l': Layer, level: nat, order: Order, path: Path,
                                v: Value)
    requires path != []
  {
    && Rep(m1, l', level, order)
    && Framed(m0, m1, AllIds(l), AllIds(l'))
    && Meaning(l') == Insert(Meaning(l), path, v)
  }

  lemma {:induction false} PlainParts(m: Memory, l: Layer, level: nat, order: Order)
    requires l.Plain? && Rep(m, l, level, order)
    ensures Separated(Flat(l.bt)) && Linked(Flat(l.bt), l.subs) && level < D
  {
  }

  lemma NewKeyParts(m: Memory, x: KeyInfo, below: Option<Layer>, c: InsertCookie)
    requires c.Valid() && c.level < c.requiresLevels <= D && NewKey(m, x, below, c)
    ensures x.key == c.ActualKey() && x.key.Valid() && x.next == RootOf(below)
    ensures RepOf(m, below, c.level + 1, c.order)
  {
  }

  lemma {:induction false} GrownInserted(m0: Memory, m1: Memory, l: Layer, t': BT, h': nat, x: KeyInfo,
                                         below: Option<Layer>, c: InsertCookie)
    requires c.Valid() && c.level < c.requiresLevels <= D
    requires l.Plain? && Rep(m0, l, c.level, c.order) && DisjointFromAll(c.ActualKey(), Flat(l.bt))
    requires Grown(m0, m1, l.bt, t', None, h', x, below, c) && |t'.items| >= 1
    ensures LayerInserted(m0, m1, l, GrownLayer(l, t', h', below), c.level, c.order, c.Rest(), c.rule.value)
  {
    hide Rep, AllIds, Meaning, Flat, Sub;
    var l' := GrownLayer(l, t', h', below);
    PlainParts(m0, l, c.level, c.order);
    NewKeyParts(m1, x, below, c);
    if below.Some? {
      NewSubIsFresh(m0, m1, l, c.level, c.order, Ids(t'), below);
    }
    GrownStep(m0, m1, l, t', h', x, below, c.level, c.order);
    Swap(m0, m1, l, l', c.level, c.order, None, below);
    SwapFrame(m0, m1, l, l', c.level, c.order, None, below);
    GrownMeaning(m0, m1, l, t', h', x, below, c);
  }

  /** Inserts the rest of a rule into a plain layer that stores no key of it. */
  method InsertToPlainRoot(pool: NodePool, root: Index, c: InsertCookie, ghost l: Layer)
    returns (root': Index, ghost l': Layer)
    requires c.Valid() && c.level < c.requiresLevels <= D
    requires l.Plain? && Root(l) == root && Rep(pool.slots, l, c.level, c.order)
    requires DisjointFromAll(c.ActualKey(), Flat(l.bt))
    modifies pool
    ensures Root(l') == root'
    ensures |l.bt.items| < MAX_DEGREE ==> root' == root
    ensures LayerInserted(old(pool.slots), pool.slots, l, l', c.level, c.order, c.Rest(), c.rule.value)
  {
    ghost var m0 := pool.slots;
    SeparatedAscending(Flat(l.bt));
    DisjointNewLow(Flat(l.bt), c.ActualKey());
    ghost var t', h', x, below;
    root', t', h', x, below := InsertToTree(pool, root, c, l.bt, l.h);
    l' := GrownLayer(l, t', h', below);
    GrownInserted(m0, pool.slots, l, t', h', x, below, c);
  }

  lemma DisjointNewLow(s: seq<KeyInfo>, k: Range)
    requires Separated(s) && k.Valid() && DisjointFromAll(k, s)
    ensures NewLow(s, k.low)
  {
    forall p | 0 <= p < |s|
      ensures s[p].key.low != k.low
    {
      assert k.DisjointFrom(s[p].key) && s[p].key.Valid();
    }
  }
}
