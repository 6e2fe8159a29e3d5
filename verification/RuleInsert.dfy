/** The methods that insert a rule into a layered tree (BTreeInsert::insert and what it calls). */
module RuleInsert {
  import opened Items
  import opened Nodes
  import opened BTrees
  import opened Tries
  import opened Layers
  import opened RuleSpecs
  import opened ChainBuilder
  import opened RootInsert
  import opened Decompress
  import opened LayerUpdates
  import opened LayerSearch
  import opened LayerPaths
  import opened LayerDescent
  import opened LayeredInsert

  // The insertion has a place for the rest of the rule in this layer.
  ghost predicate Inserting(m: Memory, l: Option<Layer>, c: InsertCookie) {
    c.Valid() && Accepts(m, l, c.level, c.order, c.Keys(), c.requiresLevels)
  }

  ghost predicate Done(m0: Memory, m1: Memory, l: Option<Layer>, l': Layer, c: InsertCookie)
    requires c.Valid() && c.level < c.requiresLevels <= D
  {
    InsertedOf(m0, m1, l, l', c.level, c.order,
               c.Keys()[c.level..EndOf(MeaningOf(l), c.Keys(), c.level, c.requiresLevels)], c.rule.value)
  }

  function AtLevel(c: InsertCookie, level: nat): InsertCookie {
    c.(level := level)
  }

  lemma CookieAt(c: InsertCookie, level: nat)
    requires c.Valid() && level < c.requiresLevels
    ensures c.requiresLevels <= D
    ensures AtLevel(c, level).Valid() && AtLevel(c, level).Keys() == c.Keys()
  {
    hide InOrder, Required, IsOrder, ValidRule;
  }

  // ---------- a level that stores no key of the rule ----------

  // Nothing agrees, so the rule ends where it needs to and its next key is disjoint from all.
  lemma {:induction false} NothingStored(m: Memory, l: Layer, level: nat, order: Order, full: Path, req: nat)
    requires Accepts(m, Some(l), level, order, full, req) && MatchLen(Meaning(l), full[level..]) == 0
    ensures EndOf(Meaning(l), full, level, req) == req
    ensures l.Plain? && full[level].Valid() ==> DisjointFromAll(full[level], Flat(l.bt))
  {
    hide Rep, Meaning;
    if l.Plain? && full[level].Valid() {
      MeaningPlain(l.bt, l.h, l.subs);
      var es := Entries(Flat(l.bt), l.subs);
      assert DisjointFromAll(full[level], es);
      forall i | 0 <= i < |Flat(l.bt)|
        ensures full[level].DisjointFrom(Flat(l.bt)[i].key)
      {
        assert es[i].key == Flat(l.bt)[i].key;
      }
    }
  }

  // The root of a layer that has room, or is compressed, stays the root.
  ghost predicate KeepsRoot(l: Option<Layer>) {
    l.Some? && (l.value.Packed? || |l.value.bt.items| < MAX_DEGREE)
  }

  // ---------- taking a compressed node apart ----------

  // The keys that agree stay in the first node, the first other key is on its own.
  lemma {:induction false} SplitAgrees(l: Layer, keep: nat, ks: Path, nl: Index, nnl: Index)
    requires l.Packed? && 0 < keep < |l.items| && keep == Run(l.items, ks)
    ensures var l1 := Taken(l, keep, nl, nnl);
            && Agreed(l1, ks) == Span(l1) == keep
            && Onward(l1, ks) == Some(KeyLayer(l, keep, nl, nnl))
  {
    hide Run;
    var head := LinkLast(l.items[..keep], Some(nl));
    var sep := KeyLayer(l, keep, nl, nnl);
    var l1 := Taken(l, keep, nl, nnl);
    RunPrefix(l.items, ks, keep);
    RunIs(head, ks, keep);
    if keep == 1 {
      assert head == [head[0]];
      FindIs([head[0]], ks[0], 0);
    }
  }

  lemma {:induction false} RunPrefix(items: seq<KeyInfo>, ks: Path, n: nat)
    requires n == Run(items, ks)
    ensures n <= |ks| && n <= |items| && forall i :: 0 <= i < n ==> items[i].key == ks[i]
  {
  }

  // ---------- the operations ----------

  // What a sub-insertion below the layer's last agreeing key needs, and what it finds.
  lemma {:induction false} ReadyBelow(m: Memory, l: Layer, level: nat, order: Order, full: Path, req: nat)
    requires Accepts(m, Some(l), level, order, full, req)
    requires Agreed(l, full[level..]) == Span(l) > 0 && level + Span(l) < req
    ensures var next, level' := Onward(l, full[level..]), level + Span(l);
            && Accepts(m, next, level', order, full, req)
            && EndOf(MeaningOf(next), full, level', req) == EndOf(Meaning(l), full, level, req)
            && (!GoesOn(l, full[level..]) ==> MatchLen(MeaningOf(next), full[level'..]) == 0)
    ensures |Positions(l)| == |Own(l)|
    ensures var (n, i) := Positions(l)[Reached(l, full[level..])];
            n in m && i < m[n].keyCnt && m[n].keys[i].next == RootOf(Onward(l, full[level..]))
  {
    hide Rep, Meaning, Agreed, Own, Positions, MatchLen, EndOf, Fits;
    var ks := full[level..];
    AcceptsUnder(m, l, level, order, full, req);
    KeyInLayer(m, l, level, order, Reached(l, ks));
    BelowIs(m, l, level, order, Reached(l, ks));
    assert ks[Span(l)..] == full[level + Span(l)..];
    if !GoesOn(l, ks) {
      NoMatch(m, Onward(l, ks), level + Span(l), order, full[level + Span(l)..]);
    }
  }

  lemma {:induction false} NoMatch(m: Memory, l: Option<Layer>, level: nat, order: Order, ks: Path)
    requires RepOf(m, l, level, order) && ks != []
    requires l.Some? ==> Agreed(l.value, ks) == 0
    ensures MatchLen(MeaningOf(l), ks) == 0
  {
    if l.Some? {
      AgreedMatch(m, l.value, level, order, ks);
    }
  }

  /** Inserts into a level that stores no key of the rule; the result is its new root. */
  method InsertToRoot(pool: NodePool, root: Option<Index>, c: InsertCookie, ghost l: Option<Layer>)
    returns (root': Index, ghost l': Layer)
    requires Inserting(pool.slots, l, c) && RootOf(l) == root
    requires MatchLen(MeaningOf(l), c.Keys()[c.level..]) == 0
    modifies pool
    ensures Root(l') == root' && (KeepsRoot(l) ==> root == Some(root'))
    ensures Done(old(pool.slots), pool.slots, l, l', c)
    decreases c.requiresLevels - c.level, if l.Some? && l.value.Packed? then 1 else 0, 2
  {
    hide Rep, AllIds, Meaning, Insert, Chain, Fits, MatchLen, InOrder, Required, EndOf;
    if root.None? {
      root', l' := InsertIntoNewNode(pool, c);
      InsertIntoEmpty(c.Rest(), c.rule.value);
      EmptyEnd(c.Keys(), c.level, c.requiresLevels);
    } else {
      RootNode(pool.slots, l.value, c.level, c.order);
      if pool.slots[root.value].isCompressed {
        PackedAccepts(pool.slots, l.value, c);
        l' := InsertInToCompressed(pool, root.value, c, l.value);
        root' := root.value;
      } else {
        NothingStored(pool.slots, l.value, c.level, c.order, c.Keys(), c.requiresLevels);
        root', l' := InsertToPlainRoot(pool, root.value, c, l.value);
      }
    }
  }

  lemma EmptyEnd(full: Path, level: nat, req: nat)
    requires level < req <= |full|
    ensures EndOf(EMPTY, full, level, req) == req
  {
  }

  lemma {:induction false} PackedAccepts(m: Memory, l: Layer, c: InsertCookie)
    requires Inserting(m, Some(l), c) && l.Packed? && MatchLen(Meaning(l), c.Keys()[c.level..]) == 0
    ensures Run(l.items, c.Keys()[c.level..]) == 0
  {
    hide Rep, Meaning, Fits, MatchLen, InOrder, EndOf, Run;
    AgreedMatch(m, l, c.level, c.order, c.Keys()[c.level..]);
  }

  // How many keys of a compressed node the rule shares, and the state behind them.
  method SharedKeys(pool: NodePool, root: Index, c0: InsertCookie, ghost l: Layer) returns (keep: nat, c: InsertCookie)
    requires l.Packed? && Inserting(pool.slots, Some(l), c0) && l.id == root
    requires c0.level + Run(l.items, c0.Keys()[c0.level..]) < c0.requiresLevels
    ensures keep == Run(l.items, c0.Keys()[c0.level..]) && c == AtLevel(c0, c0.level + keep)
  {
    hide Rep, AllIds, Meaning, Insert, Fits, MatchLen, InOrder, Required, EndOf, Run;
    RootNode(pool.slots, l, c0.level, c0.order);
    ghost var ks := c0.Keys()[c0.level..];
    c := c0;
    keep := 0;
    while keep < pool.slots[root].keyCnt
      invariant keep <= |l.items| && c == AtLevel(c0, c0.level + keep)
      invariant forall j :: 0 <= j < keep ==> l.items[j].key == ks[j]
    {
      RunIs(l.items, ks, keep);
      CookieAt(c0, c0.level + keep);
      if pool.slots[root].keys[keep].key != c.ActualKey() {
        break;
      }
      c := c.NextLevel();
      keep := keep + 1;
    }
    RunIs(l.items, ks, keep);
  }

  /** Inserts behind the keys of a compressed node that the rule shares. */
  method InsertInToCompressed(pool: NodePool, root: Index, c0: InsertCookie, ghost l: Layer) returns (ghost l': Layer)
    requires l.Packed? && Inserting(pool.slots, Some(l), c0) && l.id == root
    requires c0.level + Run(l.items, c0.Keys()[c0.level..]) < c0.requiresLevels
    modifies pool
    ensures Root(l') == root && Done(old(pool.slots), pool.slots, Some(l), l', c0)
    decreases c0.requiresLevels - c0.level, 1, 1
  {
    hide Rep, AllIds, Meaning, Insert, Fits, MatchLen, InOrder, Required, EndOf, Run;
    var keep, c := SharedKeys(pool, root, c0, l);
    l' := InsertBehindKept(pool, root, c, keep, c0, l);
  }

  /**
   * Inserts the rest of a rule that shares `keep` keys with a compressed node; the state
   * of the insertion is that of the first level behind them.
   */
  method InsertBehindKept(pool: NodePool, root: Index, c: InsertCookie, keep: nat, ghost c0: InsertCookie,
                          ghost l: Layer)
    returns (ghost l': Layer)
    requires l.Packed? && Inserting(pool.slots, Some(l), c0) && l.id == root
    requires keep == Run(l.items, c0.Keys()[c0.level..]) && c == AtLevel(c0, c0.level + keep)
    requires c.level < c.requiresLevels
    modifies pool
    ensures Root(l') == root && Done(old(pool.slots), pool.slots, Some(l), l', c0)
    decreases c0.requiresLevels - c0.level, 1, 0
  {
    hide Rep, AllIds, Meaning, Insert, Fits, MatchLen, InOrder, Required, EndOf, Run, GoesOn, Onward, Positions;
    RootNode(pool.slots, l, c0.level, c0.order);
    CookieAt(c0, c.level);
    if keep == pool.slots[root].keyCnt {
      l' := InsertBehindAll(pool, root, c, c0, l);
    } else {
      ghost var m0, full := pool.slots, c0.Keys();
      var n;
      ghost var l1, s;
      n, l1, s := DecompressNode(pool, root, keep, l, c0.level, c0.order, full[c0.level..]);
      ghost var m1 := pool.slots;
      CutAccepts(m0, m1, l, l1, s, keep, c0.level, c0.order, full, c0.requiresLevels);
      var n';
      ghost var s';
      n', s' := InsertRule(pool, Some(n), c, Some(s));
      l' := CutInserted(m0, m1, pool.slots, l, l1, s, s', keep, c0.level, c0.order, full,
                        EndOf(Meaning(l), full, c0.level, c0.requiresLevels), c0.rule.value);
    }
  }

  // All keys of the node agree: the insertion goes on in the layer below the last one.
  method InsertBehindAll(pool: NodePool, root: Index, c: InsertCookie, ghost c0: InsertCookie, ghost l: Layer)
    returns (ghost l': Layer)
    requires l.Packed? && Inserting(pool.slots, Some(l), c0) && l.id == root
    requires Agreed(l, c0.Keys()[c0.level..]) == Span(l) > 0 && c == AtLevel(c0, c0.level + Span(l))
    requires c.level < c.requiresLevels
    modifies pool
    ensures Root(l') == root && Done(old(pool.slots), pool.slots, Some(l), l', c0)
    decreases c0.requiresLevels - c0.level, 0
  {
    hide Rep, AllIds, Meaning, Insert, Fits, MatchLen, InOrder, Required, EndOf, Run, GoesOn, Onward, Positions, Agreed,
        Own, HoldsPacked;
    ghost var m0, full := pool.slots, c0.Keys();
    CookieAt(c0, c.level);
    RootNode(pool.slots, l, c0.level, c0.order);
    ReadyBelow(pool.slots, l, c0.level, c0.order, full, c0.requiresLevels);
    LastReached(l, full[c0.level..]);
    var last := pool.slots[root].keyCnt - 1;
    var nl;
    ghost var come;
    nl, come := InsertRule(pool, pool.slots[root].keys[last].next, c, Onward(l, full[c0.level..]));
    ghost var m1 := pool.slots;
    StillThere(m0, m1, l, c0.level, c0.order, full, come);
    pool.SetNextLayer(root, last, Some(nl));
    l' := LinkedUnder(m0, m1, pool.slots, l, c0.level, c0.order, full,
                      EndOf(Meaning(l), full, c0.level, c0.requiresLevels), c0.rule.value, come);
  }

  lemma LastReached(l: Layer, ks: Path)
    requires l.Packed? && Agreed(l, ks) == Span(l) > 0
    ensures |Positions(l)| == |Own(l)| && Positions(l)[Reached(l, ks)] == (l.id, |l.items| - 1)
  {
  }

  lemma {:induction false} StillThere(m0: Memory, m1: Memory, l: Layer, level: nat, order: Order, full: Path,
                                      come: Layer)
    requires |full| == D && level <= D && Rep(m0, l, level, order)
    requires Agreed(l, full[level..]) == Span(l) > 0
    requires Framed(m0, m1, IdsOf(Onward(l, full[level..])), AllIds(come))
    ensures |Positions(l)| == |Own(l)|
    ensures var (n, i) := Positions(l)[Reached(l, full[level..])];
            n in m0 && n in m1 && m1[n] == m0[n] && i < m0[n].keyCnt
  {
    hide Rep, AllIds, Agreed, Own, Positions;
    KeyUntouched(m0, m1, l, level, order, Reached(l, full[level..]), AllIds(come));
  }

  // The layer s is what a compressed node was cut off at the key behind the agreeing ones.
  ghost predicate CutAt(l1: Layer, s: Layer, keep: nat, ks: Path) {
    if keep == 0 then s == l1 else Agreed(l1, ks) == Span(l1) == keep && Onward(l1, ks) == Some(s)
  }

  /** Takes a compressed node apart so that the key at the index is in a node of its own. */
  method DecompressNode(pool: NodePool, node: Index, index: nat, ghost l: Layer, ghost level: nat, ghost order: Order,
                        ghost ks: Path)
    returns (n: Index, ghost l1: Layer, ghost s: Layer)
    requires l.Packed? && Rep(pool.slots, l, level, order) && node == l.id
    requires index < |l.items| && index == Run(l.items, ks)
    modifies pool
    ensures SameLayer(old(pool.slots), pool.slots, l, l1, level, order)
    ensures Root(s) == n && s.Plain? && |s.bt.items| == 1
    ensures CutAt(l1, s, index, ks)
  {
    hide Rep, AllIds, Meaning, Run;
    RootNode(pool.slots, l, level, order);
    if index == 0 {
      ghost var nnl := SeparateFirst(pool, node, l, level, order);
      n := node;
      l1 := Taken(l, 0, l.id, nnl);
      s := l1;
    } else {
      var nl;
      ghost var nnl;
      nl, nnl := SeparateInner(pool, node, index, l, level, order);
      n := nl;
      l1 := Taken(l, index, nl, nnl);
      s := KeyLayer(l, index, nl, nnl);
      SplitAgrees(l, index, ks, nl, nnl);
    }
  }

  lemma {:induction false} CutAccepts(m0: Memory, m1: Memory, l: Layer, l1: Layer, s: Layer, keep: nat, level: nat,
                                      order: Order, full: Path, req: nat)
    requires Accepts(m0, Some(l), level, order, full, req) && SameLayer(m0, m1, l, l1, level, order)
    requires CutAt(l1, s, keep, full[level..]) && level + keep < req
    ensures Accepts(m1, Some(s), level + keep, order, full, req)
    ensures EndOf(Meaning(s), full, level + keep, req) == EndOf(Meaning(l), full, level, req)
  {
    hide Rep, AllIds, Meaning, Fits, Agreed, EndOf;
    if keep > 0 {
      AcceptsUnder(m1, l1, level, order, full, req);
    }
  }

  lemma CutInserted(m0: Memory, m1: Memory, m2: Memory, l: Layer, l1: Layer, s: Layer, s': Layer, keep: nat,
                    level: nat, order: Order, full: Path, end: nat, v: Value) returns (l': Layer)
    requires SameLayer(m0, m1, l, l1, level, order) && |full| == D && level + keep < end <= D
    requires CutAt(l1, s, keep, full[level..]) && Root(s') == Root(s)
    requires InsertedOf(m1, m2, Some(s), s', level + keep, order, full[level + keep..end], v)
    ensures LayerInserted(m0, m2, l, l', level, order, full[level..end], v) && Root(l') == Root(l)
  {
    hide Rep, AllIds, Meaning, Insert, Agreed, Own, Positions, Updated;
    if keep > 0 {
      Unlinked(m1, m2, l1, level, order, full, s, s', end, v);
      InsertedUnder(m1, m2, m2, l1, level, order, full, end, v, s');
      var p := Reached(l1, full[level..]);
      l' := Updated(l1, p, Linking(Own(l1)[p], Some(Root(s'))), Some(s'));
    } else {
      l' := s';
    }
    AfterSame(m0, m1, m2, l, l1, l', level, order, full[level..end], v);
  }

  // ---------- the whole insertion ----------

  // Goes on below the last key that the path collected.
  method InsertBelowPath(pool: NodePool, last: PathItem, c: InsertCookie, ghost c0: InsertCookie, ghost l: Layer)
    returns (ghost l': Layer)
    requires Inserting(pool.slots, Some(l), c0)
    requires Agreed(l, c0.Keys()[c0.level..]) > 0 && !GoesOn(l, c0.Keys()[c0.level..])
    requires |Positions(l)| == |Own(l)| && last == ItemAt(l, Reached(l, c0.Keys()[c0.level..]))
    requires c == AtLevel(c0, c0.level + Agreed(l, c0.Keys()[c0.level..])) && c.level < c.requiresLevels
    modifies pool
    ensures Root(l') == Root(l) && Done(old(pool.slots), pool.slots, Some(l), l', c0)
    decreases c0.requiresLevels - c0.level, if l.Packed? then 1 else 0, 2
  {
    hide Rep, AllIds, Meaning, Insert, Fits, MatchLen, InOrder, Required, EndOf, Run, GoesOn, Onward, Positions, Own;
    ghost var m0, full := pool.slots, c0.Keys();
    CookieAt(c0, c.level);
    ReachedNode(pool.slots, l, c0.level, c0.order, full[c0.level..]);
    if pool.slots[last.node].isCompressed {
      l' := InsertBehindKept(pool, last.node, c, last.index + 1, c0, l);
    } else {
      ReadyBelow(pool.slots, l, c0.level, c0.order, full, c0.requiresLevels);
      var insRoot;
      ghost var come;
      insRoot, come := InsertToRoot(pool, pool.slots[last.node].keys[last.index].next, c, Onward(l, full[c0.level..]));
      ghost var m1 := pool.slots;
      StillThere(m0, m1, l, c0.level, c0.order, full, come);
      pool.SetNextLayer(last.node, last.index, Some(insRoot));
      l' := LinkedUnder(m0, m1, pool.slots, l, c0.level, c0.order, full,
                        EndOf(Meaning(l), full, c0.level, c0.requiresLevels), c0.rule.value, come);
    }
  }

  lemma {:induction false} ReachedNode(m: Memory, l: Layer, level: nat, order: Order, ks: Path)
    requires Rep(m, l, level, order) && Agreed(l, ks) > 0 && |Positions(l)| == |Own(l)|
    ensures var item := ItemAt(l, Reached(l, ks));
            && item.node in m && m[item.node].isCompressed == l.Packed?
            && (l.Packed? ==> item.node == l.id && item.index + 1 == Run(l.items, ks))
            && (l.Plain? ==> Agreed(l, ks) == Span(l) == 1)
  {
    hide Rep, Run;
    KeyInLayer(m, l, level, order, Reached(l, ks));
    RootNode(m, l, level, order);
    if l.Plain? {
      PlainNodes(m, l.bt, None, l.h, Positions(l)[Reached(l, ks)].0);
    }
  }

  // The deepest layer on the path, and where in it the path ends.
  ghost predicate PathEnd(m: Memory, l: Layer, level: nat, order: Order, full: Path, d: Layer, off: nat,
                          path: seq<PathItem>) {
    && level + off < |full| && path != []
    && Agreed(l, full[level..]) > 0 && d == Deepest(l, full[level..]) && off == Offset(l, full[level..])
    && Rep(m, d, level + off, order)
    && Agreed(d, full[level + off..]) > 0 && !GoesOn(d, full[level + off..])
    && |path| == off + Agreed(d, full[level + off..])
    && |Positions(d)| == |Own(d)| && path[|path| - 1] == ItemAt(d, Reached(d, full[level + off..]))
  }

  // The value was written where the first n ranges from a level on lead.
  ghost predicate ValueWritten(m0: Memory, m1: Memory, l: Layer, l': Layer, level: nat, order: Order, full: Path,
                               n: nat, v: Value) {
    && n > 0 && level + n <= |full| && Root(l') == Root(l)
    && LayerInserted(m0, m1, l, l', level, order, full[level..level + n], v)
  }

  // Writes the value to the last key of the path: the whole rule is stored already.
  method UpdateLast(pool: NodePool, last: PathItem, v: Value, ghost l: Layer, ghost level: nat, ghost order: Order,
                    ghost full: Path, ghost d: Layer, ghost off: nat, ghost path: seq<PathItem>)
    returns (ghost l': Layer)
    requires |full| == D && Rep(pool.slots, l, level, order)
    requires path != [] && last == path[|path| - 1]
    requires PathEnd(pool.slots, l, level, order, full, d, off, path)
    modifies pool
    ensures ValueWritten(old(pool.slots), pool.slots, l, l', level, order, full, |path|, v)
  {
    hide Rep, AllIds, Meaning, Insert, GoesOn, Onward, Positions, Own, Agreed, Deepest, Offset;
    ghost var m0 := pool.slots;
    KeyInLayer(m0, d, level + off, order, Reached(d, full[level + off..]));
    pool.SetValue(last.node, last.index, v);
    ghost var d' := ValueUpdated(m0, pool.slots, d, level + off, order, full, level + |path|, v);
    l' := Lift(m0, pool.slots, l, level, order, full, level + |path|, v, d');
  }

  // The rule needs more levels than the path has.
  method ExtendPath(pool: NodePool, last: PathItem, c1: InsertCookie, ghost c: InsertCookie, ghost l: Layer,
                    ghost d: Layer, ghost off: nat, ghost path: seq<PathItem>)
    returns (ghost l': Layer)
    requires Inserting(pool.slots, Some(l), c)
    requires PathEnd(pool.slots, l, c.level, c.order, c.Keys(), d, off, path) && last == path[|path| - 1]
    requires |path| == MatchLen(Meaning(l), c.Keys()[c.level..])
    requires c1 == AtLevel(c, c.level + |path|) && c1.level < c1.requiresLevels
    modifies pool
    ensures Root(l') == Root(l) && Done(old(pool.slots), pool.slots, Some(l), l', c)
    decreases c.requiresLevels - c.level, if l.Packed? then 1 else 0, 3
  {
    hide Rep, AllIds, Meaning, Insert, Fits, MatchLen, InOrder, Required, EndOf, GoesOn, Onward, Positions, Own, Agreed,
        Deepest, Offset;
    ghost var m0, full := pool.slots, c.Keys();
    AcceptsDeep(m0, l, c.level, c.order, full, c.requiresLevels);
    CookieAt(c, c.level + off);
    DeepestFirst(l, full[c.level..]);
    ghost var d' := InsertBelowPath(pool, last, c1, AtLevel(c, c.level + off), d);
    l' := Lift(m0, pool.slots, l, c.level, c.order, full,
               EndOf(Meaning(l), full, c.level, c.requiresLevels), c.rule.value, d');
  }

  lemma {:induction false} DeepestFirst(l: Layer, ks: Path)
    requires Agreed(l, ks) > 0
    ensures Offset(l, ks) == 0 ==> Deepest(l, ks) == l
  {
  }

  /** Inserts the rest of a rule; the result is the root of the changed layer. */
  method InsertRule(pool: NodePool, root: Option<Index>, c: InsertCookie, ghost l: Option<Layer>)
    returns (root': Index, ghost l': Layer)
    requires Inserting(pool.slots, l, c) && RootOf(l) == root
    modifies pool
    ensures Root(l') == root' && (KeepsRoot(l) ==> root == Some(root'))
    ensures Done(old(pool.slots), pool.slots, l, l', c)
    decreases c.requiresLevels - c.level, if l.Some? && l.value.Packed? then 1 else 0, 4
  {
    hide Rep, AllIds, Meaning, Insert, Fits, MatchLen, InOrder, Required, EndOf, PathOf, PathEnd;
    ghost var full := c.Keys();
    var path := SearchPath(pool, root, c.order, c.rule, c.level, l);
    CookieAt(c, c.level);
    ghost var d, off := PathFacts(pool.slots, l, c.level, c.order, full, path);
    if |path| > 0 {
      var last := path[|path| - 1];
      var c1 := c.(level := c.level + |path| - 1);
      if c1.RequiresMoreLevels() {
        l' := ExtendPath(pool, last, c1.NextLevel(), c, l.value, d, off, path);
      } else {
        l' := UpdateLast(pool, last, c.rule.value, l.value, c.level, c.order, full, d, off, path);
        StoredEnd(Meaning(l.value), full, c.level, c.requiresLevels);
      }
      root' := root.value;
    } else {
      root', l' := InsertToRoot(pool, root, c, l);
    }
  }

  lemma {:induction false} StoredEnd(t: Trie, full: Path, level: nat, req: nat)
    requires level < req <= |full| && level + MatchLen(t, full[level..]) >= req
    ensures EndOf(t, full, level, req) == level + MatchLen(t, full[level..])
  {
  }

  // What the collected path says about the layers.
  lemma PathFacts(m: Memory, l: Option<Layer>, level: nat, order: Order, full: Path, path: seq<PathItem>)
    returns (d: Layer, off: nat)
    requires RepOf(m, l, level, order) && level <= |full| && path == PathOfSome(l, full[level..])
    ensures |path| == MatchLen(MeaningOf(l), full[level..])
    ensures path != [] ==> l.Some? && PathEnd(m, l.value, level, order, full, d, off, path)
  {
    hide Rep, Meaning, Agreed, PathOf, Deepest, Offset, GoesOn, Positions, Own;
    if l.Some? {
      var ks := full[level..];
      PathLength(m, l.value, level, order, ks);
      if Agreed(l.value, ks) > 0 {
        PathEndsIn(m, l.value, level, order, ks);
        d, off := Deepest(l.value, ks), Offset(l.value, ks);
        assert ks[off..] == full[level + off..];
        return;
      }
      NothingAgrees(l.value, ks);
    }
    d, off := Packed(0, [], map[]), 0;
  }
}
