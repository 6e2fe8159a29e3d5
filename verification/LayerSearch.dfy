/** Looking a packet up in all the levels of a tree (BTreeSearch::search). */
module LayerSearch {
  import opened Items
  import opened Nodes
  import opened BTrees
  import opened BTreePositions
  import opened BTreeSearch
  import opened Tries
  import opened Layers
  import opened RuleSpecs
  import opened LayerUpdates

  // ---------- one layer ----------

  // Where the first level of the layer has the key that the probe hits.
  ghost function Found(l: Layer, probe: Probe): Option<Position> {
    match l
    case Plain(bt, _, _) => Locate(bt, probe)
    case Packed(id, items, _) => if items != [] && probe.Hits(items[0].key) then Some((id, 0)) else None
  }

  // Of a compressed node this looks at the first key only.
  method SearchPosition1D(pool: NodePool, root: Index, probe: Probe, ghost l: Layer, ghost level: nat,
                          ghost order: Order)
    returns (r: Option<Position>)
    requires Rep(pool.slots, l, level, order) && Root(l) == root
    ensures r == Found(l, probe)
    ensures root in pool.slots && pool.slots[root].isCompressed == l.Packed?
  {
    hide Sub, Locate, Separated;
    RootNode(pool.slots, l, level, order);
    if pool.slots[root].isCompressed {
      r := if probe.Hits(pool.slots[root].keys[0].key) then Some((root, 0)) else None;
    } else {
      r := SearchInTree(pool, root, probe, l.bt, l.h);
    }
  }

  lemma {:induction false} RootNode(m: Memory, l: Layer, level: nat, order: Order)
    requires Rep(m, l, level, order)
    ensures Root(l) in m && m[Root(l)].isCompressed == l.Packed? && level < D
    ensures l.Plain? ==> Sub(m, l.bt, None, l.h) && Separated(Flat(l.bt))
    ensures l.Packed? ==>
              && HoldsPacked(m[l.id], l.items, level, order)
              && m[l.id].keyCnt == |l.items| >= 2
              && forall i :: 0 <= i < |l.items| ==> m[l.id].keys[i] == l.items[i]
  {
    if l.Packed? {
      assert forall i :: 0 <= i < |l.items| ==> Keys(m[l.id])[i] == m[l.id].keys[i];
    }
  }

  // The key that a search of a plain level stops at.
  lemma {:induction false} FoundKey(m: Memory, l: Layer, level: nat, order: Order, probe: Probe)
    requires l.Plain? && Rep(m, l, level, order)
    ensures Found(l, probe).None? <==> Seek(Flat(l.bt), probe) == |Flat(l.bt)|
    ensures Found(l, probe).Some? ==>
              var (n, i) := Found(l, probe).value;
              && n in m && i < m[n].keyCnt && !m[n].isCompressed
              && m[n].keys[i] == Flat(l.bt)[Seek(Flat(l.bt), probe)]
              && n in Ids(l.bt)
  {
    PosLength(l.bt);
    var p := Seek(Flat(l.bt), probe);
    if p < |Flat(l.bt)| {
      KeyAt(m, l.bt, None, l.h, p);
      PosInside(l.bt, FlatPos(l.bt)[p]);
      PlainNodes(m, l.bt, None, l.h, FlatPos(l.bt)[p].0);
    }
  }

  lemma {:induction false} PlainNodes(m: Memory, t: BT, parent: Option<Index>, h: nat, n: Index)
    requires Sub(m, t, parent, h) && n in Ids(t)
    ensures n in m && !m[n].isCompressed
    decreases h
  {
    if n != t.id {
      var i :| 0 <= i < |t.kids| && n in Ids(t.kids[i]);
      PlainNodes(m, t.kids[i], Some(t.id), h - 1, n);
    }
  }

  // ---------- what a step of the walk means ----------

  function Better(v: Value, acc: Value): Value {
    if v.IsValid() then v else acc
  }

  lemma {:induction false} HitEntries(items: seq<KeyInfo>, subs: map<Index, Layer>, val: nat)
    requires Separated(items)
    ensures Hit(Entries(items, subs), val) == Hit(items, val)
  {
    var es := Entries(items, subs);
    var p := Hit(items, val);
    EntriesSeparated(items, subs);
    assert forall q :: 0 <= q < |items| ==> es[q].key == items[q].key;
    if p < |items| {
      HitIs(es, val, p);
    }
  }

  lemma {:induction false} PlainStep(l: Layer, ps: seq<nat>, acc: Value)
    requires l.Plain? && Separated(Flat(l.bt)) && ps != []
    ensures var items := Flat(l.bt);
            var p := Seek(items, OfValue(ps[0]));
            Lookup(Meaning(l), ps, acc) ==
            if p == |items| then acc
            else Lookup(Below(l.subs, items[p].next), ps[1..], Better(items[p].value, acc))
  {
    MeaningPlain(l.bt, l.h, l.subs);
    SeekIsFindOrHit(Flat(l.bt), OfValue(ps[0]));
    HitEntries(Flat(l.bt), l.subs, ps[0]);
  }

  lemma {:induction false} PackedStep(items: seq<KeyInfo>, below: Trie, ps: seq<nat>, acc: Value)
    requires items != [] && ps != []
    ensures Lookup(PackedMeaning(items, below), ps, acc) ==
            if items[0].key.InRange(ps[0]) then
              Lookup(PackedMeaning(items[1..], below), ps[1..], Better(items[0].value, acc))
            else acc
  {
    var es := PackedMeaning(items, below).entries;
    assert Hit(es, ps[0]) == if es[0].key.InRange(ps[0]) then 0 else 1;
  }

  lemma {:induction false} LookupEmpty(ps: seq<nat>, acc: Value)
    ensures Lookup(EMPTY, ps, acc) == acc
  {
  }

  // ---------- the rest of a compressed node ----------

  // After `i` matching keys of a compressed node.
  ghost predicate Walked(l: Layer, i: nat, ps: seq<nat>, acc: Value, res: Value)
    requires l.Packed? && i <= |l.items| <= |ps|
  {
    Lookup(PackedMeaning(l.items, PackedBelow(l)), ps, acc) ==
    Lookup(PackedMeaning(l.items[i..], PackedBelow(l)), ps[i..], res)
  }

  ghost function PackedBelow(l: Layer): Trie
    requires l.Packed?
  {
    if l.items == [] then EMPTY else Below(l.subs, l.items[|l.items| - 1].next)
  }

  lemma {:induction false} WalkedOne(l: Layer, i: nat, ps: seq<nat>, acc: Value, res: Value)
    requires l.Packed? && i < |l.items| <= |ps| && Walked(l, i, ps, acc, res)
    ensures l.items[i].key.InRange(ps[i]) ==> Walked(l, i + 1, ps, acc, Better(l.items[i].value, res))
    ensures !l.items[i].key.InRange(ps[i]) ==> Lookup(PackedMeaning(l.items, PackedBelow(l)), ps, acc) == res
  {
    hide Lookup, PackedMeaning;
    PackedStep(l.items[i..], PackedBelow(l), ps[i..], res);
    assert l.items[i..][1..] == l.items[i + 1..] && ps[i..][1..] == ps[i + 1..];
  }

  lemma {:induction false} WalkedAll(l: Layer, ps: seq<nat>, acc: Value, res: Value)
    requires l.Packed? && l.items != [] && |l.items| <= |ps| && Walked(l, |l.items|, ps, acc, res)
    ensures Lookup(Meaning(l), ps, acc) == Lookup(PackedBelow(l), ps[|l.items|..], res)
  {
    MeaningPacked(l.id, l.items, l.subs);
    assert l.items[|l.items|..] == [];
  }

  /** Follows the keys of a compressed node whose first key matches. */
  method SearchRestOfPath(pool: NodePool, n: Index, packet: Packet, res0: Value, level: nat, ghost l: Layer,
                          order: Order)
    returns (next: Option<Index>, res: Value, level': nat)
    requires l.Packed? && Rep(pool.slots, l, level, order) && l.id == n
    requires IsOrder(order) && ValidPacket(packet) && l.items[0].key.InRange(packet[order[level]])
    ensures var ps := InOrder(order, packet)[level..];
            if next.Some? then
              && next == l.items[|l.items| - 1].next && level' == level + |l.items|
              && Lookup(Meaning(l), ps, res0) == Lookup(PackedBelow(l), InOrder(order, packet)[level'..], res)
            else
              level' == level && Lookup(Meaning(l), ps, res0) == res
  {
    hide Rep, Meaning, Lookup, PackedMeaning, Walked;
    RootNode(pool.slots, l, level, order);
    ghost var ps := InOrder(order, packet)[level..];
    MeaningPacked(l.id, l.items, l.subs);
    WalkedNone(l, ps, res0);
    WalkedOne(l, 0, ps, res0, res0);
    res := Better(pool.slots[n].keys[0].value, res0);
    next := None;
    var add := 0;
    var i := 1;
    while i < pool.slots[n].keyCnt
      invariant 1 <= i <= |l.items|
      invariant Walked(l, i, ps, res0, res)
      invariant next == (if i == |l.items| then l.items[|l.items| - 1].next else None)
      invariant add == (if next.Some? then i else 0)
    {
      var d := pool.slots[n].dims[i];
      WalkedOne(l, i, ps, res0, res);
      assert ps[i] == packet[d];
      if !pool.slots[n].keys[i].key.InRange(packet[d]) {
        level' := level;
        return;
      }
      res := Better(pool.slots[n].keys[i].value, res);
      var next' := pool.slots[n].keys[i].next;
      if next'.Some? {
        next := next';
        add := i + 1;
      }
      i := i + 1;
    }
    level' := level + add;
    WalkedAll(l, ps, res0, res);
    assert ps[|l.items|..] == InOrder(order, packet)[level + |l.items|..];
    LookupEmpty(ps[|l.items|..], res);
  }

  lemma WalkedNone(l: Layer, ps: seq<nat>, acc: Value)
    requires l.Packed? && |l.items| <= |ps|
    ensures Walked(l, 0, ps, acc, acc)
  {
    assert l.items[0..] == l.items && ps[0..] == ps;
  }

  // ---------- the whole search ----------

  // The answer is still to be found in this layer, with this packet suffix.
  ghost predicate Pending(m: Memory, cur: Option<Layer>, level: nat, order: Order, packet: Packet, res: Value,
                          answer: Value)
    requires IsOrder(order) && ValidPacket(packet)
  {
    && RepOf(m, cur, level, order)
    && (if cur.None? then answer == res
        else level < D && Lookup(Meaning(cur.value), InOrder(order, packet)[level..], res) == answer)
  }

  // The search of this level ends without a hit.
  lemma NothingFound(m: Memory, l: Layer, level: nat, order: Order, packet: Packet, res: Value, answer: Value)
    requires IsOrder(order) && ValidPacket(packet)
    requires Pending(m, Some(l), level, order, packet, res, answer)
    requires Found(l, OfValue(packet[order[level]])).None?
    ensures answer == res
  {
    hide Meaning, Lookup, Locate;
    RootNode(m, l, level, order);
    var ps := InOrder(order, packet)[level..];
    assert ps[0] == packet[order[level]];
    if l.Plain? {
      FoundKey(m, l, level, order, OfValue(ps[0]));
      PlainStep(l, ps, res);
    } else {
      MeaningPacked(l.id, l.items, l.subs);
      PackedStep(l.items, PackedBelow(l), ps, res);
    }
  }

  // The key found on a plain level: the search goes on in its next layer.
  lemma KeyFound(m: Memory, l: Layer, level: nat, order: Order, packet: Packet, res: Value, answer: Value)
    returns (below: Option<Layer>)
    requires l.Plain? && IsOrder(order) && ValidPacket(packet)
    requires Pending(m, Some(l), level, order, packet, res, answer)
    requires Found(l, OfValue(packet[order[level]])).Some?
    ensures var (n, i) := Found(l, OfValue(packet[order[level]])).value;
            && n in m && i < m[n].keyCnt && !m[n].isCompressed
            && m[n].keys[i].next == RootOf(below)
            && Pending(m, below, level + 1, order, packet, Better(m[n].keys[i].value, res), answer)
  {
    hide Rep, Meaning, Lookup, Locate, Found;
    RootNode(m, l, level, order);
    var ps := InOrder(order, packet);
    assert ps[level..][0] == ps[level] && ps[level..][1..] == ps[level + 1..];
    var probe := OfValue(ps[level]);
    FoundKey(m, l, level, order, probe);
    PlainStep(l, ps[level..], res);
    var p := Seek(Flat(l.bt), probe);
    below := SubAt(l, p);
    BelowIs(m, l, level, order, p);
    StillPending(m, below, level, order, packet, Better(Flat(l.bt)[p].value, res), answer);
  }

  lemma PathFollowed(m: Memory, l: Layer, level: nat, order: Order, packet: Packet, res: Value, answer: Value)
    returns (below: Option<Layer>)
    requires l.Packed? && Rep(m, l, level, order) && IsOrder(order) && ValidPacket(packet)
    requires l.items != [] && l.items[|l.items| - 1].next.Some? && level + |l.items| <= D
    requires Lookup(PackedBelow(l), InOrder(order, packet)[level + |l.items|..], res) == answer
    ensures RootOf(below) == l.items[|l.items| - 1].next
    ensures Pending(m, below, level + |l.items|, order, packet, res, answer)
  {
    hide Rep, Meaning, Lookup;
    below := SubAt(l, |l.items| - 1);
    BelowIs(m, l, level, order, |l.items| - 1);
    StillPending(m, below, level + |l.items| - 1, order, packet, res, answer);
  }

  lemma StillPending(m: Memory, below: Option<Layer>, level: nat, order: Order, packet: Packet, res: Value,
                     answer: Value)
    requires IsOrder(order) && ValidPacket(packet) && level < D
    requires RepOf(m, below, level + 1, order)
    requires Lookup(MeaningOf(below), InOrder(order, packet)[level + 1..], res) == answer
    ensures Pending(m, below, level + 1, order, packet, res, answer)
  {
    if below.Some? {
      RootNode(m, below.value, level + 1, order);
    } else {
      LookupEmpty(InOrder(order, packet)[level + 1..], res);
    }
  }

  /** Looks the packet up, level by level; the deepest matching rule wins. */
  method Search(pool: NodePool, root: Option<Index>, order: Order, packet: Packet, ghost l: Option<Layer>)
    returns (res: Value)
    requires RepOf(pool.slots, l, 0, order) && RootOf(l) == root
    requires IsOrder(order) && ValidPacket(packet)
    ensures res == Lookup(MeaningOf(l), InOrder(order, packet), NO_VALUE)
  {
    hide Rep, Meaning, Lookup, Found, PackedBelow, InOrder;
    res := NO_VALUE;
    var n := root;
    var i: nat := 0;
    ghost var cur := l;
    ghost var answer := SearchStarts(pool.slots, l, order, packet);
    while n.Some?
      invariant RootOf(cur) == n
      invariant Pending(pool.slots, cur, i, order, packet, res, answer)
      decreases if n.Some? then D - i + 1 else 0
    {
      ghost var level := cur.value;
      var r := SearchPosition1D(pool, n.value, OfValue(packet[order[i]]), level, i, order);
      if r.None? {
        NothingFound(pool.slots, level, i, order, packet, res, answer);
        n, cur := None, None;
      } else if pool.slots[n.value].isCompressed {
        FirstHit(level, packet[order[i]]);
        RootNode(pool.slots, level, i, order);
        ghost var start := i;
        n, res, i := SearchRestOfPath(pool, n.value, packet, res, i, level, order);
        if n.Some? {
          cur := PathFollowed(pool.slots, level, start, order, packet, res, answer);
        } else {
          cur := None;
        }
      } else {
        cur := KeyFound(pool.slots, level, i, order, packet, res, answer);
        var (node, index) := r.value;
        res := Better(pool.slots[node].keys[index].value, res);
        n := pool.slots[node].keys[index].next;
        i := i + 1;
      }
    }
  }

  lemma FirstHit(l: Layer, val: nat)
    requires l.Packed? && Found(l, OfValue(val)).Some?
    ensures l.items != [] && l.items[0].key.InRange(val)
  {
  }

  lemma SearchStarts(m: Memory, l: Option<Layer>, order: Order, packet: Packet) returns (answer: Value)
    requires RepOf(m, l, 0, order) && IsOrder(order) && ValidPacket(packet)
    ensures Pending(m, l, 0, order, packet, NO_VALUE, answer)
    ensures answer == Lookup(MeaningOf(l), InOrder(order, packet), NO_VALUE)
  {
    var ps := InOrder(order, packet);
    assert ps[0..] == ps;
    answer := Lookup(MeaningOf(l), ps, NO_VALUE);
    if l.Some? {
      RootNode(m, l.value, 0, order);
    } else {
      LookupEmpty(ps, NO_VALUE);
    }
  }
}
