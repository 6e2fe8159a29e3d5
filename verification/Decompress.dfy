/** Taking a compressed node apart around one of its keys (BTreeInsert::decompress_node). */
module Decompress {
  import opened Nodes
  import opened BTrees
  import opened Layers
  import opened LayerSteps
  import opened ChainBuilder

  // ---------- runs of single-key levels ----------

  // One node with these keys: compressed, unless it is a single key.
  ghost function Segment(id: Index, items: seq<KeyInfo>, sub: Option<Layer>): Layer
    requires items != []
  {
    if |items| == 1 then Single(id, items[0], sub) else Packed(id, items, OnlySub(sub))
  }

  ghost predicate HoldsSegment(n: Node, items: seq<KeyInfo>, level: nat, order: Order) {
    && n.parent == None && n.isLeaf && n.isCompressed == (|items| > 1)
    && Keys(n) == items && items != []
    && level + |items| <= D <= |order|
    && (|items| > 1 ==> forall i :: 0 <= i < |items| ==> n.dims[i] == order[level + i])
    && (forall i :: 0 <= i < |items| ==> items[i].key.Valid())
    && (forall i :: 0 <= i < |items| - 1 ==> items[i].next == None)
    && (forall i :: 0 <= i <= MAX_DEGREE ==> n.children[i] == None)
  }

  lemma {:induction false} SegmentRep(m: Memory, id: Index, items: seq<KeyInfo>, sub: Option<Layer>, level: nat,
                                      order: Order)
    requires id in m && HoldsSegment(m[id], items, level, order)
    requires items[|items| - 1].next == RootOf(sub)
    requires id !in IdsOf(sub) && RepOf(m, sub, level + |items|, order)
    ensures Rep(m, Segment(id, items, sub), level, order)
    ensures AllIds(Segment(id, items, sub)) == {id} + IdsOf(sub)
  {
    if |items| == 1 {
      assert items == [items[0]];
      SingleRep(m, id, items[0], sub, level, order);
    } else {
      PackedRep(m, id, items, sub, level, order);
    }
  }

  lemma {:induction false} SegmentMeaning(id: Index, items: seq<KeyInfo>, sub: Option<Layer>)
    requires items != [] && items[|items| - 1].next == RootOf(sub)
    ensures Meaning(Segment(id, items, sub)) == PackedMeaning(items, MeaningOf(sub))
    ensures Root(Segment(id, items, sub)) == id && Span(Segment(id, items, sub)) == |items|
  {
    if |items| == 1 {
      SingleMeaning(id, items[0], sub);
      assert items[1..] == [];
    } else {
      PackedOnlyMeaning(id, items, sub);
    }
  }

  // The only layer below a compressed one.
  ghost function LastSub(l: Layer): Option<Layer>
    requires l.Packed? && l.items != []
  {
    var next := l.items[|l.items| - 1].next;
    if next.Some? && next.value in l.subs then Some(l.subs[next.value]) else None
  }

  lemma {:induction false} PackedSub(m: Memory, l: Layer, level: nat, order: Order)
    requires l.Packed? && Rep(m, l, level, order)
    ensures l.subs == OnlySub(LastSub(l))
    ensures l.items[|l.items| - 1].next == RootOf(LastSub(l))
  {
    var last := l.items[|l.items| - 1];
    NextsLast(l.items);
    SameMembers(l.subs.Keys, last);
  }

  lemma {:induction false} PackedIsSegment(m: Memory, l: Layer, level: nat, order: Order)
    requires l.Packed? && Rep(m, l, level, order)
    ensures l.id in m && |l.items| >= 2 && l == Segment(l.id, l.items, LastSub(l))
    ensures HoldsSegment(m[l.id], l.items, level, order)
    ensures l.items[|l.items| - 1].next == RootOf(LastSub(l))
    ensures l.id !in IdsOf(LastSub(l)) && RepOf(m, LastSub(l), level + |l.items|, order)
    ensures AllIds(l) == {l.id} + IdsOf(LastSub(l))
  {
    PackedSub(m, l, level, order);
    OnlySubIds(l, LastSub(l));
  }

  lemma SameMembers(s: set<Index>, x: KeyInfo)
    requires multiset(s) == NextOf(x)
    ensures s == if x.next.Some? then {x.next.value} else {}
  {
    forall y
      ensures y in s <==> x.next == Some(y)
    {
      assert y in s <==> y in multiset(s);
    }
  }

  // ---------- moving keys into a new node ----------

  ghost predicate Moved(n: Node, src: Node, from: nat, cnt: nat)
    requires from + cnt <= MAX_DEGREE
  {
    && n.keys[..cnt] == src.keys[from..from + cnt]
    && n.dims[..cnt] == src.dims[from..from + cnt]
    && n.children == NewNode().children
    && n.isLeaf && n.parent == None
  }

  // Copies keys and dimensions from..from+cnt of a node to the start of a new one.
  method CopyToNewNode(pool: NodePool, src: Index, from: nat, cnt: nat) returns (n: Index)
    requires src in pool.slots && from + cnt <= MAX_DEGREE && cnt > 0
    modifies pool
    ensures n !in old(pool.slots) && n in pool.slots
    ensures pool.slots == old(pool.slots)[n := pool.slots[n]]
    ensures Moved(pool.slots[n], old(pool.slots)[src], from, cnt)
    ensures pool.slots[n].keyCnt == cnt && pool.slots[n].isCompressed == (cnt > 1)
  {
    hide Moved;
    ghost var s := pool.slots[src];
    n := pool.Get();
    MovedStart(s, from);
    for i := 0 to cnt
      invariant n in pool.slots && pool.slots == old(pool.slots)[n := pool.slots[n]]
      invariant Moved(pool.slots[n], s, from, i)
      invariant !pool.slots[n].isCompressed
    {
      MovedStep(pool.slots[n], s, from, i);
      pool.SetKey(n, i, pool.slots[src].keys[from + i]);
      pool.SetDim(n, i, pool.slots[src].dims[from + i]);
    }
    MovedMarks(pool.slots[n], s, from, cnt);
    pool.SetKeyCnt(n, cnt);
    pool.SetCompressed(n, cnt > 1);
  }

  lemma MovedStart(src: Node, from: nat)
    requires from <= MAX_DEGREE
    ensures Moved(NewNode(), src, from, 0)
  {
  }

  lemma MovedStep(n: Node, src: Node, from: nat, i: nat)
    requires from + i < MAX_DEGREE && Moved(n, src, from, i)
    ensures var n' := n.(keys := n.keys[i := src.keys[from + i]]);
            Moved(n'.(dims := n'.dims[i := src.dims[from + i]]), src, from, i + 1)
  {
  }

  // The count of the keys and the mark for a compressed node make no difference.
  lemma MovedMarks(n: Node, src: Node, from: nat, cnt: nat)
    requires from + cnt <= MAX_DEGREE && Moved(n, src, from, cnt)
    ensures var n' := n.(keyCnt := cnt); Moved(n'.(isCompressed := cnt > 1), src, from, cnt)
  {
  }

  lemma MovedHolds(n: Node, src: Node, items: seq<KeyInfo>, from: nat, cnt: nat, level: nat, order: Order)
    requires HoldsSegment(src, items, level, order) && from + cnt <= |items| && |items| > 1 && cnt > 0
    requires Moved(n, src, from, cnt) && n.keyCnt == cnt && n.isCompressed == (cnt > 1)
    ensures HoldsSegment(n, items[from..from + cnt], level + from, order)
  {
    var part := items[from..from + cnt];
    assert src.keys[from..from + cnt] == part;
    forall i | 0 <= i < cnt
      ensures n.dims[i] == order[level + from + i] && part[i] == items[from + i]
    {
      assert n.dims[i] == src.dims[from..from + cnt][i] == src.dims[from + i];
    }
  }

  // ---------- the three pieces ----------

  // What lies below the separated key: the keys behind it, or what was below the node.
  ghost function TailSub(l: Layer, index: nat, nnl: Index): Option<Layer>
    requires l.Packed? && index < |l.items|
  {
    if index + 1 < |l.items| then Some(Segment(nnl, l.items[index + 1..], LastSub(l))) else LastSub(l)
  }

  // The separated key on its own level.
  ghost function KeyLayer(l: Layer, index: nat, nl: Index, nnl: Index): Layer
    requires l.Packed? && index < |l.items|
  {
    Single(nl, Linking(l.items[index], RootOf(TailSub(l, index, nnl))), TailSub(l, index, nnl))
  }

  ghost function Taken(l: Layer, index: nat, nl: Index, nnl: Index): Layer
    requires l.Packed? && index < |l.items|
  {
    if index == 0 then KeyLayer(l, 0, l.id, nnl)
    else Segment(l.id, LinkLast(l.items[..index], Some(nl)), Some(KeyLayer(l, index, nl, nnl)))
  }

  // Splitting the keys over nodes changes no meaning.
  lemma {:induction false} TakenMeaning(l: Layer, index: nat, nl: Index, nnl: Index)
    requires l.Packed? && index < |l.items| && l.subs == OnlySub(LastSub(l))
    requires l.items[|l.items| - 1].next == RootOf(LastSub(l))
    ensures Meaning(Taken(l, index, nl, nnl)) == Meaning(l)
  {
    hide Meaning, PackedMeaning;
    var below := MeaningOf(LastSub(l));
    var head, tail := l.items[..index], l.items[index + 1..];
    SeparatedMeaning(l, index, if index == 0 then l.id else nl, nnl);
    MeaningPacked(l.id, l.items, l.subs);
    assert l.items == head + ([l.items[index]] + tail);
    PackedMeaningConcat(head, [l.items[index]] + tail, below);
    if index > 0 {
      var sep := KeyLayer(l, index, nl, nnl);
      SegmentMeaning(l.id, LinkLast(head, Some(nl)), Some(sep));
      LinkLastMeaning(head, Some(nl), Meaning(sep));
    }
  }

  lemma SeparatedMeaning(l: Layer, index: nat, nl: Index, nnl: Index)
    requires l.Packed? && index < |l.items|
    requires l.items[|l.items| - 1].next == RootOf(LastSub(l))
    ensures Meaning(KeyLayer(l, index, nl, nnl)) ==
            PackedMeaning([l.items[index]] + l.items[index + 1..], MeaningOf(LastSub(l)))
  {
    var x, tail := l.items[index], l.items[index + 1..];
    var sub := TailSub(l, index, nnl);
    SingleMeaning(nl, Linking(x, RootOf(sub)), sub);
    assert ([x] + tail)[1..] == tail;
    if tail != [] {
      SegmentMeaning(nnl, tail, LastSub(l));
    }
  }

  // The layer below the node survives any step that only touches the node and new slots.
  lemma {:induction false} LastSubKept(m0: Memory, m1: Memory, l: Layer, level: nat, order: Order, used: set<Index>)
    requires l.Packed? && Rep(m0, l, level, order) && Framed(m0, m1, {l.id}, used)
    ensures RepOf(m1, LastSub(l), level + |l.items|, order)
    ensures IdsOf(LastSub(l)) !! used
    ensures Framed(m0, m1, AllIds(l), used + IdsOf(LastSub(l)))
  {
    hide Rep, AllIds;
    PackedIsSegment(m0, l, level, order);
    RepIds(m0, l, level, order);
    FramedWiden(m0, m1, {l.id}, used, IdsOf(LastSub(l)));
    if LastSub(l).Some? {
      RepFrame(m0, m1, LastSub(l).value, level + |l.items|, order);
    }
  }

  lemma TailRep(m: Memory, l: Layer, index: nat, nnl: Index, level: nat, order: Order)
    requires l.Packed? && index < |l.items| && l.items[|l.items| - 1].next == RootOf(LastSub(l))
    requires RepOf(m, LastSub(l), level + |l.items|, order)
    requires index + 1 < |l.items| ==>
               && nnl in m && nnl !in IdsOf(LastSub(l))
               && HoldsSegment(m[nnl], l.items[index + 1..], level + index + 1, order)
    ensures RepOf(m, TailSub(l, index, nnl), level + index + 1, order)
    ensures IdsOf(TailSub(l, index, nnl)) == IdsOf(LastSub(l)) + TailIds(l, index, nnl)
  {
    hide Rep, AllIds;
    if index + 1 < |l.items| {
      SegmentRep(m, nnl, l.items[index + 1..], LastSub(l), level + index + 1, order);
    }
  }

  ghost function TailIds(l: Layer, index: nat, nnl: Index): set<Index>
    requires l.Packed?
  {
    if index + 1 < |l.items| then {nnl} else {}
  }

  lemma KeyRep(m: Memory, l: Layer, index: nat, nl: Index, nnl: Index, level: nat, order: Order)
    requires l.Packed? && index < |l.items| && level + index < D
    requires RepOf(m, TailSub(l, index, nnl), level + index + 1, order) && nl !in IdsOf(TailSub(l, index, nnl))
    requires nl in m
    requires HoldsSegment(m[nl], [Linking(l.items[index], RootOf(TailSub(l, index, nnl)))], level + index, order)
    ensures Rep(m, KeyLayer(l, index, nl, nnl), level + index, order)
    ensures AllIds(KeyLayer(l, index, nl, nnl)) == {nl} + IdsOf(TailSub(l, index, nnl))
  {
    var sub := TailSub(l, index, nnl);
    SegmentRep(m, nl, [Linking(l.items[index], RootOf(sub))], sub, level + index, order);
  }

  lemma {:induction false} HeadRep(m: Memory, id: Index, head: seq<KeyInfo>, sep: Layer, level: nat, order: Order)
    requires head != [] && id in m && HoldsSegment(m[id], LinkLast(head, Some(Root(sep))), level, order)
    requires Rep(m, sep, level + |head|, order) && id !in AllIds(sep)
    ensures Rep(m, Segment(id, LinkLast(head, Some(Root(sep))), Some(sep)), level, order)
    ensures AllIds(Segment(id, LinkLast(head, Some(Root(sep))), Some(sep))) == {id} + AllIds(sep)
  {
    SegmentRep(m, id, LinkLast(head, Some(Root(sep))), Some(sep), level, order);
  }

  ghost predicate SameLayer(m0: Memory, m1: Memory, l: Layer, l': Layer, level: nat, order: Order) {
    && Rep(m1, l', level, order)
    && Framed(m0, m1, AllIds(l), AllIds(l'))
    && Meaning(l') == Meaning(l)
    && Root(l') == Root(l)
  }

  // ---------- the first key is separated ----------

  lemma {:induction false} FirstPieces(m: Memory, l: Layer, nnl: Index, level: nat, order: Order)
    requires l.Packed? && |l.items| > 1 && l.items[|l.items| - 1].next == RootOf(LastSub(l))
    requires RepOf(m, LastSub(l), level + |l.items|, order) && IdsOf(LastSub(l)) !! {l.id, nnl}
    requires nnl != l.id && nnl in m && l.id in m
    requires HoldsSegment(m[nnl], l.items[1..], level + 1, order)
    requires HoldsSegment(m[l.id], [Linking(l.items[0], Some(nnl))], level, order)
    ensures Rep(m, Taken(l, 0, l.id, nnl), level, order)
    ensures AllIds(Taken(l, 0, l.id, nnl)) == {l.id, nnl} + IdsOf(LastSub(l))
  {
    hide Rep, AllIds;
    TailRep(m, l, 0, nnl, level, order);
    KeyRep(m, l, 0, l.id, nnl, level, order);
  }

  lemma {:induction false} TookFirst(m0: Memory, m1: Memory, l: Layer, nnl: Index, level: nat, order: Order)
    requires l.Packed? && Rep(m0, l, level, order) && |l.items| > 1
    requires nnl != l.id && Framed(m0, m1, {l.id}, {l.id, nnl})
    requires HoldsSegment(m1[nnl], l.items[1..], level + 1, order)
    requires HoldsSegment(m1[l.id], [Linking(l.items[0], Some(nnl))], level, order)
    ensures SameLayer(m0, m1, l, Taken(l, 0, l.id, nnl), level, order)
  {
    PackedIsSegment(m0, l, level, order);
    LastSubKept(m0, m1, l, level, order, {l.id, nnl});
    FirstPieces(m1, l, nnl, level, order);
    TakenMeaning(l, 0, l.id, nnl);
  }

  // ---------- a later key is separated ----------

  lemma {:induction false} InnerPieces(m: Memory, l: Layer, index: nat, nl: Index, nnl: Index, level: nat, order: Order)
    requires l.Packed? && 0 < index < |l.items| && l.items[|l.items| - 1].next == RootOf(LastSub(l))
    requires RepOf(m, LastSub(l), level + |l.items|, order)
    requires IdsOf(LastSub(l)) !! ({l.id, nl} + TailIds(l, index, nnl))
    requires nl != l.id && (index + 1 < |l.items| ==> nnl != l.id && nnl != nl && nnl in m)
    requires l.id in m && nl in m && level + index < D
    requires index + 1 < |l.items| ==> HoldsSegment(m[nnl], l.items[index + 1..], level + index + 1, order)
    requires HoldsSegment(m[nl], [Linking(l.items[index], RootOf(TailSub(l, index, nnl)))], level + index, order)
    requires HoldsSegment(m[l.id], LinkLast(l.items[..index], Some(nl)), level, order)
    ensures Rep(m, Taken(l, index, nl, nnl), level, order)
    ensures AllIds(Taken(l, index, nl, nnl)) == {l.id, nl} + TailIds(l, index, nnl) + IdsOf(LastSub(l))
  {
    hide Rep, AllIds;
    TailRep(m, l, index, nnl, level, order);
    KeyRep(m, l, index, nl, nnl, level, order);
    HeadRep(m, l.id, l.items[..index], KeyLayer(l, index, nl, nnl), level, order);
  }

  lemma {:induction false} TookInner(m0: Memory, m1: Memory, l: Layer, index: nat, nl: Index, nnl: Index, level: nat,
                                     order: Order)
    requires l.Packed? && Rep(m0, l, level, order) && 0 < index < |l.items|
    requires nl != l.id && (index + 1 < |l.items| ==> nnl != l.id && nnl != nl)
    requires Framed(m0, m1, {l.id}, {l.id, nl} + TailIds(l, index, nnl))
    requires index + 1 < |l.items| ==> HoldsSegment(m1[nnl], l.items[index + 1..], level + index + 1, order)
    requires HoldsSegment(m1[nl], [Linking(l.items[index], RootOf(TailSub(l, index, nnl)))], level + index, order)
    requires HoldsSegment(m1[l.id], LinkLast(l.items[..index], Some(nl)), level, order)
    ensures SameLayer(m0, m1, l, Taken(l, index, nl, nnl), level, order)
  {
    PackedIsSegment(m0, l, level, order);
    LastSubKept(m0, m1, l, level, order, {l.id, nl} + TailIds(l, index, nnl));
    InnerPieces(m1, l, index, nl, nnl, level, order);
    TakenMeaning(l, index, nl, nnl);
  }

  // A node that keeps its first n keys, the last of them with a new next layer.
  lemma TruncatedHolds(n: Node, n': Node, items: seq<KeyInfo>, cnt: nat, next: Option<Index>, level: nat, order: Order)
    requires HoldsSegment(n, items, level, order) && 0 < cnt <= |items| && |items| > 1
    requires n'.keys == n.keys[cnt - 1 := Linking(n.keys[cnt - 1], next)]
    requires n'.dims == n.dims && n'.children == n.children && n'.parent == n.parent && n'.isLeaf == n.isLeaf
    requires n'.keyCnt == cnt && n'.isCompressed == (cnt > 1)
    ensures HoldsSegment(n', LinkLast(items[..cnt], next), level, order)
  {
    var kept := LinkLast(items[..cnt], next);
    assert n.keys[cnt - 1] == items[cnt - 1];
    assert n'.keys[..cnt] == kept;
    forall i | 0 <= i < cnt
      ensures kept[i].key.Valid() && (i < cnt - 1 ==> kept[i].next == None)
    {
      assert kept[i].key == items[i].key;
    }
  }

  /** Moves everything behind the first key to a new node below it. */
  method SeparateFirst(pool: NodePool, node: Index, ghost l: Layer, ghost level: nat, ghost order: Order)
    returns (ghost nnl: Index)
    requires l.Packed? && Rep(pool.slots, l, level, order) && node == l.id
    modifies pool
    ensures SameLayer(old(pool.slots), pool.slots, l, Taken(l, 0, l.id, nnl), level, order)
  {
    hide Rep, AllIds, Meaning;
    ghost var m0 := pool.slots;
    PackedIsSegment(m0, l, level, order);
    var cnt := pool.slots[node].keyCnt;
    var nl := CopyToNewNode(pool, node, 1, cnt - 1);
    pool.SetNextLayer(node, 0, Some(nl));
    pool.SetKeyCnt(node, 1);
    pool.SetCompressed(node, false);
    nnl := nl;
    MovedHolds(pool.slots[nl], m0[node], l.items, 1, cnt - 1, level, order);
    TruncatedHolds(m0[node], pool.slots[node], l.items, 1, Some(nl), level, order);
    assert l.items[1..1 + (cnt - 1)] == l.items[1..];
    assert LinkLast(l.items[..1], Some(nl)) == [Linking(l.items[0], Some(nl))];
    TookFirst(m0, pool.slots, l, nnl, level, order);
  }

  // The same on node records: who holds what once the keys are spread over the nodes.
  ghost predicate KeysSpread(m0: Memory, m1: Memory, node: Index, index: nat, nl: Index, nn: Option<Index>) {
    && node in m0 && 0 < index < m0[node].keyCnt
    && nl !in m0 && (nn.Some? <==> index + 1 < m0[node].keyCnt)
    && (nn.Some? ==> nn.value !in m0 && nn.value != nl)
    && m1.Keys == m0.Keys + {nl} + (if nn.Some? then {nn.value} else {})
    && (forall x :: x in m0 && x != node ==> m1[x] == m0[x])
    && (nn.Some? ==>
          && Moved(m1[nn.value], m0[node], index + 1, m0[node].keyCnt - index - 1)
          && m1[nn.value].keyCnt == m0[node].keyCnt - index - 1
          && m1[nn.value].isCompressed == (m0[node].keyCnt - index - 1 > 1))
    && m1[nl].keys[0] == Linking(m0[node].keys[index], if nn.Some? then nn else m0[node].keys[index].next)
    && m1[nl].children == NewNode().children && m1[nl].isLeaf && m1[nl].parent == None
    && m1[nl].keyCnt == 1 && !m1[nl].isCompressed
    && m1[node] == Node(m0[node].keys[index - 1 := Linking(m0[node].keys[index - 1], Some(nl))],
                        m0[node].dims, m0[node].children, index, m0[node].isLeaf, index > 1, m0[node].parent)
  }

  // The new nodes hold their keys; the node itself is as before.
  ghost predicate BothCopied(m0: Memory, m1: Memory, node: Index, index: nat, nl: Index, nn: Option<Index>) {
    && node in m0 && 0 < index < m0[node].keyCnt
    && nl !in m0 && (nn.Some? <==> index + 1 < m0[node].keyCnt)
    && (nn.Some? ==> nn.value !in m0 && nn.value != nl)
    && m1.Keys == m0.Keys + {nl} + (if nn.Some? then {nn.value} else {})
    && (forall x :: x in m0 ==> m1[x] == m0[x])
    && (nn.Some? ==>
          && Moved(m1[nn.value], m0[node], index + 1, m0[node].keyCnt - index - 1)
          && m1[nn.value].keyCnt == m0[node].keyCnt - index - 1
          && m1[nn.value].isCompressed == (m0[node].keyCnt - index - 1 > 1))
    && Moved(m1[nl], m0[node], index, 1) && m1[nl].keyCnt == 1 && !m1[nl].isCompressed
  }

  method CopyBoth(pool: NodePool, node: Index, index: nat) returns (nl: Index, nn: Option<Index>)
    requires node in pool.slots && 0 < index < pool.slots[node].keyCnt
    modifies pool
    ensures BothCopied(old(pool.slots), pool.slots, node, index, nl, nn)
  {
    hide Moved;
    var keysToNnl := pool.slots[node].keyCnt - index - 1;
    nn := None;
    if keysToNnl > 0 {
      var n := CopyToNewNode(pool, node, index + 1, keysToNnl);
      nn := Some(n);
    }
    nl := CopyToNewNode(pool, node, index, 1);
  }

  method SpreadKeys(pool: NodePool, node: Index, index: nat) returns (nl: Index, nn: Option<Index>)
    requires node in pool.slots && 0 < index < pool.slots[node].keyCnt
    modifies pool
    ensures KeysSpread(old(pool.slots), pool.slots, node, index, nl, nn)
  {
    hide Moved, KeysSpread;
    nl, nn := CopyBoth(pool, node, index);
    ghost var m1 := pool.slots;
    pool.SetNextLayer(node, index - 1, Some(nl));
    if nn.Some? {
      pool.SetNextLayer(nl, 0, nn);
    }
    pool.SetKeyCnt(node, index);
    pool.SetCompressed(node, index > 1);
    SpreadDone(old(pool.slots), m1, pool.slots, node, index, nl, nn);
  }

  lemma SpreadDone(m0: Memory, m1: Memory, m2: Memory, node: Index, index: nat, nl: Index, nn: Option<Index>)
    requires BothCopied(m0, m1, node, index, nl, nn) && m2.Keys == m1.Keys
    requires forall x :: x in m1 && x != node && x != nl ==> m2[x] == m1[x]
    requires m2[nl] == if nn.Some? then WithKey(m1[nl], 0, Linking(m1[nl].keys[0], nn)) else m1[nl]
    requires m2[node] == Node(m0[node].keys[index - 1 := Linking(m0[node].keys[index - 1], Some(nl))],
                              m0[node].dims, m0[node].children, index, m0[node].isLeaf, index > 1, m0[node].parent)
    ensures KeysSpread(m0, m2, node, index, nl, nn)
  {
    assert m1[nl].keys[0] == m1[nl].keys[..1][0] == m0[node].keys[index..index + 1][0];
  }

  lemma SpreadHolds(m0: Memory, m1: Memory, l: Layer, index: nat, nl: Index, nn: Option<Index>, level: nat,
                    order: Order)
    requires l.Packed? && 0 < index < |l.items| && l.id in m0 && |l.items| > 1
    requires HoldsSegment(m0[l.id], l.items, level, order)
    requires l.items[|l.items| - 1].next == RootOf(LastSub(l))
    requires KeysSpread(m0, m1, l.id, index, nl, nn)
    ensures nn.Some? ==> HoldsSegment(m1[nn.value], l.items[index + 1..], level + index + 1, order)
    ensures HoldsSegment(m1[nl], [Linking(l.items[index], RootOf(TailSub(l, index, nn.GetOr(l.id))))], level + index,
                         order)
    ensures HoldsSegment(m1[l.id], LinkLast(l.items[..index], Some(nl)), level, order)
  {
    hide HoldsSegment, Moved;
    var n0 := m0[l.id];
    SegmentKeys(n0, l.items, level, order, index);
    if nn.Some? {
      var cnt := n0.keyCnt - index - 1;
      MovedHolds(m1[nn.value], n0, l.items, index + 1, cnt, level, order);
      assert l.items[index + 1..index + 1 + cnt] == l.items[index + 1..];
    }
    TruncatedHolds(n0, m1[l.id], l.items, index, Some(nl), level, order);
    OneKeyHolds(m1[nl], Linking(l.items[index], RootOf(TailSub(l, index, nn.GetOr(l.id)))), level + index, order);
  }

  lemma SegmentKeys(n: Node, items: seq<KeyInfo>, level: nat, order: Order, i: nat)
    requires HoldsSegment(n, items, level, order) && i < |items|
    ensures n.keyCnt == |items| && level + |items| <= D <= |order|
    ensures n.keys[i] == items[i] && items[i].key.Valid() && (i < |items| - 1 ==> items[i].next == None)
  {
    assert Keys(n)[i] == items[i];
  }

  lemma OneKeyHolds(n: Node, x: KeyInfo, level: nat, order: Order)
    requires n.keyCnt == 1 && n.keys[0] == x && x.key.Valid() && level + 1 <= D <= |order|
    requires n.children == NewNode().children && n.isLeaf && n.parent == None && !n.isCompressed
    ensures HoldsSegment(n, [x], level, order)
  {
    assert Keys(n) == [x];
  }

  /** Moves the key at the index, and everything behind it, to nodes of their own. */
  method SeparateInner(pool: NodePool, node: Index, index: nat, ghost l: Layer, ghost level: nat, ghost order: Order)
    returns (nl: Index, ghost nnl: Index)
    requires l.Packed? && Rep(pool.slots, l, level, order) && node == l.id && 0 < index < |l.items|
    modifies pool
    ensures SameLayer(old(pool.slots), pool.slots, l, Taken(l, index, nl, nnl), level, order)
  {
    hide Rep, AllIds, Meaning;
    ghost var m0 := pool.slots;
    PackedIsSegment(m0, l, level, order);
    var nn;
    nl, nn := SpreadKeys(pool, node, index);
    nnl := nn.GetOr(node);
    SpreadHolds(m0, pool.slots, l, index, nl, nn, level, order);
    TookInner(m0, pool.slots, l, index, nl, nnl, level, order);
  }
}
