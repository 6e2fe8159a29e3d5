/** Overwriting one key of a layer together with what hangs below it. */
module LayerUpdates {
  import opened Items
  import opened Nodes
  import opened BTrees
  import opened BTreePositions
  import opened Tries
  import opened Layers
  import opened LayerSteps
  import opened RootInsert

  // Where the own keys of a layer are stored.
  ghost function Positions(l: Layer): seq<Position> {
    match l
    case Plain(bt, _, _) => FlatPos(bt)
    case Packed(id, items, _) => seq(|items|, i => (id, i))
  }

  lemma PositionsLength(l: Layer)
    ensures |Positions(l)| == |Own(l)|
  {
    if l.Plain? {
      PosLength(l.bt);
    }
  }

  lemma {:induction false} KeyInLayer(m: Memory, l: Layer, level: nat, order: Order, p: nat)
    requires Rep(m, l, level, order) && p < |Own(l)|
    ensures |Positions(l)| == |Own(l)|
    ensures var (n, i) := Positions(l)[p]; n in m && n in OwnIds(l) && i < m[n].keyCnt && m[n].keys[i] == Own(l)[p]
  {
    PositionsLength(l);
    if l.Plain? {
      KeyAt(m, l.bt, None, l.h, p);
      PosInside(l.bt, FlatPos(l.bt)[p]);
    } else {
      assert Keys(m[l.id])[p] == l.items[p];
    }
  }

  // The layer below key p.
  ghost function SubAt(l: Layer, p: nat): Option<Layer>
    requires p < |Own(l)|
  {
    var next := Own(l)[p].next;
    if next.Some? && next.value in l.subs then Some(l.subs[next.value]) else None
  }

  lemma {:induction false} BelowIs(m: Memory, l: Layer, level: nat, order: Order, p: nat)
    requires Rep(m, l, level, order) && p < |Own(l)|
    ensures RepOf(m, SubAt(l, p), level + Span(l), order)
    ensures RootOf(SubAt(l, p)) == Own(l)[p].next
    ensures MeaningOf(SubAt(l, p)) == Below(l.subs, Own(l)[p].next)
    ensures IdsOf(SubAt(l, p)) == GoneIds(l, Own(l)[p].next)
    ensures OwnIds(l) !! IdsOf(SubAt(l, p))
  {
    if Own(l)[p].next.Some? {
      LinkedIn(Own(l), l.subs, p);
    }
  }

  // Key p of the layer becomes x, and `come` takes the place of the layer below it.
  ghost function Updated(l: Layer, p: nat, x: KeyInfo, come: Option<Layer>): Layer
    requires p < |Own(l)| == |Positions(l)|
  {
    var subs := WithSub(Kept(l, Own(l)[p].next), come);
    match l
    case Plain(bt, h, _) => Plain(SetAt(bt, FlatPos(bt)[p].0, FlatPos(bt)[p].1, x), h, subs)
    case Packed(id, items, _) => Packed(id, items[p := x], subs)
  }

  ghost predicate MayBecome(l: Layer, p: nat, x: KeyInfo) {
    p < |Own(l)| && x.key == Own(l)[p].key && (l.Packed? && p + 1 < |l.items| ==> x.next == None)
  }

  lemma UpdateOwnPlain(m1: Memory, m2: Memory, l: Layer, p: nat, x: KeyInfo, come: Option<Layer>, level: nat,
                       order: Order)
    requires l.Plain? && OwnRep(m1, l, level, order) && MayBecome(l, p, x) && |Positions(l)| == |Own(l)|
    requires Rewritten(m1, m2, Positions(l)[p].0, Positions(l)[p].1, x)
    ensures var l' := Updated(l, p, x, come);
            && OwnRep(m2, l', level, order) && Own(l') == Own(l)[p := x]
            && OwnIds(l') == OwnIds(l) && Root(l') == Root(l) && Span(l') == Span(l)
            && l'.Plain? && |l'.bt.items| == |l.bt.items|
  {
    hide Sub, Flat, FlatPos, Ids, SetAt;
    RewriteKey(m1, m2, l.bt, None, l.h, p, x);
  }

  lemma UpdateOwnPacked(m1: Memory, m2: Memory, l: Layer, p: nat, x: KeyInfo, come: Option<Layer>, level: nat,
                        order: Order)
    requires l.Packed? && OwnRep(m1, l, level, order) && MayBecome(l, p, x)
    requires Rewritten(m1, m2, l.id, p, x)
    ensures OwnRep(m2, Updated(l, p, x, come), level, order)
  {
    var items' := l.items[p := x];
    assert Keys(m2[l.id]) == items';
    forall i | 0 <= i < |items'|
      ensures items'[i].key.Valid()
    {
      assert items'[i].key == l.items[i].key;
    }
  }

  lemma UpdateOwn(m1: Memory, m2: Memory, l: Layer, p: nat, x: KeyInfo, come: Option<Layer>, level: nat, order: Order)
    requires OwnRep(m1, l, level, order) && MayBecome(l, p, x) && |Positions(l)| == |Own(l)|
    requires Rewritten(m1, m2, Positions(l)[p].0, Positions(l)[p].1, x)
    ensures var l' := Updated(l, p, x, come);
            && OwnRep(m2, l', level, order) && Own(l') == Own(l)[p := x]
            && OwnIds(l') == OwnIds(l) && Root(l') == Root(l) && Span(l') == Span(l)
            && l'.Plain? == l.Plain? && (l.Plain? ==> |l'.bt.items| == |l.bt.items|)
  {
    hide Sub, Flat, FlatPos, Ids, SetAt, HoldsPacked;
    if l.Plain? {
      UpdateOwnPlain(m1, m2, l, p, x, come, level, order);
    } else {
      UpdateOwnPacked(m1, m2, l, p, x, come, level, order);
    }
  }

  // The layer below key p was exchanged in the step to m1, and the key overwritten in
  // the step to m2.
  ghost predicate Exchanged(m0: Memory, m1: Memory, m2: Memory, l: Layer, level: nat, order: Order,
                            p: nat, x: KeyInfo, come: Option<Layer>)
    requires Rep(m0, l, level, order) && |Positions(l)| == |Own(l)|
  {
    && MayBecome(l, p, x) && x.next == RootOf(come)
    && Framed(m0, m1, GoneIds(l, Own(l)[p].next), IdsOf(come))
    && RepOf(m1, come, level + Span(l), order)
    && Rewritten(m1, m2, Positions(l)[p].0, Positions(l)[p].1, x)
  }

  lemma {:induction false} ExchangedFrame(m0: Memory, m1: Memory, m2: Memory, l: Layer, level: nat, order: Order,
                       p: nat, x: KeyInfo, come: Option<Layer>)
    requires Rep(m0, l, level, order) && |Positions(l)| == |Own(l)|
    requires Exchanged(m0, m1, m2, l, level, order, p, x, come)
    ensures OwnRep(m1, l, level, order)
    ensures OwnIds(l) !! IdsOf(come) && RepOf(m2, come, level + Span(l), order)
    ensures Framed(m0, m2, OwnIds(l) + GoneIds(l, Own(l)[p].next), OwnIds(l) + IdsOf(come))
  {
    hide Rep, OwnRep, AllIds, OwnIds, GoneIds, Positions;
    var gone := GoneIds(l, Own(l)[p].next);
    KeyInLayer(m0, l, level, order, p);
    RepIds(m0, l, level, order);
    OwnUnder(m0, l, level, order, Own(l)[p].next);
    FramedWiden(m0, m1, gone, IdsOf(come), OwnIds(l));
    OwnFrame(m0, m1, l, level, order);
    if come.Some? {
      RepFrame(m1, m2, come.value, level + Span(l), order);
    }
  }

  lemma {:induction false} OwnUnder(m: Memory, l: Layer, level: nat, order: Order, next: Option<Index>)
    requires Rep(m, l, level, order)
    ensures OwnRep(m, l, level, order)
    ensures OwnIds(l) <= AllIds(l) && OwnIds(l) !! GoneIds(l, next)
  {
  }

  lemma {:induction false} UpdateSwapped(m0: Memory, m1: Memory, m2: Memory, l: Layer, level: nat, order: Order,
                      p: nat, x: KeyInfo, come: Option<Layer>)
    requires Rep(m0, l, level, order) && |Positions(l)| == |Own(l)|
    requires Exchanged(m0, m1, m2, l, level, order, p, x, come)
    requires come.Some? ==> Root(come.value) !in Kept(l, Own(l)[p].next)
    ensures Swapped(m0, m2, l, Updated(l, p, x, come), level, order, Own(l)[p].next, come)
  {
    hide OwnRep, AllIds, OwnIds, Positions;
    ExchangedFrame(m0, m1, m2, l, level, order, p, x, come);
    UpdateOwn(m1, m2, l, p, x, come, level, order);
    LinkedSet(l, p, x, come);
  }

  // A root among the layers that stay is in use already.
  lemma {:induction false} KeptRoot(m: Memory, l: Layer, level: nat, order: Order, gone: Option<Index>, j: Index)
    requires Rep(m, l, level, order) && j in Kept(l, gone)
    ensures j in MapIds(Kept(l, gone))
  {
    RootInside(Kept(l, gone)[j]);
    MapIdsOf(Kept(l, gone), j);
  }

  lemma {:induction false} KeptApart(m: Memory, l: Layer, level: nat, order: Order, gone: Option<Index>)
    requires Rep(m, l, level, order)
    ensures MapIds(Kept(l, gone)) <= m.Keys && GoneIds(l, gone) !! MapIds(Kept(l, gone))
  {
    RepIds(m, l, level, order);
    KeptIds(l, gone);
  }

  lemma {:induction false} ComesFresh(m0: Memory, m1: Memory, l: Layer, level: nat, order: Order, gone: Option<Index>,
                                      come: Option<Layer>)
    requires Rep(m0, l, level, order)
    requires Framed(m0, m1, GoneIds(l, gone), IdsOf(come))
    ensures come.Some? ==> Root(come.value) !in Kept(l, gone)
  {
    hide Rep, AllIds, OwnIds, GoneIds;
    if come.Some? && Root(come.value) in Kept(l, gone) {
      KeptApart(m0, l, level, order, gone);
      FramedWiden(m0, m1, GoneIds(l, gone), IdsOf(come), MapIds(Kept(l, gone)));
      KeptRoot(m0, l, level, order, gone, Root(come.value));
      RootInside(come.value);
      assert false;
    }
  }

  lemma {:induction false} UpdateLayer(m0: Memory, m1: Memory, m2: Memory, l: Layer, level: nat, order: Order,
                    p: nat, x: KeyInfo, come: Option<Layer>)
    requires Rep(m0, l, level, order) && |Positions(l)| == |Own(l)|
    requires Exchanged(m0, m1, m2, l, level, order, p, x, come)
    ensures var l' := Updated(l, p, x, come);
            && Rep(m2, l', level, order) && Root(l') == Root(l) && Own(l') == Own(l)[p := x]
            && Framed(m0, m2, AllIds(l), AllIds(l'))
            && l'.Plain? == l.Plain? && (l.Plain? ==> |l'.bt.items| == |l.bt.items|)
    ensures come.Some? ==> Root(come.value) !in Kept(l, Own(l)[p].next)
  {
    hide Rep, OwnRep, AllIds, OwnIds, Positions;
    var l' := Updated(l, p, x, come);
    ComesFresh(m0, m1, l, level, order, Own(l)[p].next, come);
    UpdateSwapped(m0, m1, m2, l, level, order, p, x, come);
    Swap(m0, m2, l, l', level, order, Own(l)[p].next, come);
    SwapFrame(m0, m2, l, l', level, order, Own(l)[p].next, come);
    ExchangedFrame(m0, m1, m2, l, level, order, p, x, come);
    UpdateOwn(m1, m2, l, p, x, come, level, order);
  }

  // ---------- what the update means ----------

  // The path leads to key p of the layer.
  ghost predicate LeadsTo(l: Layer, p: nat, path: Path) {
    && p < |Own(l)|
    && |path| > Depth(l, p)
    && match l
       case Plain(bt, _, _) => Flat(bt)[p].key == path[0]
       case Packed(_, items, _) => forall i :: 0 <= i <= p ==> path[i] == items[i].key
  }

  // The level of key p, counted from the level of the layer.
  ghost function Depth(l: Layer, p: nat): nat {
    if l.Plain? then 0 else p
  }

  lemma EntryFound(items: seq<KeyInfo>, subs: map<Index, Layer>, p: nat)
    requires Separated(items) && p < |items|
    ensures Find(Entries(items, subs), items[p].key) == p
  {
    EntriesSeparated(items, subs);
    SeparatedAscending(Entries(items, subs));
    FindIs(Entries(items, subs), items[p].key, p);
  }

  lemma {:induction false} PlainUpdateMeaning(l: Layer, p: nat, x: KeyInfo, come: Option<Layer>, path: Path, v: Value)
    requires l.Plain? && Linked(Own(l), l.subs) && Separated(Flat(l.bt)) && |Positions(l)| == |Own(l)|
    requires LeadsTo(l, p, path) && MayBecome(l, p, x) && x.next == RootOf(come)
    requires come.Some? ==> Root(come.value) !in Kept(l, Own(l)[p].next)
    requires Own(Updated(l, p, x, come)) == Own(l)[p := x]
    requires if |path| == 1 then x.value == v && MeaningOf(come) == Below(l.subs, Own(l)[p].next)
             else x.value == Own(l)[p].value && MeaningOf(come) == Insert(Below(l.subs, Own(l)[p].next), path[1..], v)
    ensures Meaning(Updated(l, p, x, come)) == Insert(Meaning(l), path, v)
  {
    hide Meaning, Flat, FlatPos, SetAt;
    var l' := Updated(l, p, x, come);
    MeaningPlain(l.bt, l.h, l.subs);
    MeaningPlain(l'.bt, l'.h, l'.subs);
    EntriesSet(l, p, x, come);
    EntryFound(Flat(l.bt), l.subs, p);
  }

  lemma {:induction false} PackedUpdateMeaning(l: Layer, p: nat, x: KeyInfo, come: Option<Layer>, path: Path, v: Value)
    requires l.Packed? && |Positions(l)| == |Own(l)|
    requires LeadsTo(l, p, path) && x.key == Own(l)[p].key && x.next == RootOf(come)
    requires x.value == v && |path| == p + 1 && p + 1 < |l.items| && x.next == l.items[p].next == None
    ensures Meaning(Updated(l, p, x, come)) == Insert(Meaning(l), path, v)
  {
    hide Meaning, PackedMeaning;
    var l' := Updated(l, p, x, come);
    MeaningPacked(l.id, l.items, l.subs);
    MeaningPacked(l.id, l'.items, l'.subs);
    assert l'.subs == l.subs;
    assert l.items[p := x] == l.items[p := Item(l.items[p].key, v, l.items[p].next)];
    PackedMeaningSet(l.items, Below(l.subs, l.items[|l.items| - 1].next), path, v, p);
  }

  lemma PackedLastMeaning(l: Layer, x: KeyInfo, come: Option<Layer>)
    requires l.Packed? && l.items != [] && |Positions(l)| == |Own(l)| && x.next == RootOf(come)
    ensures var p := |l.items| - 1;
            Meaning(Updated(l, p, x, come)) == PackedMeaning(l.items[p := x], MeaningOf(come))
  {
    var p := |l.items| - 1;
    var l' := Updated(l, p, x, come);
    MeaningPacked(l.id, l'.items, l'.subs);
  }

  lemma {:induction false} PackedThroughMeaning(l: Layer, x: KeyInfo, come: Option<Layer>, path: Path, v: Value)
    requires l.Packed? && l.items != [] && |Positions(l)| == |Own(l)|
    requires LeadsTo(l, |l.items| - 1, path) && x.key == l.items[|l.items| - 1].key && x.next == RootOf(come)
    requires if |path| == |l.items| then
               x.value == v && MeaningOf(come) == Below(l.subs, l.items[|l.items| - 1].next)
             else
               && x.value == l.items[|l.items| - 1].value
               && MeaningOf(come) == Insert(Below(l.subs, l.items[|l.items| - 1].next), path[|l.items|..], v)
    ensures Meaning(Updated(l, |l.items| - 1, x, come)) == Insert(Meaning(l), path, v)
  {
    hide Meaning, PackedMeaning, Insert, Updated, Positions;
    var p := |l.items| - 1;
    PackedLastMeaning(l, x, come);
    MeaningPacked(l.id, l.items, l.subs);
    var below := Below(l.subs, l.items[p].next);
    if |path| == |l.items| {
      PackedMeaningSet(l.items, below, path, v, p);
      PackedNextFree(l.items, p, Item(l.items[p].key, v, l.items[p].next), x.next, below);
    } else {
      PackedMeaningThrough(l.items, below, path, v);
      PackedNextFree(l.items, p, l.items[p], x.next, MeaningOf(come));
      assert l.items[p := l.items[p]] == l.items;
    }
  }

  // Which layer a key points to is not part of the meaning of the keys.
  lemma {:induction false} PackedNextFree(items: seq<KeyInfo>, p: nat, x: KeyInfo, next: Option<Index>, below: Trie)
    requires p < |items|
    ensures PackedMeaning(items[p := x], below) == PackedMeaning(items[p := Item(x.key, x.value, next)], below)
  {
    var y := Item(x.key, x.value, next);
    if p == 0 {
      assert items[0 := x][1..] == items[0 := y][1..];
    } else {
      assert items[p := x][1..] == items[1..][p - 1 := x] && items[p := y][1..] == items[1..][p - 1 := y];
      PackedNextFree(items[1..], p - 1, x, next, below);
    }
  }

  // The key keeps its place; either its value or what lies below it is what the path writes.
  ghost predicate Writes(l: Layer, p: nat, x: KeyInfo, come: Option<Layer>, path: Path, v: Value) {
    && LeadsTo(l, p, path)
    && MayBecome(l, p, x) && x.next == RootOf(come)
    && (if |path| == Depth(l, p) + 1 then
          x.value == v && x.next == Own(l)[p].next && MeaningOf(come) == Below(l.subs, Own(l)[p].next)
        else
          && Depth(l, p) + 1 == Span(l)
          && x.value == Own(l)[p].value
          && MeaningOf(come) == Insert(Below(l.subs, Own(l)[p].next), path[Span(l)..], v))
  }

  lemma {:induction false} UpdateMeaning(m0: Memory, l: Layer, level: nat, order: Order, p: nat, x: KeyInfo,
                                         come: Option<Layer>, path: Path, v: Value)
    requires Rep(m0, l, level, order) && |Positions(l)| == |Own(l)|
    requires Writes(l, p, x, come, path, v)
    requires come.Some? ==> Root(come.value) !in Kept(l, Own(l)[p].next)
    requires Own(Updated(l, p, x, come)) == Own(l)[p := x]
    ensures Meaning(Updated(l, p, x, come)) == Insert(Meaning(l), path, v)
  {
    hide Meaning, PackedMeaning, Insert, Updated, Positions;
    if l.Plain? {
      PlainUpdateMeaning(l, p, x, come, path, v);
    } else if p + 1 < |l.items| {
      PackedUpdateMeaning(l, p, x, come, path, v);
    } else {
      PackedThroughMeaning(l, x, come, path, v);
    }
  }

  // A change below one key, as a change of the layer.
  lemma {:induction false} InsertedBelow(m0: Memory, m1: Memory, m2: Memory, l: Layer, level: nat, order: Order,
                      p: nat, x: KeyInfo, come: Option<Layer>, path: Path, v: Value)
    requires Rep(m0, l, level, order) && |Positions(l)| == |Own(l)|
    requires Exchanged(m0, m1, m2, l, level, order, p, x, come)
    requires Writes(l, p, x, come, path, v)
    ensures path != [] && LayerInserted(m0, m2, l, Updated(l, p, x, come), level, order, path, v)
    ensures Root(Updated(l, p, x, come)) == Root(l)
  {
    hide Rep, AllIds, Meaning, Insert, Updated, Positions;
    UpdateLayer(m0, m1, m2, l, level, order, p, x, come);
    UpdateMeaning(m0, l, level, order, p, x, come, path, v);
  }
}
