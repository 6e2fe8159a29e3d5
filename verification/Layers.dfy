/**
 * Layered trees, seen as values.
 *
 * A layer is either the B-tree of one level or one compressed node, which holds the keys
 * of several levels of which each has a single key. `Rep` says that the memory holds
 * the layer and everything below it; `Meaning` forgets the nodes.
 */
module Layers {
  import opened Items
  import opened Nodes
  import opened BTrees
  import opened Tries

  datatype Layer =
    | Plain(bt: BT, h: nat, subs: map<Index, Layer>)
    | Packed(id: Index, items: seq<KeyInfo>, subs: map<Index, Layer>)

  function Root(l: Layer): Index {
    match l
    case Plain(bt, _, _) => bt.id
    case Packed(id, _, _) => id
  }

  function RootOf(l: Option<Layer>): Option<Index> {
    match l
    case None => None
    case Some(x) => Some(Root(x))
  }

  // The keys of the layer: one level in order, or one key per level.
  ghost function Own(l: Layer): seq<KeyInfo> {
    match l
    case Plain(bt, _, _) => Flat(bt)
    case Packed(_, items, _) => items
  }

  // How many levels the layer takes.
  ghost function Span(l: Layer): nat {
    match l
    case Plain(_, _, _) => 1
    case Packed(_, items, _) => |items|
  }

  ghost function OwnIds(l: Layer): set<Index> {
    match l
    case Plain(bt, _, _) => Ids(bt)
    case Packed(id, _, _) => {id}
  }

  ghost function AllIds(l: Layer): set<Index>
    decreases l, 1
  {
    OwnIds(l) + BelowIds(l)
  }

  ghost function BelowIds(l: Layer): set<Index>
    decreases l, 0
  {
    set j, x | j in l.subs && x in AllIds(l.subs[j]) :: x
  }

  ghost function IdsOf(l: Option<Layer>): set<Index> {
    match l
    case None => {}
    case Some(x) => AllIds(x)
  }

  // ---------- meaning ----------

  // One single-key level per item, on top of what lies below the last one.
  ghost function PackedMeaning(items: seq<KeyInfo>, below: Trie): Trie {
    if items == [] then below
    else Trie([Item(items[0].key, items[0].value, PackedMeaning(items[1..], below))])
  }

  ghost function Meaning(l: Layer): Trie
    decreases l, 1
  {
    match l
    case Plain(bt, _, _) =>
      Trie(seq(|Flat(bt)|, i requires 0 <= i < |Flat(bt)| =>
        Item(Flat(bt)[i].key, Flat(bt)[i].value, MeaningOfSub(l, Flat(bt)[i].next))))
    case Packed(_, items, _) =>
      PackedMeaning(items, if items == [] then EMPTY else MeaningOfSub(l, items[|items| - 1].next))
  }

  ghost function MeaningOfSub(l: Layer, next: Option<Index>): Trie
    decreases l, 0
  {
    if next.Some? && next.value in l.subs then Meaning(l.subs[next.value]) else EMPTY
  }

  ghost function MeaningOf(l: Option<Layer>): Trie {
    match l
    case None => EMPTY
    case Some(x) => Meaning(x)
  }

  ghost function Below(subs: map<Index, Layer>, next: Option<Index>): Trie {
    if next.Some? && next.value in subs then Meaning(subs[next.value]) else EMPTY
  }

  ghost function AsEntry(x: KeyInfo, subs: map<Index, Layer>): Entry {
    Item(x.key, x.value, Below(subs, x.next))
  }

  ghost function Entries(items: seq<KeyInfo>, subs: map<Index, Layer>): (r: seq<Entry>)
    ensures |r| == |items|
    ensures forall i :: 0 <= i < |items| ==> r[i] == AsEntry(items[i], subs)
  {
    seq(|items|, i requires 0 <= i < |items| => AsEntry(items[i], subs))
  }

  lemma {:induction false} MeaningPlain(bt: BT, h: nat, subs: map<Index, Layer>)
    ensures Meaning(Plain(bt, h, subs)) == Trie(Entries(Flat(bt), subs))
  {
    var l := Plain(bt, h, subs);
    assert Meaning(l).entries == Entries(Flat(bt), subs);
  }

  lemma {:induction false} MeaningPacked(id: Index, items: seq<KeyInfo>, subs: map<Index, Layer>)
    requires items != []
    ensures Meaning(Packed(id, items, subs)) == PackedMeaning(items, Below(subs, items[|items| - 1].next))
  {
  }

  lemma {:induction false} PackedMeaningConcat(a: seq<KeyInfo>, b: seq<KeyInfo>, below: Trie)
    ensures PackedMeaning(a + b, below) == PackedMeaning(a, PackedMeaning(b, below))
  {
    if a == [] {
      assert a + b == b;
    } else {
      assert (a + b)[1..] == a[1..] + b;
      PackedMeaningConcat(a[1..], b, below);
    }
  }

  // ---------- the layer in memory ----------

  ghost predicate HoldsPacked(n: Node, items: seq<KeyInfo>, level: nat, order: Order) {
    && n.parent == None
    && n.isLeaf && n.isCompressed
    && Keys(n) == items
    && |items| >= 2
    && level + |items| <= D <= |order|
    && (forall i :: 0 <= i < |items| ==> n.dims[i] == order[level + i])
    && (forall i :: 0 <= i < |items| ==> items[i].key.Valid())
    && (forall i :: 0 <= i < |items| - 1 ==> items[i].next == None)
    && (forall i :: 0 <= i <= MAX_DEGREE ==> n.children[i] == None)
  }

  ghost predicate OwnRep(m: Memory, l: Layer, level: nat, order: Order) {
    match l
    case Plain(bt, h, _) =>
      Sub(m, bt, None, h) && |bt.items| >= 1 && Separated(Flat(bt)) && level < D
    case Packed(id, items, _) =>
      id in m && HoldsPacked(m[id], items, level, order)
  }

  ghost function NextOf(x: KeyInfo): multiset<Index> {
    if x.next.Some? then multiset{x.next.value} else multiset{}
  }

  // The next-layer pointers that the keys hold, each as often as it is held.
  ghost function Nexts(items: seq<KeyInfo>): multiset<Index> {
    if items == [] then multiset{} else NextOf(items[0]) + Nexts(items[1..])
  }

  // The keys point to exactly the layers below, and to each of them once.
  ghost predicate Linked(items: seq<KeyInfo>, subs: map<Index, Layer>) {
    && Nexts(items) == multiset(subs.Keys)
    && (forall j :: j in subs ==> Root(subs[j]) == j)
  }

  ghost predicate SubsApart(own: set<Index>, subs: map<Index, Layer>) {
    && (forall j :: j in subs ==> AllIds(subs[j]) !! own)
    && (forall j, k :: j in subs && k in subs && j != k ==> AllIds(subs[j]) !! AllIds(subs[k]))
  }

  ghost predicate Rep(m: Memory, l: Layer, level: nat, order: Order)
    decreases l, 1
  {
    && OwnRep(m, l, level, order)
    && Linked(Own(l), l.subs)
    && SubsApart(OwnIds(l), l.subs)
    && SubsRep(m, l, level + Span(l), order)
  }

  ghost predicate SubsRep(m: Memory, l: Layer, level: nat, order: Order)
    decreases l, 0
  {
    forall j :: j in l.subs ==> Rep(m, l.subs[j], level, order)
  }

  ghost predicate RepOf(m: Memory, l: Option<Layer>, level: nat, order: Order) {
    l.Some? ==> Rep(m, l.value, level, order)
  }

  lemma {:induction false} NextsConcat(a: seq<KeyInfo>, b: seq<KeyInfo>)
    ensures Nexts(a + b) == Nexts(a) + Nexts(b)
  {
    hide Nexts, NextOf;
    if a == [] {
      assert a + b == b;
      NextsOfNone();
    } else {
      NextsConcat(a[1..], b);
      assert (a + b)[1..] == a[1..] + b && (a + b)[0] == a[0];
      NextsFirst(a);
      NextsFirst(a + b);
      SumRegroup(NextOf(a[0]), Nexts(a[1..]), Nexts(b));
    }
  }

  lemma NextsOfNone()
    ensures Nexts([]) == multiset{}
  {
  }

  lemma {:induction false} NextsFirst(items: seq<KeyInfo>)
    requires items != []
    ensures Nexts(items) == NextOf(items[0]) + Nexts(items[1..])
  {
  }

  lemma {:induction false} NextsAt(items: seq<KeyInfo>, i: nat)
    requires i < |items|
    ensures Nexts(items) == Nexts(items[..i]) + NextOf(items[i]) + Nexts(items[i + 1..])
    ensures items[i].next.Some? ==> items[i].next.value in Nexts(items)
  {
    assert items == items[..i] + items[i..];
    NextsConcat(items[..i], items[i..]);
    SumRegroup(Nexts(items[..i]), NextOf(items[i]), Nexts(items[i + 1..]));
  }

  lemma {:induction false} RootInside(l: Layer)
    ensures Root(l) in OwnIds(l) && OwnIds(l) <= AllIds(l)
  {
  }

  lemma {:induction false} SubInside(l: Layer, j: Index)
    requires j in l.subs
    ensures AllIds(l.subs[j]) <= BelowIds(l) <= AllIds(l)
  {
  }

  lemma {:induction false} RepIds(m: Memory, l: Layer, level: nat, order: Order)
    requires Rep(m, l, level, order)
    ensures AllIds(l) <= m.Keys
    decreases l
  {
    if l.Plain? {
      SubIds(m, l.bt, None, l.h);
    }
    forall j | j in l.subs
      ensures AllIds(l.subs[j]) <= m.Keys
    {
      RepIds(m, l.subs[j], level + Span(l), order);
    }
  }

  lemma OwnFrame(m0: Memory, m1: Memory, l: Layer, level: nat, order: Order)
    requires OwnRep(m0, l, level, order) && Same(m0, m1, OwnIds(l))
    ensures OwnRep(m1, l, level, order)
  {
    if l.Plain? {
      SubFrame(m0, m1, l.bt, None, l.h);
    }
  }

  lemma {:induction false} RepFrame(m0: Memory, m1: Memory, l: Layer, level: nat, order: Order)
    requires Rep(m0, l, level, order) && Same(m0, m1, AllIds(l))
    ensures Rep(m1, l, level, order)
    decreases l, 1
  {
    OwnFrame(m0, m1, l, level, order);
    SubsRepFrame(m0, m1, l, level + Span(l), order);
  }

  lemma {:induction false} SubsRepFrame(m0: Memory, m1: Memory, l: Layer, level: nat, order: Order)
    requires SubsRep(m0, l, level, order) && Same(m0, m1, BelowIds(l))
    ensures SubsRep(m1, l, level, order)
    decreases l, 0
  {
    forall j | j in l.subs
      ensures Rep(m1, l.subs[j], level, order)
    {
      SubInside(l, j);
      RepFrame(m0, m1, l.subs[j], level, order);
    }
  }

  // ---------- the meaning is well formed ----------

  lemma {:induction false} MeaningWF(m: Memory, l: Layer, level: nat, order: Order)
    requires Rep(m, l, level, order)
    ensures level <= D && WF(Meaning(l), D - level)
    decreases l
  {
    forall j | j in l.subs
      ensures level + Span(l) <= D && WF(Meaning(l.subs[j]), D - level - Span(l))
    {
      MeaningWF(m, l.subs[j], level + Span(l), order);
    }
    match l
    case Plain(bt, h, subs) =>
      MeaningPlain(bt, h, subs);
      var es := Entries(Flat(bt), subs);
      forall i | 0 <= i < |es|
        ensures WF(es[i].next, D - level - 1)
      {
        assert es[i] == AsEntry(Flat(bt)[i], subs);
      }
      EntriesSeparated(Flat(bt), subs);
    case Packed(id, items, subs) =>
      MeaningPacked(id, items, subs);
      var below := Below(subs, items[|items| - 1].next);
      assert WF(below, D - level - |items|);
      PackedWF(items, below, D - level);
  }

  lemma EntriesSeparated(items: seq<KeyInfo>, subs: map<Index, Layer>)
    requires Separated(items)
    ensures Separated(Entries(items, subs))
  {
    var es := Entries(items, subs);
    assert forall i :: 0 <= i < |es| ==> es[i].key == items[i].key;
  }

  lemma {:induction false} PackedWF(items: seq<KeyInfo>, below: Trie, d: nat)
    requires |items| <= d && WF(below, d - |items|)
    requires forall i :: 0 <= i < |items| ==> items[i].key.Valid()
    ensures WF(PackedMeaning(items, below), d)
  {
    if items != [] {
      assert forall i :: 0 <= i < |items| - 1 ==> items[1..][i] == items[i + 1];
      PackedWF(items[1..], below, d - 1);
    }
  }

  // ---------- a step on a layer's own nodes and on one layer below ----------

  ghost function MapIds(subs: map<Index, Layer>): set<Index> {
    set j, x | j in subs && x in AllIds(subs[j]) :: x
  }

  ghost function GoneIds(l: Layer, gone: Option<Index>): set<Index> {
    if gone.Some? && gone.value in l.subs then AllIds(l.subs[gone.value]) else {}
  }

  ghost function Kept(l: Layer, gone: Option<Index>): map<Index, Layer> {
    if gone.Some? then l.subs - {gone.value} else l.subs
  }

  ghost function WithSub(subs: map<Index, Layer>, come: Option<Layer>): map<Index, Layer> {
    if come.Some? then subs[Root(come.value) := come.value] else subs
  }

  lemma MapIdsOf(subs: map<Index, Layer>, j: Index)
    requires j in subs
    ensures AllIds(subs[j]) <= MapIds(subs)
  {
  }

  lemma {:induction false} KeptIds(l: Layer, gone: Option<Index>)
    requires SubsApart(OwnIds(l), l.subs)
    ensures AllIds(l) == OwnIds(l) + GoneIds(l, gone) + MapIds(Kept(l, gone))
    ensures MapIds(Kept(l, gone)) !! OwnIds(l)
    ensures MapIds(Kept(l, gone)) !! GoneIds(l, gone)
  {
    var kept := Kept(l, gone);
    forall x | x in BelowIds(l)
      ensures x in GoneIds(l, gone) + MapIds(kept)
    {
      var j :| j in l.subs && x in AllIds(l.subs[j]);
      if j in kept {
        MapIdsOf(kept, j);
      }
    }
    forall x | x in MapIds(kept)
      ensures x in BelowIds(l) && x !in OwnIds(l) && x !in GoneIds(l, gone)
    {
      var j :| j in kept && x in AllIds(kept[j]);
      assert kept[j] == l.subs[j];
    }
  }

  lemma {:induction false} CameIds(l: Layer, subs: map<Index, Layer>, come: Option<Layer>)
    requires l.subs == WithSub(subs, come)
    requires come.Some? ==> Root(come.value) !in subs
    ensures AllIds(l) == OwnIds(l) + IdsOf(come) + MapIds(subs)
  {
    if come.Some? {
      assert l.subs[Root(come.value)] == come.value;
    }
    forall j | j in subs
      ensures j in l.subs && l.subs[j] == subs[j]
    {
    }
    assert BelowIds(l) == IdsOf(come) + MapIds(subs);
  }

  // Own nodes change, one layer below may go and one may come; the rest is untouched.
  ghost predicate Swapped(m0: Memory, m1: Memory, l: Layer, l': Layer, level: nat, order: Order,
                          gone: Option<Index>, come: Option<Layer>) {
    && Span(l') == Span(l)
    && l'.subs == WithSub(Kept(l, gone), come)
    && OwnRep(m1, l', level, order)
    && Linked(Own(l'), l'.subs)
    && Framed(m0, m1, OwnIds(l) + GoneIds(l, gone), OwnIds(l') + IdsOf(come))
    && OwnIds(l') !! IdsOf(come)
    && RepOf(m1, come, level + Span(l), order)
  }

  lemma {:induction false} SwapFrame(m0: Memory, m1: Memory, l: Layer, l': Layer, level: nat, order: Order,
                  gone: Option<Index>, come: Option<Layer>)
    requires Rep(m0, l, level, order)
    requires Swapped(m0, m1, l, l', level, order, gone, come)
    ensures Framed(m0, m1, AllIds(l), AllIds(l'))
    ensures Same(m0, m1, MapIds(Kept(l, gone)))
    ensures MapIds(Kept(l, gone)) !! OwnIds(l') && MapIds(Kept(l, gone)) !! IdsOf(come)
    ensures come.Some? ==> Root(come.value) !in Kept(l, gone)
  {
    var kept := Kept(l, gone);
    KeptIds(l, gone);
    RepIds(m0, l, level, order);
    FramedWiden(m0, m1, OwnIds(l) + GoneIds(l, gone), OwnIds(l') + IdsOf(come), MapIds(kept));
    if come.Some? && Root(come.value) in kept {
      RootInside(come.value);
      RootInside(kept[Root(come.value)]);
      assert false;
    }
    CameIds(l', kept, come);
  }

  lemma {:induction false} RepIntro(m: Memory, l: Layer, level: nat, order: Order)
    requires OwnRep(m, l, level, order)
    requires Linked(Own(l), l.subs)
    requires SubsApart(OwnIds(l), l.subs)
    requires SubsRep(m, l, level + Span(l), order)
    ensures Rep(m, l, level, order)
  {
  }

  lemma {:induction false} Swap(m0: Memory, m1: Memory, l: Layer, l': Layer, level: nat, order: Order,
             gone: Option<Index>, come: Option<Layer>)
    requires Rep(m0, l, level, order)
    requires Swapped(m0, m1, l, l', level, order, gone, come)
    ensures Rep(m1, l', level, order)
  {
    SwapStillApart(m0, m1, l, l', level, order, gone, come);
    SwapStillRep(m0, m1, l, l', level, order, gone, come);
    RepIntro(m1, l', level, order);
  }

  lemma {:induction false} SwapStillApart(m0: Memory, m1: Memory, l: Layer, l': Layer, level: nat, order: Order,
                       gone: Option<Index>, come: Option<Layer>)
    requires Rep(m0, l, level, order)
    requires Swapped(m0, m1, l, l', level, order, gone, come)
    ensures SubsApart(OwnIds(l'), l'.subs)
  {
    SwapFrame(m0, m1, l, l', level, order, gone, come);
    SwapApart(l, l', gone, come);
  }

  lemma {:induction false} RepBelow(m: Memory, l: Layer, level: nat, order: Order)
    requires Rep(m, l, level, order)
    ensures SubsRep(m, l, level + Span(l), order)
  {
  }

  lemma {:induction false} SwapStillRep(m0: Memory, m1: Memory, l: Layer, l': Layer, level: nat, order: Order,
                     gone: Option<Index>, come: Option<Layer>)
    requires Rep(m0, l, level, order)
    requires Swapped(m0, m1, l, l', level, order, gone, come)
    ensures SubsRep(m1, l', level + Span(l'), order)
  {
    hide Rep, AllIds, SubsRep, MapIds, Kept, WithSub;
    RepBelow(m0, l, level, order);
    SwapFrame(m0, m1, l, l', level, order, gone, come);
    SwapRep(m0, m1, l, l', level + Span(l'), order, gone, come);
  }

  lemma {:induction false} SwapRep(m0: Memory, m1: Memory, l: Layer, l': Layer, level: nat, order: Order,
                gone: Option<Index>, come: Option<Layer>)
    requires SubsRep(m0, l, level, order) && l'.subs == WithSub(Kept(l, gone), come)
    requires Same(m0, m1, MapIds(Kept(l, gone))) && RepOf(m1, come, level, order)
    ensures SubsRep(m1, l', level, order)
  {
    var kept := Kept(l, gone);
    forall j | j in l'.subs
      ensures Rep(m1, l'.subs[j], level, order)
    {
      if come.Some? && j == Root(come.value) {
      } else {
        MapIdsOf(kept, j);
        RepFrame(m0, m1, l.subs[j], level, order);
      }
    }
  }

  lemma SwapApart(l: Layer, l': Layer, gone: Option<Index>, come: Option<Layer>)
    requires SubsApart(OwnIds(l), l.subs) && l'.subs == WithSub(Kept(l, gone), come)
    requires MapIds(Kept(l, gone)) !! OwnIds(l') && MapIds(Kept(l, gone)) !! IdsOf(come)
    requires OwnIds(l') !! IdsOf(come)
    ensures SubsApart(OwnIds(l'), l'.subs)
  {
    var kept := Kept(l, gone);
    forall j | j in l'.subs && j in kept && !(come.Some? && j == Root(come.value))
      ensures l'.subs[j] == l.subs[j] && AllIds(l'.subs[j]) <= MapIds(kept)
    {
      MapIdsOf(kept, j);
    }
  }

  // The case in which no layer below goes away.
  lemma AddedSwapped(m0: Memory, m1: Memory, l: Layer, l': Layer, level: nat, next: nat, order: Order,
                     come: Option<Layer>)
    requires Span(l') == Span(l) && l'.subs == WithSub(l.subs, come)
    requires OwnRep(m1, l', level, order) && Linked(Own(l'), l'.subs)
    requires Framed(m0, m1, OwnIds(l), OwnIds(l') + IdsOf(come)) && OwnIds(l') !! IdsOf(come)
    requires next == level + Span(l) && RepOf(m1, come, next, order)
    ensures Swapped(m0, m1, l, l', level, order, None, come)
  {
    hide Rep, AllIds, Sub, Ids;
    assert OwnIds(l) + GoneIds(l, None) == OwnIds(l);
  }
}
