/** Exchanging the order of the fields behind the levels that a tree takes. */
module LayerOrders {
  import opened Items
  import opened Nodes
  import opened BTrees
  import opened BTreeRemove
  import opened Tries
  import opened Layers

  // Orders that a tree of n levels cannot tell apart: a compressed node names the fields of
  // its levels, and takes two of them at least.
  ghost predicate SameLevels(order: Order, order': Order, n: nat) {
    |order| == |order'| == D && n <= D && (n <= 1 || order[..n] == order'[..n])
  }

  lemma {:induction false} NextsHold(items: seq<KeyInfo>, j: Index) returns (i: nat)
    requires j in Nexts(items)
    ensures i < |items| && items[i].next == Some(j)
  {
    if items[0].next == Some(j) {
      i := 0;
    } else {
      i := NextsHold(items[1..], j);
      i := i + 1;
    }
  }

  lemma {:induction false} PackedBelowWF(items: seq<KeyInfo>, below: Trie, d: nat)
    requires WF(PackedMeaning(items, below), d)
    ensures |items| <= d && WF(below, d - |items|)
  {
    if items != [] {
      var t := PackedMeaning(items, below);
      assert t.entries[0].next == PackedMeaning(items[1..], below);
      PackedBelowWF(items[1..], below, d - 1);
    }
  }

  // Where a layer fits into the levels left, so does each one below it.
  lemma {:induction false} SpanFits(m: Memory, l: Layer, level: nat, order: Order, n: nat)
    requires Rep(m, l, level, order) && level <= n && WF(Meaning(l), n - level)
    ensures level + Span(l) <= n
  {
    match l
    case Plain(bt, h, subs) =>
      MeaningPlain(bt, h, subs);
      FlatNonEmpty(m, bt, None, h);
    case Packed(id, items, subs) =>
      MeaningPacked(id, items, subs);
      PackedBelowWF(items, Below(subs, items[|items| - 1].next), n - level);
  }

  // The key that a layer below hangs on: the last one of a compressed node.
  lemma {:induction false} HangsOn(m: Memory, l: Layer, level: nat, order: Order, j: Index) returns (i: nat)
    requires Rep(m, l, level, order) && j in l.subs
    ensures i < |Own(l)| && Own(l)[i].next == Some(j) && (l.Packed? ==> i == |l.items| - 1)
  {
    hide SubsRep, SubsApart, Sub, Separated, Flat;
    i := NextsHold(Own(l), j);
  }

  lemma {:induction false} BelowFits(m: Memory, l: Layer, level: nat, order: Order, n: nat, j: Index)
    requires Rep(m, l, level, order) && level <= n && WF(Meaning(l), n - level) && j in l.subs
    ensures level + Span(l) <= n && WF(Meaning(l.subs[j]), n - level - Span(l))
  {
    hide Rep, Meaning, Flat;
    SpanFits(m, l, level, order, n);
    var i := HangsOn(m, l, level, order, j);
    match l
    case Plain(bt, h, subs) =>
      MeaningPlain(bt, h, subs);
      assert Entries(Flat(bt), subs)[i].next == Meaning(subs[j]);
    case Packed(id, items, subs) =>
      MeaningPacked(id, items, subs);
      PackedBelowWF(items, Below(subs, items[|items| - 1].next), n - level);
  }

  /** The nodes stand for the same tree in either order. */
  lemma {:induction false} Reordered(m: Memory, l: Layer, level: nat, order: Order, order': Order, n: nat)
    requires Rep(m, l, level, order) && level <= n && WF(Meaning(l), n - level) && SameLevels(order, order', n)
    ensures Rep(m, l, level, order')
    decreases l
  {
    hide OwnRep, Linked, SubsApart, Meaning, WF, SameLevels, Span;
    SpanFits(m, l, level, order, n);
    forall j | j in l.subs
      ensures Rep(m, l.subs[j], level + Span(l), order')
    {
      BelowFits(m, l, level, order, n, j);
      Reordered(m, l.subs[j], level + Span(l), order, order', n);
    }
    OwnReordered(m, l, level, order, order', n);
    RepIntro(m, l, level, order');
  }

  lemma OwnReordered(m: Memory, l: Layer, level: nat, order: Order, order': Order, n: nat)
    requires OwnRep(m, l, level, order) && level + Span(l) <= n && SameLevels(order, order', n)
    ensures OwnRep(m, l, level, order')
  {
    if l.Packed? {
      forall k | level <= k < level + |l.items|
        ensures order[k] == order'[k]
      {
        assert order[..n][k] == order'[..n][k];
      }
    }
  }
}
