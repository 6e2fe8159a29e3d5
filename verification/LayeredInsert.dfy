/** Inserting a rule into a layered tree (BTreeInsert::insert and what it calls). */
module LayeredInsert {
  import opened Items
  import opened Nodes
  import opened BTrees
  import opened Tries
  import opened Layers
  import opened LayerUpdates
  import opened LayerSearch
  import opened LayerPaths
  import opened LayerDescent

  // ---------- which path an insertion writes ----------

  // A rule that needs `req` levels ends there, or, if stored keys agree with more of it
  // than that, where the agreement ends.
  ghost function EndOf(t: Trie, full: Path, level: nat, req: nat): (end: nat)
    requires level < req <= |full|
    ensures level < req <= end <= |full|
  {
    var m := level + MatchLen(t, full[level..]);
    if m < req then req else m
  }

  // The rule can go into this layer: where it leaves the stored keys it is disjoint from them.
  ghost predicate Accepts(m: Memory, l: Option<Layer>, level: nat, order: Order, full: Path, req: nat) {
    && level < req <= |full| == D
    && RepOf(m, l, level, order)
    && Fits(MeaningOf(l), full[level..EndOf(MeaningOf(l), full, level, req)])
  }

  // ---------- collision freedom, one layer down ----------

  lemma {:induction false} PackedFits(items: seq<KeyInfo>, below: Trie, path: Path)
    requires |items| <= |path| && forall i :: 0 <= i < |items| ==> path[i] == items[i].key
    requires Fits(PackedMeaning(items, below), path)
    ensures Fits(below, path[|items|..])
  {
    if items == [] {
      assert path[0..] == path;
    } else {
      assert Find(PackedMeaning(items, below).entries, path[0]) == 0;
      assert path[1..][|items| - 1..] == path[|items|..];
      PackedFits(items[1..], below, path[1..]);
    }
  }

  lemma {:induction false} FitsUnderPlain(m: Memory, l: Layer, level: nat, order: Order, p: nat, path: Path)
    requires l.Plain? && Rep(m, l, level, order) && p < |Own(l)| && path != [] && path[0] == Own(l)[p].key
    requires Fits(Meaning(l), path)
    ensures Fits(Below(l.subs, Own(l)[p].next), path[1..])
  {
    hide Rep, Meaning, Flat, Below;
    RootNode(m, l, level, order);
    MeaningPlain(l.bt, l.h, l.subs);
    EntryFound(Flat(l.bt), l.subs, p);
  }

  lemma {:induction false} FitsUnder(m: Memory, l: Layer, level: nat, order: Order, ks: Path, path: Path)
    requires Rep(m, l, level, order) && 0 < Agreed(l, ks) == Span(l) <= |path| && path <= ks
    requires Fits(Meaning(l), path)
    ensures Fits(MeaningOf(Onward(l, ks)), path[Span(l)..])
  {
    hide Rep, Meaning, Fits, Flat, Below;
    var p := Reached(l, ks);
    BelowIs(m, l, level, order, p);
    assert forall i :: 0 <= i < |path| ==> path[i] == ks[i];
    if l.Plain? {
      FitsUnderPlain(m, l, level, order, p, path);
    } else {
      RootNode(m, l, level, order);
      MeaningPacked(l.id, l.items, l.subs);
      PackedFits(l.items, Below(l.subs, l.items[p].next), path);
    }
  }

  // Where the insertion ends does not depend on where it is looked at.
  lemma SameEnd(t: Trie, t': Trie, full: Path, level: nat, req: nat, a: nat)
    requires level + a < req <= |full|
    requires MatchLen(t, full[level..]) == a + MatchLen(t', full[level + a..])
    ensures EndOf(t', full, level + a, req) == EndOf(t, full, level, req)
  {
  }

  lemma {:induction false} AgreedEnd(m: Memory, l: Layer, level: nat, order: Order, full: Path, req: nat)
    requires level < req <= |full| == D && Rep(m, l, level, order)
    requires Agreed(l, full[level..]) == Span(l) > 0 && level + Span(l) < req
    ensures var t' := MeaningOf(Onward(l, full[level..]));
            && MatchLen(Meaning(l), full[level..]) == Span(l) + MatchLen(t', full[level + Span(l)..])
            && EndOf(t', full, level + Span(l), req) == EndOf(Meaning(l), full, level, req)
  {
    hide Rep, Meaning, Agreed, EndOf, Onward;
    AgreedMatch(m, l, level, order, full[level..]);
    assert full[level..][Span(l)..] == full[level + Span(l)..];
    SameEnd(Meaning(l), MeaningOf(Onward(l, full[level..])), full, level, req, Span(l));
  }

  // What is left of the rule can go below the last key that it agrees with.
  lemma {:induction false} AcceptsUnder(m: Memory, l: Layer, level: nat, order: Order, full: Path, req: nat)
    requires Accepts(m, Some(l), level, order, full, req)
    requires Agreed(l, full[level..]) == Span(l) > 0 && level + Span(l) < req
    ensures Accepts(m, Onward(l, full[level..]), level + Span(l), order, full, req)
    ensures EndOf(MeaningOf(Onward(l, full[level..])), full, level + Span(l), req)
            == EndOf(Meaning(l), full, level, req)
  {
    hide Rep, Meaning, Agreed, Fits, Reached, MatchLen, EndOf;
    var ks := full[level..];
    var end := EndOf(Meaning(l), full, level, req);
    AgreedEnd(m, l, level, order, full, req);
    BelowIs(m, l, level, order, Reached(l, ks));
    assert full[level..end] == ks[..end - level];
    assert full[level..end][Span(l)..] == full[level + Span(l)..end];
    FitsUnder(m, l, level, order, ks, full[level..end]);
  }

  // The rule can go into the deepest layer that it reaches, and ends there where it ends anyway.
  ghost predicate DeepReady(m: Memory, l: Layer, level: nat, order: Order, full: Path, req: nat)
    requires level < req <= |full|
    requires Agreed(l, full[level..]) > 0
  {
    var ks := full[level..];
    var d, off := Deepest(l, ks), Offset(l, ks);
    && level + off < req
    && Accepts(m, Some(d), level + off, order, full, req)
    && EndOf(Meaning(d), full, level + off, req) == EndOf(Meaning(l), full, level, req)
  }

  lemma {:induction false} AcceptsDeep(m: Memory, l: Layer, level: nat, order: Order, full: Path, req: nat)
    requires Accepts(m, Some(l), level, order, full, req) && Agreed(l, full[level..]) > 0
    requires level + MatchLen(Meaning(l), full[level..]) < req
    ensures DeepReady(m, l, level, order, full, req)
    decreases D - level
  {
    hide Rep, Meaning, Agreed, Fits, MatchLen, EndOf, Onward, Deepest, Offset;
    var ks := full[level..];
    if GoesOn(l, ks) {
      var s, a := Onward(l, ks).value, Agreed(l, ks);
      assert ks[a..] == full[level + a..];
      AgreedMatch(m, l, level, order, ks);
      AcceptsUnder(m, l, level, order, full, req);
      AcceptsDeep(m, s, level + a, order, full, req);
      GoesDeeper(l, ks);
    } else {
      StaysThere(l, ks);
    }
  }
}
