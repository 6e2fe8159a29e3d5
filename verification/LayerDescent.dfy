/** From an insertion in the deepest layer a rule reaches to an insertion in the whole tree. */
module LayerDescent {
  import opened Items
  import opened Nodes
  import opened BTrees
  import opened BTreePositions
  import opened Tries
  import opened Layers
  import opened ChainBuilder
  import opened RootInsert
  import opened LayerUpdates
  import opened LayerPaths

  // ---------- outcomes ----------

  // An insertion where there may have been no layer before.
  ghost predicate InsertedOf(m0: Memory, m1: Memory, l: Option<Layer>, l': Layer, level: nat, order: Order, path: Path,
                             v: Value)
    requires path != []
  {
    && Rep(m1, l', level, order)
    && Framed(m0, m1, IdsOf(l), AllIds(l'))
    && Meaning(l') == Insert(MeaningOf(l), path, v)
  }

  // ---------- one layer up ----------

  // The path uses up the layer: an insertion below its last agreeing key is one in the layer.
  lemma {:induction false} InsertedUnder(m0: Memory, m1: Memory, m2: Memory, l: Layer, level: nat, order: Order,
                      full: Path, end: nat, v: Value, come: Layer)
    requires |full| == D && Rep(m0, l, level, order) && |Positions(l)| == |Own(l)|
    requires 0 < Agreed(l, full[level..]) == Span(l) && level + Span(l) < end <= D
    requires InsertedOf(m0, m1, Onward(l, full[level..]), come, level + Span(l), order, full[level + Span(l)..end], v)
    requires var p := Reached(l, full[level..]);
             Rewritten(m1, m2, Positions(l)[p].0, Positions(l)[p].1, Linking(Own(l)[p], Some(Root(come))))
    ensures var p := Reached(l, full[level..]);
            var l' := Updated(l, p, Linking(Own(l)[p], Some(Root(come))), Some(come));
            LayerInserted(m0, m2, l, l', level, order, full[level..end], v) && Root(l') == Root(l)
  {
    hide Rep, AllIds, Meaning, Insert, Positions, Own, Agreed;
    var p := Reached(l, full[level..]);
    var path := full[level..end];
    BelowIs(m0, l, level, order, p);
    assert path[Span(l)..] == full[level + Span(l)..end];
    LeadsPrefix(l, p, full, level, end);
    MayLink(m0, l, level, order, p, Some(Root(come)), Agreed(l, full[level..]));
    InsertedBelow(m0, m1, m2, l, level, order, p, Linking(Own(l)[p], Some(Root(come))), Some(come), path, v);
  }

  lemma LeadsPrefix(l: Layer, p: nat, full: Path, level: nat, end: nat)
    requires level + Depth(l, p) < end <= |full| && LeadsTo(l, p, full[level..])
    ensures LeadsTo(l, p, full[level..end])
  {
    hide Own;
    var path, ks := full[level..end], full[level..];
    assert forall i :: 0 <= i <= Depth(l, p) ==> path[i] == ks[i];
  }

  lemma {:induction false} MayLink(m: Memory, l: Layer, level: nat, order: Order, p: nat, next: Option<Index>, n: nat)
    requires Rep(m, l, level, order) && p < |Own(l)| && Depth(l, p) + 1 == n == Span(l)
    ensures MayBecome(l, p, Linking(Own(l)[p], next))
  {
  }

  // ---------- the deepest layer that the rule reaches ----------

  ghost predicate GoesOn(l: Layer, ks: Path) {
    Onward(l, ks).Some? && Agreed(Onward(l, ks).value, ks[Agreed(l, ks)..]) > 0
  }

  ghost function Deepest(l: Layer, ks: Path): (d: Layer)
    requires Agreed(l, ks) > 0
    decreases |ks|
  {
    if GoesOn(l, ks) then Deepest(Onward(l, ks).value, ks[Agreed(l, ks)..]) else l
  }

  // The level of that layer.
  ghost function Offset(l: Layer, ks: Path): (n: nat)
    requires Agreed(l, ks) > 0
    ensures n < |ks|
    ensures Agreed(Deepest(l, ks), ks[n..]) > 0
    ensures n == 0 ==> Deepest(l, ks) == l
    decreases |ks|
  {
    if GoesOn(l, ks) then
      var a := Agreed(l, ks);
      var n := Offset(Onward(l, ks).value, ks[a..]);
      assert ks[a..][n..] == ks[a + n..];
      a + n
    else
      assert ks[0..] == ks;
      0
  }

  lemma {:induction false} StopsThere(m: Memory, l: Layer, level: nat, order: Order, ks: Path)
    requires Rep(m, l, level, order) && Agreed(l, ks) > 0 && !GoesOn(l, ks)
    ensures MatchLen(Meaning(l), ks) == |PathOf(l, ks)| == Agreed(l, ks)
    ensures |Positions(l)| == |Own(l)|
    ensures PathOf(l, ks)[|PathOf(l, ks)| - 1] == ItemAt(l, Reached(l, ks))
  {
    hide Rep, Meaning, Agreed, OwnPath, Positions, Own, PathOf;
    PathLength(m, l, level, order, ks);
    PathGoesOn(l, ks);
    PositionsLength(l);
    AgreedMatch(m, l, level, order, ks);
    if Onward(l, ks).Some? {
      var s, rest := Onward(l, ks).value, ks[Agreed(l, ks)..];
      PathGoesOn(s, rest);
      PositionsLength(s);
      NothingAgrees(s, rest);
    }
    LastOwn(l, ks);
  }

  lemma {:induction false} NothingAgrees(l: Layer, ks: Path)
    requires Agreed(l, ks) == 0
    ensures PathOf(l, ks) == []
  {
  }

  lemma LastOwn(l: Layer, ks: Path)
    requires Agreed(l, ks) > 0 && |Positions(l)| == |Own(l)|
    ensures |OwnPath(l, ks)| == Agreed(l, ks)
    ensures OwnPath(l, ks)[Agreed(l, ks) - 1] == ItemAt(l, Reached(l, ks))
  {
  }

  ghost predicate EndsIn(m: Memory, l: Layer, level: nat, order: Order, ks: Path)
    requires Agreed(l, ks) > 0
  {
    var d, off := Deepest(l, ks), Offset(l, ks);
    && Rep(m, d, level + off, order)
    && !GoesOn(d, ks[off..])
    && MatchLen(Meaning(l), ks) == |PathOf(l, ks)| == off + Agreed(d, ks[off..])
    && |Positions(d)| == |Own(d)|
    && PathOf(l, ks)[|PathOf(l, ks)| - 1] == ItemAt(d, Reached(d, ks[off..]))
  }

  lemma {:induction false} StaysThere(l: Layer, ks: Path)
    requires Agreed(l, ks) > 0 && !GoesOn(l, ks)
    ensures Deepest(l, ks) == l && Offset(l, ks) == 0
  {
  }

  lemma {:induction false} GoesDeeper(l: Layer, ks: Path)
    requires Agreed(l, ks) > 0 && GoesOn(l, ks)
    ensures var s, rest := Onward(l, ks).value, ks[Agreed(l, ks)..];
            && Deepest(l, ks) == Deepest(s, rest)
            && Offset(l, ks) == Agreed(l, ks) + Offset(s, rest)
            && ks[Offset(l, ks)..] == rest[Offset(s, rest)..]
  {
    hide Agreed, Onward;
    var s, rest := Onward(l, ks).value, ks[Agreed(l, ks)..];
    assert rest[Offset(s, rest)..] == ks[Agreed(l, ks) + Offset(s, rest)..];
  }

  lemma {:induction false} EndsFurther(m: Memory, l: Layer, level: nat, order: Order, ks: Path)
    requires Rep(m, l, level, order) && Agreed(l, ks) > 0 && GoesOn(l, ks)
    requires EndsIn(m, Onward(l, ks).value, level + Agreed(l, ks), order, ks[Agreed(l, ks)..])
    ensures EndsIn(m, l, level, order, ks)
  {
    hide Rep, Meaning, Agreed, Own, Positions, PathOf, Reached, OwnPath, Onward, MatchLen, Deepest, Offset;
    GoesDeeper(l, ks);
    AgreedMatch(m, l, level, order, ks);
    PathGoesOn(l, ks);
    PositionsLength(l);
    LastOwn(l, ks);
  }

  // The last item of the path lies in the deepest layer.
  lemma {:induction false} PathEndsIn(m: Memory, l: Layer, level: nat, order: Order, ks: Path)
    requires Rep(m, l, level, order) && Agreed(l, ks) > 0
    ensures EndsIn(m, l, level, order, ks)
    decreases |ks|
  {
    hide Rep, Meaning, Agreed, Own, Positions, PathOf, Reached;
    if GoesOn(l, ks) {
      var a := Agreed(l, ks);
      var s := Onward(l, ks).value;
      BelowIs(m, l, level, order, Reached(l, ks));
      PathEndsIn(m, s, level + a, order, ks[a..]);
      EndsFurther(m, l, level, order, ks);
    } else {
      StopsThere(m, l, level, order, ks);
      assert ks[0..] == ks;
    }
  }

  // An insertion in the deepest layer, seen from the layer where the path starts.
  lemma {:induction false} Lift(m0: Memory, m1: Memory, l: Layer, level: nat, order: Order, full: Path, end: nat,
                                v: Value, d': Layer)
    returns (l': Layer)
    requires |full| == D && level <= D && Rep(m0, l, level, order) && Agreed(l, full[level..]) > 0
    requires var off := Offset(l, full[level..]);
             && level + off < end <= D
             && LayerInserted(m0, m1, Deepest(l, full[level..]), d', level + off, order, full[level + off..end], v)
             && Root(d') == Root(Deepest(l, full[level..]))
    ensures level < end && LayerInserted(m0, m1, l, l', level, order, full[level..end], v)
    ensures Root(l') == Root(l)
    decreases D - level
  {
    hide Rep, AllIds, Meaning, Insert, Agreed, Own, Positions, Reached, Updated, GoesOn, Onward, Offset, Deepest,
        LayerInserted;
    var ks := full[level..];
    if GoesOn(l, ks) {
      var a := Agreed(l, ks);
      OnwardIs(m0, l, level, order, ks);
      GoesDeeper(l, ks);
      var s := Onward(l, ks).value;
      assert ks[a..] == full[level + a..];
      var s' := Lift(m0, m1, s, level + a, order, full, end, v, d');
      l' := LiftOnce(m0, m1, l, level, order, full, end, v, s');
    } else {
      StaysThere(l, ks);
      l' := d';
    }
  }

  lemma OnwardIs(m: Memory, l: Layer, level: nat, order: Order, ks: Path)
    requires Rep(m, l, level, order) && Agreed(l, ks) > 0 && GoesOn(l, ks) && |ks| + level == D
    ensures Agreed(l, ks) == Span(l) && level + Span(l) <= D && Onward(l, ks).Some?
    ensures Rep(m, Onward(l, ks).value, level + Span(l), order)
    ensures Agreed(Onward(l, ks).value, ks[Agreed(l, ks)..]) > 0
  {
    hide Rep;
    BelowIs(m, l, level, order, Reached(l, ks));
  }

  // The same one layer further up.
  lemma LiftOnce(m0: Memory, m1: Memory, l: Layer, level: nat, order: Order, full: Path, end: nat, v: Value, s': Layer)
    returns (l': Layer)
    requires |full| == D && level <= D && Rep(m0, l, level, order)
    requires Agreed(l, full[level..]) > 0 && GoesOn(l, full[level..])
    requires var s := Onward(l, full[level..]).value;
             && Root(s') == Root(s) && level + Agreed(l, full[level..]) < end <= D
             && LayerInserted(m0, m1, s, s', level + Agreed(l, full[level..]), order,
                              full[level + Agreed(l, full[level..])..end], v)
    ensures level < end && LayerInserted(m0, m1, l, l', level, order, full[level..end], v)
    ensures Root(l') == Root(l)
  {
    hide Rep, AllIds, Meaning, Insert, Agreed, Own, Positions, Reached, Updated, Offset, Deepest, LayerInserted;
    var ks := full[level..];
    var s := Onward(l, ks).value;
    OnwardIs(m0, l, level, order, ks);
    Unlinked(m0, m1, l, level, order, full, s, s', end, v);
    InsertedUnder(m0, m1, m1, l, level, order, full, end, v, s');
    var p := Reached(l, ks);
    l' := Updated(l, p, Linking(Own(l)[p], Some(Root(s'))), Some(s'));
  }

  // A step below one key leaves the node of the key alone.
  lemma {:induction false} KeyUntouched(m0: Memory, m1: Memory, l: Layer, level: nat, order: Order, p: nat,
                                        come: set<Index>)
    requires Rep(m0, l, level, order) && p < |Own(l)| && Framed(m0, m1, IdsOf(SubAt(l, p)), come)
    ensures |Positions(l)| == |Own(l)|
    ensures var (n, i) := Positions(l)[p];
            n in m0 && n in m1 && m1[n] == m0[n] && i < m0[n].keyCnt && m0[n].keys[i] == Own(l)[p]
  {
    hide Rep, AllIds, Own, OwnIds, Positions;
    KeyInLayer(m0, l, level, order, p);
    BelowIs(m0, l, level, order, p);
  }

  // The layer below kept its root, so the pointer to it need not change.
  lemma {:induction false} Unlinked(m0: Memory, m1: Memory, l: Layer, level: nat, order: Order, full: Path, s: Layer,
                                    s': Layer, end: nat, v: Value)
    requires |full| == D && level <= D && Rep(m0, l, level, order)
    requires Onward(l, full[level..]) == Some(s) && Root(s') == Root(s)
    requires level + Span(l) < end <= D
    requires LayerInserted(m0, m1, s, s', level + Span(l), order, full[level + Span(l)..end], v)
    ensures |Positions(l)| == |Own(l)|
    ensures InsertedOf(m0, m1, Some(s), s', level + Span(l), order, full[level + Span(l)..end], v)
    ensures var p := Reached(l, full[level..]);
            Rewritten(m1, m1, Positions(l)[p].0, Positions(l)[p].1, Linking(Own(l)[p], Some(Root(s'))))
  {
    hide Rep, AllIds, Meaning, Insert, Agreed, Own, Positions;
    var p := Reached(l, full[level..]);
    KeyUntouched(m0, m1, l, level, order, p, AllIds(s'));
    BelowIs(m0, l, level, order, p);
    var (n, i) := Positions(l)[p];
    assert m0[n].keys[i := m0[n].keys[i]] == m0[n].keys;
  }

  // After the insertion below the key, the key is linked to the new root there.
  lemma LinkedUnder(m0: Memory, m1: Memory, m2: Memory, l: Layer, level: nat, order: Order,
                    full: Path, end: nat, v: Value, come: Layer) returns (l': Layer)
    requires |full| == D && Rep(m0, l, level, order) && |Positions(l)| == |Own(l)|
    requires 0 < Agreed(l, full[level..]) == Span(l) && level + Span(l) < end <= D
    requires InsertedOf(m0, m1, Onward(l, full[level..]), come, level + Span(l), order, full[level + Span(l)..end], v)
    requires var (n, i) := Positions(l)[Reached(l, full[level..])];
             n in m1 && i < MAX_DEGREE && m2 == m1[n := WithKey(m1[n], i, Linking(m1[n].keys[i], Some(Root(come))))]
    ensures LayerInserted(m0, m2, l, l', level, order, full[level..end], v) && Root(l') == Root(l)
  {
    hide Rep, AllIds, Meaning, Insert, Agreed, Own, Positions, Updated;
    var p := Reached(l, full[level..]);
    KeyUntouched(m0, m1, l, level, order, p, AllIds(come));
    InsertedUnder(m0, m1, m2, l, level, order, full, end, v, come);
    l' := Updated(l, p, Linking(Own(l)[p], Some(Root(come))), Some(come));
  }

  // Only the value of the last agreeing key is written.
  lemma ValueUpdated(m0: Memory, m1: Memory, l: Layer, level: nat, order: Order, full: Path, end: nat, v: Value)
    returns (l': Layer)
    requires |full| == D && level <= D && Rep(m0, l, level, order) && |Positions(l)| == |Own(l)|
    requires 0 < Agreed(l, full[level..]) && end == level + Agreed(l, full[level..])
    requires var (n, i) := Positions(l)[Reached(l, full[level..])];
             n in m0 && i < MAX_DEGREE
                 && m1 == m0[n := WithKey(m0[n], i, Item(m0[n].keys[i].key, v, m0[n].keys[i].next))]
    ensures LayerInserted(m0, m1, l, l', level, order, full[level..end], v) && Root(l') == Root(l)
  {
    hide Rep, AllIds, Meaning, Insert, Agreed, Own, Positions, Updated, IdsOf;
    var p := Reached(l, full[level..]);
    var come := SubAt(l, p);
    var before := Own(l)[p];
    var x: KeyInfo := Item(before.key, v, before.next);
    KeyInLayer(m0, l, level, order, p);
    BelowIs(m0, l, level, order, p);
    SubIdsInside(m0, l, level, order, p);
    LeadsPrefix(l, p, full, level, end);
    MayTake(m0, l, level, order, p, v);
    InsertedBelow(m0, m0, m1, l, level, order, p, x, come, full[level..end], v);
    l' := Updated(l, p, x, come);
  }

  lemma {:induction false} SubIdsInside(m: Memory, l: Layer, level: nat, order: Order, p: nat)
    requires Rep(m, l, level, order) && p < |Own(l)|
    ensures Framed(m, m, IdsOf(SubAt(l, p)), IdsOf(SubAt(l, p)))
  {
    RepIds(m, l, level, order);
  }

  lemma {:induction false} MayTake(m: Memory, l: Layer, level: nat, order: Order, p: nat, v: Value)
    requires Rep(m, l, level, order) && p < |Own(l)|
    ensures MayBecome(l, p, Item(Own(l)[p].key, v, Own(l)[p].next))
  {
  }

  // An insertion into the same layer in other nodes.
  lemma {:induction false} AfterSame(m0: Memory, m1: Memory, m2: Memory, l: Layer, l1: Layer, l2: Layer, level: nat,
                                     order: Order, path: Path, v: Value)
    requires path != [] && Framed(m0, m1, AllIds(l), AllIds(l1)) && Meaning(l1) == Meaning(l)
    requires LayerInserted(m1, m2, l1, l2, level, order, path, v)
    ensures LayerInserted(m0, m2, l, l2, level, order, path, v)
  {
    hide Rep, AllIds, Meaning, Insert;
  }
}
