/** The stored keys that a rule shares with a tree (BTreeSearch::search_path). */
module LayerPaths {
  import opened Ranges
  import opened Items
  import opened Nodes
  import opened BTrees
  import opened BTreePositions
  import opened Tries
  import opened Layers
  import opened RuleSpecs
  import opened LayerUpdates
  import opened LayerSearch

  // ---------- how far a path runs in one layer ----------

  // How many leading keys of a compressed node the path agrees with.
  function Run(items: seq<KeyInfo>, ks: Path): (n: nat)
    ensures n <= |items| && n <= |ks|
    ensures forall i :: 0 <= i < n ==> items[i].key == ks[i]
    ensures n < |items| && n < |ks| ==> items[n].key != ks[n]
  {
    if items == [] || ks == [] || items[0].key != ks[0] then 0 else 1 + Run(items[1..], ks[1..])
  }

  // How many levels of the layer the path agrees with.
  ghost function Agreed(l: Layer, ks: Path): (n: nat)
    ensures n <= |ks| && n <= Span(l)
  {
    match l
    case Plain(bt, _, _) => if ks != [] && Has(Flat(bt), ks[0]) then 1 else 0
    case Packed(_, items, _) => Run(items, ks)
  }

  // The last key that the path agrees with.
  ghost function Reached(l: Layer, ks: Path): (p: nat)
    requires Agreed(l, ks) > 0
    ensures p < |Own(l)| && LeadsTo(l, p, ks) && Depth(l, p) + 1 == Agreed(l, ks)
  {
    if l.Plain? then Find(Flat(l.bt), ks[0]) else Agreed(l, ks) - 1
  }

  // The layer in which the path goes on, if it has used up this one.
  ghost function Onward(l: Layer, ks: Path): (s: Option<Layer>)
    ensures s.Some? ==> Agreed(l, ks) == Span(l) > 0
  {
    if 0 < Agreed(l, ks) == Span(l) then SubAt(l, Reached(l, ks)) else None
  }

  lemma {:induction false} PackedMatch(items: seq<KeyInfo>, below: Trie, ks: Path)
    ensures MatchLen(PackedMeaning(items, below), ks) ==
            Run(items, ks) + if Run(items, ks) == |items| then MatchLen(below, ks[|items|..]) else 0
  {
    if items == [] {
      assert ks[0..] == ks;
    } else if ks != [] && items[0].key == ks[0] {
      PackedMatch(items[1..], below, ks[1..]);
      assert |items| <= |ks| ==> ks[1..][|items| - 1..] == ks[|items|..];
    }
  }

  lemma {:induction false} AgreedMatch(m: Memory, l: Layer, level: nat, order: Order, ks: Path)
    requires Rep(m, l, level, order) && ks != []
    ensures MatchLen(Meaning(l), ks) ==
            Agreed(l, ks) +
            if 0 < Agreed(l, ks) == Span(l) then MatchLen(MeaningOf(Onward(l, ks)), ks[Agreed(l, ks)..]) else 0
  {
    hide Rep, Meaning;
    RootNode(m, l, level, order);
    if Agreed(l, ks) > 0 {
      BelowIs(m, l, level, order, Reached(l, ks));
    }
    match l
    case Plain(bt, h, subs) =>
      MeaningPlain(bt, h, subs);
      PlainMatch(Flat(bt), subs, ks[0]);
    case Packed(id, items, subs) =>
      MeaningPacked(id, items, subs);
      PackedMatch(items, Below(subs, items[|items| - 1].next), ks);
  }

  lemma {:induction false} PlainMatch(items: seq<KeyInfo>, subs: map<Index, Layer>, k: Range)
    requires Separated(items)
    ensures Find(Entries(items, subs), k) == Find(items, k)
  {
    var es := Entries(items, subs);
    EntriesSeparated(items, subs);
    assert forall q :: 0 <= q < |items| ==> es[q].key == items[q].key;
    if Find(items, k) < |items| {
      SeparatedAscending(es);
      FindIs(es, k, Find(items, k));
    }
  }

  // ---------- the path ----------

  // Root of the layer, node and index of a key on the way.
  datatype PathItem = PathItem(root: Index, node: Index, index: nat)

  ghost function OwnPath(l: Layer, ks: Path): (r: seq<PathItem>)
    ensures |Positions(l)| == |Own(l)| ==> |r| == Agreed(l, ks)
  {
    if Agreed(l, ks) == 0 || |Positions(l)| != |Own(l)| then []
    else if l.Plain? then [ItemAt(l, Reached(l, ks))]
    else Steps(l.id, Agreed(l, ks))
  }

  // The first n keys of a compressed node.
  ghost function Steps(id: Index, n: nat): (r: seq<PathItem>)
    ensures |r| == n
  {
    seq(n, i requires 0 <= i => PathItem(id, id, i))
  }

  ghost function ItemAt(l: Layer, p: nat): PathItem
    requires p < |Positions(l)|
  {
    PathItem(Root(l), Positions(l)[p].0, Positions(l)[p].1)
  }

  ghost function PathOf(l: Layer, ks: Path): seq<PathItem>
    decreases l, 1
  {
    OwnPath(l, ks) + PathOnward(l, ks)
  }

  ghost function PathOnward(l: Layer, ks: Path): seq<PathItem>
    decreases l, 0
  {
    if 0 < Agreed(l, ks) == Span(l) then
      var next := Own(l)[Reached(l, ks)].next;
      if next.Some? && next.value in l.subs then PathOf(l.subs[next.value], ks[Agreed(l, ks)..]) else []
    else []
  }

  ghost function PathOfSome(l: Option<Layer>, ks: Path): seq<PathItem> {
    match l
    case None => []
    case Some(x) => PathOf(x, ks)
  }

  lemma {:induction false} PathGoesOn(l: Layer, ks: Path)
    ensures PathOf(l, ks) == OwnPath(l, ks) + PathOfSome(Onward(l, ks), ks[Agreed(l, ks)..])
  {
  }

  // The path has one item for each leading range of the rule that is stored.
  lemma {:induction false} PathLength(m: Memory, l: Layer, level: nat, order: Order, ks: Path)
    requires Rep(m, l, level, order)
    ensures |PathOf(l, ks)| == MatchLen(Meaning(l), ks)
    decreases l
  {
    hide Rep, Meaning, Agreed, OwnPath, Positions;
    PathGoesOn(l, ks);
    PositionsLength(l);
    if ks != [] {
      AgreedMatch(m, l, level, order, ks);
      if Onward(l, ks).Some? {
        var p := Reached(l, ks);
        BelowIs(m, l, level, order, p);
        PathLength(m, l.subs[Own(l)[p].next.value], level + Span(l), order, ks[Agreed(l, ks)..]);
      }
    }
  }

  // ---------- the loop that collects it ----------

  // What the loop finds on a plain level.
  lemma {:induction false} PlainPath(m: Memory, l: Layer, level: nat, order: Order, ks: Path)
    requires l.Plain? && Rep(m, l, level, order) && ks != []
    ensures var r := Found(l, OfRange(ks[0]));
            && (r.None? ==> Agreed(l, ks) == 0 && PathOf(l, ks) == [])
            && (r.Some? ==>
                  && Agreed(l, ks) == 1 && r.value.0 in m && r.value.1 < m[r.value.0].keyCnt
                  && !m[r.value.0].isCompressed
                  && m[r.value.0].keys[r.value.1].next == RootOf(Onward(l, ks))
                  && RepOf(m, Onward(l, ks), level + 1, order)
                  && PathOf(l, ks) == [PathItem(Root(l), r.value.0, r.value.1)] + PathOfSome(Onward(l, ks), ks[1..]))
  {
    hide Rep, PathOf, Flat, FlatPos, Ids, Seek, Find;
    FoundKey(m, l, level, order, OfRange(ks[0]));
    SeekIsFindOrHit(Flat(l.bt), OfRange(ks[0]));
    PathGoesOn(l, ks);
    PositionsLength(l);
    if Agreed(l, ks) > 0 {
      BelowIs(m, l, level, order, Reached(l, ks));
    }
  }

  lemma {:induction false} PackedPath(m: Memory, l: Layer, level: nat, order: Order, ks: Path)
    requires l.Packed? && Rep(m, l, level, order)
    ensures l.id in m && m[l.id].keyCnt == |l.items| >= 2
    ensures Agreed(l, ks) == Run(l.items, ks)
    ensures PathOf(l, ks) == Steps(l.id, Run(l.items, ks)) + PathOfSome(Onward(l, ks), ks[Run(l.items, ks)..])
    ensures Run(l.items, ks) < |l.items| ==> Onward(l, ks).None?
    ensures Run(l.items, ks) == |l.items| ==>
              && RootOf(Onward(l, ks)) == m[l.id].keys[|l.items| - 1].next
              && RepOf(m, Onward(l, ks), level + |l.items|, order)
  {
    hide Rep, PathOf, PathOfSome;
    PathGoesOn(l, ks);
    PositionsLength(l);
    RootNode(m, l, level, order);
    if Agreed(l, ks) > 0 {
      BelowIs(m, l, level, order, Reached(l, ks));
    }
  }

  lemma {:induction false} RunIs(items: seq<KeyInfo>, ks: Path, n: nat)
    requires n <= |items| && n <= |ks|
    requires forall i :: 0 <= i < n ==> items[i].key == ks[i]
    ensures Run(items, ks) >= n
    ensures n < |items| && n < |ks| && items[n].key != ks[n] ==> Run(items, ks) == n
    ensures n == |items| ==> Run(items, ks) == n
  {
    var r := Run(items, ks);
    if r < n {
      assert false;
    }
  }

  // Follows the keys of a compressed node whose first key agrees.
  method PathInCompressed(pool: NodePool, n: Index, order: Order, rule: Rule, level: nat, ghost l: Layer)
    returns (path: seq<PathItem>, match_: bool)
    requires l.Packed? && Rep(pool.slots, l, level, order) && l.id == n
    requires IsOrder(order) && ValidRule(rule) && level < D
    requires Found(l, OfRange(rule.filter[order[level]])).Some?
    ensures var r := Run(l.items, InOrder(order, rule.filter)[level..]);
            path == Steps(n, r) && match_ == (r == |l.items|)
  {
    hide Rep, Run, InOrder;
    RootNode(pool.slots, l, level, order);
    ghost var ks := InOrder(order, rule.filter)[level..];
    path := [PathItem(n, n, 0)];
    match_ := true;
    var i := 1;
    while i < pool.slots[n].keyCnt
      invariant 1 <= i <= |l.items|
      invariant path == Steps(n, i)
      invariant forall j :: 0 <= j < i ==> l.items[j].key == ks[j]
    {
      var d := order[level + i];
      if pool.slots[n].keys[i].key != rule.filter[d] {
        RunIs(l.items, ks, i);
        match_ := false;
        return;
      }
      path := path + [PathItem(n, n, i)];
      i := i + 1;
    }
    RunIs(l.items, ks, i);
  }

  // What is collected so far, and what the layers from here on will add, is the whole path.
  ghost predicate Collecting(m: Memory, cur: Option<Layer>, level: nat, order: Order, ks: Path,
                             path: seq<PathItem>, all: seq<PathItem>)
    requires |ks| == D
  {
    && level <= D && RepOf(m, cur, level, order)
    && path + PathOfSome(cur, ks[level..]) == all
  }

  lemma CollectPlain(m: Memory, l: Layer, level: nat, order: Order, ks: Path, path: seq<PathItem>, all: seq<PathItem>)
    requires |ks| == D && l.Plain? && Collecting(m, Some(l), level, order, ks, path, all)
    ensures level < D
    ensures var r := Found(l, OfRange(ks[level]));
            && (r.None? ==> path == all)
            && (r.Some? ==>
                  && r.value.0 in m && r.value.1 < m[r.value.0].keyCnt && !m[r.value.0].isCompressed
                  && m[r.value.0].keys[r.value.1].next == RootOf(Onward(l, ks[level..]))
                  && Collecting(m, Onward(l, ks[level..]), level + 1, order, ks,
                                path + [PathItem(Root(l), r.value.0, r.value.1)], all))
  {
    hide Rep, PathOf, Found, Onward, Agreed, Positions, Own;
    RootNode(m, l, level, order);
    var rest := ks[level..];
    assert rest[0] == ks[level] && rest[1..] == ks[level + 1..];
    PlainPath(m, l, level, order, rest);
    var r := Found(l, OfRange(ks[level]));
    if r.Some? {
      ConcatSteps(path, [PathItem(Root(l), r.value.0, r.value.1)], PathOfSome(Onward(l, rest), ks[level + 1..]));
    }
  }

  lemma CollectPacked(m: Memory, l: Layer, level: nat, order: Order, ks: Path, path: seq<PathItem>, all: seq<PathItem>)
    requires |ks| == D && l.Packed? && Collecting(m, Some(l), level, order, ks, path, all)
    ensures level + |l.items| <= D && l.id in m && m[l.id].isCompressed && m[l.id].keyCnt == |l.items| >= 2
    ensures var r := Run(l.items, ks[level..]);
            && (Found(l, OfRange(ks[level])).None? ==> path == all)
            && (r < |l.items| ==> path + Steps(l.id, r) == all)
            && (r == |l.items| ==>
                  && RootOf(Onward(l, ks[level..])) == m[l.id].keys[|l.items| - 1].next
                  && Collecting(m, Onward(l, ks[level..]), level + |l.items|, order, ks, path + Steps(l.id, r), all))
  {
    hide Rep, PathOf, Found, Onward, Agreed, Run;
    RootNode(m, l, level, order);
    var rest := ks[level..];
    assert rest[0] == ks[level] && rest[|l.items|..] == ks[level + |l.items|..];
    PackedPath(m, l, level, order, rest);
    NoStart(l, rest);
    var r := Run(l.items, rest);
    ConcatSteps(path, Steps(l.id, r), PathOfSome(Onward(l, rest), rest[r..]));
  }

  lemma ConcatSteps<A>(a: seq<A>, b: seq<A>, c: seq<A>)
    ensures a + (b + c) == (a + b) + c
  {
  }

  lemma {:induction false} NoStart(l: Layer, ks: Path)
    requires l.Packed? && ks != []
    ensures Found(l, OfRange(ks[0])).None? ==> Run(l.items, ks) == 0
  {
  }

  /** Collects the stored keys that agree with the rule, level by level from `start`. */
  method SearchPath(pool: NodePool, root: Option<Index>, order: Order, rule: Rule, start: nat, ghost l: Option<Layer>)
    returns (path: seq<PathItem>)
    requires IsOrder(order) && ValidRule(rule) && start <= D
    requires RepOf(pool.slots, l, start, order) && RootOf(l) == root
    ensures path == PathOfSome(l, InOrder(order, rule.filter)[start..])
  {
    hide Rep, PathOf, Run, Onward, Found, InOrder, Steps, Own, AllIds, IdsOf, Agreed;
    ghost var ks := InOrder(order, rule.filter);
    ghost var all := PathOfSome(l, ks[start..]);
    path := [];
    var n := root;
    var level: nat := start;
    ghost var cur := l;
    while n.Some?
      invariant RootOf(cur) == n && Collecting(pool.slots, cur, level, order, ks, path, all)
      invariant n.None? ==> path == all
      decreases if n.Some? then D - level + 1 else 0
    {
      ghost var layer := cur.value;
      RootNode(pool.slots, layer, level, order);
      assert ks[level] == rule.filter[order[level]];
      var r := SearchPosition1D(pool, n.value, OfRange(rule.filter[order[level]]), layer, level, order);
      if pool.slots[n.value].isCompressed {
        CollectPacked(pool.slots, layer, level, order, ks, path, all);
      } else {
        CollectPlain(pool.slots, layer, level, order, ks, path, all);
      }
      if r.None? {
        return;
      }
      cur := Onward(layer, ks[level..]);
      if pool.slots[n.value].isCompressed {
        var steps, match_ := PathInCompressed(pool, n.value, order, rule, level, layer);
        path := path + steps;
        if !match_ {
          return;
        }
        level := level + pool.slots[n.value].keyCnt;
        n := pool.slots[n.value].keys[pool.slots[n.value].keyCnt - 1].next;
      } else {
        path := path + [PathItem(n.value, r.value.0, r.value.1)];
        level := level + 1;
        n := pool.slots[r.value.0].keys[r.value.1].next;
      }
    }
  }
}
