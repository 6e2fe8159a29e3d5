/**
 * The walk of the collision check over the levels, as the program does it, and a repaired
 * one. The program finds its place in a compressed node by the level where the node starts,
 * but it keeps that level up to date only as far as the second layer.
 */
module CollisionWalk {
  import opened Ranges
  import opened Items
  import opened Nodes
  import opened BTrees
  import opened Tries
  import opened Layers
  import opened LayerSteps
  import opened RuleSpecs
  import opened LayerUpdates
  import opened LayerSearch
  import opened CollisionCheck

  // ---------- the walk as it is written ----------

  // The verdict from a level on; None if the walk reads past the keys that a node can hold.
  ghost function Written(m: Memory, cur: Option<Layer>, level: nat, start: nat, full: Path): Option<bool>
    requires start <= level <= |full|
    decreases |full| - level
  {
    if level == |full| || cur.None? then Some(false)
    else
      var l := cur.value;
      if l.Packed? then
        var i := level - start;
        if i >= MAX_DEGREE || l.id !in m then None
        else if m[l.id].keys[i].key != full[level] then Some(m[l.id].keys[i].key.Overlaps(full[level]))
        else Written(m, if i + 1 == |l.items| then SubAt(l, i) else cur, level + 1, start, full)
      else
        var p := Find(Flat(l.bt), full[level]);
        if p < |Flat(l.bt)| then Written(m, SubAt(l, p), level + 1, level, full)
        else Some(Overlapped(false, Flat(l.bt), full[level]))
  }

  lemma WrittenPacked(m: Memory, l: Layer, depth: nat, level: nat, start: nat, order: Order, full: Path)
    returns (next: Option<Layer>)
    requires l.Packed? && Rep(m, l, depth, order) && start <= level < |full|
    ensures l.id in m && m[l.id].isCompressed && m[l.id].keyCnt == |l.items|
    ensures level - start >= MAX_DEGREE ==> Written(m, Some(l), level, start, full) == None
    ensures level - start < MAX_DEGREE ==>
              var x := m[l.id].keys[level - start];
              if x.key != full[level] then Written(m, Some(l), level, start, full) == Some(x.key.Overlaps(full[level]))
              else Written(m, Some(l), level, start, full) == Written(m, next, level + 1, start, full)
    ensures level - start + 1 != |l.items| ==> next == Some(l)
    ensures level - start + 1 == |l.items| ==>
              && level - start < |Own(l)| && next == SubAt(l, level - start)
              && RepOf(m, next, depth + |l.items|, order)
              && level - start < MAX_DEGREE && RootOf(next) == m[l.id].keys[level - start].next
  {
    hide Rep;
    RootNode(m, l, depth, order);
    if level - start + 1 == |l.items| {
      BelowIs(m, l, depth, order, level - start);
      next := SubAt(l, level - start);
    } else {
      next := Some(l);
    }
  }

  lemma {:induction false} WrittenPlain(m: Memory, l: Layer, depth: nat, level: nat, start: nat, order: Order,
                                        full: Path)
    requires l.Plain? && Rep(m, l, depth, order) && start <= level < |full|
    ensures var p := Find(Flat(l.bt), full[level]);
            if p < |Flat(l.bt)| then
              && Written(m, Some(l), level, start, full) == Written(m, SubAt(l, p), level + 1, level, full)
              && RepOf(m, SubAt(l, p), depth + 1, order) && RootOf(SubAt(l, p)) == Flat(l.bt)[p].next
            else Written(m, Some(l), level, start, full) == Some(Overlapped(false, Flat(l.bt), full[level]))
  {
    hide Rep, Flat;
    var p := Find(Flat(l.bt), full[level]);
    if p < |Flat(l.bt)| {
      BelowIs(m, l, depth, order, p);
    }
  }

  /** does_rule_colide; None when it would read past the end of a node's keys. */
  method DoesRuleCollide(pool: NodePool, root: Option<Index>, order: Order, rule: Rule, ghost l: Option<Layer>)
    returns (r: Option<bool>)
    requires RepOf(pool.slots, l, 0, order) && RootOf(l) == root && IsOrder(order) && ValidRule(rule)
    ensures r == Written(pool.slots, l, 0, 0, InOrder(order, rule.filter))
    ensures OnlyRootPacked(l, InOrder(order, rule.filter)) ==>
        r == Some(Clash(false, MeaningOf(l), InOrder(order, rule.filter)))
  {
    hide Rep, Flat, Written, Clash, Meaning, InOrder, OnlyRootPacked;
    ghost var full := InOrder(order, rule.filter);
    if OnlyRootPacked(l, full) {
      WrittenIsRight(pool.slots, l, order, full);
    }
    ghost var cur: Option<Layer>, depth: nat := l, 0;
    var n, startOfThisNode := root, 0;
    for level := 0 to D
      invariant RootOf(cur) == n && RepOf(pool.slots, cur, depth, order) && 0 <= startOfThisNode <= level
      invariant Written(pool.slots, l, 0, 0, full) == Written(pool.slots, cur, level, startOfThisNode, full)
    {
      if n.None? {
        WrittenNone(pool.slots, level, startOfThisNode, full);
        return Some(false);
      }
      ghost var layer := cur.value;
      NodeKind(pool.slots, layer, depth, order);
      var k := rule.filter[order[level]];
      assert k == full[level];
      if pool.slots[n.value].isCompressed {
        var i := level - startOfThisNode;
        ghost var next := WrittenPacked(pool.slots, layer, depth, level, startOfThisNode, order, full);
        if i >= MAX_DEGREE {
          return None;
        }
        var stored := pool.slots[n.value].keys[i].key;
        if stored == k {
        } else if stored.Overlaps(k) {
          return Some(true);
        } else {
          return Some(false);
        }
        if i + 1 == pool.slots[n.value].keyCnt {
          n := pool.slots[n.value].keys[i].next;
          depth := depth + |layer.items|;
        }
        cur := next;
      } else {
        WrittenPlain(pool.slots, layer, depth, level, startOfThisNode, order, full);
        var same, next, clash := CheckLevel(pool, n.value, k, false, layer, depth, order);
        if !same {
          return Some(clash);
        }
        cur, depth := SubAt(layer, Find(Flat(layer.bt), k)), depth + 1;
        n, startOfThisNode := next, level;
      }
    }
    WrittenNone(pool.slots, D, startOfThisNode, full);
    WrittenEnd(pool.slots, cur, startOfThisNode, full);
    return Some(false);
  }

  lemma {:induction false} WrittenNone(m: Memory, level: nat, start: nat, full: Path)
    requires start <= level <= |full|
    ensures Written(m, None, level, start, full) == Some(false)
  {
  }

  lemma {:induction false} WrittenEnd(m: Memory, cur: Option<Layer>, start: nat, full: Path)
    requires start <= |full|
    ensures Written(m, cur, |full|, start, full) == Some(false)
  {
  }

  lemma {:induction false} NodeKind(m: Memory, l: Layer, level: nat, order: Order)
    requires Rep(m, l, level, order)
    ensures Root(l) in m && m[Root(l)].isCompressed == l.Packed?
    ensures l.Plain? ==> l.bt.id == Root(l)
  {
    hide Rep;
    RootNode(m, l, level, order);
  }

  // ---------- where the walk is right ----------

  // The rule meets plain levels only.
  ghost predicate PlainOnPath(l: Option<Layer>, ks: Path)
    decreases |ks|
  {
    l.Some? && ks != [] ==>
      && l.value.Plain?
      && var p := Find(Flat(l.value.bt), ks[0]);
         p < |Flat(l.value.bt)| ==> PlainOnPath(SubAt(l.value, p), ks[1..])
  }

  // The only compressed node that the rule meets is the root.
  ghost predicate OnlyRootPacked(l: Option<Layer>, ks: Path) {
    if l.None? || l.value.Plain? then PlainOnPath(l, ks) else PlainBehind(l.value, 0, ks)
  }

  ghost predicate PlainBehind(l: Layer, i: nat, ks: Path)
    requires l.Packed?
    decreases |ks|
  {
    ks != [] && i < |l.items| && l.items[i].key == ks[0] ==>
      if i + 1 == |l.items| then PlainOnPath(SubAt(l, i), ks[1..]) else PlainBehind(l, i + 1, ks[1..])
  }

  /** The verdict is the intended one when the rule meets no compressed node below the root. */
  lemma {:induction false} WrittenIsRight(m: Memory, l: Option<Layer>, order: Order, full: Path)
    requires |full| == D && RepOf(m, l, 0, order) && OnlyRootPacked(l, full)
    ensures Written(m, l, 0, 0, full) == Some(Clash(false, MeaningOf(l), full))
  {
    hide Rep, Written, Clash, Meaning, PlainOnPath, PlainBehind, PackedMeaning;
    assert full[0..] == full;
    if l.Some? && l.value.Packed? {
      RootNode(m, l.value, 0, order);
      PackedRight(m, l.value, 0, order, full);
      MeaningPacked(l.value.id, l.value.items, l.value.subs);
      assert l.value.items[0..] == l.value.items;
    } else {
      PlainRight(m, l, 0, 0, order, full);
    }
  }

  lemma {:induction false} PlainRight(m: Memory, cur: Option<Layer>, level: nat, start: nat, order: Order, full: Path)
    requires start <= level <= |full| == D && RepOf(m, cur, level, order) && PlainOnPath(cur, full[level..])
    ensures Written(m, cur, level, start, full) == Some(Clash(false, MeaningOf(cur), full[level..]))
    decreases D - level
  {
    hide Rep, Meaning, Flat;
    if level < D && cur.Some? {
      var l := cur.value;
      assert full[level..][0] == full[level] && full[level..][1..] == full[level + 1..];
      WrittenPlain(m, l, level, level, start, order, full);
      PlainClash(false, m, l, level, order, full[level..]);
      var p := Find(Flat(l.bt), full[level]);
      if p < |Flat(l.bt)| {
        PlainRight(m, SubAt(l, p), level + 1, level, order, full);
      }
    } else {
      assert MeaningOf(None) == EMPTY;
    }
  }

  lemma {:induction false} PackedRight(m: Memory, l: Layer, level: nat, order: Order, full: Path)
    requires l.Packed? && |full| == D && Rep(m, l, 0, order) && level < |l.items|
    requires PlainBehind(l, level, full[level..])
    ensures Written(m, Some(l), level, 0, full)
            == Some(Clash(false, PackedMeaning(l.items[level..], PackedBelow(l)), full[level..]))
    decreases |l.items| - level
  {
    hide Rep, Meaning, Written, Clash, PackedMeaning, PlainOnPath;
    RootNode(m, l, 0, order);
    var rest := l.items[level..];
    assert rest[1..] == l.items[level + 1..] && full[level..][1..] == full[level + 1..];
    PackedClash(false, rest, PackedBelow(l), full[level..]);
    var next := WrittenPacked(m, l, 0, level, 0, order, full);
    if l.items[level].key == full[level] {
      if level + 1 == |l.items| {
        BelowIs(m, l, 0, order, level);
        PlainRight(m, next, level + 1, 0, order, full);
        NoItems(PackedBelow(l));
      } else {
        PackedRight(m, l, level + 1, order, full);
      }
    }
  }

  lemma {:induction false} NoItems(below: Trie)
    ensures PackedMeaning([], below) == below
  {
  }

  // ---------- where it is not ----------

  // The ranges are keys of n plain layers, one below the other, and lead to the layer s.
  ghost predicate PlainWay(l: Layer, ks: Path, n: nat, s: Layer)
    decreases n
  {
    if n == 0 then l == s
    else
      && l.Plain? && ks != []
      && var p := Find(Flat(l.bt), ks[0]);
         p < |Flat(l.bt)| && SubAt(l, p).Some? && PlainWay(SubAt(l, p).value, ks[1..], n - 1, s)
  }

  // Behind a plain layer the walk takes the level of that layer for the one where the next
  // layer starts.
  lemma {:induction false} AlongPlain(m: Memory, l: Layer, level: nat, start: nat, order: Order, full: Path, n: nat,
                                      s: Layer)
    requires start <= level < |full| == D && Rep(m, l, level, order) && n > 0 && PlainWay(l, full[level..], n, s)
    ensures level + n < D && Rep(m, s, level + n, order)
    ensures Written(m, Some(l), level, start, full) == Written(m, Some(s), level + n, level + n - 1, full)
    ensures Clash(false, Meaning(l), full[level..]) == Clash(false, Meaning(s), full[level + n..])
    decreases n
  {
    hide Rep, Meaning, Flat, Written, Clash;
    assert full[level..][0] == full[level] && full[level..][1..] == full[level + 1..];
    WrittenPlain(m, l, level, level, start, order, full);
    PlainClash(false, m, l, level, order, full[level..]);
    var next := SubAt(l, Find(Flat(l.bt), full[level])).value;
    RootNode(m, next, level + 1, order);
    if n > 1 {
      AlongPlain(m, next, level + 1, level, order, full, n - 1, s);
    }
  }

  /**
   * A compressed node below n plain levels is read one key too far: at the level of its first
   * key the walk looks at the second one, where it should look at the first.
   */
  lemma {:induction false} ReadsNextKey(m: Memory, l: Layer, order: Order, full: Path, n: nat, s: Layer)
    requires Rep(m, l, 0, order) && |full| == D && n > 0 && PlainWay(l, full, n, s) && s.Packed?
    ensures |s.items| >= 2 && n + 2 <= D
    ensures var k := full[n];
            Written(m, Some(l), 0, 0, full) ==
            if s.items[1].key != k then Some(s.items[1].key.Overlaps(k))
            else Written(m, if |s.items| == 2 then SubAt(s, 1) else Some(s), n + 1, n - 1, full)
    ensures var k := full[n];
            Clash(false, Meaning(l), full) ==
            if s.items[0].key != k then s.items[0].key.Overlaps(k)
            else Clash(false, PackedMeaning(s.items[1..], PackedBelow(s)), full[n + 1..])
  {
    hide Rep, Meaning, Flat, Written, Clash, PackedMeaning, PlainWay;
    assert full[0..] == full;
    AlongPlain(m, l, 0, 0, order, full, n, s);
    var next := WrittenPacked(m, s, n, n, n - 1, order, full);
    RootNode(m, s, n, order);
    MeaningPacked(s.id, s.items, s.subs);
    PackedClash(false, s.items, PackedBelow(s), full[n..]);
    assert full[n..][1..] == full[n + 1..];
  }

  // The walk through a compressed root whose keys are the ranges of the rule.
  lemma {:induction false} AlongPacked(m: Memory, l: Layer, level: nat, order: Order, full: Path)
    requires l.Packed? && Rep(m, l, 0, order) && |full| == D && level < |l.items|
    requires forall i :: level <= i < |l.items| ==> l.items[i].key == full[i]
    ensures |l.items| <= D && |Own(l)| == |l.items|
    ensures Written(m, Some(l), level, 0, full) == Written(m, SubAt(l, |l.items| - 1), |l.items|, 0, full)
    ensures RepOf(m, SubAt(l, |l.items| - 1), |l.items|, order)
    decreases |l.items| - level
  {
    hide Rep, Written;
    RootNode(m, l, 0, order);
    var next := WrittenPacked(m, l, 0, level, 0, order, full);
    if level + 1 < |l.items| {
      AlongPacked(m, l, level + 1, order, full);
    }
  }

  /**
   * A compressed node right below a compressed root is read too far by as many keys as the root
   * has: behind the array there is no verdict, and behind the keys in use it is a stale one's.
   */
  lemma {:induction false} ReadsFarKey(m: Memory, l: Layer, order: Order, full: Path, s: Layer)
    requires l.Packed? && Rep(m, l, 0, order) && |full| == D
    requires (forall i :: 0 <= i < |l.items| ==> l.items[i].key == full[i])
    requires |l.items| == |Own(l)| > 0 && SubAt(l, |l.items| - 1) == Some(s) && s.Packed?
    ensures var k := |l.items|;
            && k < D && s.id in m
            && (k >= MAX_DEGREE ==> Written(m, Some(l), 0, 0, full) == None)
            && (k < MAX_DEGREE && m[s.id].keys[k].key != full[k] ==>
                  Written(m, Some(l), 0, 0, full) == Some(m[s.id].keys[k].key.Overlaps(full[k])))
            && (k < |s.items| ==> k < MAX_DEGREE && m[s.id].keys[k] == s.items[k])
  {
    hide Rep, Written;
    AlongPacked(m, l, 0, order, full);
    RootNode(m, s, |l.items|, order);
    var next := WrittenPacked(m, s, |l.items|, |l.items|, 0, order, full);
  }

  // A path that stays on the stored keys does not clash.
  lemma {:induction false} PathInside(t: Trie, d: nat, n: nat) returns (path: Path)
    requires WF(t, d)
    ensures |path| == n && ValidPath(path) && !Clash(false, t, path)
    decreases n
  {
    if n == 0 {
      path := [];
    } else if t.entries == [] {
      path := seq(n, _ => ANY);
    } else {
      var rest := PathInside(t.entries[0].next, d - 1, n - 1);
      path := [t.entries[0].key] + rest;
      assert path[1..] == rest && Find(t.entries, path[0]) == 0;
    }
  }

  /** So where the first two keys of a node below plain levels differ, the verdict on some rule is wrong. */
  lemma {:induction false} SomeVerdictIsWrong(m: Memory, l: Layer, order: Order, way: Path, s: Layer)
    returns (full: Path)
    requires Rep(m, l, 0, order) && way != [] && ValidPath(way) && PlainWay(l, way, |way|, s) && s.Packed?
    requires |s.items| >= 2 && s.items[0].key != s.items[1].key
    ensures |full| == D && ValidPath(full) && way <= full
    ensures Written(m, Some(l), 0, 0, full) != Some(Clash(false, Meaning(l), full))
  {
    hide Rep, Meaning, Flat, Written, Clash, PackedMeaning, WF, PlainWay;
    var n, a, b, rest := |way|, s.items[0].key, s.items[1].key, PackedMeaning(s.items[1..], PackedBelow(s));
    NodeBelow(m, l, 0, order, way, s);
    var inside := PathInside(rest, D - n - 1, D - n - 1);
    var outside := [ANY] + seq(D - n - 2, _ => ANY);
    full := way + [a] + if b.Overlaps(a) then inside else outside;
    assert full[n + 1..] == if b.Overlaps(a) then inside else outside;
    assert full[..n] == way;
    SameWay(l, way, full, n, s);
    ReadsNextKey(m, l, order, full, n, s);
    if !b.Overlaps(a) {
      PackedClash(false, s.items[1..], PackedBelow(s), outside);
    }
  }

  lemma {:induction false} SameWay(l: Layer, way: Path, full: Path, n: nat, s: Layer)
    requires n == |way| <= |full| && full[..n] == way && PlainWay(l, way, n, s)
    ensures PlainWay(l, full, n, s)
    decreases n
  {
    if n > 0 {
      assert way[0] == full[..n][0] == full[0];
      assert full[1..][..n - 1] == full[..n][1..] == way[1..];
      SameWay(SubAt(l, Find(Flat(l.bt), way[0])).value, way[1..], full[1..], n - 1, s);
    }
  }

  lemma {:induction false} NodeBelow(m: Memory, l: Layer, level: nat, order: Order, way: Path, s: Layer)
    requires Rep(m, l, level, order) && PlainWay(l, way, |way|, s) && s.Packed? && |s.items| >= 2
    ensures level + |way| + 2 <= D && s.items[0].key.Valid() && s.items[1].key.Valid()
    ensures WF(PackedMeaning(s.items[1..], PackedBelow(s)), D - level - |way| - 1)
    decreases |way|
  {
    hide Rep, Meaning, Flat, Written, Clash, PackedMeaning, WF;
    if way == [] {
      RootNode(m, s, level, order);
      MeaningWF(m, s, level, order);
      MeaningPacked(s.id, s.items, s.subs);
      RestWF(s.items, PackedBelow(s), D - level);
    } else {
      var p := Find(Flat(l.bt), way[0]);
      BelowIs(m, l, level, order, p);
      NodeBelow(m, SubAt(l, p).value, level + 1, order, way[1..], s);
    }
  }

  lemma {:induction false} RestWF(items: seq<KeyInfo>, below: Trie, d: nat)
    requires items != [] && WF(PackedMeaning(items, below), d)
    ensures d > 0 && WF(PackedMeaning(items[1..], below), d - 1)
  {
    assert PackedMeaning(items, below).entries[0].next == PackedMeaning(items[1..], below);
  }

  function OneKeyNode(x: KeyInfo): (n: Node) {
    var n := NewNode();
    Node(n.keys[0 := x], n.dims, n.children, 1, true, false, None)
  }

  function TwoKeyNode(x: KeyInfo, y: KeyInfo, d: nat, e: nat): (n: Node) {
    var n := NewNode();
    Node(n.keys[0 := x][1 := y], n.dims[0 := d][1 := e], n.children, 2, true, true, None)
  }

  lemma TwoKeysHold(x: KeyInfo, y: KeyInfo, level: nat, order: Order)
    requires x.key.Valid() && y.key.Valid() && x.next == None && level + 2 <= D <= |order|
    ensures HoldsPacked(TwoKeyNode(x, y, order[level], order[level + 1]), [x, y], level, order)
  {
    assert TwoKeyNode(x, y, order[level], order[level + 1]).keys[..2] == [x, y];
  }

  /**
   * A tree that holds a rule for 0..0 and one for 0..0, 0..1, 2..2; a rule for 0..0, 0..0
   * lies inside the second one at the second level, and is not seen to collide.
   */
  lemma MissesCollision(order: Order, v0: Value, v1: Value) returns (m: Memory, l: Layer, full: Path)
    requires D >= 3 && KEY_MAX >= 2 && IsOrder(order)
    ensures full == [Range(0, 0), Range(0, 0)] + seq(D - 2, _ => ANY) && ValidPath(full) && Rep(m, l, 0, order)
    ensures Meaning(l) == Trie([Item(Range(0, 0), v0, Chain([Range(0, 1), Range(2, 2)], v1))])
    ensures Written(m, Some(l), 0, 0, full) == Some(false) && Clash(false, Meaning(l), full) && !Fits(Meaning(l), full)
  {
    hide Rep, Meaning, Flat, Written, Clash, Fits;
    var a: KeyInfo, b: KeyInfo := Item(Range(0, 1), NO_VALUE, None), Item(Range(2, 2), v1, None);
    var x: KeyInfo := Item(Range(0, 0), v0, Some(1));
    var s := Packed(1, [a, b], OnlySub(None));
    m := map[0 := OneKeyNode(x), 1 := TwoKeyNode(a, b, order[1], order[2])];
    l := Single(0, x, Some(s));
    full := [Range(0, 0), Range(0, 0)] + seq(D - 2, _ => ANY);
    TwoKeysHold(a, b, 1, order);
    PackedRep(m, 1, [a, b], None, 1, order);
    assert m[0].keys[..1] == [x];
    SingleRep(m, 0, x, Some(s), 0, order);
    SingleLayer(0, x, s);
    assert full[0] == x.key && PlainWay(s, full[1..], 0, s) && PlainWay(l, full, 1, s);
    ReadsNextKey(m, l, order, full, 1, s);
    MeaningIsWF(m, l, order);
    ClashIsCollision(Meaning(l), D, full);
    TwoKeyMeaning(1, a, b);
    assert [x][0] == x && Entries([x], l.subs)[0].next == Meaning(s);
    MeaningPlain(l.bt, l.h, l.subs);
  }

  lemma {:induction false} TwoKeyMeaning(id: Index, a: KeyInfo, b: KeyInfo)
    requires a.value == NO_VALUE && b.next == None
    ensures Meaning(Packed(id, [a, b], OnlySub(None))) == Chain([a.key, b.key], b.value)
  {
    hide Meaning;
    MeaningPacked(id, [a, b], OnlySub(None));
    assert [a, b][1..] == [b] && [b][1..] == [];
    assert [a.key, b.key][1..] == [b.key];
    NoItems(EMPTY);
  }

  lemma SingleLayer(id: Index, x: KeyInfo, s: Layer)
    requires x.next == Some(Root(s))
    ensures var l := Single(id, x, Some(s)); Flat(l.bt) == [x] && Find(Flat(l.bt), x.key) == 0 && SubAt(l, 0) == Some(s)
  {
  }

  lemma {:induction false} MeaningIsWF(m: Memory, l: Layer, order: Order)
    requires Rep(m, l, 0, order)
    ensures WF(Meaning(l), D)
  {
    MeaningWF(m, l, 0, order);
  }

  // ---------- the repaired walk ----------

  // How the rest of the check will turn out, as seen from this level.
  ghost predicate Checking(both: bool, m: Memory, cur: Option<Layer>, level: nat, start: nat, order: Order, full: Path,
                           answer: bool) {
    && |full| == D && start <= level <= D && RepOf(m, cur, start, order)
    && match cur
       case None => !answer
       case Some(l) =>
         if l.Packed? then
           && level - start < |l.items|
           && answer == Clash(both, PackedMeaning(l.items[level - start..], PackedBelow(l)), full[level..])
         else start == level && answer == Clash(both, Meaning(l), full[level..])
  }

  lemma CheckFrom(both: bool, m: Memory, cur: Option<Layer>, level: nat, order: Order, full: Path)
    requires |full| == D && level <= D && RepOf(m, cur, level, order)
    ensures Checking(both, m, cur, level, level, order, full, Clash(both, MeaningOf(cur), full[level..]))
  {
    hide Rep, Meaning, PackedMeaning;
    if cur.Some? && cur.value.Packed? {
      RootNode(m, cur.value, level, order);
      MeaningPacked(cur.value.id, cur.value.items, cur.value.subs);
      assert cur.value.items[0..] == cur.value.items;
    }
  }

  lemma CheckEnds(both: bool, m: Memory, cur: Option<Layer>, start: nat, order: Order, full: Path, answer: bool)
    requires Checking(both, m, cur, D, start, order, full, answer)
    ensures !answer
  {
  }

  lemma CheckPacked(both: bool, m: Memory, l: Layer, level: nat, start: nat, order: Order, full: Path, answer: bool)
    returns (next: Option<Layer>)
    requires level < D && l.Packed? && Checking(both, m, Some(l), level, start, order, full, answer)
    ensures l.id in m && m[l.id].keyCnt == |l.items| <= MAX_DEGREE && level - start < |l.items|
    ensures var x := m[l.id].keys[level - start];
            if x.key != full[level] then answer == Meet(both, x.key, full[level])
            else if level - start + 1 == |l.items| then
              Checking(both, m, next, level + 1, level + 1, order, full, answer) && RootOf(next) == x.next
            else next == Some(l) && Checking(both, m, next, level + 1, start, order, full, answer)
  {
    hide Rep, Meaning, PackedMeaning, Clash;
    var i := level - start;
    RootNode(m, l, start, order);
    assert l.items[i..][1..] == l.items[i + 1..] && full[level..][1..] == full[level + 1..];
    PackedClash(both, l.items[i..], PackedBelow(l), full[level..]);
    if i + 1 == |l.items| {
      next := SubAt(l, i);
      BelowIs(m, l, start, order, i);
      NoItems(PackedBelow(l));
      CheckFrom(both, m, next, level + 1, order, full);
    } else {
      next := Some(l);
    }
  }

  lemma CheckPlain(both: bool, m: Memory, l: Layer, level: nat, order: Order, full: Path, answer: bool)
    requires level < D && l.Plain? && Checking(both, m, Some(l), level, level, order, full, answer)
    ensures var p := Find(Flat(l.bt), full[level]);
            if p < |Flat(l.bt)| then
              && Checking(both, m, SubAt(l, p), level + 1, level + 1, order, full, answer)
              && RootOf(SubAt(l, p)) == Flat(l.bt)[p].next
            else answer == Overlapped(both, Flat(l.bt), full[level])
  {
    hide Rep, Meaning, Flat, Clash;
    assert full[level..][0] == full[level] && full[level..][1..] == full[level + 1..];
    PlainClash(both, m, l, level, order, full[level..]);
    var p := Find(Flat(l.bt), full[level]);
    if p < |Flat(l.bt)| {
      BelowIs(m, l, level, order, p);
      CheckFrom(both, m, SubAt(l, p), level + 1, order, full);
    }
  }

  /**
   * The check with both places repaired that set the level where a node starts. It gives
   * the intended verdict on every tree, and the exact one on nested or disjoint ranges. With
   * the relation of ranges asked both ways as well, it is exact for every rule.
   */
  method DoesRuleCollideRepaired(pool: NodePool, root: Option<Index>, order: Order, rule: Rule, both: bool,
                                 ghost l: Option<Layer>)
    returns (r: bool)
    requires RepOf(pool.slots, l, 0, order) && RootOf(l) == root && IsOrder(order) && ValidRule(rule)
    ensures r == Clash(both, MeaningOf(l), InOrder(order, rule.filter))
    ensures both || NestedOnPath(MeaningOf(l), InOrder(order, rule.filter)) ==>
        r == !Fits(MeaningOf(l), InOrder(order, rule.filter))
  {
    hide Rep, Meaning, Flat, Checking, Clash, Fits, NestedOnPath, InOrder;
    ghost var full := InOrder(order, rule.filter);
    ghost var answer := Clash(both, MeaningOf(l), full);
    assert full[0..] == full;
    CheckFrom(both, pool.slots, l, 0, order, full);
    AnyMeaningWF(pool.slots, l, order);
    ClashIsCollision(MeaningOf(l), D, full);
    BothWaysExact(MeaningOf(l), D, full);
    ghost var cur := l;
    var n, startOfThisNode := root, 0;
    for level := 0 to D
      invariant RootOf(cur) == n && 0 <= startOfThisNode <= level
      invariant Checking(both, pool.slots, cur, level, startOfThisNode, order, full, answer)
    {
      CheckingRep(both, pool.slots, cur, level, startOfThisNode, order, full, answer);
      if n.None? {
        return false;
      }
      ghost var layer := cur.value;
      NodeKind(pool.slots, layer, startOfThisNode, order);
      var k := rule.filter[order[level]];
      assert k == full[level];
      if pool.slots[n.value].isCompressed {
        var i := level - startOfThisNode;
        cur := CheckPacked(both, pool.slots, layer, level, startOfThisNode, order, full, answer);
        var stored := pool.slots[n.value].keys[i].key;
        if stored == k {
        } else if Meet(both, stored, k) {
          return true;
        } else {
          return false;
        }
        if i + 1 == pool.slots[n.value].keyCnt {
          n, startOfThisNode := pool.slots[n.value].keys[i].next, level + 1;
        }
      } else {
        CheckPlain(both, pool.slots, layer, level, order, full, answer);
        var same, next, clash := CheckLevel(pool, n.value, k, both, layer, level, order);
        if !same {
          return clash;
        }
        cur := SubAt(layer, Find(Flat(layer.bt), k));
        n, startOfThisNode := next, level + 1;
      }
    }
    CheckEnds(both, pool.slots, cur, startOfThisNode, order, full, answer);
    return false;
  }

  lemma CheckingRep(both: bool, m: Memory, cur: Option<Layer>, level: nat, start: nat, order: Order, full: Path,
                    answer: bool)
    requires Checking(both, m, cur, level, start, order, full, answer)
    ensures RepOf(m, cur, start, order) && (cur.None? ==> !answer)
    ensures cur.Some? && cur.value.Plain? ==> start == level
  {
  }

  lemma AnyMeaningWF(m: Memory, l: Option<Layer>, order: Order)
    requires RepOf(m, l, 0, order)
    ensures WF(MeaningOf(l), D)
  {
    if l.Some? {
      MeaningIsWF(m, l.value, order);
    }
  }
}
