/** Listing all the rules of a tree (_BTreeToRules::to_rules). */
module RuleDump {
  import opened Ranges
  import opened Items
  import opened Nodes
  import opened Interleave
  import opened BTrees
  import opened Tries
  import opened Layers
  import opened RuleSpecs
  import opened LayerUpdates
  import opened LayerSearch
  import opened RuleTrees

  // ---------- the order in which nodes are visited ----------

  ghost function PartRules(parts: seq<seq<KeyInfo>>, subs: map<Index, Layer>, prefix: Path): multiset<(Path, Value)> {
    if parts == [] then multiset{}
    else EntryRules(Entries(parts[0], subs), prefix) + PartRules(parts[1..], subs, prefix)
  }

  lemma EntriesConcat(a: seq<KeyInfo>, b: seq<KeyInfo>, subs: map<Index, Layer>)
    ensures Entries(a + b, subs) == Entries(a, subs) + Entries(b, subs)
  {
  }

  lemma {:induction false} RulesOfConcat(a: seq<KeyInfo>, b: seq<KeyInfo>, subs: map<Index, Layer>, prefix: Path)
    ensures EntryRules(Entries(a + b, subs), prefix) ==
            EntryRules(Entries(a, subs), prefix) + EntryRules(Entries(b, subs), prefix)
  {
    EntriesConcat(a, b, subs);
    RulesConcat(Entries(a, subs), Entries(b, subs), prefix);
  }

  // A node's own keys and then its children list what the in-order sequence lists.
  lemma {:induction false} ZipRules(own: seq<KeyInfo>, parts: seq<seq<KeyInfo>>, subs: map<Index, Layer>, prefix: Path)
    requires |parts| == |own| + 1
    ensures EntryRules(Entries(Zip(own, parts), subs), prefix) ==
            EntryRules(Entries(own, subs), prefix) + PartRules(parts, subs, prefix)
  {
    if own == [] {
      assert PartRules(parts[1..], subs, prefix) == multiset{};
      assert Entries(own, subs) == [];
    } else {
      var rest := Zip(own[1..], parts[1..]);
      ZipRules(own[1..], parts[1..], subs, prefix);
      RulesOfConcat(parts[0] + [own[0]], rest, subs, prefix);
      RulesOfConcat(parts[0], [own[0]], subs, prefix);
      RulesOfConcat([own[0]], own[1..], subs, prefix);
      assert [own[0]] + own[1..] == own;
      SumShuffle(EntryRules(Entries(parts[0], subs), prefix), EntryRules(Entries([own[0]], subs), prefix),
                 EntryRules(Entries(own[1..], subs), prefix), PartRules(parts[1..], subs, prefix));
    }
  }

  lemma SumShuffle<A>(p: multiset<A>, x: multiset<A>, o: multiset<A>, q: multiset<A>)
    ensures (p + x) + (o + q) == (x + o) + (p + q)
  {
  }

  lemma {:induction false} PartRulesSnoc(parts: seq<seq<KeyInfo>>, part: seq<KeyInfo>, subs: map<Index, Layer>,
                                         prefix: Path)
    ensures PartRules(parts + [part], subs, prefix) ==
            PartRules(parts, subs, prefix) + EntryRules(Entries(part, subs), prefix)
  {
    if parts == [] {
      assert (parts + [part])[1..] == [];
    } else {
      assert (parts + [part])[1..] == parts[1..] + [part];
      PartRulesSnoc(parts[1..], part, subs, prefix);
    }
  }

  lemma {:induction false} ItemRulesSnoc(items: seq<KeyInfo>, x: KeyInfo, subs: map<Index, Layer>, prefix: Path)
    ensures EntryRules(Entries(items + [x], subs), prefix) ==
            EntryRules(Entries(items, subs), prefix)
            + (One(prefix + [x.key], x.value) + Rules(Below(subs, x.next), prefix + [x.key]))
  {
    RulesOfConcat(items, [x], subs, prefix);
    var es := Entries([x], subs);
    assert es == [AsEntry(x, subs)] && es[1..] == [];
  }

  // ---------- the path so far, as a filter ----------

  lemma FilterSet(order: Order, prefix: Path, k: Range)
    requires IsOrder(order) && |prefix| < D
    ensures FilterOf(order, prefix)[order[|prefix|] := k] == FilterOf(order, prefix + [k])
    ensures FilterOf(order, prefix + [k])[order[|prefix|] := ANY] == FilterOf(order, prefix)
  {
    var path := prefix + [k];
    IndexIs(order, |prefix|);
    forall d | 0 <= d < D
      ensures d != order[|prefix|] ==> FieldOf(order, path, d) == FieldOf(order, prefix, d)
      ensures d == order[|prefix|] ==> FieldOf(order, path, d) == k && FieldOf(order, prefix, d) == ANY
    {
    }
  }

  // ---------- the walk ----------

  // Everything below the keys of this subtree is in the memory.
  ghost predicate Hanging(m: Memory, items: seq<KeyInfo>, subs: map<Index, Layer>, level: nat, order: Order) {
    forall i :: 0 <= i < |items| ==> Hangs(m, items[i], subs, level, order)
  }

  ghost predicate Hangs(m: Memory, x: KeyInfo, subs: map<Index, Layer>, level: nat, order: Order) {
    x.next.Some? ==>
      x.next.value in subs && Root(subs[x.next.value]) == x.next.value && Rep(m, subs[x.next.value], level, order)
  }

  lemma {:induction false} LayerHangs(m: Memory, l: Layer, level: nat, order: Order)
    requires Rep(m, l, level, order)
    ensures Hanging(m, Own(l), l.subs, level + Span(l), order)
  {
    forall i | 0 <= i < |Own(l)|
      ensures Hangs(m, Own(l)[i], l.subs, level + Span(l), order)
    {
      BelowIs(m, l, level, order, i);
    }
  }

  lemma {:induction false} KidHangs(m: Memory, t: BT, i: nat, subs: map<Index, Layer>, level: nat, order: Order)
    requires |t.kids| == |t.items| + 1 && i <= |t.items| && Hanging(m, Flat(t), subs, level, order)
    ensures Hanging(m, Flat(t.kids[i]), subs, level, order)
  {
    hide Flat, Hangs, LeftOf, RightOf;
    FlatAt(t, i);
    var l, f := LeftOf(t, i), Flat(t.kids[i]);
    assert forall j :: 0 <= j < |f| ==> f[j] == Flat(t)[|l| + j];
  }

  lemma {:induction false} OwnHangs(m: Memory, t: BT, i: nat, subs: map<Index, Layer>, level: nat, order: Order)
    requires t.kids == [] || |t.kids| == |t.items| + 1
    requires i < |t.items| && Hanging(m, Flat(t), subs, level, order)
    ensures Hangs(m, t.items[i], subs, level, order)
  {
    hide Hangs;
    if t.kids != [] {
      FlatAround(t, i);
      assert Flat(t)[|LeftOf(t, i)| + |Flat(t.kids[i])|] == t.items[i];
    }
  }

  ghost function SubOf(subs: map<Index, Layer>, next: Option<Index>): Option<Layer> {
    if next.Some? && next.value in subs then Some(subs[next.value]) else None
  }

  // What was appended, given by paths.
  ghost predicate Appended(before: seq<Rule>, after: seq<Rule>, order: Order, ps: seq<(Path, Value)>,
                           bag: multiset<(Path, Value)>)
    requires IsOrder(order)
  {
    after == before + RulesAt(order, ps) && multiset(ps) == bag
  }

  lemma AppendedThen(r0: seq<Rule>, r1: seq<Rule>, r2: seq<Rule>, order: Order,
                   ps: seq<(Path, Value)>, qs: seq<(Path, Value)>,
                   a: multiset<(Path, Value)>, b: multiset<(Path, Value)>)
    requires IsOrder(order) && Appended(r0, r1, order, ps, a) && Appended(r1, r2, order, qs, b)
    ensures Appended(r0, r2, order, ps + qs, a + b)
  {
    hide RuleAt;
    assert RulesAt(order, ps + qs) == RulesAt(order, ps) + RulesAt(order, qs);
  }

  class Dump {
    var res: seq<Rule>
    var actualPath: seq<Range>

    constructor ()
      ensures res == [] && actualPath == seq(D, _ => ANY)
    {
      res := [];
      actualPath := seq(D, _ => ANY);
    }

    // The actual path is that of the keys passed so far.
    ghost predicate At(order: Order, prefix: Path)
      requires IsOrder(order)
      reads this
    {
      actualPath == FilterOf(order, prefix)
    }

    // Enters a key and lists its rule if there is one.
    method Visit(order: Order, level: nat, x: KeyInfo, ghost prefix: Path) returns (ghost ps: seq<(Path, Value)>)
      requires IsOrder(order) && level == |prefix| < D
      requires actualPath == FilterOf(order, prefix) || exists k :: actualPath == FilterOf(order, prefix + [k])
      modifies this
      ensures At(order, prefix + [x.key])
      ensures Appended(old(res), res, order, ps, One(prefix + [x.key], x.value))
    {
      hide FilterOf;
      FilterSet(order, prefix, x.key);
      if actualPath != FilterOf(order, prefix) {
        ghost var k :| actualPath == FilterOf(order, prefix + [k]);
        FilterSet(order, prefix, k);
        assert FilterOf(order, prefix + [k])[order[level] := ANY][order[level] := x.key]
               == actualPath[order[level] := x.key];
      }
      actualPath := actualPath[order[level] := x.key];
      ps := [];
      if x.value.IsValid() {
        res := res + [Rule(actualPath, x.value)];
        ps := [(prefix + [x.key], x.value)];
        assert RulesAt(order, ps) == [RuleAt(order, ps[0])];
      }
    }

    // Leaves the keys of a level again.
    method Leave(order: Order, level: nat, ghost prefix: Path)
      requires IsOrder(order) && level == |prefix| < D
      requires actualPath == FilterOf(order, prefix) || exists k :: actualPath == FilterOf(order, prefix + [k])
      modifies this
      ensures At(order, prefix) && res == old(res)
    {
      hide FilterOf;
      if actualPath != FilterOf(order, prefix) {
        ghost var k :| actualPath == FilterOf(order, prefix + [k]);
        FilterSet(order, prefix, k);
      } else {
        FilterSet(order, prefix, ANY);
        assert actualPath[order[level] := ANY] == FilterOf(order, prefix + [ANY]);
        FilterAny(order, prefix);
      }
      actualPath := actualPath[order[level] := ANY];
    }

    method DumpKeys(pool: NodePool, n: Index, level: nat, order: Order, ghost prefix: Path, ghost t: BT,
                    ghost parent: Option<Index>,
                    ghost h: nat, ghost subs: map<Index, Layer>) returns (ghost ps: seq<(Path, Value)>)
      requires Walking(pool.slots, n, level, order, prefix, t, parent, h, subs) && At(order, prefix)
      modifies this
      ensures At(order, prefix)
      ensures Appended(old(res), res, order, ps, EntryRules(Entries(t.items, subs), prefix))
      decreases D - level, 0, h, 1
    {
      hide Rep, FilterOf, Meaning, Rules, Sub, Hanging, RulesAt, IsOrder, Entries, AllIds, EntryRules;
      NodeShape(pool.slots, t, parent, h);
      KidsHold(pool.slots, t, parent, h);
      ps := [];
      NothingYet(res, order, subs, prefix);
      assert t.items[..0] == [];
      var i := 0;
      while i < pool.slots[n].keyCnt
        invariant 0 <= i <= |t.items|
        invariant actualPath == FilterOf(order, prefix) || exists k :: actualPath == FilterOf(order, prefix + [k])
        invariant Appended(old(res), res, order, ps, EntryRules(Entries(t.items[..i], subs), prefix))
      {
        var x := pool.slots[n].keys[i];
        assert t.items[..i + 1] == t.items[..i] + [x];
        OwnHangs(pool.slots, t, i, subs, level + 1, order);
        ItemRulesSnoc(t.items[..i], x, subs, prefix);
        ghost var r0 := res;
        ghost var q1 := Visit(order, level, x, prefix);
        ghost var r1 := res;
        ghost var q2 := DumpLayer(pool, x.next, level + 1, order, prefix + [x.key], SubOf(subs, x.next));
        AppendedThen(r0, r1, res, order, q1, q2, One(prefix + [x.key], x.value),
                     Rules(Below(subs, x.next), prefix + [x.key]));
        AppendedThen(old(res), r0, res, order, ps, q1 + q2, EntryRules(Entries(t.items[..i], subs), prefix),
                   One(prefix + [x.key], x.value) + Rules(Below(subs, x.next), prefix + [x.key]));
        ps := ps + (q1 + q2);
        i := i + 1;
      }
      assert t.items[..i] == t.items;
      Leave(order, level, prefix);
    }

    method DumpChildren(pool: NodePool, n: Index, level: nat, order: Order, ghost prefix: Path, ghost t: BT,
                        ghost parent: Option<Index>,
                        ghost h: nat, ghost subs: map<Index, Layer>) returns (ghost ps: seq<(Path, Value)>)
      requires Walking(pool.slots, n, level, order, prefix, t, parent, h, subs) && At(order, prefix)
      modifies this
      ensures At(order, prefix)
      ensures Appended(old(res), res, order, ps, PartRules(Parts(t.kids), subs, prefix))
      decreases D - level, 0, h, 1
    {
      hide Rep, FilterOf, Meaning, Rules, Sub, Hanging, RulesAt, IsOrder, Entries, AllIds, EntryRules, PartRules, Parts,
          Flat;
      NodeShape(pool.slots, t, parent, h);
      KidsHold(pool.slots, t, parent, h);
      ps := [];
      NothingYet(res, order, subs, prefix);
      ghost var parts := Parts(t.kids);
      var i := 0;
      while i < pool.slots[n].keyCnt + 1
        invariant 0 <= i <= |t.items| + 1 && At(order, prefix)
        invariant Appended(old(res), res, order, ps, PartRules(parts[..if h == 0 then 0 else i], subs, prefix))
      {
        var c := pool.slots[n].children[i];
        if c.Some? {
          KidHangs(pool.slots, t, i, subs, level + 1, order);
          assert parts[..i + 1] == parts[..i] + [Flat(t.kids[i])];
          PartRulesSnoc(parts[..i], Flat(t.kids[i]), subs, prefix);
          ghost var r0 := res;
          ghost var qs := DumpTree(pool, c.value, level, order, prefix, t.kids[i], Some(n), h - 1, subs);
          AppendedThen(old(res), r0, res, order, ps, qs, PartRules(parts[..i], subs, prefix),
                     EntryRules(Entries(Flat(t.kids[i]), subs), prefix));
          ps := ps + qs;
        }
        i := i + 1;
      }
      assert parts[..if h == 0 then 0 else i] == parts;
    }

    // The node, its next layers and its children.
    method DumpTree(pool: NodePool, n: Index, level: nat, order: Order, ghost prefix: Path, ghost t: BT,
                    ghost parent: Option<Index>,
                    ghost h: nat, ghost subs: map<Index, Layer>) returns (ghost ps: seq<(Path, Value)>)
      requires Walking(pool.slots, n, level, order, prefix, t, parent, h, subs) && At(order, prefix)
      modifies this
      ensures At(order, prefix)
      ensures Appended(old(res), res, order, ps, EntryRules(Entries(Flat(t), subs), prefix))
      decreases D - level, 0, h, 2
    {
      hide Rep, FilterOf, Meaning, Rules, Sub, Hanging, RulesAt, IsOrder, Entries, AllIds, EntryRules, PartRules, Parts,
          Flat;
      ghost var r0 := res;
      ghost var q1 := DumpKeys(pool, n, level, order, prefix, t, parent, h, subs);
      ghost var r1 := res;
      ghost var q2 := DumpChildren(pool, n, level, order, prefix, t, parent, h, subs);
      ps := q1 + q2;
      AppendedThen(r0, r1, res, order, q1, q2, EntryRules(Entries(t.items, subs), prefix),
                   PartRules(Parts(t.kids), subs, prefix));
      TreeRules(pool.slots, t, parent, h, subs, prefix);
    }

    method DumpPacked(pool: NodePool, n: Index, level: nat, order: Order, ghost prefix: Path, ghost l: Layer)
      returns (ghost ps: seq<(Path, Value)>)
      requires l.Packed? && Rep(pool.slots, l, level, order) && l.id == n
      requires IsOrder(order) && |prefix| == level && At(order, prefix)
      modifies this
      ensures At(order, prefix)
      ensures Appended(old(res), res, order, ps, Rules(Meaning(l), prefix))
      decreases D - level, 0, 0, 1
    {
      hide Rep, FilterOf, Meaning, Rules, RulesAt, IsOrder, AllIds, PackedLeft, PackedPath;
      RootNode(pool.slots, l, level, order);
      ps := [];
      NothingAppended(res, order);
      PackedAll(l, prefix);
      ghost var total := Rules(Meaning(l), prefix);
      ghost var bag: multiset<(Path, Value)> := multiset{};
      var i := 0;
      while i < pool.slots[n].keyCnt
        invariant 0 <= i <= |l.items|
        invariant At(order, PackedPath(l, prefix, i))
        invariant Appended(old(res), res, order, ps, bag) && bag + PackedLeft(l, prefix, i) == total
      {
        ghost var r0 := res;
        ghost var q := DumpPackedKey(pool, n, level, order, prefix, l, i);
        KeyStep(pool.slots, l, level, order, prefix, i, bag);
        AppendedThen(old(res), r0, res, order, ps, q, bag, KeyRules(l, prefix, i));
        ps := ps + q;
        bag := bag + KeyRules(l, prefix, i);
        i := i + 1;
      }
      PackedNone(l, prefix);
      assert bag == total;
      LeavePacked(pool, n, level, order, prefix, l);
    }

    // One key of a compressed node and what lies below it.
    method DumpPackedKey(pool: NodePool, n: Index, level: nat, order: Order, ghost prefix: Path, ghost l: Layer, i: nat)
      returns (ghost q: seq<(Path, Value)>)
      requires l.Packed? && Rep(pool.slots, l, level, order) && l.id == n && i < |l.items|
      requires IsOrder(order) && |prefix| == level && At(order, PackedPath(l, prefix, i))
      modifies this
      ensures At(order, PackedPath(l, prefix, i + 1))
      ensures Appended(old(res), res, order, q, KeyRules(l, prefix, i))
      decreases D - level, 0, 0, 0
    {
      hide Rep, FilterOf, Meaning, Rules, RulesAt, IsOrder, AllIds, PackedLeft, PackedPath;
      RootNode(pool.slots, l, level, order);
      PackedNext(pool.slots, l, level, order, prefix, i);
      var x := pool.slots[n].keys[i];
      ghost var path := PackedPath(l, prefix, i);
      ghost var q1 := Visit(order, level + i, x, path);
      ghost var r1 := res;
      ghost var q2 := DumpLayer(pool, x.next, level + i + 1, order, path + [x.key], SubOf(l.subs, x.next));
      AppendedThen(old(res), r1, res, order, q1, q2,
                   One(path + [x.key], x.value), Rules(Below(l.subs, x.next), path + [x.key]));
      q := q1 + q2;
    }

    // Leaves all the levels of a compressed node.
    method LeavePacked(pool: NodePool, n: Index, level: nat, order: Order, ghost prefix: Path, ghost l: Layer)
      requires l.Packed? && Rep(pool.slots, l, level, order) && l.id == n
      requires IsOrder(order) && |prefix| == level && At(order, PackedPath(l, prefix, |l.items|))
      modifies this
      ensures At(order, prefix) && res == old(res)
    {
      hide Rep;
      RootNode(pool.slots, l, level, order);
      ghost var path := PackedPath(l, prefix, |l.items|);
      var i := 0;
      while i < pool.slots[n].keyCnt
        invariant 0 <= i <= |l.items| && res == old(res)
        invariant |actualPath| == D
        invariant forall d :: 0 <= d < D ==>
            actualPath[d] == if Cleared(order, level, i, d) then ANY else FieldOf(order, path, d)
      {
        actualPath := actualPath[order[level + i] := ANY];
        i := i + 1;
      }
      AllCleared(order, prefix, l, level);
      assert actualPath == FilterOf(order, prefix);
    }

    /** Lists the rules of a layer and of all the layers below it. */
    method DumpLayer(pool: NodePool, n: Option<Index>, level: nat, order: Order, ghost prefix: Path,
                     ghost l: Option<Layer>)
      returns (ghost ps: seq<(Path, Value)>)
      requires RepOf(pool.slots, l, level, order) && RootOf(l) == n
      requires IsOrder(order) && |prefix| == level && At(order, prefix)
      modifies this
      ensures At(order, prefix)
      ensures Appended(old(res), res, order, ps, Rules(MeaningOf(l), prefix))
      decreases D - level, 1, 0, 0
    {
      hide Rep, FilterOf, Meaning, Rules, Hanging, RulesAt, IsOrder, Entries, AllIds, EntryRules, Flat;
      if n.None? {
        ps := [];
        NothingAppended(res, order);
        NoRules(prefix);
      } else {
        RootNode(pool.slots, l.value, level, order);
        if pool.slots[n.value].isCompressed {
          ps := DumpPacked(pool, n.value, level, order, prefix, l.value);
        } else {
          LayerHangs(pool.slots, l.value, level, order);
          MeaningPlain(l.value.bt, l.value.h, l.value.subs);
          RulesAreEntries(Meaning(l.value), prefix);
          ps := DumpTree(pool, n.value, level, order, prefix, l.value.bt, None, l.value.h, l.value.subs);
        }
      }
    }
  }

  // What the walk of a plain node relies on.
  ghost predicate Walking(m: Memory, n: Index, level: nat, order: Order, prefix: Path, t: BT, parent: Option<Index>,
                          h: nat, subs: map<Index, Layer>) {
    && IsOrder(order) && level == |prefix| < D && t.id == n
    && Sub(m, t, parent, h) && Hanging(m, Flat(t), subs, level + 1, order)
  }

  lemma NothingAppended(r: seq<Rule>, order: Order)
    requires IsOrder(order)
    ensures Appended(r, r, order, [], multiset{})
  {
    assert r + RulesAt(order, []) == r;
  }

  lemma {:induction false} NothingYet(r: seq<Rule>, order: Order, subs: map<Index, Layer>, prefix: Path)
    requires IsOrder(order)
    ensures Appended(r, r, order, [], EntryRules(Entries([], subs), prefix))
    ensures Appended(r, r, order, [], PartRules([], subs, prefix))
  {
    NothingAppended(r, order);
  }

  lemma {:induction false} NoRules(prefix: Path)
    ensures Rules(EMPTY, prefix) == multiset{}
  {
  }

  lemma {:induction false} RulesAreEntries(t: Trie, prefix: Path)
    ensures Rules(t, prefix) == EntryRules(t.entries, prefix)
  {
  }

  lemma {:induction false} TreeRules(m: Memory, t: BT, parent: Option<Index>, h: nat, subs: map<Index, Layer>,
                                     prefix: Path)
    requires Sub(m, t, parent, h)
    ensures EntryRules(Entries(Flat(t), subs), prefix) ==
            EntryRules(Entries(t.items, subs), prefix) + PartRules(Parts(t.kids), subs, prefix)
  {
    hide EntryRules, Entries;
    if h > 0 {
      ZipRules(t.items, Parts(t.kids), subs, prefix);
    } else {
      assert Parts(t.kids) == [];
    }
  }

  // ---------- compressed nodes ----------

  ghost function PackedPath(l: Layer, prefix: Path, i: nat): (path: Path)
    requires l.Packed? && i <= |l.items|
    ensures |path| == |prefix| + i
  {
    prefix + seq(i, j requires 0 <= j < i => l.items[j].key)
  }

  // The rules of the keys from number i on and of what lies below the last one.
  ghost function PackedLeft(l: Layer, prefix: Path, i: nat): multiset<(Path, Value)>
    requires l.Packed? && i <= |l.items|
  {
    if i == |l.items| then multiset{}
    else Rules(PackedMeaning(l.items[i..], PackedBelow(l)), PackedPath(l, prefix, i))
  }

  lemma {:induction false} PackedAll(l: Layer, prefix: Path)
    requires l.Packed? && l.items != []
    ensures PackedLeft(l, prefix, 0) == Rules(Meaning(l), prefix) && PackedPath(l, prefix, 0) == prefix
  {
    MeaningPacked(l.id, l.items, l.subs);
    assert l.items[0..] == l.items && PackedPath(l, prefix, 0) == prefix;
  }

  lemma PackedNone(l: Layer, prefix: Path)
    requires l.Packed?
    ensures PackedLeft(l, prefix, |l.items|) == multiset{}
  {
  }

  lemma {:induction false} SingleEntryRules(e: Entry, prefix: Path)
    ensures Rules(Trie([e]), prefix) == One(prefix + [e.key], e.value) + Rules(e.next, prefix + [e.key])
  {
    assert [e][1..] == [];
    assert EntryRules([e], prefix) == ItemRules(e, prefix);
  }

  // What the dump lists for one key of a compressed node.
  ghost function KeyRules(l: Layer, prefix: Path, i: nat): multiset<(Path, Value)>
    requires l.Packed? && i < |l.items|
  {
    var x, path := l.items[i], PackedPath(l, prefix, i);
    One(path + [x.key], x.value) + Rules(Below(l.subs, x.next), path + [x.key])
  }

  lemma {:induction false} KeyStep(m: Memory, l: Layer, level: nat, order: Order, prefix: Path, i: nat,
                                   bag: multiset<(Path, Value)>)
    requires l.Packed? && Rep(m, l, level, order) && i < |l.items|
    ensures bag + PackedLeft(l, prefix, i) == bag + KeyRules(l, prefix, i) + PackedLeft(l, prefix, i + 1)
  {
    hide Rep, PackedLeft, PackedPath, Meaning, Rules;
    var x, path := l.items[i], PackedPath(l, prefix, i);
    PackedNext(m, l, level, order, prefix, i);
    PackedTake(bag, One(path + [x.key], x.value), Rules(Below(l.subs, x.next), path + [x.key]),
               PackedLeft(l, prefix, i), PackedLeft(l, prefix, i + 1));
  }

  lemma {:induction false} PackedNext(m: Memory, l: Layer, level: nat, order: Order, prefix: Path, i: nat)
    requires l.Packed? && Rep(m, l, level, order) && i < |l.items|
    ensures var x, path := l.items[i], PackedPath(l, prefix, i);
            && PackedPath(l, prefix, i + 1) == path + [x.key]
            && PackedLeft(l, prefix, i) ==
               One(path + [x.key], x.value) + Rules(Below(l.subs, x.next), path + [x.key])
                   + PackedLeft(l, prefix, i + 1)
            && RepOf(m, SubOf(l.subs, x.next), level + i + 1, order)
            && RootOf(SubOf(l.subs, x.next)) == x.next
            && MeaningOf(SubOf(l.subs, x.next)) == Below(l.subs, x.next)
  {
    hide Rep, Meaning, Rules, RepOf, PackedLeft, PackedPath;
    RootNode(m, l, level, order);
    BelowIs(m, l, level, order, i);
    NothingRep(m, level + i + 1, order);
    PackedLeftNext(l, prefix, i);
  }

  lemma PackedLeftNext(l: Layer, prefix: Path, i: nat)
    requires l.Packed? && i < |l.items| && (i + 1 < |l.items| ==> l.items[i].next == None)
    ensures var x, path := l.items[i], PackedPath(l, prefix, i);
            && PackedPath(l, prefix, i + 1) == path + [x.key]
            && PackedLeft(l, prefix, i) ==
               One(path + [x.key], x.value) + Rules(Below(l.subs, x.next), path + [x.key])
                   + PackedLeft(l, prefix, i + 1)
  {
    hide Rules, Below;
    var x, path := l.items[i], PackedPath(l, prefix, i);
    assert PackedPath(l, prefix, i + 1) == path + [x.key];
    var rest := PackedMeaning(l.items[i + 1..], PackedBelow(l));
    assert l.items[i..][1..] == l.items[i + 1..];
    SingleEntryRules(Item(x.key, x.value, rest), path);
    NoRules(path + [x.key]);
    if i + 1 < |l.items| {
      NothingBelow(l.subs, x.next);
    }
  }

  lemma NothingBelow(subs: map<Index, Layer>, next: Option<Index>)
    requires next == None
    ensures Below(subs, next) == EMPTY
  {
  }

  lemma NothingRep(m: Memory, level: nat, order: Order)
    ensures RepOf(m, None, level, order)
  {
  }

  lemma PackedTake<A>(bag: multiset<A>, one: multiset<A>, below: multiset<A>, left: multiset<A>, rest: multiset<A>)
    requires left == one + below + rest
    ensures bag + left == bag + (one + below) + rest
  {
  }

  ghost predicate Cleared(order: Order, level: nat, n: nat, d: nat)
    requires level + n <= |order|
  {
    exists j :: level <= j < level + n && order[j] == d
  }

  lemma AllCleared(order: Order, prefix: Path, l: Layer, level: nat)
    requires IsOrder(order) && l.Packed? && |prefix| == level && level + |l.items| <= D
    ensures forall d :: 0 <= d < D ==>
              FieldOf(order, prefix, d) ==
              if Cleared(order, level, |l.items|, d) then ANY else FieldOf(order, PackedPath(l, prefix, |l.items|), d)
  {
    var path := PackedPath(l, prefix, |l.items|);
    forall d | 0 <= d < D
      ensures FieldOf(order, prefix, d) == if Cleared(order, level, |l.items|, d) then ANY else FieldOf(order, path, d)
    {
      var i := OrderCovers(order, d);
      IndexIs(order, i);
      if level <= i < level + |l.items| {
        assert order[i] == d;
      } else {
        assert forall j :: level <= j < level + |l.items| ==> order[j] != order[i];
      }
    }
  }

  lemma FilterAny(order: Order, prefix: Path)
    requires IsOrder(order) && |prefix| < D
    ensures FilterOf(order, prefix + [ANY]) == FilterOf(order, prefix)
  {
    forall d | 0 <= d < D
      ensures FieldOf(order, prefix + [ANY], d) == FieldOf(order, prefix, d)
    {
    }
  }
}
