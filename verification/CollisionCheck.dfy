/** Deciding whether a rule fits into a tree (BTreeCollisionCheck::does_rule_colide). */
module CollisionCheck {
  import opened Ranges
  import opened Items
  import opened Nodes
  import opened BTrees
  import opened BTreePositions
  import opened BTreeSearch
  import opened BTreeIterator
  import opened Tries
  import opened Layers
  import opened LayerUpdates
  import opened LayerSearch
  import opened LayerPaths

  // ---------- what is decided ----------

  ghost predicate Overlapped<N>(both: bool, s: seq<Item<N>>, k: Range) {
    exists i :: 0 <= i < |s| && Meet(both, s[i].key, k)
  }

  // At the first level where the rule's range is no stored key it overlaps some key, as
  // `overlaps` has it, asked one way or both ways.
  ghost predicate Clash(both: bool, t: Trie, path: Path) {
    path != [] &&
    var p := Find(t.entries, path[0]);
    if p < |t.entries| then Clash(both, t.entries[p].next, path[1..]) else Overlapped(both, t.entries, path[0])
  }

  // The same level has no overlapped key, but one that the rule runs into from the left.
  ghost predicate Missed(t: Trie, path: Path) {
    path != [] &&
    var p := Find(t.entries, path[0]);
    if p < |t.entries| then Missed(t.entries[p].next, path[1..])
    else
      && !Overlapped(false, t.entries, path[0])
      && exists i :: 0 <= i < |t.entries| && RunsInto(path[0], t.entries[i].key)
  }

  ghost predicate RunsInto(k: Range, stored: Range) {
    k.low < stored.low <= k.high < stored.high
  }

  // All ranges of the rule are nested in or disjoint from the keys that it meets.
  ghost predicate NestedOnPath(t: Trie, path: Path) {
    path != [] ==>
      && (forall i :: 0 <= i < |t.entries| ==> NestedOrDisjoint(t.entries[i].key, path[0]))
      && var p := Find(t.entries, path[0]);
         p < |t.entries| ==> NestedOnPath(t.entries[p].next, path[1..])
  }

  // The verdict is right unless the rule runs into a key from the left.
  lemma {:induction false} ClashIsCollision(t: Trie, d: nat, path: Path)
    requires WF(t, d) && ValidPath(path)
    ensures (Clash(false, t, path) <==> !Fits(t, path)) <==> !Missed(t, path)
    ensures Clash(false, t, path) ==> !Fits(t, path)
    ensures NestedOnPath(t, path) ==> !Missed(t, path)
    decreases |path|
  {
    if path != [] {
      var p := Find(t.entries, path[0]);
      assert forall i :: 0 <= i < |path| - 1 ==> path[1..][i] == path[i + 1];
      if p < |t.entries| {
        ClashIsCollision(t.entries[p].next, d - 1, path[1..]);
      } else {
        forall i | 0 <= i < |t.entries|
          ensures t.entries[i].key.DisjointFrom(path[0]) <==>
                  !Meet(false, t.entries[i].key, path[0]) && !RunsInto(path[0], t.entries[i].key)
          ensures path[0].DisjointFrom(t.entries[i].key) == t.entries[i].key.DisjointFrom(path[0])
          ensures NestedOrDisjoint(t.entries[i].key, path[0]) ==> !RunsInto(path[0], t.entries[i].key)
        {
          OverlapsExactly(t.entries[i].key, path[0]);
        }
      }
    }
  }

  // Asked both ways it is right for every rule.
  lemma {:induction false} BothWaysExact(t: Trie, d: nat, path: Path)
    requires WF(t, d) && ValidPath(path)
    ensures Clash(true, t, path) <==> !Fits(t, path)
    decreases |path|
  {
    if path != [] {
      var p := Find(t.entries, path[0]);
      assert forall i :: 0 <= i < |path| - 1 ==> path[1..][i] == path[i + 1];
      if p < |t.entries| {
        BothWaysExact(t.entries[p].next, d - 1, path[1..]);
      } else {
        forall i | 0 <= i < |t.entries|
          ensures Meet(true, t.entries[i].key, path[0]) <==> !path[0].DisjointFrom(t.entries[i].key)
        {
          MeetExactly(t.entries[i].key, path[0]);
        }
      }
    }
  }

  // A collision that the check does not see: one stored key 2..4, a rule for 1..3.
  lemma MissesPartialOverlap()
    requires KEY_MAX >= 4
    ensures var t, path := Trie([Item(Range(2, 4), Value(0, 0), EMPTY)]), [Range(1, 3)];
            WF(t, 1) && ValidPath(path) && !Fits(t, path) && !Clash(false, t, path)
  {
    var t, path := Trie([Item(Range(2, 4), Value(0, 0), EMPTY)]), [Range(1, 3)];
    assert t.entries[0].key == Range(2, 4);
    assert WF(EMPTY, 0);
    assert !path[0].DisjointFrom(t.entries[0].key);
  }

  // ---------- one level ----------

  lemma {:induction false} DownFlat(t: BT, way: seq<Step>, c: BT)
    requires Down(t, way, c)
    ensures forall j :: 0 <= j < |way| ==> |way[j].t.kids| == |way[j].t.items| + 1 && way[j].i <= |way[j].t.items|
    ensures Ahead(way) + |Flat(c)| <= |Flat(t)|
    ensures Flat(t)[Ahead(way)..Ahead(way) + |Flat(c)|] == Flat(c)
  {
    hide Flat, LeftOf, RightOf;
    DownSteps(t, way, c);
    if way == [] {
      assert Flat(t)[0..|Flat(c)|] == Flat(c);
    } else {
      var last := way[|way| - 1];
      DownFlat(t, way[..|way| - 1], last.t);
      FlatAt(last.t, last.i);
      SliceOfSlice(Flat(t), Ahead(way[..|way| - 1]), |Flat(last.t)|, |LeftOf(last.t, last.i)|, |Flat(c)|);
    }
  }

  lemma {:induction false} OwnFlat(c: BT, j: nat)
    requires (c.kids == [] || |c.kids| == |c.items| + 1) && j < |c.items|
    ensures OwnPlace(c, j) < |Flat(c)| && Flat(c)[OwnPlace(c, j)] == c.items[j]
  {
    hide FlatPos;
    if c.kids != [] {
      PosOwn(c, j);
    }
  }

  // Key j of a node, in its place in the tree.
  lemma KeyPlace(t: BT, way: seq<Step>, c: BT, j: nat) returns (p: nat)
    requires Down(t, way, c) && (c.kids == [] || |c.kids| == |c.items| + 1) && j < |c.items|
    ensures forall k :: 0 <= k < |way| ==> |way[k].t.kids| == |way[k].t.items| + 1 && way[k].i <= |way[k].t.items|
    ensures p == Ahead(way) + OwnPlace(c, j)
    ensures p < |Flat(t)| == |FlatPos(t)| && FlatPos(t)[p] == (c.id, j) && Flat(t)[p] == c.items[j]
  {
    hide Flat, FlatPos, Ahead, Down, OwnPlace;
    DownPos(t, way, c);
    DownFlat(t, way, c);
    OwnPlaceIs(c, j);
    OwnFlat(c, j);
    PosLength(t);
    p := Ahead(way) + OwnPlace(c, j);
    assert FlatPos(t)[Ahead(way)..Ahead(way) + |FlatPos(c)|][OwnPlace(c, j)] == FlatPos(t)[p];
    assert Flat(t)[Ahead(way)..Ahead(way) + |Flat(c)|][OwnPlace(c, j)] == Flat(t)[p];
  }

  // All keys before the node end before the value.
  ghost predicate EndsBefore(t: BT, way: seq<Step>, val: nat)
    requires forall j :: 0 <= j < |way| ==> |way[j].t.kids| == |way[j].t.items| + 1 && way[j].i <= |way[j].t.items|
  {
    0 < Ahead(way) <= |Flat(t)| ==> Flat(t)[Ahead(way) - 1].key.high < val
  }

  // The key before child i ends before the value.
  lemma KeyBefore(t: BT, way: seq<Step>, c: BT, i: nat, val: nat) returns (p: nat)
    requires Down(t, way, c) && |c.kids| == |c.items| + 1 && Leads(c, i, OfValue(val)) && i > 0
    requires forall j :: 0 <= j < |way| ==> |way[j].t.kids| == |way[j].t.items| + 1 && way[j].i <= |way[j].t.items|
    ensures p + 1 == Ahead(way) + |LeftOf(c, i)| && p < |Flat(t)| && Flat(t)[p].key.high < val
  {
    hide Flat, Down, Ahead, LeftOf, OwnPlace;
    p := KeyPlace(t, way, c, i - 1);
    InnerPlace(c, i - 1);
    LeftNext(c, i - 1);
    assert !OfValue(val).Hits(c.items[i - 1].key) && !OfValue(val).Precedes(c.items[i - 1].key);
  }

  lemma {:induction false} BelowChild(t: BT, way: seq<Step>, c: BT, i: nat, val: nat)
    requires Down(t, way, c) && |c.kids| == |c.items| + 1 && Leads(c, i, OfValue(val))
    requires forall j :: 0 <= j < |way| ==> |way[j].t.kids| == |way[j].t.items| + 1 && way[j].i <= |way[j].t.items|
    requires EndsBefore(t, way, val)
    ensures forall j :: 0 <= j <= |way| ==>
              var w := way + [Step(c, i)]; |w[j].t.kids| == |w[j].t.items| + 1 && w[j].i <= |w[j].t.items|
    ensures Down(t, way + [Step(c, i)], c.kids[i]) && EndsBefore(t, way + [Step(c, i)], val)
  {
    hide Flat, Down, Ahead, LeftOf, OwnPlace, Probe.Hits, Probe.Precedes;
    OneDown(t, way, c, i);
    if i > 0 {
      var p := KeyBefore(t, way, c, i, val);
    } else {
      LeftStart(c);
    }
  }

  // The child into which a search for the value goes on.
  ghost function Branch(items: seq<KeyInfo>, val: nat): (i: nat)
    ensures i <= |items|
  {
    if items == [] || val < items[0].key.low then 0 else 1 + Branch(items[1..], val)
  }

  lemma {:induction false} BranchIs(items: seq<KeyInfo>, val: nat, i: nat)
    requires i <= |items| && (forall j :: 0 <= j < i ==> items[j].key.low <= val)
    requires i < |items| ==> val < items[i].key.low
    ensures Branch(items, val) == i
  {
    if i > 0 {
      assert forall j :: 0 <= j < i - 1 ==> items[1..][j] == items[j + 1];
      BranchIs(items[1..], val, i - 1);
    }
  }

  // How many keys lie before the leaf at which a search for the value ends.
  ghost function LeafStart(t: BT, val: nat): nat {
    if |t.kids| != |t.items| + 1 then 0
    else
      var i := Branch(t.items, val);
      |LeftOf(t, i)| + LeafStart(t.kids[i], val)
  }

  lemma {:induction false} LeafStartStep(c: BT, i: nat, val: nat)
    requires |c.kids| == |c.items| + 1 && Leads(c, i, OfValue(val))
    ensures LeafStart(c, val) == |LeftOf(c, i)| + LeafStart(c.kids[i], val)
  {
    BranchIs(c.items, val, i);
  }

  lemma {:induction false} LeafStartHere(c: BT, val: nat)
    requires c.kids == []
    ensures LeafStart(c, val) == 0
  {
  }

  /**
   * The key whose range holds the value; if there is none, the last key before the leaf at
   * which the search ends, which ends before the value, or None for the leftmost leaf.
   */
  method ClosestLowerOrEqual(pool: NodePool, root: Index, val: nat, ghost t: BT, ghost h: nat)
    returns (r: Option<Position>, ghost p: nat)
    requires Sub(pool.slots, t, None, h) && root == t.id && Separated(Flat(t)) && t.items != []
    ensures r.Some? ==> p < |Flat(t)| == |FlatPos(t)| && r == Some(FlatPos(t)[p])
    ensures r.Some? ==> Flat(t)[p].key.InRange(val) || Flat(t)[p].key.high < val
    ensures Hit(Flat(t), val) < |Flat(t)| ==> r.Some? && p == Hit(Flat(t), val)
    ensures Hit(Flat(t), val) == |Flat(t)| ==>
        if r.Some? then p + 1 == LeafStart(t, val) else LeafStart(t, val) == 0
  {
    hide LeafStart, Sub, Flat, FlatPos, Down, Ahead, Separated, Locate, OwnPlace, LeftOf, EndsBefore,
        Probe.Hits, Probe.Precedes;
    var n := root;
    ghost var way: seq<Step>, c := [], t;
    StartsBelow(t, val);
    ghost var probe := OfValue(val);
    while true
      invariant Down(t, way, c) && n == c.id && |way| <= h && Sub(pool.slots, c, ParentOf(way), h - |way|)
      invariant forall j :: 0 <= j < |way| ==> |way[j].t.kids| == |way[j].t.items| + 1 && way[j].i <= |way[j].t.items|
      invariant Ahead(way) + LeafStart(c, val) == LeafStart(t, val)
      invariant EndsBefore(t, way, val) && Separated(Flat(c)) && Locate(t, probe) == Locate(c, probe) && c.items != []
      decreases h - |way|
    {
      NodeShape(pool.slots, c, ParentOf(way), h - |way|);
      KidsHold(pool.slots, c, ParentOf(way), h - |way|);
      var i, inRange := SearchSeq(pool.slots[n].keys, pool.slots[n].keyCnt, OfValue(val));
      if inRange {
        p := KeyPlace(t, way, c, i);
        HitPlace(t, val, p);
        return Some((n, i)), p;
      } else if pool.slots[n].isLeaf {
        LocateMiss(c, i, probe);
        NoHit(t, val);
        p := KeyPlace(t, way, c, 0);
        LeafPlace(c, 0);
        LeafStartHere(c, val);
        r := GetPredGlobal(pool, n, 0, t, h, p);
        PredIsLower(t, way, val, p);
        p := if p > 0 then p - 1 else 0;
        return;
      } else {
        LocateKid(c, i, probe);
        LeafStartStep(c, i, val);
        OneDown(t, way, c, i);
        BelowChild(t, way, c, i, val);
        DownSub(pool.slots, t, h, way + [Step(c, i)], c.kids[i]);
        n := pool.slots[n].children[i].value;
        way, c := way + [Step(c, i)], c.kids[i];
      }
    }
  }

  lemma {:induction false} StartsBelow(t: BT, val: nat)
    ensures Down(t, [], t) && EndsBefore(t, [], val) && Ahead([]) == 0
  {
  }

  lemma {:induction false} HitPlace(t: BT, val: nat, p: nat)
    requires Separated(Flat(t)) && p < |Flat(t)| && OfValue(val).Hits(Flat(t)[p].key)
    ensures Hit(Flat(t), val) == p && Flat(t)[p].key.InRange(val)
  {
    HitIs(Flat(t), val, p);
  }

  lemma {:induction false} NoHit(t: BT, val: nat)
    requires Locate(t, OfValue(val)).None?
    ensures Hit(Flat(t), val) == |Flat(t)|
  {
    PosLength(t);
    SeekIsFindOrHit(Flat(t), OfValue(val));
  }

  lemma {:induction false} PredIsLower(t: BT, way: seq<Step>, val: nat, p: nat)
    requires forall j :: 0 <= j < |way| ==> |way[j].t.kids| == |way[j].t.items| + 1 && way[j].i <= |way[j].t.items|
    requires EndsBefore(t, way, val) && p == Ahead(way) && p < |Flat(t)|
    ensures p > 0 ==> Flat(t)[p - 1].key.high < val
  {
  }

  // Scans from a key on, up to the first one that starts behind the range.
  method AnyOverlap(pool: NodePool, root: Index, k: Range, both: bool, start: Option<Position>, ghost p: nat,
                    ghost t: BT, ghost h: nat) returns (r: bool)
    requires Sub(pool.slots, t, None, h) && root == t.id && Separated(Flat(t)) && t.items != [] && k.Valid()
    requires start.Some? ==> p < |Flat(t)| == |FlatPos(t)| && start == Some(FlatPos(t)[p])
    requires start.Some? ==> Flat(t)[p].key.InRange(k.low) || Flat(t)[p].key.high < k.low
    ensures r == Overlapped(both, Flat(t), k)
  {
    hide Sub, Flat, FlatPos;
    var at := start;
    ghost var q := p;
    PosLength(t);
    if start.None? {
      var leaf := GetMostLeft(pool, root, t, None, h);
      at := Some((leaf, 0));
      q := 0;
    } else {
      NoneBefore(Flat(t), p, k, both);
    }
    while true
      invariant q <= |Flat(t)| == |FlatPos(t)| && at == At(t, q)
      invariant forall j :: 0 <= j < q ==> !Meet(both, Flat(t)[j].key, k)
      decreases |Flat(t)| - q
    {
      if at.None? {
        return false;
      }
      var (n, i) := at.value;
      KeyAt(pool.slots, t, None, h, q);
      if Meet(both, pool.slots[n].keys[i].key, k) {
        return true;
      }
      if pool.slots[n].keys[i].key.low > k.high {
        NoneBehind(Flat(t), q, k, both);
        return false;
      }
      at := GetSuccGlobal(pool, n, i, t, h, q);
      q := q + 1;
    }
  }

  lemma NoneBefore(s: seq<KeyInfo>, p: nat, k: Range, both: bool)
    requires Separated(s) && p < |s| && k.Valid() && (s[p].key.InRange(k.low) || s[p].key.high < k.low)
    ensures forall j :: 0 <= j < p ==> !Meet(both, s[j].key, k)
  {
    forall j | 0 <= j < p
      ensures !Meet(both, s[j].key, k)
    {
      assert s[j].key.high < s[p].key.low && s[p].key.Valid();
    }
  }

  lemma NoneBehind(s: seq<KeyInfo>, q: nat, k: Range, both: bool)
    requires Separated(s) && q < |s| && k.Valid() && s[q].key.low > k.high
    requires forall j :: 0 <= j < q ==> !Meet(both, s[j].key, k)
    ensures !Overlapped(both, s, k)
  {
    forall j | 0 <= j < |s|
      ensures !Meet(both, s[j].key, k)
    {
      if j > q {
        assert s[q].key.high < s[j].key.low && s[q].key.Valid();
      }
    }
  }

  lemma OverlappedEntries(both: bool, items: seq<KeyInfo>, subs: map<Index, Layer>, k: Range)
    ensures Overlapped(both, Entries(items, subs), k) == Overlapped(both, items, k)
  {
    var es := Entries(items, subs);
    assert forall i :: 0 <= i < |es| ==> es[i].key == items[i].key;
  }

  lemma {:induction false} PlainClash(both: bool, m: Memory, l: Layer, level: nat, order: Order, path: Path)
    requires l.Plain? && Rep(m, l, level, order) && path != []
    ensures var p := Find(Flat(l.bt), path[0]);
            Clash(both, Meaning(l), path) ==
            if p < |Flat(l.bt)| then Clash(both, MeaningOf(SubAt(l, p)), path[1..])
            else Overlapped(both, Flat(l.bt), path[0])
  {
    hide Rep, Meaning, Flat;
    RootNode(m, l, level, order);
    MeaningPlain(l.bt, l.h, l.subs);
    PlainMatch(Flat(l.bt), l.subs, path[0]);
    var p := Find(Flat(l.bt), path[0]);
    if p < |Flat(l.bt)| {
      BelowIs(m, l, level, order, p);
    } else {
      OverlappedEntries(both, Flat(l.bt), l.subs, path[0]);
    }
  }

  lemma {:induction false} PackedClash(both: bool, items: seq<KeyInfo>, below: Trie, path: Path)
    requires items != [] && path != []
    ensures Clash(both, PackedMeaning(items, below), path) ==
            if items[0].key == path[0] then Clash(both, PackedMeaning(items[1..], below), path[1..])
            else Meet(both, items[0].key, path[0])
  {
    var es := PackedMeaning(items, below).entries;
    assert |es| == 1 && es[0].key == items[0].key;
    assert Find(es, path[0]) == if es[0].key == path[0] then 0 else 1;
    assert Overlapped(both, es, path[0]) == Meet(both, es[0].key, path[0]);
  }

  // One plain level: the next layer of the key that equals the range, or the verdict.
  method CheckLevel(pool: NodePool, n: Index, k: Range, both: bool, ghost l: Layer, ghost level: nat,
                    ghost order: Order)
    returns (same: bool, next: Option<Index>, clash: bool)
    requires l.Plain? && Rep(pool.slots, l, level, order) && l.bt.id == n && k.Valid()
    ensures same == Has(Flat(l.bt), k)
    ensures same ==> next == Flat(l.bt)[Find(Flat(l.bt), k)].next
    ensures !same ==> clash == Overlapped(both, Flat(l.bt), k)
  {
    hide Rep, Sub, Flat, FlatPos;
    LevelTree(pool.slots, l, level, order);
    ghost var t := l.bt;
    var low;
    ghost var p;
    low, p := ClosestLowerOrEqual(pool, n, k.low, t, l.h);
    EqualIsHit(Flat(t), k);
    if low.Some? {
      KeyAt(pool.slots, t, None, l.h, p);
      var (node, i) := low.value;
      if pool.slots[node].keys[i].key == k {
        SeparatedAscending(Flat(t));
        FindIs(Flat(t), k, p);
        return true, pool.slots[node].keys[i].next, false;
      }
    }
    clash := AnyOverlap(pool, n, k, both, low, p, t, l.h);
    return false, None, clash;
  }

  lemma {:induction false} LevelTree(m: Memory, l: Layer, level: nat, order: Order)
    requires l.Plain? && Rep(m, l, level, order)
    ensures Sub(m, l.bt, None, l.h) && Separated(Flat(l.bt)) && l.bt.items != []
  {
  }

  lemma {:induction false} EqualIsHit(s: seq<KeyInfo>, k: Range)
    requires Separated(s) && k.Valid()
    ensures Has(s, k) ==> Hit(s, k.low) == Find(s, k)
  {
    if Has(s, k) {
      HitIs(s, k.low, Find(s, k));
    }
  }
}
