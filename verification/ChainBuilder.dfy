/** Building the nodes of a rule that shares nothing with the tree (insert_in_to_new_node). */
module ChainBuilder {
  import opened Items
  import opened Nodes
  import opened BTrees
  import opened Tries
  import opened Layers
  import opened LayerSteps
  import opened RuleSpecs

  // Key number j of a node that starts a rule with this path.
  ghost function ChainKey(path: Path, v: Value, j: nat): KeyInfo
    requires j < |path|
  {
    Item(path[j], if j + 1 == |path| then v else NO_VALUE, None)
  }

  ghost function ChainKeys(path: Path, v: Value, n: nat): (r: seq<KeyInfo>)
    requires n <= |path|
    ensures |r| == n
    ensures forall j :: 0 <= j < n ==> r[j] == ChainKey(path, v, j)
  {
    seq(n, j requires 0 <= j < n => ChainKey(path, v, j))
  }

  // The first n keys and dimensions of a compressed node are in place.
  ghost predicate Filled(node: Node, c: InsertCookie, n: nat)
    requires c.Valid() && c.level + n <= c.requiresLevels <= D && n <= MAX_DEGREE
  {
    && node.keys[..n] == ChainKeys(c.Rest(), c.rule.value, n)
    && (forall j :: 0 <= j < n ==> node.dims[j] == c.order[c.level + j])
  }

  // A new node while its keys are being stored.
  ghost predicate Filling(node: Node, c: InsertCookie, n: nat)
    requires c.Valid() && c.level + n <= c.requiresLevels <= D && n <= MAX_DEGREE
  {
    && Filled(node, c, n) && node.children == NewNode().children
    && node.isLeaf && node.parent == None && node.keyCnt == 0
  }

  lemma FillStart(c: InsertCookie)
    requires c.Valid() && c.level <= c.requiresLevels <= D
    ensures Filling(NewNode(), c, 0)
  {
  }

  lemma FillStep(node: Node, c0: InsertCookie, c: InsertCookie, i: nat, x: KeyInfo)
    requires c0.Valid() && c0.level + i < c0.requiresLevels <= D && i < MAX_DEGREE && Filling(node, c0, i)
    requires c == c0.(level := c0.level + i)
    requires x == Item(c.ActualKey(), if i == c0.requiresLevels - c0.level - 1 then c.rule.value else NO_VALUE, None)
    ensures var n := node.(keys := node.keys[i := x]);
            Filling(n.(dims := n.dims[i := c.order[c.level]]), c0, i + 1)
  {
    var k0, k1 := ChainKeys(c0.Rest(), c0.rule.value, i), ChainKeys(c0.Rest(), c0.rule.value, i + 1);
    assert x == ChainKey(c0.Rest(), c0.rule.value, i);
    assert node.keys[i := x][..i + 1] == node.keys[..i] + [x];
    assert k1 == k0 + [x];
  }

  // The loop of insert_compressed: as many keys as fit, level by level.
  method FillCompressed(pool: NodePool, root: Index, c0: InsertCookie, end: nat) returns (c: InsertCookie)
    requires c0.Valid() && 0 < end <= MAX_DEGREE && c0.level + end <= c0.requiresLevels <= D
    requires root in pool.slots && pool.slots[root] == NewNode()
    modifies pool
    ensures c == c0.(level := c0.level + end - 1)
    ensures root in pool.slots
    ensures pool.slots == old(pool.slots)[root := pool.slots[root]]
    ensures Filling(pool.slots[root], c0, end)
  {
    hide Filling;
    c := c0;
    var keysToInsert := c0.requiresLevels - c0.level;
    FillStart(c0);
    for i := 0 to end
      invariant c == c0.(level := c0.level + if i < end then i else end - 1)
      invariant root in pool.slots
      invariant pool.slots == old(pool.slots)[root := pool.slots[root]]
      invariant Filling(pool.slots[root], c0, i)
    {
      var isLastKeyInRule := i == keysToInsert - 1;
      var k := c.ActualKey();
      var rv := if isLastKeyInRule then c.rule.value else NO_VALUE;
      FillStep(pool.slots[root], c0, c, i, Item(k, rv, None));
      pool.SetKey(root, i, Item(k, rv, None));
      pool.SetDim(root, i, c.order[c.level]);
      if i + 1 != end {
        c := c.NextLevel();
      }
    }
  }

  // ---------- what the finished nodes are ----------

  lemma {:induction false} ChainKeysMeaning(path: Path, v: Value, n: nat)
    requires 0 < n <= |path|
    ensures PackedMeaning(ChainKeys(path, v, n), if n == |path| then EMPTY else Chain(path[n..], v)) == Chain(path, v)
  {
    var items := ChainKeys(path, v, n);
    if n == 1 {
      assert items[1..] == [];
    } else {
      assert items[1..] == ChainKeys(path[1..], v, n - 1);
      assert path[1..][n - 1..] == path[n..];
      ChainKeysMeaning(path[1..], v, n - 1);
    }
  }

  // The last key of a node with its next layer.
  ghost function LinkLast(items: seq<KeyInfo>, next: Option<Index>): (r: seq<KeyInfo>)
    requires items != []
    ensures |r| == |items|
  {
    items[|items| - 1 := Item(items[|items| - 1].key, items[|items| - 1].value, next)]
  }

  lemma {:induction false} LinkLastMeaning(items: seq<KeyInfo>, next: Option<Index>, below: Trie)
    requires items != []
    ensures PackedMeaning(LinkLast(items, next), below) == PackedMeaning(items, below)
  {
    if |items| > 1 {
      assert LinkLast(items, next)[1..] == LinkLast(items[1..], next);
      LinkLastMeaning(items[1..], next, below);
    } else {
      assert LinkLast(items, next)[1..] == [] && items[1..] == [];
    }
  }

  /** Allocates a node and stores the rest of the rule in it and, if it does not fit, below it. */
  method InsertIntoNewNode(pool: NodePool, c: InsertCookie) returns (root: Index, ghost l: Layer)
    requires c.Valid() && c.level < c.requiresLevels <= D
    modifies pool
    ensures Root(l) == root && Rep(pool.slots, l, c.level, c.order)
    ensures Framed(old(pool.slots), pool.slots, {}, AllIds(l))
    ensures Meaning(l) == Chain(c.Rest(), c.rule.value)
    decreases c.requiresLevels - c.level, 1
  {
    hide Rep, AllIds, Meaning, Chain;
    var k := c.ActualKey();
    root := pool.Get();
    var nlCnt := if c.RequiresMoreLevels() then c.AdditionalLevels() else 0;
    if nlCnt > 0 {
      l := InsertCompressed(pool, root, c, nlCnt + 1);
    } else {
      pool.SetKey(root, 0, Item(k, c.rule.value, None));
      pool.SetKeyCnt(root, 1);
      l := Single(root, Item(k, c.rule.value, None), None);
      LastKeyAlone(old(pool.slots), pool.slots, root, c);
    }
  }

  lemma {:induction false} LastKeyAlone(m0: Memory, m1: Memory, root: Index, c: InsertCookie)
    requires c.Valid() && c.level + 1 == c.requiresLevels <= D && root !in m0
    requires var n := NewNode(); m1 == m0[root := Node(n.keys[0 := Item(c.ActualKey(), c.rule.value, None)], n.dims,
                                                       n.children, 1, n.isLeaf, n.isCompressed, n.parent)]
    ensures var l := Single(root, Item(c.ActualKey(), c.rule.value, None), None);
            && Root(l) == root && Rep(m1, l, c.level, c.order) && Framed(m0, m1, {}, AllIds(l))
            && Meaning(l) == Chain(c.Rest(), c.rule.value)
  {
    hide Rep, AllIds, Meaning;
    var x: KeyInfo := Item(c.ActualKey(), c.rule.value, None);
    assert Keys(m1[root]) == [x];
    SingleRep(m1, root, x, None, c.level, c.order);
    SingleMeaning(root, x, None);
    assert c.Rest() == [c.ActualKey()];
  }

  // Builds the rest of the rule on the next level and links it to key i of node n.
  method ContinueBelow(pool: NodePool, n: Index, i: nat, c: InsertCookie) returns (ghost below: Layer)
    requires c.Valid() && c.level < c.requiresLevels <= D
    requires n in pool.slots && i < MAX_DEGREE && pool.slots[n].keys[i].next == None
    modifies pool
    ensures n in pool.slots && n !in AllIds(below)
    ensures pool.slots[n] == WithKey(old(pool.slots)[n], i, Linking(old(pool.slots)[n].keys[i], Some(Root(below))))
    ensures Framed(old(pool.slots), pool.slots, {n}, {n} + AllIds(below))
    ensures Rep(pool.slots, below, c.level, c.order)
    ensures Meaning(below) == Chain(c.Rest(), c.rule.value)
    decreases c.requiresLevels - c.level, 2
  {
    var nl;
    nl, below := InsertIntoNewNode(pool, c);
    ghost var m1 := pool.slots;
    pool.SetNextLayer(n, i, Some(nl));
    RepFrame(m1, pool.slots, below, c.level, c.order);
  }

  function Linking(x: KeyInfo, next: Option<Index>): KeyInfo {
    Item(x.key, x.value, next)
  }

  ghost function CompressedItems(c: InsertCookie, end: nat, sub: Option<Layer>): seq<KeyInfo>
    requires c.Valid() && 0 < end && c.level + end <= c.requiresLevels <= D
  {
    LinkLast(ChainKeys(c.Rest(), c.rule.value, end), RootOf(sub))
  }

  lemma PackedChain(node: Node, c: InsertCookie, end: nat, sub: Option<Layer>)
    requires c.Valid() && 2 <= end <= MAX_DEGREE && c.level + end <= c.requiresLevels <= D
    requires node.keys[..end] == CompressedItems(c, end, sub)
    requires forall j :: 0 <= j < end ==> node.dims[j] == c.order[c.level + j]
    requires node.keyCnt == end && node.isLeaf && node.isCompressed && node.parent == None
    requires node.children == NewNode().children
    ensures HoldsPacked(node, CompressedItems(c, end, sub), c.level, c.order)
  {
    var items := CompressedItems(c, end, sub);
    forall i | 0 <= i < end
      ensures items[i].key.Valid() && (i < end - 1 ==> items[i].next == None)
    {
      assert items[i].key == c.Rest()[i];
    }
  }

  lemma LinkedItems(n: Node, n': Node, c: InsertCookie, end: nat, sub: Option<Layer>)
    requires c.Valid() && 0 < end <= MAX_DEGREE && c.level + end <= c.requiresLevels <= D
    requires n.keys[..end] == ChainKeys(c.Rest(), c.rule.value, end)
    requires n'.keys == n.keys[end - 1 := Linking(n.keys[end - 1], RootOf(sub))]
    ensures n'.keys[..end] == CompressedItems(c, end, sub)
  {
    assert n.keys[end - 1] == n.keys[..end][end - 1];
  }

  lemma CompressedMeaning(root: Index, c: InsertCookie, end: nat, sub: Option<Layer>)
    requires c.Valid() && 0 < end && c.level + end <= c.requiresLevels <= D
    requires MeaningOf(sub) == if c.level + end == c.requiresLevels then EMPTY
                               else Chain(c.Rest()[end..], c.rule.value)
    ensures Meaning(Packed(root, CompressedItems(c, end, sub), OnlySub(sub))) == Chain(c.Rest(), c.rule.value)
  {
    var items := ChainKeys(c.Rest(), c.rule.value, end);
    PackedOnlyMeaning(root, CompressedItems(c, end, sub), sub);
    LinkLastMeaning(items, RootOf(sub), MeaningOf(sub));
    ChainKeysMeaning(c.Rest(), c.rule.value, end);
  }

  method InsertCompressed(pool: NodePool, root: Index, c0: InsertCookie, keysToInsert: nat) returns (ghost l: Layer)
    requires c0.Valid() && c0.level + keysToInsert == c0.requiresLevels <= D && keysToInsert >= 2
    requires root in pool.slots && pool.slots[root] == NewNode()
    modifies pool
    ensures Root(l) == root && Rep(pool.slots, l, c0.level, c0.order)
    ensures Framed(old(pool.slots), pool.slots, {root}, AllIds(l))
    ensures Meaning(l) == Chain(c0.Rest(), c0.rule.value)
    decreases c0.requiresLevels - c0.level, 0
  {
    hide Rep, AllIds, Meaning, Chain, CompressedItems, Filling, CompressedSoFar;
    var end := if MAX_DEGREE < keysToInsert then MAX_DEGREE else keysToInsert;
    var c := FillCompressed(pool, root, c0, end);
    ghost var n0 := pool.slots[root];
    pool.SetKeyCnt(root, end);
    ghost var m1 := pool.slots;
    ghost var sub := LinkCompressed(pool, root, n0, c0, c, end);
    ghost var m2 := pool.slots;
    pool.SetCompressed(root, end > 1);
    CompressedDone(m1, m2, pool.slots, root, c0, end, sub);
    l := CompressedLayer(root, c0, end, sub);
    FramedTrans(old(pool.slots), m1, pool.slots, {root}, {root}, AllIds(l));
  }

  // Continues below the last key of the node, if the rule needs more levels.
  method LinkCompressed(pool: NodePool, root: Index, ghost n0: Node, ghost c0: InsertCookie, c: InsertCookie, end: nat)
    returns (ghost sub: Option<Layer>)
    requires c0.Valid() && 2 <= end <= MAX_DEGREE && c0.level + end <= c0.requiresLevels <= D
    requires c == c0.(level := c0.level + end - 1) && Filling(n0, c0, end)
    requires root in pool.slots && pool.slots[root] == n0.(keyCnt := end)
    modifies pool
    ensures root in pool.slots && CompressedSoFar(old(pool.slots), pool.slots, root, c0, end, sub)
    decreases c0.requiresLevels - c0.level - 1, 3
  {
    hide Rep, AllIds, Meaning, Chain, CompressedItems, Filling, CompressedSoFar, ChainKeys;
    ghost var m1 := pool.slots;
    sub := None;
    LastFilled(n0, c0, end);
    if c.RequiresMoreLevels() {
      ghost var below := ContinueBelow(pool, root, end - 1, c.NextLevel());
      sub := Some(below);
    }
    SoFar(m1, pool.slots, root, n0, c0, end, sub);
  }

  lemma LastFilled(n: Node, c: InsertCookie, end: nat)
    requires c.Valid() && 0 < end <= MAX_DEGREE && c.level + end <= c.requiresLevels <= D && Filling(n, c, end)
    ensures n.keys[end - 1].next == None && n.keys[end - 1 := Linking(n.keys[end - 1], None)] == n.keys
  {
    assert n.keys[end - 1] == n.keys[..end][end - 1];
  }

  // All keys of a compressed node are in place and the levels below are linked to it.
  ghost predicate CompressedSoFar(m0: Memory, m1: Memory, root: Index, c: InsertCookie, end: nat, sub: Option<Layer>) {
    && c.Valid() && 2 <= end <= MAX_DEGREE && c.level + end <= c.requiresLevels <= D
    && root in m1 && root !in IdsOf(sub)
    && m1[root].keys[..end] == CompressedItems(c, end, sub)
    && (forall j :: 0 <= j < end ==> m1[root].dims[j] == c.order[c.level + j])
    && m1[root].keyCnt == end && m1[root].isLeaf && m1[root].parent == None
    && m1[root].children == NewNode().children
    && Framed(m0, m1, {root}, {root} + IdsOf(sub))
    && RepOf(m1, sub, c.level + end, c.order)
    && MeaningOf(sub) == (if c.level + end == c.requiresLevels then EMPTY else Chain(c.Rest()[end..], c.rule.value))
  }

  lemma SoFar(m1: Memory, m2: Memory, root: Index, n0: Node, c: InsertCookie, end: nat, sub: Option<Layer>)
    requires c.Valid() && 2 <= end <= MAX_DEGREE && c.level + end <= c.requiresLevels <= D && Filling(n0, c, end)
    requires root in m1 && m1[root] == n0.(keyCnt := end) && root in m2 && root !in IdsOf(sub)
    requires m2[root] == WithKey(m1[root], end - 1, Linking(m1[root].keys[end - 1], RootOf(sub)))
    requires Framed(m1, m2, {root}, {root} + IdsOf(sub)) && RepOf(m2, sub, c.level + end, c.order)
    requires sub.Some? <==> c.level + end < c.requiresLevels
    requires sub.Some? ==> Meaning(sub.value) == Chain(c.(level := c.level + end).Rest(), c.rule.value)
    ensures CompressedSoFar(m1, m2, root, c, end, sub)
  {
    hide Rep, AllIds, Meaning, Chain, CompressedItems, ChainKeys;
    LinkedItems(m1[root], m2[root], c, end, sub);
    if sub.Some? {
      assert c.(level := c.level + end).Rest() == c.Rest()[end..];
    }
  }

  ghost function CompressedLayer(root: Index, c: InsertCookie, end: nat, sub: Option<Layer>): Layer
    requires c.Valid() && 0 < end && c.level + end <= c.requiresLevels <= D
  {
    Packed(root, CompressedItems(c, end, sub), OnlySub(sub))
  }

  lemma {:induction false} CompressedDone(m0: Memory, m1: Memory, m2: Memory, root: Index, c: InsertCookie, end: nat,
                                          sub: Option<Layer>)
    requires CompressedSoFar(m0, m1, root, c, end, sub)
    requires root in m1 && m2 == m1[root := Compressed(m1[root])]
    ensures Rep(m2, CompressedLayer(root, c, end, sub), c.level, c.order)
    ensures Framed(m0, m2, {root}, AllIds(CompressedLayer(root, c, end, sub)))
    ensures Meaning(CompressedLayer(root, c, end, sub)) == Chain(c.Rest(), c.rule.value)
  {
    hide Rep, AllIds, Meaning, Chain, PackedMeaning, CompressedItems, HoldsPacked;
    CompressedMeaning(root, c, end, sub);
    SubStays(m1, m2, root, c.level + end, c.order, sub);
    PackedChain(m2[root], c, end, sub);
    LastOfItems(c, end, sub);
    PackedRep(m2, root, CompressedItems(c, end, sub), sub, c.level, c.order);
  }

  // What lies below a node does not see the mark on it.
  lemma SubStays(m1: Memory, m2: Memory, root: Index, level: nat, order: Order, sub: Option<Layer>)
    requires RepOf(m1, sub, level, order) && root !in IdsOf(sub) && root in m1 && m2 == m1[root := Compressed(m1[root])]
    ensures RepOf(m2, sub, level, order)
  {
    hide Rep, AllIds;
    if sub.Some? {
      RepIds(m1, sub.value, level, order);
      RepFrame(m1, m2, sub.value, level, order);
    }
  }

  lemma LastOfItems(c: InsertCookie, end: nat, sub: Option<Layer>)
    requires c.Valid() && 0 < end && c.level + end <= c.requiresLevels <= D
    ensures var items := CompressedItems(c, end, sub); |items| == end && items[end - 1].next == RootOf(sub)
  {
  }

  function Compressed(n: Node): Node {
    n.(isCompressed := true)
  }
}
