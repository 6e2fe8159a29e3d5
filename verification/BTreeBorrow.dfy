/** Borrowing a key from a sibling and merging two siblings (BTreeRemove::borrowFromPrev, borrowFromNext, merge). */
module BTreeBorrow {
  import opened Nodes
  import opened BTrees
  import opened BTreeSplit
  import opened BTreeTrade

  // One node was rewritten, apart from its counter, and may have got children.
  ghost predicate Rebuilt(m0: Memory, m1: Memory, n: Index, keys: seq<KeyInfo>, children: seq<Option<Index>>,
                          g: seq<Index>) {
    && n in m0 && n !in g && m1.Keys == m0.Keys
    && |keys| == MAX_DEGREE && |children| == MAX_DEGREE + 1
    && m1[n] == m0[n].(keys := keys, children := children)
    && (forall x :: x in m0 && x in g ==> m1[x] == WithParent(m0[x], Some(n)))
    && (forall x :: x in m0 && x != n && x !in g ==> m1[x] == m0[x])
  }

  ghost predicate Counted(m0: Memory, m1: Memory, n: Index, cnt: nat, n': Index, cnt': nat)
    requires cnt <= MAX_DEGREE && cnt' <= MAX_DEGREE
  {
    && n in m0 && n' in m0 && m1.Keys == m0.Keys
    && m1[n] == m0[n].(keyCnt := cnt) && m1[n'] == m0[n'].(keyCnt := cnt')
    && (forall x :: x in m0 && x != n && x != n' ==> m1[x] == m0[x])
  }

  method CountKeys(pool: NodePool, n: Index, cnt: nat, n': Index, cnt': nat)
    requires n in pool.slots && n' in pool.slots && n != n' && cnt <= MAX_DEGREE && cnt' <= MAX_DEGREE
    modifies pool
    ensures Counted(old(pool.slots), pool.slots, n, cnt, n', cnt')
  {
    pool.SetKeyCnt(n, cnt);
    pool.SetKeyCnt(n', cnt');
  }

  // How many subtrees go with one key: none between leaves.
  ghost function Along(t: BT): nat {
    if t.kids == [] then 0 else 1
  }

  // ---------- from the next sibling ----------

  ghost function NextTaker(t: BT, i: nat): BT
    requires i + 1 < |t.kids| && i < |t.items|
  {
    var l, r := t.kids[i], t.kids[i + 1];
    BT(l.id, l.items + [t.items[i]], l.kids + r.kids[..Along(r)])
  }

  ghost function NextGiver(t: BT, i: nat): BT
    requires i + 1 < |t.kids| && t.kids[i + 1].items != []
  {
    var r := t.kids[i + 1];
    BT(r.id, r.items[1..], r.kids[Along(r)..])
  }

  ghost predicate TwoAlike(t: BT, i: nat) {
    && i + 1 < |t.kids| && |t.kids| == |t.items| + 1
    && Shaped(t.kids[i].items, t.kids[i].kids) && Shaped(t.kids[i + 1].items, t.kids[i + 1].kids)
    && (t.kids[i].kids == [] <==> t.kids[i + 1].kids == [])
  }

  // The parent after its child i got a key from child i + 1.
  ghost function NextTraded(t: BT, i: nat): BT
    requires TwoAlike(t, i) && t.kids[i + 1].items != []
  {
    WithPair(t, i, NextTaker(t, i), t.kids[i + 1].items[0], NextGiver(t, i))
  }

  lemma {:induction false} NextFlat(t: BT, i: nat)
    requires TwoAlike(t, i) && t.kids[i + 1].items != []
    ensures Flat(NextTraded(t, i)) == Flat(t)
  {
    hide Flat;
    var l, r := t.kids[i], t.kids[i + 1];
    var x, y := t.items[i], r.items[0];
    var g := r.kids[..Along(r)];
    JoinFlat(l.id, l.items, x, [], l.kids, g);
    assert l.items + [x] + [] == l.items + [x];
    JoinFlat(r.id, [], y, r.items[1..], g, r.kids[Along(r)..]);
    assert [] + [y] + r.items[1..] == r.items && g + r.kids[Along(r)..] == r.kids;
    FlatIgnoresId(l.id, BT(r.id, [], g));
    FlatIgnoresId(l.id, l);
    FlatIgnoresId(r.id, r);
    Chained(Flat(l), x, Flat(BT(r.id, [], g)), y, Flat(NextGiver(t, i)));
    PairFlat(t, i, NextTaker(t, i), y, NextGiver(t, i));
  }

  lemma Chained<A>(a: seq<A>, x: A, g: seq<A>, y: A, b: seq<A>)
    ensures (a + [x] + g) + [y] + b == a + [x] + (g + [y] + b)
  {
  }

  function TookAtEnd(n: Node, x: KeyInfo, g: Option<Index>): (r: RawNode)
    requires n.keyCnt < MAX_DEGREE
    ensures Sized(r)
  {
    n.(keys := n.keys[n.keyCnt := x],
       children := if n.isLeaf then n.children else n.children[n.keyCnt + 1 := g],
       keyCnt := n.keyCnt + 1)
  }

  function GaveFirst(n: Node): (r: RawNode)
    requires n.keyCnt > 0
    ensures Sized(r)
  {
    n.(keys := ShiftedLeft(n.keys, 1, n.keyCnt),
       children := if n.isLeaf then n.children else ShiftedLeft(n.children, 1, n.keyCnt + 1),
       keyCnt := n.keyCnt - 1)
  }

  // The step on node records.
  ghost predicate BorrowedNext(m0: Memory, m1: Memory, node: Index, idx: nat, ch: Index, sib: Index, g: seq<Index>) {
    && node in m0 && ch in m0 && sib in m0 && idx < m0[node].keyCnt
    && m0[ch].keyCnt < MAX_DEGREE && m0[sib].keyCnt > 0
    && m1.Keys == m0.Keys
    && m1[ch] == TookAtEnd(m0[ch], m0[node].keys[idx], if g == [] then None else Some(g[0]))
    && m1[sib] == GaveFirst(m0[sib])
    && m1[node] == WithKey(m0[node], idx, m0[sib].keys[0])
    && Traded(m0, m1, node, ch, sib, g, ch)
  }

  // The key of the parent becomes the last one of the child, the first child of the sibling its last.
  method TakeAtEnd(pool: NodePool, node: Index, idx: nat, ch: Index, sib: Index, ghost g: seq<Index>)
    requires node in pool.slots && ch in pool.slots && sib in pool.slots && node != ch && ch != sib
    requires idx < pool.slots[node].keyCnt && pool.slots[ch].keyCnt < MAX_DEGREE
    requires |g| == (if pool.slots[ch].isLeaf then 0 else 1) && ch !in g
    requires forall j :: 0 <= j < |g| ==> g[j] in pool.slots && pool.slots[sib].children[j] == Some(g[j])
    modifies pool
    ensures var n := old(pool.slots)[ch];
            Rebuilt(old(pool.slots), pool.slots, ch, n.keys[n.keyCnt := old(pool.slots)[node].keys[idx]],
                    if g == [] then n.children else n.children[n.keyCnt + 1 := Some(g[0])], g)
  {
    var cnt := pool.slots[ch].keyCnt;
    pool.MoveKey(node, idx, ch, cnt);
    if !pool.slots[ch].isLeaf {
      var first := pool.slots[sib].children[0].value;
      pool.SetChild(ch, cnt + 1, first);
    }
  }

  ghost predicate FirstMovedUp(m0: Memory, m1: Memory, node: Index, idx: nat, sib: Index)
    requires idx < MAX_DEGREE
  {
    && node in m0 && sib in m0 && m0[sib].keyCnt > 0 && m1.Keys == m0.Keys
    && m1[node] == WithKey(m0[node], idx, m0[sib].keys[0])
    && m1[sib] == m0[sib].(keys := ShiftedLeft(m0[sib].keys, 1, m0[sib].keyCnt),
                           children := if m0[sib].isLeaf then m0[sib].children
                                       else ShiftedLeft(m0[sib].children, 1, m0[sib].keyCnt + 1))
    && (forall x :: x in m0 && x != node && x != sib ==> m1[x] == m0[x])
  }

  // The first key of the sibling moves up, and the others close the gap.
  method GiveFirst(pool: NodePool, node: Index, idx: nat, sib: Index)
    requires node in pool.slots && sib in pool.slots && node != sib
    requires idx < MAX_DEGREE && pool.slots[sib].keyCnt > 0
    modifies pool
    ensures FirstMovedUp(old(pool.slots), pool.slots, node, idx, sib)
  {
    pool.MoveKey(sib, 0, node, idx);
    pool.ShiftKeysLeft(sib, 1, pool.slots[sib].keyCnt);
    if !pool.slots[sib].isLeaf {
      pool.ShiftChildrenLeft(sib, 1, pool.slots[sib].keyCnt + 1);
    }
  }

  method BorrowNextNodes(pool: NodePool, node: Index, idx: nat, ch: Index, sib: Index, ghost g: seq<Index>)
    requires node in pool.slots && ch in pool.slots && sib in pool.slots && node != ch && node != sib && ch != sib
    requires idx < pool.slots[node].keyCnt && pool.slots[ch].keyCnt < MAX_DEGREE && pool.slots[sib].keyCnt > 0
    requires pool.slots[ch].isLeaf == pool.slots[sib].isLeaf
    requires |g| == (if pool.slots[ch].isLeaf then 0 else 1) && node !in g && ch !in g && sib !in g
    requires forall j :: 0 <= j < |g| ==> g[j] in pool.slots && pool.slots[sib].children[j] == Some(g[j])
    modifies pool
    ensures BorrowedNext(old(pool.slots), pool.slots, node, idx, ch, sib, g)
  {
    hide ShiftedLeft, BorrowedNext;
    ghost var m0 := pool.slots;
    TakeAtEnd(pool, node, idx, ch, sib, g);
    ghost var m1 := pool.slots;
    GiveFirst(pool, node, idx, sib);
    ghost var m2 := pool.slots;
    CountKeys(pool, ch, pool.slots[ch].keyCnt + 1, sib, pool.slots[sib].keyCnt - 1);
    BorrowNextDone(m0, m1, m2, pool.slots, node, idx, ch, sib, g);
  }

  lemma BorrowNextDone(m0: Memory, m1: Memory, m2: Memory, m3: Memory, node: Index, idx: nat, ch: Index, sib: Index,
                       g: seq<Index>)
    requires node in m0 && ch in m0 && sib in m0 && node != ch && node != sib && ch != sib
    requires idx < m0[node].keyCnt && m0[ch].keyCnt < MAX_DEGREE && m0[sib].keyCnt > 0
    requires m0[ch].isLeaf == m0[sib].isLeaf
    requires |g| == (if m0[ch].isLeaf then 0 else 1) && node !in g && ch !in g && sib !in g
    requires Rebuilt(m0, m1, ch, m0[ch].keys[m0[ch].keyCnt := m0[node].keys[idx]],
                     if g == [] then m0[ch].children else m0[ch].children[m0[ch].keyCnt + 1 := Some(g[0])], g)
    requires FirstMovedUp(m1, m2, node, idx, sib)
    requires Counted(m2, m3, ch, m0[ch].keyCnt + 1, sib, m0[sib].keyCnt - 1)
    ensures BorrowedNext(m0, m3, node, idx, ch, sib, g)
  {
    hide ShiftedLeft;
  }

  lemma TookAtEndHolds(n: Node, t: BT, parent: Option<Index>, x: KeyInfo, g: seq<BT>)
    requires Holds(n, t, parent) && Shaped(t.items, t.kids) && |t.items| < MAX_DEGREE
    requires |g| == Along(t)
    ensures Holds(TookAtEnd(n, x, if g == [] then None else Some(g[0].id)), BT(t.id, t.items + [x], t.kids + g), parent)
  {
    var r := TookAtEnd(n, x, if g == [] then None else Some(g[0].id));
    assert r.keys[..r.keyCnt] == t.items + [x];
    var kids := t.kids + g;
    forall i | 0 <= i < |kids|
      ensures r.children[i] == Some(kids[i].id)
    {
    }
  }

  lemma GaveFirstHolds(n: Node, t: BT, parent: Option<Index>)
    requires Holds(n, t, parent) && Shaped(t.items, t.kids) && t.items != []
    ensures Holds(GaveFirst(n), BT(t.id, t.items[1..], t.kids[Along(t)..]), parent)
  {
    var r := GaveFirst(n);
    assert r.keys[..r.keyCnt] == t.items[1..];
    var kids := t.kids[Along(t)..];
    forall i | 0 <= i < |kids|
      ensures r.children[i] == Some(kids[i].id)
    {
    }
  }

  // ---------- from the previous sibling ----------

  ghost function PrevGiver(t: BT, i: nat): BT
    requires i + 1 < |t.kids| && t.kids[i].items != [] && Along(t.kids[i]) <= |t.kids[i].kids|
  {
    var l := t.kids[i];
    BT(l.id, l.items[..|l.items| - 1], l.kids[..|l.kids| - Along(l)])
  }

  ghost function PrevTaker(t: BT, i: nat): BT
    requires i + 1 < |t.kids| && i < |t.items| && Along(t.kids[i]) <= |t.kids[i].kids|
  {
    var l, r := t.kids[i], t.kids[i + 1];
    BT(r.id, [t.items[i]] + r.items, l.kids[|l.kids| - Along(l)..] + r.kids)
  }

  // The parent after its child i + 1 got a key from child i.
  ghost function PrevTraded(t: BT, i: nat): BT
    requires TwoAlike(t, i) && t.kids[i].items != []
  {
    WithPair(t, i, PrevGiver(t, i), t.kids[i].items[|t.kids[i].items| - 1], PrevTaker(t, i))
  }

  lemma {:induction false} PrevFlat(t: BT, i: nat)
    requires TwoAlike(t, i) && t.kids[i].items != []
    ensures Flat(PrevTraded(t, i)) == Flat(t)
  {
    hide Flat;
    var l, r := t.kids[i], t.kids[i + 1];
    var c := |l.items| - 1;
    var x, y := t.items[i], l.items[c];
    var k := |l.kids| - Along(l);
    var g := l.kids[k..];
    JoinFlat(r.id, [], x, r.items, g, r.kids);
    assert [] + [x] + r.items == [x] + r.items;
    JoinFlat(l.id, l.items[..c], y, [], l.kids[..k], g);
    assert l.items[..c] + [y] + [] == l.items && l.kids[..k] + g == l.kids;
    FlatIgnoresId(r.id, BT(l.id, [], g));
    FlatIgnoresId(l.id, l);
    FlatIgnoresId(r.id, r);
    Chained(Flat(PrevGiver(t, i)), y, Flat(BT(r.id, [], g)), x, Flat(r));
    PairFlat(t, i, PrevGiver(t, i), y, PrevTaker(t, i));
  }

  function TookAtStart(n: Node, x: KeyInfo, g: Option<Index>): (r: RawNode)
    requires n.keyCnt < MAX_DEGREE
    ensures Sized(r)
  {
    n.(keys := ShiftedRight(n.keys, 0, n.keyCnt)[0 := x],
       children := if n.isLeaf then n.children else ShiftedRight(n.children, 0, n.keyCnt + 1)[0 := g],
       keyCnt := n.keyCnt + 1)
  }

  function GaveLast(n: Node): (r: RawNode)
    requires n.keyCnt > 0
    ensures Sized(r)
  {
    n.(keyCnt := n.keyCnt - 1)
  }

  ghost predicate BorrowedPrev(m0: Memory, m1: Memory, node: Index, idx: nat, ch: Index, sib: Index, g: seq<Index>) {
    && node in m0 && ch in m0 && sib in m0 && 0 < idx <= m0[node].keyCnt
    && m0[ch].keyCnt < MAX_DEGREE && m0[sib].keyCnt > 0
    && m1.Keys == m0.Keys
    && m1[ch] == TookAtStart(m0[ch], m0[node].keys[idx - 1], if g == [] then None else Some(g[0]))
    && m1[sib] == GaveLast(m0[sib])
    && m1[node] == WithKey(m0[node], idx - 1, m0[sib].keys[m0[sib].keyCnt - 1])
    && Traded(m0, m1, node, sib, ch, g, ch)
  }

  // Makes room at the start of the child.
  method MakeRoom(pool: NodePool, ch: Index)
    requires ch in pool.slots && pool.slots[ch].keyCnt < MAX_DEGREE
    modifies pool
    ensures var n := old(pool.slots)[ch];
            Rebuilt(old(pool.slots), pool.slots, ch, ShiftedRight(n.keys, 0, n.keyCnt),
                    if n.isLeaf then n.children else ShiftedRight(n.children, 0, n.keyCnt + 1), [])
  {
    var cnt := pool.slots[ch].keyCnt;
    pool.ShiftKeysRight(ch, 0, cnt);
    if !pool.slots[ch].isLeaf {
      pool.ShiftChildrenRight(ch, 0, cnt + 1);
    }
  }

  // The key of the parent becomes the first one of the child, the last child of the sibling its first.
  method TakeAtStart(pool: NodePool, node: Index, idx: nat, ch: Index, sib: Index, ghost g: seq<Index>)
    requires node in pool.slots && ch in pool.slots && sib in pool.slots && node != ch && ch != sib
    requires 0 < idx <= pool.slots[node].keyCnt
    requires |g| == (if pool.slots[ch].isLeaf then 0 else 1) && ch !in g
    requires forall j :: 0 <= j < |g| ==>
               g[j] in pool.slots && pool.slots[sib].children[pool.slots[sib].keyCnt] == Some(g[j])
    modifies pool
    ensures var n := old(pool.slots)[ch];
            Rebuilt(old(pool.slots), pool.slots, ch, n.keys[0 := old(pool.slots)[node].keys[idx - 1]],
                    if g == [] then n.children else n.children[0 := Some(g[0])], g)
  {
    pool.MoveKey(node, idx - 1, ch, 0);
    if !pool.slots[ch].isLeaf {
      assert pool.slots[sib].children[pool.slots[sib].keyCnt] == Some(g[0]);
      var last := pool.slots[sib].children[pool.slots[sib].keyCnt].value;
      pool.SetChild(ch, 0, last);
    }
  }

  lemma RebuiltTwice(m0: Memory, m1: Memory, m2: Memory, n: Index, k1: seq<KeyInfo>, c1: seq<Option<Index>>,
                     k2: seq<KeyInfo>, c2: seq<Option<Index>>, g: seq<Index>)
    requires Rebuilt(m0, m1, n, k1, c1, []) && Rebuilt(m1, m2, n, k2, c2, g)
    ensures Rebuilt(m0, m2, n, k2, c2, g)
  {
  }

  // Both steps together: the child gets a first key and a first child.
  method OpenAndTake(pool: NodePool, node: Index, idx: nat, ch: Index, sib: Index, ghost g: seq<Index>)
    requires node in pool.slots && ch in pool.slots && sib in pool.slots && node != ch && ch != sib
    requires 0 < idx <= pool.slots[node].keyCnt && pool.slots[ch].keyCnt < MAX_DEGREE
    requires |g| == (if pool.slots[ch].isLeaf then 0 else 1) && ch !in g
    requires forall j :: 0 <= j < |g| ==>
               g[j] in pool.slots && pool.slots[sib].children[pool.slots[sib].keyCnt] == Some(g[j])
    modifies pool
    ensures var n := old(pool.slots)[ch];
            Rebuilt(old(pool.slots), pool.slots, ch,
                    ShiftedRight(n.keys, 0, n.keyCnt)[0 := old(pool.slots)[node].keys[idx - 1]],
                    if g == [] then n.children else ShiftedRight(n.children, 0, n.keyCnt + 1)[0 := Some(g[0])], g)
  {
    hide ShiftedRight;
    ghost var m0 := pool.slots;
    MakeRoom(pool, ch);
    ghost var m1 := pool.slots;
    TakeAtStart(pool, node, idx, ch, sib, g);
    RebuiltTwice(m0, m1, pool.slots, ch, m1[ch].keys, m1[ch].children,
                 m1[ch].keys[0 := m1[node].keys[idx - 1]],
                 if g == [] then m1[ch].children else m1[ch].children[0 := Some(g[0])], g);
  }

  method BorrowPrevNodes(pool: NodePool, node: Index, idx: nat, ch: Index, sib: Index, ghost g: seq<Index>)
    requires node in pool.slots && ch in pool.slots && sib in pool.slots && node != ch && node != sib && ch != sib
    requires 0 < idx <= pool.slots[node].keyCnt && pool.slots[ch].keyCnt < MAX_DEGREE && pool.slots[sib].keyCnt > 0
    requires pool.slots[ch].isLeaf == pool.slots[sib].isLeaf
    requires |g| == (if pool.slots[ch].isLeaf then 0 else 1) && node !in g && ch !in g && sib !in g
    requires forall j :: 0 <= j < |g| ==>
               g[j] in pool.slots && pool.slots[sib].children[pool.slots[sib].keyCnt] == Some(g[j])
    modifies pool
    ensures BorrowedPrev(old(pool.slots), pool.slots, node, idx, ch, sib, g)
  {
    hide ShiftedRight, BorrowedPrev;
    ghost var m0 := pool.slots;
    OpenAndTake(pool, node, idx, ch, sib, g);
    ghost var m1 := pool.slots;
    LastMovesUp(pool, node, idx - 1, sib);
    ghost var m2 := pool.slots;
    CountKeys(pool, ch, pool.slots[ch].keyCnt + 1, sib, pool.slots[sib].keyCnt - 1);
    BorrowPrevDone(m0, m1, m2, pool.slots, node, idx, ch, sib, g);
  }

  ghost predicate LastMovedUp(m0: Memory, m1: Memory, node: Index, idx: nat, sib: Index)
    requires idx < MAX_DEGREE
  {
    && node in m0 && sib in m0 && m0[sib].keyCnt > 0 && m1.Keys == m0.Keys
    && m1[node] == WithKey(m0[node], idx, m0[sib].keys[m0[sib].keyCnt - 1])
    && (forall x :: x in m0 && x != node ==> m1[x] == m0[x])
  }

  method LastMovesUp(pool: NodePool, node: Index, idx: nat, sib: Index)
    requires node in pool.slots && sib in pool.slots && node != sib && idx < MAX_DEGREE && pool.slots[sib].keyCnt > 0
    modifies pool
    ensures LastMovedUp(old(pool.slots), pool.slots, node, idx, sib)
  {
    pool.MoveKey(sib, pool.slots[sib].keyCnt - 1, node, idx);
  }

  lemma BorrowPrevDone(m0: Memory, m1: Memory, m2: Memory, m3: Memory, node: Index, idx: nat, ch: Index, sib: Index,
                       g: seq<Index>)
    requires node in m0 && ch in m0 && sib in m0 && node != ch && node != sib && ch != sib
    requires 0 < idx <= m0[node].keyCnt && m0[ch].keyCnt < MAX_DEGREE && m0[sib].keyCnt > 0
    requires |g| == (if m0[ch].isLeaf then 0 else 1) && node !in g && ch !in g && sib !in g
    requires Rebuilt(m0, m1, ch, ShiftedRight(m0[ch].keys, 0, m0[ch].keyCnt)[0 := m0[node].keys[idx - 1]],
                     if g == [] then m0[ch].children
                     else ShiftedRight(m0[ch].children, 0, m0[ch].keyCnt + 1)[0 := Some(g[0])], g)
    requires LastMovedUp(m1, m2, node, idx - 1, sib)
    requires Counted(m2, m3, ch, m0[ch].keyCnt + 1, sib, m0[sib].keyCnt - 1)
    ensures BorrowedPrev(m0, m3, node, idx, ch, sib, g)
  {
    hide ShiftedRight;
  }

  lemma TookAtStartHolds(n: Node, t: BT, parent: Option<Index>, x: KeyInfo, g: seq<BT>)
    requires Holds(n, t, parent) && Shaped(t.items, t.kids) && |t.items| < MAX_DEGREE
    requires |g| == Along(t)
    ensures Holds(TookAtStart(n, x, if g == [] then None else Some(g[0].id)), BT(t.id, [x] + t.items, g + t.kids),
                  parent)
  {
    var r := TookAtStart(n, x, if g == [] then None else Some(g[0].id));
    assert r.keys[..r.keyCnt] == [x] + t.items;
    var kids := g + t.kids;
    forall i | 0 <= i < |kids|
      ensures r.children[i] == Some(kids[i].id)
    {
    }
  }

  lemma GaveLastHolds(n: Node, t: BT, parent: Option<Index>)
    requires Holds(n, t, parent) && Shaped(t.items, t.kids) && t.items != []
    ensures Holds(GaveLast(n), BT(t.id, t.items[..|t.items| - 1], t.kids[..|t.kids| - Along(t)]), parent)
  {
    var r := GaveLast(n);
    assert r.keys[..r.keyCnt] == t.items[..|t.items| - 1];
  }

  // ---------- merging with the next sibling ----------

  ghost function Merged(t: BT, i: nat): BT
    requires i + 1 < |t.kids| && i < |t.items|
  {
    var l, r := t.kids[i], t.kids[i + 1];
    BT(l.id, l.items + [t.items[i]] + r.items, l.kids + r.kids)
  }

  lemma {:induction false} MergedFlat(t: BT, i: nat)
    requires TwoAlike(t, i)
    ensures Flat(WithJoined(t, i, Merged(t, i))) == Flat(t)
  {
    hide Flat;
    var l, r := t.kids[i], t.kids[i + 1];
    JoinFlat(l.id, l.items, t.items[i], r.items, l.kids, r.kids);
    FlatIgnoresId(l.id, l);
    FlatIgnoresId(l.id, r);
    JoinedFlat(t, i, Merged(t, i));
  }

  function TookAll(n: Node, x: KeyInfo, s: Node, g: seq<Index>): (r: RawNode)
    requires n.keyCnt == MIN_DEGREE && s.keyCnt == MIN_DEGREE && |g| == if n.isLeaf then 0 else MIN_DEGREE + 1
    ensures Sized(r)
  {
    n.(keys := Copied(n.keys[MIN_DEGREE := x], MIN_DEGREE + 1, s.keys, 0, MIN_DEGREE),
       children := Copied(n.children, MIN_DEGREE + 1, Somes(g), 0, |g|),
       keyCnt := MAX_DEGREE)
  }

  function WithoutKey(n: Node, idx: nat): (r: RawNode)
    requires idx < n.keyCnt
    ensures Sized(r)
  {
    n.(keys := ShiftedLeft(n.keys, idx + 1, n.keyCnt),
       children := ShiftedLeft(n.children, idx + 2, n.keyCnt + 1),
       keyCnt := n.keyCnt - 1)
  }

  ghost predicate MergedNodes(m0: Memory, m1: Memory, node: Index, idx: nat, ch: Index, sib: Index, g: seq<Index>) {
    && node in m0 && ch in m0 && sib in m0 && idx < m0[node].keyCnt && ch != sib && node != sib
    && m0[ch].keyCnt == MIN_DEGREE && m0[sib].keyCnt == MIN_DEGREE
    && |g| == (if m0[ch].isLeaf then 0 else MIN_DEGREE + 1)
    && m1.Keys == m0.Keys - {sib}
    && m1[ch] == TookAll(m0[ch], m0[node].keys[idx], m0[sib], g)
    && m1[node] == WithoutKey(m0[node], idx)
    && Traded(m0, m1, node, ch, sib, g, ch)
  }

  // The key between the siblings and all that the second one holds go to the first.
  method TakeAll(pool: NodePool, node: Index, idx: nat, ch: Index, sib: Index, ghost g: seq<Index>)
    requires node in pool.slots && ch in pool.slots && sib in pool.slots && node != ch && ch != sib
    requires idx < MAX_DEGREE && pool.slots[sib].keyCnt == MIN_DEGREE
    requires |g| == (if pool.slots[ch].isLeaf then 0 else MIN_DEGREE + 1)
    requires Distinct(g) && ch !in g && sib !in g
    requires forall j :: 0 <= j < |g| ==> pool.slots[sib].children[j] == Some(g[j]) && g[j] in pool.slots
    modifies pool
    ensures var n, s := old(pool.slots)[ch], old(pool.slots)[sib];
            Rebuilt(old(pool.slots), pool.slots, ch,
                    Copied(n.keys[MIN_DEGREE := old(pool.slots)[node].keys[idx]], MIN_DEGREE + 1, s.keys, 0,
                           MIN_DEGREE),
                    Copied(n.children, MIN_DEGREE + 1, Somes(g), 0, |g|), g)
  {
    pool.MoveKey(node, idx, ch, MIN_DEGREE);
    TransferItems(pool, sib, ch, g);
  }

  method TransferItems(pool: NodePool, src: Index, dst: Index, ghost g: seq<Index>)
    requires src in pool.slots && dst in pool.slots && dst != src && pool.slots[src].keyCnt == MIN_DEGREE
    requires |g| == (if pool.slots[dst].isLeaf then 0 else MIN_DEGREE + 1)
    requires Distinct(g) && dst !in g && src !in g
    requires forall j :: 0 <= j < |g| ==> pool.slots[src].children[j] == Some(g[j]) && g[j] in pool.slots
    modifies pool
    ensures var n, s := old(pool.slots)[dst], old(pool.slots)[src];
            Rebuilt(old(pool.slots), pool.slots, dst,
                    Copied(n.keys, MIN_DEGREE + 1, s.keys, 0, MIN_DEGREE),
                    Copied(n.children, MIN_DEGREE + 1, Somes(g), 0, |g|), g)
  {
    pool.CopyKeys(src, 0, dst, MIN_DEGREE + 1, pool.slots[src].keyCnt);
    if !pool.slots[dst].isLeaf {
      pool.AdoptChildren(src, 0, dst, MIN_DEGREE + 1, pool.slots[src].keyCnt + 1, g);
    } else {
      assert Copied(pool.slots[dst].children, MIN_DEGREE + 1, Somes(g), 0, 0) == pool.slots[dst].children;
    }
  }

  method ShiftItemsLeft(pool: NodePool, node: Index, idx: nat)
    requires node in pool.slots && idx < pool.slots[node].keyCnt
    modifies pool
    ensures var n := old(pool.slots)[node];
            Rebuilt(old(pool.slots), pool.slots, node, ShiftedLeft(n.keys, idx + 1, n.keyCnt),
                    ShiftedLeft(n.children, idx + 2, n.keyCnt + 1), [])
  {
    pool.ShiftKeysLeft(node, idx + 1, pool.slots[node].keyCnt);
    pool.ShiftChildrenLeft(node, idx + 2, pool.slots[node].keyCnt + 1);
  }

  method MergeNodes(pool: NodePool, node: Index, idx: nat, ch: Index, sib: Index, ghost g: seq<Index>)
    requires node in pool.slots && ch in pool.slots && sib in pool.slots && node != ch && node != sib && ch != sib
    requires idx < pool.slots[node].keyCnt && pool.slots[ch].keyCnt == MIN_DEGREE
    requires pool.slots[sib].keyCnt == MIN_DEGREE
    requires |g| == (if pool.slots[ch].isLeaf then 0 else MIN_DEGREE + 1)
    requires Distinct(g) && node !in g && ch !in g && sib !in g
    requires forall j :: 0 <= j < |g| ==> pool.slots[sib].children[j] == Some(g[j]) && g[j] in pool.slots
    modifies pool
    ensures MergedNodes(old(pool.slots), pool.slots, node, idx, ch, sib, g)
  {
    hide ShiftedLeft, Copied, Somes, MergedNodes;
    ghost var m0 := pool.slots;
    TakeAll(pool, node, idx, ch, sib, g);
    ghost var m1 := pool.slots;
    ShiftItemsLeft(pool, node, idx);
    ghost var m2 := pool.slots;
    CountKeys(pool, ch, pool.slots[ch].keyCnt + pool.slots[sib].keyCnt + 1, node, pool.slots[node].keyCnt - 1);
    ghost var m3 := pool.slots;
    pool.Release(sib);
    MergeDone(m0, m1, m2, m3, pool.slots, node, idx, ch, sib, g);
  }

  lemma MergeDone(m0: Memory, m1: Memory, m2: Memory, m3: Memory, m4: Memory, node: Index, idx: nat, ch: Index,
                  sib: Index, g: seq<Index>)
    requires node in m0 && ch in m0 && sib in m0 && node != ch && node != sib && ch != sib
    requires idx < m0[node].keyCnt && m0[ch].keyCnt == MIN_DEGREE && m0[sib].keyCnt == MIN_DEGREE
    requires |g| == (if m0[ch].isLeaf then 0 else MIN_DEGREE + 1) && node !in g && ch !in g && sib !in g
    requires Rebuilt(m0, m1, ch,
                     Copied(m0[ch].keys[MIN_DEGREE := m0[node].keys[idx]], MIN_DEGREE + 1, m0[sib].keys, 0, MIN_DEGREE),
                     Copied(m0[ch].children, MIN_DEGREE + 1, Somes(g), 0, |g|), g)
    requires Rebuilt(m1, m2, node, ShiftedLeft(m0[node].keys, idx + 1, m0[node].keyCnt),
                     ShiftedLeft(m0[node].children, idx + 2, m0[node].keyCnt + 1), [])
    requires Counted(m2, m3, ch, MAX_DEGREE, node, m0[node].keyCnt - 1)
    requires m4 == m3 - {sib}
    ensures MergedNodes(m0, m4, node, idx, ch, sib, g)
  {
    hide ShiftedLeft, Copied, Somes;
  }

  lemma TookAllHolds(n: Node, t: BT, parent: Option<Index>, x: KeyInfo, s: Node, st: BT, sp: Option<Index>)
    requires Holds(n, t, parent) && Holds(s, st, sp) && Shaped(t.items, t.kids) && Shaped(st.items, st.kids)
    requires |t.items| == MIN_DEGREE && |st.items| == MIN_DEGREE && (t.kids == [] <==> st.kids == [])
    ensures Holds(TookAll(n, x, s, Roots(st.kids)), BT(t.id, t.items + [x] + st.items, t.kids + st.kids), parent)
  {
    var r := TookAll(n, x, s, Roots(st.kids));
    assert r.keys[..r.keyCnt] == t.items + [x] + st.items;
    var kids := t.kids + st.kids;
    forall i | 0 <= i < |kids|
      ensures r.children[i] == Some(kids[i].id)
    {
      if i > MIN_DEGREE {
        assert kids[i] == st.kids[i - MIN_DEGREE - 1];
        assert r.children[i] == Somes(Roots(st.kids))[i - MIN_DEGREE - 1];
      }
    }
  }

  lemma WithoutKeyHolds(n: Node, t: BT, parent: Option<Index>, i: nat, k: BT)
    requires Holds(n, t, parent) && |t.kids| == |t.items| + 1 && i < |t.items| && k.id == t.kids[i].id
    ensures Holds(WithoutKey(n, i), WithJoined(t, i, k), parent)
  {
    var r, t' := WithoutKey(n, i), WithJoined(t, i, k);
    assert r.keys[..r.keyCnt] == t'.items;
    forall j | 0 <= j < |t'.kids|
      ensures r.children[j] == Some(t'.kids[j].id)
    {
      if j > i {
        assert t'.kids[j] == t.kids[j + 1];
      }
    }
  }
}
