/** Walking over the keys of one level by parent pointers (BTreeKeyIterator). */
module BTreeIterator {
  import opened Nodes
  import opened Interleave
  import opened BTrees
  import opened BTreePositions
  import opened BTreeRemove

  // ---------- where a node is in its tree ----------

  // The way from the root down to a node: every inner node with the child taken.
  datatype Step = Step(t: BT, i: nat)

  ghost predicate Down(t: BT, way: seq<Step>, c: BT) {
    if way == [] then c == t
    else
      var last := way[|way| - 1];
      && |last.t.kids| == |last.t.items| + 1 && last.i <= |last.t.items| && last.t.kids[last.i] == c
      && Down(t, way[..|way| - 1], last.t)
  }

  // How many keys lie before the keys of that node.
  ghost function Ahead(way: seq<Step>): nat
    requires forall j :: 0 <= j < |way| ==> |way[j].t.kids| == |way[j].t.items| + 1 && way[j].i <= |way[j].t.items|
  {
    if way == [] then 0
    else Ahead(way[..|way| - 1]) + |LeftOf(way[|way| - 1].t, way[|way| - 1].i)|
  }

  lemma {:induction false} DownSteps(t: BT, way: seq<Step>, c: BT)
    requires Down(t, way, c)
    ensures forall j :: 0 <= j < |way| ==> |way[j].t.kids| == |way[j].t.items| + 1 && way[j].i <= |way[j].t.items|
  {
    if way != [] {
      DownSteps(t, way[..|way| - 1], way[|way| - 1].t);
      assert forall j :: 0 <= j < |way| - 1 ==> way[..|way| - 1][j] == way[j];
    }
  }

  ghost function ParentOf(way: seq<Step>): Option<Index> {
    if way == [] then None else Some(way[|way| - 1].t.id)
  }

  lemma {:induction false} DownSub(m: Memory, t: BT, h: nat, way: seq<Step>, c: BT)
    requires Sub(m, t, None, h) && Down(t, way, c)
    ensures |way| <= h && Sub(m, c, ParentOf(way), h - |way|)
    ensures way != [] ==> |c.items| >= MIN_DEGREE
  {
    if way != [] {
      var last := way[|way| - 1];
      DownSub(m, t, h, way[..|way| - 1], last.t);
      assert |c.items| >= MIN_DEGREE && Sub(m, c, Some(last.t.id), h - |way|);
    }
  }

  // The positions of the node are a stretch of the positions of the tree.
  lemma {:induction false} DownPos(t: BT, way: seq<Step>, c: BT)
    requires Down(t, way, c)
    ensures forall j :: 0 <= j < |way| ==> |way[j].t.kids| == |way[j].t.items| + 1 && way[j].i <= |way[j].t.items|
    ensures Ahead(way) + |FlatPos(c)| <= |FlatPos(t)|
    ensures FlatPos(t)[Ahead(way)..Ahead(way) + |FlatPos(c)|] == FlatPos(c)
  {
    hide FlatPos, Flat, LeftOf;
    DownSteps(t, way, c);
    if way == [] {
      assert FlatPos(t)[0..|FlatPos(c)|] == FlatPos(c);
    } else {
      var last := way[|way| - 1];
      DownPos(t, way[..|way| - 1], last.t);
      PosAt(last.t, last.i);
      PosLength(c);
      SliceOfSlice(FlatPos(t), Ahead(way[..|way| - 1]), |FlatPos(last.t)|, |LeftOf(last.t, last.i)|, |FlatPos(c)|);
    }
  }

  lemma SliceOfSlice<A>(s: seq<A>, a: nat, n: nat, b: nat, k: nat)
    requires a + n <= |s| && b + k <= n
    ensures s[a..a + n][b..b + k] == s[a + b..a + b + k]
  {
    var u, w := s[a..a + n][b..b + k], s[a + b..a + b + k];
    forall i | 0 <= i < k
      ensures u[i] == w[i]
    {
    }
  }

  // The place of key j of a node among the keys of the node and its children.
  ghost function OwnPlace(c: BT, j: nat): nat
    requires j < |c.items|
  {
    if |c.kids| != |c.items| + 1 then j else |LeftOf(c, j)| + |Flat(c.kids[j])|
  }

  lemma {:induction false} OwnPlaceIs(c: BT, j: nat)
    requires (c.kids == [] || |c.kids| == |c.items| + 1) && j < |c.items|
    ensures OwnPlace(c, j) < |FlatPos(c)| && FlatPos(c)[OwnPlace(c, j)] == (c.id, j)
  {
    hide FlatPos, Flat;
    if c.kids != [] {
      PosOwn(c, j);
    } else {
      LeafPos(c);
    }
  }

  // Every place belongs to a key of some node.
  lemma {:induction false} FindPlace(m: Memory, t: BT, h: nat, way: seq<Step>, c: BT, p: nat)
    returns (way': seq<Step>, c': BT, j: nat)
    requires Sub(m, t, None, h) && Down(t, way, c) && p < |FlatPos(c)|
    ensures Down(t, way', c') && j < |c'.items| && FlatPos(c)[p] == (c'.id, j)
    ensures forall k :: 0 <= k < |way'| ==> |way'[k].t.kids| == |way'[k].t.items| + 1 && way'[k].i <= |way'[k].t.items|
    ensures forall k :: 0 <= k < |way| ==> |way[k].t.kids| == |way[k].t.items| + 1 && way[k].i <= |way[k].t.items|
    ensures Ahead(way) + p == Ahead(way') + OwnPlace(c', j)
    decreases h - |way|
  {
    hide Flat, FlatPos, LeftOf, RightOf, Down, Ahead, OwnPlace;
    DownSub(m, t, h, way, c);
    DownSteps(t, way, c);
    NodeShape(m, c, ParentOf(way), h - |way|);
    if c.kids == [] {
      LeafPos(c);
      LeafPlace(c, p);
      way', c', j := way, c, p;
    } else {
      var i := KidOrKey(c, p);
      PosAt(c, i);
      if p < |LeftOf(c, i)| + |Flat(c.kids[i])| {
        OneDown(t, way, c, i);
        assert FlatPos(c)[|LeftOf(c, i)|..|LeftOf(c, i)| + |Flat(c.kids[i])|][p - |LeftOf(c, i)|] == FlatPos(c)[p];
        way', c', j := FindPlace(m, t, h, way + [Step(c, i)], c.kids[i], p - |LeftOf(c, i)|);
      } else {
        way', c', j := way, c, i;
        PosOwn(c, i);
        InnerPlace(c, i);
      }
    }
  }

  lemma {:induction false} OneDown(t: BT, way: seq<Step>, c: BT, i: nat)
    requires Down(t, way, c) && |c.kids| == |c.items| + 1 && i <= |c.items|
    requires forall k :: 0 <= k < |way| ==> |way[k].t.kids| == |way[k].t.items| + 1 && way[k].i <= |way[k].t.items|
    ensures Down(t, way + [Step(c, i)], c.kids[i])
    ensures forall k :: 0 <= k <= |way| ==>
              var w := way + [Step(c, i)]; |w[k].t.kids| == |w[k].t.items| + 1 && w[k].i <= |w[k].t.items|
    ensures Ahead(way + [Step(c, i)]) == Ahead(way) + |LeftOf(c, i)|
  {
    assert (way + [Step(c, i)])[..|way|] == way;
  }

  lemma LeafPlace(c: BT, j: nat)
    requires c.kids == [] && j < |c.items|
    ensures OwnPlace(c, j) == j
  {
  }

  lemma InnerPlace(c: BT, j: nat)
    requires |c.kids| == |c.items| + 1 && j < |c.items|
    ensures OwnPlace(c, j) == |LeftOf(c, j)| + |Flat(c.kids[j])|
  {
  }

  // The child whose keys have this place, or that ends just before the key that has it.
  lemma KidOrKey(c: BT, p: nat) returns (i: nat)
    requires |c.kids| == |c.items| + 1 && p < |FlatPos(c)|
    ensures i <= |c.items| && |LeftOf(c, i)| <= p <= |LeftOf(c, i)| + |Flat(c.kids[i])|
    ensures p == |LeftOf(c, i)| + |Flat(c.kids[i])| ==> i < |c.items|
  {
    hide Flat, FlatPos, LeftOf, RightOf;
    i := 0;
    PosAt(c, 0);
    LeftStart(c);
    while i < |c.items| && p > |LeftOf(c, i)| + |Flat(c.kids[i])|
      invariant i <= |c.items| && |LeftOf(c, i)| <= p
      decreases |c.items| - i
    {
      LeftNext(c, i);
      i := i + 1;
    }
    if i == |c.items| {
      FlatAt(c, i);
      PosLength(c);
      RightEnd(c);
    }
  }

  lemma LeftStart(c: BT)
    requires |c.kids| == |c.items| + 1
    ensures LeftOf(c, 0) == []
  {
  }

  lemma RightEnd(c: BT)
    requires |c.kids| == |c.items| + 1
    ensures RightOf(c, |c.items|) == []
  {
  }

  lemma LeftNext(c: BT, i: nat)
    requires |c.kids| == |c.items| + 1 && i < |c.items|
    ensures |LeftOf(c, i + 1)| == |LeftOf(c, i)| + |Flat(c.kids[i])| + 1
  {
    BeforeSnoc(c.items, Parts(c.kids), i);
  }

  // ---------- steps between nodes ----------

  // The child that the pointer leads to.
  method IndexOfChild(pool: NodePool, p: Index, ch: Index, ghost t: BT, ghost parent: Option<Index>, ghost h: nat,
                      ghost i0: nat) returns (i: nat)
    requires Sub(pool.slots, t, parent, h) && h > 0 && p == t.id && i0 < |t.kids| && ch == t.kids[i0].id
    ensures i == i0
  {
    KidAt(pool.slots, t, parent, h, i0);
    i := 0;
    while i <= pool.slots[p].keyCnt
      invariant i <= i0
    {
      KidAt(pool.slots, t, parent, h, i);
      if pool.slots[p].children[i] == Some(ch) {
        KidsDiffer(t, i, i0);
        return;
      }
      i := i + 1;
    }
  }

  lemma KidsDiffer(t: BT, i: nat, j: nat)
    requires Apart(t.kids) && i < |t.kids| && j < |t.kids| && t.kids[i].id == t.kids[j].id
    ensures i == j
  {
    assert t.kids[i].id in Ids(t.kids[i]) && t.kids[j].id in Ids(t.kids[j]);
  }

  lemma {:induction false} FirstPos(t: BT)
    requires |t.kids| == |t.items| + 1 && FlatPos(t.kids[0]) != []
    ensures FlatPos(t) != [] && FlatPos(t)[0] == FlatPos(t.kids[0])[0]
  {
    ZipAfter(OwnPos(t), PosParts(t.kids));
  }

  lemma {:induction false} LastPos(t: BT)
    requires |t.kids| == |t.items| + 1 && FlatPos(t.kids[|t.items|]) != []
    ensures FlatPos(t) != []
    ensures FlatPos(t)[|FlatPos(t)| - 1] == FlatPos(t.kids[|t.items|])[|FlatPos(t.kids[|t.items|])| - 1]
  {
    ZipAt(OwnPos(t), PosParts(t.kids), |t.items|);
  }

  lemma {:induction false} PosNonEmpty(m: Memory, t: BT, parent: Option<Index>, h: nat)
    requires Sub(m, t, parent, h) && t.items != []
    ensures FlatPos(t) != []
  {
    FlatNonEmpty(m, t, parent, h);
    PosLength(t);
  }

  lemma {:induction false} LeafPos(t: BT)
    requires t.kids == []
    ensures FlatPos(t) == OwnPos(t)
  {
  }

  // The leftmost leaf below a node.
  method GetMostLeft(pool: NodePool, n: Index, ghost t: BT, ghost parent: Option<Index>, ghost h: nat)
    returns (leaf: Index)
    requires Sub(pool.slots, t, parent, h) && n == t.id && t.items != []
    ensures FlatPos(t) != [] && FlatPos(t)[0] == (leaf, 0)
  {
    hide Sub, FlatPos, Flat;
    leaf := n;
    ghost var c, p := t, parent;
    ghost var hc: nat := h;
    PosNonEmpty(pool.slots, t, parent, h);
    NodeShape(pool.slots, t, parent, h);
    while !pool.slots[leaf].isLeaf
      invariant Sub(pool.slots, c, p, hc) && leaf == c.id && leaf in pool.slots && c.items != []
      invariant pool.slots[leaf].isLeaf <==> hc == 0
      invariant FlatPos(c) != [] && FlatPos(t) != [] && FlatPos(c)[0] == FlatPos(t)[0]
      decreases hc
    {
      NodeShape(pool.slots, c, p, hc);
      KidAt(pool.slots, c, p, hc, 0);
      PosNonEmpty(pool.slots, c.kids[0], Some(c.id), hc - 1);
      NodeShape(pool.slots, c.kids[0], Some(c.id), hc - 1);
      FirstPos(c);
      leaf := pool.slots[leaf].children[0].value;
      c, p, hc := c.kids[0], Some(c.id), hc - 1;
    }
    NodeShape(pool.slots, c, p, hc);
    LeafPos(c);
  }

  // The last key of the rightmost leaf below a node.
  method GetMostRight(pool: NodePool, n: Index, ghost t: BT, ghost parent: Option<Index>, ghost h: nat)
    returns (leaf: Index, i: nat)
    requires Sub(pool.slots, t, parent, h) && n == t.id && t.items != []
    ensures FlatPos(t) != [] && FlatPos(t)[|FlatPos(t)| - 1] == (leaf, i)
  {
    hide Sub, FlatPos, Flat;
    leaf := n;
    ghost var c, p := t, parent;
    ghost var hc: nat := h;
    PosNonEmpty(pool.slots, t, parent, h);
    NodeShape(pool.slots, t, parent, h);
    while !pool.slots[leaf].isLeaf
      invariant Sub(pool.slots, c, p, hc) && leaf == c.id && leaf in pool.slots && c.items != []
      invariant pool.slots[leaf].isLeaf <==> hc == 0
      invariant FlatPos(c) != [] && FlatPos(t) != [] && FlatPos(c)[|FlatPos(c)| - 1] == FlatPos(t)[|FlatPos(t)| - 1]
      decreases hc
    {
      NodeShape(pool.slots, c, p, hc);
      KidAt(pool.slots, c, p, hc, |c.items|);
      PosNonEmpty(pool.slots, c.kids[|c.items|], Some(c.id), hc - 1);
      NodeShape(pool.slots, c.kids[|c.items|], Some(c.id), hc - 1);
      LastPos(c);
      leaf := pool.slots[leaf].children[pool.slots[leaf].keyCnt].value;
      c, p, hc := c.kids[|c.items|], Some(c.id), hc - 1;
    }
    NodeShape(pool.slots, c, p, hc);
    LeafPos(c);
    i := pool.slots[leaf].keyCnt - 1;
  }

  // ---------- successor and predecessor ----------

  ghost function At(t: BT, p: int): Option<Position> {
    if 0 <= p < |FlatPos(t)| then Some(FlatPos(t)[p]) else None
  }

  lemma UpStep(m: Memory, t: BT, h: nat, way: seq<Step>, c: BT)
    requires Sub(m, t, None, h) && Down(t, way, c) && way != []
    ensures var last := way[|way| - 1];
            && |way| <= h && Down(t, way[..|way| - 1], last.t)
            && Sub(m, last.t, ParentOf(way[..|way| - 1]), h - |way| + 1)
            && |last.t.kids| == |last.t.items| + 1 && last.i <= |last.t.items| && last.t.kids[last.i] == c
            && c.id in m && m[c.id].parent == Some(last.t.id) && last.t.id in m
            && m[last.t.id].keyCnt == |last.t.items|
  {
    DownSub(m, t, h, way, c);
    DownSub(m, t, h, way[..|way| - 1], way[|way| - 1].t);
  }

  lemma {:induction false} TopStep(m: Memory, t: BT, h: nat, way: seq<Step>, c: BT)
    requires Sub(m, t, None, h) && Down(t, way, c)
    ensures c.id in m && (m[c.id].parent == None <==> way == [])
  {
    DownSub(m, t, h, way, c);
  }

  // The place behind the last key of a node.
  ghost predicate EndsAt(t: BT, way: seq<Step>, c: BT, p: nat) {
    && Down(t, way, c)
    && (forall j :: 0 <= j < |way| ==> |way[j].t.kids| == |way[j].t.items| + 1 && way[j].i <= |way[j].t.items|)
    && p == Ahead(way) + |FlatPos(c)|
  }

  // Behind the last child: behind the last key of its parent as well. Behind any other
  // child: at the key of the parent that follows it.
  lemma {:induction false} EndsAbove(t: BT, way: seq<Step>, c: BT, p: nat)
    requires EndsAt(t, way, c, p)
    ensures way == [] ==> p == |FlatPos(t)|
    ensures way != [] ==>
              var last := way[|way| - 1];
              if last.i == |last.t.items| then EndsAt(t, way[..|way| - 1], last.t, p)
              else p < |FlatPos(t)| && FlatPos(t)[p] == (last.t.id, last.i)
  {
    hide FlatPos, Flat, LeftOf, RightOf;
    if way != [] {
      var last := way[|way| - 1];
      PosAt(last.t, last.i);
      PosLength(last.t);
      DownPos(t, way[..|way| - 1], last.t);
      var a := Ahead(way[..|way| - 1]);
      if last.i == |last.t.items| {
        FlatAt(last.t, last.i);
        RightEnd(last.t);
      } else {
        PosOwn(last.t, last.i);
        assert FlatPos(t)[a..a + |FlatPos(last.t)|][p - a] == FlatPos(t)[p];
      }
    }
  }

  // Climbs until a key follows.
  method ClimbToNext(pool: NodePool, n0: Index, ghost t: BT, ghost h: nat, ghost way0: seq<Step>, ghost c0: BT,
                     ghost p: nat)
    returns (r: Option<Position>)
    requires Sub(pool.slots, t, None, h) && n0 == c0.id && EndsAt(t, way0, c0, p)
    ensures r == At(t, p)
  {
    hide Sub, FlatPos, Flat, Down, Ahead, EndsAt;
    ghost var way, c := way0, c0;
    EndsDown(t, way, c, p);
    TopStep(pool.slots, t, h, way, c);
    var n := n0;
    var up := pool.slots[n].parent;
    while up.Some?
      invariant EndsAt(t, way, c, p) && Down(t, way, c) && n == c.id && n in pool.slots && up == pool.slots[n].parent
      invariant up.None? <==> way == []
      decreases |way|
    {
      ghost var last := way[|way| - 1];
      UpStep(pool.slots, t, h, way, c);
      EndsAbove(t, way, c, p);
      var i := IndexOfChild(pool, up.value, n, last.t, ParentOf(way[..|way| - 1]), h - |way| + 1, last.i);
      if i == pool.slots[up.value].keyCnt {
        way, c := way[..|way| - 1], last.t;
        TopStep(pool.slots, t, h, way, c);
        n := up.value;
        up := pool.slots[n].parent;
      } else {
        return Some((up.value, i));
      }
    }
    EndsAbove(t, way, c, p);
    return None;
  }

  lemma {:induction false} EndsDown(t: BT, way: seq<Step>, c: BT, p: nat)
    requires EndsAt(t, way, c, p)
    ensures Down(t, way, c)
  {
  }

  /** The position of the next key of the level, if there is one. */
  method GetSuccGlobal(pool: NodePool, n: Index, idx: nat, ghost t: BT, ghost h: nat, ghost p: nat)
    returns (r: Option<Position>)
    requires Sub(pool.slots, t, None, h) && p < |FlatPos(t)| && FlatPos(t)[p] == (n, idx)
    ensures r == At(t, p + 1)
  {
    hide Sub, FlatPos, Flat, Down, Ahead, EndsAt, OwnPlace;
    ghost var way, c, j := Located(pool.slots, t, h, p);
    NodeShape(pool.slots, c, ParentOf(way), h - |way|);
    if pool.slots[n].isLeaf {
      NextInLeaf(t, way, c, j, p);
      if idx as int < pool.slots[n].keyCnt as int - 1 {
        return Some((n, idx + 1));
      } else {
        r := ClimbToNext(pool, n, t, h, way, c, p + 1);
      }
    } else {
      KidAt(pool.slots, c, ParentOf(way), h - |way|, idx + 1);
      var leaf := GetMostLeft(pool, pool.slots[n].children[idx + 1].value, c.kids[idx + 1], Some(n), h - |way| - 1);
      NextBelow(t, way, c, j, p);
      return Some((leaf, 0));
    }
  }

  lemma Located(m: Memory, t: BT, h: nat, p: nat) returns (way: seq<Step>, c: BT, j: nat)
    requires Sub(m, t, None, h) && p < |FlatPos(t)|
    ensures Down(t, way, c) && j < |c.items| && FlatPos(t)[p] == (c.id, j)
    ensures forall k :: 0 <= k < |way| ==> |way[k].t.kids| == |way[k].t.items| + 1 && way[k].i <= |way[k].t.items|
    ensures p == Ahead(way) + OwnPlace(c, j)
    ensures |way| <= h && Sub(m, c, ParentOf(way), h - |way|)
  {
    way, c, j := FindPlace(m, t, h, [], t, p);
    DownSub(m, t, h, way, c);
  }

  lemma {:induction false} NextInLeaf(t: BT, way: seq<Step>, c: BT, j: nat, p: nat)
    requires Down(t, way, c) && c.kids == [] && j < |c.items|
    requires forall k :: 0 <= k < |way| ==> |way[k].t.kids| == |way[k].t.items| + 1 && way[k].i <= |way[k].t.items|
    requires p == Ahead(way) + OwnPlace(c, j)
    ensures j + 1 < |c.items| ==> p + 1 < |FlatPos(t)| && FlatPos(t)[p + 1] == (c.id, j + 1)
    ensures j + 1 == |c.items| ==> EndsAt(t, way, c, p + 1)
    ensures j > 0 ==> p > 0 && p - 1 < |FlatPos(t)| && FlatPos(t)[p - 1] == (c.id, j - 1)
    ensures j == 0 ==> p == Ahead(way)
  {
    hide FlatPos, Down, Ahead;
    DownPos(t, way, c);
    LeafPos(c);
    var a, n := Ahead(way), |FlatPos(c)|;
    assert FlatPos(t)[a..a + n][0..n] == FlatPos(c);
    assert FlatPos(t)[a + j] == FlatPos(c)[j];
    if j + 1 < n {
      assert FlatPos(t)[a + (j + 1)] == FlatPos(c)[j + 1];
    }
    if j > 0 {
      assert FlatPos(t)[a + (j - 1)] == FlatPos(c)[j - 1];
    }
  }

  lemma {:induction false} NextBelow(t: BT, way: seq<Step>, c: BT, j: nat, p: nat)
    requires Down(t, way, c) && |c.kids| == |c.items| + 1 && j < |c.items| && FlatPos(c.kids[j + 1]) != []
    requires forall k :: 0 <= k < |way| ==> |way[k].t.kids| == |way[k].t.items| + 1 && way[k].i <= |way[k].t.items|
    requires p == Ahead(way) + OwnPlace(c, j)
    ensures p + 1 < |FlatPos(t)| && FlatPos(t)[p + 1] == FlatPos(c.kids[j + 1])[0]
  {
    hide Flat, FlatPos;
    DownPos(t, way, c);
    PosAt(c, j + 1);
    LeftNext(c, j);
    var a, b, f := Ahead(way), |LeftOf(c, j + 1)|, FlatPos(c.kids[j + 1]);
    PosLength(c);
    SliceOfSlice(FlatPos(t), a, |FlatPos(c)|, b, |f|);
    assert FlatPos(t)[a + b..a + b + |f|][0] == FlatPos(t)[a + b];
  }

  // ---------- the other direction ----------

  ghost predicate StartsAt(t: BT, way: seq<Step>, c: BT, p: nat) {
    && Down(t, way, c)
    && (forall j :: 0 <= j < |way| ==> |way[j].t.kids| == |way[j].t.items| + 1 && way[j].i <= |way[j].t.items|)
    && p == Ahead(way)
  }

  // Before the first child: before the first key of its parent as well. Before any other
  // child: right behind the key of the parent that precedes it.
  lemma {:induction false} StartsAbove(t: BT, way: seq<Step>, c: BT, p: nat)
    requires StartsAt(t, way, c, p)
    ensures way == [] ==> p == 0
    ensures way != [] ==>
              var last := way[|way| - 1];
              if last.i == 0 then StartsAt(t, way[..|way| - 1], last.t, p)
              else 0 < p <= |FlatPos(t)| && FlatPos(t)[p - 1] == (last.t.id, last.i - 1)
  {
    hide Flat, FlatPos, LeftOf;
    if way != [] {
      var last := way[|way| - 1];
      if last.i == 0 {
        LeftStart(last.t);
      } else {
        PosOwn(last.t, last.i - 1);
        LeftNext(last.t, last.i - 1);
        DownPos(t, way[..|way| - 1], last.t);
        var a := Ahead(way[..|way| - 1]);
        assert FlatPos(t)[a..a + |FlatPos(last.t)|][p - 1 - a] == FlatPos(t)[p - 1];
      }
    }
  }

  // Climbs until a key precedes.
  method ClimbToPrev(pool: NodePool, n0: Index, ghost t: BT, ghost h: nat, ghost way0: seq<Step>, ghost c0: BT,
                     ghost p: nat)
    returns (r: Option<Position>)
    requires Sub(pool.slots, t, None, h) && n0 == c0.id && StartsAt(t, way0, c0, p)
    ensures r == At(t, p - 1)
  {
    hide Sub, FlatPos, Flat, Down, Ahead, StartsAt;
    ghost var way, c := way0, c0;
    StartsDown(t, way, c, p);
    TopStep(pool.slots, t, h, way, c);
    var n := n0;
    var up := pool.slots[n].parent;
    while up.Some?
      invariant StartsAt(t, way, c, p) && Down(t, way, c) && n == c.id && n in pool.slots && up == pool.slots[n].parent
      invariant up.None? <==> way == []
      decreases |way|
    {
      ghost var last := way[|way| - 1];
      UpStep(pool.slots, t, h, way, c);
      StartsAbove(t, way, c, p);
      var i := IndexOfChild(pool, up.value, n, last.t, ParentOf(way[..|way| - 1]), h - |way| + 1, last.i);
      if i > 0 {
        return Some((up.value, i - 1));
      }
      way, c := way[..|way| - 1], last.t;
      TopStep(pool.slots, t, h, way, c);
      n := up.value;
      up := pool.slots[n].parent;
    }
    StartsAbove(t, way, c, p);
    return None;
  }

  lemma {:induction false} StartsDown(t: BT, way: seq<Step>, c: BT, p: nat)
    requires StartsAt(t, way, c, p)
    ensures Down(t, way, c)
  {
  }

  lemma {:induction false} PrevBelow(t: BT, way: seq<Step>, c: BT, j: nat, p: nat)
    requires Down(t, way, c) && |c.kids| == |c.items| + 1 && j < |c.items| && FlatPos(c.kids[j]) != []
    requires forall k :: 0 <= k < |way| ==> |way[k].t.kids| == |way[k].t.items| + 1 && way[k].i <= |way[k].t.items|
    requires p == Ahead(way) + OwnPlace(c, j)
    ensures 0 < p <= |FlatPos(t)| && FlatPos(t)[p - 1] == FlatPos(c.kids[j])[|FlatPos(c.kids[j])| - 1]
  {
    hide Flat, FlatPos;
    DownPos(t, way, c);
    PosAt(c, j);
    var a, b, f := Ahead(way), |LeftOf(c, j)|, FlatPos(c.kids[j]);
    PosLength(c);
    SliceOfSlice(FlatPos(t), a, |FlatPos(c)|, b, |f|);
    assert FlatPos(t)[a + b..a + b + |f|][|f| - 1] == FlatPos(t)[a + b + |f| - 1];
  }

  /** The position of the previous key of the level, if there is one. */
  method GetPredGlobal(pool: NodePool, n: Index, idx: nat, ghost t: BT, ghost h: nat, ghost p: nat)
    returns (r: Option<Position>)
    requires Sub(pool.slots, t, None, h) && p < |FlatPos(t)| && FlatPos(t)[p] == (n, idx)
    ensures r == At(t, p - 1)
  {
    hide Sub, FlatPos, Flat, Down, Ahead, StartsAt, OwnPlace;
    ghost var way, c, j := Located(pool.slots, t, h, p);
    NodeShape(pool.slots, c, ParentOf(way), h - |way|);
    if pool.slots[n].isLeaf {
      NextInLeaf(t, way, c, j, p);
      if idx > 0 {
        return Some((n, idx - 1));
      } else {
        LeafStarts(t, way, c, p);
        r := ClimbToPrev(pool, n, t, h, way, c, p);
      }
    } else {
      KidAt(pool.slots, c, ParentOf(way), h - |way|, idx);
      var leaf, i := GetMostRight(pool, pool.slots[n].children[idx].value, c.kids[idx], Some(n), h - |way| - 1);
      PrevBelow(t, way, c, j, p);
      return Some((leaf, i));
    }
  }

  lemma {:induction false} LeafStarts(t: BT, way: seq<Step>, c: BT, p: nat)
    requires Down(t, way, c)
    requires forall k :: 0 <= k < |way| ==> |way[k].t.kids| == |way[k].t.items| + 1 && way[k].i <= |way[k].t.items|
    requires p == Ahead(way)
    ensures StartsAt(t, way, c, p)
  {
  }

  // ---------- the whole walk ----------

  /** From the leftmost key on, key by key, until there is no next one. */
  method AllKeys(pool: NodePool, root: Index, ghost t: BT, ghost h: nat) returns (keys: seq<KeyInfo>)
    requires Sub(pool.slots, t, None, h) && root == t.id && t.items != []
    ensures keys == Flat(t)
  {
    hide Sub, FlatPos, Flat;
    keys := [];
    var leaf := GetMostLeft(pool, root, t, None, h);
    var at: Option<Position> := Some((leaf, 0));
    PosLength(t);
    while at.Some?
      invariant |keys| <= |Flat(t)| == |FlatPos(t)|
      invariant at == At(t, |keys|) && keys == Flat(t)[..|keys|]
      decreases |Flat(t)| - |keys|, if at.Some? then 1 else 0
    {
      var (n, i) := at.value;
      KeyAt(pool.slots, t, None, h, |keys|);
      ghost var p := |keys|;
      keys := keys + [pool.slots[n].keys[i]];
      at := GetSuccGlobal(pool, n, i, t, h, p);
    }
  }

  /** Stepping on from a key and back again ends where it started. */
  method StepAndBack(pool: NodePool, n: Index, idx: nat, ghost t: BT, ghost h: nat, ghost p: nat)
    returns (back: Option<Position>)
    requires Sub(pool.slots, t, None, h) && p + 1 < |FlatPos(t)| && FlatPos(t)[p] == (n, idx)
    ensures back == Some((n, idx))
  {
    var r := GetSuccGlobal(pool, n, idx, t, h, p);
    back := GetPredGlobal(pool, r.value.0, r.value.1, t, h, p + 1);
  }
}
