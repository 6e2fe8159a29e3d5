/** Searching one level of the tree (search_seq and search_possition_1d). */
module BTreeSearch {
  import opened Items
  import opened Nodes
  import opened BTrees
  import opened BTreePositions
  import opened BTreeInsert

  // ---------- one node ----------

  method SearchSeq(keys: seq<KeyInfo>, keyCnt: nat, probe: Probe) returns (i: nat, inRange: bool)
    requires keyCnt <= |keys|
    ensures i <= keyCnt
    ensures forall j :: 0 <= j < i ==> !probe.Hits(keys[j].key) && !probe.Precedes(keys[j].key)
    ensures inRange ==> i < keyCnt && probe.Hits(keys[i].key)
    ensures !inRange && i < keyCnt ==> probe.Precedes(keys[i].key)
  {
    i := 0;
    inRange := false;
    while i < keyCnt
      invariant i <= keyCnt
      invariant forall j :: 0 <= j < i ==> !probe.Hits(keys[j].key) && !probe.Precedes(keys[j].key)
    {
      if probe.Precedes(keys[i].key) {
        return;
      } else if probe.Hits(keys[i].key) {
        inRange := true;
        return;
      }
      i := i + 1;
    }
  }

  // ---------- one level ----------

  // Where the key that the probe hits is stored.
  ghost function Locate(t: BT, probe: Probe): Option<Position>
  {
    var p := Seek(Flat(t), probe);
    if p < |Flat(t)| && p < |FlatPos(t)| then Some(FlatPos(t)[p]) else None
  }

  lemma {:induction false} LocateOwn(t: BT, i: nat, probe: Probe)
    requires |t.kids| == |t.items| + 1 || t.kids == []
    requires i < |t.items| && probe.Hits(t.items[i].key) && Separated(Flat(t))
    ensures Locate(t, probe) == Some((t.id, i))
  {
    if t.kids == [] {
      SeekIs(Flat(t), probe, i);
    } else {
      PosOwn(t, i);
      SeekIs(Flat(t), probe, |LeftOf(t, i)| + |Flat(t.kids[i])|);
    }
  }

  // Child i is the only place left where the probe can hit.
  ghost predicate Leads(t: BT, i: nat, probe: Probe) {
    && i <= |t.items|
    && (forall j :: 0 <= j < i ==> !probe.Hits(t.items[j].key) && !probe.Precedes(t.items[j].key))
    && (i < |t.items| ==> probe.Precedes(t.items[i].key))
  }

  lemma {:induction false} MissLeft(t: BT, i: nat, probe: Probe, p: nat)
    requires |t.kids| == |t.items| + 1 && Leads(t, i, probe) && Separated(Flat(t))
    requires p < |LeftOf(t, i)|
    ensures !probe.Hits(LeftOf(t, i)[p].key)
  {
    var l := LeftOf(t, i);
    SeparatedAscending(Flat(t));
    ChildBounds(t, i);
    LeftEnd(t, i);
    FlatAt(t, i);
    assert l[p] == Flat(t)[p] && l[|l| - 1] == Flat(t)[|l| - 1];
    if p < |l| - 1 {
      assert l[p].key.high < l[|l| - 1].key.low;
    }
  }

  lemma {:induction false} MissRight(t: BT, i: nat, probe: Probe, p: nat)
    requires |t.kids| == |t.items| + 1 && Leads(t, i, probe) && Separated(Flat(t))
    requires p < |RightOf(t, i)|
    ensures !probe.Hits(RightOf(t, i)[p].key)
  {
    SeparatedAscending(Flat(t));
    ChildBounds(t, i);
  }

  // A stretch of the in-order sequence that no probe hits outside of.
  lemma {:induction false} KidInOrder(t: BT, i: nat, p: nat)
    requires |t.kids| == |t.items| + 1 && i <= |t.items| && p < |Flat(t.kids[i])|
    ensures |LeftOf(t, i)| + p < |Flat(t)| == |FlatPos(t)|
    ensures Flat(t)[|LeftOf(t, i)| + p] == Flat(t.kids[i])[p]
    ensures p < |FlatPos(t.kids[i])| && FlatPos(t)[|LeftOf(t, i)| + p] == FlatPos(t.kids[i])[p]
  {
    hide FlatPos, Flat, LeftOf, RightOf;
    PosAt(t, i);
    FlatAt(t, i);
    assert FlatPos(t)[|LeftOf(t, i)|..|LeftOf(t, i)| + |Flat(t.kids[i])|][p] == FlatPos(t)[|LeftOf(t, i)| + p];
  }

  lemma {:induction false} KidSeparated(t: BT, i: nat)
    requires |t.kids| == |t.items| + 1 && i <= |t.items| && Separated(Flat(t))
    ensures Separated(Flat(t.kids[i]))
  {
    hide Flat, LeftOf, RightOf;
    FlatAt(t, i);
    var l, f := LeftOf(t, i), Flat(t.kids[i]);
    assert forall j :: 0 <= j < |f| ==> f[j] == Flat(t)[|l| + j];
  }

  lemma {:induction false} MissAround(t: BT, i: nat, probe: Probe)
    requires |t.kids| == |t.items| + 1 && Leads(t, i, probe) && Separated(Flat(t))
    requires forall p :: 0 <= p < |Flat(t.kids[i])| ==> !probe.Hits(Flat(t.kids[i])[p].key)
    ensures forall p :: 0 <= p < |Flat(t)| ==> !probe.Hits(Flat(t)[p].key)
  {
    hide Flat, LeftOf, RightOf, Probe.Hits;
    FlatAt(t, i);
    var l, f := LeftOf(t, i), Flat(t.kids[i]);
    forall p | 0 <= p < |Flat(t)|
      ensures !probe.Hits(Flat(t)[p].key)
    {
      if p < |l| {
        MissLeft(t, i, probe, p);
      } else if p >= |l| + |f| {
        MissRight(t, i, probe, p - |l| - |f|);
      } else {
        assert Flat(t)[p] == f[p - |l|];
      }
    }
  }

  lemma {:induction false} LocateKid(t: BT, i: nat, probe: Probe)
    requires |t.kids| == |t.items| + 1 && Leads(t, i, probe) && Separated(Flat(t))
    ensures Separated(Flat(t.kids[i]))
    ensures Locate(t, probe) == Locate(t.kids[i], probe)
  {
    hide Flat, FlatPos, LeftOf, RightOf, Separated, Seek, Probe.Hits;
    KidSeparated(t, i);
    var f := Flat(t.kids[i]);
    var q := Seek(f, probe);
    if q < |f| {
      KidInOrder(t, i, q);
      SeekIs(Flat(t), probe, |LeftOf(t, i)| + q);
    } else {
      MissAround(t, i, probe);
    }
  }

  lemma LocateMiss(t: BT, i: nat, probe: Probe)
    requires t.kids == [] && Leads(t, i, probe) && Separated(t.items)
    ensures Locate(t, probe) == None
  {
    forall p | 0 <= p < |t.items|
      ensures !probe.Hits(t.items[p].key)
    {
      if p > i {
        assert t.items[i].key.high < t.items[p].key.low;
      }
    }
  }

  /** Descends from the root of an uncompressed level to the key that the probe hits. */
  method SearchInTree(pool: NodePool, root: Index, probe: Probe, ghost t: BT, ghost h: nat)
    returns (r: Option<Position>)
    requires Sub(pool.slots, t, None, h) && root == t.id && Separated(Flat(t))
    ensures r == Locate(t, probe)
  {
    hide Sub, Locate, Separated, Probe.Hits, Probe.Precedes;
    var n := root;
    ghost var cur := t;
    ghost var parent: Option<Index> := None;
    ghost var height := h;
    while true
      invariant Sub(pool.slots, cur, parent, height) && n == cur.id && Separated(Flat(cur))
      invariant Locate(t, probe) == Locate(cur, probe)
      decreases height
    {
      NodeShape(pool.slots, cur, parent, height);
      KidsHold(pool.slots, cur, parent, height);
      var i, inRange := SearchSeq(pool.slots[n].keys, pool.slots[n].keyCnt, probe);
      if inRange {
        LocateOwn(cur, i, probe);
        return Some((n, i));
      } else if pool.slots[n].isLeaf {
        LocateMiss(cur, i, probe);
        return None;
      } else {
        LocateKid(cur, i, probe);
        n := pool.slots[n].children[i].value;
        parent := Some(cur.id);
        cur := cur.kids[i];
        height := height - 1;
      }
    }
  }
}
