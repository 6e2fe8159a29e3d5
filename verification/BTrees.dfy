/**
 * The B-tree of one level, seen as a value.
 *
 * `BT` is the ghost picture of the nodes of one level: which slot holds which keys and
 * which children. `Sub` says that the memory holds exactly this picture, and is the
 * B-tree invariant below a root: occupancy, uniform leaf depth, parent pointers, no
 * node shared. The order of the keys is a property of the in-order sequence `Flat`.
 */
module BTrees {
  import opened Nodes
  import opened Interleave

  datatype BT = BT(id: Index, items: seq<KeyInfo>, kids: seq<BT>)

  ghost function Ids(t: BT): set<Index>
    decreases t, 1
  {
    {t.id} + KidIds(t.kids)
  }

  ghost function KidIds(kids: seq<BT>): set<Index>
    decreases kids, 0
  {
    set i, x | 0 <= i < |kids| && x in Ids(kids[i]) :: x
  }

  // The in-order sequence of the keys.
  ghost function Flat(t: BT): seq<KeyInfo>
    decreases t, 1
  {
    if |t.kids| != |t.items| + 1 then t.items else Zip(t.items, Parts(t.kids))
  }

  ghost function Parts(kids: seq<BT>): (r: seq<seq<KeyInfo>>)
    ensures |r| == |kids|
    ensures forall i :: 0 <= i < |kids| ==> r[i] == Flat(kids[i])
    decreases kids, 0
  {
    seq(|kids|, i requires 0 <= i < |kids| => Flat(kids[i]))
  }

  ghost function LeftOf(t: BT, i: nat): seq<KeyInfo>
    requires |t.kids| == |t.items| + 1 && i <= |t.items|
  {
    Before(t.items[..i], Parts(t.kids)[..i])
  }

  ghost function RightOf(t: BT, i: nat): seq<KeyInfo>
    requires |t.kids| == |t.items| + 1 && i <= |t.items|
  {
    After(t.items[i..], Parts(t.kids)[i + 1..])
  }

  // ---------- the node invariant ----------

  ghost predicate Holds(n: Node, t: BT, parent: Option<Index>) {
    && n.parent == parent
    && !n.isCompressed
    && Keys(n) == t.items
    && (n.isLeaf <==> t.kids == [])
    && (n.isLeaf ==> forall i :: 0 <= i <= MAX_DEGREE ==> n.children[i] == None)
    && |t.kids| <= MAX_DEGREE + 1
    && (forall i :: 0 <= i < |t.kids| ==> n.children[i] == Some(t.kids[i].id))
  }

  ghost predicate Apart(kids: seq<BT>) {
    forall i, j :: 0 <= i < j < |kids| ==> Ids(kids[i]) !! Ids(kids[j])
  }

  ghost predicate Sub(m: Memory, t: BT, parent: Option<Index>, h: nat)
    decreases t, 1
  {
    && t.id in m
    && Holds(m[t.id], t, parent)
    && (if h == 0 then t.kids == [] else |t.kids| == |t.items| + 1)
    && t.id !in KidIds(t.kids)
    && Apart(t.kids)
    && Subs(m, t.kids, t.id, h)
  }

  ghost predicate Subs(m: Memory, kids: seq<BT>, parent: Index, h: nat)
    decreases kids, 0
  {
    forall i :: 0 <= i < |kids| ==>
      && h > 0
      && |kids[i].items| >= MIN_DEGREE
      && Sub(m, kids[i], Some(parent), h - 1)
  }

  // ---------- framing ----------

  ghost predicate Same(m0: Memory, m1: Memory, s: set<Index>) {
    forall x :: x in s ==> x in m0 && x in m1 && m1[x] == m0[x]
  }

  // The step from m0 to m1 turned the slots `a` into the slots `b`; all others are
  // allocated exactly as before and hold what they held.
  ghost predicate Framed(m0: Memory, m1: Memory, a: set<Index>, b: set<Index>) {
    && a <= m0.Keys && b <= m1.Keys
    && (forall x :: x in m0 && x !in a ==> x in m1 && x !in b && m1[x] == m0[x])
    && (forall x :: x in m1 && x !in b ==> x in m0 && x !in a)
  }

  lemma FramedTrans(m0: Memory, m1: Memory, m2: Memory, a: set<Index>, b: set<Index>, c: set<Index>)
    requires Framed(m0, m1, a, b) && Framed(m1, m2, b, c)
    ensures Framed(m0, m2, a, c)
  {
  }

  lemma FramedWiden(m0: Memory, m1: Memory, a: set<Index>, b: set<Index>, e: set<Index>)
    requires Framed(m0, m1, a, b) && e <= m0.Keys && e !! a
    ensures Framed(m0, m1, a + e, b + e) && e !! b && Same(m0, m1, e)
  {
  }

  lemma {:induction false} SubIds(m: Memory, t: BT, parent: Option<Index>, h: nat)
    requires Sub(m, t, parent, h)
    ensures Ids(t) <= m.Keys
    decreases h
  {
    forall i | 0 <= i < |t.kids|
      ensures Ids(t.kids[i]) <= m.Keys
    {
      SubIds(m, t.kids[i], Some(t.id), h - 1);
    }
  }

  lemma {:induction false} SubFrame(m0: Memory, m1: Memory, t: BT, parent: Option<Index>, h: nat)
    requires Sub(m0, t, parent, h) && Same(m0, m1, Ids(t))
    ensures Sub(m1, t, parent, h)
    decreases h
  {
    hide KidIds, Holds, Apart;
    forall i | 0 <= i < |t.kids|
      ensures Sub(m1, t.kids[i], Some(t.id), h - 1)
    {
      KidInside(t, i);
      SubFrame(m0, m1, t.kids[i], Some(t.id), h - 1);
    }
  }

  lemma {:induction false} SubsFrame(m0: Memory, m1: Memory, kids: seq<BT>, parent: Index, h: nat)
    requires Subs(m0, kids, parent, h) && Same(m0, m1, KidIds(kids))
    ensures Subs(m1, kids, parent, h)
  {
    SubsHeight(m0, kids, parent, h);
    forall i | 0 <= i < |kids|
      ensures Sub(m1, kids[i], Some(parent), h - 1)
    {
      KidAmong(kids, i);
      SubFrame(m0, m1, kids[i], Some(parent), h - 1);
    }
  }

  lemma {:induction false} SubsHeight(m: Memory, kids: seq<BT>, parent: Index, h: nat)
    requires Subs(m, kids, parent, h)
    ensures kids != [] ==> h > 0
  {
    if kids != [] {
      assert |kids[0].items| >= MIN_DEGREE;
    }
  }

  lemma {:induction false} KidAmong(kids: seq<BT>, i: nat)
    requires i < |kids|
    ensures Ids(kids[i]) <= KidIds(kids)
  {
  }

  lemma {:induction false} KidInside(t: BT, i: nat)
    requires i < |t.kids|
    ensures Ids(t.kids[i]) <= KidIds(t.kids) <= Ids(t)
    ensures t.kids[i].id in KidIds(t.kids)
  {
    assert t.kids[i].id in Ids(t.kids[i]);
  }

  // A subtree whose root got another parent pointer is otherwise the same subtree.
  lemma {:induction false} Reparent(m0: Memory, m1: Memory, t: BT, p0: Option<Index>, p1: Option<Index>, h: nat)
    requires Sub(m0, t, p0, h)
    requires Same(m0, m1, KidIds(t.kids))
    requires t.id in m1 && m1[t.id] == WithParent(m0[t.id], p1)
    ensures Sub(m1, t, p1, h)
  {
    SubsFrame(m0, m1, t.kids, t.id, h);
  }

  lemma {:induction false} KidIdsConcat(a: seq<BT>, b: seq<BT>)
    ensures KidIds(a + b) == KidIds(a) + KidIds(b)
  {
    var c := a + b;
    forall x | x in KidIds(a) + KidIds(b)
      ensures x in KidIds(c)
    {
      if x in KidIds(a) {
        var i :| 0 <= i < |a| && x in Ids(a[i]);
        assert c[i] == a[i];
      } else {
        var i :| 0 <= i < |b| && x in Ids(b[i]);
        assert c[|a| + i] == b[i];
      }
    }
    forall x | x in KidIds(c)
      ensures x in KidIds(a) + KidIds(b)
    {
      var i :| 0 <= i < |c| && x in Ids(c[i]);
      if i < |a| {
        assert c[i] == a[i];
      } else {
        assert c[i] == b[i - |a|];
      }
    }
  }

  lemma {:induction false} ApartConcat(a: seq<BT>, b: seq<BT>)
    ensures Apart(a + b) <==> Apart(a) && Apart(b) && KidIds(a) !! KidIds(b)
  {
    var c := a + b;
    if Apart(c) {
      forall i, j | 0 <= i < j < |a|
        ensures Ids(a[i]) !! Ids(a[j])
      {
        assert c[i] == a[i] && c[j] == a[j];
      }
      forall i, j | 0 <= i < j < |b|
        ensures Ids(b[i]) !! Ids(b[j])
      {
        assert c[|a| + i] == b[i] && c[|a| + j] == b[j];
      }
      forall i, j | 0 <= i < |a| && 0 <= j < |b|
        ensures Ids(a[i]) !! Ids(b[j])
      {
        assert c[i] == a[i] && c[|a| + j] == b[j];
      }
    }
    if Apart(a) && Apart(b) && KidIds(a) !! KidIds(b) {
      forall i, j | 0 <= i < j < |c|
        ensures Ids(c[i]) !! Ids(c[j])
      {
        if j < |a| {
          assert c[i] == a[i] && c[j] == a[j];
        } else if i < |a| {
          assert c[i] == a[i] && c[j] == b[j - |a|];
          assert Ids(a[i]) <= KidIds(a) && Ids(b[j - |a|]) <= KidIds(b);
        } else {
          assert c[i] == b[i - |a|] && c[j] == b[j - |a|];
        }
      }
    }
  }

  lemma {:induction false} SubsConcat(m: Memory, a: seq<BT>, b: seq<BT>, parent: Index, h: nat)
    ensures Subs(m, a + b, parent, h) <==> Subs(m, a, parent, h) && Subs(m, b, parent, h)
  {
    hide Sub;
    var c := a + b;
    if Subs(m, c, parent, h) {
      SubsHeight(m, c, parent, h);
      assert forall i :: 0 <= i < |a| ==> a[i] == c[i];
      assert forall i :: 0 <= i < |b| ==> b[i] == c[|a| + i];
    }
    if Subs(m, a, parent, h) && Subs(m, b, parent, h) {
      SubsHeight(m, a, parent, h);
      SubsHeight(m, b, parent, h);
      forall i | 0 <= i < |c|
        ensures |c[i].items| >= MIN_DEGREE && Sub(m, c[i], Some(parent), h - 1)
      {
        assert c[i] == if i < |a| then a[i] else b[i - |a|];
      }
    }
  }

  lemma {:induction false} LeafSub(m: Memory, t: BT, parent: Option<Index>)
    requires t.kids == [] && t.id in m && Holds(m[t.id], t, parent)
    ensures Sub(m, t, parent, 0) && Ids(t) == {t.id} && Flat(t) == t.items
  {
    assert KidIds(t.kids) == {};
    assert Subs(m, t.kids, t.id, 0);
  }

  // ---------- replacing one child ----------

  lemma {:induction false} FlatAt(t: BT, i: nat)
    requires |t.kids| == |t.items| + 1 && i <= |t.items|
    ensures Flat(t) == LeftOf(t, i) + Flat(t.kids[i]) + RightOf(t, i)
  {
    ZipAt(t.items, Parts(t.kids), i);
  }

  lemma {:induction false} FlatAround(t: BT, i: nat)
    requires |t.kids| == |t.items| + 1 && i < |t.items|
    ensures Flat(t) == LeftOf(t, i) + Flat(t.kids[i]) + [t.items[i]] + Flat(t.kids[i + 1]) + RightOf(t, i + 1)
  {
    ZipAround(t.items, Parts(t.kids), i);
  }

  lemma {:induction false} FlatReplaceKid(t: BT, i: nat, k: BT)
    requires |t.kids| == |t.items| + 1 && i <= |t.items|
    ensures Flat(WithKid(t, i, k)) == LeftOf(t, i) + Flat(k) + RightOf(t, i)
  {
    var t' := WithKid(t, i, k);
    FlatAt(t', i);
    assert Parts(t'.kids)[..i] == Parts(t.kids)[..i];
    assert Parts(t'.kids)[i + 1..] == Parts(t.kids)[i + 1..];
  }

  ghost function WithKid(t: BT, i: nat, k: BT): BT
    requires i < |t.kids|
  {
    BT(t.id, t.items, t.kids[i := k])
  }

  // ---------- children as three consecutive groups ----------

  lemma {:induction false} OneKid(k: BT)
    ensures KidIds([k]) == Ids(k) && Apart([k])
  {
    assert forall x :: x in Ids(k) ==> x in Ids([k][0]);
  }

  lemma {:induction false} TwoKids(k: BT, l: BT)
    ensures KidIds([k, l]) == Ids(k) + Ids(l)
    ensures Apart([k, l]) <==> Ids(k) !! Ids(l)
  {
    assert [k, l] == [k] + [l];
    OneKid(k);
    OneKid(l);
    KidIdsConcat([k], [l]);
    ApartConcat([k], [l]);
  }

  lemma {:induction false} GroupIds(a: seq<BT>, mid: seq<BT>, b: seq<BT>)
    ensures KidIds(a + mid + b) == KidIds(a) + KidIds(mid) + KidIds(b)
  {
    KidIdsConcat(a + mid, b);
    KidIdsConcat(a, mid);
  }

  lemma {:induction false} GroupApart(a: seq<BT>, mid: seq<BT>, b: seq<BT>)
    ensures Apart(a + mid + b) <==>
            && Apart(a) && Apart(mid) && Apart(b)
            && KidIds(a) !! KidIds(mid) && KidIds(a) !! KidIds(b) && KidIds(mid) !! KidIds(b)
  {
    ApartConcat(a + mid, b);
    ApartConcat(a, mid);
    KidIdsConcat(a, mid);
  }

  lemma {:induction false} GroupSubs(m: Memory, a: seq<BT>, mid: seq<BT>, b: seq<BT>, parent: Index, h: nat)
    ensures Subs(m, a + mid + b, parent, h) <==>
              Subs(m, a, parent, h) && Subs(m, mid, parent, h) && Subs(m, b, parent, h)
  {
    SubsConcat(m, a + mid, b, parent, h);
    SubsConcat(m, a, mid, parent, h);
  }

  // A step that works on a node and on a middle group of its children only.
  ghost predicate Regrouped(m0: Memory, m1: Memory, t: BT, t': BT,
                            a: seq<BT>, mid: seq<BT>, mid': seq<BT>, b: seq<BT>, extra: set<Index>) {
    && t'.id == t.id && t.kids == a + mid + b && t'.kids == a + mid' + b
    && Framed(m0, m1, {t.id} + KidIds(mid), {t.id} + KidIds(mid') + extra)
    && t.id !in KidIds(mid') && t.id !in extra && extra !! KidIds(mid')
  }

  lemma {:induction false} RegroupFrame(m0: Memory, m1: Memory, t: BT, t': BT,
                     a: seq<BT>, mid: seq<BT>, mid': seq<BT>, b: seq<BT>, extra: set<Index>)
    requires Regrouped(m0, m1, t, t', a, mid, mid', b, extra)
    requires Ids(t) <= m0.Keys && t.id !in KidIds(t.kids) && Apart(t.kids)
    ensures Framed(m0, m1, Ids(t), Ids(t') + extra) && Ids(t') !! extra && t.id !in KidIds(t'.kids)
    ensures Same(m0, m1, KidIds(a)) && Same(m0, m1, KidIds(b))
    ensures KidIds(a) !! KidIds(mid') && KidIds(b) !! KidIds(mid')
    ensures Ids(t') == {t.id} + KidIds(a) + KidIds(mid') + KidIds(b)
  {
    GroupIds(a, mid, b);
    GroupIds(a, mid', b);
    GroupApart(a, mid, b);
    var e := KidIds(a) + KidIds(b);
    FramedWiden(m0, m1, {t.id} + KidIds(mid), {t.id} + KidIds(mid') + extra, e);
    assert {t.id} + KidIds(mid) + e == Ids(t);
    assert {t.id} + KidIds(mid') + extra + e == Ids(t') + extra;
  }

  lemma {:induction false} RegroupSub(m0: Memory, m1: Memory, t: BT, t': BT, parent: Option<Index>, h: nat,
                   a: seq<BT>, mid: seq<BT>, mid': seq<BT>, b: seq<BT>)
    requires Sub(m0, t, parent, h) && h > 0
    requires t'.id == t.id && t.kids == a + mid + b && t'.kids == a + mid' + b
    requires Same(m0, m1, KidIds(a)) && Same(m0, m1, KidIds(b))
    requires KidIds(a) !! KidIds(mid') && KidIds(b) !! KidIds(mid') && t.id !in KidIds(t'.kids)
    requires t.id in m1 && Holds(m1[t.id], t', parent) && |t'.kids| == |t'.items| + 1
    requires Subs(m1, mid', t.id, h) && Apart(mid')
    ensures Sub(m1, t', parent, h)
  {
    GroupApart(a, mid, b);
    GroupApart(a, mid', b);
    GroupSubs(m0, a, mid, b, t.id, h);
    SubsFrame(m0, m1, a, t.id, h);
    SubsFrame(m0, m1, b, t.id, h);
    GroupSubs(m1, a, mid', b, t.id, h);
  }

  lemma {:induction false} Regroup(m0: Memory, m1: Memory, t: BT, t': BT, parent: Option<Index>, h: nat,
                a: seq<BT>, mid: seq<BT>, mid': seq<BT>, b: seq<BT>, extra: set<Index>)
    requires Sub(m0, t, parent, h) && h > 0
    requires Regrouped(m0, m1, t, t', a, mid, mid', b, extra)
    requires t.id in m1 && Holds(m1[t.id], t', parent) && |t'.kids| == |t'.items| + 1
    requires Subs(m1, mid', t.id, h) && Apart(mid')
    ensures Sub(m1, t', parent, h)
    ensures Framed(m0, m1, Ids(t), Ids(t') + extra) && Ids(t') !! extra
  {
    SubIds(m0, t, parent, h);
    RegroupFrame(m0, m1, t, t', a, mid, mid', b, extra);
    RegroupSub(m0, m1, t, t', parent, h, a, mid, mid', b);
  }

  // Putting a changed child back in the place of the child it came from.
  lemma ReplaceKid(m0: Memory, m1: Memory, t: BT, parent: Option<Index>, h: nat, i: nat, k: BT, extra: set<Index>)
    requires Sub(m0, t, parent, h) && i < |t.kids|
    requires h > 0 && Sub(m1, k, Some(t.id), h - 1) && |k.items| >= MIN_DEGREE && k.id == t.kids[i].id
    requires Framed(m0, m1, Ids(t.kids[i]), Ids(k) + extra) && Ids(k) !! extra
    ensures Sub(m1, WithKid(t, i, k), parent, h)
    ensures Framed(m0, m1, Ids(t), Ids(WithKid(t, i, k)) + extra)
    ensures Ids(WithKid(t, i, k)) !! extra
  {
    var a, b := t.kids[..i], t.kids[i + 1..];
    assert t.kids == a + [t.kids[i]] + b && t.kids[i := k] == a + [k] + b;
    OneKid(t.kids[i]);
    OneKid(k);
    assert t.id !in Ids(t.kids[i]) by {
      KidInside(t, i);
    }
    FramedWiden(m0, m1, Ids(t.kids[i]), Ids(k) + extra, {t.id});
    assert Ids(k) + extra + {t.id} == {t.id} + KidIds([k]) + extra;
    assert Holds(m1[t.id], WithKid(t, i, k), parent);
    Regroup(m0, m1, t, WithKid(t, i, k), parent, h, a, [t.kids[i]], [k], b, extra);
  }

  // ---------- what a node of a tree holds ----------

  // What a loop over the nodes sees in one of them.
  lemma {:induction false} NodeShape(m: Memory, t: BT, parent: Option<Index>, h: nat)
    requires Sub(m, t, parent, h)
    ensures t.id in m && m[t.id].keyCnt == |t.items| && (m[t.id].isLeaf <==> h == 0) && !m[t.id].isCompressed
    ensures forall j :: 0 <= j < |t.items| ==> m[t.id].keys[j] == t.items[j]
    ensures if h == 0 then t.kids == [] else |t.kids| == |t.items| + 1
    ensures h == 0 ==> Flat(t) == t.items
  {
    assert forall j :: 0 <= j < |t.items| ==> m[t.id].keys[j] == Keys(m[t.id])[j];
  }

  lemma {:induction false} KidsHold(m: Memory, t: BT, parent: Option<Index>, h: nat)
    requires Sub(m, t, parent, h)
    ensures t.id in m
    ensures h == 0 ==> forall i :: 0 <= i <= MAX_DEGREE ==> m[t.id].children[i] == None
    ensures forall i :: 0 <= i < |t.kids| ==>
              h > 0 && m[t.id].children[i] == Some(t.kids[i].id) && Sub(m, t.kids[i], Some(t.id), h - 1)
  {
  }
}
