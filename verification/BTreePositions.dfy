/** Where the keys of one level are stored: the in-order sequence of (node, index) pairs. */
module BTreePositions {
  import opened Nodes
  import opened Interleave
  import opened BTrees

  type Position = (Index, nat)

  ghost function OwnPos(t: BT): (r: seq<Position>)
    ensures |r| == |t.items|
  {
    seq(|t.items|, i => (t.id, i))
  }

  // In step with Flat.
  ghost function FlatPos(t: BT): seq<Position>
    decreases t, 1
  {
    if |t.kids| != |t.items| + 1 then OwnPos(t) else Zip(OwnPos(t), PosParts(t.kids))
  }

  ghost function PosParts(kids: seq<BT>): (r: seq<seq<Position>>)
    ensures |r| == |kids|
    ensures forall i :: 0 <= i < |kids| ==> r[i] == FlatPos(kids[i])
    decreases kids, 0
  {
    seq(|kids|, i requires 0 <= i < |kids| => FlatPos(kids[i]))
  }

  // ---------- sequences that run in step ----------

  ghost predicate SameLengths<A, B>(a: seq<seq<A>>, b: seq<seq<B>>) {
    |a| == |b| && forall i :: 0 <= i < |a| ==> |a[i]| == |b[i]|
  }

  lemma {:induction false} ZipLength<A, B>(own: seq<A>, parts: seq<seq<A>>, own': seq<B>, parts': seq<seq<B>>)
    requires |own| == |own'| && |parts| == |own| + 1 && SameLengths(parts, parts')
    ensures |Zip(own, parts)| == |Zip(own', parts')|
  {
    if own != [] {
      ZipLength(own[1..], parts[1..], own'[1..], parts'[1..]);
    }
  }

  lemma {:induction false} BeforeLength<A, B>(own: seq<A>, parts: seq<seq<A>>, own': seq<B>, parts': seq<seq<B>>)
    requires |own| == |own'| && |parts| == |own| && SameLengths(parts, parts')
    ensures |Before(own, parts)| == |Before(own', parts')|
  {
    if own != [] {
      BeforeLength(own[1..], parts[1..], own'[1..], parts'[1..]);
    }
  }

  lemma {:induction false} PosLength(t: BT)
    ensures |FlatPos(t)| == |Flat(t)|
    decreases t
  {
    if |t.kids| == |t.items| + 1 {
      forall i | 0 <= i < |t.kids|
        ensures |Parts(t.kids)[i]| == |PosParts(t.kids)[i]|
      {
        PosLength(t.kids[i]);
      }
      ZipLength(t.items, Parts(t.kids), OwnPos(t), PosParts(t.kids));
    }
  }

  // The keys of child i occupy the same stretch in both sequences.
  lemma {:induction false} PosAt(t: BT, i: nat)
    requires |t.kids| == |t.items| + 1 && i <= |t.items|
    ensures |LeftOf(t, i)| + |Flat(t.kids[i])| <= |Flat(t)| == |FlatPos(t)|
    ensures |FlatPos(t.kids[i])| == |Flat(t.kids[i])|
    ensures FlatPos(t)[|LeftOf(t, i)|..|LeftOf(t, i)| + |Flat(t.kids[i])|] == FlatPos(t.kids[i])
  {
    FlatAt(t, i);
    PosLength(t);
    PosLength(t.kids[i]);
    ZipAt(OwnPos(t), PosParts(t.kids), i);
    forall j | 0 <= j < i
      ensures |Parts(t.kids)[..i][j]| == |PosParts(t.kids)[..i][j]|
    {
      PosLength(t.kids[j]);
    }
    BeforeLength(t.items[..i], Parts(t.kids)[..i], OwnPos(t)[..i], PosParts(t.kids)[..i]);
  }

  // So does key i of the node itself.
  lemma {:induction false} PosOwn(t: BT, i: nat)
    requires |t.kids| == |t.items| + 1 && i < |t.items|
    ensures |LeftOf(t, i)| + |Flat(t.kids[i])| < |Flat(t)| == |FlatPos(t)|
    ensures FlatPos(t)[|LeftOf(t, i)| + |Flat(t.kids[i])|] == (t.id, i)
    ensures Flat(t)[|LeftOf(t, i)| + |Flat(t.kids[i])|] == t.items[i]
  {
    FlatAround(t, i);
    PosLength(t);
    PosLength(t.kids[i]);
    ZipAround(OwnPos(t), PosParts(t.kids), i);
    forall j | 0 <= j < i
      ensures |Parts(t.kids)[..i][j]| == |PosParts(t.kids)[..i][j]|
    {
      PosLength(t.kids[j]);
    }
    BeforeLength(t.items[..i], Parts(t.kids)[..i], OwnPos(t)[..i], PosParts(t.kids)[..i]);
  }

  // ---------- no position occurs twice ----------

  lemma {:induction false} ZipMembers<A>(own: seq<A>, parts: seq<seq<A>>, x: A)
    requires |parts| == |own| + 1 && x in Zip(own, parts)
    ensures x in own || exists i :: 0 <= i < |parts| && x in parts[i]
  {
    if own != [] && x !in parts[0] && x != own[0] {
      ZipMembers(own[1..], parts[1..], x);
      if x !in own[1..] {
        var i :| 0 <= i < |parts[1..]| && x in parts[1..][i];
        assert x in parts[i + 1];
      }
    }
  }

  lemma {:induction false} PosInside(t: BT, x: Position)
    requires x in FlatPos(t)
    ensures x.0 in Ids(t)
    decreases t
  {
    if |t.kids| == |t.items| + 1 {
      ZipMembers(OwnPos(t), PosParts(t.kids), x);
      if x !in OwnPos(t) {
        var i :| 0 <= i < |t.kids| && x in PosParts(t.kids)[i];
        PosInside(t.kids[i], x);
      }
    }
  }

  ghost predicate NoneIn<A>(a: seq<A>, b: seq<A>) {
    forall x :: x in a ==> x !in b
  }

  lemma {:induction false} ZipDistinct<A>(own: seq<A>, parts: seq<seq<A>>)
    requires |parts| == |own| + 1 && Distinct(own)
    requires forall i :: 0 <= i < |parts| ==> Distinct(parts[i])
    requires forall i :: 0 <= i < |parts| ==> NoneIn(parts[i], own)
    requires forall i, j :: 0 <= i < j < |parts| ==> NoneIn(parts[i], parts[j])
    ensures Distinct(Zip(own, parts))
  {
    if own != [] {
      var own', parts' := own[1..], parts[1..];
      var rest := Zip(own', parts');
      forall i | 0 <= i < |parts'|
        ensures Distinct(parts'[i]) && NoneIn(parts'[i], own') && NoneIn(parts[0], parts'[i])
      {
        assert parts'[i] == parts[i + 1];
        assert NoneIn(parts[i + 1], own);
      }
      forall i, j | 0 <= i < j < |parts'|
        ensures NoneIn(parts'[i], parts'[j])
      {
        assert parts'[i] == parts[i + 1] && parts'[j] == parts[j + 1];
      }
      ZipDistinct(own', parts');
      assert NoneIn(parts[0], own);
      forall x | x in rest
        ensures x !in parts[0] && x != own[0]
      {
        ZipMembers(own', parts', x);
        if x !in own' {
          var i :| 0 <= i < |parts'| && x in parts'[i];
          assert NoneIn(parts[0], parts'[i]) && NoneIn(parts[i + 1], own);
        }
      }
      DistinctConcat([own[0]], rest);
      DistinctConcat(parts[0], [own[0]] + rest);
      assert Zip(own, parts) == parts[0] + ([own[0]] + rest);
    }
  }

  lemma DistinctConcat<A>(a: seq<A>, b: seq<A>)
    requires Distinct(a) && Distinct(b) && NoneIn(a, b)
    ensures Distinct(a + b)
  {
    var c := a + b;
    forall i, j | 0 <= i < j < |c|
      ensures c[i] != c[j]
    {
      if i < |a| <= j {
        assert c[i] in a && c[j] in b;
      }
    }
  }

  lemma {:induction false} PosDistinct(m: Memory, t: BT, parent: Option<Index>, h: nat)
    requires Sub(m, t, parent, h)
    ensures Distinct(FlatPos(t))
    decreases h
  {
    if h > 0 {
      var parts := PosParts(t.kids);
      forall i | 0 <= i < |parts|
        ensures Distinct(parts[i]) && NoneIn(parts[i], OwnPos(t))
      {
        PosDistinct(m, t.kids[i], Some(t.id), h - 1);
        KidInside(t, i);
        forall x | x in parts[i]
          ensures x !in OwnPos(t)
        {
          PosInside(t.kids[i], x);
        }
      }
      forall i, j | 0 <= i < j < |parts|
        ensures NoneIn(parts[i], parts[j])
      {
        PosApart(t.kids, i, j);
      }
      ZipDistinct(OwnPos(t), parts);
    }
  }

  lemma PosApart(kids: seq<BT>, i: nat, j: nat)
    requires Apart(kids) && i < j < |kids|
    ensures NoneIn(FlatPos(kids[i]), FlatPos(kids[j]))
  {
    forall x | x in FlatPos(kids[i])
      ensures x !in FlatPos(kids[j])
    {
      PosInside(kids[i], x);
      if x in FlatPos(kids[j]) {
        PosInside(kids[j], x);
        assert false;
      }
    }
  }

  // ---------- rewriting one item in place ----------

  ghost function SetAt(t: BT, n: Index, i: nat, x: KeyInfo): BT
    decreases t, 1
  {
    if t.id == n && i < |t.items| then BT(t.id, t.items[i := x], t.kids)
    else BT(t.id, t.items, SetAtKids(t.kids, n, i, x))
  }

  ghost function SetAtKids(kids: seq<BT>, n: Index, i: nat, x: KeyInfo): (r: seq<BT>)
    ensures |r| == |kids|
    ensures forall j :: 0 <= j < |kids| ==> r[j] == SetAt(kids[j], n, i, x)
    decreases kids, 0
  {
    seq(|kids|, j requires 0 <= j < |kids| => SetAt(kids[j], n, i, x))
  }

  // Memory after key i of node n was overwritten.
  ghost predicate Rewritten(m0: Memory, m1: Memory, n: Index, i: nat, x: KeyInfo) {
    && n in m0 && i < m0[n].keyCnt
    && m1.Keys == m0.Keys
    && m1[n] == WithKey(m0[n], i, x)
    && (forall y :: y in m0 && y != n ==> m1[y] == m0[y])
  }

  lemma {:induction false} SetAtIds(t: BT, n: Index, i: nat, x: KeyInfo)
    ensures Ids(SetAt(t, n, i, x)) == Ids(t)
    ensures SetAt(t, n, i, x).id == t.id && |SetAt(t, n, i, x).items| == |t.items|
    ensures |SetAt(t, n, i, x).kids| == |t.kids|
    decreases t
  {
    SetAtKidIds(t.kids, n, i, x);
  }

  lemma {:induction false} SetAtKidIds(kids: seq<BT>, n: Index, i: nat, x: KeyInfo)
    ensures KidIds(SetAtKids(kids, n, i, x)) == KidIds(kids)
    ensures forall j :: 0 <= j < |kids| ==> Ids(SetAtKids(kids, n, i, x)[j]) == Ids(kids[j])
    decreases kids
  {
    forall j | 0 <= j < |kids|
      ensures Ids(SetAt(kids[j], n, i, x)) == Ids(kids[j])
    {
      SetAtIds(kids[j], n, i, x);
    }
  }

  lemma {:induction false} SetAtSub(m0: Memory, m1: Memory, t: BT, parent: Option<Index>, h: nat, n: Index, i: nat,
                                    x: KeyInfo)
    requires Sub(m0, t, parent, h) && Rewritten(m0, m1, n, i, x)
    ensures Sub(m1, SetAt(t, n, i, x), parent, h)
    decreases h
  {
    if t.id == n {
      SubIds(m0, t, parent, h);
      SubsFrame(m0, m1, t.kids, t.id, h);
      assert m0[n].keys[i := x][..m0[n].keyCnt] == t.items[i := x];
    } else {
      var kids := SetAtKids(t.kids, n, i, x);
      SetAtKidIds(t.kids, n, i, x);
      forall j | 0 <= j < |kids|
        ensures h > 0 && |kids[j].items| >= MIN_DEGREE && kids[j].id == t.kids[j].id
      {
        assert |t.kids[j].items| >= MIN_DEGREE;
        SetAtIds(t.kids[j], n, i, x);
      }
      forall j | 0 <= j < |kids|
        ensures Sub(m1, kids[j], Some(t.id), h - 1)
      {
        SetAtSub(m0, m1, t.kids[j], Some(t.id), h - 1, n, i, x);
      }
    }
  }

  // b is a with x written wherever the position is (n, i).
  ghost predicate WrittenAt(a: seq<KeyInfo>, pos: seq<Position>, b: seq<KeyInfo>, n: Index, i: nat, x: KeyInfo) {
    && |a| == |pos| == |b|
    && forall p :: 0 <= p < |a| ==> b[p] == if pos[p] == (n, i) then x else a[p]
  }

  lemma {:induction false} ZipWrittenAt(own: seq<KeyInfo>, parts: seq<seq<KeyInfo>>, ownPos: seq<Position>,
                                        posParts: seq<seq<Position>>,
                     own': seq<KeyInfo>, parts': seq<seq<KeyInfo>>, n: Index, i: nat, x: KeyInfo)
    requires |parts| == |posParts| == |parts'| == |own| + 1
    requires WrittenAt(own, ownPos, own', n, i, x)
    requires forall j :: 0 <= j < |parts| ==> WrittenAt(parts[j], posParts[j], parts'[j], n, i, x)
    ensures WrittenAt(Zip(own, parts), Zip(ownPos, posParts), Zip(own', parts'), n, i, x)
  {
    assert WrittenAt(parts[0], posParts[0], parts'[0], n, i, x);
    if own != [] {
      ZipWrittenAt(own[1..], parts[1..], ownPos[1..], posParts[1..], own'[1..], parts'[1..], n, i, x);
      WrittenConcat([own[0]], [ownPos[0]], [own'[0]],
                    Zip(own[1..], parts[1..]), Zip(ownPos[1..], posParts[1..]), Zip(own'[1..], parts'[1..]), n, i, x);
      WrittenConcat(parts[0], posParts[0], parts'[0],
                    [own[0]] + Zip(own[1..], parts[1..]), [ownPos[0]] + Zip(ownPos[1..], posParts[1..]),
                    [own'[0]] + Zip(own'[1..], parts'[1..]), n, i, x);
      assert Zip(own, parts) == parts[0] + ([own[0]] + Zip(own[1..], parts[1..]));
      assert Zip(ownPos, posParts) == posParts[0] + ([ownPos[0]] + Zip(ownPos[1..], posParts[1..]));
      assert Zip(own', parts') == parts'[0] + ([own'[0]] + Zip(own'[1..], parts'[1..]));
    }
  }

  lemma WrittenConcat(a: seq<KeyInfo>, p: seq<Position>, b: seq<KeyInfo>,
                      a': seq<KeyInfo>, p': seq<Position>, b': seq<KeyInfo>, n: Index, i: nat, x: KeyInfo)
    requires WrittenAt(a, p, b, n, i, x) && WrittenAt(a', p', b', n, i, x)
    ensures WrittenAt(a + a', p + p', b + b', n, i, x)
  {
  }

  lemma {:induction false} SetAtWritten(m: Memory, t: BT, parent: Option<Index>, h: nat, n: Index, i: nat, x: KeyInfo)
    requires Sub(m, t, parent, h)
    ensures WrittenAt(Flat(t), FlatPos(t), Flat(SetAt(t, n, i, x)), n, i, x)
    decreases h
  {
    var t' := SetAt(t, n, i, x);
    if h > 0 {
      forall j | 0 <= j < |t.kids|
        ensures WrittenAt(Parts(t.kids)[j], PosParts(t.kids)[j], Parts(t'.kids)[j], n, i, x)
      {
        if t.id == n && i < |t.items| {
          NotAround(m, t, parent, h, j, i);
        } else {
          SetAtWritten(m, t.kids[j], Some(t.id), h - 1, n, i, x);
        }
      }
      ZipWrittenAt(t.items, Parts(t.kids), OwnPos(t), PosParts(t.kids), t'.items, Parts(t'.kids), n, i, x);
    }
  }

  // A position of the node itself is not one of its children's positions.
  lemma {:induction false} NotAround(m: Memory, t: BT, parent: Option<Index>, h: nat, j: nat, i: nat)
    requires Sub(m, t, parent, h) && j < |t.kids|
    ensures |Flat(t.kids[j])| == |FlatPos(t.kids[j])|
    ensures forall p :: 0 <= p < |FlatPos(t.kids[j])| ==> FlatPos(t.kids[j])[p] != (t.id, i)
  {
    PosLength(t.kids[j]);
    KidInside(t, j);
    forall p | 0 <= p < |FlatPos(t.kids[j])|
      ensures FlatPos(t.kids[j])[p] != (t.id, i)
    {
      PosInside(t.kids[j], FlatPos(t.kids[j])[p]);
    }
  }

  // Overwriting the key at in-order place p changes that place and no other.
  lemma {:induction false} RewriteKey(m0: Memory, m1: Memory, t: BT, parent: Option<Index>, h: nat, p: nat, x: KeyInfo)
    requires Sub(m0, t, parent, h) && p < |FlatPos(t)| == |Flat(t)|
    requires Rewritten(m0, m1, FlatPos(t)[p].0, FlatPos(t)[p].1, x)
    ensures var t' := SetAt(t, FlatPos(t)[p].0, FlatPos(t)[p].1, x);
            && Sub(m1, t', parent, h) && Ids(t') == Ids(t) && t'.id == t.id && |t'.items| == |t.items|
            && Flat(t') == Flat(t)[p := x]
            && Framed(m0, m1, Ids(t), Ids(t'))
  {
    var (n, i) := FlatPos(t)[p];
    SetAtIds(t, n, i, x);
    SetAtSub(m0, m1, t, parent, h, n, i, x);
    SetAtWritten(m0, t, parent, h, n, i, x);
    PosDistinct(m0, t, parent, h);
    PosInside(t, FlatPos(t)[p]);
    SubIds(m0, t, parent, h);
    assert forall q :: 0 <= q < |Flat(t)| ==> (FlatPos(t)[q] == (n, i) <==> q == p);
  }

  // What the memory holds at the position with in-order place p.
  lemma {:induction false} KeyAt(m: Memory, t: BT, parent: Option<Index>, h: nat, p: nat)
    requires Sub(m, t, parent, h) && p < |Flat(t)|
    ensures |FlatPos(t)| == |Flat(t)|
    ensures var (n, i) := FlatPos(t)[p]; n in m && i < m[n].keyCnt && m[n].keys[i] == Flat(t)[p]
    decreases h
  {
    PosLength(t);
    if h == 0 {
      assert Keys(m[t.id])[p] == t.items[p];
    } else {
      forall j | 0 <= j < |t.kids|
        ensures HeldAt(m, PosParts(t.kids)[j], Parts(t.kids)[j])
      {
        PosLength(t.kids[j]);
        forall q | 0 <= q < |Flat(t.kids[j])|
          ensures var (n, i) := FlatPos(t.kids[j])[q]; n in m && i < m[n].keyCnt && m[n].keys[i] == Flat(t.kids[j])[q]
        {
          KeyAt(m, t.kids[j], Some(t.id), h - 1, q);
        }
      }
      assert forall q :: 0 <= q < |t.items| ==> t.items[q] == Keys(m[t.id])[q];
      ZipHeldAt(m, OwnPos(t), PosParts(t.kids), t.items, Parts(t.kids));
    }
  }

  ghost predicate HeldAt(m: Memory, pos: seq<Position>, s: seq<KeyInfo>) {
    && |pos| == |s|
    && forall q :: 0 <= q < |s| ==> pos[q].0 in m && pos[q].1 < m[pos[q].0].keyCnt && m[pos[q].0].keys[pos[q].1] == s[q]
  }

  lemma {:induction false} ZipHeldAt(m: Memory, ownPos: seq<Position>, posParts: seq<seq<Position>>, own: seq<KeyInfo>,
                                     parts: seq<seq<KeyInfo>>)
    requires |parts| == |posParts| == |own| + 1 && HeldAt(m, ownPos, own)
    requires forall j :: 0 <= j < |parts| ==> HeldAt(m, posParts[j], parts[j])
    ensures HeldAt(m, Zip(ownPos, posParts), Zip(own, parts))
  {
    assert HeldAt(m, posParts[0], parts[0]);
    if own != [] {
      ZipHeldAt(m, ownPos[1..], posParts[1..], own[1..], parts[1..]);
    }
  }
}
