/** What the collision check as the program has it lets into a tree. */
module WrittenCheck {
  import opened Ranges
  import opened Items
  import opened Nodes
  import opened Tries
  import opened Layers
  import opened RuleSpecs
  import opened RuleTrees
  import opened CollisionWalk
  import opened TreeAnswers

  /** An insertion keeps the levels of a tree disjoint exactly if the path fits. */
  lemma {:induction false} InsertKeepsWFExactly(t: Trie, d: nat, path: Path, v: Value)
    requires WF(t, d) && path != [] && ValidPath(path) && |path| <= d
    ensures WF(Insert(t, path, v), d) <==> Fits(t, path)
    decreases |path|
  {
    if Fits(t, path) {
      InsertWF(t, path, v, d);
    } else {
      var p := Find(t.entries, path[0]);
      if p < |t.entries| {
        var e := t.entries[p];
        assert forall i :: 0 <= i < |path| - 1 ==> path[1..][i] == path[i + 1];
        assert !Fits(e.next, path[1..]) && path[1..] != [];
        InsertKeepsWFExactly(e.next, d - 1, path[1..], v);
        assert Insert(t, path, v).entries[p].next == Insert(e.next, path[1..], v);
      } else {
        NotSeparated(t.entries, Chain(path, v).entries[0]);
      }
    }
  }

  lemma {:induction false} NotSeparated<N>(s: seq<Item<N>>, x: Item<N>)
    requires x.key.Valid() && Separated(s) && !DisjointFromAll(x.key, s)
    ensures !Separated(Put(s, x))
  {
    var p, r := Place(s, x.key.low), Put(s, x);
    var i :| 0 <= i < |s| && !x.key.DisjointFrom(s[i].key);
    var j := if i < p then i else i + 1;
    assert r[p] == x && r[j] == s[i];
  }

  /**
   * Rules for 0..0 and for 0..0, 0..1, 2..2 fit into an empty tree. On these nodes for
   * the tree, the check then lets in a rule for 0..0, 0..0, which collides: inserting it leaves
   * overlapping keys on a level.
   */
  lemma {:induction false} LetsCollisionIn(order: Order, v0: Value, v1: Value, v: Value)
    returns (m: Memory, l: Layer, a: Rule, b: Rule, r: Rule)
    requires D >= 3 && KEY_MAX >= 2 && IsOrder(order) && v0.IsValid() && v1.IsValid() && v.IsValid()
    ensures Proper(a) && Proper(b) && Proper(r) && a.value == v0 && b.value == v1 && r.value == v
    ensures CollisionFree(EMPTY, order, a) && CollisionFree(WithRule(EMPTY, order, a), order, b)
    ensures Rep(m, l, 0, order) && Meaning(l) == WithRule(WithRule(EMPTY, order, a), order, b)
    ensures Written(m, Some(l), 0, 0, InOrder(order, r.filter)) == Some(false)
    ensures !CollisionFree(Meaning(l), order, r) && !WF(WithRule(Meaning(l), order, r), D)
  {
    hide IsOrder, Required, Fits, Insert, MatchLen, WithRule, CollisionFree, Rep, Meaning, Written, RuleFor;
    var zero, one, two := Range(0, 0), Range(0, 1), Range(2, 2);
    var full;
    m, l, full := MissesCollision(order, v0, v1);
    a, b, r := RuleFor(order, [zero], v0), RuleFor(order, [zero, one, two], v1), RuleFor(order, [zero, zero], v);
    PathRule(order, [zero], v0);
    PathRule(order, [zero, one, two], v1);
    PathRule(order, [zero, zero], v);
    assert InOrder(order, r.filter) == full;
    var t1, t2 := Trie([Item(zero, v0, EMPTY)]), Meaning(l);
    TreeAnswers.FirstPath(InOrder(order, a.filter), zero, v0);
    OneRule(EMPTY, order, a, [zero]);
    ThreeLevels(InOrder(order, b.filter), zero, one, two, v0, v1);
    OneRule(t1, order, b, [zero, one, two]);
    Inside(InOrder(order, r.filter), zero, one, two, v0, v1);
    OneRule(t2, order, r, [zero, zero]);
    MeaningIsWF(m, l, order);
    InsertKeepsWFExactly(t2, D, [zero, zero], v);
  }

  lemma {:induction false} ThreeLevels(ks: Path, x: Range, y: Range, z: Range, v: Value, w: Value)
    requires |ks| >= 3 && ks[0] == x && ks[1] == y && ks[2] == z
    ensures var t := Trie([Item(x, v, EMPTY)]);
            && MatchLen(t, ks) == 1 && Fits(t, [x, y, z])
            && Insert(t, [x, y, z], w) == Trie([Item(x, v, Chain([y, z], w))])
  {
    var t := Trie([Item(x, v, EMPTY)]);
    assert t.entries[0].key == x && Find(t.entries, x) == 0;
    assert [x, y, z][1..] == [y, z] && MatchLen(EMPTY, ks[1..]) == 0;
    InsertIntoEmpty([y, z], w);
    assert Fits(EMPTY, [y, z]);
    assert Insert(t, [x, y, z], w).entries == [Item(x, v, Chain([y, z], w))];
  }

  // A path that leaves the tree inside the range that is stored there.
  lemma {:induction false} Inside(ks: Path, x: Range, y: Range, z: Range, v: Value, w: Value)
    requires |ks| >= 2 && ks[0] == x && ks[1] == x && x != y && !x.DisjointFrom(y)
    ensures var t := Trie([Item(x, v, Chain([y, z], w))]); MatchLen(t, ks) == 1 && !Fits(t, [x, x])
  {
    var t, c := Trie([Item(x, v, Chain([y, z], w))]), Chain([y, z], w);
    assert t.entries[0].key == x && Find(t.entries, x) == 0;
    assert [x, x][1..] == [x] && c.entries[0].key == y && Find(c.entries, x) == 1;
    assert !DisjointFromAll(x, c.entries);
    assert MatchLen(c, ks[1..]) == 0;
  }
}
