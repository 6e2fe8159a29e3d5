/** Taking new fields into use without touching the levels in use (the swap loop of the classifier). */
module OrderExtension {
  import opened Ranges
  import opened Items
  import opened Nodes
  import opened Tries
  import opened RuleSpecs
  import opened RuleTrees

  // ---------- what a tree of few levels can see ----------

  lemma {:induction false} LookupShallow(t: Trie, n: nat, ps: seq<nat>, ps': seq<nat>, acc: Value)
    requires WF(t, n) && |ps| >= n && |ps'| >= n && ps[..n] == ps'[..n]
    ensures Lookup(t, ps, acc) == Lookup(t, ps', acc)
    decreases n
  {
    if t.entries != [] {
      assert ps[0] == ps[..n][0] == ps'[..n][0] == ps'[0];
      var p := Hit(t.entries, ps[0]);
      if p < |t.entries| {
        var e := t.entries[p];
        assert ps[1..][..n - 1] == ps[..n][1..] && ps'[1..][..n - 1] == ps'[..n][1..];
        LookupShallow(e.next, n - 1, ps[1..], ps'[1..], if e.value.IsValid() then e.value else acc);
      }
    }
  }

  lemma {:induction false} FitsShallow(t: Trie, n: nat, ks: Path, ks': Path)
    requires WF(t, n) && |ks| >= n && |ks'| >= n && ks[..n] == ks'[..n]
    ensures Fits(t, ks) == Fits(t, ks')
    ensures MatchLen(t, ks) == MatchLen(t, ks') <= n
    decreases n
  {
    if t.entries != [] {
      assert ks[0] == ks[..n][0] == ks'[..n][0] == ks'[0];
      var p := Find(t.entries, ks[0]);
      if p < |t.entries| {
        assert ks[1..][..n - 1] == ks[..n][1..] && ks'[1..][..n - 1] == ks'[..n][1..];
        FitsShallow(t.entries[p].next, n - 1, ks[1..], ks'[1..]);
      }
    }
  }

  lemma {:induction false} FitsPrefix(t: Trie, ks: Path, n: nat)
    requires Fits(t, ks) && n <= |ks|
    ensures Fits(t, ks[..n])
  {
    if n > 0 {
      var p := Find(t.entries, ks[0]);
      assert ks[..n][1..] == ks[1..][..n - 1];
      if p < |t.entries| {
        FitsPrefix(t.entries[p].next, ks[1..], n - 1);
      }
    }
  }

  lemma {:induction false} WFMore(t: Trie, d: nat, e: nat)
    requires WF(t, d) && d <= e
    ensures WF(t, e)
    decreases d
  {
    forall i | 0 <= i < |t.entries|
      ensures WF(t.entries[i].next, e - 1)
    {
      WFMore(t.entries[i].next, d - 1, e - 1);
    }
  }

  // ---------- extending the order ----------

  // The rule restricts the field at this place.
  ghost predicate Takes(order: Order, rule: Rule, p: nat)
    requires IsOrder(order) && ValidRule(rule) && p < D
  {
    !rule.filter[order[p]].IsWildcard()
  }

  // How many fields the rule restricts from the place `used` on and before p.
  ghost function Rank(order: Order, used: nat, rule: Rule, p: nat): (n: nat)
    requires IsOrder(order) && ValidRule(rule) && used <= p <= D
    ensures n <= p - used
  {
    if p == used then 0 else Rank(order, used, rule, p - 1) + if Takes(order, rule, p - 1) then 1 else 0
  }

  // The field that ends at a place not in use: the one that is there, unless it is taken
  // into use, and then the one that had to make room for it.
  ghost function Remaining(order: Order, used: nat, rule: Rule, p: nat): nat
    requires IsOrder(order) && ValidRule(rule) && used <= p < D
    decreases p
  {
    if Takes(order, rule, p) && used + Rank(order, used, rule, p) < p then
      Remaining(order, used, rule, used + Rank(order, used, rule, p))
    else order[p]
  }

  // The levels in use stay. Behind them come the other fields that the rule restricts, in
  // the order they were in; they change places with the fields that stood there.
  ghost predicate Extended(order: Order, used: nat, rule: Rule, order': Order, used': nat)
    requires IsOrder(order) && used <= D && ValidRule(rule)
  {
    && IsOrder(order') && used <= used' <= D
    && order'[..used] == order[..used]
    && (forall i :: used <= i < used' ==> !rule.filter[order'[i]].IsWildcard())
    && (forall i :: used' <= i < D ==> rule.filter[order'[i]].IsWildcard())
    && used' == used + Rank(order, used, rule, D)
    && (forall i, j :: used <= i < j < used' ==> IndexIn(order, order'[i]) < IndexIn(order, order'[j]))
    && (forall i :: used' <= i < D ==> order'[i] == Remaining(order, used, rule, i))
  }

  // The same up to place i, from which on nothing has changed yet.
  ghost predicate Extending(order: Order, used: nat, rule: Rule, order': Order, used': nat, i: nat)
    requires IsOrder(order) && used <= i <= D && ValidRule(rule)
  {
    && IsOrder(order') && used <= used' <= i
    && order'[..used] == order[..used] && order'[i..] == order[i..]
    && (forall j :: used <= j < used' ==> !rule.filter[order'[j]].IsWildcard() && IndexIn(order, order'[j]) < i)
    && (forall j :: used' <= j < i ==> rule.filter[order'[j]].IsWildcard())
    && used' == used + Rank(order, used, rule, i)
    && (forall j, k :: used <= j < k < used' ==> IndexIn(order, order'[j]) < IndexIn(order, order'[k]))
    && (forall j :: used' <= j < i ==> order'[j] == Remaining(order, used, rule, j))
  }

  /** Swaps every restricted field that is not in use yet to the first place not in use. */
  method ExtendOrder(order: Order, used: nat, rule: Rule) returns (order': Order, used': nat)
    requires IsOrder(order) && used <= D && ValidRule(rule)
    ensures Extended(order, used, rule, order', used')
  {
    hide Extending, Extended, Rank, Remaining;
    order', used' := order, used;
    ExtendingStarts(order, used, rule);
    for i := used to D
      invariant IsOrder(order') && used' <= i
      invariant Extending(order, used, rule, order', used', i)
    {
      var d := order'[i];
      if !rule.filter[d].IsWildcard() {
        ExtendingTakes(order, used, rule, order', used', i);
        order' := order'[used' := d][i := order'[used']];
        used' := used' + 1;
      } else {
        ExtendingSkips(order, used, rule, order', used', i);
      }
    }
    ExtendingEnds(order, used, rule, order', used');
  }

  lemma ExtendingStarts(order: Order, used: nat, rule: Rule)
    requires IsOrder(order) && ValidRule(rule) && used <= D
    ensures Extending(order, used, rule, order, used, used)
  {
    RankStart(order, used, rule);
  }

  lemma ExtendingEnds(order: Order, used: nat, rule: Rule, order': Order, used': nat)
    requires IsOrder(order) && ValidRule(rule) && used <= D && Extending(order, used, rule, order', used', D)
    ensures Extended(order, used, rule, order', used')
  {
  }

  lemma {:induction false} ExtendingSkips(order: Order, used: nat, rule: Rule, order': Order, used': nat, i: nat)
    requires IsOrder(order) && ValidRule(rule) && used <= i < D && Extending(order, used, rule, order', used', i)
    requires rule.filter[order'[i]].IsWildcard()
    ensures Extending(order, used, rule, order', used', i + 1)
  {
    hide Rank, Remaining, IndexIn;
    Ahead(order, order', i);
    RankStep(order, used, rule, i);
    RemainingStep(order, used, rule, i);
  }

  lemma {:induction false} ExtendingTakes(order: Order, used: nat, rule: Rule, order': Order, used': nat, i: nat)
    requires IsOrder(order) && ValidRule(rule) && used <= i < D && Extending(order, used, rule, order', used', i)
    requires !rule.filter[order'[i]].IsWildcard()
    ensures Extending(order, used, rule, order'[used' := order'[i]][i := order'[used']], used' + 1, i + 1)
  {
    hide Rank, Remaining, IndexIn;
    Ahead(order, order', i);
    IndexIs(order, i);
    SwapKeepsOrder(order', used', i);
    RankStep(order, used, rule, i);
    RemainingStep(order, used, rule, i);
    var o := order'[used' := order'[i]][i := order'[used']];
    assert o[..used] == order'[..used] && o[i + 1..] == order'[i + 1..];
  }

  lemma {:induction false} ExtendingRest(order: Order, used: nat, rule: Rule, order': Order, used': nat, i: nat)
    requires IsOrder(order) && ValidRule(rule) && used <= i <= D && Extending(order, used, rule, order', used', i)
    requires forall j :: i <= j < D ==> rule.filter[order'[j]].IsWildcard()
    ensures Extended(order, used, rule, order', used')
    decreases D - i
  {
    hide Extending, Extended, Rank, Remaining;
    if i < D {
      ExtendingSkips(order, used, rule, order', used', i);
      ExtendingRest(order, used, rule, order', used', i + 1);
    } else {
      ExtendingEnds(order, used, rule, order', used');
    }
  }

  lemma Ahead(order: Order, order': Order, i: nat)
    requires |order| == |order'| && i < |order| && order'[i..] == order[i..]
    ensures order'[i] == order[i] && order'[i + 1..] == order[i + 1..]
  {
    assert order'[i..][0] == order[i..][0];
    assert order'[i..][1..] == order'[i + 1..] && order[i..][1..] == order[i + 1..];
  }

  lemma RankStart(order: Order, used: nat, rule: Rule)
    requires IsOrder(order) && ValidRule(rule) && used <= D
    ensures Rank(order, used, rule, used) == 0
  {
  }

  lemma {:induction false} RankStep(order: Order, used: nat, rule: Rule, i: nat)
    requires IsOrder(order) && ValidRule(rule) && used <= i < D
    ensures Rank(order, used, rule, i + 1) ==
            Rank(order, used, rule, i) + if rule.filter[order[i]].IsWildcard() then 0 else 1
  {
  }

  lemma {:induction false} RemainingStep(order: Order, used: nat, rule: Rule, i: nat)
    requires IsOrder(order) && ValidRule(rule) && used <= i < D
    ensures var p := used + Rank(order, used, rule, i);
            Remaining(order, used, rule, i) ==
            if !rule.filter[order[i]].IsWildcard() && p < i then Remaining(order, used, rule, p) else order[i]
  {
  }

  // A place behind those in use whose field the rule does not restrict keeps its field.
  lemma {:induction false} PlacesKept(order: Order, used: nat, rule: Rule, order': Order, used': nat, i: nat)
    requires IsOrder(order) && used <= D && ValidRule(rule) && Extended(order, used, rule, order', used')
    requires used' <= i < D && rule.filter[order[i]].IsWildcard()
    ensures order'[i] == order[i]
  {
    RemainingStep(order, used, rule, i);
  }

  // So there is one such order.
  lemma {:induction false} ExtendedOnce(order: Order, used: nat, rule: Rule, a: Order, m: nat, b: Order, n: nat)
    requires IsOrder(order) && used <= D && ValidRule(rule)
    requires Extended(order, used, rule, a, m) && Extended(order, used, rule, b, n)
    ensures a == b && m == n
  {
    hide Rank, Remaining, IndexIn;
    for i: nat := used to m
      invariant forall j :: used <= j < i ==> a[j] == b[j]
    {
      NextTaken(order, used, rule, a, m, b, n, i);
      NextTaken(order, used, rule, b, n, a, m, i);
      var p := OrderCovers(order, a[i]);
      var q := OrderCovers(order, b[i]);
    }
    assert forall j :: 0 <= j < used ==> a[j] == a[..used][j] == b[..used][j] == b[j];
  }

  lemma {:induction false} NextTaken(order: Order, used: nat, rule: Rule, a: Order, m: nat, b: Order, n: nat, i: nat)
    requires IsOrder(order) && used <= i && m <= D && ValidRule(rule) && i < m && used <= D
    requires Extended(order, used, rule, a, m) && Extended(order, used, rule, b, n)
    requires forall j :: used <= j < i ==> a[j] == b[j]
    ensures IndexIn(order, b[i]) <= IndexIn(order, a[i])
  {
    hide Rank, Remaining, IndexIn;
    var q := OrderCovers(b, a[i]);
    assert forall j :: 0 <= j < used ==> a[j] == a[..used][j] == b[..used][j] == b[j];
  }

  lemma SwapKeepsOrder(order: Order, a: nat, b: nat)
    requires IsOrder(order) && a <= b < D
    ensures IsOrder(order[a := order[b]][b := order[a]])
  {
    var order' := order[a := order[b]][b := order[a]];
    forall i, j | 0 <= i < j < D
      ensures order'[i] != order'[j]
    {
      var p := if i == a then b else if i == b then a else i;
      var q := if j == a then b else if j == b then a else j;
      assert order'[i] == order[p] && order'[j] == order[q] && p != q;
    }
  }

  // No search of the tree can tell the orders apart.
  lemma {:induction false} ExtensionInvisible(t: Trie, order: Order, used: nat, rule: Rule, order': Order, used': nat,
                                              packet: Packet)
    requires IsOrder(order) && used <= D && ValidRule(rule) && Extended(order, used, rule, order', used')
    requires WF(t, used) && ValidPacket(packet)
    ensures Answer(t, order', packet) == Answer(t, order, packet)
  {
    SamePrefix(order, order', used, packet);
    LookupShallow(t, used, InOrder(order, packet), InOrder(order', packet), NO_VALUE);
  }

  // Nor can the verdict on the rule.
  lemma {:induction false} VerdictKept(t: Trie, order: Order, used: nat, rule: Rule, order': Order, used': nat)
    requires IsOrder(order) && used <= D && ValidRule(rule) && Extended(order, used, rule, order', used')
    requires WF(t, used)
    ensures Fits(t, InOrder(order', rule.filter)) == Fits(t, InOrder(order, rule.filter))
    ensures MatchLen(t, InOrder(order', rule.filter)) <= used
  {
    SamePrefix(order, order', used, rule.filter);
    FitsShallow(t, used, InOrder(order, rule.filter), InOrder(order', rule.filter));
  }

  lemma SamePrefix<A>(order: Order, order': Order, n: nat, s: seq<A>)
    requires IsOrder(order) && IsOrder(order') && n <= D && |s| == D && order[..n] == order'[..n]
    ensures InOrder(order, s)[..n] == InOrder(order', s)[..n]
  {
    forall i | 0 <= i < n
      ensures InOrder(order, s)[i] == InOrder(order', s)[i]
    {
      assert order[i] == order[..n][i] == order'[..n][i];
    }
  }

  // A rule that restricts some field then needs no level behind those in use.
  lemma ExtensionSuffices(order: Order, used: nat, rule: Rule, order': Order, used': nat)
    requires IsOrder(order) && used <= D && ValidRule(rule) && Extended(order, used, rule, order', used')
    ensures Required(InOrder(order', rule.filter)) <= Levels(used')
  {
    var ks := InOrder(order', rule.filter);
    var n := Required(ks);
    assert forall i :: used' <= i < D ==> ks[i] == rule.filter[order'[i]] && ks[i].IsWildcard();
  }

  // The filters of stored paths do not change either.
  lemma FilterKept(order: Order, order': Order, used: nat, path: Path)
    requires IsOrder(order) && IsOrder(order') && used <= D && order[..used] == order'[..used]
    requires |path| <= used
    ensures FilterOf(order', path) == FilterOf(order, path)
  {
    assert forall k :: 0 <= k < used ==> order[k] == order[..used][k] == order'[..used][k] == order'[k];
    forall d | 0 <= d < D
      ensures FieldOf(order', path, d) == FieldOf(order, path, d)
    {
      var i := OrderCovers(order, d);
      var j := OrderCovers(order', d);
      if i < used {
        IndexIs(order', i);
      }
      if j < used {
        IndexIs(order, j);
      }
      IndexIs(order, i);
      IndexIs(order', j);
    }
  }

  // Why a rule without any restricted field breaks this: it takes a level while none is
  // in use, so the next rule's first field is swapped under it, and the verdict changes.
  lemma WildcardRuleIsVisible(v: Value)
    requires D >= 2 && KEY_MAX >= 1
    ensures var order: Order := seq(D, i => i);
            var order' := order[0 := 1][1 := 0];
            var t := Trie([Item(ANY, v, EMPTY)]);
            var rule := Rule(seq(D, i => if i == 1 then Range(0, 0) else ANY), v);
            && IsOrder(order) && ValidRule(rule) && Extended(order, 0, rule, order', 1)
            && WF(t, 1) && !WF(t, 0)
            && Fits(t, InOrder(order, rule.filter)) && !Fits(t, InOrder(order', rule.filter))
  {
    hide Extending, Extended;
    var order: Order := seq(D, i => i);
    var order' := order[0 := 1][1 := 0];
    var t := Trie([Item(ANY, v, EMPTY)]);
    var rule := Rule(seq(D, i => if i == 1 then Range(0, 0) else ANY), v);
    ExtendingStarts(order, 0, rule);
    ExtendingSkips(order, 0, rule, order, 0, 0);
    ExtendingTakes(order, 0, rule, order, 0, 1);
    assert order[0 := order[1]][1 := order[0]] == order';
    ExtendingRest(order, 0, rule, order', 1, 2);
    assert WF(EMPTY, 0);
    var ks, ks' := InOrder(order, rule.filter), InOrder(order', rule.filter);
    assert ks[0] == ANY && ks'[0] == Range(0, 0);
    assert t.entries[0].key == ANY;
    assert Find(t.entries, ks[0]) == 0 && Find(t.entries, ks'[0]) == 1;
    assert Fits(EMPTY, ks[1..]);
    assert !ks'[0].DisjointFrom(t.entries[0].key);
  }
}
