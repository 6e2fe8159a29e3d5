/** What a tree of the partition sort classifier knows about the rules it was given. */
module TreeAnswers {
  import opened Ranges
  import opened Items
  import opened Nodes
  import opened Tries
  import opened RuleSpecs
  import opened RuleTrees
  import opened OrderExtension
  import opened ListClassifier

  // Every packet that matches the first filter matches the second.
  ghost predicate Refines(a: seq<Range>, b: seq<Range>) {
    |a| == |b| && forall d :: 0 <= d < |a| ==> b[d].Contains(a[d])
  }

  // A refining rule never has the lower priority.
  ghost predicate Monotone(rules: seq<Rule>) {
    forall a, b :: a in rules && b in rules && Refines(a.filter, b.filter) ==> a.value.priority >= b.value.priority
  }

  ghost predicate Usable(r: Rule) {
    ValidRule(r) && r.value.IsValid()
  }

  ghost predicate Restricts(r: Rule) {
    exists d :: 0 <= d < |r.filter| && !r.filter[d].IsWildcard()
  }

  // A rule that every tree can take which it does not collide in: it restricts some field.
  ghost predicate Proper(r: Rule) {
    Usable(r) && Restricts(r)
  }

  // ---------- stored paths and filters ----------

  // The stored paths that match a packet are prefixes of the longest one.
  lemma {:induction false} StoredPrefix(t: Trie, d: nat, q: Path, r: Path, ps: seq<nat>)
    requires WF(t, d) && Stored(t, q, ps) && Stored(t, r, ps) && |r| <= |q|
    ensures r == q[..|r|]
  {
    StoredBelow(t, d, q, ps);
    StoredBelow(t, d, r, ps);
    var p := Find(t.entries, q[0]);
    if |r| > 1 {
      StoredPrefix(t.entries[p].next, d - 1, q[1..], r[1..], ps[1..]);
      assert q[..|r|] == [q[0]] + q[1..][..|r| - 1];
    }
    assert r == [r[0]] + r[1..];
  }

  lemma {:induction false} StoredValid(t: Trie, d: nat, q: Path)
    requires WF(t, d) && Get(t, q).IsValid()
    ensures q != [] && ValidPath(q) && |q| <= d
  {
    if q != [] {
      var p := Find(t.entries, q[0]);
      if |q| > 1 {
        StoredValid(t.entries[p].next, d - 1, q[1..]);
      }
      assert q == [q[0]] + q[1..];
    }
  }

  lemma PathMatches(order: Order, q: Path, packet: Packet)
    requires IsOrder(order) && |q| <= D && ValidPacket(packet)
    ensures Matches(q, InOrder(order, packet)) <==> FilterMatches(FilterOf(order, q), packet)
  {
    var ps, f := InOrder(order, packet), FilterOf(order, q);
    if Matches(q, ps) {
      forall d | 0 <= d < D
        ensures f[d].InRange(packet[d])
      {
        var i := OrderCovers(order, d);
        IndexIs(order, i);
      }
    }
    if FilterMatches(f, packet) {
      forall i | 0 <= i < |q|
        ensures q[i].InRange(ps[i])
      {
        IndexIs(order, i);
        assert f[order[i]].InRange(packet[order[i]]);
      }
    }
  }

  lemma PrefixRefined(order: Order, q: Path, n: nat)
    requires IsOrder(order) && |q| <= D && ValidPath(q) && n <= |q|
    ensures Refines(FilterOf(order, q), FilterOf(order, q[..n]))
  {
    var a, b := FilterOf(order, q), FilterOf(order, q[..n]);
    forall d | 0 <= d < D
      ensures b[d].Contains(a[d])
    {
      var i := OrderCovers(order, d);
      IndexIs(order, i);
    }
  }

  // ---------- a tree and its rules ----------

  ghost predicate Known(t: Trie, order: Order, rules: seq<Rule>, q: Path)
    requires IsOrder(order)
  {
    exists r :: r in rules && r.value == Get(t, q) && r.filter == FilterOf(order, q)
  }

  ghost predicate Kept(t: Trie, order: Order, r: Rule)
    requires IsOrder(order)
  {
    exists q :: Get(t, q).IsValid() && FilterOf(order, q) == r.filter
  }

  // What is stored comes from the rules, and every rule's filter is stored, with the value
  // of that rule or of another one with the same filter.
  ghost predicate Serves(t: Trie, order: Order, used: nat, rules: seq<Rule>)
    requires IsOrder(order)
  {
    && used <= D && WF(t, used)
    && (forall q :: Get(t, q).IsValid() ==> Known(t, order, rules, q))
    && (forall r :: r in rules ==> Kept(t, order, r))
  }

  // A tree answers with the value of a matching rule, and whenever there is one.
  lemma AnswerOfRule(t: Trie, order: Order, used: nat, rules: seq<Rule>, packet: Packet)
    requires IsOrder(order) && Serves(t, order, used, rules) && ValidPacket(packet)
    ensures var v := Answer(t, order, packet);
            && (v.IsValid() ==> exists r :: r in rules && FilterMatches(r.filter, packet) && r.value == v)
            && (!v.IsValid() ==> forall r :: r in rules ==> !FilterMatches(r.filter, packet))
  {
    hide WF, FilterOf, FilterMatches, Kept, IsOrder, InOrder, Get;
    var q := LookupDeepest(t, used, InOrder(order, packet), NO_VALUE);
    if q != [] {
      StoredValid(t, used, q);
      PathMatches(order, q, packet);
      assert Known(t, order, rules, q);
    } else {
      forall r | r in rules
        ensures !FilterMatches(r.filter, packet)
      {
        NoneMatches(t, order, used, packet, r);
      }
    }
  }

  lemma {:induction false} NoneMatches(t: Trie, order: Order, used: nat, packet: Packet, r: Rule)
    requires IsOrder(order) && used <= D && WF(t, used) && ValidPacket(packet) && Kept(t, order, r)
    requires forall q :: !Stored(t, q, InOrder(order, packet))
    ensures !FilterMatches(r.filter, packet)
  {
    hide WF, FilterOf;
    var q :| Get(t, q).IsValid() && FilterOf(order, q) == r.filter;
    StoredValid(t, used, q);
    PathMatches(order, q, packet);
    assert !Stored(t, q, InOrder(order, packet));
  }

  // ---------- the deepest rule and the best one ----------

  // Rules that match the same packets have the same priority.
  ghost predicate OnePriority(rules: seq<Rule>) {
    forall a, b :: a in rules && b in rules && a.filter == b.filter ==> a.value.priority == b.value.priority
  }

  ghost predicate Deepest(t: Trie, q: Path, ps: seq<nat>) {
    Stored(t, q, ps) && forall r :: Stored(t, r, ps) ==> |r| <= |q|
  }

  // Some stored path has a greater priority than the deepest one that matches with it.
  ghost predicate Outranked(t: Trie, ps: seq<nat>) {
    exists p, q :: Stored(t, p, ps) && Deepest(t, q, ps) && Get(t, p).priority > Get(t, q).priority
  }

  // Every matching rule is stored at some matching path, with its priority.
  lemma {:induction false} RulePathStored(t: Trie, order: Order, used: nat, rules: seq<Rule>, packet: Packet, r: Rule)
    returns (p: Path)
    requires IsOrder(order) && Serves(t, order, used, rules) && OnePriority(rules) && ValidPacket(packet)
    requires r in rules && FilterMatches(r.filter, packet)
    ensures Stored(t, p, InOrder(order, packet)) && Get(t, p).priority == r.value.priority
    ensures FilterOf(order, p) == r.filter
  {
    hide WF, FilterOf, FilterMatches, IsOrder, InOrder, Get;
    assert Kept(t, order, r);
    p :| Get(t, p).IsValid() && FilterOf(order, p) == r.filter;
    StoredValid(t, used, p);
    PathMatches(order, p, packet);
    assert Known(t, order, rules, p);
  }

  lemma {:induction false} StoredPathRule(t: Trie, order: Order, used: nat, rules: seq<Rule>, packet: Packet, p: Path)
    returns (r: Rule)
    requires IsOrder(order) && Serves(t, order, used, rules) && ValidPacket(packet)
    requires Stored(t, p, InOrder(order, packet))
    ensures r in rules && FilterMatches(r.filter, packet) && r.value == Get(t, p) && r.filter == FilterOf(order, p)
    ensures ValidPath(p) && |p| <= D
  {
    hide WF, FilterOf, FilterMatches, IsOrder, InOrder, Get;
    StoredValid(t, used, p);
    PathMatches(order, p, packet);
    assert Known(t, order, rules, p);
    r :| r in rules && r.value == Get(t, p) && r.filter == FilterOf(order, p);
  }

  /**
   * The answer of a tree, which is that of its deepest matching rule, is a best match among
   * its rules exactly if no shallower rule that matches as well has a greater priority.
   */
  lemma {:induction false} BestUnlessOutranked(t: Trie, order: Order, used: nat, rules: seq<Rule>, packet: Packet)
    requires IsOrder(order) && Serves(t, order, used, rules) && OnePriority(rules) && ValidPacket(packet)
    ensures BestMatch(rules, packet, Answer(t, order, packet)) <==> !Outranked(t, InOrder(order, packet))
  {
    hide WF, Serves, FilterOf, FilterMatches, IsOrder, InOrder, Get, OnePriority;
    var ps, v := InOrder(order, packet), Answer(t, order, packet);
    ServesIs(t, order, used, rules);
    AnswerOfRule(t, order, used, rules, packet);
    var deepest := LookupDeepest(t, used, ps, NO_VALUE);
    if Outranked(t, ps) {
      var p, q :| Stored(t, p, ps) && Deepest(t, q, ps) && Get(t, p).priority > Get(t, q).priority;
      StoredPrefix(t, used, deepest, q, ps);
      assert q == deepest;
      var r := StoredPathRule(t, order, used, rules, packet, p);
      assert r.value.priority > v.priority;
    } else if v.IsValid() {
      forall r | r in rules && FilterMatches(r.filter, packet)
        ensures r.value.priority <= v.priority
      {
        var p := RulePathStored(t, order, used, rules, packet, r);
        assert Deepest(t, deepest, ps);
      }
    }
  }

  lemma ServesIs(t: Trie, order: Order, used: nat, rules: seq<Rule>)
    requires IsOrder(order) && Serves(t, order, used, rules)
    ensures used <= D && WF(t, used)
  {
  }

  /** So it is one for every packet exactly if no packet finds such a pair of rules. */
  lemma {:induction false} AlwaysBestWhen(t: Trie, order: Order, used: nat, rules: seq<Rule>)
    requires IsOrder(order) && Serves(t, order, used, rules) && OnePriority(rules)
    ensures (forall packet :: ValidPacket(packet) ==> BestMatch(rules, packet, Answer(t, order, packet))) <==>
            forall packet :: ValidPacket(packet) ==> !Outranked(t, InOrder(order, packet))
  {
    hide Serves, BestMatch, Outranked, InOrder, IsOrder, OnePriority;
    forall packet | ValidPacket(packet)
      ensures BestMatch(rules, packet, Answer(t, order, packet)) <==> !Outranked(t, InOrder(order, packet))
    {
      BestUnlessOutranked(t, order, used, rules, packet);
    }
  }

  /** A refining rule that never has the lower priority excludes such pairs. */
  lemma {:induction false} TreeIsBest(t: Trie, order: Order, used: nat, rules: seq<Rule>, packet: Packet)
    requires IsOrder(order) && Serves(t, order, used, rules) && Monotone(rules) && ValidPacket(packet)
    ensures BestMatch(rules, packet, Answer(t, order, packet))
  {
    hide Serves, FilterOf, FilterMatches, BestMatch, IsOrder, InOrder, Get, Monotone;
    var ps := InOrder(order, packet);
    ServesIs(t, order, used, rules);
    MonotoneOnce(rules);
    BestUnlessOutranked(t, order, used, rules, packet);
    if Outranked(t, ps) {
      var p, q :| Stored(t, p, ps) && Deepest(t, q, ps) && Get(t, p).priority > Get(t, q).priority;
      var a := StoredPathRule(t, order, used, rules, packet, p);
      var b := StoredPathRule(t, order, used, rules, packet, q);
      StoredPrefix(t, used, q, p, ps);
      PrefixRefined(order, q, |p|);
      MonotonePair(rules, b, a);
    }
  }

  lemma MonotonePair(rules: seq<Rule>, a: Rule, b: Rule)
    requires Monotone(rules) && a in rules && b in rules && Refines(a.filter, b.filter)
    ensures a.value.priority >= b.value.priority
  {
  }

  lemma MonotoneOnce(rules: seq<Rule>)
    requires Monotone(rules)
    ensures OnePriority(rules)
  {
    forall a, b | a in rules && b in rules && a.filter == b.filter
      ensures a.value.priority == b.value.priority
    {
      assert Refines(a.filter, b.filter) && Refines(b.filter, a.filter);
    }
  }

  // ---------- one more rule ----------

  // Taking fields into use changes nothing for the rules so far.
  lemma ServesExtended(t: Trie, order: Order, used: nat, rules: seq<Rule>, rule: Rule, order': Order, used': nat)
    requires IsOrder(order) && Serves(t, order, used, rules) && ValidRule(rule)
    requires Extended(order, used, rule, order', used')
    ensures Serves(t, order', used', rules)
  {
    hide FilterOf, Extended, IsOrder;
    ExtendedFacts(order, used, rule, order', used');
    WFMore(t, used, used');
    forall q | Get(t, q).IsValid()
      ensures FilterOf(order', q) == FilterOf(order, q)
    {
      StoredValid(t, used, q);
      FilterKept(order, order', used, q);
    }
    forall q | Get(t, q).IsValid()
      ensures Known(t, order', rules, q)
    {
      assert Known(t, order, rules, q);
    }
    forall r | r in rules
      ensures Kept(t, order', r)
    {
      assert Kept(t, order, r);
    }
  }

  lemma ExtendedFacts(order: Order, used: nat, rule: Rule, order': Order, used': nat)
    requires IsOrder(order) && used <= D && ValidRule(rule) && Extended(order, used, rule, order', used')
    ensures IsOrder(order') && used <= used' <= D && order[..used] == order'[..used]
  {
  }

  // The tree with one more rule; the rule needs no level behind those in use.
  lemma ServesOneMore(t: Trie, order: Order, used: nat, rules: seq<Rule>, rule: Rule)
    requires IsOrder(order) && Serves(t, order, used, rules) && ValidRule(rule) && rule.value.IsValid()
    requires CollisionFree(t, order, rule) && |RulePath(t, order, rule)| <= used
    ensures Serves(WithRule(t, order, rule), order, used, rules + [rule])
  {
    hide WF, Fits, FilterOf, InOrder, IsOrder, Required;
    var path, t', rules' := RulePath(t, order, rule), WithRule(t, order, rule), rules + [rule];
    InsertWF(t, path, rule.value, used);
    FilterOfPath(order, rule.filter, |path|);
    forall q | Get(t', q).IsValid()
      ensures Known(t', order, rules', q)
    {
      InsertGet(t, path, rule.value, q);
      if q == path {
        assert rule in rules';
      } else {
        assert Known(t, order, rules, q);
        var r :| r in rules && r.value == Get(t, q) && r.filter == FilterOf(order, q);
        assert r in rules';
      }
    }
    forall r | r in rules'
      ensures Kept(t', order, r)
    {
      StillKept(t, order, rules, rule, path, r);
    }
  }

  lemma {:induction false} StillKept(t: Trie, order: Order, rules: seq<Rule>, rule: Rule, path: Path, r: Rule)
    requires IsOrder(order) && path != [] && FilterOf(order, path) == rule.filter && rule.value.IsValid()
    requires r in rules + [rule]
    requires r in rules ==> Kept(t, order, r)
    ensures Kept(Insert(t, path, rule.value), order, r)
  {
    hide FilterOf;
    var t' := Insert(t, path, rule.value);
    InsertGet(t, path, rule.value, path);
    if r in rules {
      var q :| Get(t, q).IsValid() && FilterOf(order, q) == r.filter;
      if q != path {
        InsertGet(t, path, rule.value, q);
        assert Get(t', q) == Get(t, q);
      }
    }
  }

  // ---------- why the priorities matter ----------

  /**
   * The rules 0..0 of priority 5 and 0..0, 0..0 of priority 1, inserted one after the other:
   * the packet of zeros matches both and is answered with priority 1.
   */
  lemma {:induction false} LowerAnswersFirst(order: Order)
    returns (a: Rule, b: Rule, t: Trie, packet: Packet)
    requires D >= 2 && KEY_MAX >= 1 && IsOrder(order)
    ensures Proper(a) && Proper(b) && ValidPacket(packet) && a.value.priority == 5 && b.value.priority == 1
    ensures FilterMatches(a.filter, packet) && FilterMatches(b.filter, packet)
    ensures CollisionFree(EMPTY, order, a) && CollisionFree(WithRule(EMPTY, order, a), order, b)
    ensures t == WithRule(WithRule(EMPTY, order, a), order, b)
    ensures Answer(t, order, packet) == b.value && !BestMatch([a, b], packet, Answer(t, order, packet))
  {
    hide Required, Fits, Insert, MatchLen, Lookup, WithRule, CollisionFree, RuleFor, FilterOf, Restricts;
    var zero, v, w := Range(0, 0), Value(5, 0), Value(1, 1);
    a, b := RuleFor(order, [zero], v), RuleFor(order, [zero, zero], w);
    packet := seq(D, _ => 0);
    PathRule(order, [zero], v);
    PathRule(order, [zero, zero], w);
    FirstPath(InOrder(order, a.filter), zero, v);
    SecondPath(InOrder(order, b.filter), zero, v, w);
    OneRule(EMPTY, order, a, [zero]);
    OneRule(Trie([Item(zero, v, EMPTY)]), order, b, [zero, zero]);
    t := WithRule(WithRule(EMPTY, order, a), order, b);
    var ps := InOrder(order, packet);
    assert ps[0] == 0 && ps[1] == 0;
    LookupTwo(ps, zero, v, w);
    PathMatches(order, [zero], packet);
    PathMatches(order, [zero, zero], packet);
    assert a in [a, b];
  }

  // The rule that stands for a path.
  ghost function RuleFor(order: Order, path: Path, v: Value): Rule
    requires IsOrder(order)
  {
    Rule(FilterOf(order, path), v)
  }

  lemma {:induction false} PathRule(order: Order, path: Path, v: Value)
    requires IsOrder(order) && 1 <= |path| <= D && ValidPath(path) && !path[|path| - 1].IsWildcard() && v.IsValid()
    ensures var r := RuleFor(order, path, v); var ks := InOrder(order, r.filter);
            && Proper(r) && r.filter == FilterOf(order, path) && r.value == v && Required(ks) == |path|
            && ks == path + seq(D - |path|, _ => ANY) && ks[..|path|] == path
  {
    hide Required;
    var r := RuleFor(order, path, v);
    var ks := InOrder(order, r.filter);
    forall i | 0 <= i < D
      ensures ks[i] == if i < |path| then path[i] else ANY
    {
      IndexIs(order, i);
    }
    forall d | 0 <= d < D
      ensures r.filter[d].Valid()
    {
      var i := OrderCovers(order, d);
      assert r.filter[d] == ks[i];
    }
    RequiredIs(ks, |path|);
    assert r.filter[order[|path| - 1]] == ks[|path| - 1];
  }

  // Inserting a rule whose path is known.
  lemma OneRule(t: Trie, order: Order, r: Rule, path: Path)
    requires IsOrder(order) && ValidRule(r) && path != [] && |path| <= D
    requires PathLen(t, InOrder(order, r.filter)) == |path| && InOrder(order, r.filter)[..|path|] == path
    ensures WithRule(t, order, r) == Insert(t, path, r.value) && CollisionFree(t, order, r) == Fits(t, path)
  {
  }

  lemma {:induction false} FirstPath(ks: Path, k: Range, v: Value)
    requires ks != [] && ks[0] == k
    ensures Insert(EMPTY, [k], v) == Trie([Item(k, v, EMPTY)])
    ensures Fits(EMPTY, [k]) && MatchLen(EMPTY, ks) == 0
  {
    assert Fits(EMPTY, [k][1..]);
    assert Put([], Item(k, v, EMPTY)) == [Item(k, v, EMPTY)];
  }

  lemma {:induction false} SecondPath(ks: Path, k: Range, v: Value, w: Value)
    requires |ks| >= 2 && ks[0] == k && ks[1] == k
    ensures var t := Trie([Item(k, v, EMPTY)]);
            && MatchLen(t, ks) == 1 && Fits(t, [k, k])
            && Insert(t, [k, k], w) == Trie([Item(k, v, Trie([Item(k, w, EMPTY)]))])
  {
    var t := Trie([Item(k, v, EMPTY)]);
    assert t.entries[0].key == k && Find(t.entries, k) == 0;
    assert [k, k][1..] == [k] && MatchLen(EMPTY, ks[1..]) == 0;
    FirstPath([k], k, w);
    var e := Insert(t, [k, k], w).entries;
    assert e == [Item(k, v, Trie([Item(k, w, EMPTY)]))];
  }

  lemma {:induction false} LookupTwo(ps: seq<nat>, k: Range, v: Value, w: Value)
    requires |ps| >= 2 && k.InRange(ps[0]) && k.InRange(ps[1]) && w.IsValid()
    ensures Lookup(Trie([Item(k, v, Trie([Item(k, w, EMPTY)]))]), ps, NO_VALUE) == w
  {
    var inner := Trie([Item(k, w, EMPTY)]);
    var t := Trie([Item(k, v, inner)]);
    assert Hit(t.entries, ps[0]) == 0 && Hit(inner.entries, ps[1]) == 0;
    var acc := if v.IsValid() then v else NO_VALUE;
    assert Lookup(t, ps, NO_VALUE) == Lookup(inner, ps[1..], acc);
    assert Lookup(inner, ps[1..], acc) == Lookup(EMPTY, ps[1..][1..], w);
    assert Lookup(EMPTY, ps[1..][1..], w) == w;
  }
}
