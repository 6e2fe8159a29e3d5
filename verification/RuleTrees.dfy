/** What inserting, searching and dumping mean for rules and packets. */
module RuleTrees {
  import opened Ranges
  import opened Items
  import opened Nodes
  import opened Tries
  import opened RuleSpecs

  // ---------- dimension orders ----------

  // A permutation reaches every field.
  lemma OrderCovers(order: Order, d: nat) returns (i: nat)
    requires IsOrder(order) && d < D
    ensures i < D && order[i] == d
  {
    if d !in order {
      DistinctFits(order, Numbers(D) - {d});
      assert false;
    }
    i :| 0 <= i < |order| && order[i] == d;
  }

  // A sequence without repetition is no longer than the set it draws from.
  lemma {:induction false} DistinctFits(s: seq<nat>, all: set<nat>)
    requires Distinct(s) && forall i :: 0 <= i < |s| ==> s[i] in all
    ensures |s| <= |all|
  {
    if s != [] {
      var last := s[|s| - 1];
      DistinctFits(s[..|s| - 1], all - {last});
    }
  }

  // The filter that a path stands for: any value in the fields that it does not reach.
  ghost function FilterOf(order: Order, path: Path): (filter: seq<Range>)
    requires IsOrder(order)
    ensures |filter| == D
  {
    seq(D, d requires 0 <= d < D => FieldOf(order, path, d))
  }

  ghost function FieldOf(order: Order, path: Path, d: nat): Range {
    if d in order && IndexIn(order, d) < |path| then path[IndexIn(order, d)] else ANY
  }

  // Where the field is in the order, behind its end if it is not there.
  function IndexIn(order: Order, d: nat): (i: nat)
    ensures i <= |order| && (i < |order| ==> order[i] == d)
    ensures d in order ==> i < |order|
  {
    if order == [] || order[0] == d then 0 else 1 + IndexIn(order[1..], d)
  }

  lemma {:induction false} IndexIs(order: Order, i: nat)
    requires Distinct(order) && i < |order|
    ensures IndexIn(order, order[i]) == i
  {
  }

  // The levels that a rule needs tell everything about it.
  lemma FilterOfPath(order: Order, filter: seq<Range>, n: nat)
    requires IsOrder(order) && |filter| == D && Required(InOrder(order, filter)) <= n <= D
    ensures FilterOf(order, InOrder(order, filter)[..n]) == filter
  {
    var ks := InOrder(order, filter);
    forall d | 0 <= d < D
      ensures FieldOf(order, ks[..n], d) == filter[d]
    {
      var i := OrderCovers(order, d);
      IndexIs(order, i);
      assert ks[i] == filter[d];
    }
  }

  lemma MatchesFilter(order: Order, filter: seq<Range>, n: nat, packet: Packet)
    requires IsOrder(order) && |filter| == D && ValidPacket(packet)
    requires Required(InOrder(order, filter)) <= n <= D
    ensures Matches(InOrder(order, filter)[..n], InOrder(order, packet)) <==> FilterMatches(filter, packet)
  {
    var ks, ps := InOrder(order, filter), InOrder(order, packet);
    if FilterMatches(filter, packet) {
      forall i | 0 <= i < n
        ensures ks[..n][i].InRange(ps[i])
      {
        assert filter[order[i]].InRange(packet[order[i]]);
      }
    }
    if Matches(ks[..n], ps) {
      forall d | 0 <= d < D
        ensures filter[d].InRange(packet[d])
      {
        var i := OrderCovers(order, d);
        assert i < n ==> ks[..n][i].InRange(ps[i]);
      }
    }
  }

  // ---------- inserting a rule ----------

  function RulePath(t: Trie, order: Order, r: Rule): (path: Path)
    requires IsOrder(order) && ValidRule(r)
    ensures path != [] && |path| <= D && ValidPath(path)
  {
    InOrder(order, r.filter)[..PathLen(t, InOrder(order, r.filter))]
  }

  // A rule takes no more levels than it must: it restricts nothing behind them, no key is
  // stored for it on the next one, and the last one is the first, or one that it restricts,
  // or one where its key is stored.
  lemma {:induction false} RulePathIs(t: Trie, order: Order, r: Rule)
    requires IsOrder(order) && ValidRule(r)
    ensures var (ks, n) := (InOrder(order, r.filter), |RulePath(t, order, r)|);
            && RulePath(t, order, r) == ks[..n]
            && (forall i :: n <= i < D ==> ks[i].IsWildcard())
            && (n < D ==> !OnKeys(t, ks[..n + 1]))
            && (n == 1 || !ks[n - 1].IsWildcard() || OnKeys(t, ks[..n]))
  {
    hide MatchLen, Required, OnKeys;
    var ks, n := InOrder(order, r.filter), |RulePath(t, order, r)|;
    MatchLenIs(t, ks, n);
    if n < D {
      MatchLenIs(t, ks, n + 1);
    }
  }

  // The rule's range equals a stored key or is disjoint from all of them, level by level.
  predicate CollisionFree(t: Trie, order: Order, r: Rule)
    requires IsOrder(order) && ValidRule(r)
  {
    Fits(t, RulePath(t, order, r))
  }

  function WithRule(t: Trie, order: Order, r: Rule): Trie
    requires IsOrder(order) && ValidRule(r)
  {
    Insert(t, RulePath(t, order, r), r.value)
  }

  // Nothing that is stored deeper answers the packet.
  ghost predicate NoneDeeper(t: Trie, order: Order, n: nat, packet: Packet)
    requires IsOrder(order) && ValidPacket(packet)
  {
    forall q :: Stored(t, q, InOrder(order, packet)) ==> |q| <= n
  }

  function Answer(t: Trie, order: Order, packet: Packet): Value
    requires IsOrder(order) && ValidPacket(packet)
  {
    Lookup(t, InOrder(order, packet), NO_VALUE)
  }

  // The update of one rule, as packets see it.
  lemma {:induction false} RuleUpdate(t: Trie, order: Order, r: Rule, packet: Packet)
    requires IsOrder(order) && ValidRule(r) && r.value.IsValid() && ValidPacket(packet)
    requires WF(t, D) && CollisionFree(t, order, r)
    ensures WF(WithRule(t, order, r), D)
    ensures Answer(WithRule(t, order, r), order, packet) ==
            if FilterMatches(r.filter, packet) && NoneDeeper(t, order, |RulePath(t, order, r)|, packet) then r.value
            else Answer(t, order, packet)
  {
    hide Matches, Fits, InOrder;
    var path := RulePath(t, order, r);
    InsertLookup(t, D, path, r.value, InOrder(order, packet));
    MatchesFilter(order, r.filter, |path|, packet);
  }

  // A search agrees with a scan over everything that the dump lists.
  lemma {:induction false} ScanAgrees(t: Trie, order: Order, packet: Packet)
    requires IsOrder(order) && ValidPacket(packet) && WF(t, D)
    ensures var ps, v := InOrder(order, packet), Answer(t, order, packet);
            && (v.IsValid() <==> exists q, w :: InDump(t, q, w) && Matches(q, ps))
            && (v.IsValid() ==> exists q :: InDump(t, q, v) && Matches(q, ps)
                                  && forall r, w :: InDump(t, r, w) && Matches(r, ps) ==> |r| <= |q|)
            && (!v.IsValid() ==> v == NO_VALUE)
  {
    var ps, v := InOrder(order, packet), Answer(t, order, packet);
    var q := LookupDeepest(t, D, ps, NO_VALUE);
    forall r, w
      ensures InDump(t, r, w) && Matches(r, ps) ==> Stored(t, r, ps) && Get(t, r) == w
      ensures Stored(t, r, ps) && Get(t, r) == w ==> InDump(t, r, w)
    {
      DumpIs(t, r, w);
    }
    if q != [] {
      assert InDump(t, q, v) && Matches(q, ps);
    }
  }

  ghost predicate InDump(t: Trie, path: Path, v: Value) {
    (path, v) in Rules(t, [])
  }

  lemma {:induction false} DumpIs(t: Trie, path: Path, v: Value)
    requires WF(t, D)
    ensures InDump(t, path, v) <==> path != [] && v.IsValid() && Get(t, path) == v
    ensures Rules(t, [])[(path, v)] <= 1
  {
    RulesListed(t.entries, [], D, path, v);
    assert path[0..] == path && path[..0] == [];
    assert Rules(t, []) == EntryRules(t.entries, []);
  }

  // ---------- building a tree and dumping it ----------

  ghost function Built(order: Order, rules: seq<Rule>): Trie
    requires IsOrder(order) && forall i :: 0 <= i < |rules| ==> ValidRule(rules[i])
  {
    if rules == [] then EMPTY
    else WithRule(Built(order, rules[..|rules| - 1]), order, rules[|rules| - 1])
  }

  // Every rule is free of collisions with the tree at that point.
  ghost predicate Buildable(order: Order, rules: seq<Rule>)
    requires IsOrder(order)
  {
    && (forall i :: 0 <= i < |rules| ==> ValidRule(rules[i]) && rules[i].value.IsValid())
    && (rules != [] ==>
          && Buildable(order, rules[..|rules| - 1])
          && CollisionFree(Built(order, rules[..|rules| - 1]), order, rules[|rules| - 1]))
  }

  ghost predicate DistinctFilters(rules: seq<Rule>) {
    forall i, j :: 0 <= i < j < |rules| ==> rules[i].filter != rules[j].filter
  }

  lemma {:induction false} BuiltWF(order: Order, rules: seq<Rule>)
    requires IsOrder(order) && Buildable(order, rules)
    ensures WF(Built(order, rules), D)
  {
    if rules != [] {
      var t, r := Built(order, rules[..|rules| - 1]), rules[|rules| - 1];
      BuiltWF(order, rules[..|rules| - 1]);
      InsertWF(t, RulePath(t, order, r), r.value, D);
    }
  }

  ghost function RuleAt(order: Order, p: (Path, Value)): Rule
    requires IsOrder(order)
  {
    Rule(FilterOf(order, p.0), p.1)
  }

  // The rules of a dump, given by their paths.
  ghost function RulesAt(order: Order, ps: seq<(Path, Value)>): (rs: seq<Rule>)
    requires IsOrder(order)
    ensures |rs| == |ps|
    ensures forall i :: 0 <= i < |ps| ==> rs[i] == RuleAt(order, ps[i])
  {
    seq(|ps|, i requires 0 <= i < |ps| => RuleAt(order, ps[i]))
  }

  lemma RulesAtSnoc(order: Order, ps: seq<(Path, Value)>, p: (Path, Value))
    requires IsOrder(order)
    ensures RulesAt(order, ps + [p]) == RulesAt(order, ps) + [RuleAt(order, p)]
  {
  }

  // One more rule in the tree, and in the list of its rules.
  lemma {:induction false} BuiltOneMore(order: Order, t: Trie, rest: seq<Rule>, r: Rule, ps: seq<(Path, Value)>)
    requires IsOrder(order) && WF(t, D) && ValidRule(r) && r.value.IsValid() && CollisionFree(t, order, r)
    requires multiset(ps) == Rules(t, []) && RulesAt(order, ps) == rest
    requires forall i :: 0 <= i < |rest| ==> rest[i].filter != r.filter
    ensures multiset(ps + [(RulePath(t, order, r), r.value)]) == Rules(WithRule(t, order, r), [])
    ensures RulesAt(order, ps + [(RulePath(t, order, r), r.value)]) == rest + [r]
  {
    hide Rules, FilterOf, InOrder, Fits, WF, Get, Required;
    var path := RulePath(t, order, r);
    FilterOfPath(order, r.filter, |path|);
    NotThere(order, t, rest, ps, path, r.filter);
    InsertRules(t, path, r.value, D);
    RulesAtSnoc(order, ps, (path, r.value));
  }

  lemma {:induction false} BuiltNothing(order: Order)
    requires IsOrder(order)
    ensures Rules(Built(order, []), []) == multiset{} && RulesAt(order, []) == []
  {
  }

  lemma BuiltStep(order: Order, rules: seq<Rule>)
    requires IsOrder(order) && Buildable(order, rules) && rules != []
    ensures var rest, r := rules[..|rules| - 1], rules[|rules| - 1];
            && Buildable(order, rest) && ValidRule(r) && r.value.IsValid()
            && CollisionFree(Built(order, rest), order, r)
            && Built(order, rules) == WithRule(Built(order, rest), order, r)
  {
  }

  lemma DistinctRest(rules: seq<Rule>)
    requires DistinctFilters(rules) && rules != []
    ensures var rest, r := rules[..|rules| - 1], rules[|rules| - 1];
            DistinctFilters(rest) && forall i :: 0 <= i < |rest| ==> rest[i].filter != r.filter
  {
  }

  lemma {:induction false} BuiltLast(order: Order, rules: seq<Rule>, ps: seq<(Path, Value)>)
    returns (ps': seq<(Path, Value)>)
    requires IsOrder(order) && Buildable(order, rules) && DistinctFilters(rules) && rules != []
    requires var rest := rules[..|rules| - 1];
             Buildable(order, rest) && multiset(ps) == Rules(Built(order, rest), []) && RulesAt(order, ps) == rest
    ensures multiset(ps') == Rules(Built(order, rules), []) && RulesAt(order, ps') == rules
  {
    hide Rules, WithRule, CollisionFree, RulePath, WF, Built, Buildable, RulesAt, DistinctFilters, ValidRule, IsOrder;
    var rest, r := rules[..|rules| - 1], rules[|rules| - 1];
    BuiltStep(order, rules);
    DistinctRest(rules);
    var t := Built(order, rest);
    BuiltWF(order, rest);
    BuiltOneMore(order, t, rest, r, ps);
    ps' := ps + [(RulePath(t, order, r), r.value)];
    assert rules == rest + [r];
  }

  // A tree built from rules with distinct filters holds each of them once and nothing else.
  lemma {:induction false} BuiltRules(order: Order, rules: seq<Rule>) returns (ps: seq<(Path, Value)>)
    requires IsOrder(order) && Buildable(order, rules) && DistinctFilters(rules)
    ensures multiset(ps) == Rules(Built(order, rules), [])
    ensures RulesAt(order, ps) == rules
  {
    hide Rules, Built, Buildable, RulesAt, DistinctFilters, IsOrder;
    if rules == [] {
      ps := [];
      BuiltNothing(order);
    } else {
      BuiltStep(order, rules);
      DistinctRest(rules);
      var rest := BuiltRules(order, rules[..|rules| - 1]);
      ps := BuiltLast(order, rules, rest);
    }
  }

  lemma {:induction false} NotThere(order: Order, t: Trie, rest: seq<Rule>, ps: seq<(Path, Value)>, path: Path,
                                    filter: seq<Range>)
    requires IsOrder(order) && WF(t, D) && path != [] && FilterOf(order, path) == filter
    requires multiset(ps) == Rules(t, []) && RulesAt(order, ps) == rest
    requires forall i :: 0 <= i < |rest| ==> rest[i].filter != filter
    ensures !Get(t, path).IsValid()
  {
    hide Rules, WF, FilterOf;
    forall i | 0 <= i < |ps|
      ensures ps[i].0 != path
    {
      assert rest[i] == RuleAt(order, ps[i]);
    }
    assert (path, Get(t, path)) !in multiset(ps);
    DumpIs(t, path, Get(t, path));
  }

  lemma CountWithout<A>(s: seq<A>, j: nat)
    requires j < |s|
    ensures multiset(s) == multiset(s[..j] + s[j + 1..]) + multiset{s[j]}
  {
    assert s == s[..j] + [s[j]] + s[j + 1..];
  }

  lemma WithoutAt(order: Order, ps: seq<(Path, Value)>, j: nat)
    requires IsOrder(order) && j < |ps|
    ensures multiset(RulesAt(order, ps)) == multiset(RulesAt(order, ps[..j] + ps[j + 1..]))
        + multiset{RuleAt(order, ps[j])}
  {
    hide RuleAt;
    var rs := RulesAt(order, ps);
    CountWithout(rs, j);
    assert RulesAt(order, ps[..j] + ps[j + 1..]) == rs[..j] + rs[j + 1..];
  }

  lemma Cancel<A>(m: multiset<A>, n: multiset<A>, x: A)
    requires m + multiset{x} == n + multiset{x}
    ensures m == n
  {
    assert m == m + multiset{x} - multiset{x};
    assert n == n + multiset{x} - multiset{x};
  }

  // Listing the same paths in another order lists the same rules.
  lemma {:induction false} SameRules(order: Order, a: seq<(Path, Value)>, b: seq<(Path, Value)>)
    requires IsOrder(order) && multiset(a) == multiset(b)
    ensures multiset(RulesAt(order, a)) == multiset(RulesAt(order, b))
  {
    hide RuleAt, RulesAt, IsOrder;
    if a == [] {
      assert |multiset(b)| == 0;
    } else {
      assert a[0] in multiset(b);
      var j :| 0 <= j < |b| && b[j] == a[0];
      CountWithout(a, 0);
      CountWithout(b, j);
      Cancel(multiset(a[..0] + a[1..]), multiset(b[..j] + b[j + 1..]), a[0]);
      SameRules(order, a[..0] + a[1..], b[..j] + b[j + 1..]);
      WithoutAt(order, a, 0);
      WithoutAt(order, b, j);
    }
  }

  // Building a tree and dumping it gives the rules back.
  lemma {:induction false} RoundTrip(order: Order, rules: seq<Rule>, ps: seq<(Path, Value)>)
    requires IsOrder(order) && Buildable(order, rules) && DistinctFilters(rules)
    requires multiset(ps) == Rules(Built(order, rules), [])
    ensures multiset(RulesAt(order, ps)) == multiset(rules)
  {
    var qs := BuiltRules(order, rules);
    SameRules(order, ps, qs);
  }
}
