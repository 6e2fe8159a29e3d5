/** Choosing the order of the fields for a set of rules (GreedyDimensionOrderResolver::resolve). */
module DimensionOrders {
  import opened Ranges
  import opened Nodes
  import opened Sorting
  import opened IntervalScheduling
  import opened RuleSpecs
  import opened RuleTrees

  // Some rule looks at the field.
  ghost predicate Restricted(rules: seq<Rule>, d: nat) {
    exists r :: r in rules && d < |r.filter| && !r.filter[d].IsWildcard()
  }

  // ---------- scores ----------

  ghost function FieldValues(rules: seq<Rule>, d: nat): (vs: seq<Range>)
    requires forall i :: 0 <= i < |rules| ==> d < |rules[i].filter|
    ensures |vs| == |rules|
  {
    seq(|rules|, i requires 0 <= i < |rules| => rules[i].filter[d])
  }

  // The score is the profit of the field's ranges in some order by their high ends.
  ghost predicate IsScore(rules: seq<Rule>, d: nat, score: nat)
    requires forall i :: 0 <= i < |rules| ==> d < |rules[i].filter|
  {
    exists s: seq<Range> ::
      s != [] && ByHigh(s) && multiset(s) == multiset(FieldValues(rules, d)) && score == Profit(s, |s| - 1)
  }

  method DimensionScore(rules: seq<Rule>, d: nat) returns (score: nat)
    requires rules != [] && forall i :: 0 <= i < |rules| ==> d < |rules[i].filter|
    ensures IsScore(rules, d, score)
  {
    hide Profit, Chain, ChainWeight, LooseChain, Worth, RepeatsFit, AllDistinct, ByHigh;
    var values := new Range[|rules|](i requires 0 <= i < |rules| => rules[i].filter[d]);
    assert values[..] == FieldValues(rules, d);
    score := FindMaxWeight(values);
    assert values[..] != [];
  }

  // ---------- the fields in use ----------

  method DimensionMask(rules: seq<Rule>) returns (mask: seq<bool>)
    requires forall i :: 0 <= i < |rules| ==> |rules[i].filter| == D
    ensures |mask| == D && forall d :: 0 <= d < D ==> mask[d] == Restricted(rules, d)
  {
    var m := new bool[D](_ => false);
    for k := 0 to |rules|
      invariant forall d :: 0 <= d < D ==> m[d] == Restricted(rules[..k], d)
    {
      ghost var before := m[..];
      for i := 0 to D
        invariant forall d :: 0 <= d < i ==> m[d] == (before[d] || !rules[k].filter[d].IsWildcard())
        invariant forall d :: i <= d < D ==> m[d] == before[d]
      {
        m[i] := m[i] || !rules[k].filter[i].IsWildcard();
      }
      forall d | 0 <= d < D
        ensures Restricted(rules[..k + 1], d) == (Restricted(rules[..k], d) || !rules[k].filter[d].IsWildcard())
      {
        OneMoreRule(rules, k, d);
      }
    }
    assert rules[..|rules|] == rules;
    mask := m[..];
  }

  lemma OneMoreRule(rules: seq<Rule>, k: nat, d: nat)
    requires k < |rules| && d < |rules[k].filter|
    ensures Restricted(rules[..k + 1], d) == (Restricted(rules[..k], d) || !rules[k].filter[d].IsWildcard())
  {
    assert rules[..k + 1] == rules[..k] + [rules[k]];
  }

  // ---------- the result ----------

  // Used fields by descending score, then the others; ties and the others as before.
  ghost predicate Resolved(rules: seq<Rule>, original: Order, order: Order, used: nat, scores: seq<nat>)
    requires IsOrder(original) && |scores| == D
  {
    && IsOrder(order) && used <= D
    && (forall i :: 0 <= i < D ==> (Restricted(rules, order[i]) <==> i < used))
    && (forall i, j :: 0 <= i < j < used ==> Earlier(original, scores, order[i], order[j]))
    && (forall i, j :: used <= i < j < D ==> IndexIn(original, order[i]) < IndexIn(original, order[j]))
  }

  ghost predicate Earlier(original: Order, scores: seq<nat>, a: nat, b: nat)
    requires a < |scores| && b < |scores|
  {
    scores[a] > scores[b] || (scores[a] == scores[b] && IndexIn(original, a) < IndexIn(original, b))
  }

  // No rule needs a level behind the used fields.
  lemma LevelsNeeded(rules: seq<Rule>, original: Order, order: Order, used: nat, scores: seq<nat>, r: Rule)
    requires IsOrder(original) && |scores| == D && Resolved(rules, original, order, used, scores)
    requires r in rules && ValidRule(r)
    ensures Required(InOrder(order, r.filter)) <= Levels(used)
  {
    var ks := InOrder(order, r.filter);
    var n := Required(ks);
    if n > 1 {
      assert !r.filter[order[n - 1]].IsWildcard();
      assert Restricted(rules, order[n - 1]);
    }
  }

  ghost predicate OrderedPairs(s: seq<(nat, nat)>, original: Order) {
    forall i, j :: 0 <= i < j < |s| ==>
      s[i].1 > s[j].1 || (s[i].1 == s[j].1 && IndexIn(original, s[i].0) <= IndexIn(original, s[j].0))
  }

  method SortScores(pairs: seq<(nat, nat)>, original: Order) returns (sorted: seq<(nat, nat)>)
    ensures OrderedPairs(sorted, original) && multiset(sorted) == multiset(pairs)
  {
    var a := new (nat, nat)[|pairs|](i requires 0 <= i < |pairs| => pairs[i]);
    assert a[..] == pairs;
    var less := (x: (nat, nat), y: (nat, nat)) =>
      x.1 > y.1 || (x.1 == y.1 && IndexIn(original, x.0) < IndexIn(original, y.0));
    SortArray(a, less);
    sorted := a[..];
    forall i, j | 0 <= i < j < |sorted|
      ensures !less(sorted[j], sorted[i])
    {
    }
  }

  ghost function Firsts(s: seq<(nat, nat)>): (r: seq<nat>)
    ensures |r| == |s| && forall i :: 0 <= i < |s| ==> r[i] == s[i].0
  {
    seq(|s|, i requires 0 <= i < |s| => s[i].0)
  }

  // ---------- putting it together ----------

  lemma DistinctOnce<A>(s: seq<A>, x: A)
    requires Distinct(s)
    ensures multiset(s)[x] <= 1
  {
    if s != [] {
      var rest, last := s[..|s| - 1], s[|s| - 1];
      assert s == rest + [last] && last !in rest;
      DistinctOnce(rest, x);
    }
  }

  lemma TwiceCounts<A>(s: seq<A>, i: nat, j: nat)
    requires i < j < |s| && s[i] == s[j]
    ensures multiset(s)[s[i]] >= 2
  {
    assert s == s[..i] + [s[i]] + s[i + 1..];
    assert s[j] in s[i + 1..];
  }

  lemma SameDistinct<A>(a: seq<A>, b: seq<A>)
    requires Distinct(a) && multiset(a) == multiset(b)
    ensures Distinct(b)
  {
    forall i, j | 0 <= i < j < |b|
      ensures b[i] != b[j]
    {
      DistinctOnce(a, b[i]);
      if b[i] == b[j] {
        TwiceCounts(b, i, j);
        assert false;
      }
    }
  }

  // One pair of field and score for every used field.
  ghost predicate Scored(rules: seq<Rule>, mask: seq<bool>, n: nat, pairs: seq<(nat, nat)>, scores: seq<nat>)
    requires |mask| == D && |scores| == D && n <= D
    requires forall i :: 0 <= i < |rules| ==> |rules[i].filter| == D
  {
    && (forall p :: p in pairs ==> p.0 < n && mask[p.0] && p.1 == scores[p.0] && IsScore(rules, p.0, p.1))
    && (forall d :: 0 <= d < n && mask[d] ==> (d, scores[d]) in pairs)
    && Distinct(pairs)
  }

  method ScorePairs(rules: seq<Rule>, mask: seq<bool>) returns (pairs: seq<(nat, nat)>, scores: seq<nat>)
    requires |mask| == D && forall i :: 0 <= i < |rules| ==> |rules[i].filter| == D
    requires forall d :: 0 <= d < D && mask[d] ==> Restricted(rules, d)
    ensures |scores| == D && Scored(rules, mask, D, pairs, scores)
  {
    pairs := [];
    scores := seq(D, _ => 0);
    for d := 0 to D
      invariant |scores| == D && Scored(rules, mask, d, pairs, scores)
    {
      if mask[d] {
        assert Restricted(rules, d);
        var score := DimensionScore(rules, d);
        ghost var before, s0 := pairs, scores;
        scores := scores[d := score];
        pairs := pairs + [(d, score)];
        MoreScored(rules, mask, d, before, s0, score);
      }
    }
  }

  lemma MoreScored(rules: seq<Rule>, mask: seq<bool>, d: nat, pairs: seq<(nat, nat)>, scores: seq<nat>, score: nat)
    requires |mask| == D && |scores| == D && d < D && mask[d]
    requires forall i :: 0 <= i < |rules| ==> |rules[i].filter| == D
    requires Scored(rules, mask, d, pairs, scores) && IsScore(rules, d, score)
    ensures Scored(rules, mask, d + 1, pairs + [(d, score)], scores[d := score])
  {
    hide IsScore;
    var pairs', scores' := pairs + [(d, score)], scores[d := score];
    forall p | p in pairs'
      ensures p.0 < d + 1 && mask[p.0] && p.1 == scores'[p.0] && IsScore(rules, p.0, p.1)
    {
      if p !in pairs {
        assert p == (d, score);
      }
    }
    forall e | 0 <= e < d + 1 && mask[e]
      ensures (e, scores'[e]) in pairs'
    {
      if e < d {
        assert (e, scores[e]) in pairs;
      } else {
        assert pairs'[|pairs|] == (d, score);
      }
    }
  }

  // The rest of the fields, in their original order.
  ghost predicate Appended(mask: seq<bool>, original: Order, head: Order, order: Order, n: nat)
    requires |mask| == D && IsOrder(original) && n <= D
  {
    && head <= order
    && (forall i :: |head| <= i < |order| ==> order[i] < D && !mask[order[i]] && IndexIn(original, order[i]) < n)
    && (forall i, j :: |head| <= i < j < |order| ==> IndexIn(original, order[i]) < IndexIn(original, order[j]))
    && (forall k :: 0 <= k < n && !mask[original[k]] ==> original[k] in order)
  }

  method AppendUnused(mask: seq<bool>, original: Order, head: Order) returns (order: Order)
    requires |mask| == D && IsOrder(original)
    ensures Appended(mask, original, head, order, D)
  {
    order := head;
    for i := 0 to D
      invariant Appended(mask, original, head, order, i)
    {
      var d := original[i];
      if !mask[d] {
        IndexIs(original, i);
        AppendOne(mask, original, head, order, i);
        order := order + [d];
      }
    }
  }

  lemma {:induction false} AppendOne(mask: seq<bool>, original: Order, head: Order, order: Order, i: nat)
    requires |mask| == D && IsOrder(original) && i < D && !mask[original[i]]
    requires Appended(mask, original, head, order, i) && IndexIn(original, original[i]) == i
    ensures Appended(mask, original, head, order + [original[i]], i + 1)
  {
    var order' := order + [original[i]];
    forall k | 0 <= k < i + 1 && !mask[original[k]]
      ensures original[k] in order'
    {
      if k == i {
        assert order'[|order|] == original[i];
      }
    }
  }

  lemma CardOfSeq(s: seq<nat>, n: nat)
    requires forall x :: 0 <= x < n ==> x in s
    ensures |s| >= n
  {
    assert Numbers(n) <= Elements(s);
    SubsetCard(Numbers(n), Elements(s));
  }

  ghost function Elements(s: seq<nat>): (all: set<nat>)
    ensures |all| <= |s| && forall x :: x in all <==> x in s
  {
    if s == [] then {}
    else
      assert s == s[..|s| - 1] + [s[|s| - 1]];
      Elements(s[..|s| - 1]) + {s[|s| - 1]}
  }

  lemma SubsetCard(a: set<nat>, b: set<nat>)
    requires a <= b
    ensures |a| <= |b|
  {
    assert b == a + (b - a);
  }

  // Used fields first and the others behind them: every field once.
  lemma OrderComplete(rules: seq<Rule>, mask: seq<bool>, original: Order, pairs: seq<(nat, nat)>, scores: seq<nat>,
                      order: Order)
    requires |mask| == D && |scores| == D && IsOrder(original)
    requires forall i :: 0 <= i < |rules| ==> |rules[i].filter| == D
    requires Scored(rules, mask, D, pairs, scores)
    requires Appended(mask, original, Firsts(pairs), order, D)
    ensures IsOrder(order) && |pairs| <= D
    ensures forall i :: 0 <= i < D ==> (mask[order[i]] <==> i < |pairs|)
  {
    hide IsScore;
    var head := Firsts(pairs);
    forall i | 0 <= i < |pairs|
      ensures order[i] == pairs[i].0 && order[i] < D && mask[order[i]]
    {
      assert pairs[i] in pairs && head[i] == order[i];
    }
    forall i, j | 0 <= i < j < |order|
      ensures order[i] != order[j]
    {
      if j < |pairs| {
        assert pairs[i] in pairs && pairs[j] in pairs && pairs[i] != pairs[j];
      }
    }
    assert Distinct(order);
    forall d | 0 <= d < D
      ensures d in order
    {
      if mask[d] {
        var i :| 0 <= i < |pairs| && pairs[i] == (d, scores[d]);
        assert order[i] == d;
      } else {
        var k := OrderCovers(original, d);
      }
    }
    CardOfSeq(order, D);
    DistinctFits(order, Numbers(D));
  }

  lemma ScoredSame(rules: seq<Rule>, mask: seq<bool>, pairs: seq<(nat, nat)>, sorted: seq<(nat, nat)>, scores: seq<nat>)
    requires |mask| == D && |scores| == D && forall i :: 0 <= i < |rules| ==> |rules[i].filter| == D
    requires Scored(rules, mask, D, pairs, scores) && multiset(sorted) == multiset(pairs)
    ensures Scored(rules, mask, D, sorted, scores)
  {
    hide IsScore;
    SameDistinct(pairs, sorted);
    forall p
      ensures p in pairs <==> p in sorted
    {
      assert p in multiset(pairs) <==> p in multiset(sorted);
    }
  }

  /** Resolves a good order of the fields, and how many of them the rules use. */
  method Resolve(rules: seq<Rule>, original: Order) returns (order: Order, used: nat, scores: seq<nat>)
    requires IsOrder(original) && forall i :: 0 <= i < |rules| ==> |rules[i].filter| == D
    ensures |scores| == D && Resolved(rules, original, order, used, scores)
    ensures forall i :: 0 <= i < used ==> IsScore(rules, order[i], scores[order[i]])
  {
    hide Scored, Appended, OrderedPairs, IsScore, Resolved;
    var mask := DimensionMask(rules);
    var pairs;
    pairs, scores := ScorePairs(rules, mask);
    var sorted := SortScores(pairs, original);
    ScoredSame(rules, mask, pairs, sorted, scores);
    order := [];
    for i := 0 to |sorted|
      invariant order == Firsts(sorted)[..i]
    {
      order := order + [sorted[i].0];
    }
    assert order == Firsts(sorted);
    used := |order|;
    order := AppendUnused(mask, original, order);
    OrderComplete(rules, mask, original, sorted, scores, order);
    IsResolved(rules, mask, original, sorted, scores, order);
  }

  lemma IsResolved(rules: seq<Rule>, mask: seq<bool>, original: Order, pairs: seq<(nat, nat)>, scores: seq<nat>,
                   order: Order)
    requires |mask| == D && |scores| == D && IsOrder(original) && IsOrder(order) && |pairs| <= D
    requires forall i :: 0 <= i < |rules| ==> |rules[i].filter| == D
    requires forall d :: 0 <= d < D ==> mask[d] == Restricted(rules, d)
    requires Scored(rules, mask, D, pairs, scores) && OrderedPairs(pairs, original)
    requires Appended(mask, original, Firsts(pairs), order, D)
    requires forall i :: 0 <= i < D ==> (mask[order[i]] <==> i < |pairs|)
    ensures Resolved(rules, original, order, |pairs|, scores)
    ensures forall i :: 0 <= i < |pairs| ==> IsScore(rules, order[i], scores[order[i]])
  {
    hide IsScore, Restricted;
    forall i | 0 <= i < |pairs|
      ensures order[i] == pairs[i].0 && scores[order[i]] == pairs[i].1 && IsScore(rules, order[i], scores[order[i]])
    {
      assert pairs[i] in pairs && Firsts(pairs)[i] == order[i];
    }
    forall i, j | 0 <= i < j < |pairs|
      ensures Earlier(original, scores, order[i], order[j])
    {
      assert order[i] != order[j];
      var a := OrderCovers(original, order[i]);
      var b := OrderCovers(original, order[j]);
    }
  }
}
