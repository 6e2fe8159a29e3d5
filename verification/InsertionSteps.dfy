/** One insertion into the partition sort classifier leaves nothing open: the trees afterwards are determined. */
module InsertionSteps {
  import opened Ranges
  import opened Nodes
  import opened IntervalScheduling
  import opened RuleSpecs
  import opened RuleTrees
  import opened ArrayResort
  import opened DimensionOrders
  import opened OrderExtension
  import opened ClassifierTrees

  // ---------- the tree that takes the rule ----------

  lemma FirstTakerOnce(s: seq<TreeInfo>, i: nat, j: nat, rule: Rule)
    requires FirstTaker(s, i, rule) && FirstTaker(s, j, rule)
    ensures i == j
  {
    hide Refused, HasMask;
    AskedInTurn(s, RuleMask(rule), i, j);
  }

  lemma AskedInTurn(s: seq<TreeInfo>, m: Mask, i: nat, j: nat)
    requires i < |s| && j < |s|
    ensures i == j || AskedBefore(s, m, i, j) || AskedBefore(s, m, j, i)
  {
  }

  lemma TookOnce(t: TreeInfo, a: TreeInfo, b: TreeInfo, rule: Rule)
    requires Took(t, a, rule) && Took(t, b, rule)
    ensures a == b
  {
    hide Extended, WithRule;
    ExtendedOnce(t.order, t.usedDimCnt, rule, a.order, a.usedDimCnt, b.order, b.usedDimCnt);
  }

  lemma NotPastEqual<A>(s: seq<A>, c: nat, i: nat, j: nat, key: A -> nat)
    requires c < |s| && i < j < |s| && RightPlace(s, c, i, key) && key(Without(s, c)[i]) == key(s[c])
    ensures !RightPlace(s, c, j, key)
  {
  }

  // Between two places for an item there would be an item of its size that it has passed.
  lemma NoneBehind<A>(s: seq<A>, c: nat, i: nat, j: nat, key: A -> nat)
    requires c < |s| && i < |s| && j < |s| && RightPlace(s, c, i, key) && RightPlace(s, c, j, key)
    ensures j <= i
  {
    assert i < j ==> key(Without(s, c)[i]) == key(s[c]);
    if i < j {
      NotPastEqual(s, c, i, j, key);
    }
  }

  lemma PlaceOnce<A>(s: seq<A>, c: nat, i: nat, j: nat, key: A -> nat)
    requires c < |s| && i < |s| && j < |s| && RightPlace(s, c, i, key) && RightPlace(s, c, j, key)
    ensures i == j
  {
    NoneBehind(s, c, i, j, key);
    NoneBehind(s, c, j, i, key);
  }

  lemma RepairedOnce(s: seq<TreeInfo>, a: seq<TreeInfo>, b: seq<TreeInfo>, c: nat, i: nat, j: nat)
    requires Repaired(s, a, c, i, MaxPriority) && Repaired(s, b, c, j, MaxPriority)
    ensures a == b
  {
    hide Moved, RightPlace;
    PlaceOnce(s, c, i, j, MaxPriority);
  }

  lemma TookRuleOnce(s: seq<TreeInfo>, a: seq<TreeInfo>, b: seq<TreeInfo>, i: nat, p: nat, q: nat, rule: Rule)
    requires TookRule(s, a, i, p, rule) && TookRule(s, b, i, q, rule)
    ensures a == b
  {
    hide Took, Repaired;
    TookOnce(s[i], a[p], b[q], rule);
    if a[p].maxPriority > s[i].maxPriority {
      RepairedOnce(s[i := a[p]], a, b, i, p, q);
    }
  }

  // ---------- the new tree ----------

  // Two sequences that hold the same elements, each once, and in the same order.
  ghost predicate Sorts(s: seq<nat>, less: (nat, nat) -> bool) {
    forall i, j :: 0 <= i < j < |s| ==> less(s[i], s[j])
  }

  lemma {:induction false} SortOnce(a: seq<nat>, b: seq<nat>, less: (nat, nat) -> bool)
    requires Sorts(a, less) && Sorts(b, less) && |a| == |b|
    requires forall x, y :: !(less(x, y) && less(y, x))
    requires forall i :: 0 <= i < |a| ==> a[i] in b
    requires forall i :: 0 <= i < |b| ==> b[i] in a
    ensures a == b
  {
    for i: nat := 0 to |a|
      invariant forall j :: 0 <= j < i ==> a[j] == b[j]
    {
      var p :| 0 <= p < |b| && b[p] == a[i];
      var q :| 0 <= q < |a| && a[q] == b[i];
    }
  }

  lemma {:induction false} RestrictedCount(rules: seq<Rule>, original: Order, a: Order, m: nat, b: Order, n: nat,
                                           scores: seq<nat>, scores': seq<nat>)
    requires IsOrder(original) && |scores| == |scores'| == D
    requires Resolved(rules, original, a, m, scores) && Resolved(rules, original, b, n, scores')
    ensures n <= m
    ensures forall i :: 0 <= i < D ==> (b[i] in a[..m] <==> i < n)
  {
    hide Restricted, Earlier, IndexIn;
    forall i | 0 <= i < D
      ensures b[i] in a[..m] <==> i < n
    {
      var p := OrderCovers(a, b[i]);
      assert Restricted(rules, a[p]) <==> p < m;
      if p < m {
        assert a[..m][p] == b[i];
      }
      if b[i] in a[..m] {
        var q :| 0 <= q < m && a[..m][q] == b[i];
      }
    }
    assert forall i :: 0 <= i < n ==> b[..n][i] == b[i];
    DistinctFits(b[..n], Elements(a[..m]));
  }

  // The resolved order is determined by the scores of the restricted fields.
  lemma {:induction false} ResolvedOnce(rules: seq<Rule>, original: Order, a: Order, m: nat, b: Order, n: nat,
                                        scores: seq<nat>, scores': seq<nat>)
    requires IsOrder(original) && |scores| == |scores'| == D
    requires Resolved(rules, original, a, m, scores) && Resolved(rules, original, b, n, scores')
    requires forall d :: 0 <= d < D && Restricted(rules, d) ==> scores[d] == scores'[d]
    ensures a == b && m == n
  {
    hide Resolved, Restricted;
    SameFront(rules, original, a, m, b, n, scores, scores');
    SameBack(rules, original, a, m, b, n, scores, scores');
    assert a == a[..m] + a[m..] && b == b[..m] + b[m..];
  }

  lemma {:induction false} SameFront(rules: seq<Rule>, original: Order, a: Order, m: nat, b: Order, n: nat,
                                     scores: seq<nat>, scores': seq<nat>)
    requires IsOrder(original) && |scores| == |scores'| == D
    requires Resolved(rules, original, a, m, scores) && Resolved(rules, original, b, n, scores')
    requires forall d :: 0 <= d < D && Restricted(rules, d) ==> scores[d] == scores'[d]
    ensures m == n <= |a| == |b| && a[..m] == b[..m]
  {
    hide Restricted, IndexIn;
    RestrictedCount(rules, original, a, m, b, n, scores, scores');
    RestrictedCount(rules, original, b, n, a, m, scores', scores);
    var byScore := (x: nat, y: nat) => x < D && y < D && Earlier(original, scores, x, y);
    forall i, j | 0 <= i < j < m
      ensures byScore(a[..m][i], a[..m][j]) && byScore(b[..m][i], b[..m][j])
    {
      assert Restricted(rules, a[i]) && Restricted(rules, a[j]) && Restricted(rules, b[i]) && Restricted(rules, b[j]);
    }
    SortOnce(a[..m], b[..m], byScore);
  }

  lemma {:induction false} SameBack(rules: seq<Rule>, original: Order, a: Order, m: nat, b: Order, n: nat,
                                    scores: seq<nat>, scores': seq<nat>)
    requires IsOrder(original) && |scores| == |scores'| == D && m == n
    requires Resolved(rules, original, a, m, scores) && Resolved(rules, original, b, n, scores')
    ensures m <= |a| == |b| && a[m..] == b[m..]
  {
    hide Resolved, Sorts, IndexIn, IsOrder;
    BackSorted(rules, original, a, m, scores);
    BackSorted(rules, original, b, m, scores');
    forall k | 0 <= k < D - m
      ensures a[m..][k] in b[m..] && b[m..][k] in a[m..]
    {
      BackCovers(rules, original, a, b, m, scores, scores', k);
      BackCovers(rules, original, b, a, m, scores', scores, k);
    }
    SortOnce(a[m..], b[m..], ByPlace(original));
  }

  ghost function ByPlace(original: Order): (nat, nat) -> bool {
    (x: nat, y: nat) => IndexIn(original, x) < IndexIn(original, y)
  }

  lemma {:induction false} BackSorted(rules: seq<Rule>, original: Order, a: Order, m: nat, scores: seq<nat>)
    requires IsOrder(original) && |scores| == D && Resolved(rules, original, a, m, scores)
    ensures m <= |a| == D && Sorts(a[m..], ByPlace(original))
  {
    hide Restricted, IndexIn, Earlier;
    forall i, j | 0 <= i < j < |a[m..]|
      ensures ByPlace(original)(a[m..][i], a[m..][j])
    {
      assert a[m..][i] == a[m + i] && a[m..][j] == a[m + j];
    }
  }

  lemma {:induction false} BackCovers(rules: seq<Rule>, original: Order, a: Order, b: Order, m: nat, scores: seq<nat>,
                                      scores': seq<nat>, k: nat)
    requires IsOrder(original) && |scores| == |scores'| == D
    requires Resolved(rules, original, a, m, scores) && Resolved(rules, original, b, m, scores') && m + k < D
    ensures m + k < |a| == |b| && b[m..][k] in a[m..]
  {
    hide Restricted, Earlier, IndexIn;
    var p := OrderCovers(a, b[m + k]);
    assert Restricted(rules, a[p]) <==> p < m;
    assert a[m..][p - m] == b[m + k];
  }

  // A single value has the score 1.
  lemma {:induction false} OneScore(rule: Rule, d: nat, score: nat)
    requires d < |rule.filter| && IsScore([rule], d, score)
    ensures score == 1
  {
    var s: seq<Range> :| s != [] && ByHigh(s) && multiset(s) == multiset(FieldValues([rule], d))
                         && score == Profit(s, |s| - 1);
    assert |s| == |multiset(s)| == |FieldValues([rule], d)| == 1;
  }

  lemma {:induction false} StartedOnce(a: TreeInfo, b: TreeInfo, rule: Rule)
    requires Started(a, rule) && Started(b, rule)
    ensures a == b
  {
    hide IsScore, Restricted, Earlier, WithRule, RuleMask, IndexIn;
    var scores :| |scores| == D && Resolved([rule], InPlace(), a.order, a.usedDimCnt, scores)
                  && forall i :: 0 <= i < a.usedDimCnt ==> IsScore([rule], a.order[i], scores[a.order[i]]);
    var scores' :| |scores'| == D && Resolved([rule], InPlace(), b.order, b.usedDimCnt, scores')
                   && forall i :: 0 <= i < b.usedDimCnt ==> IsScore([rule], b.order[i], scores'[b.order[i]]);
    forall d | 0 <= d < D && Restricted([rule], d)
      ensures scores[d] == scores'[d]
    {
      var i := OrderCovers(a.order, d);
      var j := OrderCovers(b.order, d);
      OneScore(rule, d, scores[d]);
      OneScore(rule, d, scores'[d]);
    }
    ResolvedOnce([rule], InPlace(), a.order, a.usedDimCnt, b.order, b.usedDimCnt, scores, scores');
  }

  // ---------- one insertion ----------

  /** What an insertion makes of the trees in use is a function of them and of the rule. */
  lemma {:induction false} StepOnce(s: seq<TreeInfo>, a: seq<TreeInfo>, b: seq<TreeInfo>, rule: Rule)
    requires Step(s, a, rule) && Step(s, b, rule)
    ensures a == b
  {
    hide Took, Started, Repaired, TookRule, FirstTaker;
    if SomeTook(s, a, rule) {
      TakersAgree(s, a, b, rule);
    } else if SomeTook(s, b, rule) {
      TakersAgree(s, b, a, rule);
    } else {
      var t, p :| Started(t, rule) && Repaired(s + [t], a, |s|, p, MaxPriority);
      var u, q :| Started(u, rule) && Repaired(s + [u], b, |s|, q, MaxPriority);
      StartedOnce(t, u, rule);
      RepairedOnce(s + [t], a, b, |s|, p, q);
    }
  }

  lemma {:induction false} TakersAgree(s: seq<TreeInfo>, a: seq<TreeInfo>, b: seq<TreeInfo>, rule: Rule)
    requires SomeTook(s, a, rule) && Step(s, b, rule)
    ensures a == b
  {
    hide Took, Repaired, TookRule, AskedBefore, Refused, NewTook;
    var i, p :| FirstTaker(s, i, rule) && TookRule(s, a, i, p, rule);
    assert !NoneTakes(s, rule);
    var j, q :| FirstTaker(s, j, rule) && TookRule(s, b, j, q, rule);
    FirstTakerOnce(s, i, j, rule);
    TookRuleOnce(s, a, b, i, p, q, rule);
  }
}
