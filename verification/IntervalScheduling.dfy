/** The longest sequence of compatible intervals (WeightedIntervalSchedulingSolver). */
module IntervalScheduling {
  import opened Ranges
  import opened Sorting

  // ---------- the recurrence ----------

  ghost predicate ByHigh(s: seq<Range>) {
    forall i, j :: 0 <= i < j < |s| ==> s[i].high <= s[j].high
  }

  // Intervals that follow each other, or are the same.
  predicate Compatible(a: Range, b: Range) {
    a.high <= b.low || a == b
  }

  // An interval that repeats its predecessor counts twice.
  function Weight(s: seq<Range>, i: nat): nat
    requires i < |s|
  {
    if i > 0 && s[i - 1] == s[i] then 2 else 1
  }

  // The nearest earlier interval that is compatible with interval i.
  function Latest(s: seq<Range>, i: nat, from: nat): (j: int)
    requires from <= i < |s|
    ensures -1 <= j < from
    ensures j >= 0 ==> Compatible(s[j], s[i])
    ensures forall k :: j < k < from ==> !Compatible(s[k], s[i])
  {
    if from == 0 then -1
    else if Compatible(s[from - 1], s[i]) then from - 1
    else Latest(s, i, from - 1)
  }

  function Profit(s: seq<Range>, i: nat): (n: nat)
    requires i < |s|
    ensures n >= 1
  {
    var l := Latest(s, i, i);
    var incl := Weight(s, i) + if l >= 0 then Profit(s, l) else 0;
    if i > 0 && Profit(s, i - 1) > incl then Profit(s, i - 1) else incl
  }

  // ---------- chains ----------

  // Indices of intervals of which each is compatible with the next one.
  ghost predicate Chain(s: seq<Range>, c: seq<nat>): (r: bool)
    ensures r ==> forall k :: 0 <= k < |c| ==> c[k] < |s|
  {
    c != [] ==>
      var rest, last := c[..|c| - 1], c[|c| - 1];
      && Chain(s, rest) && last < |s|
      && (rest != [] ==> rest[|rest| - 1] < last && Compatible(s[rest[|rest| - 1]], s[last]))
  }

  ghost function ChainWeight(s: seq<Range>, c: seq<nat>): nat
    requires forall k :: 0 <= k < |c| ==> c[k] < |s|
  {
    if c == [] then 0 else ChainWeight(s, c[..|c| - 1]) + Weight(s, c[|c| - 1])
  }

  lemma {:induction false} ProfitGrows(s: seq<Range>, i: nat, j: nat)
    requires i <= j < |s|
    ensures Profit(s, i) <= Profit(s, j)
  {
    if i < j {
      ProfitGrows(s, i, j - 1);
    }
  }

  // No chain is worth more than the profit at its end.
  lemma {:induction false} ChainBound(s: seq<Range>, c: seq<nat>)
    requires Chain(s, c) && c != []
    ensures ChainWeight(s, c) <= Profit(s, c[|c| - 1])
  {
    var last := c[|c| - 1];
    var rest := c[..|c| - 1];
    if rest == [] {
      assert ChainWeight(s, rest) == 0;
    } else {
      var prev := c[|c| - 2];
      ChainBound(s, rest);
      assert Compatible(s[prev], s[last]);
      ProfitGrows(s, prev, Latest(s, last, last));
    }
  }

  ghost predicate AllDistinct(s: seq<Range>) {
    forall i, j :: 0 <= i < j < |s| ==> s[i] != s[j]
  }

  // Everything before a repeated interval is compatible with it, as when nothing is
  // repeated, or one interval several times.
  ghost predicate RepeatsFit(s: seq<Range>) {
    forall i, j, k :: 0 <= i < j < |s| && s[i] == s[j] && 0 <= k < j ==> Compatible(s[k], s[j])
  }

  // Some chain then earns the profit.
  lemma {:induction false} ChainAttains(s: seq<Range>, i: nat) returns (c: seq<nat>)
    requires ByHigh(s) && RepeatsFit(s) && i < |s|
    ensures Chain(s, c) && c != [] && c[|c| - 1] <= i
    ensures ChainWeight(s, c) == Profit(s, i)
  {
    hide Profit, ChainWeight;
    ProfitStep(s, i);
    var l := Latest(s, i, i);
    var incl := Weight(s, i) + if l >= 0 then Profit(s, l) else 0;
    if i > 0 && Profit(s, i - 1) > incl {
      c := ChainAttains(s, i - 1);
    } else if l >= 0 {
      c := ChainAttains(s, l);
      assert s[c[|c| - 1]].high <= s[l].high;
      assert s[l] == s[i] ==> Compatible(s[c[|c| - 1]], s[i]);
      ChainSnoc(s, c, i);
      c := c + [i];
    } else {
      NoChain(s);
      ChainSnoc(s, [], i);
      c := [i];
      assert [] + [i] == c;
    }
  }

  lemma ProfitStep(s: seq<Range>, i: nat)
    requires i < |s|
    ensures var l := Latest(s, i, i);
            var incl := Weight(s, i) + if l >= 0 then Profit(s, l) else 0;
            Profit(s, i) == if i > 0 && Profit(s, i - 1) > incl then Profit(s, i - 1) else incl
  {
  }

  lemma {:induction false} NoChain(s: seq<Range>)
    ensures Chain(s, []) && ChainWeight(s, []) == 0
  {
  }

  lemma {:induction false} ChainSnoc(s: seq<Range>, c: seq<nat>, i: nat)
    requires Chain(s, c) && i < |s|
    requires c != [] ==> c[|c| - 1] < i && Compatible(s[c[|c| - 1]], s[i])
    ensures Chain(s, c + [i]) && ChainWeight(s, c + [i]) == ChainWeight(s, c) + Weight(s, i)
  {
    assert (c + [i])[..|c|] == c;
  }

  // ---------- what the profit is, for all intervals ----------

  // The program goes from an interval back to the nearest one that is compatible with it, or
  // to any before that one, compatible or not.
  ghost predicate Follows(s: seq<Range>, a: nat, b: nat) {
    a < b < |s| && exists j :: a <= j < b && Compatible(s[j], s[b])
  }

  ghost predicate LooseChain(s: seq<Range>, c: seq<nat>) {
    && (forall k :: 0 <= k < |c| ==> c[k] < |s|)
    && forall k :: 0 < k < |c| ==> Follows(s, c[k - 1], c[k])
  }

  // The intervals of the chain that repeat the interval before them.
  ghost function Repeated(s: seq<Range>, c: seq<nat>): set<nat> {
    set k | k in c && 0 < k < |s| && s[k - 1] == s[k]
  }

  // Every interval counts once, and a repeating one once more.
  ghost function Worth(s: seq<Range>, c: seq<nat>): nat {
    |c| + |Repeated(s, c)|
  }

  lemma {:induction false} LooseAscends(s: seq<Range>, c: seq<nat>, j: nat, k: nat)
    requires LooseChain(s, c) && j < k < |c|
    ensures c[j] < c[k]
  {
    if j < k - 1 {
      LooseAscends(s, c, j, k - 1);
    }
    assert Follows(s, c[k - 1], c[k]);
  }

  lemma LooseFront(s: seq<Range>, c: seq<nat>)
    requires LooseChain(s, c) && c != []
    ensures LooseChain(s, c[..|c| - 1]) && c[|c| - 1] < |s|
    ensures |c| > 1 ==> Follows(s, c[|c| - 2], c[|c| - 1])
    ensures c[|c| - 1] !in c[..|c| - 1]
  {
    forall j | 0 <= j < |c| - 1
      ensures c[j] < c[|c| - 1]
    {
      LooseAscends(s, c, j, |c| - 1);
    }
  }

  lemma {:induction false} WorthStep(s: seq<Range>, c: seq<nat>, i: nat)
    requires i < |s| && i !in c
    ensures Worth(s, c + [i]) == Worth(s, c) + 1 + if i > 0 && s[i - 1] == s[i] then 1 else 0
  {
    var r, r' := Repeated(s, c), Repeated(s, c + [i]);
    assert (c + [i])[|c|] == i;
    if i > 0 && s[i - 1] == s[i] {
      assert r' == r + {i};
    } else {
      assert r' == r;
    }
  }

  // No loose chain is worth more than the profit at its end ...
  lemma {:induction false} LooseBound(s: seq<Range>, c: seq<nat>)
    requires LooseChain(s, c) && c != []
    ensures Worth(s, c) <= Profit(s, c[|c| - 1])
  {
    hide Profit, Worth, Repeated;
    var last, rest := c[|c| - 1], c[..|c| - 1];
    LooseFront(s, c);
    WorthStep(s, rest, last);
    assert rest + [last] == c;
    ProfitStep(s, last);
    if rest == [] {
      NoWorth(s);
    } else {
      LooseBound(s, rest);
      ProfitGrows(s, c[|c| - 2], Latest(s, last, last));
    }
  }

  lemma NoWorth(s: seq<Range>)
    ensures Worth(s, []) == 0 && LooseChain(s, [])
  {
  }

  // ... and some loose chain earns it, whatever the intervals are.
  lemma {:induction false} LooseAttains(s: seq<Range>, i: nat) returns (c: seq<nat>)
    requires i < |s|
    ensures LooseChain(s, c) && c != [] && c[|c| - 1] <= i && Worth(s, c) == Profit(s, i)
  {
    hide Profit, Worth, Repeated, LooseChain;
    ProfitStep(s, i);
    var l := Latest(s, i, i);
    var incl := Weight(s, i) + if l >= 0 then Profit(s, l) else 0;
    if i > 0 && Profit(s, i - 1) > incl {
      c := LooseAttains(s, i - 1);
    } else if l >= 0 {
      var rest := LooseAttains(s, l);
      c := LooseSnoc(s, rest, l, i);
    } else {
      NoWorth(s);
      WorthStep(s, [], i);
      c := [i];
      assert [] + [i] == c && LooseChain(s, c) by {
        OneLoose(s, i);
      }
    }
  }

  lemma OneLoose(s: seq<Range>, i: nat)
    requires i < |s|
    ensures LooseChain(s, [i])
  {
  }

  lemma {:induction false} LooseSnoc(s: seq<Range>, c: seq<nat>, l: nat, i: nat) returns (c': seq<nat>)
    requires LooseChain(s, c) && c != [] && c[|c| - 1] <= l < i < |s| && Compatible(s[l], s[i])
    ensures c' == c + [i] && LooseChain(s, c') && Worth(s, c') == Worth(s, c) + Weight(s, i)
  {
    hide Worth, Repeated;
    c' := c + [i];
    assert Follows(s, c[|c| - 1], i);
    forall j | 0 <= j < |c|
      ensures c[j] < i
    {
      if j < |c| - 1 {
        LooseAscends(s, c, j, |c| - 1);
      }
    }
    WorthStep(s, c, i);
  }

  // A chain is a loose one, of the same worth.
  lemma {:induction false} ChainIsLoose(s: seq<Range>, c: seq<nat>)
    requires Chain(s, c)
    ensures LooseChain(s, c) && ChainWeight(s, c) == Worth(s, c)
  {
    hide Worth, Repeated;
    if c == [] {
      NoWorth(s);
    } else {
      var last, rest := c[|c| - 1], c[..|c| - 1];
      ChainIsLoose(s, rest);
      assert rest + [last] == c;
      forall k | 0 < k < |c|
        ensures Follows(s, c[k - 1], c[k])
      {
        if k < |c| - 1 {
          assert rest[k - 1] == c[k - 1] && rest[k] == c[k] && Follows(s, rest[k - 1], rest[k]);
        } else {
          assert Compatible(s[c[k - 1]], s[c[k]]);
        }
      }
      LooseFront(s, c);
      WorthStep(s, rest, last);
    }
  }

  // ---------- one more interval ----------

  lemma {:induction false} LatestOfFront(s: seq<Range>, x: Range, i: nat, from: nat)
    requires from <= i < |s|
    ensures Latest(s + [x], i, from) == Latest(s, i, from)
  {
    if from > 0 {
      LatestOfFront(s, x, i, from - 1);
    }
  }

  lemma {:induction false} ProfitOfFront(s: seq<Range>, x: Range, i: nat)
    requires i < |s|
    ensures Profit(s + [x], i) == Profit(s, i)
  {
    hide Profit, Latest;
    ProfitStep(s, i);
    ProfitStep(s + [x], i);
    LatestOfFront(s, x, i, i);
    if i > 0 {
      ProfitOfFront(s, x, i - 1);
    }
    var l := Latest(s, i, i);
    if l >= 0 {
      ProfitOfFront(s, x, l);
    }
  }

  /** One more copy of the last interval raises the profit by two. */
  lemma {:induction false} OneMoreCopy(s: seq<Range>)
    requires s != []
    ensures Profit(s + [s[|s| - 1]], |s|) == Profit(s, |s| - 1) + 2
  {
    hide Profit;
    var n := |s|;
    var t := s + [s[n - 1]];
    ProfitStep(t, n);
    ProfitOfFront(s, s[n - 1], n - 1);
    assert t[n - 1] == t[n] && Latest(t, n, n) == n - 1;
  }

  /** A different one that starts at or behind every end raises it by one. */
  lemma {:induction false} OneBehindAll(s: seq<Range>, x: Range)
    requires s != [] && x != s[|s| - 1] && forall k :: 0 <= k < |s| ==> s[k].high <= x.low
    ensures Profit(s + [x], |s|) == Profit(s, |s| - 1) + 1
  {
    hide Profit;
    var n, t := |s|, s + [x];
    ProfitStep(t, n);
    ProfitOfFront(s, x, n - 1);
    assert t[n - 1] == s[n - 1] && t[n] == x && Latest(t, n, n) == n - 1;
  }

  /** A different one that starts before every end leaves it as it is. */
  lemma {:induction false} OneAcrossAll(s: seq<Range>, x: Range)
    requires s != [] && forall k :: 0 <= k < |s| ==> x.low < s[k].high && x != s[k]
    ensures Profit(s + [x], |s|) == Profit(s, |s| - 1)
  {
    hide Profit;
    var n, t := |s|, s + [x];
    ProfitStep(t, n);
    ProfitOfFront(s, x, n - 1);
    ProfitIsPositive(s, n - 1);
    assert forall k :: 0 <= k < n ==> t[k] == s[k];
    assert t[n] == x && Latest(t, n, n) == -1;
  }

  lemma ProfitIsPositive(s: seq<Range>, i: nat)
    requires i < |s|
    ensures Profit(s, i) >= 1
  {
  }

  /** n copies of one interval have the profit 2 * n - 1. */
  lemma {:induction false} CopiesProfit(x: Range, n: nat)
    requires n > 0
    ensures Profit(seq(n, _ => x), n - 1) == 2 * n - 1
  {
    if n == 1 {
      FirstProfit(seq(1, _ => x));
    } else {
      var s := seq(n - 1, _ => x);
      CopiesProfit(x, n - 1);
      OneMoreCopy(s);
      assert s + [s[|s| - 1]] == seq(n, _ => x);
    }
  }

  lemma {:induction false} DistinctWeight(s: seq<Range>, c: seq<nat>)
    requires Chain(s, c) && AllDistinct(s)
    ensures ChainWeight(s, c) == |c|
  {
    if c != [] {
      DistinctWeight(s, c[..|c| - 1]);
    }
  }

  // With repetitions the profit can exceed what any chain is worth: 0..1, 1..2 and twice 0..3.
  lemma Overestimates()
    ensures var s := [Range(0, 1), Range(1, 2), Range(0, 3), Range(0, 3)];
            && ByHigh(s) && Profit(s, 3) == 4
            && forall c :: Chain(s, c) ==> ChainWeight(s, c) <= 3
  {
    var s := [Range(0, 1), Range(1, 2), Range(0, 3), Range(0, 3)];
    assert Latest(s, 0, 0) == -1 && Profit(s, 0) == 1;
    assert Latest(s, 1, 1) == 0 && Profit(s, 1) == 2;
    assert Latest(s, 2, 0) == -1 && Latest(s, 2, 1) == -1 && Latest(s, 2, 2) == -1 && Profit(s, 2) == 2;
    assert Latest(s, 3, 3) == 2 && Profit(s, 3) == 4;
    forall c | Chain(s, c)
      ensures ChainWeight(s, c) <= 3
    {
      FewCompatible(s, c);
    }
  }

  lemma {:induction false} FewCompatible(s: seq<Range>, c: seq<nat>)
    requires s == [Range(0, 1), Range(1, 2), Range(0, 3), Range(0, 3)] && Chain(s, c)
    ensures ChainWeight(s, c) <= 3
  {
    if c != [] {
      var rest := c[..|c| - 1];
      if rest != [] {
        var rest' := rest[..|rest| - 1];
        // the pairs that are compatible are 0, 1 and 2, 3
        var prev := rest[|rest| - 1];
        assert prev in {0, 2} && c[|c| - 1] in {1, 3};
        assert rest' != [] ==> prev in {1, 3};
        assert ChainWeight(s, rest') == 0;
      } else {
        assert ChainWeight(s, rest) == 0;
      }
    }
  }

  // Repeated intervals may leave the profit exact all the same: 0..6 and twice 5..9.
  lemma {:induction false} ExactAllTheSame()
    ensures var s := [Range(0, 6), Range(5, 9), Range(5, 9)];
            && ByHigh(s) && !RepeatsFit(s)
            && Profit(s, 2) == 3 && Chain(s, [1, 2]) && ChainWeight(s, [1, 2]) == 3
  {
    hide Profit, Chain, ChainWeight, Latest;
    var s := [Range(0, 6), Range(5, 9), Range(5, 9)];
    ExactProfit();
    assert s[1] == s[2] && !Compatible(s[0], s[2]);
    NoChain(s);
    ChainSnoc(s, [], 1);
    ChainSnoc(s, [1], 2);
    assert [] + [1] == [1] && [1] + [2] == [1, 2];
  }

  lemma {:induction false} ExactProfit()
    ensures Profit([Range(0, 6), Range(5, 9), Range(5, 9)], 2) == 3
  {
    var s := [Range(0, 6), Range(5, 9), Range(5, 9)];
    assert Latest(s, 0, 0) == -1 && Profit(s, 0) == 1;
    assert Latest(s, 1, 0) == -1 && Latest(s, 1, 1) == -1 && Profit(s, 1) == 1;
    assert Latest(s, 2, 2) == 1 && Profit(s, 2) == 3;
  }

  // ---------- the program ----------

  method SortByHigh(a: array<Range>)
    modifies a
    ensures ByHigh(a[..]) && multiset(a[..]) == multiset(old(a[..]))
  {
    var less := (x: Range, y: Range) => x.high < y.high;
    SortArray(a, less);
    SortedIsByHigh(a[..], less);
  }

  lemma SortedIsByHigh(s: seq<Range>, less: (Range, Range) -> bool)
    requires Sorted(s, less) && forall x, y :: less(x, y) == (x.high < y.high)
    ensures ByHigh(s)
  {
    forall i, j | 0 <= i < j < |s|
      ensures s[i].high <= s[j].high
    {
      assert !less(s[j], s[i]);
    }
  }

  method LatestNonConflict(a: array<Range>, i: nat) returns (j: int)
    requires i < a.Length
    ensures j == Latest(a[..], i, i)
  {
    j := i - 1;
    while j >= 0
      invariant -1 <= j < i && Latest(a[..], i, i) == Latest(a[..], i, j + 1)
    {
      if a[j].high <= a[i].low || a[j] == a[i] {
        return;
      }
      j := j - 1;
    }
  }

  /**
   * Sorts the intervals and returns the profit: the greatest worth of a loose chain; at least
   * the weight of every chain, the weight of some chain when repeated intervals fit, and the
   * size of the longest chain when nothing is repeated.
   */
  method FindMaxWeight(a: array<Range>) returns (result: nat)
    requires a.Length > 0
    modifies a
    ensures ByHigh(a[..]) && multiset(a[..]) == multiset(old(a[..]))
    ensures result == Profit(a[..], a.Length - 1)
    ensures forall c :: LooseChain(a[..], c) ==> Worth(a[..], c) <= result
    ensures exists c :: LooseChain(a[..], c) && Worth(a[..], c) == result
    ensures forall c :: Chain(a[..], c) ==> ChainWeight(a[..], c) <= result
    ensures RepeatsFit(a[..]) ==> exists c :: Chain(a[..], c) && ChainWeight(a[..], c) == result
    ensures AllDistinct(a[..]) ==>
              && (forall c :: Chain(a[..], c) ==> |c| <= result)
              && exists c :: Chain(a[..], c) && |c| == result
  {
    hide Profit, Chain, ChainWeight, Latest, LooseChain, Worth;
    SortByHigh(a);
    ghost var s := a[..];
    var table := new nat[a.Length];
    table[0] := 1;
    FirstProfit(s);
    var i := 1;
    while i < a.Length
      invariant 1 <= i <= a.Length && a[..] == s
      invariant forall k :: 0 <= k < i ==> table[k] == Profit(s, k)
    {
      ProfitStep(s, i);
      var incl: nat := if a[i - 1] == a[i] then 2 else 1;
      var l := LatestNonConflict(a, i);
      if l != -1 {
        incl := incl + table[l];
      }
      table[i] := if incl < table[i - 1] then table[i - 1] else incl;
      i := i + 1;
    }
    result := table[a.Length - 1];
    Optimal(s);
    LooseOptimal(s);
  }

  lemma {:induction false} LooseOptimal(s: seq<Range>)
    requires s != []
    ensures forall c :: LooseChain(s, c) ==> Worth(s, c) <= Profit(s, |s| - 1)
    ensures exists c :: LooseChain(s, c) && Worth(s, c) == Profit(s, |s| - 1)
  {
    hide Profit, Worth, LooseChain;
    forall c | LooseChain(s, c)
      ensures Worth(s, c) <= Profit(s, |s| - 1)
    {
      if c == [] {
        NoWorth(s);
      } else {
        LooseFront(s, c);
        LooseBound(s, c);
        ProfitGrows(s, c[|c| - 1], |s| - 1);
      }
    }
    var c := LooseAttains(s, |s| - 1);
  }

  lemma {:induction false} FirstProfit(s: seq<Range>)
    requires s != []
    ensures Profit(s, 0) == 1
  {
  }

  lemma {:induction false} Optimal(s: seq<Range>)
    requires s != [] && ByHigh(s)
    ensures forall c :: Chain(s, c) ==> ChainWeight(s, c) <= Profit(s, |s| - 1)
    ensures RepeatsFit(s) ==> exists c :: Chain(s, c) && ChainWeight(s, c) == Profit(s, |s| - 1)
    ensures AllDistinct(s) ==>
              && (forall c :: Chain(s, c) ==> |c| <= Profit(s, |s| - 1))
              && exists c :: Chain(s, c) && |c| == Profit(s, |s| - 1)
  {
    hide Profit, Chain, ChainWeight, RepeatsFit, ByHigh, AllDistinct;
    forall c | Chain(s, c)
      ensures ChainWeight(s, c) <= Profit(s, |s| - 1)
    {
      WithinProfit(s, c);
    }
    if RepeatsFit(s) {
      var c := ChainAttains(s, |s| - 1);
    }
    if AllDistinct(s) {
      forall c | Chain(s, c)
        ensures |c| <= Profit(s, |s| - 1)
      {
        WithinProfit(s, c);
        DistinctWeight(s, c);
      }
      DistinctFit(s);
      var c := ChainAttains(s, |s| - 1);
      DistinctWeight(s, c);
    }
  }

  lemma {:induction false} WithinProfit(s: seq<Range>, c: seq<nat>)
    requires s != [] && Chain(s, c)
    ensures ChainWeight(s, c) <= Profit(s, |s| - 1)
  {
    hide Profit, ChainWeight;
    if c == [] {
      NoChain(s);
    } else {
      ChainBound(s, c);
      ProfitGrows(s, c[|c| - 1], |s| - 1);
    }
  }

  lemma DistinctFit(s: seq<Range>)
    requires AllDistinct(s)
    ensures RepeatsFit(s)
  {
  }
}
