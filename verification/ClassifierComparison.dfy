/** Both classifiers over the same rules and packets (tests/verif_pcv_list_test.cpp). */
module ClassifierComparison {
  import opened Items
  import opened Nodes
  import opened RuleSpecs
  import opened ListClassifier
  import opened TreeAnswers
  import opened ClassifierTrees
  import opened InsertionSteps
  import opened PartitionSort

  ghost predicate Agree(a: Value, b: Value) {
    a.IsValid() == b.IsValid() && (a.IsValid() ==> a.priority == b.priority)
  }

  // The second value answers the packet best; the first is that of a matching rule, too.
  ghost predicate Compared(rules: seq<Rule>, packet: Packet, ours: Value, theirs: Value) {
    && Matched(rules, packet, ours) && BestMatch(rules, packet, theirs)
    && ours.IsValid() == theirs.IsValid()
    && (ours.IsValid() ==> ours.priority <= theirs.priority)
    && (Monotone(rules) ==> BestMatch(rules, packet, ours) && Agree(ours, theirs))
  }

  // No rule that restricts some field follows one that restricts none.
  ghost predicate WildLast(rules: seq<Rule>) {
    forall i, j :: 0 <= i < j < |rules| && Restricts(rules[j]) ==> Restricts(rules[i])
  }

  // The trees in use after these rules have been inserted one after the other.
  ghost predicate Loaded(s: seq<TreeInfo>, rules: seq<Rule>)
    decreases |rules|, 1
  {
    if rules == [] then s == [] else exists t :: LoadedFrom(t, s, rules)
  }

  ghost predicate LoadedFrom(t: seq<TreeInfo>, s: seq<TreeInfo>, rules: seq<Rule>)
    requires rules != []
    decreases |rules|, 0
  {
    Loaded(t, rules[..|rules| - 1]) && Step(t, s, rules[|rules| - 1])
  }

  // They are determined by the rules.
  lemma {:induction false} LoadedOnce(a: seq<TreeInfo>, b: seq<TreeInfo>, rules: seq<Rule>)
    requires Loaded(a, rules) && Loaded(b, rules)
    ensures a == b
    decreases |rules|
  {
    hide Step;
    if rules != [] {
      var last := |rules| - 1;
      var t :| LoadedFrom(t, a, rules);
      var u :| LoadedFrom(u, b, rules);
      LoadedOnce(t, u, rules[..last]);
      StepOnce(t, a, b, rules[last]);
    }
  }

  lemma {:induction false} LoadedNone()
    ensures Loaded([], [])
  {
  }

  lemma {:induction false} LoadedMore(t: seq<TreeInfo>, s: seq<TreeInfo>, rules: seq<Rule>, i: nat)
    requires i < |rules| && Loaded(t, rules[..i]) && Step(t, s, rules[i])
    ensures Loaded(s, rules[..i + 1])
  {
    hide Step;
    assert rules[..i + 1][..i] == rules[..i] && rules[..i + 1][i] == rules[i];
    assert LoadedFrom(t, s, rules[..i + 1]);
  }

  // Every tree is in use after the first i rules, and refuses the next one.
  ghost predicate Full(rules: seq<Rule>, i: nat, s: seq<TreeInfo>, maxTreeCnt: nat) {
    i < |rules| && Loaded(s, rules[..i]) && |s| == maxTreeCnt && NoneTakes(s, rules[i])
  }

  // Loading fails only at a rule that every tree refuses, and never with a tree for each rule.
  method LoadTrees(rules: seq<Rule>, maxTreeCnt: nat) returns (ok: bool, cls: PartitionSortClassifier)
    requires WildLast(rules) && forall i :: 0 <= i < |rules| ==> Usable(rules[i])
    ensures fresh(cls.Repr()) && cls.Valid()
    ensures ok ==> cls.inserted == rules && Loaded(cls.InUse(), rules)
    ensures !ok ==> exists i :: Full(rules, i, cls.InUse(), maxTreeCnt)
    ensures maxTreeCnt >= |rules| ==> ok
  {
    hide Usable, Sound, WildLast, Stays, Step, Loaded, NoneTakes, Collides, IsOrder, PartitionSortClassifier.Valid;
    ok := true;
    var pool := new NodePool();
    cls := new PartitionSortClassifier(pool, maxTreeCnt);
    LoadedNone();
    cls.Counted();
    for i := 0 to |rules|
      invariant fresh(cls.Repr()) && cls.Valid() && cls.inserted == rules[..i]
      invariant cls.treeCnt <= i && cls.treeCnt <= cls.trees.Length == maxTreeCnt
      invariant Loaded(cls.InUse(), rules[..i])
    {
      assert rules[..i + 1] == rules[..i] + [rules[i]];
      ghost var s := cls.InUse();
      cls.Counted();
      AllStay(cls.InUse(), rules, i);
      ok := cls.Insert(rules[i]);
      if !ok {
        assert Full(rules, i, cls.InUse(), maxTreeCnt);
        return;
      }
      cls.Counted();
      LoadedMore(s, cls.InUse(), rules, i);
    }
    assert rules[..|rules|] == rules;
  }

  ghost predicate Answered(s: seq<TreeInfo>, packets: seq<Packet>, answers: seq<Value>) {
    |answers| == |packets| && forall i :: 0 <= i < |packets| ==> BestAnswer(s, packets[i], answers[i])
  }

  method SearchTrees(cls: PartitionSortClassifier, packets: seq<Packet>) returns (ours: seq<Value>)
    requires cls.Valid() && cls.treeCnt <= cls.trees.Length
    requires forall i :: 0 <= i < |packets| ==> ValidPacket(packets[i])
    ensures Answered(cls.InUse(), packets, ours)
    ensures forall i :: 0 <= i < |packets| ==> Found(cls.inserted, packets[i], ours[i])
  {
    hide PartitionSortClassifier.Valid, Monotone, BestMatch, Matched, BestAnswer;
    ours := [];
    ghost var s := cls.InUse();
    for i := 0 to |packets|
      invariant |ours| == i && cls.Valid() && cls.InUse() == s
      invariant forall j :: 0 <= j < i ==> BestAnswer(s, packets[j], ours[j])
      invariant forall j :: 0 <= j < i ==> Found(cls.inserted, packets[j], ours[j])
    {
      var v := cls.Search(packets[i]);
      ours := ours + [v];
    }
  }

  // What a search of the trees promises.
  ghost predicate Found(rules: seq<Rule>, packet: Packet, v: Value) {
    Matched(rules, packet, v) && (Monotone(rules) ==> BestMatch(rules, packet, v))
  }

  method LoadList(rules: seq<Rule>) returns (list: ListBasedClassifier)
    ensures fresh(list) && list.Prepared() && multiset(list.rules) == multiset(rules)
  {
    list := new ListBasedClassifier();
    for i := 0 to |rules|
      invariant fresh(list) && list.rules == rules[..i]
    {
      list.Insert(rules[i]);
    }
    assert rules[..|rules|] == rules;
    list.Prepare();
  }

  method SearchList(list: ListBasedClassifier, packets: seq<Packet>) returns (theirs: seq<Value>)
    requires list.Prepared() && forall r :: r in list.rules ==> |r.filter| == D && r.value.IsValid()
    requires forall i :: 0 <= i < |packets| ==> ValidPacket(packets[i])
    ensures |theirs| == |packets|
    ensures forall i :: 0 <= i < |packets| ==> BestMatch(list.rules, packets[i], theirs[i])
  {
    hide BestMatch;
    theirs := [];
    for i := 0 to |packets|
      invariant |theirs| == i && list.Prepared()
      invariant forall j :: 0 <= j < i ==> BestMatch(list.rules, packets[j], theirs[j])
    {
      var prepared, v := list.Search(packets[i]);
      theirs := theirs + [v];
    }
  }

  // A tree without a field in use holds a rule that restricts none.
  lemma AllStay(s: seq<TreeInfo>, rules: seq<Rule>, i: nat)
    requires WildLast(rules) && i < |rules| && Usable(rules[i]) && Sound(s, rules[..i])
    ensures forall j :: 0 <= j < |s| ==> IsOrder(s[j].order) && Stays(s[j], rules[i])
  {
    hide Serves, Restricts, Collides;
    forall j | 0 <= j < |s|
      ensures IsOrder(s[j].order) && Stays(s[j], rules[i])
    {
      assert s[j] in s;
      if s[j].usedDimCnt == 0 {
        var r :| r in s[j].rules && r.value.priority == s[j].maxPriority;
        assert InSome(s, r);
        var k :| 0 <= k < i && rules[..i][k] == r;
        assert !Restricts(rules[k]);
      }
    }
  }

  /**
   * Searches every packet in both; they find a rule for the same packets, and with the same
   * priority if a refining rule never has the lower one. Loading takes no more trees than rules.
   */
  method CompareWithList(rules: seq<Rule>, packets: seq<Packet>, maxTreeCnt: nat)
    returns (ok: bool, ours: seq<Value>, theirs: seq<Value>)
    requires WildLast(rules) && forall i :: 0 <= i < |rules| ==> Usable(rules[i])
    requires forall i :: 0 <= i < |packets| ==> ValidPacket(packets[i])
    ensures ok ==> |ours| == |theirs| == |packets|
    ensures ok ==> forall i :: 0 <= i < |packets| ==> Compared(rules, packets[i], ours[i], theirs[i])
    ensures ok ==> exists s :: Loaded(s, rules) && Answered(s, packets, ours)
    ensures !ok ==> exists s, i :: Full(rules, i, s, maxTreeCnt)
    ensures maxTreeCnt >= |rules| ==> ok
  {
    hide BestMatch, BestAnswer, Loaded, Full, Found, WildLast, Compared, Usable, PartitionSortClassifier.Valid;
    var cls;
    ok, cls := LoadTrees(rules, maxTreeCnt);
    cls.Counted();
    ours, theirs := [], [];
    if !ok {
      return;
    }
    ours := SearchTrees(cls, packets);
    ghost var s := cls.InUse();
    assert Loaded(s, rules);
    var list := LoadList(rules);
    SameMembers(list.rules, rules);
    AllUsable(list.rules, rules);
    theirs := SearchList(list, packets);
    forall i | 0 <= i < |packets|
      ensures Compared(rules, packets[i], ours[i], theirs[i])
    {
      BothFound(rules, list.rules, packets[i], ours[i], theirs[i]);
    }
  }

  lemma BothFound(rules: seq<Rule>, held: seq<Rule>, packet: Packet, a: Value, b: Value)
    requires forall r :: r in rules <==> r in held
    requires Found(rules, packet, a) && BestMatch(held, packet, b)
    ensures Compared(rules, packet, a, b)
  {
    hide Monotone, FilterMatches;
    if Monotone(rules) {
      BestMatchesAgree(rules, held, packet, a, b);
    }
  }

  lemma SameMembers(a: seq<Rule>, b: seq<Rule>)
    requires multiset(a) == multiset(b)
    ensures forall r :: r in a <==> r in b
  {
    forall r
      ensures r in a <==> r in b
    {
      assert r in multiset(a) <==> r in multiset(b);
    }
  }

  lemma AllUsable(a: seq<Rule>, b: seq<Rule>)
    requires (forall r :: r in a <==> r in b) && forall i :: 0 <= i < |b| ==> Usable(b[i])
    ensures forall r :: r in a ==> |r.filter| == D && r.value.IsValid()
  {
  }
}
