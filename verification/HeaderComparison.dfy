/** The comparison of both classifiers on header fields, as the program's verification runs it. */
module HeaderComparison {
  import opened Ranges
  import opened Items
  import opened Nodes
  import opened RuleSpecs
  import opened ListClassifier
  import opened TreeAnswers
  import opened ClassifierComparison
  import opened SplitRules
  import F = FieldSplit
  import P = RulePriority

  // What is loaded for a header rule: its number is its place in the rule set.
  ghost function Encoded(r: F.Rule, id: nat): Rule {
    Rule(Filter(r), Value(P.PrefixBits(r), id))
  }

  ghost predicate AllEncoded(rules: seq<Rule>, headers: seq<F.Rule>) {
    |rules| == |headers| && forall i :: 0 <= i < |headers| ==> rules[i] == Encoded(headers[i], i)
  }

  ghost function Encoding(headers: seq<F.Rule>): seq<Rule> {
    seq(|headers|, i requires 0 <= i < |headers| => Encoded(headers[i], i))
  }

  function AllFields(packets: seq<F.Packet>): (fields: seq<Packet>)
    ensures |fields| == |packets| && forall i :: 0 <= i < |packets| ==> fields[i] == PacketFields(packets[i])
  {
    seq(|packets|, i requires 0 <= i < |packets| => PacketFields(packets[i]))
  }

  // A matching header rule that fixes the most bits, or none if none matches.
  ghost predicate BestHeader(headers: seq<F.Rule>, p: F.Packet, v: Value) {
    if v.IsValid() then
      && v.ruleId < |headers| && F.Matches(headers[v.ruleId], p) && v.priority == P.PrefixBits(headers[v.ruleId])
      && forall i :: 0 <= i < |headers| && F.Matches(headers[i], p) ==> P.PrefixBits(headers[i]) <= v.priority
    else
      forall i :: 0 <= i < |headers| ==> !F.Matches(headers[i], p)
  }

  ghost predicate Loadable(headers: seq<F.Rule>) {
    && |headers| <= INVALID_RULE
    && (forall i :: 0 <= i < |headers| ==> F.Ordered(headers[i]) && F.RuleSplittable(headers[i]))
    && (forall i, j :: 0 <= i < j < |headers| && headers[i] == EVERYTHING ==> headers[j] == EVERYTHING)
  }

  lemma EncodedRestricts(r: F.Rule, id: nat)
    requires KEY_MAX == 0xffff
    ensures Restricts(Encoded(r, id)) <==> r != EVERYTHING
  {
    hide Filter, P.PrefixBits, EVERYTHING;
    WildIsEverything(r);
  }

  lemma EncodedUsable(rules: seq<Rule>, headers: seq<F.Rule>)
    requires D == 7 && KEY_MAX == 0xffff && AllEncoded(rules, headers) && Loadable(headers)
    ensures WildLast(rules) && Monotone(rules) && forall i :: 0 <= i < |rules| ==> Usable(rules[i])
  {
    hide Filter, P.PrefixBits, EVERYTHING, Restricts, Monotone, F.Ordered, F.RuleSplittable;
    forall i | 0 <= i < |rules|
      ensures Usable(rules[i]) && (Restricts(rules[i]) <==> headers[i] != EVERYTHING)
    {
      FilterValid(headers[i]);
      EncodedRestricts(headers[i], i);
    }
    PrefixPrioritiesAreMonotone(rules, headers);
  }

  lemma PacketFits(p: F.Packet)
    requires D == 7 && KEY_MAX == 0xffff
    ensures ValidPacket(PacketFields(p))
  {
    hide PacketFields;
    PacketValid(p);
  }

  lemma BestAsHeader(rules: seq<Rule>, headers: seq<F.Rule>, p: F.Packet, v: Value)
    requires AllEncoded(rules, headers) && Loadable(headers) && BestMatch(rules, PacketFields(p), v)
    ensures BestHeader(headers, p, v)
  {
    hide Filter, P.PrefixBits, PacketFields, FilterMatches, F.Matches, EVERYTHING, F.Ordered, F.RuleSplittable;
    forall i | 0 <= i < |headers|
      ensures rules[i] in rules && (FilterMatches(rules[i].filter, PacketFields(p)) <==> F.Matches(headers[i], p))
    {
      FilterIsExact(headers[i], p);
    }
  }

  // Where no two matching rules fix equally many bits, both found the same rule.
  lemma SameHeader(headers: seq<F.Rule>, p: F.Packet, v: Value, w: Value)
    requires BestHeader(headers, p, v) && BestHeader(headers, p, w) && v.IsValid()
    requires forall i, j :: 0 <= i < j < |headers| && F.Matches(headers[i], p) && F.Matches(headers[j], p) ==>
               P.PrefixBits(headers[i]) != P.PrefixBits(headers[j])
    ensures v == w
  {
  }

  method Encode(headers: seq<F.Rule>) returns (rules: seq<Rule>)
    ensures AllEncoded(rules, headers)
  {
    hide P.PrefixBits, F.Split, FieldRange;
    rules := [];
    for i := 0 to |headers|
      invariant |rules| == i && forall j :: 0 <= j < i ==> rules[j] == Encoded(headers[j], j)
    {
      var rs := F.RuleToArray16b(headers[i]);
      var priority := P.CummulativePrefixLen(headers[i]);
      var filter := seq(7, k requires 0 <= k < 7 => FieldRange(rs[k]));
      assert filter == Filter(headers[i]);
      rules := rules + [Rule(filter, Value(priority, i))];
    }
  }

  /**
   * Loads header rules that can be split, and searches header packets in both classifiers:
   * both find, for every packet, a matching rule that fixes the most bits, if any matches.
   */
  method CompareHeaders(headers: seq<F.Rule>, packets: seq<F.Packet>, maxTreeCnt: nat)
    returns (ok: bool, ours: seq<Value>, theirs: seq<Value>)
    requires D == 7 && KEY_MAX == 0xffff && Loadable(headers)
    ensures ok ==> |ours| == |theirs| == |packets|
    ensures ok ==> forall i :: 0 <= i < |packets| ==>
              && BestHeader(headers, packets[i], ours[i]) && BestHeader(headers, packets[i], theirs[i])
              && Agree(ours[i], theirs[i])
    ensures ok ==> exists s :: Loaded(s, Encoding(headers)) && Answered(s, AllFields(packets), ours)
    ensures !ok ==> exists s, i :: Full(Encoding(headers), i, s, maxTreeCnt)
    ensures maxTreeCnt >= |headers| ==> ok
  {
    hide Answered, Loaded, Full, Loadable, BestHeader, BestMatch, WildLast, Monotone, Usable, PacketFields, Encoded;
    var rules := Encode(headers);
    EncodedUsable(rules, headers);
    assert rules == Encoding(headers);
    var fields := AllFields(packets);
    forall i | 0 <= i < |packets|
      ensures ValidPacket(fields[i])
    {
      PacketFits(packets[i]);
    }
    ok, ours, theirs := CompareWithList(rules, fields, maxTreeCnt);
    if ok {
      forall i | 0 <= i < |packets|
        ensures BestHeader(headers, packets[i], ours[i]) && BestHeader(headers, packets[i], theirs[i])
        ensures Agree(ours[i], theirs[i])
      {
        assert Compared(rules, fields[i], ours[i], theirs[i]);
        BestAsHeader(rules, headers, packets[i], ours[i]);
        BestAsHeader(rules, headers, packets[i], theirs[i]);
      }
    }
  }
}
