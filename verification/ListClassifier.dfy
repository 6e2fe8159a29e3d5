/** The linear list classifier, the specification that the others are measured by (ListBasedClassifier). */
module ListClassifier {
  import opened Items
  import opened Nodes
  import opened Sorting
  import opened RuleSpecs

  // v is the value of a matching rule with the greatest priority, or invalid if none matches.
  ghost predicate BestMatch(rules: seq<Rule>, packet: Packet, v: Value) {
    if v.IsValid() then
      && (exists r :: r in rules && FilterMatches(r.filter, packet) && r.value == v)
      && (forall r :: r in rules && FilterMatches(r.filter, packet) ==> r.value.priority <= v.priority)
    else
      forall r :: r in rules ==> !FilterMatches(r.filter, packet)
  }

  // v is the value of the first rule that matches, or invalid if none does.
  ghost predicate FirstMatch(rules: seq<Rule>, packet: Packet, v: Value) {
    if v.IsValid() then
      exists k :: 0 <= k < |rules| && FilterMatches(rules[k].filter, packet) && rules[k].value == v
                  && forall j :: 0 <= j < k ==> !FilterMatches(rules[j].filter, packet)
    else
      v == NO_VALUE && forall k :: 0 <= k < |rules| ==> !FilterMatches(rules[k].filter, packet)
  }

  // Any two best matches find a rule together, and then with the same priority.
  lemma BestMatchesAgree(a: seq<Rule>, b: seq<Rule>, packet: Packet, v: Value, w: Value)
    requires forall r :: r in a <==> r in b
    requires BestMatch(a, packet, v) && BestMatch(b, packet, w)
    ensures v.IsValid() == w.IsValid()
    ensures v.IsValid() ==> v.priority == w.priority
  {
  }

  class ListBasedClassifier {
    var rules: seq<Rule>
    var sorted: bool

    constructor ()
      ensures rules == [] && sorted
    {
      rules := [];
      sorted := true;
    }

    ghost predicate Prepared()
      reads this
    {
      sorted && forall i, j :: 0 <= i < j < |rules| ==> rules[i].value.priority >= rules[j].value.priority
    }

    method Insert(r: Rule)
      modifies this
      ensures rules == old(rules) + [r] && !sorted
    {
      rules := rules + [r];
      sorted := false;
    }

    method Prepare()
      modifies this
      ensures Prepared() && multiset(rules) == multiset(old(rules))
    {
      var less := (x: Rule, y: Rule) => x.value.priority > y.value.priority;
      SortedByIs(rules, less);
      ghost var s := SortedBy(rules, less);
      rules := SortedBy(rules, less);
      forall i, j | 0 <= i < j < |rules|
        ensures rules[i].value.priority >= rules[j].value.priority
      {
        assert !less(s[j], s[i]);
      }
      sorted := true;
    }

    // The value of the first rule that matches; the program throws when the list is not prepared.
    method Search(packet: Packet) returns (ok: bool, v: Value)
      requires ValidPacket(packet) && (sorted ==> Prepared())
      requires forall r :: r in rules ==> |r.filter| == D && r.value.IsValid()
      ensures ok == sorted && (ok ==> BestMatch(rules, packet, v) && FirstMatch(rules, packet, v))
      ensures !ok ==> v == NO_VALUE
    {
      if !sorted {
        return false, NO_VALUE;
      }
      for k := 0 to |rules|
        invariant forall j :: 0 <= j < k ==> !FilterMatches(rules[j].filter, packet)
      {
        var match_ := true;
        var i := 0;
        while i < D
          invariant 0 <= i <= D && match_
          invariant forall d :: 0 <= d < i ==> rules[k].filter[d].InRange(packet[d])
        {
          if !rules[k].filter[i].InRange(packet[i]) {
            match_ := false;
            break;
          }
          i := i + 1;
        }
        if match_ {
          return true, rules[k].value;
        }
      }
      return true, NO_VALUE;
    }
  }
}
