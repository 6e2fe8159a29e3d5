/** Rules over all packet fields, and how a dimension order turns them into paths. */
module RuleSpecs {
  import opened Ranges
  import opened Items
  import opened Nodes
  import opened Tries

  datatype Rule = Rule(filter: seq<Range>, value: Value)

  type Packet = seq<nat>

  const ANY := Range(0, KEY_MAX)

  ghost predicate ValidRule(r: Rule) {
    |r.filter| == D && ValidPath(r.filter)
  }

  ghost predicate ValidPacket(p: Packet) {
    |p| == D && forall i :: 0 <= i < D ==> p[i] <= KEY_MAX
  }

  // A permutation of the fields.
  ghost predicate IsOrder(order: Order) {
    && |order| == D
    && (forall i :: 0 <= i < D ==> order[i] < D)
    && Distinct(order)
  }

  ghost predicate FilterMatches(filter: seq<Range>, p: Packet) {
    |filter| == |p| && forall d :: 0 <= d < |p| ==> filter[d].InRange(p[d])
  }

  // The ranges of a rule, and the fields of a packet, in the order of the levels.
  function InOrder<A>(order: Order, s: seq<A>): (r: seq<A>)
    requires IsOrder(order) && |s| == D
    ensures |r| == D
    ensures forall i :: 0 <= i < D ==> r[i] == s[order[i]]
  {
    seq(D, i requires 0 <= i < D => s[order[i]])
  }

  // Levels needed for a rule: up to the last restricted field, and at least one.
  function Required(ks: Path): (n: nat)
    ensures 1 <= n && (ks != [] ==> n <= |ks|)
    ensures forall i :: n <= i < |ks| ==> ks[i].IsWildcard()
    ensures n > 1 ==> n <= |ks| && !ks[n - 1].IsWildcard()
  {
    if |ks| <= 1 then 1
    else if !ks[|ks| - 1].IsWildcard() then |ks|
    else Required(ks[..|ks| - 1])
  }

  // Levels that rules take which restrict the first so many fields of an order only.
  function Levels(used: nat): (n: nat)
    ensures n >= 1 && n >= used
  {
    if used == 0 then 1 else used
  }

  // The levels at which an insert leaves a rule: where its search path ends, but at
  // least as many as it needs.
  function PathLen(t: Trie, ks: Path): (n: nat)
    requires ks != []
    ensures 1 <= n <= |ks|
  {
    var m, r := MatchLen(t, ks), Required(ks);
    if m < r then r else m
  }

  /** The state of one insertion (InsertCookie); it is advanced level by level. */
  datatype InsertCookie = InsertCookie(order: Order, rule: Rule, requiresLevels: nat, level: nat) {
    ghost predicate Valid() {
      && IsOrder(order) && ValidRule(rule)
      && requiresLevels == Required(InOrder(order, rule.filter))
      && level < D
    }

    ghost function Keys(): (ks: Path)
      requires Valid()
      ensures |ks| == D && ValidPath(ks)
    {
      InOrder(order, rule.filter)
    }

    // The ranges of the levels that are still to be inserted.
    ghost function Rest(): Path
      requires Valid() && level <= requiresLevels
    {
      Keys()[level..requiresLevels]
    }

    function ActualKey(): (k: Range)
      requires Valid()
      ensures k == Keys()[level] && k.Valid()
    {
      rule.filter[order[level]]
    }

    function AdditionalLevels(): nat
      requires level < requiresLevels
    {
      requiresLevels - level - 1
    }

    predicate RequiresMoreLevels() {
      level + 1 < requiresLevels
    }

    function NextLevel(): InsertCookie {
      this.(level := level + 1)
    }
  }

  method TotalLevelsRequired(order: Order, rule: Rule) returns (n: nat)
    requires IsOrder(order) && ValidRule(rule)
    ensures n == Required(InOrder(order, rule.filter))
  {
    hide Required;
    ghost var ks := InOrder(order, rule.filter);
    var i := |order| - 1;
    RequiredIs(ks, D);
    while i >= 0
      invariant -1 <= i < D
      invariant forall j :: i < j < D ==> ks[j].IsWildcard()
    {
      var d := order[i];
      if !rule.filter[d].IsWildcard() {
        RequiredIs(ks, i + 1);
        return i + 1;
      }
      i := i - 1;
    }
    RequiredIs(ks, 0);
    return 1;
  }

  // The number of levels: behind the last restricted one, and at least one.
  lemma {:induction false} RequiredIs(ks: Path, n: nat)
    requires n <= |ks| && forall j :: n <= j < |ks| ==> ks[j].IsWildcard()
    ensures n > 0 && !ks[n - 1].IsWildcard() ==> Required(ks) == n
    ensures n == 0 ==> Required(ks) == 1
  {
    hide Required;
    var r := Required(ks);
    if r > 1 {
      assert !ks[r - 1].IsWildcard();
    }
  }

  method NewCookie(order: Order, rule: Rule) returns (c: InsertCookie)
    requires IsOrder(order) && ValidRule(rule)
    ensures c.Valid() && c.order == order && c.rule == rule && c.level == 0
  {
    var n := TotalLevelsRequired(order, rule);
    c := InsertCookie(order, rule, n, 0);
  }
}
