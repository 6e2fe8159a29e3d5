/**
 * A rule on five header fields as seven ranges of 16 bits: fill, rule_to_array_16b and
 * rule_from_array in src/rule_parser/rule.cpp.
 */
module FieldSplit {
  import opened Words

  predicate AtMost16(x: bv16, y: bv16) {
    x <= y
  }

  datatype Range16 = Range16(low: bv16, high: bv16) {
    predicate InRange(val: bv16) {
      AtMost16(low, val) && AtMost16(val, high)
    }
  }

  datatype Rule = Rule(sip: Range32, dip: Range32, sport: Range16, dport: Range16, proto: Range16)

  datatype Packet = Packet(sip: bv32, dip: bv32, sport: bv16, dport: bv16, proto: bv16)

  predicate Matches(r: Rule, p: Packet) {
    && r.sip.InRange(p.sip) && r.dip.InRange(p.dip)
    && r.sport.InRange(p.sport) && r.dport.InRange(p.dport) && r.proto.InRange(p.proto)
  }

  function LowHalf(x: bv32): bv16 {
    (x & 0xffff) as bv16
  }

  function HighHalf(x: bv32): bv16 {
    (x >> 16) as bv16
  }

  function Join(low: bv16, high: bv16): bv32 {
    (high as bv32 << 16) | low as bv32
  }

  lemma JoinHalves(x: bv32)
    ensures Join(LowHalf(x), HighHalf(x)) == x
  {
  }

  lemma HalvesOfJoin(low: bv16, high: bv16)
    ensures LowHalf(Join(low, high)) == low && HighHalf(Join(low, high)) == high
  {
  }

  // The ranges of the two halves.
  function LowRange(r: Range32): Range16 {
    Range16(LowHalf(r.low), LowHalf(r.high))
  }

  function HighRange(r: Range32): Range16 {
    Range16(HighHalf(r.low), HighHalf(r.high))
  }

  predicate HalvesInRange(r: Range32, x: bv32) {
    LowRange(r).InRange(LowHalf(x)) && HighRange(r).InRange(HighHalf(x))
  }

  // The condition under which nothing is lost: one upper half, or all lower halves.
  predicate Splittable(r: Range32) {
    HighHalf(r.low) == HighHalf(r.high) || (LowHalf(r.low) == 0 && LowHalf(r.high) == 0xffff)
  }

  // The order of the numbers is that of the upper halves, then that of the lower ones.
  lemma UpperFirst(x: bv32, y: bv32)
    requires !AtMost16(HighHalf(y), HighHalf(x))
    ensures AtMost(x, y)
  {
  }

  lemma UpperKeepsOrder(x: bv32, y: bv32)
    requires AtMost(x, y)
    ensures AtMost16(HighHalf(x), HighHalf(y))
  {
  }

  lemma LowerThen(x: bv32, y: bv32)
    requires HighHalf(x) == HighHalf(y) && AtMost16(LowHalf(x), LowHalf(y))
    ensures AtMost(x, y)
  {
  }

  lemma LowerKeepsOrder(x: bv32, y: bv32)
    requires HighHalf(x) == HighHalf(y) && AtMost(x, y)
    ensures AtMost16(LowHalf(x), LowHalf(y))
  {
  }

  lemma Ends16(x: bv16)
    ensures AtMost16(0, x) && AtMost16(x, 0xffff)
  {
  }

  lemma SameUpperByte(x: bv16, y: bv16)
    requires AtMost16(x, y) && AtMost16(y, x)
    ensures x & 0xff00 == y & 0xff00
  {
  }

  lemma SameLowerByte(x: bv16, y: bv16)
    requires AtMost16(x, y) && AtMost16(y, x) && x & 0xff00 == y & 0xff00
    ensures x & 0xff == y & 0xff
  {
  }

  lemma BothBytes(x: bv16, y: bv16)
    requires x & 0xff00 == y & 0xff00 && x & 0xff == y & 0xff
    ensures x == y
  {
  }

  lemma Antisymmetric16(x: bv16, y: bv16)
    requires AtMost16(x, y) && AtMost16(y, x)
    ensures x == y
  {
    hide AtMost16;
    SameUpperByte(x, y);
    SameLowerByte(x, y);
    BothBytes(x, y);
  }

  /** Splitting agrees with the range on every number if the range is splittable ... */
  lemma SplitAgrees(r: Range32, x: bv32)
    requires Splittable(r)
    ensures HalvesInRange(r, x) <==> r.InRange(x)
  {
    hide AtMost, AtMost16, LowHalf, HighHalf;
    if HalvesInRange(r, x) {
      HalvesSuffice(r, x);
    }
    if r.InRange(x) {
      UpperKeepsOrder(r.low, x);
      UpperKeepsOrder(x, r.high);
      if HighHalf(r.low) == HighHalf(r.high) {
        Antisymmetric16(HighHalf(r.low), HighHalf(x));
        LowerKeepsOrder(r.low, x);
        LowerKeepsOrder(x, r.high);
      } else {
        Ends16(LowHalf(x));
      }
    }
  }

  lemma HalvesSuffice(r: Range32, x: bv32)
    requires HalvesInRange(r, x)
    ensures r.InRange(x)
  {
    hide AtMost, AtMost16, LowHalf, HighHalf;
    if AtMost16(HighHalf(x), HighHalf(r.low)) {
      Antisymmetric16(HighHalf(r.low), HighHalf(x));
      LowerThen(r.low, x);
    } else {
      UpperFirst(r.low, x);
    }
    if AtMost16(HighHalf(r.high), HighHalf(x)) {
      Antisymmetric16(HighHalf(r.high), HighHalf(x));
      LowerThen(x, r.high);
    } else {
      UpperFirst(x, r.high);
    }
  }

  // A number of the range that its halves miss.
  function Lost(r: Range32): bv32 {
    if LowHalf(r.low) != 0 then Join(0, HighHalf(r.high)) else Join(0xffff, HighHalf(r.low))
  }

  /** ... and misses some number of it if it is not. */
  lemma SplitMisses(r: Range32)
    requires AtMost(r.low, r.high) && !Splittable(r)
    ensures r.InRange(Lost(r)) && !HalvesInRange(r, Lost(r))
  {
    hide AtMost, AtMost16, LowHalf, HighHalf, Join;
    var x := Lost(r);
    HalvesOfJoin(0, HighHalf(r.high));
    HalvesOfJoin(0xffff, HighHalf(r.low));
    UpperKeepsOrder(r.low, r.high);
    if AtMost16(HighHalf(r.high), HighHalf(r.low)) {
      Antisymmetric16(HighHalf(r.low), HighHalf(r.high));
    }
    Ends16(LowHalf(r.high));
    Ends16(LowHalf(r.low));
    if LowHalf(r.low) != 0 {
      UpperFirst(r.low, x);
      LowerThen(x, r.high);
      if AtMost16(LowHalf(r.low), 0) {
        Antisymmetric16(LowHalf(r.low), 0);
      }
    } else {
      UpperFirst(x, r.high);
      LowerThen(r.low, x);
      if AtMost16(0xffff, LowHalf(r.high)) {
        Antisymmetric16(0xffff, LowHalf(r.high));
      }
    }
  }

  /** Every prefix range is splittable. */
  lemma PrefixIsSplittable(addr: bv32, n: nat)
    requires n <= 32
    ensures Splittable(PrefixRange(addr, n))
  {
    hide PrefixMask, IsPrefixMask, Clear, Fill, Splittable;
    PrefixMaskIs(n);
    MaskIsSplittable(addr, PrefixMask(n));
  }

  lemma MaskIsSplittable(addr: bv32, m: bv32)
    requires IsPrefixMask(m)
    ensures Splittable(Range32(Clear(addr, m), Fill(addr, m)))
  {
    if m & 0xffff == 0 {
      assert LowHalf(Clear(addr, m)) == 0;
      assert LowHalf(Fill(addr, m)) == 0xffff;
    } else {
      assert m >> 16 == 0xffff;
      assert HighHalf(Clear(addr, m)) == HighHalf(addr);
      assert HighHalf(Fill(addr, m)) == HighHalf(addr);
    }
  }

  // The seven fields of a packet, the lower half of an address first.
  function Fields(p: Packet): (f: seq<bv16>)
    ensures |f| == 7
  {
    [LowHalf(p.sip), HighHalf(p.sip), LowHalf(p.dip), HighHalf(p.dip), p.sport, p.dport, p.proto]
  }

  predicate MatchesFields(rs: seq<Range16>, f: seq<bv16>) {
    |rs| == |f| && forall i :: 0 <= i < |f| ==> rs[i].InRange(f[i])
  }

  predicate RuleSplittable(r: Rule) {
    Splittable(r.sip) && Splittable(r.dip)
  }

  // Writes the two halves of a range behind each other.
  method Fill32(dst: array<Range16>, begin: nat, val: Range32) returns (next: nat)
    requires begin + 2 <= dst.Length
    modifies dst
    ensures next == begin + 2
    ensures dst[..] == old(dst[..])[begin := LowRange(val)][begin + 1 := HighRange(val)]
  {
    hide LowHalf, HighHalf;
    next := begin;
    dst[next] := Range16(LowHalf(val.low), LowHalf(val.high));
    next := next + 1;
    dst[next] := Range16(HighHalf(val.low), HighHalf(val.high));
    next := next + 1;
  }

  /** The seven ranges of a rule; they match what the rule matches if it is splittable. */
  method RuleToArray16b(r: Rule) returns (rs: seq<Range16>)
    ensures rs == Split(r)
    ensures RuleSplittable(r) ==> forall p :: MatchesFields(rs, Fields(p)) <==> Matches(r, p)
  {
    hide LowRange, HighRange, MatchesFields, Matches, Fields, RuleSplittable;
    var a := new Range16[7](i => r.sport);
    var p := Fill32(a, 0, r.sip);
    p := Fill32(a, p, r.dip);
    a[4] := r.sport;
    a[5] := r.dport;
    a[6] := r.proto;
    rs := a[..];
    assert rs == Split(r);
    if RuleSplittable(r) {
      forall p ensures MatchesFields(rs, Fields(p)) <==> Matches(r, p) {
        SplitMatches(r, p);
      }
    }
  }

  function Split(r: Rule): (rs: seq<Range16>)
    ensures |rs| == 7
  {
    [LowRange(r.sip), HighRange(r.sip), LowRange(r.dip), HighRange(r.dip), r.sport, r.dport, r.proto]
  }

  lemma MatchesFieldsIs(r: Rule, p: Packet)
    ensures MatchesFields(Split(r), Fields(p)) <==>
      && HalvesInRange(r.sip, p.sip) && HalvesInRange(r.dip, p.dip)
      && r.sport.InRange(p.sport) && r.dport.InRange(p.dport) && r.proto.InRange(p.proto)
  {
    hide AtMost16, LowHalf, HighHalf;
    var rs, f := Split(r), Fields(p);
    assert MatchesFields(rs, f) <==>
      && rs[0].InRange(f[0]) && rs[1].InRange(f[1]) && rs[2].InRange(f[2]) && rs[3].InRange(f[3])
      && rs[4].InRange(f[4]) && rs[5].InRange(f[5]) && rs[6].InRange(f[6]);
  }

  lemma SplitMatches(r: Rule, p: Packet)
    requires RuleSplittable(r)
    ensures MatchesFields(Split(r), Fields(p)) <==> Matches(r, p)
  {
    hide AtMost, AtMost16, Splittable, HalvesInRange, MatchesFields;
    MatchesFieldsIs(r, p);
    SplitAgrees(r.sip, p.sip);
    SplitAgrees(r.dip, p.dip);
  }

  // The ends of every range in order, as the program's constructor asserts.
  predicate Ordered(r: Rule) {
    && AtMost(r.sip.low, r.sip.high) && AtMost(r.dip.low, r.dip.high)
    && AtMost16(r.sport.low, r.sport.high) && AtMost16(r.dport.low, r.dport.high)
    && AtMost16(r.proto.low, r.proto.high)
  }

  /** The seven ranges match exactly what the rule matches, if and only if it is splittable. */
  lemma SplitIsExactWhen(r: Rule)
    requires Ordered(r)
    ensures (forall p :: MatchesFields(Split(r), Fields(p)) <==> Matches(r, p)) <==> RuleSplittable(r)
  {
    hide AtMost, AtMost16, Splittable, HalvesInRange, MatchesFields, Fields, Split, Lost;
    if RuleSplittable(r) {
      forall p ensures MatchesFields(Split(r), Fields(p)) <==> Matches(r, p) {
        SplitMatches(r, p);
      }
    } else {
      var p := Packet(if Splittable(r.sip) then r.sip.low else Lost(r.sip),
                      if Splittable(r.dip) then r.dip.low else Lost(r.dip),
                      r.sport.low, r.dport.low, r.proto.low);
      LowestMatches(r);
      if !Splittable(r.sip) {
        SplitMisses(r.sip);
      }
      if !Splittable(r.dip) {
        SplitMisses(r.dip);
      }
      MatchesFieldsIs(r, p);
      assert Matches(r, p) && !MatchesFields(Split(r), Fields(p));
    }
  }

  lemma LowestMatches(r: Rule)
    requires Ordered(r)
    ensures Matches(r, Packet(r.sip.low, r.dip.low, r.sport.low, r.dport.low, r.proto.low))
  {
    hide AtMost, AtMost16;
    Total(r.sip.low, r.sip.low);
    Total(r.dip.low, r.dip.low);
    Reflexive16(r.sport.low);
    Reflexive16(r.dport.low);
    Reflexive16(r.proto.low);
  }

  lemma Reflexive16(x: bv16)
    ensures AtMost16(x, x)
  {
  }

  // Takes two ranges off the array and puts them together again.
  method Pop32(src: seq<Range16>, i: nat) returns (range: Range32, next: nat)
    requires i + 2 <= |src|
    ensures next == i + 2
    ensures range == Range32(Join(src[i].low, src[i + 1].low), Join(src[i].high, src[i + 1].high))
  {
    range := Range32(Join(src[i].low, src[i + 1].low), Join(src[i].high, src[i + 1].high));
    next := i + 2;
  }

  method RuleFromArray(arr: seq<Range16>) returns (r: Rule)
    requires |arr| == 7
    ensures Split(r) == arr
  {
    hide Join, LowHalf, HighHalf;
    var i: nat := 0;
    var sip, dip;
    sip, i := Pop32(arr, i);
    dip, i := Pop32(arr, i);
    r := Rule(sip, dip, arr[i], arr[i + 1], arr[i + 2]);
    HalvesOfJoin(arr[0].low, arr[1].low);
    HalvesOfJoin(arr[0].high, arr[1].high);
    HalvesOfJoin(arr[2].low, arr[3].low);
    HalvesOfJoin(arr[2].high, arr[3].high);
  }

  lemma SplitIsInjective(a: Rule, b: Rule)
    requires Split(a) == Split(b)
    ensures a == b
  {
    hide Join, LowHalf, HighHalf;
    assert forall i :: 0 <= i < 7 ==> Split(a)[i] == Split(b)[i];
    assert Split(a)[0] == Split(b)[0] && Split(a)[1] == Split(b)[1] && Split(a)[2] == Split(b)[2];
    assert Split(a)[3] == Split(b)[3] && Split(a)[4] == Split(b)[4] && Split(a)[5] == Split(b)[5];
    assert Split(a)[6] == Split(b)[6];
    JoinHalves(a.sip.low);
    JoinHalves(b.sip.low);
    JoinHalves(a.sip.high);
    JoinHalves(b.sip.high);
    JoinHalves(a.dip.low);
    JoinHalves(b.dip.low);
    JoinHalves(a.dip.high);
    JoinHalves(b.dip.high);
  }

  /** Splitting a rule and putting it together again gives the rule back, whatever its ranges. */
  method SplitAndJoin(r: Rule) returns (back: Rule)
    ensures back == r
  {
    hide Split, MatchesFields, Matches, Fields;
    var arr := RuleToArray16b(r);
    back := RuleFromArray(arr);
    SplitIsInjective(r, back);
  }
}
