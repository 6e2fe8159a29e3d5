/**
 * The seven 16-bit ranges of a rule as the fields of the classifier: what the header fields
 * of a rule guarantee about them.
 */
module SplitRules {
  import opened Ranges
  import opened Words
  import F = FieldSplit
  import P = RulePriority
  import R = RuleSpecs
  import A = TreeAnswers

  // ---------- numbers of 16 bits as field values ----------

  function UpperByte(x: bv16): bv8 {
    (x >> 8) as bv8
  }

  function LowerByte(x: bv16): bv8 {
    (x & 0xff) as bv8
  }

  function ByteValue(b: bv8): nat {
    b as nat
  }

  function FieldValue(x: bv16): nat {
    256 * ByteValue(UpperByte(x)) + ByteValue(LowerByte(x))
  }

  predicate AtMost8(a: bv8, b: bv8) {
    a <= b
  }

  lemma ByteSmall(b: bv8)
    ensures ByteValue(b) <= 255
  {
  }

  lemma ByteKeepsOrder(a: bv8, b: bv8)
    requires AtMost8(a, b)
    ensures ByteValue(a) <= ByteValue(b)
  {
  }

  lemma ByteReflectsOrder(a: bv8, b: bv8)
    requires ByteValue(a) <= ByteValue(b)
    ensures AtMost8(a, b)
  {
  }

  lemma SameByteValue(a: bv8, b: bv8)
    requires ByteValue(a) == ByteValue(b)
    ensures a == b
  {
  }

  lemma UpperByteKeepsOrder(x: bv16, y: bv16)
    requires F.AtMost16(x, y)
    ensures AtMost8(UpperByte(x), UpperByte(y))
  {
  }

  lemma LowerByteKeepsOrder(x: bv16, y: bv16)
    requires F.AtMost16(x, y) && UpperByte(x) == UpperByte(y)
    ensures AtMost8(LowerByte(x), LowerByte(y))
  {
  }

  lemma UpperByteFirst(x: bv16, y: bv16)
    requires !AtMost8(UpperByte(y), UpperByte(x))
    ensures F.AtMost16(x, y)
  {
  }

  lemma LowerByteThen(x: bv16, y: bv16)
    requires UpperByte(x) == UpperByte(y) && AtMost8(LowerByte(x), LowerByte(y))
    ensures F.AtMost16(x, y)
  {
  }

  /** Field values are in the order of the numbers. */
  lemma FieldValueOrder(x: bv16, y: bv16)
    ensures F.AtMost16(x, y) <==> FieldValue(x) <= FieldValue(y)
    ensures FieldValue(x) <= 0xffff
  {
    hide F.AtMost16, AtMost8, UpperByte, LowerByte, ByteValue;
    var a, b, c, d := UpperByte(x), UpperByte(y), LowerByte(x), LowerByte(y);
    ByteSmall(a);
    ByteSmall(b);
    ByteSmall(c);
    ByteSmall(d);
    if F.AtMost16(x, y) {
      UpperByteKeepsOrder(x, y);
      ByteKeepsOrder(a, b);
      if ByteValue(a) == ByteValue(b) {
        SameByteValue(a, b);
        LowerByteKeepsOrder(x, y);
        ByteKeepsOrder(c, d);
      }
    }
    if FieldValue(x) <= FieldValue(y) {
      if ByteValue(a) < ByteValue(b) {
        if AtMost8(b, a) {
          ByteKeepsOrder(b, a);
        }
        UpperByteFirst(x, y);
      } else {
        SameByteValue(a, b);
        ByteReflectsOrder(c, d);
        LowerByteThen(x, y);
      }
    }
  }

  function FieldRange(r: F.Range16): Range {
    Range(FieldValue(r.low), FieldValue(r.high))
  }

  function Filter(r: F.Rule): (f: seq<Range>)
    ensures |f| == 7
  {
    var rs := F.Split(r);
    seq(7, i requires 0 <= i < 7 => FieldRange(rs[i]))
  }

  // ---------- packets ----------

  function PacketFields(p: F.Packet): (f: seq<nat>)
    ensures |f| == 7
  {
    var fs := F.Fields(p);
    seq(7, i requires 0 <= i < 7 => FieldValue(fs[i]))
  }

  lemma FieldInRange(r: F.Range16, x: bv16)
    ensures FieldRange(r).InRange(FieldValue(x)) <==> r.InRange(x)
  {
    hide F.AtMost16, FieldValue;
    FieldValueOrder(r.low, x);
    FieldValueOrder(x, r.high);
  }

  /** The classifier's rule matches a packet's fields exactly if the header rule matches the packet. */
  lemma FilterIsExact(r: F.Rule, p: F.Packet)
    requires F.RuleSplittable(r)
    ensures R.FilterMatches(Filter(r), PacketFields(p)) <==> F.Matches(r, p)
  {
    hide F.AtMost16, FieldValue, FieldRange, F.Splittable, F.Matches, F.Fields, F.Split;
    var rs, f := F.Split(r), F.Fields(p);
    forall i | 0 <= i < 7
      ensures Filter(r)[i].InRange(PacketFields(p)[i]) <==> rs[i].InRange(f[i])
    {
      FieldInRange(rs[i], f[i]);
    }
    F.SplitMatches(r, p);
  }

  lemma FieldValid(r: F.Range16)
    requires F.AtMost16(r.low, r.high) && KEY_MAX == 0xffff
    ensures FieldRange(r).Valid()
  {
    hide F.AtMost16, FieldValue;
    FieldValueOrder(r.low, r.high);
    FieldValueOrder(r.high, r.high);
  }

  lemma FilterValid(r: F.Rule)
    requires F.Ordered(r) && F.RuleSplittable(r) && KEY_MAX == 0xffff
    ensures forall i :: 0 <= i < 7 ==> Filter(r)[i].Valid()
  {
    hide F.AtMost16, AtMost, FieldRange, F.LowRange, F.HighRange, F.Splittable, Range.Valid;
    HalvesInOrder(r.sip);
    HalvesInOrder(r.dip);
    FieldValid(F.LowRange(r.sip));
    FieldValid(F.HighRange(r.sip));
    FieldValid(F.LowRange(r.dip));
    FieldValid(F.HighRange(r.dip));
    FieldValid(r.sport);
    FieldValid(r.dport);
    FieldValid(r.proto);
  }

  lemma PacketValid(p: F.Packet)
    ensures forall i :: 0 <= i < 7 ==> PacketFields(p)[i] <= 0xffff
  {
    hide FieldValue, F.Fields;
    forall i | 0 <= i < 7
      ensures PacketFields(p)[i] <= 0xffff
    {
      FieldValueOrder(F.Fields(p)[i], F.Fields(p)[i]);
    }
  }

  const ALL16 := F.Range16(0, 0xffff)
  // The rule that matches every packet.
  const EVERYTHING :=
    F.Rule(Range32(0, 0xffff_ffff), Range32(0, 0xffff_ffff), ALL16, ALL16, ALL16)

  lemma WholeField(r: F.Range16)
    requires KEY_MAX == 0xffff && FieldRange(r).IsWildcard()
    ensures r == ALL16
  {
    hide F.AtMost16, FieldValue;
    EndValues();
    FieldValueOrder(r.low, 0);
    FieldValueOrder(0xffff, r.high);
    F.Ends16(r.low);
    F.Ends16(r.high);
    F.Antisymmetric16(r.low, 0);
    F.Antisymmetric16(r.high, 0xffff);
  }

  lemma EndValues()
    ensures FieldValue(0) == 0 && FieldValue(0xffff) == 0xffff
  {
  }

  lemma EverythingSplit()
    ensures F.Split(EVERYTHING) == [ALL16, ALL16, ALL16, ALL16, ALL16, ALL16, ALL16]
  {
  }

  /** Only that rule restricts no field. */
  lemma WildIsEverything(r: F.Rule)
    requires KEY_MAX == 0xffff
    ensures (forall i :: 0 <= i < 7 ==> Filter(r)[i].IsWildcard()) <==> r == EVERYTHING
  {
    hide FieldValue, F.Split, Range.IsWildcard;
    EverythingSplit();
    EndValues();
    var rs := F.Split(r);
    if forall i :: 0 <= i < 7 ==> Filter(r)[i].IsWildcard() {
      forall i | 0 <= i < 7
        ensures rs[i] == ALL16
      {
        assert Filter(r)[i].IsWildcard();
        WholeField(rs[i]);
      }
      F.SplitIsInjective(r, EVERYTHING);
    }
    WholeIsWild();
  }

  lemma WholeIsWild()
    requires KEY_MAX == 0xffff
    ensures FieldRange(ALL16).IsWildcard()
  {
    hide FieldValue;
    EndValues();
  }

  /** It fixes no bit. */
  lemma EverythingFixesNone()
    ensures P.PrefixBits(EVERYTHING) == 0
  {
    hide P.PrefixBits, P.Fixes32, P.Fixes16, PrefixRange;
    WholeIsPrefix();
    P.PrefixFixes(0, 0);
    P.WholeFixesNone();
    P.PrefixBitsIs(EVERYTHING, 0, 0, 0, 0, 0);
  }

  lemma WholeIsPrefix()
    ensures PrefixRange(0, 0) == Range32(0, 0xffff_ffff)
  {
  }

  // ---------- refining and priorities ----------

  lemma FieldInside(a: F.Range16, b: F.Range16)
    requires FieldRange(b).Contains(FieldRange(a)) && F.AtMost16(a.low, a.high)
    ensures P.EndsInside16(a, b)
  {
    hide F.AtMost16, FieldValue;
    FieldValueOrder(a.low, a.high);
    FieldValueOrder(b.low, a.low);
    FieldValueOrder(a.low, b.high);
    FieldValueOrder(b.low, a.high);
    FieldValueOrder(a.high, b.high);
  }

  lemma HalvesInside(a: Range32, b: Range32)
    requires P.EndsInside16(F.LowRange(a), F.LowRange(b)) && P.EndsInside16(F.HighRange(a), F.HighRange(b))
    ensures P.EndsInside(a, b)
  {
    hide F.AtMost16, AtMost, F.LowHalf, F.HighHalf;
    F.HalvesSuffice(b, a.low);
    F.HalvesSuffice(b, a.high);
  }

  lemma HalvesInOrder(r: Range32)
    requires AtMost(r.low, r.high) && F.Splittable(r)
    ensures F.AtMost16(F.LowRange(r).low, F.LowRange(r).high)
    ensures F.AtMost16(F.HighRange(r).low, F.HighRange(r).high)
  {
    hide F.AtMost16, AtMost, F.LowHalf, F.HighHalf;
    F.UpperKeepsOrder(r.low, r.high);
    if F.HighHalf(r.low) == F.HighHalf(r.high) {
      F.LowerKeepsOrder(r.low, r.high);
    } else {
      F.Ends16(0xffff);
    }
  }

  lemma SplitRefines(r: F.Rule, q: F.Rule)
    requires F.Ordered(r) && F.RuleSplittable(r) && A.Refines(Filter(r), Filter(q))
    ensures P.Refines(r, q)
  {
    hide F.AtMost16, AtMost, FieldRange, P.EndsInside, P.EndsInside16, F.LowRange, F.HighRange, F.Splittable;
    HalvesInOrder(r.sip);
    HalvesInOrder(r.dip);
    var f, g := Filter(r), Filter(q);
    assert g[0].Contains(f[0]) && g[1].Contains(f[1]) && g[2].Contains(f[2]) && g[3].Contains(f[3]);
    assert g[4].Contains(f[4]) && g[5].Contains(f[5]) && g[6].Contains(f[6]);
    FieldInside(F.LowRange(r.sip), F.LowRange(q.sip));
    FieldInside(F.HighRange(r.sip), F.HighRange(q.sip));
    FieldInside(F.LowRange(r.dip), F.LowRange(q.dip));
    FieldInside(F.HighRange(r.dip), F.HighRange(q.dip));
    FieldInside(r.sport, q.sport);
    FieldInside(r.dport, q.dport);
    FieldInside(r.proto, q.proto);
    HalvesInside(r.sip, q.sip);
    HalvesInside(r.dip, q.dip);
  }

  // The classifier's rule for a rule on header fields: its priority is the number of
  // leading bits that the rule fixes.
  ghost predicate Represents(c: R.Rule, r: F.Rule) {
    c.filter == Filter(r) && c.value.priority == P.PrefixBits(r) && F.Ordered(r) && F.RuleSplittable(r)
  }

  ghost predicate AllRepresent(rules: seq<R.Rule>, headers: seq<F.Rule>) {
    |rules| == |headers| && forall i :: 0 <= i < |rules| ==> Represents(rules[i], headers[i])
  }

  /** With these priorities a rule set meets what the partition sort classifier asks of it. */
  lemma PrefixPrioritiesAreMonotone(rules: seq<R.Rule>, headers: seq<F.Rule>)
    requires AllRepresent(rules, headers)
    ensures A.Monotone(rules)
  {
    hide Represents, P.Refines, P.PrefixBits, A.Refines;
    forall a, b | a in rules && b in rules && A.Refines(a.filter, b.filter)
      ensures a.value.priority >= b.value.priority
    {
      var i :| 0 <= i < |rules| && rules[i] == a;
      var j :| 0 <= j < |rules| && rules[j] == b;
      RepresentedRefines(a, headers[i], b, headers[j]);
    }
  }

  lemma RepresentedRefines(a: R.Rule, r: F.Rule, b: R.Rule, q: F.Rule)
    requires Represents(a, r) && Represents(b, q) && A.Refines(a.filter, b.filter)
    ensures a.value.priority >= b.value.priority
  {
    hide F.Ordered, F.RuleSplittable, P.PrefixBits, A.Refines, P.Refines;
    SplitRefines(r, q);
    P.RefiningKeepsPriority(r, q);
  }

  // ---------- nested or disjoint fields ----------

  predicate IsMask16(m: bv16) {
    (!m) & (!m + 1) == 0
  }

  function Clear16(x: bv16, m: bv16): bv16 {
    x & m
  }

  function Fill16(x: bv16, m: bv16): bv16 {
    x | !m
  }

  // All numbers with the bits of x under the mask.
  function MaskRange16(x: bv16, m: bv16): F.Range16 {
    F.Range16(Clear16(x, m), Fill16(x, m))
  }

  predicate Shorter16(m: bv16, w: bv16) {
    m & w == m
  }

  lemma OneIsShorter(m: bv16, w: bv16)
    requires IsMask16(m) && IsMask16(w)
    ensures Shorter16(m, w) || Shorter16(w, m)
  {
  }

  lemma ClearKeepsOrder16(x: bv16, y: bv16, m: bv16)
    requires IsMask16(m) && F.AtMost16(x, y)
    ensures F.AtMost16(Clear16(x, m), Clear16(y, m))
  {
  }

  lemma ClearTwice16(x: bv16, m: bv16, w: bv16)
    requires Shorter16(m, w)
    ensures Clear16(Clear16(x, w), m) == Clear16(x, m)
  {
  }

  lemma FillThenClear16(x: bv16, m: bv16, w: bv16)
    requires Shorter16(m, w)
    ensures Clear16(Fill16(x, w), m) == Clear16(x, m)
  {
  }

  lemma SelfShorter16(m: bv16)
    ensures Shorter16(m, m)
  {
  }

  lemma ClearIsLess16(x: bv16, m: bv16)
    ensures F.AtMost16(Clear16(x, m), x)
  {
  }

  lemma FillIsMore16(x: bv16, m: bv16)
    ensures F.AtMost16(x, Fill16(x, m))
  {
  }

  lemma FillOfClear16(x: bv16, y: bv16, m: bv16)
    requires Clear16(x, m) == Clear16(y, m)
    ensures Fill16(x, m) == Fill16(y, m)
  {
  }

  // What a longer mask leaves lies within what a shorter one leaves, for the same bits.
  lemma LongerInside(y: bv16, m: bv16, w: bv16)
    requires Shorter16(m, w)
    ensures F.AtMost16(Clear16(y, m), Clear16(y, w)) && F.AtMost16(Fill16(y, w), Fill16(y, m))
  {
    hide F.AtMost16, Clear16, Fill16, Shorter16;
    ClearTwice16(y, m, w);
    FillThenClear16(y, m, w);
    ClearIsLess16(Clear16(y, w), m);
    FillIsMore16(Fill16(y, w), m);
    FillOfClear16(Fill16(y, w), y, m);
  }

  // Overlapping ranges have the same bits under the shorter mask.
  lemma OverlapShares(x: bv16, m: bv16, y: bv16, w: bv16)
    requires IsMask16(m) && Shorter16(m, w)
    requires F.AtMost16(Clear16(x, m), Fill16(y, w)) && F.AtMost16(Clear16(y, w), Fill16(x, m))
    ensures Clear16(x, m) == Clear16(y, m)
  {
    hide F.AtMost16, Clear16, Fill16, IsMask16, Shorter16;
    SelfShorter16(m);
    ClearTwice16(x, m, m);
    FillThenClear16(x, m, m);
    ClearTwice16(y, m, w);
    FillThenClear16(y, m, w);
    ClearKeepsOrder16(Clear16(x, m), Fill16(y, w), m);
    ClearKeepsOrder16(Clear16(y, w), Fill16(x, m), m);
    F.Antisymmetric16(Clear16(x, m), Clear16(y, m));
  }

  lemma NestByMask(x: bv16, m: bv16, y: bv16, w: bv16)
    requires IsMask16(m) && Shorter16(m, w)
    ensures Nest16(MaskRange16(x, m), MaskRange16(y, w)) && Nest16(MaskRange16(y, w), MaskRange16(x, m))
  {
    hide F.AtMost16, Clear16, Fill16, IsMask16, Shorter16;
    if F.AtMost16(Clear16(x, m), Fill16(y, w)) && F.AtMost16(Clear16(y, w), Fill16(x, m)) {
      OverlapShares(x, m, y, w);
      FillOfClear16(x, y, m);
      LongerInside(y, m, w);
    }
  }

  lemma Masks16Nest(x: bv16, m: bv16, y: bv16, w: bv16)
    requires IsMask16(m) && IsMask16(w)
    ensures Nest16(MaskRange16(x, m), MaskRange16(y, w))
  {
    hide F.AtMost16, MaskRange16, IsMask16, Shorter16;
    OneIsShorter(m, w);
    if Shorter16(m, w) {
      NestByMask(x, m, y, w);
    } else {
      NestByMask(y, w, x, m);
    }
  }

  predicate Nest16(a: F.Range16, b: F.Range16) {
    || (F.AtMost16(b.low, a.low) && F.AtMost16(a.high, b.high))
    || (F.AtMost16(a.low, b.low) && F.AtMost16(b.high, a.high))
    || !F.AtMost16(a.low, b.high) || !F.AtMost16(b.low, a.high)
  }

  lemma NestedFields(a: F.Range16, b: F.Range16)
    requires Nest16(a, b)
    ensures NestedOrDisjoint(FieldRange(a), FieldRange(b))
  {
    hide F.AtMost16, FieldValue;
    FieldValueOrder(b.low, a.low);
    FieldValueOrder(a.high, b.high);
    FieldValueOrder(a.low, b.low);
    FieldValueOrder(b.high, a.high);
    FieldValueOrder(a.low, b.high);
    FieldValueOrder(b.low, a.high);
  }

  lemma LowMask(m: bv32)
    requires IsPrefixMask(m)
    ensures IsMask16(F.LowHalf(m))
  {
  }

  lemma HighMask(m: bv32)
    requires IsPrefixMask(m)
    ensures IsMask16(F.HighHalf(m))
  {
  }

  lemma LowOfMasked(x: bv32, m: bv32)
    ensures F.LowHalf(Clear(x, m)) == Clear16(F.LowHalf(x), F.LowHalf(m))
  {
  }

  lemma LowOfFilled(x: bv32, m: bv32)
    ensures F.LowHalf(Fill(x, m)) == Fill16(F.LowHalf(x), F.LowHalf(m))
  {
  }

  lemma HighOfMasked(x: bv32, m: bv32)
    ensures F.HighHalf(Clear(x, m)) == Clear16(F.HighHalf(x), F.HighHalf(m))
  {
  }

  lemma HighOfFilled(x: bv32, m: bv32)
    ensures F.HighHalf(Fill(x, m)) == Fill16(F.HighHalf(x), F.HighHalf(m))
  {
  }

  // The halves of a prefix range are ranges of the same kind.
  lemma PrefixHalves(x: bv32, n: nat)
    requires n <= 32
    ensures var (r, m) := (PrefixRange(x, n), PrefixMask(n));
            && F.LowRange(r) == MaskRange16(F.LowHalf(x), F.LowHalf(m)) && IsMask16(F.LowHalf(m))
            && F.HighRange(r) == MaskRange16(F.HighHalf(x), F.HighHalf(m)) && IsMask16(F.HighHalf(m))
  {
    hide F.LowHalf, F.HighHalf, Clear, Fill, Clear16, Fill16, PrefixMask, IsPrefixMask, IsMask16;
    var m := PrefixMask(n);
    PrefixMaskIs(n);
    LowMask(m);
    HighMask(m);
    LowOfMasked(x, m);
    LowOfFilled(x, m);
    HighOfMasked(x, m);
    HighOfFilled(x, m);
  }

  /** The fields that two prefixes are split into are nested or disjoint, one by one. */
  lemma PrefixFieldsNest(x: bv32, n: nat, y: bv32, p: nat)
    requires n <= 32 && p <= 32
    ensures var (a, b) := (PrefixRange(x, n), PrefixRange(y, p));
            && NestedOrDisjoint(FieldRange(F.LowRange(a)), FieldRange(F.LowRange(b)))
            && NestedOrDisjoint(FieldRange(F.HighRange(a)), FieldRange(F.HighRange(b)))
  {
    hide MaskRange16, IsMask16, Nest16, FieldRange, F.LowHalf, F.HighHalf, F.LowRange, F.HighRange, PrefixMask,
        PrefixRange;
    var a, b := PrefixRange(x, n), PrefixRange(y, p);
    PrefixHalves(x, n);
    PrefixHalves(y, p);
    Masks16Nest(F.LowHalf(x), F.LowHalf(PrefixMask(n)), F.LowHalf(y), F.LowHalf(PrefixMask(p)));
    Masks16Nest(F.HighHalf(x), F.HighHalf(PrefixMask(n)), F.HighHalf(y), F.HighHalf(PrefixMask(p)));
    NestedFields(F.LowRange(a), F.LowRange(b));
    NestedFields(F.HighRange(a), F.HighRange(b));
  }
}
