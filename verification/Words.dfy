/** Ranges of 32-bit numbers that share a prefix. */
module Words {
  // Unsigned comparison of 32-bit numbers.
  predicate AtMost(x: bv32, y: bv32) {
    x <= y
  }

  datatype Range32 = Range32(low: bv32, high: bv32) {
    predicate InRange(val: bv32) {
      AtMost(low, val) && AtMost(val, high)
    }

    predicate Within(other: Range32) {
      AtMost(other.low, low) && AtMost(high, other.high)
    }

    predicate DisjointFrom(other: Range32) {
      !AtMost(other.low, high) || !AtMost(low, other.high)
    }
  }

  // The n leading bits set.
  function PrefixMask(n: nat): bv32
    requires n <= 32
  {
    if n == 0 then 0 else 0xffff_ffff << (32 - n)
  }

  // A mask of leading bits: its complement is one less than a power of two.
  predicate IsPrefixMask(m: bv32) {
    (!m) & (!m + 1) == 0
  }

  lemma PrefixMaskIs(n: nat)
    requires n <= 32
    ensures IsPrefixMask(PrefixMask(n))
  {
  }

  // All bits behind the mask clear, or all set.
  function Clear(x: bv32, m: bv32): bv32 {
    x & m
  }

  function Fill(x: bv32, m: bv32): bv32 {
    x | !m
  }

  function PrefixRange(addr: bv32, n: nat): Range32
    requires n <= 32
  {
    Range32(Clear(addr, PrefixMask(n)), Fill(addr, PrefixMask(n)))
  }

  ghost predicate IsPrefixRange(r: Range32) {
    exists n: nat :: n <= 32 && r == PrefixRange(r.low, n)
  }

  // Both numbers have the same n leading bits.
  ghost predicate SharePrefix(x: bv32, y: bv32, n: nat)
    requires n <= 32
  {
    Clear(x, PrefixMask(n)) == Clear(y, PrefixMask(n))
  }

  lemma ClearKeepsOrder(x: bv32, y: bv32, m: bv32)
    requires IsPrefixMask(m) && AtMost(x, y)
    ensures AtMost(Clear(x, m), Clear(y, m))
  {
  }

  lemma Around(x: bv32, m: bv32)
    ensures AtMost(Clear(x, m), x) && AtMost(x, Fill(x, m))
  {
  }

  lemma ClearAgain(x: bv32, m: bv32)
    ensures Clear(Fill(x, m), m) == Clear(x, m) && Clear(Clear(x, m), m) == Clear(x, m)
    ensures Fill(Clear(x, m), m) == Fill(x, m)
  {
  }

  lemma FillOfClear(x: bv32, y: bv32, m: bv32)
    requires Clear(x, m) == Clear(y, m)
    ensures Fill(x, m) == Fill(y, m)
  {
  }

  predicate NextByteMask(m: bv32, next: bv32) {
    || (m == 0 && next == 0xff00_0000) || (m == 0xff00_0000 && next == 0xffff_0000)
    || (m == 0xffff_0000 && next == 0xffff_ff00) || (m == 0xffff_ff00 && next == 0xffff_ffff)
  }

  lemma SameByte(x: bv32, y: bv32, m: bv32, next: bv32)
    requires NextByteMask(m, next)
    requires AtMost(x, y) && AtMost(y, x) && Clear(x, m) == Clear(y, m)
    ensures Clear(x, next) == Clear(y, next)
  {
  }

  lemma ClearEnds(x: bv32)
    ensures Clear(x, 0) == 0 && Clear(x, 0xffff_ffff) == x
  {
  }

  lemma Antisymmetric(x: bv32, y: bv32)
    requires AtMost(x, y) && AtMost(y, x)
    ensures x == y
  {
    hide AtMost, Clear;
    ClearEnds(x);
    ClearEnds(y);
    SameByte(x, y, 0, 0xff00_0000);
    SameByte(x, y, 0xff00_0000, 0xffff_0000);
    SameByte(x, y, 0xffff_0000, 0xffff_ff00);
    SameByte(x, y, 0xffff_ff00, 0xffff_ffff);
  }

  /** A prefix range holds exactly the numbers that share the prefix. */
  lemma PrefixRangeHolds(addr: bv32, n: nat, x: bv32)
    requires n <= 32
    ensures PrefixRange(addr, n).InRange(x) <==> SharePrefix(addr, x, n)
  {
    hide AtMost, Clear, Fill, PrefixMask, IsPrefixMask;
    var m := PrefixMask(n);
    PrefixMaskIs(n);
    if PrefixRange(addr, n).InRange(x) {
      ClearKeepsOrder(Clear(addr, m), x, m);
      ClearKeepsOrder(x, Fill(addr, m), m);
      ClearAgain(addr, m);
      Antisymmetric(Clear(addr, m), Clear(x, m));
    }
    if SharePrefix(addr, x, n) {
      FillOfClear(addr, x, m);
      Around(x, m);
    }
  }

  // Every bit of the first mask is in the second.
  predicate Shorter(m: bv32, w: bv32) {
    m & w == m
  }

  // Clearing more leaves nothing of a longer prefix.
  lemma ClearTwice(x: bv32, m: bv32, w: bv32)
    requires Shorter(m, w)
    ensures Clear(Clear(x, w), m) == Clear(x, m)
  {
  }

  lemma FillThenClear(x: bv32, m: bv32, w: bv32)
    requires Shorter(m, w)
    ensures Clear(Fill(x, w), m) == Clear(x, m)
  {
  }

  lemma ShorterByOne(n: nat)
    requires n < 32
    ensures Shorter(PrefixMask(n), PrefixMask(n + 1))
  {
    hide PrefixMask, IsPrefixMask, Shorter;
    MaskIsShifted(n);
    PrefixMaskIs(n + 1);
    ShiftedIsShorter(PrefixMask(n + 1), PrefixMask(n));
  }

  lemma ShiftedIsShorter(w: bv32, m: bv32)
    requires IsPrefixMask(w) && m == w << 1
    ensures Shorter(m, w)
  {
  }

  lemma MaskIsShifted(n: nat)
    requires n < 32
    ensures PrefixMask(n) == PrefixMask(n + 1) << 1
  {
    NextAmount(31 - n);
    ShiftOnce((31 - n) as bv6);
  }

  // Shift amounts are six bits wide.
  lemma NextAmount(k: nat)
    requires k < 32
    ensures (k + 1) as bv6 == k as bv6 + 1
  {
  }

  lemma ShiftOnce(k: bv6)
    requires k < 32
    ensures (0xffff_ffff as bv32) << (k + 1) == ((0xffff_ffff as bv32) << k) << 1
  {
  }

  lemma ShorterChain(a: bv32, b: bv32, c: bv32)
    ensures Shorter(a, a)
    ensures Shorter(a, b) && Shorter(b, c) ==> Shorter(a, c)
  {
  }

  lemma {:induction false} ShorterMask(n: nat, p: nat)
    requires n <= p <= 32
    ensures Shorter(PrefixMask(n), PrefixMask(p))
  {
    hide PrefixMask, Shorter;
    if n == p {
      ShorterChain(PrefixMask(n), PrefixMask(n), PrefixMask(n));
    } else {
      ShorterMask(n, p - 1);
      ShorterByOne(p - 1);
      ShorterChain(PrefixMask(n), PrefixMask(p - 1), PrefixMask(p));
    }
  }

  lemma Coarser(x: bv32, n: nat, p: nat)
    requires n <= p <= 32
    ensures SharePrefix(Clear(x, PrefixMask(p)), x, n) && SharePrefix(Fill(x, PrefixMask(p)), x, n)
  {
    hide Clear, Fill, PrefixMask, Shorter;
    ShorterMask(n, p);
    ClearTwice(x, PrefixMask(n), PrefixMask(p));
    FillThenClear(x, PrefixMask(n), PrefixMask(p));
  }

  lemma Total(x: bv32, y: bv32)
    ensures AtMost(x, y) || AtMost(y, x)
    ensures AtMost(x, x)
  {
  }

  /**
   * Prefix ranges are nested or disjoint, which makes `overlaps` exact on them: the longer
   * prefix lies within the shorter one if it extends it, and is disjoint from it if not.
   */
  lemma PrefixRangesNest(x: bv32, n: nat, y: bv32, p: nat)
    requires n <= p <= 32
    ensures SharePrefix(x, y, n) ==> PrefixRange(y, p).Within(PrefixRange(x, n))
    ensures !SharePrefix(x, y, n) ==> PrefixRange(y, p).DisjointFrom(PrefixRange(x, n))
  {
    hide AtMost, Clear, Fill, PrefixMask;
    var a, b := PrefixRange(x, n), PrefixRange(y, p);
    Coarser(y, n, p);
    PrefixRangeHolds(x, n, b.low);
    PrefixRangeHolds(x, n, b.high);
    if !b.DisjointFrom(a) {
      Total(a.low, b.low);
      Total(a.low, a.low);
      Total(b.low, b.low);
      LowInside(a, x, n);
      LowInside(b, y, p);
      var z := if AtMost(a.low, b.low) then b.low else a.low;
      PrefixRangeHolds(x, n, z);
      PrefixRangeHolds(y, p, z);
      Coarser(z, n, p);
    }
  }

  lemma LowInside(r: Range32, x: bv32, n: nat)
    requires n <= 32 && r == PrefixRange(x, n)
    ensures AtMost(r.low, r.high)
  {
  }
}
