/**
 * The number of leading bits a rule fixes, which the program uses as the priority of a rule
 * (cummulative_prefix_len in src/rule_parser/rule.cpp): it never drops when a rule is refined.
 */
module RulePriority {
  import opened Words
  import opened Prefixes
  import opened FieldSplit
  import I = Ipv4Ranges

  // The bytes of a number as they lie in memory, the lowest first.
  function Bytes32(x: bv32): (s: seq<Byte>)
    ensures |s| == 4
  {
    [(x & 0xff) as bv8, ((x >> 8) & 0xff) as bv8, ((x >> 16) & 0xff) as bv8, (x >> 24) as bv8]
  }

  function Bytes16(x: bv16): (s: seq<Byte>)
    ensures |s| == 2
  {
    [(x & 0xff) as bv8, (x >> 8) as bv8]
  }

  // Bit k of the number, counted from the most significant one.
  predicate BitSet(x: bv32, k: nat)
    requires k < 32
  {
    Hit32(x, I.TestBit(k + 1))
  }

  // The bit of a byte that BitAt tests.
  function Flag(j: nat): Byte
    requires j < 8
  {
    1 << (7 - j)
  }

  function And8(x: Byte, f: Byte): Byte {
    x & f
  }

  predicate Hit8(x: Byte, f: Byte) {
    And8(x, f) != 0
  }

  predicate Hit32(x: bv32, f: bv32) {
    Clear(x, f) != 0
  }

  lemma BitAtIsFlag(x: Byte, j: nat)
    requires j < 8
    ensures BitAt(x, j) <==> Hit8(x, Flag(j))
  {
  }

  // The bit of one byte of a number, lifted to the number.
  function Lifted(f: Byte, q: nat): bv32
    requires q < 4
  {
    if q == 0 then f as bv32 << 24 else if q == 1 then f as bv32 << 16 else if q == 2 then f as bv32 << 8 else f as bv32
  }

  lemma Lifted0(x: bv32, f: Byte)
    ensures Clear(x, Lifted(f, 0)) == Lifted(And8((x >> 24) as bv8, f), 0)
  {
  }

  lemma Lifted1(x: bv32, f: Byte)
    ensures Clear(x, Lifted(f, 1)) == Lifted(And8(((x >> 16) & 0xff) as bv8, f), 1)
  {
  }

  lemma Lifted2(x: bv32, f: Byte)
    ensures Clear(x, Lifted(f, 2)) == Lifted(And8(((x >> 8) & 0xff) as bv8, f), 2)
  {
  }

  lemma Lifted3(x: bv32, f: Byte)
    ensures Clear(x, Lifted(f, 3)) == Lifted(And8((x & 0xff) as bv8, f), 3)
  {
  }

  lemma LiftedAnd(x: bv32, f: Byte, q: nat)
    requires q < 4
    ensures Clear(x, Lifted(f, q)) == Lifted(And8(Bytes32(x)[3 - q], f), q)
  {
    hide Clear, Lifted, And8;
    if q == 0 {
      Lifted0(x, f);
    } else if q == 1 {
      Lifted1(x, f);
    } else if q == 2 {
      Lifted2(x, f);
    } else {
      Lifted3(x, f);
    }
  }

  lemma LiftedZero(f: Byte, q: nat)
    requires q < 4
    ensures Lifted(f, q) == 0 <==> f == 0
  {
  }

  lemma LiftedFlag(k: nat)
    requires k < 32
    ensures Lifted(Flag(k % 8), k / 8) == I.TestBit(k + 1)
  {
    hide Lifted, Flag, I.TestBit;
    if k / 8 == 0 {
      LiftedFlag0(k % 8);
    } else if k / 8 == 1 {
      LiftedFlag1(k % 8);
    } else if k / 8 == 2 {
      LiftedFlag2(k % 8);
    } else {
      LiftedFlag3(k % 8);
    }
  }

  lemma LiftedFlag0(j: nat)
    requires j < 8
    ensures Lifted(Flag(j), 0) == I.TestBit(j + 1)
  {
  }

  lemma LiftedFlag1(j: nat)
    requires j < 8
    ensures Lifted(Flag(j), 1) == I.TestBit(j + 9)
  {
  }

  lemma LiftedFlag2(j: nat)
    requires j < 8
    ensures Lifted(Flag(j), 2) == I.TestBit(j + 17)
  {
  }

  lemma LiftedFlag3(j: nat)
    requires j < 8
    ensures Lifted(Flag(j), 3) == I.TestBit(j + 25)
  {
  }

  lemma BitOfBytes(x: bv32, k: nat)
    requires k < 32
    ensures Bit(Bytes32(x), k) <==> BitSet(x, k)
  {
    hide BitAt, Flag, And8, Clear, Lifted, I.TestBit;
    var b := Bytes32(x)[3 - k / 8];
    BitAtIsFlag(b, k % 8);
    LiftedAnd(x, Flag(k % 8), k / 8);
    LiftedZero(And8(b, Flag(k % 8)), k / 8);
    LiftedFlag(k);
  }

  lemma OneMoreBit(x: bv32, y: bv32, n: nat)
    requires n < 32
    ensures SharePrefix(x, y, n + 1) <==> SharePrefix(x, y, n) && BitSet(x, n) == BitSet(y, n)
  {
    hide Clear, Hit32;
    MaskIsShifted(n);
    ClearOneMore(x, y, (31 - n) as bv6);
  }

  // A mask that ends k bits before the end, in two parts: its last bit and the rest.
  function Ones(k: bv6): bv32
    requires k < 32
  {
    0xffff_ffff << k
  }

  function Rest(k: bv6): bv32
    requires k < 32
  {
    Ones(k) << 1
  }

  function Last(k: bv6): bv32
    requires k < 32
  {
    1 << k
  }

  function Both(x: bv32, y: bv32): bv32 {
    x | y
  }

  lemma ClearOneMore(x: bv32, y: bv32, k: bv6)
    requires k < 32
    ensures Clear(x, Ones(k)) == Clear(y, Ones(k)) <==>
      Clear(x, Rest(k)) == Clear(y, Rest(k)) && Hit32(x, Last(k)) == Hit32(y, Last(k))
  {
    hide Clear, Ones, Rest, Last, Both;
    RestOfMask(x, k);
    RestOfMask(y, k);
    LastOfMask(x, k);
    LastOfMask(y, k);
    WholeMask(x, k);
    WholeMask(y, k);
    OneBit(x, k);
    OneBit(y, k);
  }

  lemma RestOfMask(x: bv32, k: bv6)
    requires k < 32
    ensures Clear(Clear(x, Ones(k)), Rest(k)) == Clear(x, Rest(k))
  {
    hide Clear, Shorter;
    RestIsShorter(k);
    ClearTwice(x, Rest(k), Ones(k));
  }

  lemma RestIsShorter(k: bv6)
    requires k < 32
    ensures Shorter(Rest(k), Ones(k))
  {
  }

  lemma LastOfMask(x: bv32, k: bv6)
    requires k < 32
    ensures Clear(Clear(x, Ones(k)), Last(k)) == Clear(x, Last(k))
  {
  }

  lemma WholeMask(x: bv32, k: bv6)
    requires k < 32
    ensures Clear(x, Ones(k)) == Both(Clear(x, Rest(k)), Clear(x, Last(k)))
  {
  }

  lemma OneBit(x: bv32, k: bv6)
    requires k < 32
    ensures Clear(x, Last(k)) == 0 || Clear(x, Last(k)) == Last(k)
  {
  }

  /** The common prefix of the bytes is that of the numbers. */
  lemma {:induction false} SharedBits(x: bv32, y: bv32, n: nat)
    requires n <= 32
    ensures SharePrefix(x, y, n) <==> forall k :: 0 <= k < n ==> Bit(Bytes32(x), k) == Bit(Bytes32(y), k)
  {
    hide SharePrefix, Bit, Bytes32, BitSet;
    if n == 0 {
      NothingShared(x, y);
    } else {
      SharedBits(x, y, n - 1);
      OneMoreBit(x, y, n - 1);
      BitOfBytes(x, n - 1);
      BitOfBytes(y, n - 1);
    }
  }

  lemma NothingShared(x: bv32, y: bv32)
    ensures SharePrefix(x, y, 0)
  {
  }

  // Both ends of a range lie in another one.
  predicate EndsInside(b: Range32, a: Range32) {
    a.InRange(b.low) && a.InRange(b.high)
  }

  predicate EndsInside16(b: Range16, a: Range16) {
    a.InRange(b.low) && a.InRange(b.high)
  }

  // What is shared by both ends of a range is shared by all numbers between them.
  lemma SharedBetween(a: Range32, x: bv32, n: nat)
    requires n <= 32 && SharePrefix(a.low, a.high, n) && a.InRange(x)
    ensures SharePrefix(a.low, x, n)
  {
    hide AtMost, Clear, PrefixMask, IsPrefixMask;
    var m := PrefixMask(n);
    PrefixMaskIs(n);
    ClearKeepsOrder(a.low, x, m);
    ClearKeepsOrder(x, a.high, m);
    Antisymmetric(Clear(a.low, m), Clear(x, m));
  }

  lemma SharedInside(a: Range32, b: Range32, n: nat)
    requires n <= 32 && SharePrefix(a.low, a.high, n) && EndsInside(b, a)
    ensures SharePrefix(b.low, b.high, n)
  {
    hide Clear, PrefixMask;
    SharedBetween(a, b.low, n);
    SharedBetween(a, b.high, n);
  }

  // The number of leading bits, from bit k on, that two numbers share.
  ghost function Longest(low: seq<Byte>, high: seq<Byte>, k: nat): (n: nat)
    requires |low| == |high| && k <= 8 * |low|
    requires forall j :: 0 <= j < k ==> Bit(low, j) == Bit(high, j)
    ensures LongestPrefix(low, high, n)
    decreases 8 * |low| - k
  {
    if k == 8 * |low| || Bit(low, k) != Bit(high, k) then k else Longest(low, high, k + 1)
  }

  ghost function PrefixLen32(r: Range32): (n: nat)
    ensures LongestPrefix(Bytes32(r.low), Bytes32(r.high), n)
  {
    Longest(Bytes32(r.low), Bytes32(r.high), 0)
  }

  ghost function PrefixLen16(r: Range16): (n: nat)
    ensures LongestPrefix(Bytes16(r.low), Bytes16(r.high), n)
  {
    Longest(Bytes16(r.low), Bytes16(r.high), 0)
  }

  lemma RefinedPrefix32(a: Range32, b: Range32)
    requires EndsInside(b, a)
    ensures PrefixLen32(b) >= PrefixLen32(a)
  {
    hide AtMost, SharePrefix, Bit, Bytes32, Longest;
    var n := PrefixLen32(a);
    SharedBits(a.low, a.high, n);
    SharedInside(a, b, n);
    SharedBits(b.low, b.high, n);
  }

  // A field of 16 bits as the upper half of a number of 32 bits.
  function Raised(r: Range16): Range32 {
    Range32(Join(0, r.low), Join(0, r.high))
  }

  lemma RaisedKeepsOrder(x: bv16, y: bv16)
    requires AtMost16(x, y)
    ensures AtMost(Join(0, x), Join(0, y))
  {
  }

  lemma RaisedBytes(x: bv16)
    ensures Bytes32(Join(0, x)) == [0, 0] + Bytes16(x)
  {
    assert (x & 0xff) as bv8 == ((Join(0, x) >> 16) & 0xff) as bv8;
    assert (x >> 8) as bv8 == (Join(0, x) >> 24) as bv8;
    assert (Join(0, x) & 0xff) as bv8 == 0;
    assert ((Join(0, x) >> 8) & 0xff) as bv8 == 0;
  }

  lemma RaisedBit(x: bv16, k: nat)
    requires k < 16
    ensures Bit(Bytes32(Join(0, x)), k) == Bit(Bytes16(x), k)
  {
    hide BitAt, Bytes16, Bytes32, Join;
    RaisedBytes(x);
  }

  lemma RaisedShare(r: Range16, n: nat)
    requires n <= 16
    ensures SharePrefix(Raised(r).low, Raised(r).high, n) <==>
      forall k :: 0 <= k < n ==> Bit(Bytes16(r.low), k) == Bit(Bytes16(r.high), k)
  {
    hide SharePrefix, Bit, Bytes16, Bytes32, Join;
    SharedBits(Raised(r).low, Raised(r).high, n);
    forall k | 0 <= k < n
      ensures Bit(Bytes32(Join(0, r.low)), k) == Bit(Bytes16(r.low), k)
      ensures Bit(Bytes32(Join(0, r.high)), k) == Bit(Bytes16(r.high), k)
    {
      RaisedBit(r.low, k);
      RaisedBit(r.high, k);
    }
  }

  lemma RaisedInside(b: Range16, a: Range16)
    requires EndsInside16(b, a)
    ensures EndsInside(Raised(b), Raised(a))
  {
    hide AtMost, AtMost16, Join;
    RaisedKeepsOrder(a.low, b.low);
    RaisedKeepsOrder(b.low, a.high);
    RaisedKeepsOrder(a.low, b.high);
    RaisedKeepsOrder(b.high, a.high);
  }

  lemma RefinedPrefix16(a: Range16, b: Range16)
    requires EndsInside16(b, a)
    ensures PrefixLen16(b) >= PrefixLen16(a)
  {
    hide AtMost, AtMost16, SharePrefix, Bit, Bytes16, Raised, Longest, EndsInside, EndsInside16;
    var n := PrefixLen16(a);
    RaisedShare(a, n);
    RaisedInside(b, a);
    SharedInside(Raised(a), Raised(b), n);
    RaisedShare(b, n);
  }

  ghost function PrefixBits(r: Rule): nat {
    PrefixLen32(r.sip) + PrefixLen32(r.dip) + PrefixLen16(r.sport) + PrefixLen16(r.dport) + PrefixLen16(r.proto)
  }

  // The two ends of the range agree in exactly n leading bits.
  ghost predicate Fixes32(r: Range32, n: nat) {
    LongestPrefix(Bytes32(r.low), Bytes32(r.high), n)
  }

  ghost predicate Fixes16(r: Range16, n: nat) {
    LongestPrefix(Bytes16(r.low), Bytes16(r.high), n)
  }

  // The five fields of the rule fix so many leading bits.
  ghost predicate FixesFields(r: Rule, sip: nat, dip: nat, sport: nat, dport: nat, proto: nat) {
    && Fixes32(r.sip, sip) && Fixes32(r.dip, dip)
    && Fixes16(r.sport, sport) && Fixes16(r.dport, dport) && Fixes16(r.proto, proto)
  }

  /** Every field counts with the bits that it fixes. */
  lemma PrefixBitsIs(r: Rule, sip: nat, dip: nat, sport: nat, dport: nat, proto: nat)
    requires FixesFields(r, sip, dip, sport, dport, proto)
    ensures PrefixBits(r) == sip + dip + sport + dport + proto
  {
    hide LongestPrefix, Longest, Bytes32, Bytes16;
    LongestIsUnique(Bytes32(r.sip.low), Bytes32(r.sip.high), sip, PrefixLen32(r.sip));
    LongestIsUnique(Bytes32(r.dip.low), Bytes32(r.dip.high), dip, PrefixLen32(r.dip));
    LongestIsUnique(Bytes16(r.sport.low), Bytes16(r.sport.high), sport, PrefixLen16(r.sport));
    LongestIsUnique(Bytes16(r.dport.low), Bytes16(r.dport.high), dport, PrefixLen16(r.dport));
    LongestIsUnique(Bytes16(r.proto.low), Bytes16(r.proto.high), proto, PrefixLen16(r.proto));
  }

  lemma EveryFieldFixes(r: Rule) returns (sip: nat, dip: nat, sport: nat, dport: nat, proto: nat)
    ensures FixesFields(r, sip, dip, sport, dport, proto)
  {
    hide LongestPrefix, Longest, Bytes32, Bytes16;
    sip, dip := PrefixLen32(r.sip), PrefixLen32(r.dip);
    sport, dport, proto := PrefixLen16(r.sport), PrefixLen16(r.dport), PrefixLen16(r.proto);
  }

  /** Rules that differ in one address differ by the bits that it fixes. */
  lemma AddressCounts(r: Rule, a: Range32, m: nat, b: Range32, n: nat)
    requires Fixes32(a, m) && Fixes32(b, n)
    ensures PrefixBits(r.(sip := a)) - PrefixBits(r.(sip := b)) == m - n
    ensures PrefixBits(r.(dip := a)) - PrefixBits(r.(dip := b)) == m - n
  {
    hide PrefixBits, Fixes32, Fixes16;
    var sip, dip, sport, dport, proto := EveryFieldFixes(r);
    PrefixBitsIs(r.(sip := a), m, dip, sport, dport, proto);
    PrefixBitsIs(r.(sip := b), n, dip, sport, dport, proto);
    PrefixBitsIs(r.(dip := a), sip, m, sport, dport, proto);
    PrefixBitsIs(r.(dip := b), sip, n, sport, dport, proto);
  }

  /** And so do rules that differ in one of the other fields. */
  lemma FieldCounts(r: Rule, a: Range16, m: nat, b: Range16, n: nat)
    requires Fixes16(a, m) && Fixes16(b, n)
    ensures PrefixBits(r.(sport := a)) - PrefixBits(r.(sport := b)) == m - n
    ensures PrefixBits(r.(dport := a)) - PrefixBits(r.(dport := b)) == m - n
    ensures PrefixBits(r.(proto := a)) - PrefixBits(r.(proto := b)) == m - n
  {
    hide PrefixBits, Fixes32, Fixes16;
    var sip, dip, sport, dport, proto := EveryFieldFixes(r);
    PrefixBitsIs(r.(sport := a), sip, dip, m, dport, proto);
    PrefixBitsIs(r.(sport := b), sip, dip, n, dport, proto);
    PrefixBitsIs(r.(dport := a), sip, dip, sport, m, proto);
    PrefixBitsIs(r.(dport := b), sip, dip, sport, n, proto);
    PrefixBitsIs(r.(proto := a), sip, dip, sport, dport, m);
    PrefixBitsIs(r.(proto := b), sip, dip, sport, dport, n);
  }

  lemma ClearKeepsBit(x: bv32, m: bv32, f: bv32)
    requires I.BitIn(f, m)
    ensures Hit32(Clear(x, m), f) == Hit32(x, f)
  {
  }

  lemma FillKeepsBit(x: bv32, m: bv32, f: bv32)
    requires I.BitIn(f, m)
    ensures Hit32(Fill(x, m), f) == Hit32(x, f)
  {
  }

  lemma ClearDropsBit(x: bv32, m: bv32, f: bv32)
    requires I.BitOut(f, m)
    ensures !Hit32(Clear(x, m), f)
  {
  }

  lemma FillSetsBit(x: bv32, m: bv32, f: bv32)
    requires I.BitOut(f, m)
    ensures Hit32(Fill(x, m), f)
  {
  }

  lemma EndsShareBit(addr: bv32, n: nat, k: nat)
    requires n <= 32 && k < 32
    ensures BitSet(PrefixRange(addr, n).low, k) == BitSet(PrefixRange(addr, n).high, k) <==> k < n
  {
    hide Clear, Fill, PrefixMask, I.TestBit, I.BitIn, I.BitOut, Hit32;
    var m, f := PrefixMask(n), I.TestBit(k + 1);
    I.TestBitIs(n, k + 1);
    if k < n {
      ClearKeepsBit(addr, m, f);
      FillKeepsBit(addr, m, f);
    } else {
      ClearDropsBit(addr, m, f);
      FillSetsBit(addr, m, f);
    }
  }

  /** A prefix of n bits fixes n bits. */
  lemma PrefixFixes(addr: bv32, n: nat)
    requires n <= 32
    ensures Fixes32(PrefixRange(addr, n), n)
  {
    hide Bit, Bytes32, BitSet, PrefixRange;
    var r := PrefixRange(addr, n);
    forall k | 0 <= k < 32
      ensures Bit(Bytes32(r.low), k) == Bit(Bytes32(r.high), k) <==> k < n
    {
      BitOfBytes(r.low, k);
      BitOfBytes(r.high, k);
      EndsShareBit(addr, n, k);
    }
  }

  /** A single value fixes all bits of its field, and the whole range none. */
  lemma ValueFixes(x: bv16)
    ensures Fixes16(Range16(x, x), 16)
  {
    hide Bit, Bytes16;
  }

  lemma WholeFixesNone()
    ensures Fixes16(Range16(0, 0xffff), 0)
  {
    hide BitAt;
    TopBits();
    assert Bytes16(0) == [0, 0] && Bytes16(0xffff) == [0xff, 0xff];
  }

  lemma TopBits()
    ensures !BitAt(0, 0) && BitAt(0xff, 0)
  {
  }

  /** A rule for two prefixes and single ports and protocol fixes the bits of the prefixes and 48 more. */
  lemma PrefixesAndValues(x: bv32, n: nat, y: bv32, m: nat, sport: bv16, dport: bv16, proto: bv16)
    requires n <= 32 && m <= 32
    ensures PrefixBits(Rule(PrefixRange(x, n), PrefixRange(y, m), Range16(sport, sport), Range16(dport, dport),
                            Range16(proto, proto))) == n + m + 48
  {
    hide PrefixBits, Fixes32, Fixes16, PrefixRange;
    PrefixFixes(x, n);
    PrefixFixes(y, m);
    ValueFixes(sport);
    ValueFixes(dport);
    ValueFixes(proto);
    var r := Rule(PrefixRange(x, n), PrefixRange(y, m), Range16(sport, sport), Range16(dport, dport),
                  Range16(proto, proto));
    PrefixBitsIs(r, n, m, 16, 16, 16);
  }

  method CummulativePrefixLen(r: Rule) returns (n: nat)
    ensures n == PrefixBits(r)
    ensures forall sip: nat, dip: nat, sport: nat, dport: nat, proto: nat ::
              FixesFields(r, sip, dip, sport, dport, proto) ==> n == sip + dip + sport + dport + proto
  {
    hide LongestPrefix, IsMask, Longest, Bytes32, Bytes16, FixesFields;
    forall a: nat, b: nat, c: nat, d: nat, e: nat | FixesFields(r, a, b, c, d, e)
      ensures PrefixBits(r) == a + b + c + d + e
    {
      PrefixBitsIs(r, a, b, c, d, e);
    }
    var sip := PrefixLenLe(Bytes32(r.sip.low), Bytes32(r.sip.high));
    var dip := PrefixLenLe(Bytes32(r.dip.low), Bytes32(r.dip.high));
    var sport := PrefixLenLe(Bytes16(r.sport.low), Bytes16(r.sport.high));
    var dport := PrefixLenLe(Bytes16(r.dport.low), Bytes16(r.dport.high));
    var proto := PrefixLenLe(Bytes16(r.proto.low), Bytes16(r.proto.high));
    n := sip + dip + sport + dport + proto;
  }

  method PrefixLenLe(low: seq<Byte>, high: seq<Byte>) returns (n: nat)
    requires |low| == |high|
    ensures n == Longest(low, high, 0)
  {
    hide LongestPrefix, IsMask, Longest;
    var mask;
    mask, n := GetMaskLe(low, high);
    LongestIsUnique(low, high, n, Longest(low, high, 0));
  }

  // Every field of the rule lies within the same field of the other one.
  predicate Refines(r: Rule, q: Rule) {
    && EndsInside(r.sip, q.sip) && EndsInside(r.dip, q.dip)
    && EndsInside16(r.sport, q.sport) && EndsInside16(r.dport, q.dport) && EndsInside16(r.proto, q.proto)
  }

  /**
   * With the number of fixed leading bits as its priority a rule never has a lower one than
   * a rule that it refines.
   */
  lemma RefiningKeepsPriority(r: Rule, q: Rule)
    requires Refines(r, q)
    ensures PrefixBits(r) >= PrefixBits(q)
  {
    hide EndsInside, EndsInside16, PrefixLen32, PrefixLen16;
    RefinedPrefix32(q.sip, r.sip);
    RefinedPrefix32(q.dip, r.dip);
    RefinedPrefix16(q.sport, r.sport);
    RefinedPrefix16(q.dport, r.dport);
    RefinedPrefix16(q.proto, r.proto);
  }

  /** The mask of a 32-bit number with the given number of leading ones, byte by byte. */
  lemma MaskOfNumber(n: nat, mask: seq<Byte>)
    requires n <= 32 && |mask| == 4
    ensures IsMask(mask, n) <==> mask == Bytes32(PrefixMask(n))
  {
    hide Bit, Bytes32, PrefixMask, Hit32;
    var m := Bytes32(PrefixMask(n));
    forall k | 0 <= k < 32 ensures Bit(m, k) <==> k < n {
      BitOfBytes(PrefixMask(n), k);
      BitOfMask(n, k);
    }
    if IsMask(mask, n) {
      MaskIsUnique(mask, m, n);
    }
  }

  lemma BitOfMask(n: nat, k: nat)
    requires n <= 32 && k < 32
    ensures BitSet(PrefixMask(n), k) <==> k < n
  {
    hide PrefixMask, I.TestBit;
    I.TestBitIs(n, k + 1);
    HitIs(PrefixMask(n), I.TestBit(k + 1));
    I.TestBitIsLast(k + 1);
  }

  lemma HitIs(m: bv32, f: bv32)
    ensures I.BitIn(f, m) && f != 0 ==> Hit32(m, f)
    ensures I.BitOut(f, m) ==> !Hit32(m, f)
  {
  }
}
