/**
 * IPv4 prefixes in dotted notation and as ranges of 32-bit numbers: parse_IPRange and
 * print_ipv4 in src/rule_parser/classbench_rule_parser.cpp, on octets and prefix length.
 */
module Ipv4Ranges {
  import opened Words

  type Byte = bv8

  // The address with the four given octets, the most significant first.
  function Joined(a: Byte, b: Byte, c: Byte, d: Byte): bv32 {
    (((((a as bv32 << 8) | b as bv32) << 8) | c as bv32) << 8) | d as bv32
  }

  // The four octets of an address.
  function Octets(addr: bv32): (o: seq<Byte>)
    ensures |o| == 4
  {
    [(addr >> 24) as bv8, ((addr >> 16) & 0xff) as bv8, ((addr >> 8) & 0xff) as bv8, (addr & 0xff) as bv8]
  }

  function Address(o: seq<Byte>): bv32
    requires |o| == 4
  {
    Joined(o[0], o[1], o[2], o[3])
  }

  lemma OctetsOfJoined(a: Byte, b: Byte, c: Byte, d: Byte)
    ensures var x := Joined(a, b, c, d);
            && (x >> 24) as bv8 == a && ((x >> 16) & 0xff) as bv8 == b
            && ((x >> 8) & 0xff) as bv8 == c && (x & 0xff) as bv8 == d
  {
  }

  lemma JoinedOctets(x: bv32)
    ensures Joined((x >> 24) as bv8, ((x >> 16) & 0xff) as bv8, ((x >> 8) & 0xff) as bv8, (x & 0xff) as bv8) == x
  {
    assert ((x >> 24) as bv8) as bv32 == x >> 24;
    assert (((x >> 16) & 0xff) as bv8) as bv32 == (x >> 16) & 0xff;
    assert (((x >> 8) & 0xff) as bv8) as bv32 == (x >> 8) & 0xff;
    assert ((x & 0xff) as bv8) as bv32 == x & 0xff;
    assert (((((((x >> 24) << 8) | ((x >> 16) & 0xff)) << 8) | ((x >> 8) & 0xff)) << 8) | (x & 0xff)) == x;
  }

  lemma OctetsOfAddress(o: seq<Byte>)
    requires |o| == 4
    ensures Octets(Address(o)) == o
  {
    hide Joined;
    OctetsOfJoined(o[0], o[1], o[2], o[3]);
  }

  lemma AddressOfOctets(addr: bv32)
    ensures Address(Octets(addr)) == addr
  {
    hide Joined;
    JoinedOctets(addr);
  }

  // The number put together from four fields, as the parser adds them up.
  function Assembled(a: bv32, b: bv32, c: bv32, d: bv32): bv32 {
    (((((a << 8) + b) << 8) + c) << 8) + d
  }

  // masklit3 before it is complemented: the lowest n bits.
  function HostBits(n: nat): bv32
    requires n < 8
  {
    (1 << n) - 1
  }

  // Which bits of octet i belong to the prefix when the host part has `bits` bits.
  function OctetMask(bits: nat, i: nat): bv32
    requires bits <= 32 && i < 4
  {
    if i > 3 - bits / 8 then 0
    else if i == 3 - bits / 8 then 0xff & !HostBits(bits % 8)
    else 0xff
  }

  lemma OctetMasksAre(bits: nat)
    requires bits <= 32
    ensures Assembled(OctetMask(bits, 0), OctetMask(bits, 1), OctetMask(bits, 2), OctetMask(bits, 3))
            == PrefixMask(32 - bits)
  {
    if bits / 8 == 0 {
    } else if bits / 8 == 1 {
    } else if bits / 8 == 2 {
    } else if bits / 8 == 3 {
    } else {
    }
  }

  lemma MasksSmall(bits: nat)
    requires bits <= 32
    ensures OctetMask(bits, 0) <= 0xff && OctetMask(bits, 1) <= 0xff
    ensures OctetMask(bits, 2) <= 0xff && OctetMask(bits, 3) <= 0xff
  {
  }

  // One octet, kept in a wider field, with its host bits clear or set.
  function ClearByte(x: Byte, m: bv32): bv32 {
    x as bv32 & m
  }

  function FillByte(x: Byte, m: bv32): bv32 {
    x as bv32 | (0xff & !m)
  }

  lemma AssembledMasked(a: Byte, b: Byte, c: Byte, d: Byte, ma: bv32, mb: bv32, mc: bv32, md: bv32)
    requires ma <= 0xff && mb <= 0xff && mc <= 0xff && md <= 0xff
    ensures Assembled(ClearByte(a, ma), ClearByte(b, mb), ClearByte(c, mc), ClearByte(d, md))
            == Clear(Joined(a, b, c, d), Assembled(ma, mb, mc, md))
    ensures Assembled(FillByte(a, ma), FillByte(b, mb), FillByte(c, mc), FillByte(d, md))
            == Fill(Joined(a, b, c, d), Assembled(ma, mb, mc, md))
  {
  }

  // The fields of the parser with the host part cleared, or set.
  ghost predicate Cleared(o: seq<Byte>, p: seq<bv32>, bits: nat) {
    && |o| == |p| == 4 && bits <= 32
    && forall i :: 0 <= i < 4 ==> p[i] == ClearByte(o[i], OctetMask(bits, i))
  }

  ghost predicate Filled(o: seq<Byte>, p: seq<bv32>, bits: nat) {
    && |o| == |p| == 4 && bits <= 32
    && forall i :: 0 <= i < 4 ==> p[i] == FillByte(o[i], OctetMask(bits, i))
  }

  lemma ClearedIs(o: seq<Byte>, p: seq<bv32>, n: nat)
    requires n <= 32 && Cleared(o, p, 32 - n)
    ensures Assembled(p[0], p[1], p[2], p[3]) == Clear(Address(o), PrefixMask(n))
  {
    hide Assembled, OctetMask, PrefixMask, Joined, Clear, Fill, ClearByte, FillByte;
    OctetMasksAre(32 - n);
    MasksSmall(32 - n);
    AssembledMasked(o[0], o[1], o[2], o[3],
                    OctetMask(32 - n, 0), OctetMask(32 - n, 1), OctetMask(32 - n, 2), OctetMask(32 - n, 3));
  }

  lemma FilledIs(o: seq<Byte>, p: seq<bv32>, n: nat)
    requires n <= 32 && Filled(o, p, 32 - n)
    ensures Assembled(p[0], p[1], p[2], p[3]) == Fill(Address(o), PrefixMask(n))
  {
    hide Assembled, OctetMask, PrefixMask, Joined, Clear, Fill, ClearByte, FillByte;
    OctetMasksAre(32 - n);
    MasksSmall(32 - n);
    AssembledMasked(o[0], o[1], o[2], o[3],
                    OctetMask(32 - n, 0), OctetMask(32 - n, 1), OctetMask(32 - n, 2), OctetMask(32 - n, 3));
  }

  // The whole octet, as stored into its field.
  function Widen(x: Byte): bv32 {
    x as bv32
  }

  // What the two masking steps of the parser make of one field.
  lemma ClearedField(x: Byte, bits: nat, i: nat)
    requires bits <= 32 && i < 4
    ensures i > 3 - bits / 8 ==> ClearByte(x, OctetMask(bits, i)) == 0
    ensures i == 3 - bits / 8 ==> ClearByte(x, OctetMask(bits, i)) == Widen(x) & !HostBits(bits % 8)
    ensures i < 3 - bits / 8 || (i == 3 - bits / 8 && bits % 8 == 0) ==> ClearByte(x, OctetMask(bits, i)) == Widen(x)
  {
  }

  lemma FilledField(x: Byte, bits: nat, i: nat)
    requires bits <= 32 && i < 4
    ensures i > 3 - bits / 8 ==> FillByte(x, OctetMask(bits, i)) == 255
    ensures i == 3 - bits / 8 ==>
      FillByte(x, OctetMask(bits, i)) == ClearByte(x, OctetMask(bits, i)) | HostBits(bits % 8)
    ensures i < 3 - bits / 8 || (i == 3 - bits / 8 && bits % 8 == 0) ==>
      FillByte(x, OctetMask(bits, i)) == ClearByte(x, OctetMask(bits, i))
  {
  }

  // Counts the start address: the host part of the fields becomes all zeros.
  method ClearHost(ptrange: array<bv32>, ghost octets: seq<Byte>, mask: nat)
    requires ptrange.Length == |octets| == 4 && mask <= 32
    requires forall k :: 0 <= k < 4 ==> ptrange[k] == Widen(octets[k])
    modifies ptrange
    ensures Cleared(octets, ptrange[..], mask)
  {
    hide ClearByte, OctetMask, HostBits, Widen;
    var masklit1, masklit2 := mask / 8, mask % 8;
    var i := 3;
    while i > 3 - masklit1
      invariant 3 - masklit1 <= i <= 3
      invariant forall k :: 0 <= k < 4 ==> ptrange[k] == if k > i then 0 else Widen(octets[k])
    {
      ptrange[i] := 0;
      i := i - 1;
    }
    if masklit2 != 0 {
      var masklit3 := !HostBits(masklit2);
      ptrange[3 - masklit1] := ptrange[3 - masklit1] & masklit3;
    }
    forall k | 0 <= k < 4 ensures ptrange[k] == ClearByte(octets[k], OctetMask(mask, k)) {
      ClearedField(octets[k], mask, k);
    }
  }

  // Counts the end address: the host part becomes all ones.
  method FillHost(ptrange: array<bv32>, ghost octets: seq<Byte>, mask: nat)
    requires ptrange.Length == |octets| == 4 && mask <= 32 && Cleared(octets, ptrange[..], mask)
    modifies ptrange
    ensures Filled(octets, ptrange[..], mask)
  {
    hide ClearByte, FillByte, OctetMask, HostBits, Widen;
    var masklit1, masklit2 := mask / 8, mask % 8;
    var i := 3;
    while i > 3 - masklit1
      invariant 3 - masklit1 <= i <= 3
      invariant forall k :: 0 <= k < 4 ==> ptrange[k] == if k > i then 255 else ClearByte(octets[k], OctetMask(mask, k))
    {
      ptrange[i] := 255;
      i := i - 1;
    }
    if masklit2 != 0 {
      var masklit3 := HostBits(masklit2);
      ptrange[3 - masklit1] := ptrange[3 - masklit1] | masklit3;
    }
    forall k | 0 <= k < 4 ensures ptrange[k] == FillByte(octets[k], OctetMask(mask, k)) {
      FilledField(octets[k], mask, k);
    }
  }

  /** Reads a prefix: the range of exactly the addresses that share its leading bits. */
  method ParseIPRange(octets: seq<Byte>, len: nat) returns (range: Range32)
    requires |octets| == 4 && len <= 32
    ensures range == PrefixRange(Address(octets), len)
    ensures forall x :: range.InRange(x) <==> SharePrefix(Address(octets), x, len)
  {
    hide Cleared, Filled, Address, Assembled, PrefixMask, Clear, Fill, AtMost, SharePrefix, Widen;
    var ptrange := new bv32[4];
    for i := 0 to 4
      invariant forall k :: 0 <= k < i ==> ptrange[k] == Widen(octets[k])
    {
      ptrange[i] := Widen(octets[i]);
    }
    ClearHost(ptrange, octets, 32 - len);
    ClearedIs(octets, ptrange[..], len);
    var low := Assembled(ptrange[0], ptrange[1], ptrange[2], ptrange[3]);
    FillHost(ptrange, octets, 32 - len);
    FilledIs(octets, ptrange[..], len);
    range := Range32(low, Assembled(ptrange[0], ptrange[1], ptrange[2], ptrange[3]));
    forall x ensures range.InRange(x) <==> SharePrefix(Address(octets), x, len) {
      PrefixRangeHolds(Address(octets), len, x);
    }
  }

  // The bit that print_ipv4 looks at: the last one of a prefix of this length.
  function TestBit(len: nat): bv32
    requires 0 < len <= 32
  {
    1 << (32 - len)
  }

  predicate SameUnder(low: bv32, high: bv32, m: bv32) {
    low & m == high & m
  }

  predicate SameBit(r: Range32, len: nat)
    requires 0 < len <= 32
  {
    SameUnder(r.low, r.high, TestBit(len))
  }

  predicate BitIn(bit: bv32, m: bv32) {
    bit & m == bit
  }

  predicate BitOut(bit: bv32, m: bv32) {
    bit & m == 0 && bit != 0
  }

  // A bit of the prefix is the same at both ends, a bit behind it differs.
  lemma BitOfRange(x: bv32, m: bv32, bit: bv32)
    ensures BitIn(bit, m) ==> SameUnder(Clear(x, m), Fill(x, m), bit)
    ensures BitOut(bit, m) ==> !SameUnder(Clear(x, m), Fill(x, m), bit)
  {
  }

  lemma TestBitIs(n: nat, len: nat)
    requires n <= 32 && 0 < len <= 32
    ensures len <= n ==> BitIn(TestBit(len), PrefixMask(n))
    ensures len > n ==> BitOut(TestBit(len), PrefixMask(n))
  {
    hide BitIn, BitOut, Shorter, TestBit, PrefixMask;
    TestBitIsLast(len);
    if len <= n {
      ShorterMask(len, n);
      BitInShorter(TestBit(len), PrefixMask(len), PrefixMask(n));
    } else {
      ShorterMask(n, len - 1);
      BitInShorter(TestBit(len), PrefixMask(n), PrefixMask(len - 1));
    }
  }

  lemma TestBitIsLast(len: nat)
    requires 0 < len <= 32
    ensures BitIn(TestBit(len), PrefixMask(len)) && BitOut(TestBit(len), PrefixMask(len - 1))
  {
    hide BitIn, BitOut;
    MaskIsShifted(len - 1);
    LowestBit((32 - len) as bv6);
  }

  lemma LowestBit(k: bv6)
    requires k < 32
    ensures BitIn(1 << k, 0xffff_ffff << k) && BitOut(1 << k, (0xffff_ffff << k) << 1)
  {
  }

  lemma BitInShorter(bit: bv32, m: bv32, w: bv32)
    requires Shorter(m, w)
    ensures BitIn(bit, m) ==> BitIn(bit, w)
    ensures BitOut(bit, w) ==> BitOut(bit, m)
  {
  }

  lemma SameBitOfPrefix(addr: bv32, n: nat, len: nat)
    requires n <= 32 && 0 < len <= 32
    ensures SameBit(PrefixRange(addr, n), len) <==> len <= n
  {
    hide SameUnder, BitIn, BitOut, TestBit, PrefixMask, Clear, Fill;
    TestBitIs(n, len);
    BitOfRange(addr, PrefixMask(n), TestBit(len));
  }

  /** Writes the low end in octets, and the length down to which the two ends differ. */
  method PrintIPv4(ip: Range32) returns (octets: seq<Byte>, prefixLen: nat)
    ensures octets == Octets(ip.low) && prefixLen <= 32
    ensures forall k :: prefixLen < k <= 32 ==> !SameBit(ip, k)
    ensures prefixLen > 0 ==> SameBit(ip, prefixLen)
  {
    hide SameUnder, TestBit, Octets;
    prefixLen := 32;
    while prefixLen > 0
      invariant prefixLen <= 32
      invariant forall k :: prefixLen < k <= 32 ==> !SameBit(ip, k)
    {
      var m := TestBit(prefixLen);
      if SameUnder(ip.low, ip.high, m) {
        break;
      }
      prefixLen := prefixLen - 1;
    }
    octets := Octets(ip.low);
  }

  /** What is printed reads back as the same range exactly for the prefix ranges. */
  method PrintThenParse(ip: Range32) returns (back: Range32)
    ensures back == ip <==> IsPrefixRange(ip)
  {
    hide SameBit, Octets, PrefixRange, SharePrefix;
    var octets, len := PrintIPv4(ip);
    back := ParseIPRange(octets, len);
    AddressOfOctets(ip.low);
    if IsPrefixRange(ip) {
      var n: nat :| n <= 32 && ip == PrefixRange(ip.low, n);
      LengthOfPrefix(ip.low, n, len);
    }
  }

  /** What was read prints with the same length, and with the octets as aligned by it. */
  method ParseThenPrint(octets: seq<Byte>, len: nat) returns (printed: seq<Byte>, printedLen: nat)
    requires |octets| == 4 && len <= 32
    ensures printedLen == len
    ensures printed == Octets(Clear(Address(octets), PrefixMask(len)))
    ensures printed == octets <==> Clear(Address(octets), PrefixMask(len)) == Address(octets)
  {
    hide SameBit, Octets, Address, SharePrefix, Clear, Fill, PrefixMask;
    var range := ParseIPRange(octets, len);
    printed, printedLen := PrintIPv4(range);
    LengthOfPrefix(Address(octets), len, printedLen);
    OctetsOfAddress(octets);
    AddressOfOctets(range.low);
  }

  lemma LengthOfPrefix(addr: bv32, n: nat, len: nat)
    requires n <= 32 && len <= 32
    requires forall k :: len < k <= 32 ==> !SameBit(PrefixRange(addr, n), k)
    requires len > 0 ==> SameBit(PrefixRange(addr, n), len)
    ensures len == n
  {
    hide SameBit, PrefixRange;
    if len > 0 {
      SameBitOfPrefix(addr, n, len);
    }
    if n > 0 {
      SameBitOfPrefix(addr, n, n);
    }
  }
}
