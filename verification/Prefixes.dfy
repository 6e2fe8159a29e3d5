/**
 * The common prefix of two numbers and its mask, computed byte by byte, as in
 * include/pcv/common/range.h. A number is the sequence of its bytes, the lowest first,
 * as it lies in memory; its bits are counted from the most significant one.
 */
module Prefixes {
  type Byte = bv8

  // Bit j of a byte, counted from the most significant one.
  predicate BitAt(x: Byte, j: nat)
    requires j < 8
  {
    (x >> (7 - j)) & 1 == 1
  }

  predicate Bit(s: seq<Byte>, k: nat)
    requires k < 8 * |s|
  {
    BitAt(s[|s| - 1 - k / 8], k % 8)
  }

  // Numbers whose bits are the same are the same.
  lemma SameBits(x: Byte, y: Byte)
    requires forall j :: 0 <= j < 8 ==> BitAt(x, j) == BitAt(y, j)
    ensures x == y
  {
    assert BitAt(x, 0) == BitAt(y, 0) && BitAt(x, 1) == BitAt(y, 1);
    assert BitAt(x, 2) == BitAt(y, 2) && BitAt(x, 3) == BitAt(y, 3);
    assert BitAt(x, 4) == BitAt(y, 4) && BitAt(x, 5) == BitAt(y, 5);
    assert BitAt(x, 6) == BitAt(y, 6) && BitAt(x, 7) == BitAt(y, 7);
  }

  // The table of 256 entries, by its runs of equal ones.
  function BytePrefix(x: Byte): nat {
    if x == 0 then 8
    else if x < 2 then 7
    else if x < 4 then 6
    else if x < 8 then 5
    else if x < 16 then 4
    else if x < 32 then 3
    else if x < 64 then 2
    else if x < 128 then 1
    else 0
  }

  const MASK_VAL: seq<Byte> := [0, 0x80, 0xc0, 0xe0, 0xf0, 0xf8, 0xfc, 0xfe, 0xff]

  function GetCommonPrefixLength(a: Byte, b: Byte): (p: (nat, Byte))
    ensures p.0 <= 8
  {
    (BytePrefix(a ^ b), MASK_VAL[BytePrefix(a ^ b)])
  }

  lemma BytePrefixIsLongest(a: Byte, b: Byte, j: nat)
    requires j < 8
    ensures j < BytePrefix(a ^ b) ==> BitAt(a, j) == BitAt(b, j)
    ensures j == BytePrefix(a ^ b) ==> BitAt(a, j) != BitAt(b, j)
  {
  }

  lemma MaskValBits(pl: nat, j: nat)
    requires pl <= 8 && j < 8
    ensures BitAt(MASK_VAL[pl], j) <==> j < pl
  {
  }

  // The two numbers agree in exactly n leading bits.
  ghost predicate LongestPrefix(low: seq<Byte>, high: seq<Byte>, n: nat) {
    && |low| == |high| && n <= 8 * |low|
    && (forall k :: 0 <= k < n ==> Bit(low, k) == Bit(high, k))
    && (n < 8 * |low| ==> Bit(low, n) != Bit(high, n))
  }

  // The leading n bits are set and no other.
  ghost predicate IsMask(mask: seq<Byte>, n: nat) {
    n <= 8 * |mask| && forall k :: 0 <= k < 8 * |mask| ==> (Bit(mask, k) <==> k < n)
  }

  lemma LongestIsUnique(low: seq<Byte>, high: seq<Byte>, n: nat, p: nat)
    requires LongestPrefix(low, high, n) && LongestPrefix(low, high, p)
    ensures n == p
  {
  }

  lemma MaskIsUnique(a: seq<Byte>, b: seq<Byte>, n: nat)
    requires |a| == |b| && IsMask(a, n) && IsMask(b, n)
    ensures a == b
  {
    forall i | 0 <= i < |a| ensures a[i] == b[i] {
      forall j | 0 <= j < 8 ensures BitAt(a[i], j) == BitAt(b[i], j) {
        var k := 8 * (|a| - 1 - i) + j;
        assert Bit(a, k) == Bit(b, k);
      }
      SameBits(a[i], b[i]);
    }
  }

  // What the loop has done after the bytes from b on agreed.
  ghost predicate Agreed(low: seq<Byte>, high: seq<Byte>, mask: seq<Byte>, b: nat) {
    && |low| == |high| == |mask| && b <= |low|
    && (forall i :: b <= i < |low| ==> low[i] == high[i] && mask[i] == 0xff)
    && (forall i :: 0 <= i < b ==> mask[i] == 0)
  }

  // One bit after the bytes number b differ in bit pl.
  lemma StoppedBit(low: seq<Byte>, high: seq<Byte>, mask: seq<Byte>, b: nat, pl: nat, k: nat)
    requires |low| == |high| == |mask| && b < |low| && pl < 8 && k < 8 * |low|
    requires pl == BytePrefix(low[b] ^ high[b]) && mask[b] == MASK_VAL[pl]
    requires forall i :: b < i < |low| ==> low[i] == high[i] && mask[i] == 0xff
    requires forall i :: 0 <= i < b ==> mask[i] == 0
    ensures k < 8 * (|low| - 1 - b) + pl ==> Bit(low, k) == Bit(high, k)
    ensures k == 8 * (|low| - 1 - b) + pl ==> Bit(low, k) != Bit(high, k)
    ensures Bit(mask, k) <==> k < 8 * (|low| - 1 - b) + pl
  {
    hide BitAt, BytePrefix;
    var i, j := |low| - 1 - k / 8, k % 8;
    if i == b {
      BytePrefixIsLongest(low[b], high[b], j);
      MaskValBits(pl, j);
    } else {
      MaskValBits(8, j);
      MaskValBits(0, j);
    }
  }

  lemma Stopped(low: seq<Byte>, high: seq<Byte>, mask: seq<Byte>, b: nat)
    requires Agreed(low, high, mask, b + 1)
    ensures var p := GetCommonPrefixLength(low[b], high[b]);
            && (p.0 != 8 ==> LongestPrefix(low, high, 8 * (|low| - 1 - b) + p.0))
            && (p.0 != 8 ==> IsMask(mask[b := p.1], 8 * (|low| - 1 - b) + p.0))
            && (p.0 == 8 ==> Agreed(low, high, mask[b := p.1], b))
  {
    hide Bit;
    var p := GetCommonPrefixLength(low[b], high[b]);
    var n := 8 * (|low| - 1 - b) + p.0;
    var m := mask[b := p.1];
    if p.0 != 8 {
      forall k | 0 <= k < 8 * |low|
        ensures k < n ==> Bit(low, k) == Bit(high, k)
        ensures k == n ==> Bit(low, k) != Bit(high, k)
        ensures Bit(m, k) <==> k < n
      {
        StoppedBit(low, high, m, b, p.0, k);
      }
    }
  }

  lemma AllAgreed(low: seq<Byte>, high: seq<Byte>, mask: seq<Byte>)
    requires Agreed(low, high, mask, 0)
    ensures LongestPrefix(low, high, 8 * |low|) && IsMask(mask, 8 * |low|)
  {
    forall k | 0 <= k < 8 * |low| ensures Bit(mask, k) {
      MaskValBits(8, k % 8);
    }
  }

  /** The length of the longest common prefix of both ends, and its mask. */
  method GetMaskLe(low: seq<Byte>, high: seq<Byte>) returns (mask: seq<Byte>, prefixLen: nat)
    requires |low| == |high|
    ensures |mask| == |low| && LongestPrefix(low, high, prefixLen) && IsMask(mask, prefixLen)
  {
    hide LongestPrefix, IsMask, GetCommonPrefixLength;
    mask := seq(|low|, _ => 0);
    prefixLen := 0;
    var b: nat := |low|;
    while b > 0
      invariant Agreed(low, high, mask, b) && prefixLen == 8 * (|low| - b)
    {
      b := b - 1;
      var (pl, pm) := GetCommonPrefixLength(low[b], high[b]);
      Stopped(low, high, mask, b);
      mask := mask[b := pm];
      prefixLen := prefixLen + pl;
      if pl != 8 {
        return;
      }
    }
    AllAgreed(low, high, mask);
  }

  // The upper end that from_mask gives a range: low | ~mask.
  function UpperEnd(low: seq<Byte>, mask: seq<Byte>): (high: seq<Byte>)
    requires |low| == |mask|
    ensures |high| == |low|
  {
    seq(|low|, i requires 0 <= i < |low| => low[i] | !mask[i])
  }

  lemma UpperEndBits(low: seq<Byte>, mask: seq<Byte>, k: nat)
    requires |low| == |mask| && k < 8 * |low|
    ensures Bit(UpperEnd(low, mask), k) <==> Bit(low, k) || !Bit(mask, k)
  {
    var i, j := |low| - 1 - k / 8, k % 8;
    OrNotBits(low[i], mask[i], j);
  }

  lemma OrNotBits(x: Byte, m: Byte, j: nat)
    requires j < 8
    ensures BitAt(x | !m, j) <==> BitAt(x, j) || !BitAt(m, j)
  {
  }

  /**
   * A range made from a prefix mask gives the mask and its length back exactly when the
   * first bit behind the mask is clear; an aligned value has it clear.
   */
  lemma MaskRecovered(low: seq<Byte>, mask: seq<Byte>, n: nat, got: seq<Byte>, prefixLen: nat)
    requires |low| == |mask| == |got| && IsMask(mask, n)
    requires LongestPrefix(low, UpperEnd(low, mask), prefixLen) && IsMask(got, prefixLen)
    ensures got == mask && prefixLen == n <==> n == 8 * |low| || !Bit(low, n)
    ensures prefixLen >= n
  {
    var high := UpperEnd(low, mask);
    forall k | 0 <= k < 8 * |low| ensures Bit(high, k) <==> Bit(low, k) || !Bit(mask, k) {
      UpperEndBits(low, mask, k);
    }
    if n == 8 * |low| || !Bit(low, n) {
      LongestIsUnique(low, high, n, prefixLen);
      MaskIsUnique(got, mask, n);
    }
  }
}
