/** Closed ranges over one packet field, as in include/pcv/common/range.h. */
module Ranges {
  // The largest value of a field: numeric_limits of the template parameter T.
  const KEY_MAX: nat

  datatype Range = Range(low: nat, high: nat) {
    predicate Valid() {
      low <= high <= KEY_MAX
    }

    predicate InRange(val: nat) {
      low <= val <= high
    }

    predicate IsWildcard() {
      low == 0 && high == KEY_MAX
    }

    // The relation as the program computes it.
    predicate Overlaps(other: Range) {
      || (low <= other.low && high >= other.low)
      || (other.low <= low && other.high >= high)
    }

    predicate Intersects(other: Range) {
      low <= other.high && other.low <= high
    }

    predicate Contains(other: Range) {
      low <= other.low && other.high <= high
    }

    predicate DisjointFrom(other: Range) {
      high < other.low || other.high < low
    }
  }

  predicate NestedOrDisjoint(a: Range, b: Range) {
    a.Contains(b) || b.Contains(a) || a.DisjointFrom(b)
  }

  // Whether a stored range and the range of a rule meet: as the program asks, or with the
  // relation asked in both directions.
  predicate Meet(both: bool, stored: Range, k: Range) {
    stored.Overlaps(k) || (both && k.Overlaps(stored))
  }

  // Asked in both directions the relation decides intersection.
  lemma MeetExactly(stored: Range, k: Range)
    requires stored.Valid() && k.Valid()
    ensures Meet(true, stored, k) <==> !k.DisjointFrom(stored)
  {
  }

  // `overlaps` decides intersection exactly, except for one family of pairs: the
  // other range starts on the left of this one and ends strictly inside it.
  lemma OverlapsExactly(a: Range, b: Range)
    requires a.Valid() && b.Valid()
    ensures a.Overlaps(b) == a.Intersects(b) <==> !(b.low < a.low <= b.high < a.high)
    ensures NestedOrDisjoint(a, b) ==> a.Overlaps(b) == a.Intersects(b)
    ensures a.Intersects(b) ==> exists v: nat :: a.InRange(v) && b.InRange(v)
  {
    if a.Intersects(b) {
      var v := if a.low <= b.low then b.low else a.low;
      assert a.InRange(v) && b.InRange(v);
    }
  }
}
