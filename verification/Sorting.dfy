/** Sorting by an order of the caller's, which the program leaves to the standard library. */
module Sorting {

  // Not coming later is transitive: what a strict weak order guarantees.
  ghost predicate WeakOrder<A(!new)>(less: (A, A) -> bool) {
    && (forall a, b :: less(a, b) ==> !less(b, a))
    && (forall a, b, c :: !less(b, a) && !less(c, b) ==> !less(c, a))
  }

  ghost predicate Sorted<A>(s: seq<A>, less: (A, A) -> bool) {
    forall i, j :: 0 <= i < j < |s| ==> !less(s[j], s[i])
  }

  function Inserted<A>(s: seq<A>, x: A, less: (A, A) -> bool): seq<A> {
    if s == [] then [x]
    else if less(x, s[0]) then [x] + s
    else [s[0]] + Inserted(s[1..], x, less)
  }

  function SortedBy<A>(s: seq<A>, less: (A, A) -> bool): seq<A> {
    if s == [] then [] else Inserted(SortedBy(s[..|s| - 1], less), s[|s| - 1], less)
  }

  lemma {:induction false} InsertedSame<A>(s: seq<A>, x: A, less: (A, A) -> bool)
    ensures multiset(Inserted(s, x, less)) == multiset(s) + multiset{x}
  {
    if s != [] {
      assert s == [s[0]] + s[1..];
      InsertedSame(s[1..], x, less);
    }
  }

  lemma {:induction false} InsertedSorted<A(!new)>(s: seq<A>, x: A, less: (A, A) -> bool)
    requires WeakOrder(less) && Sorted(s, less)
    ensures Sorted(Inserted(s, x, less), less)
  {
    if s != [] {
      if less(x, s[0]) {
        forall j | 0 <= j < |s|
          ensures !less(s[j], x)
        {
          assert !less(s[0], x);
          assert j > 0 ==> !less(s[j], s[0]);
        }
      } else {
        var r := Inserted(s[1..], x, less);
        InsertedSorted(s[1..], x, less);
        InsertedSame(s[1..], x, less);
        forall j | 0 <= j < |r|
          ensures !less(r[j], s[0])
        {
          assert r[j] in multiset(r);
          if r[j] != x {
            assert r[j] in multiset(s[1..]);
          }
        }
      }
    }
  }

  lemma {:induction false} SortedByIs<A(!new)>(s: seq<A>, less: (A, A) -> bool)
    requires WeakOrder(less)
    ensures Sorted(SortedBy(s, less), less) && multiset(SortedBy(s, less)) == multiset(s)
    ensures |SortedBy(s, less)| == |s|
  {
    if s != [] {
      var rest, last := s[..|s| - 1], s[|s| - 1];
      assert s == rest + [last];
      SortedByIs(rest, less);
      InsertedSorted(SortedBy(rest, less), last, less);
      InsertedSame(SortedBy(rest, less), last, less);
    }
    assert |SortedBy(s, less)| == |multiset(SortedBy(s, less))| == |multiset(s)|;
  }

  method SortArray<A(!new)>(a: array<A>, less: (A, A) -> bool)
    requires WeakOrder(less)
    modifies a
    ensures Sorted(a[..], less) && multiset(a[..]) == multiset(old(a[..]))
  {
    var s := SortedBy(a[..], less);
    SortedByIs(a[..], less);
    for i := 0 to a.Length
      invariant a[..i] == s[..i]
    {
      a[i] := s[i];
    }
    assert a[..a.Length] == a[..] && s[..a.Length] == s;
  }
}
