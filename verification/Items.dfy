/** Rule values and the sorted item sequences that every level of a tree holds. */
module Items {
  import opened Ranges

  const INVALID_RULE: nat := 0xFF_FFFF

  // RuleValueInt: what a search returns.
  datatype Value = Value(priority: nat, ruleId: nat) {
    predicate IsValid() {
      ruleId != INVALID_RULE
    }
  }

  const NO_VALUE := Value(0, INVALID_RULE)

  // A key with its value and whatever stands for its next layer.
  datatype Item<+N> = Item(key: Range, value: Value, next: N)

  ghost predicate Ascending<N>(s: seq<Item<N>>) {
    forall i, j :: 0 <= i < j < |s| ==> s[i].key.low < s[j].key.low
  }

  // Sorted and pairwise disjoint, non-empty keys.
  ghost predicate Separated<N>(s: seq<Item<N>>) {
    && (forall i :: 0 <= i < |s| ==> s[i].key.Valid())
    && (forall i, j :: 0 <= i < j < |s| ==> s[i].key.high < s[j].key.low)
  }

  predicate DisjointFromAll<N>(k: Range, s: seq<Item<N>>) {
    forall i :: 0 <= i < |s| ==> k.DisjointFrom(s[i].key)
  }

  // Index of the item with exactly this key, |s| when there is none.
  function Find<N>(s: seq<Item<N>>, k: Range): (p: nat)
    ensures p <= |s|
    ensures p < |s| ==> s[p].key == k
    ensures forall j :: 0 <= j < p ==> s[j].key != k
  {
    if s == [] || s[0].key == k then 0 else 1 + Find(s[1..], k)
  }

  ghost predicate Has<N>(s: seq<Item<N>>, k: Range) {
    Find(s, k) < |s|
  }

  // Index of the item whose range holds the value, |s| when there is none.
  function Hit<N>(s: seq<Item<N>>, val: nat): (p: nat)
    ensures p <= |s|
    ensures p < |s| ==> s[p].key.InRange(val)
    ensures forall j :: 0 <= j < p ==> !s[j].key.InRange(val)
  {
    if s == [] || s[0].key.InRange(val) then 0 else 1 + Hit(s[1..], val)
  }

  // p is the place of a key with this low end: behind every item that starts no later.
  ghost predicate IsPlace<N>(s: seq<Item<N>>, low: nat, p: nat) {
    && p <= |s|
    && (p > 0 ==> s[p - 1].key.low <= low)
    && (forall j :: p <= j < |s| ==> s[j].key.low > low)
  }

  function Place<N>(s: seq<Item<N>>, low: nat): (p: nat)
    ensures IsPlace(s, low, p)
  {
    if s == [] then 0
    else if s[|s| - 1].key.low <= low then |s|
    else Place(s[..|s| - 1], low)
  }

  function Put<N>(s: seq<Item<N>>, x: Item<N>): seq<Item<N>> {
    var p := Place(s, x.key.low);
    s[..p] + [x] + s[p..]
  }

  function Del<N>(s: seq<Item<N>>, k: Range): seq<Item<N>> {
    var p := Find(s, k);
    if p == |s| then s else s[..p] + s[p + 1..]
  }

  lemma SeparatedAscending<N>(s: seq<Item<N>>)
    requires Separated(s)
    ensures Ascending(s)
  {
  }

  lemma {:induction false} FindIs<N>(s: seq<Item<N>>, k: Range, p: nat)
    requires Ascending(s) && p < |s| && s[p].key == k
    ensures Find(s, k) == p
  {
  }

  lemma {:induction false} HitIs<N>(s: seq<Item<N>>, val: nat, p: nat)
    requires Separated(s) && p < |s| && s[p].key.InRange(val)
    ensures Hit(s, val) == p
  {
  }

  lemma {:induction false} PlaceIs<N>(s: seq<Item<N>>, low: nat, p: nat)
    requires IsPlace(s, low, p)
    ensures Place(s, low) == p
  {
  }

  // Putting a key that belongs in the middle part leaves the outer parts alone.
  lemma PutInMiddle<N>(a: seq<Item<N>>, b: seq<Item<N>>, c: seq<Item<N>>, x: Item<N>)
    requires forall i :: 0 <= i < |a| ==> a[i].key.low <= x.key.low
    requires forall i :: 0 <= i < |c| ==> c[i].key.low > x.key.low
    ensures Put(a + b + c, x) == a + Put(b, x) + c
  {
    var p := Place(b, x.key.low);
    var s := a + b + c;
    assert IsPlace(s, x.key.low, |a| + p) by {
      forall j | |a| + p <= j < |s|
        ensures s[j].key.low > x.key.low
      {
        if j < |a| + |b| {
          assert s[j] == b[j - |a|];
        } else {
          assert s[j] == c[j - |a| - |b|];
        }
      }
    }
    PlaceIs(s, x.key.low, |a| + p);
    SpliceInMiddle(a, b, c, [x], p, p);
  }

  // Cutting b[p..q] out of the middle part and writing r there instead.
  lemma SpliceInMiddle<A>(a: seq<A>, b: seq<A>, c: seq<A>, r: seq<A>, p: nat, q: nat)
    requires p <= q <= |b|
    ensures (a + b + c)[..|a| + p] + r + (a + b + c)[|a| + q..] == a + (b[..p] + r + b[q..]) + c
  {
    var s := a + b + c;
    assert s[..|a| + p] == a + b[..p];
    assert s[|a| + q..] == b[q..] + c;
  }

  // Deleting a key that only the middle part may hold leaves the outer parts alone.
  lemma DelInMiddle<N>(a: seq<Item<N>>, b: seq<Item<N>>, c: seq<Item<N>>, k: Range)
    requires Ascending(a + b + c)
    requires forall i :: 0 <= i < |a| ==> a[i].key != k
    requires forall i :: 0 <= i < |c| ==> c[i].key != k
    ensures Del(a + b + c, k) == a + Del(b, k) + c
    ensures Has(a + b + c, k) == Has(b, k)
  {
    var s := a + b + c;
    var p := Find(b, k);
    if p < |b| {
      assert s[|a| + p] == b[p];
      FindIs(s, k, |a| + p);
      SpliceInMiddle(a, b, c, [], p, p + 1);
      assert s[..|a| + p] + [] == s[..|a| + p] && b[..p] + [] == b[..p];
    } else {
      forall j | 0 <= j < |s|
        ensures s[j].key != k
      {
        if j < |a| {
          assert s[j] == a[j];
        } else if j < |a| + |b| {
          assert s[j] == b[j - |a|];
        } else {
          assert s[j] == c[j - |a| - |b|];
        }
      }
    }
  }

  // A key disjoint from all others fits between its neighbours.
  lemma {:induction false} PlaceBetween<N>(s: seq<Item<N>>, k: Range, i: nat)
    requires Separated(s) && k.Valid() && DisjointFromAll(k, s) && i < |s|
    ensures i < Place(s, k.low) ==> s[i].key.high < k.low
    ensures i >= Place(s, k.low) ==> k.high < s[i].key.low
  {
    var p := Place(s, k.low);
    assert k.DisjointFrom(s[i].key) && s[i].key.Valid();
    if i + 1 < p {
      assert s[i].key.high < s[p - 1].key.low;
    }
  }

  lemma PutSeparated<N>(s: seq<Item<N>>, x: Item<N>)
    requires Separated(s) && x.key.Valid() && DisjointFromAll(x.key, s)
    ensures Separated(Put(s, x))
  {
    var p := Place(s, x.key.low);
    forall i | 0 <= i < |s|
      ensures i < p ==> s[i].key.high < x.key.low
      ensures i >= p ==> x.key.high < s[i].key.low
    {
      PlaceBetween(s, x.key, i);
    }
    InsertSeparated(s, x, p);
  }

  lemma InsertSeparated<N>(s: seq<Item<N>>, x: Item<N>, p: nat)
    requires Separated(s) && x.key.Valid() && p <= |s|
    requires forall i :: 0 <= i < p ==> s[i].key.high < x.key.low
    requires forall i :: p <= i < |s| ==> x.key.high < s[i].key.low
    ensures Separated(s[..p] + [x] + s[p..])
  {
    var t := s[..p] + [x] + s[p..];
    assert forall i :: 0 <= i < p ==> t[i] == s[i];
    assert forall i :: p < i < |t| ==> t[i] == s[i - 1];
    forall i, j | 0 <= i < j < |t|
      ensures t[i].key.high < t[j].key.low
    {
    }
  }

  lemma DelSeparated<N>(s: seq<Item<N>>, k: Range)
    requires Separated(s)
    ensures Separated(Del(s, k))
  {
  }

  lemma SliceAscending<N>(a: seq<Item<N>>, b: seq<Item<N>>, c: seq<Item<N>>)
    requires Ascending(a + b + c)
    ensures Ascending(b)
    ensures forall i, j :: 0 <= i < |a| && 0 <= j < |b| ==> a[i].key.low < b[j].key.low
    ensures forall i, j :: 0 <= i < |b| && 0 <= j < |c| ==> b[i].key.low < c[j].key.low
    ensures forall i, j :: 0 <= i < |a| && 0 <= j < |c| ==> a[i].key.low < c[j].key.low
  {
    var s := a + b + c;
    assert forall j :: 0 <= j < |b| ==> b[j] == s[|a| + j];
    assert forall j :: 0 <= j < |c| ==> c[j] == s[|a| + |b| + j];
    assert forall j :: 0 <= j < |a| ==> a[j] == s[j];
  }

  // ---------- searching for a value or for a range ----------

  // The key type of a search is a template parameter: a packet's value or a rule's range.
  datatype Probe = OfValue(val: nat) | OfRange(k: Range) {
    // The probe lies before the key, so the search goes no further right.
    predicate Precedes(key: Range) {
      if OfValue? then val < key.low else k.low < key.low
    }

    predicate Hits(key: Range) {
      if OfValue? then key.InRange(val) else key == k
    }
  }

  function Seek<N>(s: seq<Item<N>>, probe: Probe): (p: nat)
    ensures p <= |s|
    ensures p < |s| ==> probe.Hits(s[p].key)
    ensures forall j :: 0 <= j < p ==> !probe.Hits(s[j].key)
  {
    if s == [] || probe.Hits(s[0].key) then 0 else 1 + Seek(s[1..], probe)
  }

  lemma {:induction false} SeekIsFindOrHit<N>(s: seq<Item<N>>, probe: Probe)
    ensures Seek(s, probe) == if probe.OfValue? then Hit(s, probe.val) else Find(s, probe.k)
  {
    if s != [] {
      SeekIsFindOrHit(s[1..], probe);
    }
  }

  lemma {:induction false} SeekIs<N>(s: seq<Item<N>>, probe: Probe, p: nat)
    requires Separated(s) && p < |s| && probe.Hits(s[p].key)
    ensures Seek(s, probe) == p
  {
  }
}
