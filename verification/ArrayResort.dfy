/** Repairing a descending array after the key of one item has changed (array_resort). */
module ArrayResort {

  ghost predicate Descending<A>(s: seq<A>, key: A -> nat) {
    forall i, j :: 0 <= i < j < |s| ==> key(s[i]) >= key(s[j])
  }

  ghost function Without<A>(s: seq<A>, c: nat): (r: seq<A>)
    requires c < |s|
    ensures |r| == |s| - 1
    ensures forall j {:trigger r[j]} :: 0 <= j < |r| ==> r[j] == if j < c then s[j] else s[j + 1]
  {
    s[..c] + s[c + 1..]
  }

  // Item c taken out and put in again at place i.
  ghost function Moved<A>(s: seq<A>, c: nat, i: nat): (r: seq<A>)
    requires c < |s| && i < |s|
    ensures |r| == |s|
    ensures forall j {:trigger r[j]} :: 0 <= j < |s| ==>
              r[j] == if j < i then Without(s, c)[j] else if j == i then s[c] else Without(s, c)[j - 1]
  {
    Without(s, c)[..i] + [s[c]] + Without(s, c)[i..]
  }

  lemma WithoutAt<A>(s: seq<A>, c: nat)
    requires c < |s|
    ensures |Without(s, c)| == |s| - 1
    ensures forall j {:trigger Without(s, c)[j]} :: 0 <= j < |s| - 1 ==>
        Without(s, c)[j] == if j < c then s[j] else s[j + 1]
  {
  }

  lemma MovedAt<A>(s: seq<A>, c: nat, i: nat)
    requires c < |s| && i < |s|
    ensures |Without(s, c)| == |s| - 1 && |Moved(s, c, i)| == |s|
    ensures forall j {:trigger Moved(s, c, i)[j]} :: 0 <= j < |s| ==>
              Moved(s, c, i)[j] == if j < i then Without(s, c)[j] else if j == i then s[c] else Without(s, c)[j - 1]
  {
  }

  lemma MovedSame<A>(s: seq<A>, c: nat, i: nat)
    requires c < |s| && i < |s|
    ensures multiset(Moved(s, c, i)) == multiset(s)
  {
    var w := Without(s, c);
    assert s == s[..c] + [s[c]] + s[c + 1..];
    assert multiset(s) == multiset(w) + multiset{s[c]};
    assert w == w[..i] + w[i..];
    assert multiset(Moved(s, c, i)) == multiset(w[..i]) + multiset{s[c]} + multiset(w[i..]);
  }

  // The place is right: no item before it is smaller, none behind it is larger, and the
  // item has not passed one of its own size.
  ghost predicate RightPlace<A>(s: seq<A>, c: nat, i: nat, key: A -> nat)
    requires c < |s| && i < |s|
  {
    && (forall j :: 0 <= j < i ==> key(Without(s, c)[j]) >= key(s[c]))
    && (forall j :: i <= j < |s| - 1 ==> key(Without(s, c)[j]) <= key(s[c]))
    && (i < c ==> forall j :: i <= j < c ==> key(Without(s, c)[j]) < key(s[c]))
    && (c < i ==> forall j :: c <= j < i ==> key(Without(s, c)[j]) > key(s[c]))
  }

  lemma MovedSorted<A>(s: seq<A>, c: nat, i: nat, key: A -> nat)
    requires c < |s| && i < |s| && Descending(Without(s, c), key) && RightPlace(s, c, i, key)
    ensures Descending(Moved(s, c, i), key)
  {
    MovedAt(s, c, i);
  }

  // Item c was moved to its place, and all is in order.
  ghost predicate Repaired<A>(s: seq<A>, r: seq<A>, c: nat, at: nat, key: A -> nat) {
    && c < |s| && at < |s| && RightPlace(s, c, at, key)
    && r == Moved(s, c, at) && Descending(r, key) && multiset(r) == multiset(s)
  }

  /**
   * Moves the changed item to its place among the first n; the others, which are in
   * order, keep their order.
   */
  method Resort<A>(arr: array<A>, n: nat, c: nat, key: A -> nat) returns (at: nat)
    requires c < n <= arr.Length && Descending(Without(arr[..n], c), key)
    modifies arr
    ensures Repaired(old(arr[..n]), arr[..n], c, at, key)
    ensures arr[n..] == old(arr[n..])
  {
    hide Without, Moved, Descending, RightPlace, Repaired;
    ghost var s := arr[..n];
    at := c;
    if n == 1 {
      StaysThere(s, c, key);
      return;
    }
    at := MoveLeft(arr, n, c, key);
    if at == c {
      at := MoveRight(arr, n, c, key);
    }
  }

  // Tries to move the item to the left.
  method MoveLeft<A>(arr: array<A>, n: nat, c: nat, key: A -> nat) returns (at: nat)
    requires c < n <= arr.Length && Descending(Without(arr[..n], c), key)
    modifies arr
    ensures arr[n..] == old(arr[n..])
    ensures at != c ==> Repaired(old(arr[..n]), arr[..n], c, at, key)
    ensures at == c ==> arr[..] == old(arr[..]) && (c > 0 ==> key(arr[c - 1]) >= key(arr[c]))
  {
    hide Without, Moved, Descending, RightPlace;
    ghost var s := arr[..n];
    var tmp := arr[c];
    var p := key(tmp);
    at := c;
    while at >= 1 && key(arr[at - 1]) < p
      invariant 0 <= at <= c && arr[..n] == s && arr[..] == old(arr[..])
      invariant forall j :: at <= j < c ==> key(s[j]) < p
    {
      at := at - 1;
    }
    if at != c {
      ShiftRight(arr, at, c);
      arr[at] := tmp;
      LeftDone(s, arr[..n], c, at, key);
    }
  }

  // Tries to move it to the right.
  method MoveRight<A>(arr: array<A>, n: nat, c: nat, key: A -> nat) returns (at: nat)
    requires c < n <= arr.Length && Descending(Without(arr[..n], c), key)
    requires c > 0 ==> key(arr[c - 1]) >= key(arr[c])
    modifies arr
    ensures arr[n..] == old(arr[n..])
    ensures Repaired(old(arr[..n]), arr[..n], c, at, key)
  {
    hide Without, Moved, Descending, RightPlace;
    ghost var s := arr[..n];
    var tmp := arr[c];
    var p := key(tmp);
    at := c;
    while at < n - 1 && key(arr[at + 1]) > p
      invariant c <= at <= n - 1 && arr[..n] == s && arr[..] == old(arr[..])
      invariant forall j :: c < j <= at ==> key(s[j]) > p
    {
      at := at + 1;
    }
    if at != c {
      ShiftLeft(arr, c, at);
      arr[at] := tmp;
      RightDone(s, arr[..n], c, at, key);
    } else {
      NotMoved(s, c, key);
    }
  }

  // Moves the items from..to one place to the right.
  method ShiftRight<A>(arr: array<A>, from: nat, to: nat)
    requires from <= to < arr.Length
    modifies arr
    ensures forall j {:trigger arr[j]} :: 0 <= j < arr.Length ==>
        arr[j] == if from < j <= to then old(arr[j - 1]) else old(arr[j])
  {
    var i := to;
    while i > from
      invariant from <= i <= to
      invariant forall j {:trigger arr[j]} :: 0 <= j < arr.Length ==>
          arr[j] == if i < j <= to then old(arr[j - 1]) else old(arr[j])
    {
      arr[i] := arr[i - 1];
      i := i - 1;
    }
  }

  // Moves the items from + 1..=to one place to the left.
  method ShiftLeft<A>(arr: array<A>, from: nat, to: nat)
    requires from <= to < arr.Length
    modifies arr
    ensures forall j {:trigger arr[j]} :: 0 <= j < arr.Length ==>
        arr[j] == if from <= j < to then old(arr[j + 1]) else old(arr[j])
  {
    var i := from;
    while i < to
      invariant from <= i <= to
      invariant forall j {:trigger arr[j]} :: 0 <= j < arr.Length ==>
          arr[j] == if from <= j < i then old(arr[j + 1]) else old(arr[j])
    {
      arr[i] := arr[i + 1];
      i := i + 1;
    }
  }

  lemma StaysThere<A>(s: seq<A>, c: nat, key: A -> nat)
    requires |s| == 1 && c == 0
    ensures Repaired(s, s, c, c, key)
  {
  }

  lemma LeftDone<A>(s: seq<A>, r: seq<A>, c: nat, i: nat, key: A -> nat)
    requires i < c < |s| && |r| == |s| && Descending(Without(s, c), key)
    requires forall j {:trigger r[j]} :: 0 <= j < |s| ==>
        r[j] == if j == i then s[c] else if i < j <= c then s[j - 1] else s[j]
    requires forall j :: i <= j < c ==> key(s[j]) < key(s[c])
    requires i > 0 ==> key(s[i - 1]) >= key(s[c])
    ensures RightPlace(s, c, i, key) && r == Moved(s, c, i) && Descending(r, key) && multiset(r) == multiset(s)
  {
    hide Without, Moved;
    WithoutAt(s, c);
    MovedAt(s, c, i);
    assert r == Moved(s, c, i);
    var w := Without(s, c);
    forall j | 0 <= j < |w|
      ensures j < i ==> key(w[j]) >= key(s[c])
      ensures j >= i ==> key(w[j]) < key(s[c])
    {
      if j < i {
        assert key(w[j]) >= key(w[i - 1]);
      } else {
        assert key(w[i]) >= key(w[j]);
      }
    }
    MovedSorted(s, c, i, key);
    MovedSame(s, c, i);
  }

  lemma RightDone<A>(s: seq<A>, r: seq<A>, c: nat, i: nat, key: A -> nat)
    requires c < i < |s| && |r| == |s| && Descending(Without(s, c), key)
    requires forall j {:trigger r[j]} :: 0 <= j < |s| ==>
        r[j] == if j == i then s[c] else if c <= j < i then s[j + 1] else s[j]
    requires forall j :: c < j <= i ==> key(s[j]) > key(s[c])
    requires i + 1 < |s| ==> key(s[i + 1]) <= key(s[c])
    ensures RightPlace(s, c, i, key) && r == Moved(s, c, i) && Descending(r, key) && multiset(r) == multiset(s)
  {
    hide Without, Moved;
    WithoutAt(s, c);
    MovedAt(s, c, i);
    assert r == Moved(s, c, i);
    var w := Without(s, c);
    forall j | 0 <= j < |w|
      ensures j < i ==> key(w[j]) > key(s[c])
      ensures j >= i ==> key(w[j]) <= key(s[c])
    {
      if j < i {
        assert key(w[j]) >= key(w[i - 1]);
      } else {
        assert key(w[i]) >= key(w[j]);
      }
    }
    MovedSorted(s, c, i, key);
    MovedSame(s, c, i);
  }

  lemma NotMoved<A>(s: seq<A>, c: nat, key: A -> nat)
    requires c < |s| && Descending(Without(s, c), key)
    requires c > 0 ==> key(s[c - 1]) >= key(s[c])
    requires c + 1 < |s| ==> key(s[c + 1]) <= key(s[c])
    ensures RightPlace(s, c, c, key) && Moved(s, c, c) == s && Descending(s, key)
  {
    hide Without, Moved;
    WithoutAt(s, c);
    MovedAt(s, c, c);
    var w := Without(s, c);
    forall j | 0 <= j < |w|
      ensures j < c ==> key(w[j]) >= key(s[c])
      ensures j >= c ==> key(w[j]) <= key(s[c])
    {
      if j < c {
        assert key(w[j]) >= key(w[c - 1]);
      } else {
        assert key(w[c]) >= key(w[j]);
      }
    }
    MovedSorted(s, c, c, key);
    assert Moved(s, c, c) == s;
  }
}
