/** The allocator with its free list threaded through the slots (DynamicMempool). */
module MemPool {
  import opened Nodes

  ghost function Members(s: seq<nat>): (all: set<nat>)
    ensures forall x :: x in all <==> x in s
  {
    if s == [] then {} else {s[0]} + Members(s[1..])
  }

  lemma {:induction false} MembersCount(s: seq<nat>)
    requires Distinct(s)
    ensures |Members(s)| == |s|
  {
    if s != [] {
      MembersCount(s[1..]);
      assert s[0] !in s[1..];
    }
  }

  lemma {:induction false} Complement(s: seq<nat>, n: nat)
    requires Distinct(s) && forall i :: 0 <= i < |s| ==> s[i] < n
    ensures |s| <= n && |Numbers(n) - Members(s)| == n - |s|
  {
    MembersCount(s);
    assert Members(s) <= Numbers(n);
    assert Numbers(n) == (Numbers(n) - Members(s)) + Members(s);
  }

  // The links lead from slot to slot along the list, and end behind the last one.
  ghost predicate Chained(links: seq<Option<nat>>, list: seq<nat>) {
    && list != [] && list[0] < |links|
    && links[list[0]] == (if |list| == 1 then None else Some(list[1]))
    && (|list| > 1 ==> Chained(links, list[1..]))
  }

  lemma {:induction false} ChainedAt(links: seq<Option<nat>>, list: seq<nat>, i: nat)
    requires Chained(links, list) && i < |list|
    ensures list[i] < |links| && links[list[i]] == if i + 1 == |list| then None else Some(list[i + 1])
  {
    if i > 0 {
      ChainedAt(links, list[1..], i - 1);
    }
  }

  lemma {:induction false} ChainedElsewhere(links: seq<Option<nat>>, list: seq<nat>, x: nat, v: Option<nat>)
    requires Chained(links, list) && x < |links| && x !in list
    ensures Chained(links[x := v], list)
  {
    if |list| > 1 {
      ChainedElsewhere(links, list[1..], x, v);
    }
  }

  lemma {:induction false} IotaChained(links: seq<Option<nat>>, list: seq<nat>, a: nat)
    requires a < |links| && |list| == |links| - a
    requires forall i :: 0 <= i < |list| ==> list[i] == a + i
    requires forall i :: 0 <= i < |links| ==> links[i] == if i + 1 < |links| then Some(i + 1) else None
    ensures Chained(links, list)
    decreases |list|
  {
    if |list| > 1 {
      IotaChained(links, list[1..], a + 1);
    }
  }

  // The list of free slots, and no link in any slot that is not in it.
  ghost predicate FreeList(links: seq<Option<nat>>, first: Option<nat>, list: seq<nat>) {
    && Chained(links, list) && Distinct(list)
    && first == Some(list[0]) && list[|list| - 1] == |links| - 1
    && (forall i :: 0 <= i < |list| ==> list[i] < |links|)
    && (forall x :: 0 <= x < |links| && x !in list ==> links[x] == None)
  }

  lemma {:induction false} FirstIs(links: seq<Option<nat>>, first: Option<nat>, list: seq<nat>)
    requires FreeList(links, first, list)
    ensures |list| >= 1 && first == Some(list[0]) && list[0] < |links| && list[0] in list && list[0] in Members(list)
    ensures |list| >= 2 ==> list[0] != |links| - 1
    ensures Chained(links, list) && Distinct(list)
  {
  }

  // The free list right after construction: all slots in order.
  lemma {:induction false} IotaFree(links: seq<Option<nat>>, list: seq<nat>)
    requires |links| > 0 && |list| == |links|
    requires forall i :: 0 <= i < |list| ==> list[i] == i
    requires forall i :: 0 <= i < |links| ==> links[i] == if i + 1 < |links| then Some(i + 1) else None
    ensures FreeList(links, Some(0), list) && Numbers(|links|) - Members(list) == {}
  {
    hide Chained;
    IotaChained(links, list, 0);
    forall x: nat | x < |links| ensures x in list {
      assert list[x] == x;
    }
  }

  lemma PoppedLinks(links: seq<Option<nat>>, list: seq<nat>)
    requires Chained(links, list) && Distinct(list) && |list| >= 2
    ensures list[0] !in list[1..] && list[0] < |links| && links[list[0]] == Some(list[1])
    ensures Chained(links[list[0] := None], list[1..])
  {
    ChainedElsewhere(links, list[1..], list[0], None);
  }

  lemma {:induction false} Popped(links: seq<Option<nat>>, first: Option<nat>, list: seq<nat>)
    requires FreeList(links, first, list) && |list| >= 2
    ensures FreeList(links[list[0] := None], links[list[0]], list[1..])
    ensures Members(list) == {list[0]} + Members(list[1..]) && list[0] !in list[1..]
  {
    hide Chained;
    PoppedLinks(links, list);
    var rest := list[1..];
    assert forall x :: x in list <==> x == list[0] || x in rest by {
      assert list == [list[0]] + rest;
    }
    assert forall i :: 0 <= i < |rest| ==> rest[i] == list[i + 1];
  }

  lemma {:induction false} Pushed(links: seq<Option<nat>>, first: Option<nat>, list: seq<nat>, x: nat)
    requires FreeList(links, first, list) && x < |links| && x !in list
    ensures FreeList(links[x := first], Some(x), [x] + list)
    ensures Members([x] + list) == {x} + Members(list)
  {
    ChainedElsewhere(links, list, x, first);
    assert ([x] + list)[1..] == list;
  }

  // A free slot shows by its link, except for the last one.
  lemma LinkTells(links: seq<Option<nat>>, first: Option<nat>, list: seq<nat>, x: nat)
    requires FreeList(links, first, list) && x < |links|
    ensures links[x] == None <==> x !in list || x == |links| - 1
    ensures |links| - 1 in list
  {
    if x in list {
      var i :| 0 <= i < |list| && list[i] == x;
      ChainedAt(links, list, i);
    }
  }

  class DynamicMempool {
    const itemCnt: nat
    // next_free of every slot: null for a slot in use, and for the last free one
    const nextFree: array<Option<nat>>
    var firstFree: Option<nat>
    // The free slots in list order.
    ghost var free: seq<nat>
    // Every slot handed out at some time since construction.
    ghost var handed: set<nat>

    ghost predicate Valid()
      reads this, nextFree
    {
      && itemCnt > 1 && nextFree.Length == itemCnt && FreeList(nextFree[..], firstFree, free)
      && Live() <= handed && forall x :: x in handed ==> x < itemCnt - 1
    }

    // The slots in use: all that are not in the list.
    ghost function Live(): set<nat>
      reads this
    {
      Numbers(itemCnt) - Members(free)
    }

    constructor (cnt: nat)
      requires cnt > 1
      ensures Valid() && itemCnt == cnt && Live() == handed == {}
      ensures |free| == cnt && forall i :: 0 <= i < cnt ==> free[i] == i
    {
      hide Chained, FreeList, Members, Numbers;
      itemCnt := cnt;
      nextFree := new Option<nat>[cnt](i requires 0 <= i < cnt => if i + 1 < cnt then Some(i + 1) else None);
      firstFree := Some(0);
      free := seq(cnt, i => i);
      handed := {};
      new;
      ghost var links := nextFree[..];
      IotaFree(links, free);
    }

    // The number of slots in use; walks the whole list.
    method Size() returns (n: nat)
      requires Valid()
      ensures n == |Live()|
    {
      hide Chained, FreeList, Members, Distinct;
      ghost var links, list := nextFree[..], free;
      FirstIs(links, firstFree, list);
      UsedIs();
      var unused := 0;
      var i := firstFree;
      while i.Some?
        invariant 0 <= unused <= |list| && i == if unused < |list| then Some(list[unused]) else None
        decreases |list| - unused
      {
        ChainedAt(links, list, unused);
        unused := unused + 1;
        i := nextFree[i.value];
      }
      return itemCnt - unused;
    }

    /** Takes the first free slot. The program asserts that two more remain behind it. */
    method Get() returns (indx: nat)
      requires Valid() && |free| >= 3
      modifies this, nextFree
      ensures Valid() && indx !in old(Live()) && indx < itemCnt && indx != itemCnt - 1
      ensures Live() == old(Live()) + {indx} && indx == old(free)[0] && free == old(free)[1..]
      ensures handed == old(handed) + {indx}
    {
      hide FreeList, Members, Chained;
      ghost var links, list := nextFree[..], free;
      FirstIs(links, firstFree, list);
      Popped(links, firstFree, list);
      indx := firstFree.value;
      var tmp := nextFree[indx];
      nextFree[indx] := None;
      firstFree := tmp;
      free := list[1..];
      handed := handed + {indx};
      assert nextFree[..] == links[indx := None];
    }

    /**
     * Puts a slot in front of the list. A slot that is free already is detected by its
     * link, unless it is the last one, which has none; that one is never handed out, so
     * every second release of a slot is detected.
     */
    method Release(indx: nat) returns (ok: bool)
      requires Valid() && indx < itemCnt
      modifies this, nextFree
      ensures ok == (indx in old(Live()) || indx == itemCnt - 1)
      ensures indx in handed ==> Valid() && ok == (indx in old(Live()))
      ensures handed == old(handed)
      ensures !ok ==> Valid() && free == old(free) && Live() == old(Live())
      ensures indx in old(Live()) ==> Valid() && free == [indx] + old(free) && Live() == old(Live()) - {indx}
      ensures ok && indx !in old(Live()) ==> nextFree[indx] == old(firstFree) && firstFree == Some(indx)
    {
      hide FreeList, Members, Chained;
      ghost var links, list := nextFree[..], free;
      LiveIs(indx);
      LinkTells(links, firstFree, list, indx);
      if nextFree[indx] != None {
        return false;
      }
      if indx !in list {
        Pushed(links, firstFree, list, indx);
      }
      nextFree[indx] := firstFree;
      firstFree := Some(indx);
      assert nextFree[..] == links[indx := old(firstFree)];
      if indx !in list {
        free := [indx] + list;
      }
      return true;
    }

    lemma UsedIs()
      requires Valid()
      ensures |Live()| == itemCnt - |free|
    {
      hide Chained;
      Complement(free, itemCnt);
    }

    lemma LiveIs(indx: nat)
      requires indx < itemCnt
      ensures indx in Live() <==> indx !in free
    {
    }
  }
}
