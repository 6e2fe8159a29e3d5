/**
 * B-tree nodes and the memory they live in (b_tree_node.h, b_tree_node_navigator.h).
 *
 * A node is a record of fixed-size buffers plus a key counter, as in the program; what
 * lies behind the counter is stale. The memory maps the index of every allocated slot
 * to its node, so the program's pointers are indices throughout.
 */
module Nodes {
  import opened Ranges
  import opened Items

  type Branching = t: nat | t >= 2 witness 2

  // The template parameter of the tree configuration.
  const T: Branching
  const MIN_DEGREE: nat := T - 1
  const MAX_DEGREE: nat := 2 * T - 1

  type Dimensions = d: nat | d >= 1 witness 1

  // The number of packet fields, hence the largest number of levels.
  const D: Dimensions

  // Which field each level looks at.
  type Order = seq<nat>

  // The numbers below n.
  ghost function Numbers(n: nat): (s: set<nat>)
    ensures |s| == n && forall x: nat :: x in s <==> x < n
  {
    if n == 0 then {} else Numbers(n - 1) + {n - 1}
  }

  datatype Option<+A> = None | Some(value: A) {
    function GetOr(default: A): A {
      if Some? then value else default
    }
  }

  type Index = nat
  type KeyInfo = Item<Option<Index>>

  const NO_KEY: KeyInfo := Item(Range(0, 0), NO_VALUE, None)

  datatype RawNode = Node(
    keys: seq<KeyInfo>,
    dims: seq<nat>,
    children: seq<Option<Index>>,
    keyCnt: nat,
    isLeaf: bool,
    isCompressed: bool,
    parent: Option<Index>)

  predicate Sized(n: RawNode) {
    && |n.keys| == MAX_DEGREE
    && |n.dims| == MAX_DEGREE
    && |n.children| == MAX_DEGREE + 1
    && n.keyCnt <= MAX_DEGREE
  }

  // What the constructor leaves behind.
  function NewNode(): (n: RawNode)
    ensures Sized(n)
    ensures forall i :: 0 <= i <= MAX_DEGREE ==> n.children[i] == None
  {
    Node(
      seq(MAX_DEGREE, _ => NO_KEY),
      seq(MAX_DEGREE, _ => 0),
      seq(MAX_DEGREE + 1, _ => None),
      0, true, false, None)
  }

  type Node = n: RawNode | Sized(n) witness NewNode()

  type Memory = map<Index, Node>

  function Keys(n: Node): (s: seq<KeyInfo>)
    ensures |s| == n.keyCnt
  {
    n.keys[..n.keyCnt]
  }

  function WithParent(n: Node, parent: Option<Index>): Node {
    n.(parent := parent)
  }

  function WithKey(n: Node, i: nat, x: KeyInfo): Node
    requires i < MAX_DEGREE
  {
    n.(keys := n.keys[i := x])
  }

  // ---------- moving blocks inside a buffer ----------

  function ShiftedRight<A>(s: seq<A>, from: nat, to: nat): (r: seq<A>)
    requires from <= to < |s|
    ensures |r| == |s|
  {
    s[..from + 1] + s[from..to] + s[to + 1..]
  }

  function ShiftedLeft<A>(s: seq<A>, from: nat, to: nat): (r: seq<A>)
    requires 0 < from <= to <= |s|
    ensures |r| == |s|
  {
    s[..from - 1] + s[from..to] + s[to - 1..]
  }

  function Copied<A>(dst: seq<A>, at: nat, src: seq<A>, from: nat, cnt: nat): (r: seq<A>)
    requires at + cnt <= |dst| && from + cnt <= |src|
    ensures |r| == |dst|
  {
    dst[..at] + src[from..from + cnt] + dst[at + cnt..]
  }

  lemma ShiftRightStart<A>(s: seq<A>, to: nat)
    requires to < |s|
    ensures ShiftedRight(s, to, to) == s
  {
  }

  lemma ShiftRightStep<A>(s: seq<A>, j: nat, to: nat)
    requires 0 < j <= to < |s|
    ensures ShiftedRight(s, j, to)[j - 1] == s[j - 1]
    ensures ShiftedRight(s, j, to)[j := s[j - 1]] == ShiftedRight(s, j - 1, to)
  {
  }

  lemma ShiftLeftStep<A>(s: seq<A>, from: nat, j: nat)
    requires 0 < from <= j < |s|
    ensures ShiftedLeft(s, from, j)[j] == s[j]
    ensures ShiftedLeft(s, from, j)[j - 1 := s[j]] == ShiftedLeft(s, from, j + 1)
  {
    var a, b := ShiftedLeft(s, from, j)[j - 1 := s[j]], ShiftedLeft(s, from, j + 1);
    forall x | 0 <= x < |s|
      ensures a[x] == b[x]
    {
      if x < from - 1 {
      } else if x < j - 1 {
        assert a[x] == s[x + 1];
      } else {
      }
    }
  }

  lemma CopyStep<A>(dst: seq<A>, at: nat, src: seq<A>, from: nat, j: nat)
    requires at + j < |dst| && from + j < |src|
    ensures Copied(dst, at, src, from, j)[at + j := src[from + j]] == Copied(dst, at, src, from, j + 1)
  {
    var a, b := Copied(dst, at, src, from, j)[at + j := src[from + j]], Copied(dst, at, src, from, j + 1);
    forall x | 0 <= x < |dst|
      ensures a[x] == b[x]
    {
      if x < at {
      } else if x < at + j {
        assert a[x] == src[from + (x - at)];
      } else {
      }
    }
  }

  // The same on whole nodes, one step at a time.
  ghost function KeysRight(n: Node, from: nat, to: nat): Node
    requires from <= to < MAX_DEGREE
  {
    n.(keys := ShiftedRight(n.keys, from, to))
  }

  ghost function KeysLeft(n: Node, from: nat, to: nat): Node
    requires 0 < from <= to <= MAX_DEGREE
  {
    n.(keys := ShiftedLeft(n.keys, from, to))
  }

  ghost function ChildrenLeft(n: Node, from: nat, to: nat): Node
    requires 0 < from <= to <= MAX_DEGREE + 1
  {
    n.(children := ShiftedLeft(n.children, from, to))
  }

  lemma KeysRightStep(n: Node, j: nat, to: nat)
    requires 0 < j <= to < MAX_DEGREE
    ensures KeysRight(n, j, to).keys[j - 1] == n.keys[j - 1]
    ensures KeysRight(n, j - 1, to) == WithKey(KeysRight(n, j, to), j, KeysRight(n, j, to).keys[j - 1])
  {
    ShiftRightStep(n.keys, j, to);
  }

  lemma KeysLeftStep(n: Node, from: nat, j: nat)
    requires 0 < from <= j < MAX_DEGREE
    ensures KeysLeft(n, from, j + 1) == WithKey(KeysLeft(n, from, j), j - 1, KeysLeft(n, from, j).keys[j])
  {
    ShiftLeftStep(n.keys, from, j);
  }

  lemma ChildrenLeftStep(n: Node, from: nat, j: nat)
    requires 0 < from <= j <= MAX_DEGREE
    ensures var c := ChildrenLeft(n, from, j);
            ChildrenLeft(n, from, j + 1) == c.(children := c.children[j - 1 := c.children[j]])
  {
    ShiftLeftStep(n.children, from, j);
  }

  lemma NothingShifted(n: Node)
    ensures forall k :: 0 <= k < MAX_DEGREE ==> KeysRight(n, k, k) == n
    ensures forall k :: 0 < k <= MAX_DEGREE ==> KeysLeft(n, k, k) == n
    ensures forall k :: 0 < k <= MAX_DEGREE + 1 ==> ChildrenLeft(n, k, k) == n
  {
    forall k | 0 <= k < MAX_DEGREE ensures ShiftedRight(n.keys, k, k) == n.keys {
    }
    forall k | 0 < k <= MAX_DEGREE ensures ShiftedLeft(n.keys, k, k) == n.keys {
    }
    forall k | 0 < k <= MAX_DEGREE + 1 ensures ShiftedLeft(n.children, k, k) == n.children {
    }
  }

  lemma NodeShifts(n: Node, from: nat, to: nat)
    ensures from <= to < MAX_DEGREE ==> KeysRight(n, from, to) == n.(keys := ShiftedRight(n.keys, from, to))
    ensures 0 < from <= to <= MAX_DEGREE ==> KeysLeft(n, from, to) == n.(keys := ShiftedLeft(n.keys, from, to))
    ensures 0 < from <= to <= MAX_DEGREE + 1 ==>
        ChildrenLeft(n, from, to) == n.(children := ShiftedLeft(n.children, from, to))
  {
  }

  ghost predicate Distinct<A>(s: seq<A>) {
    forall i, j :: 0 <= i < j < |s| ==> s[i] != s[j]
  }

  // Memory after the nodes `cs` were made children of `dst` from position `at` on.
  ghost predicate Adopted(m0: Memory, m1: Memory, dst: Index, at: nat, cs: seq<Index>) {
    && dst in m0 && dst !in cs && at + |cs| <= MAX_DEGREE + 1
    && m1.Keys == m0.Keys
    && m1[dst] == m0[dst].(children := Copied(m0[dst].children, at, Somes(cs), 0, |cs|))
    && (forall x :: x in m0 && x != dst && x !in cs ==> m1[x] == m0[x])
    && (forall x :: x in m0 && x in cs ==> m1[x] == WithParent(m0[x], Some(dst)))
  }

  lemma NoneAdopted(m: Memory, dst: Index, at: nat, none: seq<Index>)
    requires dst in m && at <= MAX_DEGREE + 1 && none == []
    ensures Adopted(m, m, dst, at, none)
  {
    assert Copied(m[dst].children, at, Somes(none), 0, 0) == m[dst].children;
  }

  lemma NotAdopted(m0: Memory, m1: Memory, dst: Index, at: nat, cs: seq<Index>, x: Index)
    requires Adopted(m0, m1, dst, at, cs) && x in m0 && x != dst && x !in cs
    ensures m1.Keys == m0.Keys && m1[x] == m0[x]
  {
  }

  lemma AdoptOneMore(m0: Memory, m1: Memory, m2: Memory, dst: Index, at: nat, cs: seq<Index>, j: nat)
    requires j < |cs| && Distinct(cs) && dst !in cs && cs[j] in m0 && at + |cs| <= MAX_DEGREE + 1
    requires Adopted(m0, m1, dst, at, cs[..j])
    requires m2 == m1[dst := m1[dst].(children := m1[dst].children[at + j := Some(cs[j])])]
                     [cs[j] := m1[cs[j]].(parent := Some(dst))]
    ensures Adopted(m0, m2, dst, at, cs[..j + 1])
  {
    CopiedOneMore(m0[dst].children, at, cs, j);
    TakeOneMore(cs, j);
  }

  lemma CopiedOneMore(children: seq<Option<Index>>, at: nat, cs: seq<Index>, j: nat)
    requires j < |cs| && at + |cs| <= |children|
    ensures Copied(children, at, Somes(cs[..j]), 0, j)[at + j := Some(cs[j])]
            == Copied(children, at, Somes(cs[..j + 1]), 0, j + 1)
  {
  }

  lemma TakeOneMore<A>(s: seq<A>, j: nat)
    requires j < |s| && Distinct(s)
    ensures s[j] !in s[..j] && |s[..j]| == j && |s[..j + 1]| == j + 1
    ensures forall x :: x in s[..j + 1] <==> x in s[..j] || x == s[j]
  {
    assert s[..j + 1] == s[..j] + [s[j]];
  }

  function Somes<A>(s: seq<A>): (r: seq<Option<A>>)
    ensures |r| == |s|
    ensures forall i :: 0 <= i < |s| ==> r[i] == Some(s[i])
  {
    seq(|s|, i requires 0 <= i < |s| => Some(s[i]))
  }

  /** The allocator together with the nodes it hands out. */
  class NodePool {
    var slots: Memory

    constructor ()
      ensures slots == map[]
    {
      slots := map[];
    }

    // A slot that is in use by nobody, with a freshly constructed node in it.
    method Get() returns (n: Index)
      modifies this
      ensures n !in old(slots)
      ensures slots == old(slots)[n := NewNode()]
    {
      FreeSlotExists(slots.Keys);
      n :| n !in slots;
      slots := slots[n := NewNode()];
    }

    method Release(n: Index)
      requires n in slots
      modifies this
      ensures slots == old(slots) - {n}
    {
      slots := slots - {n};
    }

    method SetKey(n: Index, i: nat, info: KeyInfo)
      requires n in slots && i < MAX_DEGREE
      modifies this
      ensures slots == old(slots)[n := old(slots)[n].(keys := old(slots)[n].keys[i := info])]
    {
      slots := slots[n := slots[n].(keys := slots[n].keys[i := info])];
    }

    method SetValue(n: Index, i: nat, v: Value)
      requires n in slots && i < MAX_DEGREE
      modifies this
      ensures slots == old(slots)[n :=
                old(slots)[n].(keys := old(slots)[n].keys[i := old(slots)[n].keys[i].(value := v)])]
    {
      slots := slots[n := slots[n].(keys := slots[n].keys[i := slots[n].keys[i].(value := v)])];
    }

    method SetNextLayer(n: Index, i: nat, next: Option<Index>)
      requires n in slots && i < MAX_DEGREE
      modifies this
      ensures slots == old(slots)[n :=
                old(slots)[n].(keys := old(slots)[n].keys[i := old(slots)[n].keys[i].(next := next)])]
    {
      slots := slots[n := slots[n].(keys := slots[n].keys[i := slots[n].keys[i].(next := next)])];
    }

    method SetDim(n: Index, i: nat, d: nat)
      requires n in slots && i < MAX_DEGREE
      modifies this
      ensures slots == old(slots)[n := old(slots)[n].(dims := old(slots)[n].dims[i := d])]
    {
      slots := slots[n := slots[n].(dims := slots[n].dims[i := d])];
    }

    method SetKeyCnt(n: Index, cnt: nat)
      requires n in slots && cnt <= MAX_DEGREE
      modifies this
      ensures slots == old(slots)[n := old(slots)[n].(keyCnt := cnt)]
    {
      slots := slots[n := slots[n].(keyCnt := cnt)];
    }

    method SetLeaf(n: Index, leaf: bool)
      requires n in slots
      modifies this
      ensures slots == old(slots)[n := old(slots)[n].(isLeaf := leaf)]
    {
      slots := slots[n := slots[n].(isLeaf := leaf)];
    }

    method SetCompressed(n: Index, compressed: bool)
      requires n in slots
      modifies this
      ensures slots == old(slots)[n := old(slots)[n].(isCompressed := compressed)]
    {
      slots := slots[n := slots[n].(isCompressed := compressed)];
    }

    method SetParent(n: Index, parent: Option<Index>)
      requires n in slots
      modifies this
      ensures slots == old(slots)[n := old(slots)[n].(parent := parent)]
    {
      slots := slots[n := slots[n].(parent := parent)];
    }

    // Links the child and sets its parent pointer.
    method SetChild(n: Index, i: nat, child: Index)
      requires n in slots && child in slots && n != child && i <= MAX_DEGREE
      modifies this
      ensures slots == old(slots)
                       [n := old(slots)[n].(children := old(slots)[n].children[i := Some(child)])]
                       [child := old(slots)[child].(parent := Some(n))]
    {
      slots := slots[n := slots[n].(children := slots[n].children[i := Some(child)])];
      slots := slots[child := slots[child].(parent := Some(n))];
    }

    method MoveKey(src: Index, i: nat, dst: Index, j: nat)
      requires src in slots && dst in slots && i < MAX_DEGREE && j < MAX_DEGREE
      modifies this
      ensures slots == old(slots)[dst := old(slots)[dst].(keys := old(slots)[dst].keys[j := old(slots)[src].keys[i]])]
    {
      SetKey(dst, j, slots[src].keys[i]);
    }

    // Moves keys from..to of a node one place to the right, last one first.
    method ShiftKeysRight(n: Index, from: nat, to: nat)
      requires n in slots && from <= to < MAX_DEGREE
      modifies this
      ensures slots == old(slots)[n := old(slots)[n].(keys := ShiftedRight(old(slots)[n].keys, from, to))]
    {
      ghost var s := slots[n].keys;
      var j := to;
      ShiftRightStart(s, to);
      while j > from
        invariant from <= j <= to
        invariant slots == old(slots)[n := old(slots)[n].(keys := ShiftedRight(s, j, to))]
      {
        ShiftRightStep(s, j, to);
        MoveKey(n, j - 1, n, j);
        j := j - 1;
      }
    }

    // Moves keys from..to of a node one place to the left, first one first.
    method ShiftKeysLeft(n: Index, from: nat, to: nat)
      requires n in slots && 0 < from <= to <= MAX_DEGREE
      modifies this
      ensures slots == old(slots)[n := old(slots)[n].(keys := ShiftedLeft(old(slots)[n].keys, from, to))]
    {
      hide KeysLeft, KeysRight, ChildrenLeft;
      ghost var n0 := slots[n];
      var j := from;
      NothingShifted(n0);
      while j < to
        invariant from <= j <= to
        invariant slots == old(slots)[n := KeysLeft(n0, from, j)]
      {
        KeysLeftStep(n0, from, j);
        MoveKey(n, j, n, j - 1);
        j := j + 1;
      }
      NodeShifts(n0, from, to);
    }

    method CopyKeys(src: Index, from: nat, dst: Index, at: nat, cnt: nat)
      requires src in slots && dst in slots && src != dst
      requires from + cnt <= MAX_DEGREE && at + cnt <= MAX_DEGREE
      modifies this
      ensures slots == old(slots)[dst := old(slots)[dst].(keys :=
                         Copied(old(slots)[dst].keys, at, old(slots)[src].keys, from, cnt))]
    {
      ghost var s, d := slots[src].keys, slots[dst].keys;
      assert Copied(d, at, s, from, 0) == d;
      for j := 0 to cnt
        invariant slots == old(slots)[dst := old(slots)[dst].(keys := Copied(d, at, s, from, j))]
      {
        CopyStep(d, at, s, from, j);
        MoveKey(src, from + j, dst, at + j);
      }
    }

    // Child pointers alone, without touching the parent pointers of the children.
    method ShiftChildrenRight(n: Index, from: nat, to: nat)
      requires n in slots && from <= to <= MAX_DEGREE
      modifies this
      ensures slots == old(slots)[n := old(slots)[n].(children := ShiftedRight(old(slots)[n].children, from, to))]
    {
      ghost var s := slots[n].children;
      var j := to;
      ShiftRightStart(s, to);
      while j > from
        invariant from <= j <= to
        invariant slots == old(slots)[n := old(slots)[n].(children := ShiftedRight(s, j, to))]
      {
        ShiftRightStep(s, j, to);
        slots := slots[n := slots[n].(children := slots[n].children[j := slots[n].children[j - 1]])];
        j := j - 1;
      }
    }

    method ShiftChildrenLeft(n: Index, from: nat, to: nat)
      requires n in slots && 0 < from <= to <= MAX_DEGREE + 1
      modifies this
      ensures slots == old(slots)[n := old(slots)[n].(children := ShiftedLeft(old(slots)[n].children, from, to))]
    {
      hide KeysLeft, KeysRight, ChildrenLeft;
      ghost var n0 := slots[n];
      var j := from;
      NothingShifted(n0);
      while j < to
        invariant from <= j <= to
        invariant slots == old(slots)[n := ChildrenLeft(n0, from, j)]
      {
        ChildrenLeftStep(n0, from, j);
        slots := slots[n := slots[n].(children := slots[n].children[j - 1 := slots[n].children[j]])];
        j := j + 1;
      }
      NodeShifts(n0, from, to);
    }

    // The same as a shift to the right, but through move_child, which rewrites parent pointers.
    method MoveChildrenRight(n: Index, from: nat, to: nat)
      requires n in slots && from <= to <= MAX_DEGREE
      requires forall j :: from <= j < to ==>
                 && slots[n].children[j].Some?
                 && slots[n].children[j].value in slots
                 && slots[n].children[j].value != n
                 && slots[slots[n].children[j].value].parent == Some(n)
      modifies this
      ensures slots == old(slots)[n := old(slots)[n].(children := ShiftedRight(old(slots)[n].children, from, to))]
    {
      ghost var s := slots[n].children;
      var j := to;
      ShiftRightStart(s, to);
      while j > from
        invariant from <= j <= to
        invariant slots == old(slots)[n := old(slots)[n].(children := ShiftedRight(s, j, to))]
      {
        ShiftRightStep(s, j, to);
        var c := slots[n].children[j - 1].value;
        SetChild(n, j, c);
        j := j - 1;
      }
    }

    // Hands `cnt` children of one node over to another node.
    method AdoptChildren(src: Index, from: nat, dst: Index, at: nat, cnt: nat, ghost cs: seq<Index>)
      requires src in slots && dst in slots && src != dst
      requires from + cnt <= MAX_DEGREE + 1 && at + cnt <= MAX_DEGREE + 1
      requires |cs| == cnt && Distinct(cs) && dst !in cs && src !in cs
      requires forall j :: 0 <= j < cnt ==> slots[src].children[from + j] == Some(cs[j]) && cs[j] in slots
      modifies this
      ensures Adopted(old(slots), slots, dst, at, cs)
    {
      hide Adopted;
      NoneAdopted(slots, dst, at, cs[..0]);
      for j := 0 to cnt
        invariant Adopted(old(slots), slots, dst, at, cs[..j])
      {
        ghost var before := slots;
        assert src !in cs[..j] && cs[j] in old(slots);
        NotAdopted(old(slots), slots, dst, at, cs[..j], src);
        var c := slots[src].children[from + j].value;
        SetChild(dst, at + j, c);
        AdoptOneMore(old(slots), before, slots, dst, at, cs, j);
      }
      assert cs[..cnt] == cs;
    }
  }

  lemma FreeSlotExists(used: set<Index>)
    ensures exists n: Index :: n !in used
  {
    var bound := AllBelow(used);
    assert bound !in used;
  }

  lemma AllBelow(used: set<Index>) returns (bound: nat)
    ensures forall x :: x in used ==> x < bound
  {
    bound := 0;
    var rest := used;
    while rest != {}
      invariant rest <= used
      invariant forall x :: x in used - rest ==> x < bound
    {
      var x :| x in rest;
      assert used - (rest - {x}) == used - rest + {x};
      rest := rest - {x};
      if x >= bound {
        bound := x + 1;
      }
    }
    assert used - rest == used;
  }
}
