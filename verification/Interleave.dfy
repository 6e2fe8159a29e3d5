/** In-order interleaving: the own elements of a node between the parts of its children. */
module Interleave {

  ghost function Zip<A>(own: seq<A>, parts: seq<seq<A>>): seq<A>
    requires |parts| == |own| + 1
  {
    if own == [] then parts[0] else parts[0] + [own[0]] + Zip(own[1..], parts[1..])
  }

  // What comes before the part that follows the given elements.
  ghost function Before<A>(own: seq<A>, parts: seq<seq<A>>): seq<A>
    requires |parts| == |own|
  {
    if own == [] then [] else parts[0] + [own[0]] + Before(own[1..], parts[1..])
  }

  // What comes after the part that precedes the given elements.
  ghost function After<A>(own: seq<A>, parts: seq<seq<A>>): seq<A>
    requires |parts| == |own|
  {
    if own == [] then [] else [own[0]] + parts[0] + After(own[1..], parts[1..])
  }

  lemma {:induction false} BeforeStep<A>(own: seq<A>, parts: seq<seq<A>>, i: nat)
    requires |parts| == |own| + 1 && 0 < i <= |own|
    ensures Before(own[..i], parts[..i]) == parts[0] + [own[0]] + Before(own[1..][..i - 1], parts[1..][..i - 1])
  {
    assert own[..i][1..] == own[1..][..i - 1] && parts[..i][1..] == parts[1..][..i - 1];
  }

  lemma {:induction false} NothingBefore<A>(own: seq<A>, parts: seq<seq<A>>)
    ensures Before(own[..0], parts[..0]) == []
  {
  }

  lemma {:induction false} ZipStep<A>(own: seq<A>, parts: seq<seq<A>>)
    requires |parts| == |own| + 1 && own != []
    ensures Zip(own, parts) == parts[0] + [own[0]] + Zip(own[1..], parts[1..])
  {
  }

  lemma {:induction false} ZipAt<A>(own: seq<A>, parts: seq<seq<A>>, i: nat)
    requires |parts| == |own| + 1 && i <= |own|
    ensures Zip(own, parts) == Before(own[..i], parts[..i]) + parts[i] + After(own[i..], parts[i + 1..])
  {
    hide Before, After, Zip;
    if i == 0 {
      ZipAfter(own, parts);
      NothingBefore(own, parts);
      assert own[0..] == own;
    } else {
      ZipStep(own, parts);
      ZipAt(own[1..], parts[1..], i - 1);
      BeforeStep(own, parts, i);
      assert own[1..][i - 1..] == own[i..] && parts[1..][i..] == parts[i + 1..];
      var b, a := Before(own[1..][..i - 1], parts[1..][..i - 1]), After(own[i..], parts[i + 1..]);
      assert parts[0] + [own[0]] + (b + parts[i] + a) == (parts[0] + [own[0]] + b) + parts[i] + a;
    }
  }

  lemma {:induction false} ZipAfter<A>(own: seq<A>, parts: seq<seq<A>>)
    requires |parts| == |own| + 1
    ensures Zip(own, parts) == parts[0] + After(own, parts[1..])
  {
    if own != [] {
      ZipAfter(own[1..], parts[1..]);
      assert parts[1..][1..] == parts[2..];
    }
  }

  lemma BeforeSnoc<A>(own: seq<A>, parts: seq<seq<A>>, i: nat)
    requires i < |own| && |parts| >= |own|
    ensures Before(own[..i + 1], parts[..i + 1]) == Before(own[..i], parts[..i]) + parts[i] + [own[i]]
  {
    if i > 0 {
      BeforeSnoc(own[1..], parts[1..], i - 1);
      assert own[..i + 1][1..] == own[1..][..i] && parts[..i + 1][1..] == parts[1..][..i];
      assert own[..i][1..] == own[1..][..i - 1] && parts[..i][1..] == parts[1..][..i - 1];
    } else {
      assert own[..1][1..] == [] && parts[..1][1..] == [];
      assert own[..0] == [] && parts[..0] == [];
    }
  }

  // The own element i sits between part i and part i + 1.
  lemma {:induction false} ZipAround<A>(own: seq<A>, parts: seq<seq<A>>, i: nat)
    requires |parts| == |own| + 1 && i < |own|
    ensures Zip(own, parts) ==
            Before(own[..i], parts[..i]) + parts[i] + [own[i]] + parts[i + 1] + After(own[i + 1..], parts[i + 2..])
  {
    ZipAt(own, parts, i);
    assert own[i..][1..] == own[i + 1..] && parts[i + 1..][1..] == parts[i + 2..];
  }
}
