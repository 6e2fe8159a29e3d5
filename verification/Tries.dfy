/**
 * What a layered tree means, free of nodes: per level a sorted list of disjoint ranges,
 * each with a value and the levels below it. A rule is stored at a path of ranges.
 */
module Tries {
  import opened Ranges
  import opened Items

  datatype Trie = Trie(entries: seq<Item<Trie>>)
  type Entry = Item<Trie>
  type Path = seq<Range>

  const EMPTY := Trie([])

  // At most d levels, every level sorted and disjoint.
  ghost predicate WF(t: Trie, d: nat) {
    && Separated(t.entries)
    && (t.entries != [] ==> d > 0)
    && forall i :: 0 <= i < |t.entries| ==> WF(t.entries[i].next, d - 1)
  }

  ghost predicate ValidPath(path: Path) {
    forall i :: 0 <= i < |path| ==> path[i].Valid()
  }

  // The value stored at a path, invalid when there is none.
  function Get(t: Trie, path: Path): Value {
    if path == [] then NO_VALUE
    else
      var p := Find(t.entries, path[0]);
      if p == |t.entries| then NO_VALUE
      else if |path| == 1 then t.entries[p].value
      else Get(t.entries[p].next, path[1..])
  }

  // How many leading ranges of ks are stored keys, level by level.
  function MatchLen(t: Trie, ks: Path): (n: nat)
    ensures n <= |ks|
  {
    if ks == [] then 0
    else
      var p := Find(t.entries, ks[0]);
      if p == |t.entries| then 0 else 1 + MatchLen(t.entries[p].next, ks[1..])
  }

  // Every range of the path is a stored key, level by level.
  ghost predicate OnKeys(t: Trie, path: Path) {
    path != [] ==>
      var p := Find(t.entries, path[0]);
      p < |t.entries| && OnKeys(t.entries[p].next, path[1..])
  }

  lemma {:induction false} MatchLenIs(t: Trie, ks: Path, n: nat)
    requires n <= |ks|
    ensures MatchLen(t, ks) >= n <==> OnKeys(t, ks[..n])
  {
    if n > 0 {
      var p := Find(t.entries, ks[0]);
      assert ks[..n][0] == ks[0] && ks[..n][1..] == ks[1..][..n - 1];
      if p < |t.entries| {
        MatchLenIs(t.entries[p].next, ks[1..], n - 1);
      }
    }
  }

  // Where the path leaves the stored keys, its range is disjoint from all keys there.
  predicate Fits(t: Trie, path: Path) {
    path != [] ==>
      var p := Find(t.entries, path[0]);
      if p < |t.entries| then Fits(t.entries[p].next, path[1..])
      else DisjointFromAll(path[0], t.entries)
  }

  // A single rule on its own.
  function Chain(path: Path, v: Value): Trie
    requires path != []
  {
    if |path| == 1 then Trie([Item(path[0], v, EMPTY)])
    else Trie([Item(path[0], NO_VALUE, Chain(path[1..], v))])
  }

  function Insert(t: Trie, path: Path, v: Value): Trie
    requires path != []
  {
    var p := Find(t.entries, path[0]);
    if p == |t.entries| then
      Trie(Put(t.entries, Chain(path, v).entries[0]))
    else
      var e := t.entries[p];
      Trie(t.entries[p := if |path| == 1 then Item(e.key, v, e.next)
                          else Item(e.key, e.value, Insert(e.next, path[1..], v))])
  }

  // The walk of a search: one range per level at most, the last valid value wins.
  function Lookup(t: Trie, ps: seq<nat>, acc: Value): Value {
    if ps == [] then acc
    else
      var p := Hit(t.entries, ps[0]);
      if p == |t.entries| then acc
      else
        var e := t.entries[p];
        Lookup(e.next, ps[1..], if e.value.IsValid() then e.value else acc)
  }

  ghost predicate Matches(path: Path, ps: seq<nat>) {
    |path| <= |ps| && forall i :: 0 <= i < |path| ==> path[i].InRange(ps[i])
  }

  // A rule is stored at this path and matches the packet.
  ghost predicate Stored(t: Trie, path: Path, ps: seq<nat>) {
    path != [] && Get(t, path).IsValid() && Matches(path, ps)
  }

  // ---------- insertion ----------

  lemma {:induction false} ChainWF(path: Path, v: Value, d: nat)
    requires path != [] && ValidPath(path) && |path| <= d
    ensures WF(Chain(path, v), d)
  {
    if |path| > 1 {
      assert forall i :: 0 <= i < |path| - 1 ==> path[1..][i] == path[i + 1];
      ChainWF(path[1..], v, d - 1);
    }
  }

  lemma {:induction false} InsertWF(t: Trie, path: Path, v: Value, d: nat)
    requires WF(t, d) && path != [] && ValidPath(path) && |path| <= d && Fits(t, path)
    ensures WF(Insert(t, path, v), d)
  {
    var p := Find(t.entries, path[0]);
    if p == |t.entries| {
      ChainWF(path, v, d);
      var e := Chain(path, v).entries[0];
      PutSeparated(t.entries, e);
      assert WF(e.next, d - 1);
      PutWF(t.entries, e, d);
    } else if |path| > 1 {
      assert forall i :: 0 <= i < |path| - 1 ==> path[1..][i] == path[i + 1];
      InsertWF(t.entries[p].next, path[1..], v, d - 1);
    }
  }

  lemma {:induction false} InsertIntoEmpty(path: Path, v: Value)
    requires path != []
    ensures Insert(EMPTY, path, v) == Chain(path, v)
  {
    assert Put([], Chain(path, v).entries[0]) == Chain(path, v).entries;
  }

  lemma PutWF(es: seq<Entry>, e: Entry, d: nat)
    requires d > 0 && WF(e.next, d - 1)
    requires forall i :: 0 <= i < |es| ==> WF(es[i].next, d - 1)
    ensures forall i :: 0 <= i < |Put(es, e)| ==> WF(Put(es, e)[i].next, d - 1)
  {
  }

  lemma {:induction false} ChainGet(path: Path, v: Value, q: Path)
    requires path != [] && q != []
    ensures Get(Chain(path, v), q) == if q == path then v else NO_VALUE
  {
    if q[0] == path[0] && |path| > 1 && |q| > 1 {
      ChainGet(path[1..], v, q[1..]);
      assert q == [q[0]] + q[1..] && path == [path[0]] + path[1..];
    }
  }

  // Finding a key after another one was put into the list.
  lemma {:induction false} FindAfterPut<N>(s: seq<Item<N>>, x: Item<N>, k: Range)
    requires Find(s, x.key) == |s|
    ensures k == x.key ==> Find(Put(s, x), k) < |s| + 1 && Put(s, x)[Find(Put(s, x), k)] == x
    ensures k != x.key ==>
              (if Find(s, k) < |s| then Find(Put(s, x), k) < |s| + 1 && Put(s, x)[Find(Put(s, x), k)] == s[Find(s, k)]
               else Find(Put(s, x), k) == |s| + 1)
  {
    hide Find;
    var p := Place(s, x.key.low);
    assert s == s[..p] + s[p..];
    assert Put(s, x) == s[..p] + ([x] + s[p..]);
    FindAfterInsertion(s[..p], s[p..], x, k);
  }

  lemma FindAfterInsertion<N>(a: seq<Item<N>>, b: seq<Item<N>>, x: Item<N>, k: Range)
    requires Find(a + b, x.key) == |a + b|
    ensures var (s, t) := (a + b, a + ([x] + b));
            && |t| == |s| + 1
            && (k == x.key ==> Find(t, k) < |t| && t[Find(t, k)] == x)
            && (k != x.key ==>
                  if Find(s, k) < |s| then Find(t, k) < |t| && t[Find(t, k)] == s[Find(s, k)] else Find(t, k) == |t|)
  {
    FindConcat(a, [x] + b, k);
    FindConcat([x], b, k);
    FindConcat(a, b, k);
    FindConcat(a, b, x.key);
  }

  lemma {:induction false} FindConcat<N>(a: seq<Item<N>>, b: seq<Item<N>>, k: Range)
    ensures Find(a + b, k) == if Find(a, k) < |a| then Find(a, k) else |a| + Find(b, k)
  {
    if a == [] {
      assert a + b == b;
    } else {
      FindConcat(a[1..], b, k);
      assert (a + b)[1..] == a[1..] + b;
    }
  }

  // Insertion writes one path and leaves every other path as it was.
  lemma {:induction false} InsertGet(t: Trie, path: Path, v: Value, q: Path)
    requires path != [] && q != []
    ensures Get(Insert(t, path, v), q) == if q == path then v else Get(t, q)
  {
    var p := Find(t.entries, path[0]);
    assert q == [q[0]] + q[1..] && path == [path[0]] + path[1..];
    if p == |t.entries| {
      var c := Chain(path, v);
      FindAfterPut(t.entries, c.entries[0], q[0]);
      ChainGet(path, v, q);
      assert Find(c.entries, path[0]) == 0;
    } else {
      var t' := Insert(t, path, v);
      FindAfterUpdate(t.entries, p, t'.entries[p], q[0]);
      if q[0] == path[0] && |path| > 1 && |q| > 1 {
        InsertGet(t.entries[p].next, path[1..], v, q[1..]);
      }
    }
  }

  lemma FindAfterUpdate<N>(s: seq<Item<N>>, p: nat, x: Item<N>, k: Range)
    requires p < |s| && x.key == s[p].key
    ensures Find(s[p := x], k) == Find(s, k)
  {
    if p == 0 {
      assert s[p := x][1..] == s[1..];
    } else {
      FindAfterUpdate(s[1..], p - 1, x, k);
      assert s[p := x][1..] == s[1..][p - 1 := x];
    }
  }

  // ---------- lookup ----------

  // Along any packet, one stored range per level at most can match.
  lemma {:induction false} MatchUnique(t: Trie, d: nat, q: Path, r: Path, ps: seq<nat>)
    requires WF(t, d) && Stored(t, q, ps) && Stored(t, r, ps) && |q| == |r|
    ensures q == r
  {
    var i, j := Find(t.entries, q[0]), Find(t.entries, r[0]);
    assert t.entries[i].key.InRange(ps[0]) && t.entries[j].key.InRange(ps[0]);
    HitIs(t.entries, ps[0], i);
    HitIs(t.entries, ps[0], j);
    if |q| > 1 {
      MatchUnique(t.entries[i].next, d - 1, q[1..], r[1..], ps[1..]);
    }
    assert q == [q[0]] + q[1..] && r == [r[0]] + r[1..];
  }

  // Stored rules below the entry that the packet hits.
  lemma {:induction false} StoredBelow(t: Trie, d: nat, q: Path, ps: seq<nat>)
    requires WF(t, d) && Stored(t, q, ps)
    ensures Hit(t.entries, ps[0]) == Find(t.entries, q[0]) < |t.entries|
    ensures |q| == 1 ==> t.entries[Hit(t.entries, ps[0])].value == Get(t, q)
    ensures |q| > 1 ==> Stored(t.entries[Hit(t.entries, ps[0])].next, q[1..], ps[1..])
  {
    var i := Find(t.entries, q[0]);
    assert t.entries[i].key.InRange(ps[0]);
    HitIs(t.entries, ps[0], i);
  }

  lemma {:induction false} StoredAbove(t: Trie, d: nat, i: nat, q: Path, ps: seq<nat>)
    requires WF(t, d) && ps != [] && i == Hit(t.entries, ps[0]) < |t.entries|
    requires q == [] || Stored(t.entries[i].next, q, ps[1..])
    ensures Get(t, [t.entries[i].key] + q) == if q == [] then t.entries[i].value else Get(t.entries[i].next, q)
    ensures q != [] ==> Stored(t, [t.entries[i].key] + q, ps)
    ensures q == [] && t.entries[i].value.IsValid() ==> Stored(t, [t.entries[i].key], ps)
  {
    FindIs(t.entries, t.entries[i].key, i);
    var r := [t.entries[i].key] + q;
    assert r[1..] == q;
    forall j | 0 <= j < |r| && |r| <= |ps|
      ensures r[j].InRange(ps[j])
    {
      if j > 0 {
        assert q[j - 1].InRange(ps[1..][j - 1]);
      }
    }
  }

  // The search result is the value of the deepest stored rule that matches; the
  // accumulator comes back exactly when nothing stored matches.
  lemma {:induction false} LookupDeepest(t: Trie, d: nat, ps: seq<nat>, acc: Value) returns (q: Path)
    requires WF(t, d) && |ps| >= d
    ensures q != [] ==> Stored(t, q, ps) && Lookup(t, ps, acc) == Get(t, q)
    ensures q == [] ==> Lookup(t, ps, acc) == acc
    ensures forall r :: Stored(t, r, ps) ==> |r| <= |q|
  {
    if ps == [] || Hit(t.entries, ps[0]) == |t.entries| {
      q := [];
      forall r
        ensures !Stored(t, r, ps)
      {
        if Stored(t, r, ps) {
          StoredBelow(t, d, r, ps);
          assert false;
        }
      }
    } else {
      var i := Hit(t.entries, ps[0]);
      var e := t.entries[i];
      var below := LookupDeepest(e.next, d - 1, ps[1..], if e.value.IsValid() then e.value else acc);
      StoredAbove(t, d, i, below, ps);
      q := if below == [] && !e.value.IsValid() then [] else [e.key] + below;
      forall r | Stored(t, r, ps)
        ensures |r| <= |q|
      {
        StoredBelow(t, d, r, ps);
        if |r| > 1 {
          assert Stored(e.next, r[1..], ps[1..]);
        }
      }
    }
  }

  // A search walks one path, yet agrees with a scan over everything that is stored.
  lemma {:induction false} LookupIs(t: Trie, d: nat, ps: seq<nat>, q: Path)
    requires WF(t, d) && |ps| >= d
    requires Stored(t, q, ps) && forall r :: Stored(t, r, ps) ==> |r| <= |q|
    ensures Lookup(t, ps, NO_VALUE) == Get(t, q)
  {
    var r := LookupDeepest(t, d, ps, NO_VALUE);
    MatchUnique(t, d, q, r, ps);
  }

  lemma {:induction false} LookupNone(t: Trie, d: nat, ps: seq<nat>)
    requires WF(t, d) && |ps| >= d
    ensures Lookup(t, ps, NO_VALUE).IsValid() <==> exists r :: Stored(t, r, ps)
  {
    var r := LookupDeepest(t, d, ps, NO_VALUE);
  }

  // A rule update as a search sees it: the new value answers the packets that the
  // rule matches and no deeper stored rule does; every other answer is the old one.
  lemma {:induction false} InsertLookup(t: Trie, d: nat, path: Path, v: Value, ps: seq<nat>)
    requires WF(t, d) && path != [] && ValidPath(path) && |path| <= d <= |ps| && Fits(t, path)
    requires v.IsValid()
    ensures WF(Insert(t, path, v), d)
    ensures Lookup(Insert(t, path, v), ps, NO_VALUE) ==
            if Matches(path, ps) && (forall r :: Stored(t, r, ps) ==> |r| <= |path|) then v
            else Lookup(t, ps, NO_VALUE)
  {
    var t' := Insert(t, path, v);
    InsertWF(t, path, v, d);
    forall r: Path | r != []
      ensures Get(t', r) == if r == path then v else Get(t, r)
    {
      InsertGet(t, path, v, r);
    }
    if Matches(path, ps) && (forall r :: Stored(t, r, ps) ==> |r| <= |path|) {
      LookupIs(t', d, ps, path);
    } else {
      OldAnswer(t, t', d, path, ps);
    }
  }

  lemma {:induction false} OldAnswer(t: Trie, t': Trie, d: nat, path: Path, ps: seq<nat>)
    requires WF(t, d) && WF(t', d) && |ps| >= d
    requires forall r: Path :: r != [] && r != path ==> Get(t', r) == Get(t, r)
    requires Matches(path, ps) ==> exists r :: Stored(t, r, ps) && |r| > |path|
    ensures Lookup(t', ps, NO_VALUE) == Lookup(t, ps, NO_VALUE)
  {
    var q := LookupDeepest(t, d, ps, NO_VALUE);
    if q != [] {
      assert q != path;
      forall r | Stored(t', r, ps)
        ensures |r| <= |q|
      {
        if r != path {
          assert Stored(t, r, ps);
        }
      }
      LookupIs(t', d, ps, q);
    } else {
      forall r
        ensures !Stored(t', r, ps)
      {
        assert !Stored(t, r, ps);
      }
      LookupNone(t', d, ps);
      var q' := LookupDeepest(t', d, ps, NO_VALUE);
    }
  }

  // ---------- dumping everything that is stored ----------

  ghost function One(path: Path, v: Value): multiset<(Path, Value)> {
    if v.IsValid() then multiset{(path, v)} else multiset{}
  }

  // All stored rules, each with its full path behind the given prefix.
  ghost function Rules(t: Trie, prefix: Path): multiset<(Path, Value)>
    decreases t, 1
  {
    EntryRules(t.entries, prefix)
  }

  ghost function EntryRules(es: seq<Entry>, prefix: Path): multiset<(Path, Value)>
    decreases es, 0
  {
    if es == [] then multiset{} else ItemRules(es[0], prefix) + EntryRules(es[1..], prefix)
  }

  ghost function ItemRules(e: Entry, prefix: Path): multiset<(Path, Value)>
    decreases e, 2
  {
    One(prefix + [e.key], e.value) + Rules(e.next, prefix + [e.key])
  }

  lemma {:induction false} RulesConcat(a: seq<Entry>, b: seq<Entry>, prefix: Path)
    ensures EntryRules(a + b, prefix) == EntryRules(a, prefix) + EntryRules(b, prefix)
  {
    hide EntryRules, ItemRules;
    if a == [] {
      assert a + b == b;
      RulesOfNone(prefix);
    } else {
      RulesConcat(a[1..], b, prefix);
      assert (a + b)[1..] == a[1..] + b && (a + b)[0] == a[0];
      RulesFirst(a, prefix);
      RulesFirst(a + b, prefix);
      SumRegroup(ItemRules(a[0], prefix), EntryRules(a[1..], prefix), EntryRules(b, prefix));
    }
  }

  lemma {:induction false} RulesOfNone(prefix: Path)
    ensures EntryRules([], prefix) == multiset{}
  {
  }

  lemma {:induction false} RulesFirst(es: seq<Entry>, prefix: Path)
    requires es != []
    ensures EntryRules(es, prefix) == ItemRules(es[0], prefix) + EntryRules(es[1..], prefix)
  {
  }

  lemma SumRegroup<A>(x: multiset<A>, y: multiset<A>, z: multiset<A>)
    ensures x + (y + z) == x + y + z
  {
  }

  ghost predicate Listed(es: seq<Entry>, prefix: Path, path: Path, v: Value) {
    && |path| > |prefix| && path[..|prefix|] == prefix
    && v.IsValid() && Get(Trie(es), path[|prefix|..]) == v
  }

  // The dump lists exactly the stored rules, and each of them once.
  lemma {:induction false} RulesListed(es: seq<Entry>, prefix: Path, d: nat, path: Path, v: Value)
    requires WF(Trie(es), d)
    ensures EntryRules(es, prefix)[(path, v)] == if Listed(es, prefix, path, v) then 1 else 0
    decreases d, |es|
  {
    if es != [] {
      var below := prefix + [es[0].key];
      assert WF(es[0].next, d - 1);
      assert forall i :: 0 <= i < |es| - 1 ==> es[1..][i] == es[i + 1];
      RulesListed(es[0].next.entries, below, d - 1, path, v);
      RulesListed(es[1..], prefix, d, path, v);
      CountFirst(es, prefix, path, v);
      if |path| > |prefix| && path[..|prefix|] == prefix {
        ListedStep(es, prefix, d, path, v);
      } else {
        NotBelow(es[0], prefix, path, v);
      }
    }
  }

  lemma {:induction false} CountFirst(es: seq<Entry>, prefix: Path, path: Path, v: Value)
    requires es != []
    ensures EntryRules(es, prefix)[(path, v)] ==
            One(prefix + [es[0].key], es[0].value)[(path, v)]
            + EntryRules(es[0].next.entries, prefix + [es[0].key])[(path, v)]
            + EntryRules(es[1..], prefix)[(path, v)]
  {
    assert Rules(es[0].next, prefix + [es[0].key]) == EntryRules(es[0].next.entries, prefix + [es[0].key]);
  }

  lemma NotBelow(e: Entry, prefix: Path, path: Path, v: Value)
    requires |path| <= |prefix| || path[..|prefix|] != prefix
    ensures !Listed(e.next.entries, prefix + [e.key], path, v)
    ensures path != prefix + [e.key]
  {
    if |path| > |prefix| {
      assert (prefix + [e.key])[..|prefix|] == prefix;
      assert path[..|prefix|] == path[..|prefix| + 1][..|prefix|];
    }
  }

  lemma {:induction false} ListedStep(es: seq<Entry>, prefix: Path, d: nat, path: Path, v: Value)
    requires WF(Trie(es), d) && es != []
    requires |path| > |prefix| && path[..|prefix|] == prefix
    ensures var e := es[0];
            var below := prefix + [e.key];
            (if Listed(es, prefix, path, v) then 1 else 0) ==
            (if path == below && v == e.value && v.IsValid() then 1 else 0)
            + (if Listed(e.next.entries, below, path, v) then 1 else 0)
            + (if Listed(es[1..], prefix, path, v) then 1 else 0)
  {
    var e := es[0];
    var below := prefix + [e.key];
    var q := path[|prefix|..];
    assert path == prefix + q;
    if q[0] == e.key {
      assert forall i :: 0 <= i < |es| - 1 ==> es[1..][i].key != e.key;
      assert Get(Trie(es[1..]), q) == NO_VALUE;
      if |q| == 1 {
        assert path == below;
      } else {
        assert path[..|below|] == below && path[|below|..] == q[1..];
        assert Get(Trie(e.next.entries), q[1..]) == Get(Trie(es), q);
      }
    } else {
      assert Find(es, q[0]) == 1 + Find(es[1..], q[0]);
      assert path[|prefix|] != below[|prefix|];
      if |path| > |below| {
        assert path[..|below|][|prefix|] == path[|prefix|];
      }
    }
  }

  // Inserting changes the dump by exactly one rule.
  lemma {:induction false} InsertRules(t: Trie, path: Path, v: Value, d: nat)
    requires WF(t, d) && path != [] && ValidPath(path) && |path| <= d && Fits(t, path)
    ensures Rules(Insert(t, path, v), []) == Rules(t, []) - One(path, Get(t, path)) + One(path, v)
  {
    var t' := Insert(t, path, v);
    InsertWF(t, path, v, d);
    var gone := One(path, Get(t, path));
    forall x: (Path, Value)
      ensures Rules(t', [])[x] == (Rules(t, []) - gone + One(path, v))[x]
    {
      InsertCount(t, t', path, v, d, x.0, x.1);
    }
  }

  lemma {:induction false} InsertCount(t: Trie, t': Trie, path: Path, v: Value, d: nat, q: Path, w: Value)
    requires WF(t, d) && path != [] && t' == Insert(t, path, v) && WF(t', d)
    ensures Rules(t', [])[(q, w)] == (Rules(t, []) - One(path, Get(t, path)) + One(path, v))[(q, w)]
  {
    var b, c := EntryRules(t.entries, [])[(q, w)], EntryRules(t'.entries, [])[(q, w)];
    assert q[0..] == q && q[..0] == [];
    assert b == if q != [] && w.IsValid() && Get(t, q) == w then 1 else 0 by {
      RulesListed(t.entries, [], d, q, w);
    }
    assert c == if q != [] && w.IsValid() && Get(t', q) == w then 1 else 0 by {
      RulesListed(t'.entries, [], d, q, w);
    }
    if q != [] {
      InsertGet(t, path, v, q);
    }
  }
}
