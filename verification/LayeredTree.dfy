/** The tree record with its operations (BTreeImp): insert, search, to_rules, destroy. */
module LayeredTree {
  import opened Items
  import opened Nodes
  import opened BTrees
  import opened Tries
  import opened Layers
  import opened RuleSpecs
  import opened RuleTrees
  import opened LayerOrders
  import opened LayeredInsert
  import opened RuleInsert
  import opened RuleDump
  import opened TreeDestroy
  import opened CollisionCheck
  import opened CollisionWalk

  class Tree {
    const pool: NodePool
    var root: Option<Index>
    var order: Order
    // The picture of the nodes behind the root.
    ghost var layer: Option<Layer>

    ghost predicate Valid()
      reads this, pool
    {
      IsOrder(order) && RepOf(pool.slots, layer, 0, order) && RootOf(layer) == root
    }

    // What the tree stores, free of nodes.
    ghost function Contents(): Trie
      reads this
    {
      MeaningOf(layer)
    }

    // The slots that the tree owns.
    ghost function Slots(): set<Index>
      reads this
    {
      IdsOf(layer)
    }

    constructor (pool: NodePool)
      ensures Valid() && this.pool == pool && Contents() == EMPTY && Slots() == {}
      ensures order == seq(D, i => i)
    {
      this.pool := pool;
      root := None;
      order := seq(D, i => i);
      layer := None;
    }

    /** Adds a rule, or updates its value if its path is stored already. */
    method Insert(rule: Rule)
      requires Valid() && ValidRule(rule) && CollisionFree(Contents(), order, rule)
      modifies this, pool
      ensures Valid() && order == old(order)
      ensures Contents() == WithRule(old(Contents()), order, rule)
      ensures Framed(old(pool.slots), pool.slots, old(Slots()), Slots())
    {
      hide Rep, Fits, EndOf, Required, InOrder, Meaning, AllIds;
      var c := NewCookie(order, rule);
      StartsInserting(pool.slots, layer, c);
      var r;
      ghost var l';
      r, l' := InsertRule(pool, root, c, layer);
      root := Some(r);
      layer := Some(l');
    }

    /** The collision check of the program; None when it reads past the keys of a node. */
    method DoesRuleCollide(rule: Rule) returns (r: Option<bool>)
      requires Valid() && ValidRule(rule)
      ensures r == Written(pool.slots, layer, 0, 0, InOrder(order, rule.filter))
      ensures var ks := InOrder(order, rule.filter);
              OnlyRootPacked(layer, ks) && NestedOnPath(Contents(), ks) ==> r == Some(!Fits(Contents(), ks))
    {
      hide Rep, Meaning, Written, Clash, Fits, NestedOnPath, OnlyRootPacked;
      AnyMeaningWF(pool.slots, layer, order);
      ClashIsCollision(Contents(), D, InOrder(order, rule.filter));
      r := CollisionWalk.DoesRuleCollide(pool, root, order, rule, layer);
    }

    /** The repaired check: exact on nested or disjoint ranges, and on all if `overlaps` is asked both ways. */
    method DoesRuleCollideRepaired(rule: Rule, both: bool) returns (r: bool)
      requires Valid() && ValidRule(rule)
      ensures var ks := InOrder(order, rule.filter);
              both || NestedOnPath(Contents(), ks) ==> r == !Fits(Contents(), ks)
      ensures r == Clash(both, Contents(), InOrder(order, rule.filter))
    {
      hide Rep, Meaning, Clash, Fits, NestedOnPath;
      r := CollisionWalk.DoesRuleCollideRepaired(pool, root, order, rule, both, layer);
    }

    /** The value of the deepest rule that matches, level by level. */
    method Search(packet: Packet) returns (v: Value)
      requires Valid() && ValidPacket(packet)
      ensures v == Answer(Contents(), order, packet)
    {
      v := LayerSearch.Search(pool, root, order, packet, layer);
    }

    /** All rules of the tree; `ps` gives the path of each of them. */
    method ToRules() returns (res: seq<Rule>, ghost ps: seq<(Path, Value)>)
      requires Valid()
      ensures res == RulesAt(order, ps) && multiset(ps) == Rules(Contents(), [])
    {
      var dump := new Dump();
      AnyFilter(order);
      ps := dump.DumpLayer(pool, root, 0, order, [], layer);
      res := dump.res;
      assert [] + RulesAt(order, ps) == RulesAt(order, ps);
    }

    // Changes the order behind the levels in use; the nodes need no change.
    method Reorder(order': Order, ghost n: nat)
      requires Valid() && IsOrder(order') && WF(Contents(), n) && SameLevels(order, order', n)
      modifies this`order
      ensures Valid() && order == order' && Contents() == old(Contents()) && Slots() == old(Slots())
    {
      hide Rep, Meaning, AllIds, WF, SameLevels;
      if layer.Some? {
        Reordered(pool.slots, layer.value, 0, order, order', n);
      }
      order := order';
    }

    /** Gives all nodes back to the pool. */
    method Destroy()
      requires Valid()
      modifies this, pool
      ensures Valid() && order == old(order) && Contents() == EMPTY && Slots() == {}
      ensures pool.slots == old(pool.slots) - old(Slots())
    {
      TreeDestroy.Destroy(pool, root, layer, order);
      root := None;
      layer := None;
    }
  }

  lemma AnyFilter(order: Order)
    requires IsOrder(order)
    ensures FilterOf(order, []) == seq(D, _ => ANY)
  {
  }

  // A tree is not affected by what another one does with its own nodes.
  lemma Untouched(m0: Memory, m1: Memory, a: set<Index>, b: set<Index>, l: Option<Layer>, order: Order)
    requires Framed(m0, m1, a, b) && RepOf(m0, l, 0, order) && IdsOf(l) !! a
    ensures RepOf(m1, l, 0, order) && IdsOf(l) !! b
  {
    hide Rep, AllIds;
    if l.Some? {
      RepIds(m0, l.value, 0, order);
      FramedWiden(m0, m1, a, b, AllIds(l.value));
      RepFrame(m0, m1, l.value, 0, order);
    }
  }

  lemma StartsInserting(m: Memory, l: Option<Layer>, c: InsertCookie)
    requires c.Valid() && c.level == 0 && RepOf(m, l, 0, c.order)
    requires CollisionFree(MeaningOf(l), c.order, c.rule)
    ensures Inserting(m, l, c)
    ensures RulePath(MeaningOf(l), c.order, c.rule) ==
            c.Keys()[0..EndOf(MeaningOf(l), c.Keys(), 0, c.requiresLevels)]
  {
    hide Rep, Fits, Meaning, MatchLen, Required;
    assert c.Keys()[0..] == c.Keys();
  }

  /** Loads rules into an empty tree and lists what the tree then holds. */
  method LoadAndDump(tree: Tree, rules: seq<Rule>) returns (res: seq<Rule>)
    requires tree.Valid() && tree.Contents() == EMPTY
    requires Buildable(tree.order, rules) && DistinctFilters(rules)
    modifies tree, tree.pool
    ensures tree.Valid() && multiset(res) == multiset(rules)
  {
    hide Buildable, Built, WithRule, CollisionFree, RulesAt, Rules, IsOrder, ValidRule;
    ghost var order := tree.order;
    Loadable(order, rules, 0);
    assert rules[..0] == [];
    BuiltEmpty(order);
    for i := 0 to |rules|
      invariant tree.Valid() && tree.order == order
      invariant Buildable(order, rules[..i])
      invariant tree.Contents() == Built(order, rules[..i])
    {
      Loadable(order, rules, i + 1);
      BuiltStep(order, rules[..i + 1]);
      assert rules[..i + 1][..i] == rules[..i];
      tree.Insert(rules[i]);
    }
    assert rules[..|rules|] == rules;
    ghost var ps;
    res, ps := tree.ToRules();
    RoundTrip(order, rules, ps);
  }

  lemma {:induction false} BuiltEmpty(order: Order)
    requires IsOrder(order)
    ensures Built(order, []) == EMPTY
  {
  }

  lemma {:induction false} Loadable(order: Order, rules: seq<Rule>, i: nat)
    requires IsOrder(order) && Buildable(order, rules) && i <= |rules|
    ensures Buildable(order, rules[..i])
    ensures forall j :: 0 <= j < |rules| ==> ValidRule(rules[j])
    decreases |rules|
  {
    if i < |rules| {
      Loadable(order, rules[..|rules| - 1], i);
      assert rules[..|rules| - 1][..i] == rules[..i];
    } else {
      assert rules[..i] == rules;
    }
  }
}
