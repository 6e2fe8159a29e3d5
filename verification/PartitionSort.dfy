/**
 * The partition sort classifier (PartitionSortClassifer) over the trees of LayeredTree, which
 * share one pool. TREE_FIXATION_THRESHOLD is 1, so no insertion rebuilds a tree.
 *
 * The classifier asks the repaired collision check, with the relation of ranges asked both
 * ways: the check as the program has it lets rules in that collide (CollisionWalk).
 */
module PartitionSort {
  import opened Items
  import opened Nodes
  import opened Tries
  import opened Layers
  import opened LayerOrders
  import opened LayeredTree
  import opened RuleSpecs
  import opened RuleTrees
  import opened ArrayResort
  import opened DimensionOrders
  import opened OrderExtension
  import opened ListClassifier
  import opened TreeAnswers
  import opened ClassifierTrees

  // tree_info
  datatype TreeRecord = TreeRecord(
    tree: Tree,
    maxPriority: nat,
    usedDimCnt: nat,
    rules: seq<Rule>,
    usedMasks: map<Mask, nat>)

  function RecordPriority(r: TreeRecord): nat {
    r.maxPriority
  }

  ghost function View(r: TreeRecord): TreeInfo
    reads r.tree
  {
    TreeInfo(r.tree.Contents(), r.tree.order, r.maxPriority, r.usedDimCnt, r.rules, r.usedMasks)
  }

  ghost function Objects(s: seq<TreeRecord>): set<Tree> {
    set i | 0 <= i < |s| :: s[i].tree
  }

  ghost function Views(s: seq<TreeRecord>): (v: seq<TreeInfo>)
    reads Objects(s)
    ensures |v| == |s| && forall i :: 0 <= i < |s| ==> v[i] == View(s[i])
  {
    seq(|s|, i requires 0 <= i < |s| reads Objects(s) => View(s[i]))
  }

  // Every tree is in order, and no two share a node.
  ghost predicate Separate(s: seq<TreeRecord>, pool: NodePool)
    reads pool, Objects(s)
  {
    && (forall i :: 0 <= i < |s| ==> s[i].tree.pool == pool && s[i].tree.Valid())
    && (forall i, j :: 0 <= i < j < |s| ==> s[i].tree != s[j].tree && s[i].tree.Slots() !! s[j].tree.Slots())
  }

  // ---------- records and what they stand for ----------

  lemma ViewsSlice(s: seq<TreeRecord>, n: nat)
    requires n <= |s|
    ensures Views(s)[..n] == Views(s[..n])
  {
  }

  lemma ViewsDescending(s: seq<TreeRecord>, c: nat)
    requires c < |s| && Descending(Without(Views(s), c), MaxPriority)
    ensures Descending(Without(s, c), RecordPriority)
  {
    var w, v := Without(s, c), Without(Views(s), c);
    forall i, j | 0 <= i < j < |w|
      ensures RecordPriority(w[i]) >= RecordPriority(w[j])
    {
      assert MaxPriority(v[i]) >= MaxPriority(v[j]);
    }
  }

  lemma ViewsMoved(s: seq<TreeRecord>, c: nat, at: nat)
    requires c < |s| && at < |s|
    ensures Views(Without(s, c)) == Without(Views(s), c)
    ensures Views(Moved(s, c, at)) == Moved(Views(s), c, at)
  {
    hide Moved;
    assert Views(Without(s, c)) == Without(Views(s), c);
    MovedAt(s, c, at);
    MovedAt(Views(s), c, at);
    assert Views(Moved(s, c, at)) == Moved(Views(s), c, at);
  }

  // Repairing the records repairs what they stand for.
  lemma ViewsRepaired(s: seq<TreeRecord>, r: seq<TreeRecord>, c: nat, at: nat)
    requires Repaired(s, r, c, at, RecordPriority)
    ensures Repaired(Views(s), Views(r), c, at, MaxPriority)
  {
    hide Moved, Without;
    ViewsMoved(s, c, at);
    MovedSame(Views(s), c, at);
    var w, v := Without(s, c), Without(Views(s), c);
    assert forall j :: 0 <= j < |w| ==> MaxPriority(v[j]) == RecordPriority(w[j]);
    assert forall j :: 0 <= j < |r| ==> MaxPriority(Views(r)[j]) == RecordPriority(r[j]);
  }

  // Moving the records about keeps the trees apart.
  lemma SeparatePermuted(s: seq<TreeRecord>, r: seq<TreeRecord>, pool: NodePool)
    requires Separate(s, pool) && multiset(s) == multiset(r)
    ensures Separate(r, pool) && Objects(r) == Objects(s)
  {
    SameDistinct(s, r);
    SameElements(s, r);
    SameElements(r, s);
    forall i, j | 0 <= i < j < |r|
      ensures r[i].tree != r[j].tree && r[i].tree.Slots() !! r[j].tree.Slots()
    {
      assert r[i] in s && r[j] in s && r[i] != r[j];
      var a :| 0 <= a < |s| && s[a] == r[i];
      var b :| 0 <= b < |s| && s[b] == r[j];
      assert a < b || b < a;
    }
  }

  lemma SameElements<A>(s: seq<A>, r: seq<A>)
    requires multiset(s) == multiset(r)
    ensures forall i :: 0 <= i < |s| ==> s[i] in r
  {
    forall i | 0 <= i < |s|
      ensures s[i] in r
    {
      assert s[i] in multiset(r);
    }
  }

  lemma MoreObjects(s: seq<TreeRecord>, r: TreeRecord)
    ensures Objects(s + [r]) == Objects(s) + {r.tree}
  {
    var s' := s + [r];
    assert s'[|s|] == r && forall i :: 0 <= i < |s| ==> s'[i] == s[i];
  }

  method MakeTrees(pool: NodePool, n: nat) returns (s: seq<TreeRecord>)
    ensures |s| == n && fresh(Objects(s)) && Separate(s, pool) && forall i :: 0 <= i < n ==> Fresh(View(s[i]))
  {
    hide WF, Rep, Meaning, AllIds;
    NoTrees();
    s := [];
    for k := 0 to n
      invariant |s| == k && fresh(Objects(s)) && Separate(s, pool) && forall i :: 0 <= i < k ==> Fresh(View(s[i]))
    {
      var t := new Tree(pool);
      var r := TreeRecord(t, 0, 0, [], map[]);
      MoreObjects(s, r);
      s := s + [r];
    }
  }

  // ---------- the classifier ----------

  class PartitionSortClassifier {
    const pool: NodePool
    // tree_info pointers of the program; the first treeCnt are in use
    const trees: array<TreeRecord>
    var treeCnt: nat
    // All rules inserted so far.
    ghost var inserted: seq<Rule>

    ghost function Repr(): set<object>
      reads this, trees
    {
      {this, trees, pool} + Objects(trees[..])
    }

    ghost predicate Valid()
      reads this, trees, Repr()
    {
      && treeCnt <= trees.Length && Separate(trees[..], pool)
      && Sound(InUse(), inserted)
      && (forall i :: treeCnt <= i < trees.Length ==> Fresh(View(trees[i])))
    }

    // What the trees in use hold.
    ghost function InUse(): seq<TreeInfo>
      requires treeCnt <= trees.Length
      reads this, trees, Repr()
    {
      Views(trees[..treeCnt])
    }

    // Every tree is in use, and the rule collides in each of them.
    ghost predicate Refuses(rule: Rule)
      reads this, trees, Repr()
    {
      treeCnt == trees.Length && NoneTakes(InUse(), rule)
    }

    constructor (pool: NodePool, maxTreeCnt: nat)
      ensures Valid() && this.pool == pool && fresh(Repr() - {pool})
      ensures trees.Length == maxTreeCnt && treeCnt == 0 && inserted == []
    {
      hide Sound, Fresh, Tree.Valid, Tree.Slots;
      var s := MakeTrees(pool, maxTreeCnt);
      this.pool := pool;
      trees := new TreeRecord[maxTreeCnt](i requires 0 <= i < |s| => s[i]);
      treeCnt := 0;
      inserted := [];
      new;
      NoTrees();
      assert trees[..] == s && trees[..0] == [];
    }

    lemma Counted()
      requires Valid()
      ensures treeCnt <= trees.Length && |InUse()| == treeCnt && Sound(InUse(), inserted)
      ensures Separate(trees[..], pool) && forall j :: treeCnt <= j < trees.Length ==> Fresh(View(trees[j]))
    {
    }

    // The rule is written to the nodes of tree i; the other trees share the pool and stay.
    method Grow(i: nat, rule: Rule, order': Order, ghost n: nat)
      requires i < trees.Length && Separate(trees[..], pool) && ValidRule(rule)
      requires IsOrder(order') && CollisionFree(trees[i].tree.Contents(), order', rule)
      requires WF(trees[i].tree.Contents(), n) && SameLevels(trees[i].tree.order, order', n)
      modifies pool, trees[i].tree
      ensures Separate(trees[..], pool)
      ensures trees[i].tree.order == order'
      ensures trees[i].tree.Contents() == WithRule(old(trees[i].tree.Contents()), order', rule)
      ensures forall j :: 0 <= j < trees.Length && j != i ==> View(trees[j]) == old(View(trees[j]))
    {
      hide CollisionFree, WF, WithRule, SameLevels, Rep, Meaning, AllIds;
      var t := trees[i].tree;
      ghost var s, m, own := trees[..], pool.slots, t.Slots();
      assert s[i].tree == t;
      t.Reorder(order', n);
      t.Insert(rule);
      forall j | 0 <= j < |s| && j != i
        ensures s[j].tree.Valid() && s[j].tree.Slots() !! t.Slots()
      {
        Untouched(m, pool.slots, own, t.Slots(), s[j].tree.layer, s[j].tree.order);
      }
    }

    // Tree i takes the rule, after its fields have been reordered behind the levels in use.
    method Take(i: nat, rule: Rule, mask: Mask, order': Order, used': nat, ghost n: nat)
      requires i < trees.Length && Separate(trees[..], pool) && Usable(rule) && mask == RuleMask(rule)
      requires IsOrder(order') && CollisionFree(trees[i].tree.Contents(), order', rule)
      requires WF(trees[i].tree.Contents(), n) && SameLevels(trees[i].tree.order, order', n)
      modifies pool, trees, trees[i].tree
      ensures Separate(trees[..], pool) && Objects(trees[..]) == old(Objects(trees[..]))
      ensures Views(trees[..]) == old(Views(trees[..]))[i := Taken(old(View(trees[i])), rule, order', used')]
    {
      hide CollisionFree, WF, WithRule, SameLevels, Tree.Valid, Tree.Contents, Tree.Slots;
      var r := trees[i];
      ghost var s := trees[..];
      Grow(i, rule, order', n);
      trees[i] := r.(usedDimCnt := used', rules := r.rules + [rule], usedMasks := MaskIncr(r.usedMasks, mask));
      assert trees[..] == s[i := trees[i]];
      assert Separate(s, pool);
      SameTrees(s, trees[..], pool);
    }

    // Puts tree i into its place after its greatest priority has risen (resort_on_priority_change).
    method Settle(i: nat) returns (at: nat)
      requires i < treeCnt <= trees.Length && Separate(trees[..], pool)
      requires Descending(Without(InUse(), i), MaxPriority)
      modifies trees
      ensures Separate(trees[..], pool) && Repr() == old(Repr()) && trees[treeCnt..] == old(trees[treeCnt..])
      ensures Repaired(old(InUse()), InUse(), i, at, MaxPriority)
    {
      hide Moved, Without, Descending, RightPlace;
      ghost var all := trees[..];
      ViewsDescending(trees[..treeCnt], i);
      at := Resort(trees, treeCnt, i, RecordPriority);
      assert Views(all[..treeCnt]) == old(InUse()) && Separate(all, pool);
      ViewsRepaired(all[..treeCnt], trees[..treeCnt], i, at);
      assert all == all[..treeCnt] + all[treeCnt..] && trees[..] == trees[..treeCnt] + trees[treeCnt..];
      SeparatePermuted(all, trees[..], pool);
    }

    // The verdict of tree i on the rule.
    method CollidesIn(i: nat, rule: Rule) returns (r: bool)
      requires Valid() && i < treeCnt && ValidRule(rule)
      ensures Valid() && InUse() == old(InUse()) && IsOrder(InUse()[i].order) && r == Collides(InUse()[i], rule)
    {
      hide TreeOk, Fits, Sound, Rep, Meaning, AllIds, Fresh;
      ghost var s := InUse();
      SoundTree(s, inserted, i);
      r := trees[i].tree.DoesRuleCollideRepaired(rule, true);
      assert InUse() == s && Separate(trees[..], pool);
    }

    // Tree i counts a rule of greater priority and moves to its place.
    method Raise(i: nat, priority: nat) returns (at: nat)
      requires i < treeCnt <= trees.Length && Separate(trees[..], pool)
      requires Descending(Without(InUse(), i), MaxPriority)
      modifies trees
      ensures Separate(trees[..], pool) && Repr() == old(Repr()) && trees[treeCnt..] == old(trees[treeCnt..])
      ensures Repaired(old(InUse())[i := old(InUse()[i]).(maxPriority := priority)], InUse(), i, at, MaxPriority)
    {
      hide Moved, Without, Descending, RightPlace, Repaired;
      ghost var all, s := trees[..], InUse();
      trees[i] := trees[i].(maxPriority := priority);
      assert trees[..] == all[i := trees[i]];
      assert Separate(all, pool);
      SameTrees(all, trees[..], pool);
      assert InUse() == s[i := s[i].(maxPriority := priority)];
      WithoutUpdated(s, i, InUse()[i]);
      at := Settle(i);
    }

    // Keeps count of the rules inserted.
    ghost method Note(rules: seq<Rule>)
      requires treeCnt <= trees.Length && Separate(trees[..], pool) && Sound(InUse(), rules)
      requires forall j :: treeCnt <= j < trees.Length ==> Fresh(View(trees[j]))
      modifies this`inserted
      ensures Valid() && Repr() == old(Repr()) && InUse() == old(InUse()) && inserted == rules
    {
      hide Sound, Fresh;
      ghost var s := InUse();
      inserted := rules;
      assert InUse() == s && Separate(trees[..], pool);
    }

    // Tree i, which has taken the rule, counts its priority and moves to its place.
    method Place(i: nat, rule: Rule, ghost s: seq<TreeInfo>, ghost rules: seq<Rule>, ghost t: TreeInfo)
      requires i < treeCnt <= trees.Length && Separate(trees[..], pool) && |s| == treeCnt && InUse() == s[i := t]
      requires forall j :: treeCnt <= j < trees.Length ==> Fresh(View(trees[j]))
      requires Sound(s, rules) && TreeOk(Raised(t, rule)) && Took(s[i], Raised(t, rule), rule)
      requires t.rules == s[i].rules + [rule] && t.maxPriority == s[i].maxPriority
      modifies trees, this`inserted
      ensures Valid() && Repr() == old(Repr()) && inserted == rules + [rule]
      ensures exists at :: TookRule(s, InUse(), i, at, rule)
    {
      hide TreeOk, Took, Sound, SoundBut, TookRule, Repaired, Descending, Without, Separate, Valid;
      ghost var at := i;
      if rule.value.priority > trees[i].maxPriority {
        SoundRaised(s, rules, i, Raised(t, rule), rule);
        WithoutUpdated(s, i, t);
        WithoutUpdated(s, i, Raised(t, rule));
        assert InUse()[i] == t;
        assert InUse()[i := t.(maxPriority := rule.value.priority)] == s[i := Raised(t, rule)];
        at := Raise(i, rule.value.priority);
        SoundResorted(s[i := Raised(t, rule)], InUse(), rules + [rule], i, at);
        TookAndMoved(s, i, Raised(t, rule), rule, InUse(), at);
      } else {
        SoundKept(s, rules, i, t, rule);
        TookHere(s, i, t, rule);
      }
      Note(rules + [rule]);
      assert TookRule(s, InUse(), i, at, rule);
    }

    // Inserts the rule into tree i unless it collides there.
    method TryInsert(rule: Rule, mask: Mask, i: nat) returns (ok: bool)
      requires Valid() && i < treeCnt && Usable(rule) && mask == RuleMask(rule)
      requires IsOrder(InUse()[i].order) && Stays(InUse()[i], rule)
      modifies this`inserted, trees, pool, Objects(trees[..])
      ensures Valid() && Repr() == old(Repr())
      ensures ok == !Collides(old(InUse()[i]), rule)
      ensures !ok ==> inserted == old(inserted) && InUse() == old(InUse())
      ensures ok ==> inserted == old(inserted) + [rule]
      ensures ok ==> exists at :: TookRule(old(InUse()), InUse(), i, at, rule)
    {
      hide TreeOk, Restricts, Fits, Extended, WithRule, Sound, TookRule, Serves, IsOrder, Stays, CollisionFree,
          SameLevels, WF, Valid, Separate, Fresh, Took;
      Counted();
      var r := trees[i];
      ghost var s, rules, t := InUse(), inserted, View(r);
      SoundTree(s, rules, i);
      var collides := CollidesIn(i, rule);
      if collides {
        return false;
      }
      var order', used' := r.tree.order, r.usedDimCnt;
      if used' < D {
        order', used' := ExtendOrder(r.tree.order, r.usedDimCnt, rule);
      } else {
        NothingToExtend(r.tree.order, rule);
      }
      TakenOk(t, rule, order', used');
      IsTook(t, rule, order', used');
      LevelsKept(t, rule, order', used');
      Take(i, rule, mask, order', used', Levels(r.usedDimCnt));
      ViewsSlice(trees[..], treeCnt);
      Place(i, rule, s, rules, Taken(t, rule, order', used'));
      return true;
    }

    // Takes the next tree into use.
    method Open()
      requires treeCnt < trees.Length && Separate(trees[..], pool)
      modifies this`treeCnt
      ensures treeCnt == old(treeCnt) + 1 && Separate(trees[..], pool) && Repr() == old(Repr())
      ensures Views(trees[..]) == old(Views(trees[..]))
    {
      ghost var v := Views(trees[..]);
      treeCnt := treeCnt + 1;
      assert Views(trees[..]) == v && Separate(trees[..], pool);
    }

    // Gives the next tree, which is empty, its first rule.
    method StartTree(rule: Rule, mask: Mask) returns (ghost t0: TreeInfo)
      requires Valid() && treeCnt < trees.Length && Usable(rule) && mask == RuleMask(rule)
      modifies this`treeCnt, trees, pool, Objects(trees[..])
      ensures treeCnt == old(treeCnt) + 1 && Separate(trees[..], pool) && Repr() == old(Repr())
      ensures InUse() == old(InUse()) + [t0] && t0.rules == [rule]
      ensures TreeOk(t0.(maxPriority := rule.value.priority)) && Started(t0.(maxPriority := rule.value.priority), rule)
      ensures forall j :: treeCnt <= j < trees.Length ==> Fresh(View(trees[j]))
    {
      hide TreeOk, Fits, Resolved, WithRule, Sound, Fresh, IsScore, Restricts, CollisionFree, SameLevels, WF, Separate,
          Started;
      var i, r := treeCnt, trees[treeCnt];
      ghost var s, t := InUse(), View(r);
      FreshTree(t);
      var order, used, scores := Resolve([rule], r.tree.order);
      FirstRuleOk(t, rule, order, used, scores);
      UsedFits(t, rule, order, used, scores);
      IsStarted(t, rule, order, used, scores);
      Take(i, rule, mask, order, used, 1);
      t0 := Taken(t, rule, order, used);
      Open();
      ViewsSlice(trees[..], treeCnt);
      assert InUse() == s + [t0];
    }

    // Starts a new tree with the rule.
    method NewTree(rule: Rule, mask: Mask)
      requires Valid() && treeCnt < trees.Length && Usable(rule)
      requires mask == RuleMask(rule)
      modifies this, trees, pool, Objects(trees[..])
      ensures Valid() && Repr() == old(Repr()) && treeCnt == old(treeCnt) + 1
      ensures inserted == old(inserted) + [rule] && NewTook(old(InUse()), InUse(), rule)
    {
      hide TreeOk, Sound, SoundBut, Repaired, Started, Separate, Without, Descending, Fresh;
      ghost var s, rules := InUse(), inserted;
      ghost var t0 := StartTree(rule, mask);
      ghost var t' := t0.(maxPriority := rule.value.priority);
      assert InUse()[|s| := t'] == s + [t'];
      SoundAdded(s, rules, t', rule);
      WithoutUpdated(InUse(), |s|, t');
      var at := Raise(treeCnt - 1, rule.value.priority);
      SoundResorted(s + [t'], InUse(), rules + [rule], |s|, at);
      assert NewTook(s, InUse(), rule);
      Note(rules + [rule]);
    }

    // Tries the trees that hold rules of the same mask.
    method TrySameMask(rule: Rule, mask: Mask) returns (ok: bool, tried: seq<bool>)
      requires Valid() && Usable(rule) && mask == RuleMask(rule) && treeCnt <= trees.Length
      requires forall i :: 0 <= i < treeCnt ==> IsOrder(InUse()[i].order) && Stays(InUse()[i], rule)
      modifies this`inserted, trees, pool, Objects(trees[..])
      ensures Valid() && Repr() == old(Repr()) && |tried| == treeCnt
      ensures ok ==> inserted == old(inserted) + [rule] && SomeTook(old(InUse()), InUse(), rule)
      ensures !ok ==> inserted == old(inserted) && InUse() == old(InUse()) && TriedMask(InUse(), tried, rule)
    {
      hide TreeOk, Restricts, RuleMask, TookRule, Stays, Valid, Collides, IsOrder, FirstTaker, HasMask;
      ghost var s := InUse();
      tried := seq(treeCnt, _ => false);
      for i := 0 to treeCnt
        invariant Valid() && Repr() == old(Repr()) && |tried| == treeCnt
        invariant inserted == old(inserted) && InUse() == s
        invariant forall j :: 0 <= j < i ==> tried[j] == HasMask(s[j], mask)
        invariant forall j :: i <= j < treeCnt ==> !tried[j]
        invariant forall j :: 0 <= j < i && tried[j] ==> Refused(s[j], rule)
      {
        MaskHeld(trees[i], mask);
        if mask in trees[i].usedMasks {
          ok := TryInsert(rule, mask, i);
          if ok {
            FirstOfMask(s, i, rule);
            return;
          }
          tried := tried[i := true];
        }
      }
      ok := false;
    }

    // Tries the others.
    method TryOthers(rule: Rule, mask: Mask, tried: seq<bool>) returns (ok: bool)
      requires Valid() && Usable(rule) && mask == RuleMask(rule) && treeCnt <= trees.Length && |tried| == treeCnt
      requires forall i :: 0 <= i < treeCnt ==> IsOrder(InUse()[i].order) && Stays(InUse()[i], rule)
      requires TriedMask(InUse(), tried, rule)
      modifies this`inserted, trees, pool, Objects(trees[..])
      ensures Valid() && Repr() == old(Repr())
      ensures ok ==> inserted == old(inserted) + [rule] && SomeTook(old(InUse()), InUse(), rule)
      ensures !ok ==> inserted == old(inserted) && InUse() == old(InUse()) && NoneTakes(InUse(), rule)
    {
      hide TreeOk, Restricts, RuleMask, TookRule, Stays, Valid, Collides, IsOrder, FirstTaker, HasMask;
      ghost var s := InUse();
      for i := 0 to treeCnt
        invariant Valid() && Repr() == old(Repr()) && inserted == old(inserted) && InUse() == s
        invariant forall j :: 0 <= j < i ==> Refused(s[j], rule)
      {
        if !tried[i] {
          ok := TryInsert(rule, mask, i);
          if ok {
            FirstOfOthers(s, i, rule, tried);
            return;
          }
        }
      }
      return false;
    }

    /**
     * Inserts the rule into the first tree that takes it, trees with rules of the same
     * mask before others, or into a new one if it collides in all of them. Fails, where the
     * program throws, when every tree is in use and the rule collides in each of them.
     */
    method Insert(rule: Rule) returns (ok: bool)
      requires Valid() && Usable(rule)
      requires forall i :: 0 <= i < treeCnt ==> IsOrder(InUse()[i].order) && Stays(InUse()[i], rule)
      modifies Repr()
      ensures Valid() && Repr() == old(Repr()) && treeCnt <= old(treeCnt) + 1
      ensures ok ==> inserted == old(inserted) + [rule] && Step(old(InUse()), InUse(), rule)
      ensures |InUse()| == |old(InUse())| + 1 ==> NoneTakes(old(InUse()), rule)
      ensures !ok ==> inserted == old(inserted) && InUse() == old(InUse()) && Refuses(rule)
    {
      hide TreeOk, Restricts, Fits, SomeTook, NewTook, Stays, Valid, Collides, IsOrder, NoneTakes, TriedMask;
      Counted();
      ghost var s := InUse();
      var mask := RuleMask(rule);
      var tried;
      ok, tried := TrySameMask(rule, mask);
      if !ok {
        ok := TryOthers(rule, mask, tried);
        if !ok && treeCnt < trees.Length {
          NewTree(rule, mask);
          ok := true;
        }
      }
      if ok {
        NewWhenRefused(s, InUse(), rule);
      }
    }

    // The answer of tree i.
    method Ask(i: nat, packet: Packet) returns (res: Value)
      requires Valid() && i < treeCnt && ValidPacket(packet)
      ensures Valid() && InUse() == old(InUse()) && res == AnswerOf(InUse()[i], packet)
    {
      hide TreeOk, Sound, Fresh, Rep, Meaning, AllIds;
      ghost var s := InUse();
      SoundTree(s, inserted, i);
      res := trees[i].tree.Search(packet);
      assert InUse() == s && Separate(trees[..], pool);
    }

    /**
     * The best answer over all trees; stops as soon as no later tree can have a better one.
     * It is the value of a matching rule, and of a best one when a refining rule never has
     * the lower priority.
     */
    method Search(packet: Packet) returns (found: Value)
      requires Valid() && ValidPacket(packet)
      ensures Valid() && InUse() == old(InUse())
      ensures BestAnswer(InUse(), packet, found) && Matched(inserted, packet, found)
      ensures Monotone(inserted) ==> BestMatch(inserted, packet, found)
    {
      hide TreeOk, BestAnswer, BestMatch, Matched, Sound, Monotone, Valid, AnswerOf;
      found := NO_VALUE;
      Counted();
      ghost var s := InUse();
      NothingYet(packet);
      assert s[..0] == [];
      for i := 0 to treeCnt
        invariant Valid() && InUse() == s && BestAnswer(s[..i], packet, found)
      {
        var res := Ask(i, packet);
        OneMoreTree(s, i, packet, found);
        if res.IsValid() && (!found.IsValid() || found.priority < res.priority) {
          found := res;
        }
        var next := i + 1;
        if found.IsValid() && (next >= treeCnt || trees[next].maxPriority <= found.priority) {
          SoundNoneBetter(s, inserted, i, packet, found);
          SoundFound(s, inserted, packet, found);
          return;
        }
      }
      assert s[..treeCnt] == s;
      SoundFound(s, inserted, packet, found);
    }
  }

  // Which trees were asked because of their masks, in vain.
  ghost predicate TriedMask(s: seq<TreeInfo>, tried: seq<bool>, rule: Rule) {
    && |tried| == |s|
    && forall i :: 0 <= i < |s| ==> tried[i] == HasMask(s[i], RuleMask(rule)) && (tried[i] ==> Refused(s[i], rule))
  }

  lemma MaskHeld(r: TreeRecord, m: Mask)
    ensures HasMask(View(r), m) <==> m in r.usedMasks
  {
  }

  lemma FirstOfMask(s: seq<TreeInfo>, i: nat, rule: Rule)
    requires i < |s| && HasMask(s[i], RuleMask(rule)) && !Refused(s[i], rule)
    requires forall j :: 0 <= j < i && HasMask(s[j], RuleMask(rule)) ==> Refused(s[j], rule)
    ensures FirstTaker(s, i, rule)
  {
    hide HasMask, Refused;
  }

  lemma FirstOfOthers(s: seq<TreeInfo>, i: nat, rule: Rule, tried: seq<bool>)
    requires TriedMask(s, tried, rule) && i < |s| && !tried[i] && !Refused(s[i], rule)
    requires forall j :: 0 <= j < i ==> Refused(s[j], rule)
    ensures FirstTaker(s, i, rule)
  {
    hide HasMask, Refused;
  }

  lemma IsTook(t: TreeInfo, rule: Rule, order': Order, used': nat)
    requires IsOrder(t.order) && t.usedDimCnt <= D && ValidRule(rule)
    requires Extended(t.order, t.usedDimCnt, rule, order', used') && IsOrder(order')
    ensures Took(t, Raised(Taken(t, rule, order', used'), rule), rule)
  {
  }

  lemma UsedFits(t: TreeInfo, rule: Rule, order: Order, used: nat, scores: seq<nat>)
    requires IsOrder(t.order) && |scores| == D && Resolved([rule], t.order, order, used, scores)
    ensures IsOrder(order) && used <= D
  {
  }

  lemma IsStarted(t: TreeInfo, rule: Rule, order: Order, used: nat, scores: seq<nat>)
    requires Fresh(t) && ValidRule(rule) && |scores| == D && IsOrder(order) && used <= D
    requires Resolved([rule], t.order, order, used, scores)
    requires forall i :: 0 <= i < used ==> IsScore([rule], order[i], scores[order[i]])
    ensures Started(Taken(t, rule, order, used).(maxPriority := rule.value.priority), rule)
  {
    hide Resolved, IsScore, WithRule, RuleMask;
    assert [] + [rule] == [rule];
  }

  // A tree without rules is empty.
  lemma FreshTree(t: TreeInfo)
    requires Fresh(t)
    ensures t.tree == EMPTY && IsOrder(t.order) && t.rules == [] && WF(t.tree, 1)
    ensures forall order: Order :: IsOrder(order) ==> SameLevels(t.order, order, 1)
  {
  }

  // Records of the same trees are as separate.
  lemma SameTrees(s: seq<TreeRecord>, r: seq<TreeRecord>, pool: NodePool)
    requires |s| == |r| && (forall i :: 0 <= i < |s| ==> s[i].tree == r[i].tree) && Separate(s, pool)
    ensures Separate(r, pool) && Objects(r) == Objects(s)
  {
  }

  lemma LevelsKept(t: TreeInfo, rule: Rule, order': Order, used': nat)
    requires TreeOk(t) && Usable(rule) && Extended(t.order, t.usedDimCnt, rule, order', used')
    ensures WF(t.tree, Levels(t.usedDimCnt)) && SameLevels(t.order, order', Levels(t.usedDimCnt))
  {
  }
}
