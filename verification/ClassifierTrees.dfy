/** What the trees of the partition sort classifier hold, and what one more rule or a search makes of them. */
module ClassifierTrees {
  import opened Ranges
  import opened Items
  import opened Nodes
  import opened Tries
  import opened RuleSpecs
  import opened RuleTrees
  import opened ArrayResort
  import opened DimensionOrders
  import opened OrderExtension
  import opened ListClassifier
  import opened TreeAnswers

  type Mask = seq<nat>

  // The mask that the value type of the tree extracts from one range of a rule.
  const MASK_OF: Range -> nat

  // A tree_info of the program, with the contents of the tree in place of its nodes.
  datatype TreeInfo = TreeInfo(
    tree: Trie,
    order: Order,
    maxPriority: nat,
    usedDimCnt: nat,
    rules: seq<Rule>,
    usedMasks: map<Mask, nat>)

  function MaxPriority(t: TreeInfo): nat {
    t.maxPriority
  }

  function RuleMask(rule: Rule): Mask {
    seq(|rule.filter|, i requires 0 <= i < |rule.filter| => MASK_OF(rule.filter[i]))
  }

  // How many of the rules have the mask.
  ghost function MaskCount(rules: seq<Rule>, m: Mask): nat {
    if rules == [] then 0
    else MaskCount(rules[..|rules| - 1], m) + if RuleMask(rules[|rules| - 1]) == m then 1 else 0
  }

  // The masks in use are those of the rules, each with its number of rules.
  ghost predicate MasksOk(masks: map<Mask, nat>, rules: seq<Rule>) {
    && (forall m :: m in masks <==> exists r :: r in rules && RuleMask(r) == m)
    && (forall m :: m in masks ==> masks[m] == MaskCount(rules, m))
  }

  // The rule does not fit into the tree.
  predicate Collides(t: TreeInfo, rule: Rule)
    requires IsOrder(t.order) && |rule.filter| == D
  {
    !Fits(t.tree, InOrder(t.order, rule.filter))
  }

  // ---------- one tree ----------

  ghost predicate IsMax(m: nat, rules: seq<Rule>) {
    && (forall r :: r in rules ==> r.value.priority <= m)
    && exists r :: r in rules && r.value.priority == m
  }

  // A tree without a field in use holds rules that match everything.
  ghost predicate TreeOk(t: TreeInfo) {
    && IsOrder(t.order) && t.usedDimCnt <= D && Serves(t.tree, t.order, Levels(t.usedDimCnt), t.rules)
    && IsMax(t.maxPriority, t.rules)
    && (t.usedDimCnt == 0 ==> NoneRestricts(t.rules))
    && MasksOk(t.usedMasks, t.rules)
  }

  ghost predicate NoneRestricts(rules: seq<Rule>) {
    forall r :: r in rules ==> !Restricts(r)
  }

  // The fields in the order of the packet.
  function InPlace(): Order {
    seq(D, i => i)
  }

  ghost predicate Fresh(t: TreeInfo) {
    IsOrder(t.order) && t == TreeInfo(EMPTY, InPlace(), 0, 0, [], map[])
  }

  function MaskIncr(masks: map<Mask, nat>, m: Mask): map<Mask, nat> {
    masks[m := if m in masks then masks[m] + 1 else 1]
  }

  // The tree after it has taken the rule.
  function Taken(t: TreeInfo, rule: Rule, order: Order, used: nat): TreeInfo
    requires IsOrder(order) && ValidRule(rule)
  {
    TreeInfo(WithRule(t.tree, order, rule), order, t.maxPriority, used, t.rules + [rule],
             MaskIncr(t.usedMasks, RuleMask(rule)))
  }

  function Raised(t: TreeInfo, rule: Rule): TreeInfo {
    if rule.value.priority > t.maxPriority then t.(maxPriority := rule.value.priority) else t
  }

  lemma MonotonePart(all: seq<Rule>, part: seq<Rule>)
    requires Monotone(all) && forall r :: r in part ==> r in all
    ensures Monotone(part)
  {
  }

  // No field that the rule restricts is taken into use above a key that is there already.
  ghost predicate Stays(t: TreeInfo, rule: Rule)
    requires IsOrder(t.order) && |rule.filter| == D
  {
    t.usedDimCnt > 0 || !Restricts(rule) || Collides(t, rule)
  }

  // The rule has its place behind the levels in use.
  lemma {:induction false} PathFits(t: Trie, order: Order, used: nat, rule: Rule, order': Order, used': nat)
    requires IsOrder(order) && 0 < used <= D && WF(t, used) && ValidRule(rule)
    requires Extended(order, used, rule, order', used') && Fits(t, InOrder(order, rule.filter))
    ensures IsOrder(order') && CollisionFree(t, order', rule) && |RulePath(t, order', rule)| <= used'
  {
    hide WF, Fits, MatchLen;
    VerdictKept(t, order, used, rule, order', used');
    ExtensionSuffices(order, used, rule, order', used');
    FitsPrefix(t, InOrder(order', rule.filter), PathLen(t, InOrder(order', rule.filter)));
  }

  lemma WildKeys(order: Order, rule: Rule)
    requires IsOrder(order) && ValidRule(rule) && !Restricts(rule)
    ensures InOrder(order, rule.filter) == seq(D, _ => ANY)
  {
  }

  // A rule that restricts nothing, in a tree of such rules.
  lemma {:induction false} WildFits(t: Trie, order: Order, rule: Rule, order': Order)
    requires IsOrder(order) && IsOrder(order') && WF(t, 1) && ValidRule(rule) && !Restricts(rule)
    requires Fits(t, InOrder(order, rule.filter))
    ensures CollisionFree(t, order', rule) && |RulePath(t, order', rule)| <= 1
  {
    hide WF, Fits, MatchLen;
    WildKeys(order, rule);
    WildKeys(order', rule);
    var ks := InOrder(order', rule.filter);
    FitsShallow(t, 1, ks, ks);
    RequiredIs(ks, 0);
    FitsPrefix(t, ks, PathLen(t, ks));
  }

  lemma {:induction false} WildStored(t: Trie, order: Order, rules: seq<Rule>, q: Path)
    requires IsOrder(order) && Serves(t, order, 1, rules) && NoneRestricts(rules) && Get(t, q).IsValid()
    ensures q == [ANY]
  {
    hide FilterOf, WF, Get, IsOrder, FieldOf;
    StoredValid(t, 1, q);
    assert Known(t, order, rules, q);
    var r :| r in rules && r.filter == FilterOf(order, q);
    FirstField(order, q);
    assert !Restricts(r);
    assert q[0].IsWildcard() && q == [q[0]];
  }

  lemma FirstField(order: Order, q: Path)
    requires IsOrder(order) && q != []
    ensures |order| == D && 0 <= order[0] < |FilterOf(order, q)| && FilterOf(order, q)[order[0]] == q[0]
  {
    IndexIs(order, 0);
  }

  lemma AnyFilter(order: Order, order': Order)
    requires IsOrder(order) && IsOrder(order')
    ensures FilterOf(order, [ANY]) == FilterOf(order', [ANY])
  {
    assert forall d :: 0 <= d < D ==> FieldOf(order, [ANY], d) == ANY == FieldOf(order', [ANY], d);
  }

  // Such a tree serves its rules in any order of the fields.
  lemma {:induction false} WildServes(t: Trie, order: Order, order': Order, rules: seq<Rule>)
    requires IsOrder(order) && IsOrder(order') && Serves(t, order, 1, rules) && NoneRestricts(rules)
    ensures Serves(t, order', 1, rules)
  {
    hide FilterOf, IsOrder;
    AnyFilter(order, order');
    forall q | Get(t, q).IsValid()
      ensures Known(t, order', rules, q)
    {
      WildStored(t, order, rules, q);
      assert Known(t, order, rules, q);
    }
    forall r | r in rules
      ensures Kept(t, order', r)
    {
      assert Kept(t, order, r);
      var q :| Get(t, q).IsValid() && FilterOf(order, q) == r.filter;
      WildStored(t, order, rules, q);
    }
  }

  lemma FirstTaken(order: Order, rule: Rule, order': Order, used': nat)
    requires IsOrder(order) && ValidRule(rule) && Extended(order, 0, rule, order', used')
    ensures used' > 0 ==> IsOrder(order') && Restricts(rule) && !rule.filter[order'[0]].IsWildcard()
  {
    if used' > 0 {
      assert !rule.filter[order'[0]].IsWildcard();
    }
  }

  lemma TakenServes(t: TreeInfo, rule: Rule, order': Order, used': nat)
    requires TreeOk(t) && Usable(rule) && Stays(t, rule) && !Collides(t, rule)
    requires Extended(t.order, t.usedDimCnt, rule, order', used')
    ensures IsOrder(order') && CollisionFree(t.tree, order', rule) && used' <= D
    ensures Serves(WithRule(t.tree, order', rule), order', Levels(used'), t.rules + [rule])
    ensures used' == 0 ==> NoneRestricts(t.rules + [rule])
  {
    hide WF, Fits, Serves, CollisionFree, WithRule, RulePath;
    ServesIs(t.tree, t.order, Levels(t.usedDimCnt), t.rules);
    if t.usedDimCnt > 0 {
      PathFits(t.tree, t.order, t.usedDimCnt, rule, order', used');
      ServesExtended(t.tree, t.order, t.usedDimCnt, t.rules, rule, order', used');
    } else {
      FirstTaken(t.order, rule, order', used');
      WildFits(t.tree, t.order, rule, order');
      WildServes(t.tree, t.order, order', t.rules);
    }
    ServesOneMore(t.tree, order', Levels(used'), t.rules, rule);
  }

  lemma TakenOk(t: TreeInfo, rule: Rule, order': Order, used': nat)
    requires TreeOk(t) && Usable(rule) && Stays(t, rule) && !Collides(t, rule)
    requires Extended(t.order, t.usedDimCnt, rule, order', used')
    ensures IsOrder(order') && CollisionFree(t.tree, order', rule)
    ensures TreeOk(Raised(Taken(t, rule, order', used'), rule))
  {
    hide WF, Fits, Extended, Serves, CollisionFree, WithRule, RulePath, NoneRestricts, Restricts, MasksOk, MaskIncr;
    TakenServes(t, rule, order', used');
    RaisedMax(t.maxPriority, t.rules, rule);
    MasksCounted(t.usedMasks, t.rules, rule);
  }

  lemma {:induction false} MasksCounted(masks: map<Mask, nat>, rules: seq<Rule>, rule: Rule)
    requires MasksOk(masks, rules)
    ensures MasksOk(MaskIncr(masks, RuleMask(rule)), rules + [rule])
  {
    hide RuleMask;
    var all, masks' := rules + [rule], MaskIncr(masks, RuleMask(rule));
    assert all[..|all| - 1] == rules && all[|rules|] == rule;
    forall m
      ensures m in masks' <==> exists r :: r in all && RuleMask(r) == m
    {
      if m in masks {
        var r :| r in rules && RuleMask(r) == m;
        assert r in all;
      }
      assert rule in all;
    }
    forall m | m in masks'
      ensures masks'[m] == MaskCount(all, m)
    {
      assert MaskCount(all, m) == MaskCount(rules, m) + if RuleMask(rule) == m then 1 else 0;
      if m !in masks {
        NoMask(rules, m);
      }
    }
  }

  lemma {:induction false} NoMask(rules: seq<Rule>, m: Mask)
    requires forall r :: r in rules ==> RuleMask(r) != m
    ensures MaskCount(rules, m) == 0
  {
    if rules != [] {
      NoMask(rules[..|rules| - 1], m);
    }
  }

  /**
   * Where the rule does not stay, the tree breaks: a field of it is swapped to the first level,
   * where a key that matches everything is stored, so that it collides after all. The
   * program's assertion between swapping and inserting holds exactly if the rule stays.
   */
  lemma {:induction false} BreaksUnlessItStays(t: TreeInfo, rule: Rule, order': Order, used': nat)
    requires TreeOk(t) && Usable(rule) && !Collides(t, rule)
    requires Extended(t.order, t.usedDimCnt, rule, order', used')
    ensures IsOrder(order')
    ensures CollisionFree(t.tree, order', rule) <==> Stays(t, rule)
    ensures Fits(t.tree, InOrder(order', rule.filter)) <==> Stays(t, rule)
  {
    if Stays(t, rule) {
      TakenServes(t, rule, order', used');
      StillFits(t, rule, order', used');
    } else {
      var d :| 0 <= d < D && !rule.filter[d].IsWildcard();
      var i := OrderCovers(order', d);
      assert used' > 0 && !rule.filter[order'[0]].IsWildcard();
      AnyStored(t);
      var path := RulePath(t.tree, order', rule);
      NotBesideAny(t.tree.entries, path[0]);
    }
  }

  lemma {:induction false} StillFits(t: TreeInfo, rule: Rule, order': Order, used': nat)
    requires TreeOk(t) && Usable(rule) && Stays(t, rule) && !Collides(t, rule)
    requires Extended(t.order, t.usedDimCnt, rule, order', used')
    ensures IsOrder(order') && Fits(t.tree, InOrder(order', rule.filter))
  {
    hide WF, Fits, Serves;
    ServesIs(t.tree, t.order, Levels(t.usedDimCnt), t.rules);
    if t.usedDimCnt > 0 {
      VerdictKept(t.tree, t.order, t.usedDimCnt, rule, order', used');
    } else {
      WildKeys(t.order, rule);
      WildKeys(order', rule);
    }
  }

  lemma {:induction false} AnyStored(t: TreeInfo)
    requires TreeOk(t) && t.usedDimCnt == 0
    ensures Has(t.tree.entries, ANY) && Separated(t.tree.entries)
  {
    hide FilterOf, IsOrder, NoneRestricts, Get, Has;
    var r :| r in t.rules && r.value.priority == t.maxPriority;
    assert Kept(t.tree, t.order, r);
    var q :| Get(t.tree, q).IsValid() && FilterOf(t.order, q) == r.filter;
    WildStored(t.tree, t.order, t.rules, q);
    FirstKey(t.tree, ANY);
  }

  lemma FirstKey(t: Trie, k: Range)
    requires Get(t, [k]).IsValid()
    ensures Has(t.entries, k)
  {
  }

  lemma {:induction false} NotBesideAny<N>(s: seq<Item<N>>, k: Range)
    requires Has(s, ANY) && Separated(s) && k.Valid() && !k.IsWildcard()
    ensures !Has(s, k) && !DisjointFromAll(k, s)
  {
    var p := Find(s, ANY);
    forall i | 0 <= i < |s|
      ensures s[i].key == ANY
    {
      assert s[i].key.Valid() && s[p].key == ANY;
    }
  }

  lemma RaisedMax(m: nat, rules: seq<Rule>, rule: Rule)
    requires IsMax(m, rules)
    ensures IsMax(if rule.value.priority > m then rule.value.priority else m, rules + [rule])
  {
    var all := rules + [rule];
    assert all[|rules|] == rule;
    var r :| r in rules && r.value.priority == m;
    assert r in all;
  }

  // A tree made for its first rule.
  lemma FirstRuleOk(t: TreeInfo, rule: Rule, order: Order, used: nat, scores: seq<nat>)
    requires Fresh(t) && Usable(rule) && |scores| == D
    requires Resolved([rule], t.order, order, used, scores)
    ensures IsOrder(order) && CollisionFree(EMPTY, order, rule)
    ensures TreeOk(Taken(t, rule, order, used).(maxPriority := rule.value.priority))
  {
    hide WithRule, Serves, Resolved, Fits, Get, Extended, Restricts, MasksOk, MaskIncr;
    NoMasks();
    MasksCounted(map[], [], rule);
    FirstPath(t, rule, order, used, scores);
    EmptyServes(order, Levels(used));
    assert [] + [rule] == [rule];
    ServesOneMore(EMPTY, order, Levels(used), [], rule);
    assert rule in [rule];
  }

  lemma NoMasks()
    ensures MasksOk(map[], [])
  {
  }

  lemma FirstPath(t: TreeInfo, rule: Rule, order: Order, used: nat, scores: seq<nat>)
    requires Fresh(t) && Usable(rule) && |scores| == D
    requires Resolved([rule], t.order, order, used, scores)
    ensures IsOrder(order) && used <= D
    ensures CollisionFree(EMPTY, order, rule) && |RulePath(EMPTY, order, rule)| <= Levels(used)
    ensures used == 0 ==> !Restricts(rule)
  {
    LevelsNeeded([rule], t.order, order, used, scores, rule);
    assert MatchLen(EMPTY, InOrder(order, rule.filter)) == 0;
    if Restricts(rule) {
      var d :| 0 <= d < D && !rule.filter[d].IsWildcard();
      var i := OrderCovers(order, d);
      assert Restricted([rule], order[i]);
    }
  }

  /**
   * The first rule of a tree takes as many levels as the resolver puts into use, and at
   * least one: it fits into the levels in use exactly if it restricts some field.
   */
  lemma {:induction false} FirstRuleFits(original: Order, order: Order, used: nat, scores: seq<nat>, rule: Rule)
    requires IsOrder(original) && |scores| == D && ValidRule(rule)
    requires Resolved([rule], original, order, used, scores)
    ensures IsOrder(order) && |RulePath(EMPTY, order, rule)| == if used == 0 then 1 else used
    ensures WF(WithRule(EMPTY, order, rule), used) <==> exists d :: 0 <= d < D && !rule.filter[d].IsWildcard()
  {
    hide WF, Required, Chain;
    var ks := InOrder(order, rule.filter);
    assert rule in [rule] && MatchLen(EMPTY, ks) == 0;
    forall i | 0 <= i < D
      ensures i < used <==> !ks[i].IsWildcard()
    {
      assert Restricted([rule], order[i]) <==> i < used;
    }
    RequiredIs(ks, used);
    var path := RulePath(EMPTY, order, rule);
    if used > 0 {
      assert !rule.filter[order[used - 1]].IsWildcard();
      ChainWF(path, rule.value, used);
      InsertIntoEmpty(path, rule.value);
    } else {
      forall d | 0 <= d < D
        ensures rule.filter[d].IsWildcard()
      {
        var i := OrderCovers(order, d);
        assert ks[i].IsWildcard();
      }
      NotFlat(path, rule.value);
    }
  }

  lemma {:induction false} NotFlat(path: Path, v: Value)
    requires path != []
    ensures !WF(Insert(EMPTY, path, v), 0)
  {
  }

  lemma EmptyServes(order: Order, used: nat)
    requires IsOrder(order) && used <= D
    ensures Serves(EMPTY, order, used, [])
  {
    assert WF(EMPTY, used);
    assert forall q: Path :: !Get(EMPTY, q).IsValid();
  }

  // ---------- all trees ----------

  ghost predicate AllOk(s: seq<TreeInfo>) {
    forall t :: t in s ==> TreeOk(t)
  }

  // The trees hold the inserted rules and no others.
  ghost predicate Covers(s: seq<TreeInfo>, rules: seq<Rule>) {
    forall r :: r in rules <==> InSome(s, r)
  }

  ghost predicate InSome(s: seq<TreeInfo>, r: Rule) {
    exists t :: t in s && r in t.rules
  }

  lemma Permuted(a: seq<TreeInfo>, b: seq<TreeInfo>, rules: seq<Rule>)
    requires multiset(a) == multiset(b) && AllOk(a) && Covers(a, rules)
    ensures AllOk(b) && Covers(b, rules)
  {
    hide TreeOk;
    forall t
      ensures t in a <==> t in b
    {
      assert t in multiset(a) <==> t in multiset(b);
    }
    forall r
      ensures InSome(a, r) <==> InSome(b, r)
    {
    }
  }

  lemma OneTook(s: seq<TreeInfo>, i: nat, t': TreeInfo, rules: seq<Rule>, rule: Rule)
    requires i < |s| && AllOk(s) && Covers(s, rules) && TreeOk(t') && t'.rules == s[i].rules + [rule]
    ensures AllOk(s[i := t']) && Covers(s[i := t'], rules + [rule])
  {
    hide TreeOk;
    var s' := s[i := t'];
    forall r
      ensures r in rules + [rule] <==> InSome(s', r)
    {
      if InSome(s, r) {
        var t :| t in s && r in t.rules;
        var j :| 0 <= j < |s| && s[j] == t;
        assert s'[j] in s' && r in s'[j].rules;
      }
      if InSome(s', r) {
        var t :| t in s' && r in t.rules;
        var j :| 0 <= j < |s'| && s'[j] == t;
        assert s[j] in s;
        assert r in s[j].rules || r == rule;
      }
      assert s'[i] in s' && rule in s'[i].rules;
    }
    forall t | t in s'
      ensures TreeOk(t)
    {
      if t != t' {
        var j :| 0 <= j < |s'| && s'[j] == t;
        assert s[j] in s;
      }
    }
  }

  lemma OneAdded(s: seq<TreeInfo>, t: TreeInfo, rules: seq<Rule>, rule: Rule)
    requires AllOk(s) && Covers(s, rules) && TreeOk(t) && t.rules == [rule]
    ensures AllOk(s + [t]) && Covers(s + [t], rules + [rule])
  {
    hide TreeOk;
    var s' := s + [t];
    forall r
      ensures r in rules + [rule] <==> InSome(s', r)
    {
      assert s'[|s|] in s' && rule in s'[|s|].rules;
      if InSome(s', r) && r != rule {
        var u :| u in s' && r in u.rules;
        assert u in s;
      }
      if InSome(s, r) {
        var u :| u in s && r in u.rules;
        assert u in s';
      }
    }
  }

  lemma StillDescending(s: seq<TreeInfo>, i: nat, t': TreeInfo)
    requires i < |s| && Descending(s, MaxPriority)
    ensures Descending(Without(s[i := t'], i), MaxPriority)
    ensures t'.maxPriority == s[i].maxPriority ==> Descending(s[i := t'], MaxPriority)
  {
    var s', w := s[i := t'], Without(s[i := t'], i);
    forall j, k | 0 <= j < k < |w|
      ensures MaxPriority(w[j]) >= MaxPriority(w[k])
    {
    }
  }

  lemma AppendedDescending(s: seq<TreeInfo>, t: TreeInfo)
    requires Descending(s, MaxPriority)
    ensures Without(s + [t], |s|) == s
  {
  }

  // ---------- searching ----------

  ghost function AnswerOf(t: TreeInfo, packet: Packet): Value {
    if IsOrder(t.order) && ValidPacket(packet) then Answer(t.tree, t.order, packet) else NO_VALUE
  }

  // Tree i has this answer, and every tree before it that answers has a lower one.
  ghost predicate FirstWith(s: seq<TreeInfo>, packet: Packet, i: nat, v: Value) {
    && i < |s| && AnswerOf(s[i], packet) == v
    && forall j :: 0 <= j < i && AnswerOf(s[j], packet).IsValid() ==> AnswerOf(s[j], packet).priority < v.priority
  }

  // The answer that no other one outdoes, if there is any: of equal ones the first tree's.
  ghost predicate BestAnswer(s: seq<TreeInfo>, packet: Packet, v: Value) {
    && (if v.IsValid() then exists i :: FirstWith(s, packet, i, v) else v == NO_VALUE)
    && forall i :: 0 <= i < |s| && AnswerOf(s[i], packet).IsValid() ==>
         v.IsValid() && AnswerOf(s[i], packet).priority <= v.priority
  }

  // There is one such answer.
  lemma BestAnswerOnce(s: seq<TreeInfo>, packet: Packet, v: Value, w: Value)
    requires BestAnswer(s, packet, v) && BestAnswer(s, packet, w)
    ensures v == w
  {
    hide AnswerOf;
    if v.IsValid() {
      var i :| FirstWith(s, packet, i, v);
      var j :| FirstWith(s, packet, j, w);
    }
  }

  function Better(found: Value, res: Value): Value {
    if res.IsValid() && (!found.IsValid() || found.priority < res.priority) then res else found
  }

  lemma OneMoreTree(s: seq<TreeInfo>, i: nat, packet: Packet, found: Value)
    requires i < |s| && BestAnswer(s[..i], packet, found)
    ensures BestAnswer(s[..i + 1], packet, Better(found, AnswerOf(s[i], packet)))
  {
    hide AnswerOf;
    var u := s[..i + 1];
    assert forall k :: 0 <= k < i ==> u[k] == s[..i][k];
    assert u[i] == s[i];
    var res := AnswerOf(s[i], packet);
    if found.IsValid() {
      var k :| FirstWith(s[..i], packet, k, found);
      assert FirstWith(u, packet, k, found);
    }
    if Better(found, res) == res && res.IsValid() && res != found {
      assert FirstWith(u, packet, i, res);
    }
  }

  // A tree's answer comes from a rule, and so is no greater than the tree's greatest priority.
  lemma AnswerBounded(t: TreeInfo, packet: Packet)
    requires TreeOk(t) && ValidPacket(packet)
    ensures AnswerOf(t, packet).IsValid() ==> AnswerOf(t, packet).priority <= t.maxPriority
  {
    hide Serves, FilterMatches;
    AnswerOfRule(t.tree, t.order, Levels(t.usedDimCnt), t.rules, packet);
  }

  // The trees behind i answer no better than what is found.
  lemma NoneBetter(s: seq<TreeInfo>, i: nat, packet: Packet, found: Value)
    requires i < |s| && AllOk(s) && Descending(s, MaxPriority) && ValidPacket(packet)
    requires BestAnswer(s[..i + 1], packet, found) && found.IsValid()
    requires i + 1 < |s| ==> s[i + 1].maxPriority <= found.priority
    ensures BestAnswer(s, packet, found)
  {
    hide AnswerOf, TreeOk;
    forall k | 0 <= k < |s| && AnswerOf(s[k], packet).IsValid()
      ensures AnswerOf(s[k], packet).priority <= found.priority
    {
      if k <= i {
        assert s[..i + 1][k] == s[k];
      } else {
        assert s[k] in s;
        AnswerBounded(s[k], packet);
        assert MaxPriority(s[i + 1]) >= MaxPriority(s[k]) || k == i + 1;
      }
    }
    var k :| FirstWith(s[..i + 1], packet, k, found);
    assert forall j :: 0 <= j < i + 1 ==> s[j] == s[..i + 1][j];
    assert FirstWith(s, packet, k, found);
  }

  // The value of a rule that matches, if any does.
  ghost predicate Matched(rules: seq<Rule>, packet: Packet, v: Value) {
    if v.IsValid() then exists r :: r in rules && FilterMatches(r.filter, packet) && r.value == v
    else forall r :: r in rules ==> !FilterMatches(r.filter, packet)
  }

  lemma FoundMatches(s: seq<TreeInfo>, rules: seq<Rule>, packet: Packet, v: Value)
    requires Sound(s, rules) && ValidPacket(packet) && BestAnswer(s, packet, v)
    ensures Matched(rules, packet, v)
  {
    hide FilterMatches, Serves;
    if v.IsValid() {
      var i: nat :| FirstWith(s, packet, i, v);
      SoundAnswer(s, rules, i, packet);
      var r :| r in s[i].rules && FilterMatches(r.filter, packet) && r.value == v;
      assert s[i] in s && InSome(s, r);
    } else {
      forall r | r in rules
        ensures !FilterMatches(r.filter, packet)
      {
        assert InSome(s, r);
        var t :| t in s && r in t.rules;
        var i :| 0 <= i < |s| && s[i] == t;
        SoundAnswer(s, rules, i, packet);
      }
    }
  }

  lemma FoundIsBest(s: seq<TreeInfo>, rules: seq<Rule>, packet: Packet, v: Value)
    requires Sound(s, rules) && ValidPacket(packet) && BestAnswer(s, packet, v) && Monotone(rules)
    ensures BestMatch(rules, packet, v)
  {
    hide FilterMatches, Serves, Monotone, AnswerOf, TreeOk;
    FoundMatches(s, rules, packet, v);
    forall r | r in rules && FilterMatches(r.filter, packet)
      ensures r.value.priority <= v.priority
    {
      assert InSome(s, r);
      var t :| t in s && r in t.rules;
      var i :| 0 <= i < |s| && s[i] == t;
      SoundBest(s, rules, i, packet);
    }
  }

  // ---------- what an insertion changes ----------

  // What a tree is after it has taken the rule.
  ghost predicate Took(t: TreeInfo, t': TreeInfo, rule: Rule) {
    && IsOrder(t.order) && t.usedDimCnt <= D && ValidRule(rule)
    && Extended(t.order, t.usedDimCnt, rule, t'.order, t'.usedDimCnt)
    && t' == Raised(Taken(t, rule, t'.order, t'.usedDimCnt), rule)
  }

  // Tree i took the rule and moved to its place if its greatest priority rose; all other
  // trees kept theirs.
  ghost predicate TookRule(s: seq<TreeInfo>, s': seq<TreeInfo>, i: nat, at: nat, rule: Rule) {
    && i < |s| == |s'| && at < |s'| && Took(s[i], s'[at], rule)
    && if s'[at].maxPriority > s[i].maxPriority then Repaired(s[i := s'[at]], s', i, at, MaxPriority)
       else at == i && s' == s[i := s'[at]]
  }

  ghost predicate HasMask(t: TreeInfo, m: Mask) {
    m in t.usedMasks
  }

  // The trees that hold rules of the mask are asked first, and then the others.
  ghost predicate AskedBefore(s: seq<TreeInfo>, m: Mask, j: nat, i: nat)
    requires i < |s| && j < |s|
  {
    if HasMask(s[j], m) == HasMask(s[i], m) then j < i else HasMask(s[j], m)
  }

  ghost predicate Refused(t: TreeInfo, rule: Rule) {
    IsOrder(t.order) && |rule.filter| == D && Collides(t, rule)
  }

  // Tree i is the first one asked that the rule fits into.
  ghost predicate FirstTaker(s: seq<TreeInfo>, i: nat, rule: Rule) {
    && i < |s| && !Refused(s[i], rule)
    && forall j :: 0 <= j < |s| && AskedBefore(s, RuleMask(rule), j, i) ==> Refused(s[j], rule)
  }

  ghost predicate SomeTook(s: seq<TreeInfo>, s': seq<TreeInfo>, rule: Rule) {
    exists i, at :: FirstTaker(s, i, rule) && TookRule(s, s', i, at, rule)
  }

  ghost predicate NoneTakes(s: seq<TreeInfo>, rule: Rule) {
    forall i :: 0 <= i < |s| ==> Refused(s[i], rule)
  }

  // What a new tree is with its first rule: its fields are in the order that is resolved for it.
  ghost predicate Started(t: TreeInfo, rule: Rule) {
    && IsOrder(InPlace()) && ValidRule(rule) && IsOrder(t.order)
    && (exists scores ::
          && |scores| == D && Resolved([rule], InPlace(), t.order, t.usedDimCnt, scores)
          && forall i :: 0 <= i < t.usedDimCnt ==> IsScore([rule], t.order[i], scores[t.order[i]]))
    && t == TreeInfo(WithRule(EMPTY, t.order, rule), t.order, rule.value.priority, t.usedDimCnt, [rule],
                     map[RuleMask(rule) := 1])
  }

  // A new tree holds the rule alone and has moved to its place; all others kept theirs.
  ghost predicate NewTook(s: seq<TreeInfo>, s': seq<TreeInfo>, rule: Rule) {
    exists t, at :: Started(t, rule) && Repaired(s + [t], s', |s|, at, MaxPriority)
  }

  // What one insertion makes of the trees in use.
  ghost predicate Step(s: seq<TreeInfo>, s': seq<TreeInfo>, rule: Rule) {
    SomeTook(s, s', rule) || (NoneTakes(s, rule) && NewTook(s, s', rule))
  }

  // A new tree is taken into use only when the rule collides in every tree in use.
  lemma NewWhenRefused(s: seq<TreeInfo>, s': seq<TreeInfo>, rule: Rule)
    requires Step(s, s', rule)
    ensures |s'| == if NoneTakes(s, rule) then |s| + 1 else |s|
  {
    hide Repaired, Took, Started;
    if SomeTook(s, s', rule) {
      var i, at :| FirstTaker(s, i, rule) && TookRule(s, s', i, at, rule);
    } else {
      var t, at :| Started(t, rule) && Repaired(s + [t], s', |s|, at, MaxPriority);
      RepairedLength(s + [t], s', |s|, at);
    }
  }

  lemma RepairedLength(s: seq<TreeInfo>, s': seq<TreeInfo>, i: nat, at: nat)
    requires Repaired(s, s', i, at, MaxPriority)
    ensures |s'| == |s| && at < |s'| && s'[at] == s[i] && Without(s', at) == Without(s, i)
  {
    MovedWithout(s, i, at);
  }

  lemma MovedWithout(s: seq<TreeInfo>, i: nat, at: nat)
    requires i < |s| && at < |s|
    ensures |Moved(s, i, at)| == |s| && Moved(s, i, at)[at] == s[i]
    ensures Without(Moved(s, i, at), at) == Without(s, i)
  {
  }

  lemma WithoutUpdated(s: seq<TreeInfo>, i: nat, t: TreeInfo)
    requires i < |s|
    ensures Without(s[i := t], i) == Without(s, i)
  {
  }

  lemma TookHere(s: seq<TreeInfo>, i: nat, t': TreeInfo, rule: Rule)
    requires i < |s| && Took(s[i], t', rule) && t'.maxPriority == s[i].maxPriority
    ensures TookRule(s, s[i := t'], i, i, rule)
  {
  }

  lemma TookAndMoved(s: seq<TreeInfo>, i: nat, t': TreeInfo, rule: Rule, s': seq<TreeInfo>, at: nat)
    requires i < |s| && Took(s[i], t', rule) && t'.maxPriority > s[i].maxPriority
    requires Repaired(s[i := t'], s', i, at, MaxPriority)
    ensures TookRule(s, s', i, at, rule)
  {
    hide Took;
    RepairedLength(s[i := t'], s', i, at);
  }

  // What holds of the trees in use at all times.
  ghost predicate Sound(s: seq<TreeInfo>, rules: seq<Rule>) {
    AllOk(s) && Covers(s, rules) && Descending(s, MaxPriority)
  }

  lemma NoTrees()
    ensures Sound([], []) && IsOrder(InPlace())
  {
  }

  lemma SoundTree(s: seq<TreeInfo>, rules: seq<Rule>, i: nat)
    requires Sound(s, rules) && i < |s|
    ensures TreeOk(s[i]) && IsOrder(s[i].order) && s[i].usedDimCnt <= D
    ensures Serves(s[i].tree, s[i].order, Levels(s[i].usedDimCnt), s[i].rules)
  {
    assert s[i] in s;
  }

  lemma NothingToExtend(order: Order, rule: Rule)
    requires IsOrder(order) && ValidRule(rule)
    ensures Extended(order, D, rule, order, D)
  {
    RankStart(order, D, rule);
  }

  // The tree took the rule and its greatest priority stayed.
  lemma SoundKept(s: seq<TreeInfo>, rules: seq<Rule>, i: nat, t': TreeInfo, rule: Rule)
    requires Sound(s, rules) && i < |s| && TreeOk(t')
    requires t'.rules == s[i].rules + [rule] && t'.maxPriority == s[i].maxPriority
    ensures Sound(s[i := t'], rules + [rule])
  {
    hide TreeOk;
    OneTook(s, i, t', rules, rule);
    StillDescending(s, i, t');
  }

  // Its greatest priority rose: everything is in order but its place.
  ghost predicate SoundBut(s: seq<TreeInfo>, rules: seq<Rule>, i: nat) {
    i < |s| && AllOk(s) && Covers(s, rules) && Descending(Without(s, i), MaxPriority)
  }

  lemma SoundRaised(s: seq<TreeInfo>, rules: seq<Rule>, i: nat, t': TreeInfo, rule: Rule)
    requires Sound(s, rules) && i < |s| && TreeOk(t')
    requires t'.rules == s[i].rules + [rule]
    ensures SoundBut(s[i := t'], rules + [rule], i)
    ensures Descending(Without(s[i := t'], i), MaxPriority)
  {
    hide TreeOk;
    OneTook(s, i, t', rules, rule);
    StillDescending(s, i, t');
  }

  lemma SoundAdded(s: seq<TreeInfo>, rules: seq<Rule>, t: TreeInfo, rule: Rule)
    requires Sound(s, rules) && TreeOk(t) && t.rules == [rule]
    ensures SoundBut(s + [t], rules + [rule], |s|)
    ensures Descending(Without(s + [t], |s|), MaxPriority)
  {
    hide TreeOk;
    OneAdded(s, t, rules, rule);
    AppendedDescending(s, t);
  }

  lemma SoundResorted(s: seq<TreeInfo>, r: seq<TreeInfo>, rules: seq<Rule>, i: nat, at: nat)
    requires SoundBut(s, rules, i) && Repaired(s, r, i, at, MaxPriority)
    ensures Sound(r, rules)
  {
    hide TreeOk;
    Permuted(s, r, rules);
  }

  lemma SoundAnswer(s: seq<TreeInfo>, rules: seq<Rule>, i: nat, packet: Packet)
    requires Sound(s, rules) && i < |s| && ValidPacket(packet)
    ensures IsOrder(s[i].order) && AnswerOf(s[i], packet) == Answer(s[i].tree, s[i].order, packet)
    ensures Matched(s[i].rules, packet, AnswerOf(s[i], packet))
  {
    hide Serves, FilterMatches;
    assert s[i] in s && TreeOk(s[i]);
    AnswerOfRule(s[i].tree, s[i].order, Levels(s[i].usedDimCnt), s[i].rules, packet);
  }

  lemma SoundBest(s: seq<TreeInfo>, rules: seq<Rule>, i: nat, packet: Packet)
    requires Sound(s, rules) && i < |s| && ValidPacket(packet) && Monotone(rules)
    ensures BestMatch(s[i].rules, packet, AnswerOf(s[i], packet))
  {
    hide Monotone, BestMatch, Serves;
    assert s[i] in s && TreeOk(s[i]);
    forall r | r in s[i].rules
      ensures r in rules
    {
      assert InSome(s, r);
    }
    MonotonePart(rules, s[i].rules);
    TreeIsBest(s[i].tree, s[i].order, Levels(s[i].usedDimCnt), s[i].rules, packet);
  }

  lemma SoundNoneBetter(s: seq<TreeInfo>, rules: seq<Rule>, i: nat, packet: Packet, found: Value)
    requires Sound(s, rules) && i < |s| && ValidPacket(packet)
    requires BestAnswer(s[..i + 1], packet, found) && found.IsValid()
    requires i + 1 < |s| ==> s[i + 1].maxPriority <= found.priority
    ensures BestAnswer(s, packet, found)
  {
    NoneBetter(s, i, packet, found);
  }

  lemma SoundFound(s: seq<TreeInfo>, rules: seq<Rule>, packet: Packet, v: Value)
    requires Sound(s, rules) && ValidPacket(packet) && BestAnswer(s, packet, v)
    ensures Matched(rules, packet, v)
    ensures Monotone(rules) ==> BestMatch(rules, packet, v)
  {
    hide Sound, BestAnswer, Matched, Monotone, BestMatch;
    FoundMatches(s, rules, packet, v);
    if Monotone(rules) {
      FoundIsBest(s, rules, packet, v);
    }
  }

  lemma NothingYet(packet: Packet)
    ensures BestAnswer([], packet, NO_VALUE)
  {
  }
}
