# Layered B-tree packet classifier

A model of the packet classifier in `include/pcv/partition_sort` and of the helpers it stands
on, with proofs of what it promises.

A rule has a range for each field of a packet. The **layered tree** stores a rule as a path of
ranges, one level a field, in the tree's dimension order. A level is a B-tree of disjoint
ranges, or one key of a *compressed* node, which holds a run of levels with a single key each.
Nodes are mutated in place in an arena of indices, with parent pointers. The **partition sort
classifier** keeps an array of such trees, sorted by their greatest priority, and searches them
with early exit.

How the modules build on each other:

- `Nodes` has the node record and the arena; `BTrees` to `RootInsert` and `BTreeTrade` to
  `BTreeRemove` are the B-tree of one level, related to a ghost tree with its keys in order;
  `BTreeIterator` steps over these keys.
- `Layers` relates nodes to layers and gives each layer its meaning, a trie over ranges
  (`Tries`). `Decompress`, `RuleInsert`, `LayerSearch`, `LayerPaths`, `RuleDump`, `TreeDestroy`,
  `CollisionCheck` and `CollisionWalk` are the operations on layers, each proved against the
  trie. `LayeredTree` is the tree record; `RuleTrees` says what the trie means for rules and
  packets.
- `DimensionOrders`, `OrderExtension`, `LayerOrders`, `IntervalScheduling`, `ArrayResort`,
  `TreeAnswers`, `ClassifierTrees`, `InsertionSteps` and `PartitionSort` are the classifier, over
  tree objects that share one pool; `ListClassifier`, `ClassifierComparison` and `HeaderComparison` are the linear
  list and the comparison with it. `WrittenCheck` is about what the collision check as written
  lets in.
- `MemPool`, `Prefixes`, `Words`, `Ipv4Ranges`, `FieldSplit`, `RulePriority` and `SplitRules` are
  the allocator, the mask arithmetic and the path from IPv4 rules to 16-bit fields.

`hide` keeps definitions out of proofs that do not need them. Lemmas to which the verifier
would apply induction by itself switch that off: what a proof needs is in its body.

Where the code departs from what it is for, the model keeps the code, shows an input and says
when the code is right:

- `overlaps` misses a range that starts on the left and ends strictly inside
  (`CollisionCheck.MissesPartialOverlap`, exact condition in `CollisionCheck.ClashIsCollision`).
- `does_rule_colide` reads compressed nodes below the root at the wrong key
  (`CollisionWalk.ReadsNextKey`, `CollisionWalk.SomeVerdictIsWrong`) and lets colliding rules into
  a tree (`WrittenCheck.LetsCollisionIn`). It is right where a rule meets no such node
  (`CollisionWalk.WrittenIsRight`). `CollisionWalk.DoesRuleCollideRepaired` is a repaired form,
  right everywhere, and the one that the classifier of the model asks.
- A tree answers with the deepest rule, not with the one of greatest priority
  (`TreeAnswers.LowerAnswersFirst`). Its answer is a best one if and only if no packet finds a
  shallower rule of greater priority (`TreeAnswers.BestUnlessOutranked`,
  `TreeAnswers.AlwaysBestWhen`). None does when refining never lowers the priority
  (`TreeAnswers.TreeIsBest`), which the repository's use of the cumulative prefix length ensures
  (`SplitRules.PrefixPrioritiesAreMonotone`).
- A rule that is a wildcard in every field takes a level although none is put into use
  (`OrderExtension.WildcardRuleIsVisible`, exact conditions in `ClassifierTrees.FirstRuleFits` and
  `ClassifierTrees.BreaksUnlessItStays`).
- The schedule can exceed what any sequence of intervals is worth
  (`IntervalScheduling.Overestimates`); `IntervalScheduling.ChainAttains` has a condition under
  which it does not, which is not necessary (`IntervalScheduling.ExactAllTheSame`).
- Splitting a range of addresses into two of 16 bits changes what it matches unless it has one
  upper half or all lower halves (`FieldSplit.SplitIsExactWhen`).

## Model

| member | source | states |
|---|---|---|
| `LayeredTree.Tree.Insert` | include/pcv/partition_sort/b_tree_insert.h:76-126 | on every well-formed tree and every rule that fits into it, the tree stays well formed, stores exactly what it stored and the rule on its path, and owns the same nodes and freshly allocated ones only |
| `LayeredTree.Tree.Search` | include/pcv/partition_sort/b_tree_search.h:300-331 | a search through the nodes gives the answer of what the tree stores, for every packet |
| `LayeredTree.Tree.ToRules` | include/pcv/partition_sort/b_tree_to_rules.h:30-82 | the list holds each stored rule once, with its filter and value, and nothing else |
| `LayeredTree.Tree.Destroy` | include/pcv/partition_sort/b_tree.h:99-115 | exactly the slots that the tree owned are given back to the pool, all others keep their node |
| `LayeredTree.Tree.DoesRuleCollide` | include/pcv/partition_sort/b_tree_collision_check.h:69-150 | the verdict that the walk as written gives on any tree; right when the rule meets no compressed node below the root and its ranges nest in or avoid the keys |
| `LayeredTree.Tree.DoesRuleCollideRepaired` | include/pcv/partition_sort/b_tree_collision_check.h:69-150 | with the two places repaired that set where a node starts, the verdict is the exact one on every tree as long as ranges are nested or disjoint; with `overlaps` asked both ways as well, for every rule |
| `LayeredTree.Tree.Reorder` | include/pcv/partition_sort/partition_sort_classifier.h:222-237 | an order that is new behind the levels in use needs no change in any node: they hold the same tree in the new order |
| `LayeredTree.Untouched` | include/pcv/partition_sort/partition_sort_classifier.h:97-102 | trees share their pool: what an operation does to the nodes of one tree leaves every other tree as it is, and takes no node of it |
| `LayeredTree.LoadAndDump` | include/pcv/partition_sort/b_tree_to_rules.h:30-82 | inserting rules with different filters, each fitting the tree so far, and dumping the tree lists exactly those rules, across compressed and plain nodes |
| `RuleTrees.RulePathIs` | include/pcv/partition_sort/b_tree_insert.h:76-126 | a rule is stored on no more levels than it must: up to its last restricted field, or as far as its ranges are stored keys |
| `RuleTrees.RuleUpdate` | include/pcv/partition_sort/b_tree_search.h:305-331 | after an insertion every packet that matches the rule and no deeper rule gets its value, and every other packet the answer it got before |
| `RuleTrees.ScanAgrees` | include/pcv/partition_sort/b_tree_search.h:305-331 | the answer is the value of the deepest rule among all listed ones that match, and invalid exactly when none does |
| `RuleTrees.RoundTrip` | include/pcv/partition_sort/b_tree_to_rules.h:35-82 | a dump of the tree built from rules with different filters is those rules, each once |
| `RuleInsert.InsertRule` | include/pcv/partition_sort/b_tree_insert.h:87-126 | the layered insertion on nodes, from any level on: the layer then means what it meant with the rest of the rule put in, holds the node invariants, and no foreign slot changes |
| `RuleInsert.DecompressNode` | include/pcv/partition_sort/b_tree_insert.h:212-279 | splitting a compressed node at any index keeps what it means and its root, and leaves the key alone in a node of its own |
| `Decompress.SeparateFirst` | include/pcv/partition_sort/b_tree_insert.h:214-224 | moving all but the first key to a new node keeps the meaning, the node invariants and all foreign slots |
| `Decompress.SeparateInner` | include/pcv/partition_sort/b_tree_insert.h:225-279 | moving an inner key and the keys behind it to two new nodes keeps the meaning, the node invariants and all foreign slots |
| `Decompress.TakenMeaning` | include/pcv/partition_sort/b_tree_insert.h:212-279 | the levels spread over two or three nodes mean what the one compressed node meant |
| `ChainBuilder.InsertIntoNewNode` | include/pcv/partition_sort/b_tree_insert.h:322-381 | a rule that shares nothing is stored in a chain of compressed nodes that means that rule alone |
| `BTreeInsert.InsertNonFull` | include/pcv/partition_sort/b_tree_insert.h:132-188 | a B-tree that has room stays one, and its keys in order are the old ones with the new one at its sorted place, each with its value and next layer |
| `RootInsert.InsertToTree` | include/pcv/partition_sort/b_tree_insert.h:398-425 | the same for any B-tree, which gets a new root when the old one is full |
| `BTreeSplit.SplitChild` | include/pcv/partition_sort/b_tree_insert.h:432-479 | splitting a full child gives a well-formed tree of the same height over the same nodes and one new one |
| `BTreeSplit.SplitFlat` | include/pcv/partition_sort/b_tree_insert.h:432-479 | and the same keys in the same order |
| `BTreeRemove.Remove1D` | include/pcv/partition_sort/b_tree_remove.h:63-84 | for every well-formed B-tree, removal of a stored key gives a well-formed B-tree whose keys in order are the old ones without exactly that key, releasing exactly the nodes that fall away; of an absent one, the keys as they were |
| `BTreeRemove.Remove` | include/pcv/partition_sort/b_tree_remove.h:89-131 | the same for a subtree: sorted, filled at least half off the root, of uniform depth, with right parent pointers |
| `BTreeRemove.Fill` | include/pcv/partition_sort/b_tree_remove.h:285-311 | a child short of keys gets one from a neighbour or is merged with it, with no key lost or moved out of order |
| `BTreeFill.BorrowFromNext` | include/pcv/partition_sort/b_tree_remove.h:226-257 | a key and a subtree go from the right neighbour through the parent, the keys in order stay the same |
| `BTreeFill.BorrowFromPrev` | include/pcv/partition_sort/b_tree_remove.h:190-224 | the same from the left neighbour |
| `BTreeFill.Merge` | include/pcv/partition_sort/b_tree_remove.h:260-283 | two neighbours and the key between them become one node, the other node is released |
| `LevelRemove.RemoveKey` | include/pcv/partition_sort/b_tree_remove.h:63-84 | on a level of the tree, the removal of a key without next layer takes its path out of what is stored and leaves all others |
| `LevelRemove.DelGet` | include/pcv/partition_sort/b_tree_remove.h:63-84 | taking a key out of a level removes every path that starts with it and no other |
| `BTreeSearch.SearchSeq` | include/pcv/partition_sort/b_tree_search.h:46-87 | the scan of a node stops at the key that the value hits, or at the first one behind it |
| `BTreeSearch.SearchInTree` | include/pcv/partition_sort/b_tree_search.h:195-216 | the descent finds the one key of the level that the value or the range hits, or none when there is none |
| `LayerSearch.Search` | include/pcv/partition_sort/b_tree_search.h:305-331 | the walk over levels, B-trees and compressed nodes gives the last value on the one path that matches |
| `LayerSearch.SearchRestOfPath` | include/pcv/partition_sort/b_tree_search.h:265-295 | the walk inside a compressed node takes the values of the matching keys and leaves the node only behind the last one |
| `LayerPaths.SearchPath` | include/pcv/partition_sort/b_tree_search.h:340-415 | the collected keys are the longest run of stored keys that equal the rule's ranges, level by level |
| `Tries.InsertGet` | include/pcv/partition_sort/b_tree_insert.h:87-126 | what an insertion means, free of nodes: it writes the value at its path and at no other |
| `Tries.LookupDeepest` | include/pcv/partition_sort/b_tree_search.h:305-331 | what a search means, free of nodes: the value at the longest stored path that matches |
| `Tries.InsertRules` | include/pcv/partition_sort/b_tree_insert.h:87-126 | an insertion at a path without value adds exactly one rule to the bag of stored ones |
| `RuleSpecs.TotalLevelsRequired` | include/pcv/partition_sort/b_tree_insert.h:34-47 | the levels that a rule needs end at its last restricted field, and are one at least |
| `BTreeIterator.AllKeys` | include/pcv/partition_sort/b_tree_key_iterator.h:27-84 | stepping on from the leftmost key visits the keys of the level in order, each once, and then ends |
| `BTreeIterator.GetSuccGlobal` | include/pcv/partition_sort/b_tree_key_iterator.h:58-84 | the step on, down or up over parent pointers, ends at the next key in order |
| `BTreeIterator.GetPredGlobal` | include/pcv/partition_sort/b_tree_key_iterator.h:86-122 | the step back ends at the previous key in order |
| `BTreeIterator.StepAndBack` | include/pcv/partition_sort/b_tree_key_iterator.h:58-122 | a step on and a step back end where they began |
| `TreeDestroy.ReachedOnce` | include/pcv/partition_sort/b_tree.h:99-112 | a walk over children and next layers meets every node of a layer exactly once: nothing is shared |
| `CollisionCheck.ClosestLowerOrEqual` | include/pcv/partition_sort/b_tree_collision_check.h:26-61 | the search ends at the key that holds the value, else at the last key before the leaf that it reaches, which ends before the value, or nowhere for the leftmost leaf |
| `CollisionCheck.AnyOverlap` | include/pcv/partition_sort/b_tree_collision_check.h:106-131 | scanning from that key on finds an overlapped key exactly when the level has one |
| `CollisionCheck.ClashIsCollision` | include/pcv/common/range.h:76-79 | the intended verdict is the exact one if and only if the rule does not run into a key from the left; it never is for nested or disjoint ranges |
| `CollisionCheck.MissesPartialOverlap` | include/pcv/common/range.h:76-79 | an input where it is not: 2..4 is stored and the rule has 1..3 |
| `CollisionCheck.BothWaysExact` | include/pcv/common/range.h:76-79 | asked in both directions, `overlaps` gives the exact verdict on every rule |
| `CollisionWalk.DoesRuleCollide` | include/pcv/partition_sort/b_tree_collision_check.h:69-150 | the walk computes the verdict as written on every tree, and the intended one where only the root is compressed on the rule's way |
| `CollisionWalk.WrittenIsRight` | include/pcv/partition_sort/b_tree_collision_check.h:81-150 | on the way through plain levels below the first one, the verdict as written is the intended one |
| `CollisionWalk.ReadsNextKey` | include/pcv/partition_sort/b_tree_collision_check.h:81-94 | below any number of plain levels a compressed node is read one key too far: for every rule that gets there, what the verdict is and what it should be |
| `CollisionWalk.ReadsFarKey` | include/pcv/partition_sort/b_tree_collision_check.h:81-94 | below a compressed root it is read too far by as many keys as the root has: past the array there is no verdict, and past the keys in use it is that of a stale key |
| `CollisionWalk.SomeVerdictIsWrong` | include/pcv/partition_sort/b_tree_collision_check.h:81-94 | where the first two keys of a compressed node below plain levels differ, the verdict on some rule is wrong |
| `CollisionWalk.MissesCollision` | include/pcv/partition_sort/b_tree_collision_check.h:139-143 | a tree and a rule that collides with it and is not seen to |
| `CollisionWalk.DoesRuleCollideRepaired` | include/pcv/partition_sort/b_tree_collision_check.h:69-150 | the repaired walk gives the intended verdict on every tree, and the exact one if `overlaps` is asked both ways |
| `WrittenCheck.LetsCollisionIn` | include/pcv/partition_sort/partition_sort_classifier.h:213-239 | two rules inserted into an empty tree, nodes that hold this tree, and a third rule that collides with it and is let in |
| `WrittenCheck.InsertKeepsWFExactly` | include/pcv/partition_sort/b_tree_insert.h:87-126 | an insertion keeps the ranges of every level disjoint if and only if the path fits |
| `Ranges.OverlapsExactly` | include/pcv/common/range.h:76-79 | `overlaps` is intersection for all pairs but those where the other range starts on the left and ends strictly inside |
| `ArrayResort.Resort` | include/pcv/common/array_resorter.h:21-74 | one changed item goes to its place in a descending array, all others keep their order |
| `IntervalScheduling.FindMaxWeight` | include/pcv/partition_sort/weighted_interval_scheduling_solver.h:57-81 | for all intervals the result is the greatest worth of a loose chain, in which the program may go on from before a compatible interval; it bounds the weight of every chain of compatible intervals, a chain attains it when repeated intervals fit, and it is the size of the longest chain when nothing is repeated |
| `IntervalScheduling.ChainIsLoose` | include/pcv/partition_sort/weighted_interval_scheduling_solver.h:46-53 | every chain of compatible intervals is a loose one and is worth one for each interval and one more for each that repeats the interval before it |
| `IntervalScheduling.OneMoreCopy` | include/pcv/partition_sort/weighted_interval_scheduling_solver.h:64-80 | one more copy of the last interval raises the result by two |
| `IntervalScheduling.OneBehindAll` | include/pcv/partition_sort/weighted_interval_scheduling_solver.h:64-80 | a different interval that starts at or behind every end raises it by one |
| `IntervalScheduling.OneAcrossAll` | include/pcv/partition_sort/weighted_interval_scheduling_solver.h:64-80 | a different interval that starts before every end leaves it as it is |
| `IntervalScheduling.CopiesProfit` | include/pcv/partition_sort/weighted_interval_scheduling_solver.h:64-80 | n copies of one interval have the result 2n - 1 |
| `IntervalScheduling.ChainBound` | include/pcv/partition_sort/weighted_interval_scheduling_solver.h:66-80 | no chain that ends at an interval is worth more than the table's entry for it |
| `IntervalScheduling.ChainAttains` | include/pcv/partition_sort/weighted_interval_scheduling_solver.h:66-80 | when everything before a repeated interval is compatible with it, some chain is worth the table's entry |
| `IntervalScheduling.Overestimates` | include/pcv/partition_sort/weighted_interval_scheduling_solver.h:46-53 | an input with a repeated interval for which no chain is worth the result |
| `IntervalScheduling.ExactAllTheSame` | include/pcv/partition_sort/weighted_interval_scheduling_solver.h:46-53 | an input with a repeated interval that does not fit and a chain that is worth the result all the same |
| `DimensionOrders.Resolve` | include/pcv/partition_sort/dimension_order_resolver.h:47-120 | the result is a permutation whose first entries are exactly the restricted fields by descending score, ties and the rest as in the original order; each score is the schedule's result for that field |
| `InsertionSteps.ResolvedOnce` | include/pcv/partition_sort/dimension_order_resolver.h:47-120 | the scores of the restricted fields determine the order and the number of fields in use |
| `DimensionOrders.LevelsNeeded` | include/pcv/partition_sort/b_tree_insert.h:34-47 | every rule the order was resolved for needs no more levels than it puts into use, and one at least |
| `OrderExtension.ExtendOrder` | include/pcv/partition_sort/partition_sort_classifier.h:222-240 | the used prefix stays; behind it come exactly the other fields that the rule restricts, in the order they were in, and each field that had to make room is where the swaps leave it |
| `OrderExtension.PlacesKept` | include/pcv/partition_sort/partition_sort_classifier.h:222-240 | a place behind those in use whose field the rule does not restrict keeps its field |
| `OrderExtension.ExtendedOnce` | include/pcv/partition_sort/partition_sort_classifier.h:222-240 | this determines the new order and the number of fields in use |
| `OrderExtension.ExtensionInvisible` | include/pcv/partition_sort/partition_sort_classifier.h:222-240 | when no stored path is longer than the levels in use, the swaps change no answer for any packet |
| `OrderExtension.VerdictKept` | include/pcv/partition_sort/partition_sort_classifier.h:222-240 | nor whether the rule fits into the tree |
| `OrderExtension.WildcardRuleIsVisible` | include/pcv/partition_sort/partition_sort_classifier.h:222-240 | with a rule that is a wildcard in every field stored before, they do |
| `ClassifierTrees.FirstRuleFits` | include/pcv/partition_sort/partition_sort_classifier.h:285-300 | the first rule of a tree fits into the levels in use if and only if it restricts some field |
| `ClassifierTrees.BreaksUnlessItStays` | include/pcv/partition_sort/partition_sort_classifier.h:220-239 | after the swaps a rule that fitted still fits, as the program asserts there, if and only if some field was in use, or the rule restricts none |
| `TreeAnswers.BestUnlessOutranked` | include/pcv/partition_sort/partition_sort_classifier.h:337-358 | the answer of a tree is one of greatest priority among its matching rules if and only if no shallower rule that matches as well has a greater priority than the deepest one |
| `TreeAnswers.AlwaysBestWhen` | include/pcv/partition_sort/partition_sort_classifier.h:337-358 | it is so for every packet if and only if no packet finds such a pair of rules |
| `TreeAnswers.TreeIsBest` | include/pcv/partition_sort/partition_sort_classifier.h:337-358 | a refining rule that never has a lower priority excludes such pairs |
| `TreeAnswers.LowerAnswersFirst` | include/pcv/partition_sort/partition_sort_classifier.h:337-358 | two rules inserted into an empty tree, and a packet that matches both and gets the lower priority |
| `PartitionSort.PartitionSortClassifier.Insert` | include/pcv/partition_sort/partition_sort_classifier.h:253-319 | after every run of insertions the trees on their nodes are well formed and share none, are sorted by their greatest priority, which is that of their rules, count the masks of their rules, and hold exactly the inserted rules; the first tree that the rule fits into takes it, those with rules of its mask being asked first; only when it collides in every tree in use is a new one started, and only when every tree is in use does the insertion fail |
| `InsertionSteps.StepOnce` | include/pcv/partition_sort/partition_sort_classifier.h:253-319 | the trees in use and the rule determine the trees after an insertion, with their contents, orders and places |
| `PartitionSort.PartitionSortClassifier.TryInsert` | include/pcv/partition_sort/partition_sort_classifier.h:208-248 | tree i takes the rule exactly if it does not collide there: its rules, masks and contents grow by the rule, its order and fields in use are extended, it moves to its place if its greatest priority rises, and all other trees keep theirs |
| `PartitionSort.PartitionSortClassifier.NewTree` | include/pcv/partition_sort/partition_sort_classifier.h:285-308 | a new tree holds the rule alone, in the order resolved for it and with the fields in use that it restricts, and is put into its place; all other trees keep theirs |
| `PartitionSort.PartitionSortClassifier.Search` | include/pcv/partition_sort/partition_sort_classifier.h:337-358 | the search that stops early gives the best of the answers of all trees, of equal ones that of the first tree: it finds a rule exactly if some inserted rule matches, and one of greatest priority when refining never lowers the priority |
| `ClassifierTrees.BestAnswerOnce` | include/pcv/partition_sort/partition_sort_classifier.h:337-358 | the trees and the packet determine that answer |
| `ListClassifier.ListBasedClassifier.Search` | benchmarks/list/list_classifier.h:56-72 | the linear scan of the prepared list finds the first rule that matches, which is a best match, and refuses an unprepared list |
| `ClassifierComparison.CompareWithList` | tests/verif_pcv_list_test.cpp:140-200 | loaded with the same rules, both classifiers find a match for the same packets, the list one that is at least as good, and with the same priority when refining never lowers it; the answers are those of the trees that the insertions leave one after the other, and loading fails only at a rule that every tree refuses with no tree left, never with a tree for every rule |
| `ClassifierComparison.LoadedOnce` | tests/verif_pcv_list_test.cpp:130-150 | the rules, in the order they are inserted, determine the trees |
| `HeaderComparison.CompareHeaders` | tests/verif_pcv_list_test.cpp:130-205 | for rules on header fields, split and given the cumulative prefix length as the program does, both find, for every header packet, a matching rule that fixes the most bits, and none exactly if none matches |
| `HeaderComparison.SameHeader` | tests/verif_pcv_list_test.cpp:193-194 | they find the same rule where no two matching rules fix equally many bits |
| `MemPool.DynamicMempool.Get` | include/pcv/partition_sort/mempool_dynamic.h:88-114 | hands out a slot that is not in use, out of a list without cycle that holds exactly the slots not in use |
| `MemPool.DynamicMempool.Release` | include/pcv/partition_sort/mempool_dynamic.h:119-142 | takes a slot in use back, and detects every second release of a slot that was handed out once |
| `MemPool.DynamicMempool.Size` | include/pcv/partition_sort/mempool_dynamic.h:69-84 | the walk over the list gives the number of slots in use |
| `MemPool.LinkTells` | include/pcv/partition_sort/mempool_dynamic.h:129-132 | a free slot shows by its link if and only if it is not the last one |
| `Prefixes.GetMaskLe` | include/pcv/common/range.h:90-109 | at every width, the length of the longest common prefix of both ends and the mask of that length |
| `Prefixes.MaskRecovered` | include/pcv/common/range.h:50-52 | a range made from a prefix mask gives the mask back if and only if the first bit behind the mask is clear |
| `RulePriority.MaskOfNumber` | include/pcv/common/range.h:90-109 | at 32 bits the bytes of the mask are those of the number with that many leading ones |
| `RulePriority.CummulativePrefixLen` | src/rule_parser/rule.cpp:15-18 | the sum of the leading bits that both ends of each of the five fields share |
| `RulePriority.AddressCounts` | src/rule_parser/rule.cpp:15-18 | rules that differ in one address differ in that sum by the bits that it fixes |
| `RulePriority.FieldCounts` | src/rule_parser/rule.cpp:15-18 | and so do rules that differ in a port or in the protocol |
| `RulePriority.PrefixesAndValues` | src/rule_parser/rule.cpp:15-18 | a rule for two prefixes and single ports and protocol has the bits of the prefixes and 48 more |
| `SplitRules.EverythingFixesNone` | src/rule_parser/rule.cpp:15-18 | the rule that matches every packet has none |
| `RulePriority.RefiningKeepsPriority` | src/rule_parser/rule.cpp:15-18 | a rule whose fields lie within those of another one fixes at least as many leading bits |
| `SplitRules.PrefixPrioritiesAreMonotone` | tests/verif_pcv_list_test.cpp:140-150 | rules with that number as their priority meet what the classifier asks: refining never lowers the priority |
| `SplitRules.FilterIsExact` | src/rule_parser/rule.cpp:118-127 | as field values, the seven ranges match a packet exactly if the rule on header fields does |
| `SplitRules.WildIsEverything` | src/rule_parser/rule.cpp:118-127 | the only rule that restricts no field is the one that matches every packet |
| `SplitRules.PrefixFieldsNest` | include/pcv/common/range.h:76-79 | the 16-bit fields of two address prefixes are nested or disjoint, one by one |
| `Words.PrefixRangeHolds` | src/rule_parser/classbench_rule_parser.cpp:238-278 | a prefix range holds exactly the addresses that share the prefix (section 3.1 of RFC 4632) |
| `Words.PrefixRangesNest` | include/pcv/common/range.h:76-79 | of two prefix ranges the longer lies within the shorter if it extends it, and is disjoint from it if not |
| `Ipv4Ranges.ParseIPRange` | src/rule_parser/classbench_rule_parser.cpp:223-279 | for all octets and lengths up to 32, the range of exactly the addresses that share the prefix |
| `Ipv4Ranges.PrintIPv4` | src/rule_parser/classbench_rule_parser.cpp:22-39 | the octets of the low end, and the length down to which the ends differ bit by bit |
| `Ipv4Ranges.PrintThenParse` | src/rule_parser/classbench_rule_parser.cpp:22-39 | printing and reading back gives the same range if and only if it is a prefix range |
| `Ipv4Ranges.ParseThenPrint` | src/rule_parser/classbench_rule_parser.cpp:223-279 | reading and printing gives the same length, and the same octets exactly if they were aligned |
| `FieldSplit.RuleToArray16b` | src/rule_parser/rule.cpp:118-127 | the seven ranges, low half first, match a packet's fields exactly if the rule matches the packet, for every rule whose addresses are splittable |
| `FieldSplit.SplitIsExactWhen` | src/rule_parser/rule.cpp:52-61 | for rules with ordered ranges that holds of all packets if and only if each address range has one upper half or all lower halves |
| `FieldSplit.PrefixIsSplittable` | src/rule_parser/rule.cpp:52-61 | every prefix range does |
| `FieldSplit.SplitAndJoin` | src/rule_parser/rule.cpp:106-127 | rule_from_array after rule_to_array_16b is the identity on all rules |

## Left out

- `BTreeRemove::remove` of a rule over several levels, `PartitionSortClassifer::remove` and `update_dimension_order`: as written they lose rules or use erased state. TREE_FIXATION_THRESHOLD is taken to be 1, so that insertions never rebuild a tree, and `rule_to_tree` is not modelled.
- PATH_COMPRESSION = false: a new node then stores the rule's value on an intermediate key; the default, true, is modelled. The per-key dimensions of a debug build are kept for compressed nodes only.
- BTreeRemove.Remove1D: for an absent key the program throws in mid-descent; the model returns instead, and promises the same keys but not that a root emptied by a merge is replaced.
- LayeredTree.Tree.Insert: requires that the rule fits, which the program's callers establish by the collision check; it says nothing about a rule that overlaps a key.
- LayeredTree.Tree.DoesRuleCollide: reading past the array of keys is undefined in the program; the model gives no verdict there. Behind the first compressed node that is read too far, the verdict is not characterised beyond the function that the walk computes.
- CollisionWalk.WrittenIsRight: one direction for a single rule, because a wrong key may give the right verdict by coincidence; CollisionWalk.SomeVerdictIsWrong is the other one over all rules, for nodes below plain levels.
- WrittenCheck.LetsCollisionIn: the nodes hold the tree that the two insertions make, but that the program's insertions leave exactly these nodes is not stated; the contract of an insertion gives the contents, not the shape.
- Tries.InsertGet: speaks of what is stored, free of nodes; the nodes are in LayeredTree.Tree.Insert.
- Tries.LookupDeepest: free of nodes; the walk over nodes is in LayerSearch.Search.
- Tries.InsertRules: free of nodes; the change of nodes is in LayeredTree.Tree.Insert.
- Decompress.TakenMeaning: speaks of the pieces and not of nodes; that memory holds them is in Decompress.SeparateFirst and Decompress.SeparateInner.
- PartitionSort.PartitionSortClassifier.Insert: asks the repaired collision check instead of the one as written, and requires that the rule stays in every tree it fits into; where it does not, the program's own assertion fails (ClassifierTrees.BreaksUnlessItStays).
- ClassifierComparison.CompareWithList: requires that rules which restrict no field come last, which meets that condition; loads and searches the two classifiers one after the other, not rule by rule.
- HeaderComparison.CompareHeaders: requires rules whose addresses can be split, as all prefixes can, and numbers them by their place in the rule set.
- IntervalScheduling.FindMaxWeight: no condition short of the result itself is given that is both necessary and sufficient for a chain of compatible intervals to be worth it; the width of `int` in the table is not modelled.
- Nodes are values in a map from indices, with arrays of fixed length, not separate objects; the pool of the tree never runs out, and its free list is proved apart from it, in `MemPool`. `getById` and `getId` are index arithmetic.
- MemPool.DynamicMempool.Get: requires three free slots, as the program asserts; running out of slots, where it throws, is not modelled, nor the early return of `size` for an empty list, which these asserts exclude.
- The insertion state is passed by value and its level advanced in copies. The calls of insert_to_root that get a null root at that place are insertions into a new node, and two branches of the decompression that no caller reaches are not there.
- Widths of keys and values: KEY_MAX, T, D and the mask of a rule value are constants without a value. Packets are sequences of fields, not bytes at offsets, and AVX2 search is unfinished in the program.
- `std::sort` is some sorted permutation.
- Ipv4Ranges.ParseIPRange: works on octets and length; splitting the text, file reading and the other rule formats are string handling.
- `_get_mask_be` and the swaps of byte order mirror what is modelled; 8-bit, 24-bit, 64-bit and IPv6 fields would add easy members only.
- Spin locks, threads, printers, timers, benchmarks, mempool.h and mempool_mock.h, and the DPDK and OvS glue.
