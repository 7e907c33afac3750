# VISL CG-3 in Dafny: the fast paths against their plain meaning

CG-3 compiles tag sets and rules and then rewrites windows of cohorts (words), each with several readings
(analyses). Most of its code is an acceleration of something simple: sets are tries matched by a merge-join
behind two caches and a bit filter, rules run from a pruned index behind a negative cache, windows are packed
and unpacked in place, the dependency tree is guarded by a bounded walk, and grammars are written as a graph
in an order that lets the reader bind references late. This project models these parts and proves that they
agree with the simple thing, or says exactly when they do.

One module per part:

- `IntervalVectors`, `FlatHashSets`, `BloomFilters`: the containers everything else stands on.
- `TagTries`, `SetOperators`, `SetMatching`, `SetFlags`, `SetRewrites`: tag sets. `SetMatching.Match` is the
  meaning of a set; the matcher with its yes and no caches computes it, and `addSet` keeps it.
- `PossibleSets`: the bits that say which sets are worth trying on a cohort.
- `RuleKeys`, `RuleSteps`, `PlainRules`, `RuleRunner`, `SectionLoop`: SELECT, REMOVE and IFF. `PlainRules.Naive` is
  every rule on every cohort; the runner with its index, bits and cache computes it, or differs exactly where a
  carried kind makes it miss a lone reading.
- `RuleSets`: the rules over the sets of a grammar, from the tags of the readings to the end of the sections.
- `Enclosures`, `Delimiting`: packing parenthesised cohorts, and splitting windows.
- `DependencyForest`, `Descendants`: attaching, taking a cohort out of the tree, and the descendant closure.
- `BinaryWords`, `ContextGraphs`, `ContextFiles`, `RuleRecords`, `TrieCodec`: the binary grammar format.

What the model takes as given: tags are identified with their hashes; two readings with the same hash have the
same plain tags; what a special tag matches is an arbitrary function of an environment that may change between
calls; a rule's contextual tests are an arbitrary predicate of rule, window and cohort. Numbers are unbounded
except where 32-bit arithmetic matters (interval lists, hash keys, packed fields), where it is written out.

Where the code does less than its callers might expect, the code is modelled as it is, with a concrete case and the
condition under which it does what they expect:

- `interval_vector::lower_bound` is the least element not below `t` if and only if `t` is in the set or above all of
  it; in {1, 5} the lower bound of 3 is the end (`IntervalVectors.LowerBoundSkips`).
- A hash table that has seen `erase` can have no empty slot while its load test is content (`FlatHashSets.Saturate`); a
  probe stops if and only if an empty slot is left or the key is there, and a run of operations comes to its end if
  and only if no step probes for another key in a full table (`FlatHashSets.Run`).
- Flattening a set of alternatives can lose readings, through alternatives that are one failfast tag and through LISTs
  with something below a terminal node. `SetRewrites.FlattenedMeans` says reading by reading what matches before and
  after; the two `ChangesMeaning` lemmas show a case of each.
- Splitting off failfast tags keeps the meaning for a reading if and only if the tags without their marks rule it out
  exactly when they do with them, which plain ones always do (`SetRewrites.SplitMeans`, `PlainTagsSplit`,
  `SplittingSpecialChangesMeaning`).
- With `-` between sets, deleting a tag can leave a cohort with a clear bit for a set that matches
  (`PossibleSets.DeletionUncovers`). The bit of a set survives every deletion if and only if the set is special or
  never stops matching when a reading gets more tags; for the latter, having only OR and `+` is sufficient.
- Whether an unsafe IFF rule looks at a cohort's last reading depends on what it did on the cohort before
  (`RuleRunner.MissLoneReading`). A run of the rule is the plain one if and only if it misses no such reading; and it
  is so whatever the tests say if and only if, among the cohorts the rule gets through to, there are no two with a hit
  in the first, a lone hit in the second, and between them only cohorts with a hit or at most one reading
  (`PlainRules.TrapDecides`).
- Keys of rules and cohorts tell pairs apart if and only if the pair's residue is none of three that the hash avoids
  (`RuleKeys.KeysIdentify`, `ReservedKeysCollide`), and only for cohort numbers at most 65472 apart.
- The section loop gives up at 1000 passes, of which three can go to sections that are not run: 997 surplus readings
  are sure to be settled, and 998 need not be (`SectionLoop.RunSections`, `TooManyPasses`).
- The loop check sees ancestors up to 1001 steps away, so it is exact up to 1002 cohorts, and not at 1003; over a run
  of attaches the tree stays a forest if and only if no arc slips through (`DependencyForest.RunKeepsForestIff`).
- Packing and unpacking restore a window if and only if there are at most 1000 groups; a begin marker and 1001 cohorts
  with both parentheses make one too many (`Enclosures.RunRow`).
- A window that has been passed is delimited the wrong way round.

## Model

| member | source | states |
|---|---|---|
| IntervalVectors.CountIsCardinality | src/interval_vector.hpp:298-300 | the length kept for a canonical list is the number of elements of the set it stands for |
| IntervalVectors.CanonicalFormIsUnique | src/interval_vector.hpp:173-198 | sorted, disjoint, non-adjacent lists of the same set are the same list |
| IntervalVectors.InsertAbsent | src/interval_vector.hpp:173-198 | growing, joining or adding an interval keeps the list canonical and adds exactly t |
| IntervalVectors.ErasePresent | src/interval_vector.hpp:211-243 | shrinking, splitting or dropping an interval keeps the list canonical and removes exactly t |
| IntervalVectors.IntervalVector.Insert | src/interval_vector.hpp:173-198 | set insertion on any 32-bit value, size and result included |
| IntervalVectors.IntervalVector.Erase | src/interval_vector.hpp:211-243 | set deletion on any 32-bit value, size and result included |
| IntervalVectors.IntervalVector.Contains | src/interval_vector.hpp:271-280 | membership |
| IntervalVectors.IntervalVector.Find | src/interval_vector.hpp:245-254 | a cursor on t if it is in the set, else the end |
| IntervalVectors.IntervalVector.LowerBound | src/interval_vector.hpp:256-269 | the cursor on t, on the first element of the interval after the next when t lies in a gap, or the end; it is the least element not below t if and only if t is in the set or above every element |
| IntervalVectors.LowerBoundSkips | src/interval_vector.hpp:256-269 | in {1, 5} the lower bound of 3 is the end and not 5 |
| IntervalVectors.NextIsSuccessor | src/interval_vector.hpp:104-122 | stepping a cursor goes to the next larger element of the set, or to the end |
| IntervalVectors.NextIsValid | src/interval_vector.hpp:104-139 | stepping back undoes stepping forward |
| IntervalVectors.IntervalVector.Enumerate | src/interval_vector.hpp:104-122 | iteration lists exactly the elements, ascending |
| IntervalVectors.IntersectLists | src/interval_vector.hpp:311-343 | the two-cursor loop yields the canonical list of the intersection, its length counted in 32 bits |
| IntervalVectors.IntervalVector.Intersect | src/interval_vector.hpp:311-343 | set intersection; the size is right if and only if the result is not the full 32-bit range |
| FlatHashSets.MaskIsModulo | src/flat_unordered_set.hpp:125-140 | masking with capacity - 1 is reduction modulo a power-of-two capacity |
| FlatHashSets.HashBytes | src/flat_unordered_set.hpp:287-289 | the lowest byte of the hash is the second one of the key, the other three are the lowest three of the key |
| FlatHashSets.ProbeCoversTable | src/flat_unordered_set.hpp:125-140 | probing by 5 reaches every slot of a power-of-two table within one round |
| FlatHashSets.ProbeVisitsOnce | src/flat_unordered_set.hpp:125-140 | and no slot twice |
| FlatHashSets.WalkStopsIff | src/flat_unordered_set.hpp:125-140 | an unbounded probe for t stops if and only if an empty slot is left or t is in the table |
| FlatHashSets.FlatUnorderedSet.Insert | src/flat_unordered_set.hpp:125-140 | set insertion, with the slot written, the growth and the load bound it keeps |
| FlatHashSets.FlatUnorderedSet.Erase | src/flat_unordered_set.hpp:158-173 | set deletion; the slot becomes a deleted one and other keys are still found |
| FlatHashSets.FlatUnorderedSet.Find | src/flat_unordered_set.hpp:182-200 | membership, with the slot that holds the key |
| FlatHashSets.FlatUnorderedSet.Reserve | src/flat_unordered_set.hpp:230-255 | the same set in a table of the asked size, refilled in slot order; erased slots are dropped only if the table was not empty |
| FlatHashSets.SlotOrder | src/flat_unordered_set.hpp:236-242 | the keys are taken from the old table in the order of their slots |
| FlatHashSets.FirstComeFirstServed | src/flat_unordered_set.hpp:244-254 | of two keys with one home slot the first gets it and the second the slot five further |
| FlatHashSets.FlatUnorderedSet.Clear | src/flat_unordered_set.hpp:272-277 | the empty set, every slot empty |
| FlatHashSets.FlatUnorderedSet.SizeIsCardinality | src/flat_unordered_set.hpp:222-224 | size is the number of keys held |
| FlatHashSets.RoomWithoutErase | src/flat_unordered_set.hpp:125-140 | without erased slots the load bound leaves room, so the next insert always stops |
| FlatHashSets.Run | src/flat_unordered_set.hpp:125-140 | any run of insert, erase and clear comes to its end if and only if no step probes for ever, which no step does without erase; as far as it gets the table is the set that is meant |
| FlatHashSets.Step | src/flat_unordered_set.hpp:125-173 | one operation; it is stuck if and only if it probes and neither an empty slot nor the key is ever met |
| FlatHashSets.Saturate | src/flat_unordered_set.hpp:158-173 | sixteen inserts and erases leave an empty set in which no insert of any key stops |
| BloomFilters.EnteredPasses | src/bloomish.hpp:44-72 | what is entered passes the filter from then on |
| BloomFilters.PassesIff | src/bloomish.hpp:44-72 | a hash passes if and only if all its bits occur among the entered hashes that have the same one of the three lowest bits as their highest |
| BloomFilters.TagStore.HasTag | src/GrammarApplicator_matchSet.cpp:231-244 | searching only what passes the filter finds exactly the tags that are there, though deletion leaves the filter alone |
| TagTries.InsertMatches | src/TagTrie.hpp:51-69 | inserting a tag list adds exactly the readings that have all its tags |
| TagTries.InsertSorted | src/TagTrie.hpp:51-69 | levels stay sorted by tag |
| TagTries.InsertReportsNew | src/TagTrie.hpp:51-69 | false is returned, and nothing changed, if and only if a stored list is a prefix of the new one |
| TagTries.BuiltTrieMatches | src/TagTrie.hpp:51-69 | a trie built by any sequence of insertions matches if and only if some inserted list has all its tags in the reading, whatever the orders |
| TagTries.SingularMatches | src/TagTrie.hpp:103-115 | a singular trie matches what its one tag list matches |
| TagTries.TagListIsPath | src/TagTrie.hpp:183-192 | the tag list taken from a singular trie is that list if and only if no terminal node has anything below it |
| TagTries.MergeJoin | src/GrammarApplicator_matchSet.cpp:574-604 | the two-cursor join of sorted tags and sorted trie level terminates and decides the match |
| SetOperators.AlternativesHold | src/GrammarApplicator_matchSet.cpp:686-735 | operands joined by OR hold if and only if one does |
| SetOperators.ConjunctionHolds | src/GrammarApplicator_matchSet.cpp:693-698 | operands joined by + hold if and only if all do |
| SetOperators.FailfastReachesFurther | src/GrammarApplicator_matchSet.cpp:699-712 | in A OR B ^ C OR D a match of C also rules out D, in A OR B - C OR D it does not |
| SetOperators.CombineIs | src/GrammarApplicator_matchSet.cpp:686-735 | operands combine to true if and only if some group decides: an operand speaks for it, none after that in the group objects, and no operand in an earlier group has failed fast |
| SetOperators.CombineWithoutNot | src/GrammarApplicator_matchSet.cpp:686-735 | as sets can be written, the first operand of the group holds, those after + hold, those after - and ^ do not, and no earlier ^ has matched, whatever came after it |
| SetOperators.NeedsOperand | src/GrammarApplicator_matchSet.cpp:686-735 | without NOT a combination only holds if one of its operands does |
| SetOperators.Monotone | src/GrammarApplicator_matchSet.cpp:686-735 | with OR and + only, more operands holding never makes it fail |
| SetMatching.PlainSetsIgnoreEnv | src/GrammarApplicator_matchSet.cpp:838 | a set without the special flag gives the same answer in every environment and on equal plain tags |
| SetMatching.ListMeans | src/GrammarApplicator_matchSet.cpp:561-611 | a LIST made from tag lists matches if and only if no failfast tag names a plain tag of the reading and the reading has all tags of some list |
| SetMatching.SetMeans | src/GrammarApplicator_matchSet.cpp:686-735 | a SET matches if and only if some group of its operands decides for it |
| SetMatching.Applicator.DoesSetMatchReadingTags | src/GrammarApplicator_matchSet.cpp:561-611 | a LIST matches if no failfast tag does and some stored tag list does |
| SetMatching.Applicator.ApplyOperator | src/GrammarApplicator_matchSet.cpp:693-722 | one operator, skipping the operand when it makes no difference, has the operator's effect |
| SetMatching.Applicator.CombineGroup | src/GrammarApplicator_matchSet.cpp:688-724 | the inner loop folds the operands up to the next OR from left to right |
| SetMatching.Applicator.CombineSets | src/GrammarApplicator_matchSet.cpp:686-735 | the operator loop decides the combination of the operands' meanings |
| SetMatching.Applicator.Record | src/GrammarApplicator_matchSet.cpp:764-772 | a recorded answer holds for every reading with that hash in every environment |
| SetMatching.Applicator.DoesSetMatchReading | src/GrammarApplicator_matchSet.cpp:624-775 | with special sets bypassing the caches, the answer is the set's meaning and the caches stay true |
| SetMatching.Applicator.ResetIndexes | src/GrammarApplicator.cpp:126-137 | empty caches are true |
| SetMatching.Run | src/GrammarApplicator_matchSet.cpp:624-775 | any run of queries, with readings edited, environments changed and caches reset in between, gets the meaning each time |
| SetMatching.SpecialAnswersDependOnEnv | src/GrammarApplicator_matchSet.cpp:838 | why special sets bypass the caches: one whose answer changes with the environment |
| SetFlags.Grammar.Reindex | src/Set.cpp:107-132 | the flag of a set is raised if and only if a special tag occurs in it or in a set it uses, directly or not |
| SetFlags.NeedsSpecialIff | src/Set.cpp:107-132 | the flag is called for if and only if a special tag is stored in a trie of the set or of one it uses, at any depth |
| SetFlags.Grammar.ReindexAll | src/Grammar.cpp:781-784 | afterwards the flags are closed upward and nothing else has changed |
| SetRewrites.AddListsMean | src/Grammar.cpp:110-128 | the LIST made of all alternatives' tag lists matches what one of them matches; (*) and failfast tags are carried over |
| SetRewrites.FlattenedMeans | src/Grammar.cpp:85-140 | reading by reading: before flattening an alternative's tag list or (*) matches, after it a list taken from an alternative does and no taken failfast tag names a tag of the reading; flattening only loses readings |
| SetRewrites.FlattenedLeavesMean | src/Grammar.cpp:85-140 | with nothing below terminal nodes, flattening loses exactly the matching readings with a tag that a failfast alternative names, unless an alternative is (*) |
| SetRewrites.SplitMeans | src/Grammar.cpp:142-194 | reading by reading: before, the LIST holds and no failfast tag matches; after Positive - Negative, the LIST holds and no failfast tag matches without its mark |
| SetRewrites.PlainTagsSplit | src/Grammar.cpp:142-194 | for plain failfast tags the two are the same, so that splitting keeps the meaning for every reading |
| SetRewrites.GrammarBuilder.AllTags | src/Grammar.cpp:85-107 | the test holds if and only if all operators are OR and all operands are singular LISTs |
| SetRewrites.GrammarBuilder.AddSet | src/Grammar.cpp:85-194 | stores the set with the rewrites applied, and its two halves before it if it was split; names and content hashes are left out |
| SetRewrites.RewrittenShape | src/Grammar.cpp:85-194 | a SET of single lists joined by OR becomes a LIST; a set with failfast tags and more top entries than these is stored in three parts; any other is stored as it is |
| SetRewrites.AddListPlaces | src/Grammar.cpp:110-128 | a tag list goes into the special trie if and only if it has a special tag |
| SetRewrites.AddSetMeans | src/Grammar.cpp:85-194 | what addSet stores last means what the set meant, except exactly for the readings that flattening loses and those that tell a failfast tag from the tag without its mark |
| SetRewrites.AddSetKeepsFlags | src/Grammar.cpp:134-189 | the special flags stay closed upward |
| SetRewrites.FlatteningFailfastChangesMeaning | src/Grammar.cpp:110-132 | the exception is real: (b) OR (^a) on a reading with both |
| SetRewrites.FlatteningSubtrieChangesMeaning | src/Grammar.cpp:496-510 | (a b) followed by (a) leaves a terminal node with a subtrie, and OR'ed with (c) the flattened set loses a reading with only a |
| SetRewrites.SplittingSpecialChangesMeaning | src/Grammar.cpp:142-194 | a failfast regular expression whose stripped form matches a reading that it did not rule out |
| PossibleSets.Index.IndexSets | src/Grammar.cpp:1059-1072 | enters a set under (*) if it is special, else under every tag in it or in the sets it uses, and changes nothing else |
| PossibleSets.Index.IndexAll | src/Grammar.cpp:789-791 | the finished index has a set under a tag if and only if it belongs there |
| PossibleSets.UnderIff | src/Grammar.cpp:1059-1072 | a special set belongs under (*) only, another one under exactly the tags stored in it and in the sets it uses |
| PossibleSets.OtherTagsDoNotMatter | src/Grammar.cpp:1059-1072 | a set that is not special only depends on the tags it is found under |
| PossibleSets.MatchNeedsTag | src/Grammar.cpp:1059-1072 | and only matches a reading with one of these tags |
| PossibleSets.Cohort.AddTag | src/GrammarApplicator_reflow.cpp:456-466 | adding a tag keeps every matching set's bit raised |
| PossibleSets.Cohort.Reflow | src/GrammarApplicator_reflow.cpp:331-352 | so does taking all tags off and adding them again |
| PossibleSets.Cohort.AppendReading | src/GrammarApplicator_reflow.cpp:799-802 | so does a new reading |
| PossibleSets.Cohort.DelTag | src/GrammarApplicator_reflow.cpp:556-570 | deleting a tag keeps the bits raised for sets that are special or only gain from tags |
| PossibleSets.SurvivesDeletionIff | src/GrammarApplicator_reflow.cpp:556-570 | the bit of a set survives every deletion if and only if the set is special or never stops matching when a reading gets more tags |
| PossibleSets.GainsIsEnough | src/GrammarApplicator_matchSet.cpp:686-735 | which a set with only OR and + in it and in the sets it uses never does |
| PossibleSets.Cohort.SetMatches | src/GrammarApplicator_matchSet.cpp:868-927 | the answer is some reading matches and the bit, if consulted, is raised; clearing the bit afterwards keeps every matching set's bit |
| PossibleSets.ClearBitMeansNoMatch | src/GrammarApplicator_matchSet.cpp:871-873 | while the bits cover the matching sets, consulting them never changes an answer |
| PossibleSets.DeletionUncovers | src/GrammarApplicator_reflow.cpp:556-570 | with - between sets a deletion can make a set match whose bit is clear |
| RuleKeys.HashValueIs | src/inlines.hpp:175-189 | the shifts and the subtraction are multiplication by 65599; the result is never 0 or one of the two reserved values |
| RuleKeys.KeysIdentify | src/GrammarApplicator_runRules.cpp:476-480 | for rules below 65599 and any two 32-bit cohort numbers at most 65472 apart, keys are equal if and only if rule and cohort are, or both pairs have a residue that the hash avoids |
| RuleKeys.FirstCohorts | src/inlines.hpp:175-189 | cohorts 1 to 65472 have no such residue |
| RuleKeys.BoundsAreTight | src/inlines.hpp:175-189 | one more rule, or cohorts one further apart, and two pairs share a key |
| RuleKeys.ReservedKeysCollide | src/inlines.hpp:175-189 | two pairs of nearby numbers that share the key which stands in for the avoided ones |
| RuleSteps.Partition | src/GrammarApplicator_runRules.cpp:2185-2196 | the swapping loop takes each removed reading out by exchanging it with the last |
| RuleSteps.SwapOutAllKeeps | src/GrammarApplicator_runRules.cpp:2177-2199 | what stays and what is removed make up the old list; what stays is distinct |
| RuleSteps.SwapOutAt | src/GrammarApplicator_runRules.cpp:2185-2195 | after one removal the last reading stands where the removed one was, and every other where it was |
| RuleSteps.StaysInPlace | src/GrammarApplicator_runRules.cpp:2185-2196 | a reading that stays does not move if its place is still there in the end |
| RuleSteps.LastRemovedFirst | src/GrammarApplicator_runRules.cpp:2183-2194 | the last of the readings to be removed is taken out first |
| RuleSteps.ActKeeps | src/GrammarApplicator_runRules.cpp:2171-2214 | readings, deleted and delayed readings together are conserved, readings only go, their number falls if anything changes, and a safe rule leaves one |
| RuleSteps.ActChooses | src/GrammarApplicator_runRules.cpp:930-992 | exactly which readings stay after SELECT, REMOVE and IFF, safe or not |
| RuleSteps.ActMoves | src/GrammarApplicator_runRules.cpp:2177-2199 | the readings that go are put, in their old order, behind the delayed ones by a delayed rule and behind the deleted ones by any other, and the other list stays; selected readings keep their order |
| RuleRunner.Runner.Examine | src/GrammarApplicator_runRules.cpp:521-695 | with tests run once and results copied between readings with equal plain tags, each reading is marked as if tested on its own |
| RuleRunner.SortReadings | src/GrammarApplicator_runRules.cpp:908-992 | selected and removed are the readings the rule's kind says, in order, and the negative cache is always cleared |
| RuleRunner.ActOn | src/GrammarApplicator_runRules.cpp:2171-2208 | the cohort becomes what the rule makes of it |
| RuleRunner.Runner.TryCohort | src/GrammarApplicator_runRules.cpp:425-714 | one rule on one cohort, through all skips: the window and the kind carried on are what the rule makes of them if it is let through, where a carried SELECT passes over a lone reading; what is not let through is none of its business or remembered |
| RuleRunner.Runner.Attempt | src/GrammarApplicator_runRules.cpp:476-714 | past the skips: the window is what the rule makes of it, and the kind is SELECT for an IFF rule that hits and whose tests hold; a cohort is only dropped from the index if the target matches none of its readings, and what is remembered stays true |
| PlainRules.LoneReadingOfIff | src/GrammarApplicator_runRules.cpp:436-448 | skipping a lone reading of an IFF rule matters if and only if the rule is unsafe, its target matches and its tests fail |
| PlainRules.CarriedIsNaive | src/GrammarApplicator_runRules.cpp:396-448 | with the kind carried from cohort to cohort, a run of a rule is the plain run if and only if no lone reading is missed |
| PlainRules.TrapDecides | src/GrammarApplicator_runRules.cpp:396-448 | the two agree whatever the tests if and only if the rule is safe or no IFF rule, or no cohort with a hit is followed by one whose lone reading is hit, with only hits or at most one reading in the cohorts between |
| PlainRules.StepsAreNaiveIff | src/GrammarApplicator_runRules.cpp:321-425 | rule after rule the window is the plain one if and only if no rule misses a lone reading |
| PlainRules.RunMoves | src/GrammarApplicator_runRules.cpp:2177-2199 | over a run of rules no reading is lost, the deleted and delayed readings only grow at their ends, and readings go where the rules send them |
| RuleRunner.MissLoneReading | src/GrammarApplicator_runRules.cpp:436-448 | a run of an unsafe IFF rule that leaves the lone reading the plain run removes |
| RuleRunner.Runner.IndexWindow | src/GrammarApplicator_runRules.cpp:90-111 | a cohort not indexed under a rule has no reading that the rule's target matches, or does not fit its wordform |
| RuleRunner.Runner.RunRule | src/GrammarApplicator_runRules.cpp:396-425 | one rule over its index, whatever its kind, equals the rule over all cohorts if and only if it misses no lone reading; every cohort that it has business with and that was not remembered gets through |
| RuleRunner.Runner.RunRules | src/GrammarApplicator_runRules.cpp:321-2266 | after each rule the window is what every rule on every cohort makes of it if and only if no rule misses a lone reading, which safe rules and rules other than IFF never do; a change is reported if and only if the number of readings fell; if no rule is delayed all that has gone is among the deleted readings, if all are among the delayed ones |
| SectionLoop.RunFalls | src/GrammarApplicator_runRules.cpp:2210-2214 | a run changes nothing, or the number of readings falls; safe rules leave every cohort a reading |
| SectionLoop.UnchangedIsQuiet | src/GrammarApplicator_runRules.cpp:2210-2214 | after a run that changes nothing no rule has anything to do in any cohort, but for lone readings left alone by an unsafe IFF rule |
| SectionLoop.RunSections | src/GrammarApplicator_runRules.cpp:2276-2312 | terminates; if it does not give up no rule of any section has anything left to do, but for lone readings left alone; with safe rules and at most 997 surplus readings it does not give up; without unsafe IFF rules the outcome is that of the loop over plain runs; no reading is lost, and readings go where the rules send them |
| SectionLoop.TooManyPasses | src/GrammarApplicator_runRules.cpp:2276-2312 | with 998 surplus readings and one safe rule the loop gives up, though every run has made progress |
| RuleSets.TargetsAreValid | src/GrammarApplicator_runRules.cpp:521-560 | over the sets of a grammar, copying results between readings with equal plain tags is right for targets without the special flag |
| RuleSets.CoveringBits | src/GrammarApplicator_runRules.cpp:90-111 | bits that cover the sets of the grammar are bits that the index of rules can rely on |
| RuleSets.EnterReadings | src/GrammarApplicator_reflow.cpp:456-466 | entering the readings of a cohort tag by tag gives such bits |
| RuleSets.RunGrammar | src/GrammarApplicator_runRules.cpp:2276-2312 | from the tags to the end of the sections, with targets judged by the meaning of sets: the outcome of RunSections on the window as given |
| RuleSets.QuietMeans | src/GrammarApplicator_runRules.cpp:908-992 | what it is in terms of sets that a rule has nothing to do in a cohort |
| Enclosures.PackingKeeps | src/GrammarApplicator_runRules.cpp:2357-2397 | packing into a cohort without a group keeps the text, adds one group, and flags exactly the packed cohorts |
| Enclosures.PackingMovesLeft | src/GrammarApplicator_runRules.cpp:2350-2400 | after a packing only positions left of its host can be packed |
| Enclosures.Window.PackAt | src/GrammarApplicator_runRules.cpp:2376-2395 | the shift in place, the new local numbers and the group |
| Enclosures.Window.ScanOnce | src/GrammarApplicator_runRules.cpp:2350-2400 | packs the rightmost group there is, up to the first right parenthesis for it, never into a cohort that has one; if it packs nothing there is nothing to pack |
| Enclosures.Window.ScanParentheses | src/GrammarApplicator_runRules.cpp:2349-2401 | terminates with everything packed, the text unchanged, local numbers and flags right; the packings it made are a chain from the window before to the window after |
| Enclosures.UnpackingKeeps | src/GrammarApplicator_runRules.cpp:2456-2477 | unpacking keeps the text and takes away one group |
| Enclosures.UnpackingUndoesPacking | src/GrammarApplicator_runRules.cpp:2456-2477 | the inverse law: after a packing the leftmost group is the one just made, and putting it back gives the window from before |
| Enclosures.Window.UnpackLeftmost | src/GrammarApplicator_runRules.cpp:2453-2479 | the first cohort that has a group gets it put back behind it, and the positions are those of that group; if there is none nothing changes |
| Enclosures.Window.UnpackAt | src/GrammarApplicator_runRules.cpp:2459-2476 | the shift from the end, the group put back, flags, numbers and the bounds of the group |
| Enclosures.Window.UnpackByPasses | src/GrammarApplicator_runRules.cpp:2408-2493 | the passes run the packings backwards: pass k + 1 sees the window from k packings before the end of the scan and the positions of the stretch packed there, a last pass sees the bare window again, and after 1000 passes the groups packed first are left |
| Enclosures.Window.RunGrammarOnWindow | src/GrammarApplicator_runRules.cpp:2349-2493 | without rule changes the window is restored, order, numbers and flags, if and only if packing makes at most 1000 groups; the text is kept in any case; the passes see the packings backwards |
| Enclosures.RunRow | src/GrammarApplicator_runRules.cpp:2408-2493 | a begin marker and n cohorts with both parentheses are restored if and only if n is at most 1000 |
| Delimiting.TextAfter | src/GrammarApplicator_reflow.cpp:765-826 | delimiting the current window or one to come puts one begin cohort behind the cut and changes nothing else in the text |
| Delimiting.PreviousIsTurnedRound | src/GrammarApplicator_reflow.cpp:778-786 | in a window that has been passed the tail comes before the head |
| Delimiting.TextIsKept | src/GrammarApplicator_reflow.cpp:765-826 | so the text is the old one with a begin cohort behind the cut if and only if the window is not a passed one |
| Delimiting.Windows.RebuildCohortLinks | src/Window.cpp:132-156 | the chain of cohorts is exactly the text |
| Delimiting.Windows.RebuildSingleWindowLinks | src/Window.cpp:100-130 | each window's next is the one after it and its previous the one before it |
| Delimiting.Windows.InsertWindow | src/Window.cpp:58-72 | the current window stays; the new one is the first to come, right behind a window to come, or right before a passed one in the same list; the window links are right in both directions |
| Delimiting.Windows.FillWindow | src/SingleWindow.cpp:140-168 | the new window has the begin cohort and the tail, which know their window and place; nothing else has moved |
| Delimiting.Windows.DelimitAt | src/GrammarApplicator_reflow.cpp:765-826 | the current window stays and the new one is put in its place; it has the begin cohort and the cohorts behind the cut, the old one those before, all others theirs; back references, local numbers and both chains are right |
| DependencyForest.AttachKeepsForest | src/GrammarApplicator_reflow.cpp:152-198 | attaching makes a loop if and only if the child is the parent or above it |
| DependencyForest.WouldLoopFinds | src/GrammarApplicator_reflow.cpp:90-134 | in a forest the check answers yes if and only if the child is the parent or at most 1001 steps above it |
| DependencyForest.CheckedAttach | src/GrammarApplicator_reflow.cpp:152-172 | what is refused would make a loop; what is let through keeps the forest if and only if the child is not more than 1001 steps above |
| DependencyForest.CheckIsExact | src/GrammarApplicator_reflow.cpp:90-134 | with up to 1002 cohorts attaching is refused if and only if it would make a loop |
| DependencyForest.LongChainLoops | src/GrammarApplicator_reflow.cpp:103-131 | with 1003 cohorts in a chain the check misses a loop |
| DependencyForest.RunKeepsForestIff | src/GrammarApplicator_reflow.cpp:152-198 | over any run of attaches the tree is a forest all along if and only if no arc goes from a parent to a child more than 1001 steps above it |
| DependencyForest.RunIsExact | src/GrammarApplicator_reflow.cpp:152-198 | with up to 1002 cohorts a run attaches exactly the arcs that make no loop |
| DependencyForest.Dependencies.WouldParentChildLoop | src/GrammarApplicator_reflow.cpp:90-134 | the walk with its early exits decides the check |
| DependencyForest.Dependencies.AttachParentChild | src/GrammarApplicator_reflow.cpp:152-198 | parents and children stay inverse, refused or not, and only the child's parent changes |
| DependencyForest.Dependencies.AttachAll | src/GrammarApplicator_reflow.cpp:152-198 | a run of attaches with loops blocked: the tree is what the check lets through, parents and children stay inverse, and the forest is kept as the two lemmas say |
| DependencyForest.ContractionKeeps | src/GrammarApplicator_runRules.cpp:887-903 | without a cohort whose children got its parent, the rest is a forest with the same ancestor relation |
| DependencyForest.Dependencies.ForwardChildren | src/GrammarApplicator_runRules.cpp:889-893 | the loop terminates and gives every child the parent, keeping parents and children inverse |
| DependencyForest.Dependencies.RemCohort | src/GrammarApplicator_runRules.cpp:870-906 | the tree is contracted, the cohort gone from the window, and the others renumbered |
| Descendants.Round | src/CohortIterator.cpp:190-224 | one round expands everything found, and either finds nothing or has expanded something new |
| Descendants.Reset | src/CohortIterator.cpp:161-247 | terminates on every graph; the result is the closure under children within the window, the windows up to it, the windows from it on or all, by the span flags, filtered by the left, right and self flags |
| BinaryWords.FieldsRoundTrip | src/BinaryGrammar_write.cpp:435-497 | optional fields written under a mask are read back with it, up to the end of the fields |
| BinaryWords.MaskHasBits | src/BinaryGrammar_write.cpp:435-497 | a mask has exactly the bits of the fields present |
| ContextGraphs.PosRoundTrip | src/BinaryGrammar_write.cpp:447-453 | a 64-bit position comes back if and only if it has no upper word or bit 31 is set |
| ContextGraphs.NormalisedComesBack | src/TextualParser.cpp:766-768 | every position the parser makes comes back; the parser adds at most bit 31, and adds it if and only if the position would not come back without |
| ContextGraphs.MaskLayout | src/BinaryGrammar_write.cpp:435-493 | the mask has bit 0 for the hash and bits 1 to 11 for the fields in their order |
| ContextGraphs.FieldLayout | src/BinaryGrammar_write.cpp:435-512 | the fields follow in the order of their bits, the position low word first, the alternatives with their number |
| ContextGraphs.RecordRoundTrip | src/BinaryGrammar_read.cpp:532-603 | the record of a test is read as the test, and the stream is left at the next record |
| ContextFiles.GraphWriter.WriteContextualTest | src/BinaryGrammar_write.cpp:419-512 | in an acyclic graph every test is emitted once and after all it refers to, in the order template, alternatives, linked test |
| ContextFiles.OneOfEach | src/BinaryGrammar_write.cpp:425-433 | a test with a template, two alternatives and a linked test comes after these, in this order |
| ContextFiles.GraphWriter.WriteContexts | src/BinaryGrammar_write.cpp:302-309 | the whole graph is written so, whatever the order of the map |
| ContextFiles.GraphReader.ReadRecord | src/BinaryGrammar_read.cpp:532-603 | the reader follows the record's layout and fails exactly at the end of the file |
| ContextFiles.GraphReader.ReadContexts | src/BinaryGrammar_read.cpp:388-397 | reading n tests stores each with its linked test looked up and the rest deferred |
| ContextFiles.LinksAreLookedUp | src/BinaryGrammar_read.cpp:596-600 | a linked test is found if it comes earlier in the file and lost if it comes later |
| ContextFiles.Bind | src/BinaryGrammar_read.cpp:515-526 | binding succeeds if and only if everything deferred exists, and then nothing is left unbound |
| ContextFiles.GraphRoundTrip | src/BinaryGrammar_read.cpp:388-526 | reading and binding what was written gives the same graph and leaves the rest of the file |
| ContextFiles.WriteAndRead | src/BinaryGrammar_write.cpp:419-512 | writer, reader and binder together return any acyclic graph |
| RuleRecords.SubRoundTrip | src/BinaryGrammar_read.cpp:455-465 | the sub-reading number comes back if and only if it is not the lowest 32-bit number, which becomes 0 |
| RuleRecords.SubLayout | src/BinaryGrammar_write.cpp:360-366 | bit 31 is on for negative numbers and the other bits are the magnitude |
| RuleRecords.RuleTests.Write | src/BinaryGrammar_write.cpp:399-411 | the lists are written reversed, each behind its length, and stay reversed |
| RuleRecords.RuleTests.Read | src/BinaryGrammar_read.cpp:493-511 | each list is read with its last element first |
| RuleRecords.WriteAndRead | src/Rule.cpp:62-69 | a rule read from its record has its tests in the order from before writing |
| TrieCodec.NumberRoundTrip | src/inlines.hpp:434-445 | four bytes, high byte first, give the number back |
| TrieCodec.HighByteFirst | src/inlines.hpp:434-445 | the first of the four bytes counts 2 to the 24th, the last one 1 |
| TrieCodec.TrieInput.ReadTrie | src/Grammar.hpp:151-172 | the reading loop follows the nested format and fails exactly on a short file or a number that is no tag's |
| TrieCodec.SerializedBytes | src/TagTrie.hpp:258-270 | an entry is the number of its tag in four bytes, a byte 1 or 0 for the end of a list, the number of entries below in four bytes, these entries, and the rest of the level |
| TrieCodec.SameTagTwice | src/Grammar.hpp:151-172 | a tag that occurs twice on a level gets the entries of both below it, and the flag of the second |
| TrieCodec.BadEntry | src/Grammar.hpp:151-172 | an entry that is cut short or has a number that is no tag's makes reading fail |
| TrieCodec.TrieRoundTrip | src/TagTrie.hpp:258-270 | a trie read from its bytes is the trie, and the rest of the stream is untouched |

## Left out

- Stream input and output, text formats, external processes, ICU regular expressions, case folding, varstrings, and the textual grammar parser (but for the position normalisation).
- Unification, bag-of-tags, `SET:` tags and regex captures, which break the cache argument; the match caches are proved without them.
- S_NOT is modelled as the operator loop has it, though it cannot be written between sets; the bit filter assumes it does not occur.
- Reading hashes and tag hashes are taken to identify what they hash; `Reading::rehash` is not modelled.
- SetRewrites.GrammarBuilder.AddSet: set names, content hashes and the merging of equal sets, and the bookkeeping of used sets. Sets are numbered in the order in which they are stored, so a set only refers to earlier ones.
- RuleRunner.Runner.IndexWindow: what a contextual test does to the bits is any clearing of bits for sets that match nothing; the command line's list of valid rules is left out.
- RuleRunner: rule types other than SELECT, REMOVE and IFF, attaching, protected and sub-readings, the flags for enclosures, unmapping and repeating, magic readings and tracing. A cohort emptied by an unsafe REMOVE stays empty, as none of the three types looks at a magic reading.
- SectionLoop.RunSections: without a limit on runs per section; the before, after and null sections are not run.
- PossibleSets.Cohort.SetMatches: the main readings only; linked tests, NOT, deleted and delayed readings and the static reading of the wordform are left out.
- FlatHashSets.FlatUnorderedSet.Reserve: for power-of-two sizes, as the masks assume; another size would leave a table whose probes miss slots.
- FlatHashSets.FlatUnorderedSet.Clear: likewise for size 0 and power-of-two sizes.
- FlatHashSets: the range insert and the map with values, which is the same table.
- IntervalVectors.IntervalVector.LowerBound: `std::lower_bound` is a function here.
- SetMatching: readings and sets are values, and a cache is a set of hashes; the tables behind it are modelled on their own.
- TagTries: tries are values, so that trie_insert and trie_getTagList are functions rather than updates in place.
- `rules_by_tag` and `updateValidRules`, which only rule types that add tags use.
- Descendants.Reset: the set of cohorts; the order in which the iterator visits them, which POS_RIGHTMOST turns round, is left out.
- Enclosures: cohorts are trees of values, each owned by its window or its host. Rules do nothing between the passes, and a traced rule does not cut them short.
- Delimiting.Windows.FillWindow: without the links and maps that appendCohort sets, which are rebuilt afterwards.
- Delimiting.Windows.DelimitAt: without the end tags and the begin reading, which touch no link or place.
- Delimiting: windows and cohorts are numbers and the links are maps; the begin cohort's reading, `cohort_map` and what appendCohort sets of the cohort links before they are rebuilt are left out.
- DependencyForest.Dependencies.AttachParentChild: without the check for crossing branches, which takes no part in the loop check.
- DependencyForest: one window's `cohort_map`; crossing branches, relations, enclosed cohorts and readings of a removed cohort are left out. The root 0 has no parent.
- ContextFiles: a linked test that is missing is read as none; a template or alternative that is missing, for which the reader has no answer, fails. A cyclic graph, which the writer does not order, is not covered.
- RuleRecords: the other fields of a rule are optional words like those of a test; a rule's name is bytes.
- TrieCodec: tags are found by number in a list in which each occurs once.
- Floating-point comparison values, statistics, memory pools, the legacy reader, the C interface, `wouldParentChildCross`, the Relabeller and the two prefix-leaking tag collectors.
