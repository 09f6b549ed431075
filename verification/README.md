# Thrill, modelled and verified in Dafny

Thrill is a C++ framework for distributed batch processing.  Its programs are graphs of DIA nodes; its
examples build suffix arrays, search graphs and select order statistics with a few collective operations
(Sort, FlatWindow, PrefixSum, Zip, ReduceToIndex).  This project models the parts of it whose correctness is
hardest to see and proves them with Dafny 4.11: `dafny verify dfyconfig.toml`.

## What is modelled

- **Suffix arrays by prefix doubling** (`Packing`, `PrefixDoubling`).  Bit packing of characters, the first
  naming, and the doubling loops of the sorting and of the window variant.
- **Suffix arrays by difference covers** (`DifferenceCover`, `RecursionOrder`, `SampleRanks`,
  `FragmentMerge`, `Arrangements`, `MergeOutcomes`, `DifferenceCoverSort`, `DifferenceCoverEnds`,
  `DifferenceCoverRuns`, `LostTexts`).  DC3 and DC7 differ in their tables only, so they are one model
  over a `Cover` of tables; `Dc3` and `Dc7` are the two instances.
- **The suffix array checker, the Burrows-Wheeler transform and the LCP array** (`CheckSuffixArray`,
  `BurrowsWheeler`, `LongestCommonPrefix`, `CyclicShifts`, `StandingIntervals`, `LcpTermination`,
  `ConstructLcp`).
- **The stage scheduler** (`StageGraph`, `StageOrder`, `Scheduler`).  `Scheduler.Nodes` keeps state, parents
  and children of all nodes, numbered by dia_id, in sequences it reassigns, next to a ghost history of all
  executions and deliveries; `StageGraph.History` is what every method keeps.
- **Breadth-first search** (`Bfs`), **selection** (`Select`), **the data exchange of Concat** (`Concat`), **item
  and file pushes through Collapse and Cache nodes** (`PushFile`), and **the barrier-free 1-factor protocols**
  of the network benchmark (`OneFactor`), a state machine whose steps are those of single hosts.

A text is a sequence of natural numbers.  `Lists.Sort` promises a permutation, sorted if the comparison is
a strict weak order (`SortGives`), and nothing about the order of equivalent items.  `FlatWindow` over k items fires on every full window, and on the shorter tails only
where the program gives a function for them; that is why a window of two needs at least two items.

## What the code does that its users may not expect

- Prefix doubling returns an empty result for a text of one character, and in packed form for every text
  shorter than the number of characters that fit into an index (`PrefixDoublingSorting`).
- `CheckSA` aborts on a single character with its correct suffix array, because the zipped lists differ in
  length (`AcceptedInputs`).
- The permutation the LCP construction calls the inverse transform is the LF mapping only under the condition
  `WrapFits`; `InverseIsNotAlwaysLF` shows the shortest text where it is not.
- The refinement loop of the LCP construction does not end on every text with a unique smallest last character.
  It ends exactly on those that are not `Stuck`; `bab$` is stuck.
- DC3 and DC7 number names from zero, the value they also pad with.  One level is right for every long enough
  text above the padding value; on others three things can go wrong.  *Ranks*: a sample that ends a part of the
  recursion string can share its tuple with another sample, and all ranks are right exactly when the string goes on
  behind both in the right order (`EndsInOrder`).  *Blind pairs*: DC7 can misorder texts that end with the padding
  value although the ranks are right; the comparison is that of the suffixes exactly when no pair is blind (`Sees`,
  `ComparisonIsExact`).  *Length*: a level without two blocks returns nothing.
- Where the comparison of the fragments is no strict weak order, their sort may give any order.  It is bound to give
  the suffix array exactly when all comparisons are those of the suffixes (`BoundIsExact`), and without ranks only
  for the empty text.  So DC3 and DC7 are not bound to sort texts of 4 and 5, or 7 to 13 characters, in which two
  samples have the same tuple (`LostLengths`), such as five or eight equal characters; DC3 not 1 2 1 1 2 1 1 2 1 1 2,
  where a level compares in a circle (`CollidedRun`); and DC7 not 1 2 3 4 5 6 7 8 9 10 11 0 0 0 (`TrailingRun`).
- The recursion of DC7 does not end on texts that hold nothing but the padding value (`Dc7Ends`).
- `TreeInfo.levels` of the breadth-first search is the depth of the tree, and one more exactly when a node at
  the deepest level has an edge.
- `Select` recurses on the whole data when no item lies outside its pivots; with pivots that are never so
  extreme it returns.

## Model

| member | source | states |
|---|---|---|
| `Suffixes.SuffixArrayUnique` | examples/suffix_sorting/prefix_doubling.cpp:319-609 | a text has exactly one suffix array, so all constructions that return a suffix array return the same list |
| `Packing.BuildAlphabet` | examples/suffix_sorting/prefix_doubling.cpp:200-217 | the histogram is renamed in place to codes 1, 2, … in character order, keeping zero free; the alphabet size is the number of distinct characters plus one |
| `Packing.FittingIsExact` | examples/suffix_sorting/prefix_doubling.cpp:219-223 | a code has the fewest bits that tell the alphabet apart; k_fitting codes fit into the bits of an index and one more does not; the iteration counter starts at the floor logarithm of k_fitting |
| `Packing.OrIntoShifted` | examples/suffix_sorting/prefix_doubling.cpp:241-251 | or-ing a code into the bits freed by a shift adds it, so nothing overlaps |
| `Packing.PackedFits` | examples/suffix_sorting/prefix_doubling.cpp:219-252 | k packed codes need at most k times the bits of one code |
| `Packing.PackedOrder` | examples/suffix_sorting/prefix_doubling.cpp:241-258 | comparing packed integers is comparing the packed codes lexicographically |
| `Packing.PackWindows` | examples/suffix_sorting/prefix_doubling.cpp:234-255 | the window over the text emits one packed window for every position, full and tail windows alike, each equal to the zero-padded window and below two to the bits of an index; a shorter text emits nothing |
| `Packing.PackedWindowOrder` | examples/suffix_sorting/prefix_doubling.cpp:233-258 | packed windows compare like the suffixes they start, with the end of the text lowest, unless the windows agree |
| `PrefixDoubling.PackCharacters` | examples/suffix_sorting/prefix_doubling.cpp:198-258 | the packed branch packs k_fitting characters for every position into integers that all fit an index, sorted so that runs of equal integers are the classes of equal windows; k_fitting is at least 2^iteration |
| `PrefixDoubling.PrefixDoublingPack` | examples/suffix_sorting/prefix_doubling.cpp:189-317 | the first naming, packed or by character pairs, ranks every position by its first characters with the end of the text lowest; the iteration counter starts at the floor logarithm of that number; nothing for a text that is shorter |
| `PrefixDoubling.NoDuplicatesIsSorted` | examples/suffix_sorting/prefix_doubling.cpp:353-369 | names without duplicates list the suffix array |
| `PrefixDoubling.RoundKeepsNamed` | examples/suffix_sorting/prefix_doubling.cpp:394-437 | sorting pairs of ranks a shift apart and numbering them anew ranks the positions by as many more characters as the shift, for both tests of equality |
| `PrefixDoubling.ClassesRefine` | examples/suffix_sorting/prefix_doubling.cpp:457-470 | names by more characters never have more duplicates: the classes only split |
| `PrefixDoubling.DuplicatesBoundPrefix` | examples/suffix_sorting/prefix_doubling.cpp:372-475 | while duplicates are left, the named prefix is no longer than the text, so the loop must end |
| `PrefixDoubling.SortingRound` | examples/suffix_sorting/prefix_doubling.cpp:372-445 | one round of the sorting variant adds the shift to the named prefix and does not raise the number of duplicates |
| `PrefixDoubling.SortingRounds` | examples/suffix_sorting/prefix_doubling.cpp:372-484 | the loop ends with the suffix array; its last shift was at most the text length; the early return for grown duplicates is never taken |
| `PrefixDoubling.PrefixDoublingSorting` | examples/suffix_sorting/prefix_doubling.cpp:319-485 | the result is the suffix array whenever the text holds at least one first group of characters, and empty otherwise; the number of rounds is logarithmic in the text length |
| `PrefixDoubling.ReduceToIndex` | examples/suffix_sorting/prefix_doubling.cpp:534-545 | names arranged by position hold every name at its own index |
| `PrefixDoubling.WindowRound` | examples/suffix_sorting/prefix_doubling.cpp:532-590 | one round of the window variant adds its shift; without packing, k rounds name prefixes of exactly 2^k + 1 characters |
| `PrefixDoubling.PrefixDoublingWindow` | examples/suffix_sorting/prefix_doubling.cpp:487-609 | the window variant returns the suffix array on the same texts as the sorting variant, in at most one round more |
| `DifferenceCover.SamplesAreNumbered` | examples/suffix_sorting/dc7.cpp:420-470 | the windows emit exactly the positions of the cover residues and the separating position at the end, numbered block by block |
| `DifferenceCover.SubproblemHoldsSamples` | examples/suffix_sorting/dc7.cpp:496-531 | the computed subproblem size is the number of samples |
| `DifferenceCover.ByResidueIsPlaceOrder` | examples/suffix_sorting/dc7.cpp:556-569 | sorting samples by residue and position is ordering them by their place in the recursion string |
| `DifferenceCover.InterleavesInTextOrder` | examples/suffix_sorting/dc7.cpp:586-607 | sorting places of the recursion string by their place within the part brings the samples back into text order |
| `DifferenceCoverSort.Dc3IsCover` | examples/suffix_sorting/dc3.cpp:195-206 | every entry of the 3x3 table compares two samples at the same distance, right behind the compared characters, and the fragments hold what it reads |
| `DifferenceCoverSort.Dc7IsCover` | examples/suffix_sorting/dc7.cpp:298-328 | every entry of the 7x7 table compares two samples at the same distance, right behind the compared characters, and the fragments hold what it reads |
| `DifferenceCoverSort.Dc3FewestCharacters` | examples/suffix_sorting/dc3.cpp:195-206 | every entry of the 3x3 table compares exactly the characters before the first distance at which both positions have samples |
| `DifferenceCoverSort.Dc7FewestCharacters` | examples/suffix_sorting/dc7.cpp:298-328 | every entry of the 7x7 table compares exactly the characters before the first distance at which both positions have samples |
| `DifferenceCoverSort.SizesAsComputed` | examples/suffix_sorting/dc3.cpp:364-368 | the part sizes are the formulas DC3 and DC7 compute |
| `DifferenceCoverSort.Dc3PlaceInPart` | examples/suffix_sorting/dc3.cpp:436-442 | the remainder by the first part's size that DC3 interleaves by is the place within the part |
| `SampleRanks.TupleOrder` | examples/suffix_sorting/dc3.cpp:291-330 | padded tuples compare like the suffixes they start, unless they are the same |
| `SampleRanks.NamesOrder` | examples/suffix_sorting/dc3.cpp:340-356 | lexicographic names order exactly like the tuples they name |
| `SampleRanks.RecursionEnds` | examples/suffix_sorting/dc3.cpp:358-378 | the test that ends the recursion succeeds exactly when all samples have different tuples |
| `SampleRanks.RecursionStringNames` | examples/suffix_sorting/dc3.cpp:383-415 | the recursion string holds the name of every sample, part after part, in the order of the tuples |
| `RecursionOrder.RecursionStringSuffixes` | examples/suffix_sorting/dc7.cpp:420-569 | suffixes of the recursion string order like the sample suffixes of the text when the ends of its parts are in order |
| `RecursionOrder.RecursionOrderIsExact` | examples/suffix_sorting/dc7.cpp:420-569 | the recursion string orders all samples like their suffixes if and only if, for every sample that ends a part but the last and every other sample with its tuple, it is less behind the sample that comes later in the text |
| `RecursionOrder.SeparatedEnds` | examples/suffix_sorting/dc7.cpp:441-470 | when the last tuple of every part but the last is unique, the ends of the parts are in order |
| `SampleRanks.NoPaddingSeparates` | examples/suffix_sorting/dc7.cpp:441-470 | when every character is above the padding value, those last tuples are unique |
| `SampleRanks.UniqueNamesRank` | examples/suffix_sorting/dc7.cpp:623-645 | when all names differ, their order ranks the samples like their suffixes |
| `SampleRanks.RecursionRanks` | examples/suffix_sorting/dc7.cpp:586-607 | a suffix array of the recursion string, numbered from one and interleaved, ranks the samples like their suffixes if and only if the ends of its parts are in order |
| `FragmentMerge.BlocksAreFirstPart` | examples/suffix_sorting/dc7.cpp:678-709 | zipping characters and ranks gives as many blocks as the first part has samples, which is what places the last sentinel |
| `FragmentMerge.FragmentsCoverText` | examples/suffix_sorting/dc7.cpp:697-826 | the fragments hold exactly one fragment for every position of the text |
| `FragmentMerge.FragmentText` | examples/suffix_sorting/dc7.cpp:712-826 | the characters of a fragment are the padded characters of the text from its position on |
| `FragmentMerge.FragmentRank` | examples/suffix_sorting/dc7.cpp:712-826 | the rank fields of a fragment are the ranks of the samples at the distances the table relies on, zero where there is none |
| `FragmentMerge.FragmentOrder` | examples/suffix_sorting/dc7.cpp:330-347 | for every pair of positions, the comparison of two fragments is the comparison of their suffixes, except where it is blind: the characters it reads agree and neither rank belongs to a sample |
| `FragmentMerge.ComparisonIsExact` | examples/suffix_sorting/dc7.cpp:330-347 | with right sample ranks, the comparison is the suffix order for all pairs if and only if no pair is blind, which only the end of the text decides |
| `FragmentMerge.ClearEndSees` | examples/suffix_sorting/dc7.cpp:330-347 | no pair is blind in a text that does not end with the padding value |
| `FragmentMerge.ShallowSees` | examples/suffix_sorting/dc3.cpp:195-225 | no pair is blind on any text for shallow tables, such as that of DC3 |
| `FragmentMerge.MergeIsRight` | examples/suffix_sorting/dc7.cpp:678-873 | given right sample ranks and no blind pair, building and sorting the fragments yields the suffix array if and only if the text is empty or long enough for two blocks |
| `Arrangements.ForcedIsExact` | examples/suffix_sorting/dc7.cpp:864-873 | about arrangements in which no fragment is less than an earlier one: there are some and all give the suffix array if and only if the comparison puts no fragment before that of a smaller suffix and tells neighbours of the suffix array apart |
| `Arrangements.MisplacedForbids` | examples/suffix_sorting/dc7.cpp:864-873 | when the comparison puts one fragment before that of a smaller suffix, no arrangement sorted by it gives the suffix array; there may be no sorted arrangement at all |
| `MergeOutcomes.BoundIsExact` | examples/suffix_sorting/dc7.cpp:864-873 | the sort of the fragments, which promises a sorted result for strict weak orders only, is bound to give the suffix array if and only if the comparison of any two fragments is that of their suffixes |
| `MergeOutcomes.RightRanksAreExact` | examples/suffix_sorting/dc7.cpp:678-873 | with right sample ranks, it is bound to give the suffix array if and only if the text is empty, or long enough for two blocks and without blind pairs |
| `MergeOutcomes.RecursionIsExact` | examples/suffix_sorting/dc7.cpp:586-873 | with ranks from a suffix array of the recursion string, it is bound to give the suffix array if and only if no pair is blind and the recursion string orders those samples like their suffixes whose ranks some comparison comes down to |
| `MergeOutcomes.RanklessIsExact` | examples/suffix_sorting/dc7.cpp:697-873 | when all ranks are zero, it is bound to give the suffix array if and only if the text is empty, or every position has a fragment and the characters that are compared tell every two suffixes apart |
| `DifferenceCoverSort.NeverBoundWithoutRanks` | examples/suffix_sorting/dc3.cpp:195-206 | when all ranks are zero, DC3 and DC7 are bound to sort the empty text only, because their tables compare two positions by ranks alone |
| `DifferenceCoverSort.LevelIsSuffixArray` | examples/suffix_sorting/dc7.cpp:409-902 | one level yields the suffix array when its recursive call is right on the recursion string, which orders the samples that are compared, and no pair is blind |
| `DifferenceCoverSort.LevelWithoutPadding` | examples/suffix_sorting/dc3.cpp:271-635 | one level yields the suffix array of every text of at least 4 (DC3) or 7 (DC7) characters, all above the padding value |
| `DifferenceCoverSort.DcRecursive` | examples/suffix_sorting/dc7.cpp:409-902 | the whole recursion yields the suffix array of every safe text: one whose levels are all long enough, order the samples that are compared, and have no blind pairs |
| `DifferenceCoverEnds.Dc3Ends` | examples/suffix_sorting/dc3.cpp:378-421 | the recursion of DC3 ends on every text |
| `DifferenceCoverEnds.Dc7Ends` | examples/suffix_sorting/dc7.cpp:536-579 | the recursion of DC7 ends if and only if the text is empty or has a character above the padding value |
| `DifferenceCoverRuns.OutcomeIfEnds` | examples/suffix_sorting/dc7.cpp:409-902 | a run may return something if and only if the recursion ends |
| `DifferenceCoverRuns.ShortRun` | examples/suffix_sorting/dc7.cpp:697-730 | of the texts without two blocks only the empty one is sorted |
| `DifferenceCoverRuns.UniqueRun` | examples/suffix_sorting/dc7.cpp:536-873 | a run on a text whose samples all have different tuples is bound to return the suffix array if and only if no pair is blind |
| `DifferenceCoverRuns.RecursiveRun` | examples/suffix_sorting/dc7.cpp:536-873 | when runs on the recursion string are bound to return its suffix array, those on the text are if and only if no pair is blind and the recursion string orders the samples that are compared |
| `DifferenceCoverRuns.LostRun` | examples/suffix_sorting/dc7.cpp:536-873 | when the recursion string has no two blocks, no run is bound to return the suffix array |
| `DifferenceCoverRuns.LostLengths` | examples/suffix_sorting/dc3.cpp:364-421 | these are the texts of 4 and 5 characters in DC3, and of 7 to 13 in DC7, in which two samples have the same tuple |
| `DifferenceCoverRuns.UnorderedRun` | examples/suffix_sorting/dc7.cpp:578-873 | when the run on the recursion string may compare its fragments by no strict weak order, runs on the text are not bound to return the suffix array |
| `DifferenceCoverRuns.SafeRun` | examples/suffix_sorting/dc7.cpp:409-902 | whatever the sorts of all levels give within their promise, runs on a safe text end with the suffix array |
| `DifferenceCoverSort.SubproblemShrinks` | examples/suffix_sorting/dc7.cpp:576-579 | the recursion is on a shorter string |
| `FragmentMerge.NoFragments` | examples/suffix_sorting/dc3.cpp:524-536 | on shorter texts the window over two blocks never fires and the level returns nothing |
| `DifferenceCoverSort.Dc3LosesFiveEqual` | examples/suffix_sorting/dc3.cpp:421-606 | five equal characters make DC3 recurse on three names, for which it returns nothing; then all ranks are zero, no fragment is less than another, and the sort is not bound to return the suffix array |
| `DifferenceCoverSort.Dc7LosesEightEqual` | examples/suffix_sorting/dc7.cpp:578-873 | eight equal characters make DC7 recurse on five names, for which it returns nothing; then all ranks are zero and the sort is not bound to return the suffix array |
| `DifferenceCoverSort.SharedEndInOrder` | examples/suffix_sorting/dc3.cpp:306-415 | on 1 1 1 1 0 1 1 1 1 the end of the first part shares its tuple with another sample, and the ends are in order all the same |
| `SampleRanks.NamesHaveNoGaps` | examples/suffix_sorting/dc3.cpp:340-356 | every name up to the largest one used is used |
| `DifferenceCoverSort.CollidedRecursesOnCollision` | examples/suffix_sorting/dc3.cpp:340-415 | on the text 1 2 1 1 2 1 1 2 1 1 2 DC3 recurses on 2 2 2 1 0 0 0, where the smallest name is the padding value |
| `DifferenceCoverSort.NamesCollideWithPadding` | examples/suffix_sorting/dc3.cpp:306-321 | there the separating tuple occurs twice, and the next recursion string orders position 5 before the end of the text |
| `DifferenceCoverSort.CollisionRanksWrong` | examples/suffix_sorting/dc3.cpp:430-445 | so whatever suffix array of that string the recursive call returns, the sample ranks are wrong |
| `DifferenceCoverSort.CollisionIsCyclic` | examples/suffix_sorting/dc3.cpp:430-606 | then the comparison puts position 4 before 6, 6 before 5 and 5 before 4: no order of the fragments is sorted, the comparison is no strict weak order, and the sort is not bound to give the suffix array |
| `LostTexts.CollidedRun` | examples/suffix_sorting/dc3.cpp:271-635 | so runs of DC3 on 1 2 1 1 2 1 1 2 1 1 2, all above the padding value, are not bound to return the suffix array |
| `LostTexts.TrailingRun` | examples/suffix_sorting/dc7.cpp:330-347 | in DC7 positions 11 and 13 of 1 2 3 4 5 6 7 8 9 10 11 0 0 0 are blind; although all ranks are right, runs are not bound to return the suffix array |
| `CheckSuffixArray.PermCheck` | examples/suffix_sorting/check_sa.hpp:50-76 | the first check passes exactly on permutations of the index range |
| `CheckSuffixArray.CheckIsExact` | examples/suffix_sorting/check_sa.hpp:42-134 | for at least two characters and lists of equal length, the checker accepts exactly the suffix array |
| `CheckSuffixArray.AcceptedInputs` | examples/suffix_sorting/check_sa.hpp:42-134 | over all inputs, exactly which pairs are accepted, including lists of another length |
| `BurrowsWheeler.BWTIsCharBefore` | examples/suffix_sorting/construct_bwt.hpp:46-72 | the transform lists the character before every suffix in suffix array order, cyclically |
| `BurrowsWheeler.InverseIsLF` | examples/suffix_sorting/construct_lcp.hpp:97-136 | the computed inverse is the LF mapping exactly when the whole text sorts before whatever follows an earlier copy of its last character; so always for a unique smallest last character |
| `BurrowsWheeler.InverseIsNotAlwaysLF` | examples/suffix_sorting/construct_lcp.hpp:97-136 | on the text aa the computed inverse is not the LF mapping |
| `BurrowsWheeler.BWTRoundTrip` | examples/suffix_sorting/construct_lcp.hpp:125-136 | following the computed inverse from the rank of the whole text rebuilds the text |
| `LongestCommonPrefix.RefineIsCarried` | examples/suffix_sorting/construct_lcp.hpp:162-183 | a refinement numbers the intervals of the following positions anew |
| `LongestCommonPrefix.CommonPrefixIsLongest` | examples/suffix_sorting/construct_lcp.hpp:79-216 | what the LCP array holds is the length of the longest common prefix |
| `LongestCommonPrefix.LcpRange` | examples/suffix_sorting/construct_lcp.hpp:142-160 | the common prefix of two suffixes is the smallest LCP between their ranks |
| `LongestCommonPrefix.RoundBoundary` | examples/suffix_sorting/construct_lcp.hpp:142-187 | in round k, a place whose LCP is at least k is a boundary exactly when its LCP is k, although boundaries of earlier rounds are forgotten |
| `LongestCommonPrefix.FlagRound` | examples/suffix_sorting/construct_lcp.hpp:143-160 | after round k the flagged places are exactly those of LCP at most k, each holding its LCP |
| `LongestCommonPrefix.FinalFlags` | examples/suffix_sorting/construct_lcp.hpp:189-215 | the flags set after the loop complete the LCP array |
| `LcpTermination.IntervalsNeverDecrease` | examples/suffix_sorting/construct_lcp.hpp:162-186 | a refinement never has fewer intervals |
| `LcpTermination.StuckNeverDone` | examples/suffix_sorting/construct_lcp.hpp:142-187 | on a stuck text no round separates all suffixes |
| `LcpTermination.LoopEndsUnlessStuck` | examples/suffix_sorting/construct_lcp.hpp:142 | the loop ends if and only if the text is not stuck: no proper divisor of its length makes the positions of every residue neighbours in the suffix array with one residue carrying a single character |
| `StandingIntervals.SharedIntervalIsResidueClass` | examples/suffix_sorting/construct_lcp.hpp:162-186 | intervals that only shift for a whole turn and are shared by two suffixes are residue classes of positions |
| `ConstructLcp.ConstructLCP` | examples/suffix_sorting/construct_lcp.hpp:79-216 | for a unique smallest last character and a text that is not stuck, the loop ends and the result is the LCP array |
| `ConstructLcp.NeverEndsOnBab` | examples/suffix_sorting/construct_lcp.hpp:142-187 | on the text bab$ the loop never ends |
| `StageGraph.AddKeepsValid` | thrill/api/dia_base.hpp:96-122 | creating a node keeps the history valid |
| `StageGraph.PushKeepsValid` | thrill/api/dia_node.hpp:93-144 | a push through all Collapse nodes followed by removing the children keeps the history valid: no edge delivers twice, and only after its source has executed |
| `StageGraph.RunKeepsValid` | thrill/api/dia_base.cpp:121-160 | executing a node without parents keeps the history valid: no node executes twice, and only after all its edges have delivered |
| `StageGraph.SourcesRanBefore` | thrill/api/dia_base.cpp:381-443 | in every reachable state, the sources of an executed node executed before it |
| `StageOrder.ChildrenFirstIsOrder` | thrill/api/dia_base.cpp:350-379 | the depth-first order puts every stage after its children, so it runs after its parents |
| `StageOrder.FrontIsAction` | thrill/api/dia_base.cpp:415 | the front of the order is the node RunScope was called on |
| `StageOrder.ReadyToRun` | thrill/api/dia_base.cpp:417-443 | when its turn comes, a stage has no parent left, directly or through Collapse nodes |
| `Scheduler.Nodes.NewNode` | thrill/api/dia_base.hpp:96-122 | a new node keeps all its inputs as parents and registers once for every place of its inputs, behind the children its parents had; nothing else changes |
| `Scheduler.Nodes.RemoveAllChildren` | thrill/api/dia_node.hpp:93-110 | all edges to executable nodes behind a node and its Collapse nodes are removed at both ends, and no others |
| `Scheduler.Nodes.RunPushData` | thrill/api/dia_node.hpp:123-144 | a push delivers once along every edge to an executable node behind the node and its Collapse nodes |
| `Scheduler.Nodes.PushData` | thrill/api/dia_base.cpp:163-265 | Stage::PushData delivers and prunes, keeping the history valid |
| `Scheduler.Nodes.FindStages` | thrill/api/dia_base.cpp:302-348 | the stages found are exactly those the action needs |
| `Scheduler.Nodes.TopoSortVisit` | thrill/api/dia_base.cpp:350-371 | the cycle mark is never met; a stage comes after its children in the set |
| `Scheduler.Nodes.TopoSortStages` | thrill/api/dia_base.cpp:373-379 | every stage is output exactly once, children first |
| `Scheduler.Nodes.RunScope` | thrill/api/dia_base.cpp:381-443 | the target (for a Collapse node, its source) is executed; besides what had executed, exactly the needed nodes have; along an edge into an executable node data is delivered, besides what had been, exactly if the edge's source is needed and is not the target itself; the history only grew |
| `Bfs.LevelSearched` | examples/bfs/bfs.cpp:84-126 | one level reaches every node one edge further on with its exact distance |
| `Bfs.TreeFinished` | examples/bfs/bfs.cpp:97-98 | when the current level has no edges, no edge leaves the finished trees |
| `Bfs.BFSNextLevel` | examples/bfs/bfs.cpp:84-126 | false exactly when the current level has no edges |
| `Bfs.PrepareNextTree` | examples/bfs/bfs.cpp:129-162 | an unreached node, if any, becomes the next root |
| `Bfs.SearchTree` | examples/bfs/bfs.cpp:225-228 | the inner loop ends, and its tree is closed under edges |
| `Bfs.BFS` | examples/bfs/bfs.cpp:217-235 | both loops end; every reached node is in one tree at its exact shortest-path distance from the root, with a parent one level closer; with full_bfs every node is reached; levels is the depth of the tree, plus one exactly when a deepest node has an edge |
| `Bfs.LevelsAreDepth` | examples/bfs/bfs.cpp:222-230 | levels exceeds the depth of a tree by one if and only if some node of the tree at its deepest level has an edge, and equals it otherwise |
| `Bfs.LevelsOfTwoNodes` | examples/bfs/bfs.cpp:222-230 | an input of each kind: one edge gives levels 1, the same edge with one back gives levels 2 |
| `Bfs.TreesApart` | examples/bfs/bfs.cpp:217-235 | no node of a later tree can be reached from an earlier root |
| `Bfs.TreeIsReachable` | examples/bfs/bfs.cpp:217-235 | without full_bfs exactly the nodes that can be reached from the start are reached |
| `OneFactor.ProtocolsAreValid` | benchmarks/net/net_benchmark.cpp:94-208 | idle hosts add as much to their counter as the others advance in a round |
| `OneFactor.PingPongScript` | benchmarks/net/net_benchmark.cpp:94-150 | a round of ping-pong: innerRepeats + 1 counting messages of the lower-ranked host, each with an answer, then as many of the higher-ranked one; idle hosts add 2 (innerRepeats + 1) |
| `OneFactor.BandwidthScript` | benchmarks/net/net_benchmark.cpp:273-320 | a round of the bandwidth test: blockCount counting blocks of the lower-ranked host and one answer, then the same with the hosts exchanged; idle hosts add 2 blockCount |
| `OneFactor.StepKeepsGood` | benchmarks/net/net_benchmark.cpp:273-320 | every step of any host keeps counters and channels right; no host finds an unequal value |
| `OneFactor.NoDeadlock` | benchmarks/net/net_benchmark.cpp:184-208 | unless all hosts are done, some host can move, with any channel capacity of at least one message |
| `OneFactor.RunsAreSafe` | benchmarks/net/net_benchmark.cpp:366-390 | in any interleaving no mismatch occurs, all hosts start a round with the same counter, and a run stops only with all hosts done and all channels empty |
| `OneFactor.ReceivedIsCounter` | benchmarks/net/net_benchmark.cpp:94-141 | whatever a host receives in a run is its own counter |
| `OneFactor.FinalCounters` | benchmarks/net/net_benchmark.cpp:184-208 | when no host can move any more, all counters are at the number of rounds times 2 (innerRepeats + 1), or 2 blockCount in the bandwidth test |
| `OneFactor.RunsEnd` | benchmarks/net/net_benchmark.cpp:184-208 | every step uses one action, so a run ends after exactly as many steps as all hosts have actions and idle rounds, whatever the interleaving |
| `Select.SelectIsRight` | examples/select/select.hpp:83-191 | whenever Select returns x, the items less than x number at most the rank, and those not greater than x more than the rank, for any strict weak order and any ordered pivots from the data |
| `Select.PartsHoldAll` | examples/select/select.hpp:122-140 | the three parts hold all items |
| `Select.LevelFinds` | examples/select/select.hpp:142-151 | a level has found the item exactly when rank items are less than the left pivot, or all but rank + 1 items are greater than the right one |
| `Select.LevelAsksInRange` | examples/select/select.hpp:152-190 | the recursion always asks for a rank that exists in its part |
| `Select.LevelShrinks` | examples/select/select.hpp:142-190 | a level recurses on fewer items if and only if some item is less than the left pivot or greater than the right one; otherwise it recurses on all of them |
| `Select.SelectReturns` | examples/select/select.hpp:83-191 | with as many pairs of pivots as there are items above the base case, none extreme for its level, Select returns |
| `Select.SelectCanStandStill` | examples/select/select.hpp:176-190 | with extreme pivots a level for a rank strictly inside repeats itself |
| `PushFile.Receivers.PushItem` | thrill/api/dia_node.hpp:147-152 | an item goes to every child through its function stack and on through Collapse nodes |
| `PushFile.Receivers.OnPreOpFile` | thrill/api/collapse.hpp:50-64 | a file is accepted exactly behind an empty stack, by caches and Collapse nodes, which then give every receiver what pushing the items would |
| `PushFile.Receivers.PushFile` | thrill/api/dia_node.hpp:156-177 | pushing a whole file gives every receiver exactly the items it gets when they are pushed one by one |
| `PushFile.WhoGetsWhat` | thrill/api/dia_node.hpp:147-152 | the receivers some chain of children leads to, and no others, get the items pushed into a node, mapped by the stacks on the way, in order |
| `PushFile.ReceiverGetsAll` | thrill/api/dia_node.hpp:147-152 | a receiver gets the very items that arrive at it, cache or not |
| `PushFile.FileIsItems` | thrill/api/dia_node.hpp:156-177 | the file to those who accept it and the items to the others add up to the items in order for everyone |
| `PushFile.FileIntoCache` | thrill/api/cache.hpp:45-55 | a file taken by a cache is what saving its items one by one leaves there |
| `PushFile.Targets` | thrill/api/dia_base.cpp:45-65 | the stack loop lists, as a multiset, exactly the Collapse nodes and receivers a push goes through |
| `PushFile.TargetsCountNodes` | thrill/api/dia_base.cpp:45-65 | there is one target for every node below the stage |
| `PushFile.TargetsAreReached` | thrill/api/dia_base.cpp:45-65 | the targets are exactly the receivers that get items and the Collapse nodes below the stage |
| `Concat.Offsets` | thrill/api/concat.hpp:278-294 | the offset vector of a piece ascends from zero to the piece's size and splits it at the limits |
| `Concat.LimitIsFloor` | thrill/api/concat.hpp:256-269 | a worker's share starts at the total, divided evenly by the workers and rounded down |
| `Concat.SharesAreEven` | thrill/api/concat.hpp:255-312 | every worker receives an even share of all items, or one item more |
| `Concat.ReceivedIsSlice` | thrill/api/concat.hpp:255-312 | a worker receives exactly the items whose global rank lies between its limits, in order |
| `Concat.SharesAreConcatenation` | thrill/api/concat.hpp:255-312 | reading the workers in order yields the exact concatenation of the inputs, for every initial distribution |

## Left out

- DifferenceCoverRuns.SafeRun: that a run is bound to be right only on safe texts is shown where the recursion string has no two blocks, may be compared by no strict weak order, or is sorted; not where it is sorted wrongly by a strict weak order.
- DifferenceCoverSort.DcRecursive: stated for safe texts; the line above says what is open on others.
- LcpTermination: texts of fewer than two characters, for which the window over two characters emits nothing and the final Zip aborts.
- Packing.BuildAlphabet: an empty text in packed form divides by zero in the program; the packed members ask for a non-empty text.
- PrefixDoublingDiscarding, PrefixQuadrupling and its discarding variant, wavelet trees.
- Machine integers: ranks, counters and positions are unbounded; only the packing model counts bits.
- The choice among equivalent items and the order of items in ReduceToIndex and Sum, which depend on the distribution; any choice satisfies the stated contracts.
- Scheduler.Nodes.RunScope: consume counters, Keep and Dispose, memory limits, exceptions, reference counts and Union nodes; nodes are never destroyed.
- Scheduler.Nodes.PushData: the abort on a consumed node and the distribution of memory among the targets.
- Scheduler.Nodes.RunPushData: consume counters; every child is taken to have a callback; the shortcut for nodes none of whose children has one is not modelled.
- OneFactor: group.OneFactorPeer is not part of this model; it is taken to be a symmetric matching in every round. The final AllReduce and the reset between outer repeats are not modelled.
- Select.SelectReturns: that sampled pivots are not extreme, which is only likely; the sampling and its floating-point arithmetic.
- Concat.SharesAreConcatenation: the computation of the global ranks by net.PrefixSum, which is not part of this model; the split limits are exact floors instead of products of doubles.
- PushFile.Receivers.PushFile: copying, consuming and clearing of files and blocks.
- Parsing of input files, output of results, logging, timers, and the double-sweep diameter.
