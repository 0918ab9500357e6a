# Pattern matching and worker pool of the media server

The media server recognises user agents by regular expressions (`src/Utils/utils.cpp`). The expressions are compiled
by the automaton library in `dep/pire/pire`; work is spread over threads by `dep/threadpool11`. This project models
both and proves what they promise.

* **Automata.** A machine under construction (`FiniteStateMachine.Fsm`) is a mutable transition table with epsilon
  steps, letter classes and a hint. `Value()` is the automaton it stands for; every operation is proved against the
  set of accepted words (`Automaton.Accepts`). The fast forms follow: epsilon removal by a Floyd-Warshall loop,
  determination by breadth-first search over subsets with a cut-off, minimization by partition refinement, and a
  canonical form that is the smallest and unique up to the names of states.
* **Partitions and exploration.** `Partitions.Partition` splits classes in place while walking them;
  `Determination.Determine` explores any automaton given by its steps, within a budget. Both serve several clients.
* **Scanners.** `Scanners.Scanner` packs a canonical machine into a table, with lists of accepted regexps and exit
  masks. `Glueing.Glue` is the product of two scanners, explored (`PairSearch`) with an open-addressing table
  (`LookupTables`).
  `SlowScanners.SlowScanner` follows a machine that cannot be determined; `SlowSaving` writes and maps it.
* **Runners.** Memory is a sequence of 8-byte words, and a text lies between two byte addresses. `Runners` proves that
  running by words is the byte loop; `FastRunning` skips words by comparing eight bytes at once (`WordMasks`, on 64-bit
  vectors), and `Skipping` says what such a run computes and when that is the byte loop.
* **UTF-8.** `Encodings` has the decoder, the encoder and the automaton for one rune.
* **Entry points.** `Matching` and `Regexps` join everything: pattern in, answer out.
* **Worker pool.** `ThreadPool` is a state machine whose steps are the single shared accesses of workers and callers
  of `push`, with spurious wake-ups and workers created at any time; its theorems speak of every interleaving.
  `PoolRest` proves that the pool can always come to rest, and what has been done by then.

## Assumptions

* Outputs and tags of machines are empty. The alphabet is every index below 264 except epsilon
  (`dep/pire/pire/defs.h:50-60`).
* `Fsm.Valid()` says what the operations rely on and keep: the table is sound, the hint `isAlternative` implies that
  the initial state is not final, has no incoming edges and only epsilon edges out, and the mark `determined` implies
  a complete deterministic table that starts at state 0 and has no unreachable state.
* `+=`, `|=` and `Import` take two different machines: none is combined with itself in place.
* Appending letters needs a machine whose letters are not classed; every machine built by appending, `+=` and `|=`
  is one.

## Findings: where the code differs from its documentation or from what one expects

* `a += b` is concatenation exactly if the initial state of `b` is not final, or `b` accepts the empty word by leaving it,
  or `a` accepts nothing: the final states of `a` are dropped (`RegularLanguages.AppendedExactly`). Appending a fresh
  machine, which accepts the empty word, empties any language (`RegularLanguages.FreshIsLost`).
* `a * n` rests on `+=`: it means n times `a` exactly if n is 0 or `a` is a machine that can be appended
  (`FiniteStateMachine.Fsm.Repeat`). A fresh machine taken once accepts nothing.
* `RemoveDeadEnds`, and with it `MakePrefix`, keeps the mark `determined` although the table is no longer complete
  exactly if some word cannot be continued to an accepted one.
  `FiniteStateMachine.MarkOutlivesTable` shows it on the machine for one letter.
* `&=` leaves the machine half changed when it fails: `FiniteStateMachine.Fsm.Intersect` says which language it then has.
* `Minimize` assigns a representative where an index is meant (`dep/pire/pire/fsm.cpp:1170`). That is right exactly where
  both are equal (`Minimality.OnlyTheIndexFits`); they are, both 0, for the initial state 0 that determining establishes.
* The comment at `dep/pire/pire/scanners/multi.h:55-58` promises transition tables of up to 4 GB; the shifts are
  sign-extended, so `Relocation.TableLimit` gives 2 GB.
* `GluedStateLookupTable::Search` returns -1 when all slots it visits hold other keys, and its callers index with that.
  It happens only for a key that is not stored, with at most one slot free, and always with none free
  (`LookupTables.WhenExhausted`). `Glue` gets there only with a limit of at least 262142 new states and scanners that meet
  in more than 262142 pairs, and surely with a limit of at least 262143 and more than 262144 pairs; in between the hash
  decides. The default limit of 80000 is safe (`Glueing.Glue`).
* `LongestPrefix` with exit masks misses positions: its predicate is not asked inside skipped words. It is right for all
  texts and alignments exactly if every final state that bytes lead to is never left or has too many exits for a shortcut
  (`FastRunning.LongestPrefixIsExact`); `Skipping.MissedPrefix` is one text.
* `are_all_really_finished_` can be set while work is left (`ThreadPool.FinishedFlagMayBeWrong`): `push` clears it before
  it takes the mutex, and a worker that has been created but not yet counted as active can take an item while another
  decides. `ThreadPool.FinishedFlagExactly` says exactly when the flag tells the truth, `ThreadPool.FlagWasSet` how it
  came to be set, and `PoolRest.RestIsFinished` that once the pool is at rest with nothing queued it is set and right.
* `ToLocal` pads the encoding of a rune above 0x1FFFFF with blanks; `Encodings.ToLocalReadsBack` proves where it stops
  being invertible.

## Model

| member | source | states |
|---|---|---|
| `Matching.CompileAndMatch` | src/Utils/utils.cpp:19-40 | from parsed pattern to answer, for every text at any alignment in memory: the answer is yes exactly if begin mark, text and end mark together contain a part in the language of the pattern; there is an answer exactly if the pattern, with anything before and behind it, visits no more than 200001 subsets, and always if it has at most 15 states |
| `Matching.AcceptedIn` | dep/pire/pire/scanners/multi.h:144-153 | after a marked text the scanner glued from surrounded patterns lists, in ascending order, exactly the numbers of the patterns that occur in the text |
| `Matching.GluedPatterns` | dep/pire/pire/scanners/multi.h:1075-1086 | glueing scanners of two lists of surrounded patterns gives one for the joined list |
| `Matching.SmallCompiles` | dep/pire/pire/fsm.cpp:1016-1034 | a pattern of at most 15 states always compiles within the limit |
| `Matching.CompileRegexp` | src/Utils/utils.cpp:19-31 | after surrounding and compiling, the scanner is final after a word exactly if some part of the word is in the language the machine had before; compiling fails exactly if more than 200001 subsets are visited, so never for a machine of at most 15 states; the scanner recognises the one surrounded pattern |
| `Matching.Matches` | src/Utils/utils.cpp:33-40 | steps over the begin mark, the text (with skipping) and the end mark, and tells whether the pattern occurs |
| `Matching.RunMarks` | dep/pire/pire/run.h:334-354 | the state after the marked text is that of the byte-by-byte run of the automaton |
| `Regexps.CompileAndMatch` | dep/pire/pire/easy.h:159-165 | the same answer through the easy interface, whether the fast or the slow scanner had to be used |
| `Regexps.Regexp.Matches` | dep/pire/pire/easy.h:159-165 | either scanner answers whether the marked text is in the language the pattern was compiled to |
| `Regexps.BuildScanners` | dep/pire/pire/easy.h:202-219 | exactly one scanner is built, both decide the same language: the fast one exactly if no more than 200001 subsets are visited (so for up to 15 states), else the slow one |
| `Regexps.BeginsWithCircumflex` | dep/pire/pire/easy.h:221-247 | true exactly if every state reached silently from the initial one is left only silently or by the begin mark |
| `Regexps.CircumflexSpelled` | dep/pire/pire/easy.h:221-247 | the condition letter by letter: what is kept for such a state leads on by epsilon or the mark, 257 or 258 |
| `Regexps.OnlyMarkStarts` | dep/pire/pire/easy.h:221-247 | then every accepted word is empty or begins with a mark, for which the begin mark would do as well, whatever letters share its class |
| `Regexps.FactorIsPrefix` | dep/pire/pire/easy.h:202-219 | so leaving out the leading loop loses nothing: in a marked text such a word occurs at the beginning or nowhere |
| `FiniteStateMachine.Fsm.RemoveEpsilons` | dep/pire/pire/fsm.cpp:785-823 | the machine becomes the epsilon-free machine of the old one: every state takes over exactly the letters and the finality of all states it reaches silently; letters are classed by equal columns |
| `EpsilonRemoval.EpsilonFreeLanguage` | dep/pire/pire/fsm.cpp:785-823 | that machine accepts the same words and has no epsilon edge |
| `FiniteStateMachine.Fsm.CloseEpsilons` | dep/pire/pire/fsm.cpp:797-803 | the in-place Floyd-Warshall loop ends with a transitive relation that holds all old epsilon steps and only silent connections, and touches no other letter |
| `FiniteStateMachine.Fsm.ShortCutEpsilon` | dep/pire/pire/fsm.cpp:768-781 | gives one state exactly the epsilon targets of another and keeps the inverse map in step |
| `EpsilonRemoval.ClosureIsSilent` | dep/pire/pire/fsm.cpp:785-806 | such a relation is exactly the silent connection of the edges |
| `FiniteStateMachine.Fsm.MergeEpsilons` | dep/pire/pire/fsm.cpp:807-813 | merging in state order, over rows already merged into, gives each state exactly what it reaches silently |
| `FiniteStateMachine.Fsm.MergeEpsilonConnection` | dep/pire/pire/fsm.cpp:715-762 | adds exactly the targets of one row to another, letter by letter, and its finality |
| `FiniteStateMachine.Fsm.DropEpsilons` | dep/pire/pire/fsm.cpp:817-819 | removes exactly the epsilon entries |
| `Closure.EpsilonsRemoved` | dep/pire/pire/fsm.cpp:785-823 | closing, merging and dropping together give the epsilon-free machine |
| `FiniteStateMachine.Fsm.Sparse` | dep/pire/pire/fsm.cpp:839-848 | classes all letters but epsilon; letters of one class have equal columns |
| `Letters.LettersEqualByColumn` | dep/pire/pire/fsm.cpp:825-837 | two letters are not told apart by any row exactly if their columns are equal |
| `FiniteStateMachine.Fsm.Unsparse` | dep/pire/pire/fsm.cpp:850-857 | every letter gets the targets kept under its representative |
| `Determination.Determine` | dep/pire/pire/determine.h:91-138 | on success the states are pairwise distinct, start with the initial one, are exactly the reachable ones and at most maxSize + 1, and every required state is connected once on every class to the index of its successor; on failure there are maxSize + 2 distinct reachable states |
| `FiniteStateMachine.Fsm.Determine` | dep/pire/pire/fsm.cpp:1016-1034 | same language; it succeeds exactly if the machine is determined already or the subsets visited without its epsilons are no more than limit + 1, which is 200001 where no limit is given; on success a complete deterministic machine without unreachable states and at most limit + 1 states; on failure only the epsilons are gone |
| `Deterministic.SubsetLanguage` | dep/pire/pire/fsm.cpp:877-1013 | a subset construction that never follows subsets with a terminal state but lets them loop accepts the same words |
| `FiniteStateMachine.Fsm.TerminalStates` | dep/pire/pire/fsm.cpp:861-874 | exactly the final states that step to themselves on every class letter |
| `FiniteStateMachine.Fsm.AcceptStates` | dep/pire/pire/fsm.cpp:916-974 | subsets with a terminal state, and no others, loop on all class letters; subsets with a final state, and no others, are final |
| `FiniteStateMachine.SubsetsDetermine` | dep/pire/pire/fsm.cpp:911-1013 | the table filled from states and connections is deterministic, complete, has no unreachable state and keeps the language |
| `SubsetTables.NextSubsetIsStep` | dep/pire/pire/fsm.cpp:897-909 | the successor of a subset is exactly the set of states some member steps to |
| `VisitedSubsets.ReachableIsVisited` | dep/pire/pire/determine.h:107-124 | the exploration over letter classes reaches exactly the subsets that words lead to, out of subsets without a terminal state |
| `VisitedSubsets.OneSubset` | dep/pire/pire/fsm.cpp:890-898 | determination ends with its first subset exactly if every letter leads back to it or the initial state is final and loops on every letter |
| `VisitedSubsets.SmallFits` | dep/pire/pire/fsm.cpp:1016-1034 | a machine never needs more subsets than two to the number of its states |
| `FiniteStateMachine.Fsm.Minimize` | dep/pire/pire/fsm.cpp:1095-1179 | two states are merged exactly if they accept the same words; the language is kept, no equivalent states remain, the size does not grow and at most Size() rounds are made |
| `FiniteStateMachine.Fsm.RefineStates` | dep/pire/pire/fsm.cpp:1117-1133 | the classes reached tell final states apart, are stable under every letter and never separate equivalent states |
| `Moore.RefinementIsStable` | dep/pire/pire/fsm.cpp:1043-1078 | a round that changes nothing leaves a partition that every letter respects |
| `Moore.RefinementKeeps` | dep/pire/pire/fsm.cpp:1043-1078 | a round never separates equivalent states |
| `Moore.StableIsEquivalence` | dep/pire/pire/fsm.cpp:1043-1133 | a stable partition that tells final states apart joins only equivalent states |
| `Moore.MinimizeEqualByKey` | dep/pire/pire/fsm.cpp:1051-1063 | the comparison of two states is equality of what is tabulated for them |
| `FiniteStateMachine.UpdateStateClassMap` | dep/pire/pire/fsm.cpp:1081-1093 | the map becomes that of the representatives, and a change is reported exactly if there is one |
| `FiniteStateMachine.Fsm.UniteClasses` | dep/pire/pire/fsm.cpp:1135-1170 | the new machine is the quotient of the old one by the class numbers |
| `Minimality.QuotientAccepts` | dep/pire/pire/fsm.cpp:1095-1179 | a state of the quotient accepts what its members accept |
| `Minimality.OnlyTheIndexFits` | dep/pire/pire/fsm.cpp:1170-1170 | a state of the quotient can stand for a state exactly if it is the index of its class, so assigning a representative is right exactly where it equals the index |
| `Minimality.ReducedIsSmallest` | dep/pire/pire/fsm.cpp:1095-1179 | no complete deterministic machine for the language is smaller |
| `Minimality.ReducedIsUnique` | dep/pire/pire/fsm.cpp:1181-1189 | and any other of that kind is the same up to the names of states |
| `FiniteStateMachine.Fsm.Canonize` | dep/pire/pire/fsm.cpp:1181-1189 | same language; on success deterministic, complete and reduced; it succeeds exactly if determining does, and otherwise only the epsilons are gone |
| `FiniteStateMachine.CanonicalFormIsUnique` | dep/pire/pire/fsm.cpp:1181-1189 | canonical machines for one language are isomorphic |
| `FiniteStateMachine.CanonicalFormIsSmallest` | dep/pire/pire/fsm.cpp:1181-1189 | and have the fewest states |
| `Partitions.Partition.Append` | dep/pire/pire/partition.h:143-160 | the item joins the class with its key, or a new class of its own with the next number; nothing else changes |
| `Partitions.Partition.Split` | dep/pire/pire/partition.h:117-134 | by a finer relation: exactly its classes, keyed by their first items, with indices still a bijection; classes that stay keep key and index |
| `Partitions.Partition.MoveUnlike` | dep/pire/pire/partition.h:123-133 | the unlike items of a class are moved to new classes, numbered after the existing ones |
| `Partitions.RepresentativeAndIndex` | dep/pire/pire/partition.h:69-111 | representatives and indices coincide exactly for equivalent items; an item is equivalent to its representative, which is the first item of its class |
| `Partitions.IndexIsOnto` | dep/pire/pire/partition.h:86-99 | every number below the size is the index of some class |
| `Partitions.Regroup` | dep/pire/pire/partition.h:121-124 | the like items come first, and the first item stays first |
| `FiniteStateMachine.Fsm.Import` | dep/pire/pire/fsm.cpp:379-429 | the states of the other machine are added behind with all their edges, whichever of the two tables is kept by representatives only |
| `FiniteStateMachine.Fsm.Concatenate` | dep/pire/pire/fsm.cpp:471-498 | the concatenation, exactly if the right-hand machine does not accept the empty word merely by starting in a final state, or the left-hand one accepts nothing |
| `RegularLanguages.AppendedExactly` | dep/pire/pire/fsm.cpp:471-498 | that condition is exact for every pair of machines: otherwise a shortest word of the left-hand language is lost |
| `FiniteStateMachine.Fsm.Alternate` | dep/pire/pire/fsm.cpp:500-529 | the union, through each of the four branches; afterwards the hint holds |
| `RegularLanguages.JoinedLanguage` | dep/pire/pire/fsm.cpp:510-524 | all four ways of joining accept exactly the union and make the hint true |
| `FiniteStateMachine.Fsm.AdoptAlternatives` | dep/pire/pire/fsm.cpp:519-524 | moves the alternatives of an imported union to the own initial state |
| `RegularLanguages.FreshIsLost` | dep/pire/pire/fsm.cpp:489-491 | appending a fresh machine, which accepts the empty word in its initial state, leaves nothing of any language |
| `FiniteStateMachine.Fsm.Iterate` | dep/pire/pire/fsm.cpp:541-559 | the Kleene star |
| `RegularLanguages.StarLanguage` | dep/pire/pire/fsm.cpp:541-559 | the construction with a new start and end accepts exactly the sequences of accepted words |
| `FiniteStateMachine.Fsm.Complement` | dep/pire/pire/fsm.cpp:561-575 | the complement over all letters but epsilon; it fails exactly if determining does, and then the language is kept |
| `FiniteStateMachine.Fsm.Intersect` | dep/pire/pire/fsm.cpp:531-539 | the intersection, by two complements of a union; exactly which complement fails, and what language the machine is then left with |
| `FiniteStateMachine.Fsm.Repeat` | dep/pire/pire/fsm.cpp:577-583 | count-fold concatenation, exactly if count is 0 or the machine does not accept the empty word merely by starting in a final state |
| `FiniteStateMachine.Fsm.AppendSpecial` | dep/pire/pire/fsm.cpp:300-308 | the accepted words extended by one letter |
| `FiniteStateMachine.Fsm.AppendDot` | dep/pire/pire/fsm.cpp:272-281 | the accepted words extended by any one of the 256 bytes |
| `FiniteStateMachine.Fsm.AppendString` | dep/pire/pire/fsm.cpp:293-298 | the accepted words extended by the string |
| `FiniteStateMachine.Fsm.AppendStrings` | dep/pire/pire/fsm.cpp:310-377 | the accepted words extended by exactly the given strings, sharing common beginnings; refused, unchanged, exactly if one is empty |
| `Appending.TrieReads` | dep/pire/pire/fsm.cpp:316-373 | the trie built leads to its end only along its strings |
| `FiniteStateMachine.Fsm.Surround` | dep/pire/pire/fsm.cpp:1191-1223 | from now on every word with an accepted part is accepted |
| `SurroundingLanguages.SurroundedLanguage` | dep/pire/pire/fsm.cpp:1191-1223 | a loop before and a loop behind accept exactly the words with an accepted part |
| `FiniteStateMachine.Fsm.DeadStates` | dep/pire/pire/fsm.cpp:633-693 | exactly the states not reached from the initial state or from which no final one is reached |
| `DeadEnds.MarkUseful` | dep/pire/pire/fsm.cpp:660-690 | the search takes the mark off exactly the least closed set with the seeds |
| `FiniteStateMachine.Fsm.RemoveDeadEnds` | dep/pire/pire/fsm.cpp:695-711 | same language; a deterministic machine stays complete exactly if no state was dead, that is, if every word can be continued to an accepted one |
| `FiniteStateMachine.MarkOutlivesTable` | dep/pire/pire/fsm.cpp:695-711 | the machine for one letter: determined, minimized and rid of dead ends, it is marked determined but no longer complete |
| `FiniteStateMachine.DeadStatesStopWords` | dep/pire/pire/fsm.cpp:633-693 | a complete deterministic machine has a dead state exactly if some word cannot be continued to an accepted one |
| `FiniteStateMachine.Fsm.MakePrefix` | dep/pire/pire/fsm.cpp:585-592 | exactly the prefixes of accepted words; a deterministic machine stays complete under the same condition |
| `Scanners.Compile` | dep/pire/pire/scanners/multi.h:121-126 | the scanner is final after a word exactly if the machine accepted it before; dead flags mark exactly the states that accept nothing; the tables are complete; the list read after a word is [0] if the machine accepted it and empty otherwise (Recognises) |
| `Scanners.CompiledRecognises` | dep/pire/pire/scanners/multi.h:501-511 | what is listed after every word: the number 0 if the pattern accepts the word, else nothing |
| `Scanners.BuildScanner` | dep/pire/pire/fsm.h:247-267 | the packed table steps like the machine on every letter, with final and dead flags |
| `Scanners.TranslationTable` | dep/pire/pire/scanners/multi.h:356-359 | every letter is translated to the index of its class |
| `Scanners.Scanner.FinishBuild` | dep/pire/pire/scanners/multi.h:501-511 | the list of every final state holds its regexp, the others are empty, and the table is filled to exactly its size |
| `Scanners.FlagListsSize` | dep/pire/pire/scanners/multi.h:344-344 | as many entries as final states plus states are needed |
| `Scanners.Scanner.AcceptedRegexps` | dep/pire/pire/scanners/multi.h:144-153 | walks from the index of the state to the end mark |
| `Scanners.Scanner.BuildShortcuts` | dep/pire/pire/scanners/multi.h:461-498 | every row is marked with exactly the bytes that leave its state, or that there are none, or that they are too many |
| `Shortcuts.ExitsLeave` | dep/pire/pire/scanners/multi.h:465-489 | the bytes collected are exactly those that leave the state, none twice |
| `Shortcuts.ShortcutRow` | dep/pire/pire/scanners/multi.h:472-497 | the masks of one row |
| `Shortcuts.FirstMaskTells` | dep/pire/pire/scanners/multi.h:622-625 | the first mask is the no-exit mark exactly if no byte leaves the state, and the no-shortcut mark exactly if too many do |
| `Shortcuts.EqualMasksAreLast` | dep/pire/pire/scanners/multi.h:648-660 | neighbouring masks are equal exactly behind the last byte, so the comparison may stop there |
| `WordMasks.CheckFindsByte` | dep/pire/pire/platform.h:116-129 | the word-wide comparison is non-zero exactly if some byte equals the byte of the mask |
| `WordMasks.FillSizeT` | dep/pire/pire/platform.h:246-253 | the doubling loop gives eight copies of the byte |
| `WordMasks.FilledIsNoMark` | dep/pire/pire/scanners/multi.h:622-625 | no such word is one of the two marks |
| `Runners.RunChunk` | dep/pire/pire/run.h:109-140 | bytes shifted out of a word register are those of the byte loop, with the same positions passed to the predicate |
| `Runners.DoRun` | dep/pire/pire/run.h:176-217 | for any alignment of start and end: same state, same report, same stop as the byte loop |
| `Runners.ShortestPrefix` | dep/pire/pire/run.h:278-288 | the end of the shortest prefix in a final state, or none |
| `Runners.LongestPrefix` | dep/pire/pire/run.h:268-276 | the end of the longest prefix in a final state, or none |
| `FastRunning.RunAligned` | dep/pire/pire/scanners/multi.h:921-983 | word by word, from head to tail, with the steps at once where no byte leaves a state, skips and slow words exactly as Skipping.SkipAligned says |
| `FastRunning.SkipWords` | dep/pire/pire/scanners/multi.h:628-671 | skips only words without a byte that leaves the state, and stops exactly at the first that has one |
| `FastRunning.DoRun` | dep/pire/pire/run.h:176-217 | head, aligned words with skipping, and tail together: what Skipping.SkipRun says |
| `FastRunning.Run` | dep/pire/pire/run.h:262-266 | the state after stepping through every byte |
| `FastRunning.ShortestPrefix` | dep/pire/pire/run.h:278-288 | the end of the shortest prefix, in spite of skipping |
| `Skipping.SkipRunFollows` | dep/pire/pire/scanners/multi.h:921-983 | the run with skipping is the byte loop for every predicate that reports nothing in the states words are skipped in, and of which only the last report counts in a state that is never left |
| `FastRunning.LongestPrefix` | dep/pire/pire/run.h:268-276 | the end of the longest prefix, in spite of skipping, if every final state that bytes lead to is never left or has no shortcut |
| `FastRunning.LongestPrefixIsExact` | dep/pire/pire/scanners/multi.h:962-971 | that condition is exact: otherwise there is a text for which the longest prefix is missed |
| `Skipping.MissedPrefix` | dep/pire/pire/scanners/multi.h:962-971 | one such text: eight bytes in a final state with one exit, of which none is reported |
| `Relocation.TableLimit` | dep/pire/pire/scanners/multi.h:53-65 | all jumps can be stored as 32-bit shifts exactly if first and last row are less than 2 GB apart |
| `Relocation.JumpLeadsBack` | dep/pire/pire/scanners/multi.h:63-64 | a stored jump leads to its target exactly if the distance fits a signed 32-bit number |
| `Glueing.Glue` | dep/pire/pire/scanners/multi.h:1075-1086 | for every word: the regexps of the left scanner and then those of the right one, renumbered, so that number i is listed exactly if pattern i accepts the word; final if either is, dead if both are; an empty operand is neutral; a result exactly if words lead the two scanners to no more than limit + 1 pairs of states, 80001 where no limit is given, and so whenever the product of their sizes is no more; when a search in the lookup table is lost, for which limits and scanners only, and when surely |
| `Glueing.GlueBoth` | dep/pire/pire/scanners/multi.h:1082-1085 | two scanners through the lookup table: a result exactly if they meet in no more than limit + 1 pairs, unless a search is lost; lost only with a limit of two less than the table has slots and more pairs than that, surely with a greater limit and more pairs than slots |
| `PairSearch.DeterminePairs` | dep/pire/pire/determine.h:91-138 | the exploration with its indices in the open-addressing table is the one with a map, unless a search ends at no slot; that needs as many pairs as slots but one, and a limit to allow them |
| `PairSearch.ExplorePairs` | dep/pire/pire/determine.h:107-124 | what is stored is exactly the index of every pair found, under the addresses of its rows |
| `Glueing.ManyPairs` | dep/pire/pire/scanners/multi.h:1075-1086 | scanners can meet in any number of pairs, so a limit above the size of the table can be too much for it |
| `Glueing.GluedRecognises` | dep/pire/pire/scanners/multi.h:1005-1041 | if the two scanners list the patterns that accept a word, the glued one lists those of both, the right ones counted on from the left |
| `Glueing.NoMoreThanProduct` | dep/pire/pire/scanners/multi.h:1082-1085 | scanners meet in no more pairs than the product of their sizes |
| `Glueing.GluedRun` | dep/pire/pire/glue.h:142-147 | running the glued scanner runs both |
| `Glueing.AcceptStates` | dep/pire/pire/scanners/multi.h:1005-1024 | the table of lists is sized and filled exactly |
| `Glueing.ConnectCalls` | dep/pire/pire/scanners/multi.h:1026-1026 | every connection found is in the table |
| `Glueing.GluedAnswers` | dep/pire/pire/scanners/multi.h:989-1048 | the glued scanner is complete and answers for both |
| `LookupTables.GluedStateLookupTable.Search` | dep/pire/pire/glue.h:96-104 | ends at the slot of the key or the free slot where it belongs; at none exactly if all other slots of the round hold other keys |
| `LookupTables.GluedStateLookupTable.Find` | dep/pire/pire/glue.h:80-83 | the stored value, or nothing, unless the search ends at no slot: never while two slots are free or the key is stored, always when the table is full and the key is not stored |
| `LookupTables.GluedStateLookupTable.Insert` | dep/pire/pire/glue.h:85-93 | stores a new key, refuses one that is present, unless the search ends at no slot |
| `LookupTables.FoundMeansPresence` | dep/pire/pire/glue.h:80-104 | where a search ends tells whether the key is stored, and with which value |
| `LookupTables.InsertKeeps` | dep/pire/pire/glue.h:85-93 | filling the free slot found disturbs no other search |
| `LookupTables.ExhaustedIsFull` | dep/pire/pire/glue.h:96-104 | a search that finds nothing has a table with at most one free slot |
| `LookupTables.WhenExhausted` | dep/pire/pire/glue.h:96-104 | a search ends at no slot only for a key that is not stored and with at most one slot free; with none free it always does |
| `SlowScanners.SlowScanner.Next` | dep/pire/pire/scanners/slow.h:90-118 | exactly the states some current state leads to, each listed once and marked |
| `SlowScanners.Run` | dep/pire/pire/scanners/slow.h:346-360 | with two lists changing roles: the set of states reached after the text |
| `SlowScanners.ReachedFinal` | dep/pire/pire/scanners/slow.h:130-136 | after any word the list holds exactly the states reached, and a final one exactly if the word is accepted |
| `SlowScanners.CompileSlow` | dep/pire/pire/scanners/slow.h:222-245 | the cells hold exactly the edges of the epsilon-free machine, which keeps the language |
| `SlowSaving.Save` | dep/pire/pire/scanner_io.cpp:70-100 | the stream holds header, tables, prefix sums and flattened cells |
| `SlowSaving.Load` | dep/pire/pire/scanner_io.cpp:102-142 | reading back what was saved gives the same scanner |
| `SlowSaving.Mmap` | dep/pire/pire/scanners/slow.h:151-178 | mapping what was saved gives a scanner with the same list in every cell |
| `SlowSaving.CutGivesCell` | dep/pire/pire/scanner_io.cpp:83-97 | cutting the flat list at the prefix sums gives every cell back |
| `SlowSaving.MappedFollows` | dep/pire/pire/scanners/slow.h:98-107 | a mapped scanner steps like the one that was saved |
| `Encodings.DecodeEncoded` | dep/pire/pire/stub/codepage_h.h:236-330 | decoding the encodings of any sequence of runes below 0x200000 gives the sequence back |
| `Encodings.PutThenRead` | dep/pire/pire/stub/codepage_h.h:259-330 | what is written for a rune is read back, up to the bits that do not fit, whatever follows |
| `Encodings.ToLocal` | dep/pire/pire/encoding.cpp:89-97 | the encoding of the rune, followed by blanks where the announced length is greater |
| `Encodings.ToLocalReadsBack` | dep/pire/pire/encoding.cpp:89-97 | ToLocal is undone by decoding exactly for runes below 0x200000 |
| `Encodings.ReadRune` | dep/pire/pire/stub/codepage_h.h:259-295 | the unrolled decoder gives the rune at the start of the input, or tells that it ends or is broken |
| `Encodings.RuneAtSpelled` | dep/pire/pire/stub/codepage_h.h:259-295 | which byte strings begin with a rune, with which value and length, which end too early and which are broken, byte by byte |
| `Encodings.PutIsShortest` | dep/pire/pire/stub/codepage_h.h:297-330 | what is written for a rune is the shortest byte string that reads as it, and the only one of its length |
| `Encodings.DecodedExactly` | dep/pire/pire/encoding.h:51-59 | a text is decoded exactly if it is a sequence of whole runes, and into these |
| `Encodings.WholeRuneSpelled` | dep/pire/pire/encoding.cpp:99-111 | the byte strings of one rune, by length |
| `Encodings.PutRune` | dep/pire/pire/stub/codepage_h.h:297-330 | writes the bytes of the rune in place, or nothing if there is no room |
| `Encodings.FromLocal` | dep/pire/pire/encoding.h:51-59 | all runes of the input, or the error, if it is not made of runes |
| `Encodings.AppendDot` | dep/pire/pire/encoding.cpp:99-111 | the accepted words extended by exactly the byte strings that are read as one whole rune |
| `ThreadPool.NoLostWakeUp` | dep/threadpool11/threadpool11/src/worker.cpp:34-75 | unless a call of push holds the mutex, a blocked worker that has not been notified leaves at least as many awake workers, not about to end, as there are queued items |
| `ThreadPool.SizeCoversQueue` | dep/threadpool11/threadpool11/src/pool.cpp:90-97 | work_queue_size_ is the queue length plus the items just taken or just announced; the counters of active workers and of workers are exact |
| `ThreadPool.EveryItemOnce` | dep/threadpool11/threadpool11/src/pool.cpp:90-97 | each posted item is in exactly one place: with its call of push, queued, with a worker, or done |
| `ThreadPool.WorkIsServed` | dep/threadpool11/threadpool11/src/worker.cpp:34-75 | from any reachable state with queued work, steps of the threads there are lead to the first item being taken, exactly if some worker is awake and has taken no TERMINAL item, or is blocked |
| `ThreadPool.MutexExcludes` | dep/threadpool11/threadpool11/src/worker.cpp:52-73 | at most one thread is between locking and unlocking the signal mutex |
| `ThreadPool.RunsKeep` | dep/threadpool11/threadpool11/src/worker.cpp:34-75 | the invariant behind these holds in every state of every interleaving |
| `ThreadPool.FinishedFlagExactly` | dep/threadpool11/threadpool11/src/worker.cpp:59-64 | from its setting to the next call of push the flag stays set; in that time the queue stays empty exactly if no push waited for the mutex at the setting, and all items posted have been run exactly if no worker was running one either |
| `ThreadPool.LastActiveExactly` | dep/threadpool11/threadpool11/src/worker.cpp:59-59 | a worker that counts itself inactive goes on to read the size exactly if no worker is counted active then |
| `ThreadPool.FinishingExactly` | dep/threadpool11/threadpool11/src/worker.cpp:59-59 | and goes on to set the flag exactly if nothing is queued and no worker has just taken an item |
| `ThreadPool.FlagWasSet` | dep/threadpool11/threadpool11/src/worker.cpp:59-64 | whenever the flag is set and something has been posted: some worker was the last active one when it counted itself out, later saw nothing queued or taken, later set the flag, and nothing has been posted since |
| `ThreadPool.OnlyPostClears` | dep/threadpool11/threadpool11/src/pool.cpp:91-91 | every call of push clears the flag, and no other step does |
| `ThreadPool.OnlyFinishingSets` | dep/threadpool11/threadpool11/src/worker.cpp:59-64 | the flag is set only by the worker that has passed both tests |
| `PoolRest.ComesToRest` | dep/threadpool11/threadpool11/src/worker.cpp:34-75 | from every reachable state the threads can come to rest without another push: every call returned, every worker blocked or gone |
| `PoolRest.RestIsDeadEnd` | dep/threadpool11/threadpool11/src/worker.cpp:34-75 | no thread can take a step exactly when the pool is at rest: there is no other deadlock |
| `PoolRest.RestIsFinished` | dep/threadpool11/threadpool11/src/worker.cpp:59-73 | at rest every posted item has been run exactly if nothing is queued, and then the flag is set, so waitAll returns; something can be queued only if all workers are gone |
| `PoolRest.PostedKeepsKind` | dep/threadpool11/threadpool11/src/pool.cpp:65-97 | a posted item keeps its kind wherever it goes, and is in exactly one place |
| `PoolRest.TerminalEnds` | dep/threadpool11/threadpool11/src/worker.cpp:66-70 | a worker that takes a TERMINAL item runs it, takes no other whatever happens, and can come to its end |
| `ThreadPool.FinishedFlagMayBeWrong` | dep/threadpool11/threadpool11/src/worker.cpp:59-64 | two interleavings: the flag is set while an item is queued, and while an item runs whose push has returned |

## Left out

- Outputs, tags and actions of machines, and the capturing and counting scanners: their meaning is not stated in the repository.
- The lexer and its features (case insensitivity, Unicode tables): the parsed machine is an arbitrary input.
- `Fsm::Reverse`, `MakeSuffix`, `Divert` and printing: `Reverse` keeps state 0 final from its constructor, the others add nothing harder.
- Subset states are sets, where the code sorts vectors and removes duplicates; ordered containers are walked by taking the least element.
- `Partition` compares items by a table of keys instead of a functor that points into the machine; equality of keys is proved to be the functor's comparison for letters and for states.
- Layout of the scanner buffer: fields are sequences and states are indices, so alignment, padding, sharing of the empty scanner, `Swap`, copying between relocation strategies, and saving or mapping the packed scanner are not modelled; `Relocation` covers stored jumps alone.
- SSE2 and MMX comparisons: a machine word is one or two 8-byte chunks compared by the basic instruction set.
- The overload of the generic runner that leaves out the predicate, runs of two scanners at once and runs in reverse direction.
- Padding, header signatures and byte widths in streams: a stream is a sequence of numbers.
- FiniteStateMachine.Fsm.Minimize: required on a machine that satisfies `Valid()`, so the initial state is 0 and the table complete, as determining leaves them; `Minimality.OnlyTheIndexFits` says what the assignment of a representative does elsewhere.
- What the code does after a search that ends at no slot: `Glue` reports the loss.
- Sizes are unbounded numbers except where widths matter: bytes, 64-bit words and masks, and 32-bit shifts.
- In the pool, the lock-free queue and the condition variable are atomic primitives, a callable is its kind, and counters do not wrap around.
- `waitAll` and joining themselves, and the mutex that guards only them.
- UPnP, HTTP, file loading, GUID generation and string trimming: input and output, or plain plumbing.
