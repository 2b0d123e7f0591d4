# The input decoding of Rime, modelled in Dafny

The files model how Rime turns keystrokes into text: the syllable graph, the dictionary compiler and the lookup
structures behind it, the composition that is being edited, the menu of candidates, and the codecs that all of this
rests on. Code that works in place is modelled in place: classes with the fields of the source, methods with its loops.
Each such method is proved against functions and predicates about its state, and the promises of the source are proved
about those.

- **Syllable graph** (`SyllableGraph`, `Exploration`, `Pruning`, `PruningTheorem`, `Marking`, `Completion`,
  `Syllabifier`). A priority queue explores every way to cut the input, a backward pass prunes the graph and marks
  ambiguous joints, what is left of the input is completed, and the graph is indexed by syllable. Exploration computes
  minimax types; pruning leaves exactly the union of the allowed paths; queries on the index answer about walks in the
  graph.
- **Spelling algebra and dictionary compiler** (`Algebra`, `Calculus`, `PrismImage`, `Prism`, `ExpandSearch`,
  `PhraseEncoding`, `EntryCollector`, `Vocabulary`, `DictEntryIterator`). A projected script is exactly the summary of
  all rewrite chains; the prism refines the script; the breadth-first search lists keys by length; encoding enumerates
  every split of a phrase once; the vocabulary refines a flat map; the iterator is a merge.
- **The pipeline** (`Pipeline`). It is proved when exactly the prism that is compiled from a projected syllabary meets
  the condition of the pruning theorem; where it does, that theorem holds from the syllabary to the graph.
- **Composition** (`Segmentation`, `Engine`, `Composition`, `Context`, `Editing`). Over every run of the operations of a context,
  with the engine answering, the segments tile the input before the caret, and what has been selected is left alone
  while the input after it changes.
- **Menu** (`Menu`). Recruiting candidates on demand agrees with recruiting all of them, and pages tile the result.
- **Codecs** (`Utf8Core`, `Utf8Text`, `Utf8Checked`, `Utf8Unchecked`, `KeyEvent`). UTF-8 against RFC 3629, UTF-16
  against RFC 2781, and the written form of key sequences.

Weights and credibilities are reals. Octets, code units and code points are bit vectors, so that shifts, masks and the
wrap-around of the surrogate offset are those of the source. Strings are sequences of characters. Segmentors and
translators, filters, rules of the algebra and the table of key names are arbitrary functions that come in as
parameters; what is asked of them is written in `Engines.WellBehaved` (segmentors add segments within the input,
candidates end after the start of their segment), `Algebras.NonNegative` and `KeyEvents.KeyTable.Consistent`. The
double-array trie is specified by its sorted keys.

Where the code does something other than it seems to promise, the model follows the code:

- If two keys that differ by delimiters at their ends share a syllable but describe it differently, or one key does so
  by itself, an edge keeps only one of the descriptions, so that pruning can lose an allowed spelling and keep a vertex
  that no path leads to (`PruningTheorems.RegularIsNeeded`). No other prism loses anything
  (`PruningTheorems.RegularExactly`).
- A joint can be marked as ambiguous because of a spelling whose start is removed later
  (`Markings.MarkOutlivesSpelling`): if and only if that start is worse than the farthest vertex
  (`Markings.StartSurvivesExactly`, `Markings.MarkIsSupportedExactly`).
- Completing the input goes on for ever if one of the keys found, which are at most the first 512 that go on from what
  is left, has a syllable that is not normal, and only then (`Completions.EndsExactly`, `Completions.Completable`).
- Before a prism is loaded, a search goes on with the letters from a to z only, since building sets no format
  (`Prisms.UnloadedSearchMisses`).
- Building without a script does not reset the spelling map, so an older one goes on to answer; without an older one
  the answers are right (`Prisms.Prism.Build`).
- A projection that deletes every spelling is dropped, and the prism answers as if there were no rules
  (`Pipelines.ChosenAnswersExactly`).
- Confirming an empty segment without candidates is refused, but the segment is marked as selected all the same, which
  is a change unless it was selected before (`Contexts.RefusalChangesNothingExactly`).
- A last page may not be known as the last one if the filter can drop a candidate without a substitute
  (`Menus.LastPageIsKnownExactly`); more than two translations may be merged out of order (`Menus.MergesExactly`).
- Encoding a phrase that is itself a known word learns it again with every code found, which raises what the next code
  needs (`EntryCollectors.AsWordFinds`).
- The checked decoder reports every invalid code point as 0 (`Utf8Checked.Next`), and stepping back passes over stray
  trail octets (`Utf8Checked.StrayIsPassedOver`): just when no character ends at the position
  (`Utf8Checked.EndsExactly`).
- Modifier bits without a name are printed as nothing, so they do not come back (`KeyEvents.RoundTripExactly`).

## Model

| member | source | states |
|---|---|---|
| `SyllableGraphs.StepExactly` | librime/src/algo/syllabifier.cc:46-49 | The steps out of a position are exactly the keys that the input has there, with their ranks |
| `SyllableGraphs.CostExactly` | librime/src/algo/syllabifier.cc:74-77 | The cost of a route is the worst type of its steps, and normal without any |
| `SyllableGraphs.WalkMeetsQueue` | librime/src/algo/syllabifier.cc:31-81 | Every way to cut the input either ends in a settled vertex that is no worse than the way, or has met the queue |
| `SyllableGraphs.FirstIsMinimax` | librime/src/algo/syllabifier.cc:32-41 | The vertex on top of the queue, when it is met for the first time, has as its type the minimum over all routes to it of the worst step of the route |
| `SyllableGraphs.DiscardKeepsExploring` | librime/src/algo/syllabifier.cc:40-41 | Discarding a worse copy of a vertex that has been visited loses no route |
| `SyllableGraphs.VisitKeepsExploring` | librime/src/algo/syllabifier.cc:36-79 | Settling the first vertex and pushing the ends of its steps keeps the exploration invariant |
| `SyllableGraphs.ExploredAll` | librime/src/algo/syllabifier.cc:31-81 | When the queue is empty, exactly the reachable positions have been visited, each with its minimax type |
| `SyllableGraphs.Query.Skip` | librime/src/algo/syllabifier.cc:51-54 | Skipping ends at the end of the input or at a character that is no delimiter, and only delimiters are skipped |
| `Explorations.SkipDelimiters` | librime/src/algo/syllabifier.cc:51-54 | The loop stops at the first position that is no delimiter |
| `Explorations.AddSyllables` | librime/src/algo/syllabifier.cc:57-76 | The edge gets the syllables of the spelling without overwriting those it has, and the best of their types is found |
| `Explorations.Follow` | librime/src/algo/syllabifier.cc:48-78 | One match extends the edge to the position after its delimiters, and queues that position with the worse of the two types |
| `Explorations.Expand` | librime/src/algo/syllabifier.cc:44-80 | Exactly the ends of the steps out of the vertex are queued, and the farthest position is kept up to date |
| `Explorations.Pop` | librime/src/algo/syllabifier.cc:32-33 | The vertex taken is the nearest one, and among those the one with the best type |
| `Explorations.Visit` | librime/src/algo/syllabifier.cc:36-80 | The first visit records the vertex and its edges, and keeps the loop invariant |
| `Explorations.Advance` | librime/src/algo/syllabifier.cc:31-81 | Every turn of the loop keeps the invariant and either visits a new position or shortens the queue |
| `Explorations.Explore` | librime/src/algo/syllabifier.cc:27-81 | The loop terminates; it has visited exactly the reachable positions, with minimax types, with all the edges out of them, and found the farthest |
| `Prunings.CheckOverlappedSpellings` | librime/src/algo/syllabifier.cc:175-198 | Exactly the joints of two edges that together span the given edge are marked as ambiguous, and no edge changes |
| `Prunings.PruneSpellings` | librime/src/algo/syllabifier.cc:100-111 | What is left is the spellings no worse than the type of the farthest vertex; the best of them is normal just when the edge had a normal one |
| `Prunings.PruneEnd` | librime/src/algo/syllabifier.cc:91-119 | One edge is kept, with its allowed spellings, just when it has one and leads to a good position; its joints are marked |
| `Prunings.PruneEnds` | librime/src/algo/syllabifier.cc:91-120 | The edges out of one vertex are pruned in the order of their ends |
| `Prunings.PruneVertex` | librime/src/algo/syllabifier.cc:88-128 | A vertex stays just when it is no worse than the farthest one and has an edge left |
| `Prunings.Prune` | librime/src/algo/syllabifier.cc:83-129 | The backward pass leaves exactly the vertices from which allowed links lead to the farthest position, the allowed spellings between them, and the marks on the joints of overlapped normal spellings, also when the vertex where such an overlap starts is itself removed later |
| `PruningTheorems.ExploredIsForward` | librime/src/algo/syllabifier.cc:42-79 | What exploration gives has forward edges between visited vertices only |
| `PruningTheorems.StepsDiffer` | librime/src/algo/syllabifier.cc:48-57 | If no key contains a delimiter, two spellings of one position never end in the same place |
| `PruningTheorems.StepsAgree` | librime/src/algo/syllabifier.cc:48-73 | If the keys that differ by delimiters at their ends describe the syllables they share in the same way, then so do two spellings that end in the same place |
| `PruningTheorems.InsertedFirst` | librime/src/algo/syllabifier.cc:67 | A syllable that is new to an edge gets the properties of its first entry |
| `PruningTheorems.StepIsOnEdge` | librime/src/algo/syllabifier.cc:57-73 | Under that condition every syllable of a spelling is on the edge with its own properties |
| `PruningTheorems.LinkExactly` | librime/src/algo/syllabifier.cc:96-111 | An allowed edge is an explored one with a spelling no worse than the farthest vertex |
| `PruningTheorems.LinkFromStep` | librime/src/algo/syllabifier.cc:96-111 | An allowed edge always comes from a spelling whose best type is allowed |
| `PruningTheorems.StepGivesLink` | librime/src/algo/syllabifier.cc:96-111 | Then a spelling whose best type is allowed always gives an allowed edge |
| `PruningTheorems.PathSurvives` | librime/src/algo/syllabifier.cc:83-129 | For any prism, no position on an allowed path from the start to the farthest position is lost |
| `PruningTheorems.SurvivorIsOnPath` | librime/src/algo/syllabifier.cc:83-129 | Under the condition every position that survives is on an allowed path from the start to the farthest position |
| `PruningTheorems.VerticesAreUnion` | librime/src/algo/syllabifier.cc:83-129 | The vertices after pruning are the union of the allowed paths; one direction needs no condition, the other that on the prism |
| `PruningTheorems.EdgesAreUnion` | librime/src/algo/syllabifier.cc:83-129 | Under the condition a spelling survives just when it is allowed and both its ends are on allowed paths, and then with unchanged properties |
| `PruningTheorems.PrunedSpelling` | librime/src/algo/syllabifier.cc:91-128 | Which spellings survive, for any prism: those that are allowed, between good positions |
| `PruningTheorems.RegularExactly` | librime/src/algo/syllabifier.cc:48-73 | The condition on the prism holds if and only if, for every input, no edge loses a syllable of a spelling or its properties |
| `PruningTheorems.UndelimitedIsRegular` | librime/src/algo/syllabifier.cc:48-73 | It holds whenever no key contains a delimiter and no spelling describes a syllable in two ways |
| `PruningTheorems.RegularIsNeeded` | librime/src/algo/syllabifier.cc:57-67 | A concrete prism where it does not hold: the second spelling is lost because the map keeps the first, and a vertex survives although no path leads to it |
| `PruningTheorems.ConnectedExactly` | librime/src/algo/syllabifier.cc:83-129 | For any prism: a surviving vertex can be reached from the start, and reaches the farthest position, over the surviving edges just when it is on an allowed path |
| `PruningTheorems.SurvivorsAreConnected` | librime/src/algo/syllabifier.cc:83-129 | Under the condition every surviving vertex can be reached from the start and reaches the farthest position inside the pruned graph |
| `Markings.AmbiguousExactly` | librime/src/algo/syllabifier.cc:113-116 | A surviving joint is ambiguous just when it was so before, or a normal spelling that it joins marks it |
| `Markings.OverlapExactly` | librime/src/algo/syllabifier.cc:91-116 | A spelling marks a surviving joint just when it is normal, allowed spellings lead from its start to the joint and on to its end, and the end survives |
| `Markings.StartSurvivesExactly` | librime/src/algo/syllabifier.cc:113-124 | The start of a spelling that marks a joint survives if and only if it is no worse than the farthest vertex |
| `Markings.MarkIsSupportedExactly` | librime/src/algo/syllabifier.cc:113-124 | So a marked joint has a marking spelling whose start survives if and only if the start of some marking spelling is no worse than the farthest vertex |
| `Markings.MarkOutlivesSpelling` | librime/src/algo/syllabifier.cc:116-126 | An explored graph where a joint is marked because of a normal spelling whose start is removed afterwards |
| `Syllabifiers.IndexEdge` | librime/src/algo/syllabifier.cc:203-208 | One more edge extends the index by exactly its syllables |
| `Syllabifiers.IndexVertex` | librime/src/algo/syllabifier.cc:202-208 | The index of a position lists, for each syllable, the edges that it is on, the farthest first |
| `Syllabifiers.Transpose` | librime/src/algo/syllabifier.cc:200-210 | The index covers exactly the edges, position by position |
| `Syllabifiers.ListedExactly` | librime/src/algo/syllabifier.cc:203-208 | A way to go on is listed for a syllable just when an edge has that syllable |
| `Syllabifiers.ListedDescends` | librime/src/algo/syllabifier.cc:202-208 | They are listed by their ends, the farthest first |
| `Syllabifiers.BuildSyllableGraph` | librime/src/algo/syllabifier.cc:23-173 | For an empty input nothing changes; otherwise the graph is the pruned form of a full exploration, with one more edge if there is something to complete, transposed, and the result is the position that has been interpreted |
| `Syllabifiers.PrunedIsLabelled` | librime/src/algo/syllabifier.cc:64-67 | Every spelling in the pruned graph carries the end of its own edge |
| `Syllabifiers.CompletedIsLabelled` | librime/src/algo/syllabifier.cc:152-155 | And so does every completion |
| `Completions.EndsExactly` | librime/src/algo/syllabifier.cc:148-158 | The loop over the syllables of a completed spelling ends if and only if all of them are normal, since it does not move on from one that is not |
| `Completions.CompleteSpelling` | librime/src/algo/syllabifier.cc:148-158 | If they are, all of them are added as completions |
| `Completions.CompletedExactly` | librime/src/algo/syllabifier.cc:140-159 | The new edge has exactly the syllables of the keys found |
| `Completions.CompletedWorth` | librime/src/algo/syllabifier.cc:151-155 | Each as a completion up to the end of the input, half as credible as in one of those keys |
| `Completions.NoneTooShort` | librime/src/algo/syllabifier.cc:141 | No key found is shorter than what is left of the input |
| `Completions.Complete` | librime/src/algo/syllabifier.cc:131-163 | What is left of the input is looked up, and only if a key goes on from it one edge is added, from the farthest position to the end of the input; the search that is asked gives the first 512 keys, the shortest first |
| `Completions.CompletesKeys` | librime/src/algo/syllabifier.cc:131-159 | Every completion is a syllable of a key that begins with what is left of the input |
| `Completions.KeysAreCompleted` | librime/src/algo/syllabifier.cc:131-159 | Every syllable of every such key is a completion, if less than 512 keys are found |
| `Completions.CompletionAddsOne` | librime/src/algo/syllabifier.cc:139-143 | No other edge changes |
| `Syllabifiers.StepsAreEdges` | librime/src/algo/syllabifier.cc:200-210 | The ways listed for a position and a syllable are precisely the edges that the syllable spells from there |
| `Syllabifiers.MatchExtraCode` | librime/src/dict/dictionary.cc:42-63 | The result is the greatest end of a walk over the edges that spells the rest of the code, and 0 just when there is no such walk |
| `Algebras.Find` | librime/src/algo/algebra.cc:38 | The first entry for a syllable, or the end of the list |
| `Algebras.FindSpelling` | librime/src/algo/algebra.cc:38 | The search loop finds that entry |
| `Algebras.Script.AddSyllable` | librime/src/algo/algebra.cc:16-22 | A syllable that is there already changes nothing; a new one gets itself as its only entry, normal and fully credible |
| `Algebras.MergeEntry` | librime/src/algo/algebra.cc:28-49 | One entry is appended, or improves the one with the same syllable in each component by itself |
| `Algebras.Script.Merge` | librime/src/algo/algebra.cc:24-51 | All entries are merged in order into the list of the spelling, and no other list changes |
| `Algebras.MergeOneEntry` | librime/src/algo/algebra.cc:38-48 | Merging touches the entry of that syllable only, with the better type and the greater credibility |
| `Algebras.MergeAllSummarizes` | librime/src/algo/algebra.cc:24-51 | After merging, the entry of a syllable is the least type and the greatest credibility of all that has been merged for it |
| `Algebras.MergeAllDistinct` | librime/src/algo/algebra.cc:24-51 | No list ever holds a syllable twice |
| `Algebras.MergeAllKeepsOrder` | librime/src/algo/algebra.cc:38-49 | Entries that are there stay in their places, and new ones come behind them |
| `Algebras.RewriteOneSummarizes` | librime/src/algo/algebra.cc:117-139 | What one spelling of the old script adds to the new one: its entries as they are, those of the rewritten spelling, or both, as the flags of the rule say |
| `Algebras.MovedExactly` | librime/src/algo/algebra.cc:128-138 | That is, the entries as they are if the rule does not match or does not delete, and those with the worse type and the product of the credibilities where it adds what it makes |
| `Algebras.RoundNext` | librime/src/algo/algebra.cc:117-139 | Handling the spellings of a round in any order keeps the round invariant |
| `Algebras.ApplyRule` | librime/src/algo/algebra.cc:116-140 | One round gives the script that the moves of the rule describe: the spellings that the rule does not match, or does not delete, and those that it adds; and tells whether the rule applied anywhere |
| `Algebras.ExactAtStart` | librime/src/algo/algebra.cc:113 | Before the first rule the script is exact |
| `Algebras.ExactNext` | librime/src/algo/algebra.cc:113-141 | One round takes the exact script for some rules to the exact script for one rule more |
| `Algebras.ChainCovered` | librime/src/algo/algebra.cc:117-139 | No rewrite chain does better than the entry |
| `Algebras.ChainsNextExactly` | librime/src/algo/algebra.cc:117-139 | What one more rule does to the rewrite chains, in terms of what it matches, deletes and adds |
| `Algebras.PresentNextExactly` | librime/src/algo/algebra.cc:117-139 | A spelling is in the script after one more rule just when it was there and the rule does not match or does not delete it, or the rule adds it for one that was there |
| `Algebras.DeletedIsGone` | librime/src/algo/algebra.cc:128-134 | What a deleting rule matches is gone, unless the rule makes it anew |
| `Algebras.ContributionAttained` | librime/src/algo/algebra.cc:117-139 | Type and credibility of an entry are each attained by some rewrite chain |
| `Algebras.Projection.Round` | librime/src/algo/algebra.cc:113-141 | A round on the script, in place, keeps it exact |
| `Algebras.Projection.Apply` | librime/src/algo/algebra.cc:108-143 | Afterwards each entry has the least worst type, and the greatest product of credibilities, over all rewrite chains from its syllable to its spelling; the result tells whether any rule has applied to a spelling that was there |
| `Algebras.PresentExactly` | librime/src/algo/algebra.cc:108-143 | A spelling is in the script just when some chain ends there |
| `Algebras.OnlyOriginals` | librime/src/algo/algebra.cc:108-143 | Every entry stands for an original syllable, whatever the rules |
| `Algebras.KeepsOwnSpelling` | librime/src/algo/algebra.cc:129-138 | If no rule deletes and none makes anything more than fully credible, every syllable keeps its own spelling, normal and with credibility 1 |
| `Algebras.OrderDoesNotMatter` | librime/src/algo/algebra.cc:117 | Two scripts that are exact for the same rules have the same spellings and entries, so the order of iteration has no effect |
| `Calculations.NextOf` | librime/src/algo/calculus.cc:56-58 | Reads one code point of a C string by trusting its lead octet; it is 0 where the string ends |
| `Calculations.TextIsReadable` | librime/src/algo/calculus.cc:56-58 | A text can be read in that way, and gives its code points up to the first 0 |
| `Calculations.Parse` | librime/src/algo/calculus.cc:47-67 | There is a map just when both strings have the same number of characters; its images are visible, and valid if the right string is a text |
| `Calculations.PairedMeans` | librime/src/algo/calculus.cc:59 | Of several images for a character the last one holds |
| `Calculations.PairedOnly` | librime/src/algo/calculus.cc:59 | Only characters of the left string have images, and those are the characters in the same place on the right |
| `Calculations.Apply` | librime/src/algo/calculus.cc:69-94 | Either the string becomes the encoding of the pointwise image, or nothing changes and the result is false; the former just when a character has an image and the text fits; all writes are within the 256 octets, and the terminator is where the text ends |
| `Calculations.ImageIsText` | librime/src/algo/calculus.cc:69-94 | The image of a text is a text, which decodes to the image of each of its code points |
| `Calculations.ImageAt` | librime/src/algo/calculus.cc:83-86 | The image has the same length, and each code point is the image of the one in its place |
| `Calculations.ShortTextFits` | librime/src/algo/calculus.cc:79-82 | A text of up to 63 characters is never given up for want of room |
| `Calculations.LongTextDoesNotFit` | librime/src/algo/calculus.cc:79-82 | A text whose image takes more than 253 octets is never changed |
| `Calculations.Assign` | librime/src/algo/calculus.cc:89-91 | Assigning from the buffer takes everything before the first terminator |
| `Calculations.Transform` | librime/src/algo/calculus.cc:111-120 | A spelling is changed just when it is not empty and the replacement differs from it |
| `Calculations.Abbreviate` | librime/src/algo/calculus.cc:174-181 | What is changed becomes an abbreviation with half the credibility |
| `Calculations.AbbreviationMarks` | librime/src/algo/calculus.cc:174-181 | An abbreviation rule keeps every rewrite chain and goes on with each to the shorter spelling, no better than an abbreviation and half as credible; there are no other chains |
| `PrismImages.Image.Rank` | librime/src/dict/prism.cc:235-239 | A key has its place in the sorted keys, anything else -1 |
| `PrismImages.MatchesUpToExact` | librime/src/dict/prism.cc:252-260 | The matches of a string are exactly its prefixes that are keys, with their ranks |
| `Orderings.BeforeExactly` | librime/src/dict/prism.cc:137-141 | Keys are ordered by the first character where they differ, and a beginning of a key comes before it |
| `PrismImages.MatchesAscend` | librime/src/dict/prism.cc:252-260 | The shorter ones come first |
| `PrismImages.Image.Syllables` | librime/src/dict/prism.cc:36-72 | Every spelling yields at least one syllable |
| `Prisms.SpellingAccessor.constructor` | librime/src/dict/prism.cc:36-42 | A new accessor has all the syllables of the spelling before it; without a map or a list, just the number itself |
| `Prisms.SpellingAccessor.Next` | librime/src/dict/prism.cc:44-50 | Moves past one syllable; the answer tells whether that was the last one, and is false for an accessor that was exhausted before |
| `Prisms.Drain` | librime/src/algo/syllabifier.cc:61-72 | Draining an accessor gives all its syllables in order |
| `Prisms.NumberSyllables` | librime/src/dict/prism.cc:194-199 | The number of a syllable is its place in the ordered syllabary |
| `Prisms.BuildSpellingMap` | librime/src/dict/prism.cc:205-230 | The map has, for each spelling in order, its entries in order, with the numbers of their syllables |
| `Prisms.CollectChars` | librime/src/dict/prism.cc:173-176 | Exactly the characters of the keys are collected |
| `Prisms.CopyAscending` | librime/src/dict/prism.cc:177-181 | They are copied in ascending order, each once |
| `Prisms.Prism.Build` | librime/src/dict/prism.cc:121-233 | The keys are the sorted spellings, or the sorted syllables without a script; the alphabet holds every character of a key; the answers are those of what has been compiled if and only if there is a script or there was no spelling map before |
| `Prisms.Prism.Load` | librime/src/dict/prism.cc:74-107 | What has been built comes into use, with the spelling map and the alphabet of the file |
| `Prisms.Prism.GetValue` | librime/src/dict/prism.cc:241-250 | A key is found just when it is one, with its rank |
| `Prisms.Prism.CommonPrefixSearch` | librime/src/dict/prism.cc:252-260 | The matches of the key in the prism: exactly the keys that are prefixes, the shortest first; for an empty key the results are left alone |
| `Prisms.Prism.QuerySpelling` | librime/src/dict/prism.cc:315-317 | The accessor has the syllables of the spelling before it |
| `Prisms.CompiledRefinesScript` | librime/src/dict/prism.cc:121-233 | Looking up a spelling and draining its accessor gives back its list of the script: numbers, types and credibilities in order |
| `Prisms.CompiledKeepsEntries` | librime/src/dict/prism.cc:219-224 | One by one: the type and the credibility of the script, and as the number the place of the syllable in the syllabary |
| `Prisms.OnlyScriptSpellings` | librime/src/dict/prism.cc:241-250 | What is no spelling of the script is not found |
| `Prisms.CompiledWithoutScript` | librime/src/dict/prism.cc:144-149 | Without a script a syllable yields just its own number, which is also the one the table is built with |
| `Prisms.Prism.Expand` | librime/src/dict/prism.cc:262-313 | A search in the prism gives the answer for the alphabet in use: that of the file once it has been loaded, the small letters before |
| `Prisms.LoadedSearchIsComplete` | librime/src/dict/prism.cc:171-182 | In a loaded prism no key that goes on from the prefix is missed for want of a character |
| `Prisms.UnloadedSearchMisses` | librime/src/dict/prism.cc:288 | Before loading, a key is missed just when it goes on with anything but small letters |
| `ExpandSearches.Traverse` | librime/src/dict/prism.cc:269-272 | Tells a key, a path that goes on, and no path from each other |
| `ExpandSearches.Expand` | librime/src/dict/prism.cc:289-311 | Expanding a node queues exactly those children that are paths, in order, and lists those that are keys, until the limit is reached |
| `ExpandSearches.ExpandSearch` | librime/src/dict/prism.cc:262-313 | The search terminates, and lists each wanted key once, with its rank and length, in order of length; under a limit, the first ones of that order |
| `ExpandSearches.AnswerExactly` | librime/src/dict/prism.cc:262-313 | The answer lists keys that begin with the prefix and go on with characters of the alphabet, with their ranks and lengths, and all of them unless it has as many as the limit allows |
| `ExpandSearches.AnswerInOrder` | librime/src/dict/prism.cc:285-312 | The shorter keys come first, and those of one length in lexicographic order |
| `ExpandSearches.CutIsNotShorter` | librime/src/dict/prism.cc:303-310 | What the limit cuts off is not shorter than what is listed |
| `ExpandSearches.NewChildOrdered` | librime/src/dict/prism.cc:289-311 | A new child comes after all nodes seen, and before all children that are yet to come |
| `ExpandSearches.UnseenIsLater` | librime/src/dict/prism.cc:285-312 | A wanted key that has not been seen comes after everything that has been seen, and the queue is not empty |
| `ExpandSearches.FoundIsFirst` | librime/src/dict/prism.cc:273-312 | What has been found is at any time the first part of the answer, and all of it when the queue is empty |
| `ExpandSearches.AnswerIsUnique` | librime/src/dict/prism.cc:262-313 | Any two such answers are the same list, so the answer is determined by the keys, the alphabet, the prefix and the limit |
| `ExpandSearches.ExpandingUsesUp` | librime/src/dict/prism.cc:285-287 | Every node is expanded at most once |
| `Pipelines.CompiledRegularExactly` | librime/src/dict/prism.cc:192-231 | What a projection of a syllabary compiles to meets the condition of the pruning theorem if and only if spellings that differ by delimiters at their ends give the syllables they share the same type and credibility |
| `Pipelines.FreeHasNoClash` | librime/src/algo/algebra.cc:24-51 | That is so whenever no spelling contains a delimiter |
| `Pipelines.CompiledIsRegular` | librime/src/dict/prism.cc:192-231 | So if no spelling contains a delimiter, the condition is met whatever the rules |
| `Algebras.UnfiredScript` | librime/src/algo/algebra.cc:108-143 | If no rule applies to a spelling that is there, the script of a syllabary stays what it was |
| `Pipelines.ChosenAnswersExactly` | librime/src/dict/dict_compiler.cc:450-470 | Whether the script is passed on or dropped, the prism answers as the projected script says if and only if something is left of the script, or there was nothing to begin with |
| `Pipelines.PlainIsRegular` | librime/src/dict/prism.cc:144-149 | Without a script the condition is always met |
| `Pipelines.CompiledGraphIsUnion` | librime/src/algo/syllabifier.cc:83-129 | So for every input, every syllabary and either no script or one that meets the condition, pruning leaves exactly the union of the allowed paths, vertices and spellings |
| `DictEntryIterators.LessIsWeakOrder` | librime/src/dict/dictionary.cc:33-40 | The comparison of chunks is a strict weak order on all chunks, exhausted ones included |
| `DictEntryIterators.LessExactly` | librime/src/dict/dictionary.cc:33-40 | Exhausted chunks come last, the shorter remaining code first, then the greater product of credibility and weight |
| `DictEntryIterators.SortSorts` | librime/src/dict/dictionary.cc:92-94 | Sorting orders the chunks by their heads and loses none |
| `DictEntryIterators.SortPending` | librime/src/dict/dictionary.cc:92-94 | Sorting keeps the entries that are to come |
| `DictEntryIterators.RestExactly` | librime/src/dict/dictionary.cc:96-133 | What is to come from a chunk is each of its entries from the cursor on, once and in order |
| `DictEntryIterators.PendingPush` | librime/src/dict/dictionary.cc:87-90 | A chunk that joins adds what is to come from it |
| `DictEntryIterators.SortStable` | librime/src/dict/dictionary.cc:92-94 | Chunks of which neither comes before the other stay in their order |
| `DictEntryIterators.AdvancedPending` | librime/src/dict/dictionary.cc:118-133 | Moving on takes exactly the head of the first chunk away |
| `DictEntryIterators.FrontIsFirst` | librime/src/dict/dictionary.cc:33-40 | In a sorted list the head of the first chunk comes before everything that is still to come |
| `DictEntryIterators.AdvancedMergeable` | librime/src/dict/dictionary.cc:118-133 | The chunks stay sorted by their heads, although the list is sorted again only if the first chunk survives |
| `DictEntryIterators.SortPrepares` | librime/src/dict/dictionary.cc:92-94 | Any chunks that are not exhausted can be iterated over once they are sorted |
| `DictEntryIterators.DictEntryIterator.AddChunk` | librime/src/dict/dictionary.cc:87-90 | A chunk joins the list, and its entries the count |
| `DictEntryIterators.DictEntryIterator.Sort` | librime/src/dict/dictionary.cc:92-94 | The list of chunks is sorted in place by the stable sort |
| `DictEntryIterators.DictEntryIterator.Peek` | librime/src/dict/dictionary.cc:96-116 | Shows the head of the first chunk, from the cache if it is there; an iterator without chunks shows nothing |
| `DictEntryIterators.DictEntryIterator.Next` | librime/src/dict/dictionary.cc:118-133 | Takes one entry away, drops the cached one, and tells whether anything is left |
| `DictEntryIterators.DictEntryIterator.Drain` | librime/src/dict/dictionary.cc:96-133 | Peeking and moving on to the end shows every entry of every chunk exactly once, with its comment, the shorter remaining code first, then the greater product of credibility and weight |
| `PhraseEncodings.FromString` | librime/src/dict/dictionary.cc:26-31 | Splitting always gives at least one token |
| `PhraseEncodings.SplitUndoesJoin` | librime/src/dict/dictionary.cc:22-31 | Splitting undoes joining for codes made of tokens |
| `PhraseEncodings.SplitAtGap` | librime/src/dict/dictionary.cc:26-31 | A run of spaces of any length separates two tokens |
| `PhraseEncodings.SpacesExactly` | librime/src/dict/dictionary.cc:26-31 | Spaces are blanks, tabs, and the characters that start lines and pages |
| `PhraseEncodings.SplitsToOne` | librime/src/dict/dict_compiler.cc:259 | A code string counts as a single syllable just when it has no space |
| `PhraseEncodings.EncodingsExactly` | librime/src/dict/dict_compiler.cc:271-294 | The enumeration holds exactly the ways to split the phrase into known words with codes of at least one twentieth of the weight of the word |
| `PhraseEncodings.EncodingsInOrder` | librime/src/dict/dict_compiler.cc:279-282 | It goes by the first word, the longest first, and the codes of a word in their order; then by the next word, and so on |
| `PhraseEncodings.EncodingsDistinct` | librime/src/dict/dict_compiler.cc:271-294 | It holds none of them twice |
| `PhraseEncodings.EncodingsSplitThePhrase` | librime/src/dict/dict_compiler.cc:279-280 | The words of each encoding, one after the other, are the phrase |
| `EntryCollectors.EntryCollector.ReadWeight` | librime/src/dict/dict_compiler.cc:227-251 | The weight is the preset one, that scaled by a percentage, or the number given, with the fallbacks for what is no number |
| `EntryCollectors.WeightExactly` | librime/src/dict/dict_compiler.cc:227-251 | The weights that the forms of a weight stand for, one by one |
| `EntryCollectors.EntryCollector.LearnWord` | librime/src/dict/dict_compiler.cc:259-266 | The weight goes to the code of the word and to the total of the word, and to nothing else |
| `EntryCollectors.EntryCollector.constructor` | librime/src/dict/dict_compiler.cc:397-398 | A new collector knows nothing, and meets what encoding relies on |
| `EntryCollectors.EntryCollector.CreateEntry` | librime/src/dict/dict_compiler.cc:222-269 | One entry is appended and counted, its tokens become syllables, and only an entry of one token is learned as a word; under a code that is not empty, what encoding relies on is kept |
| `EntryCollectors.EntryCollector.EncodeWith` | librime/src/dict/dict_compiler.cc:282-290 | A code of too little weight is skipped; otherwise it is pushed, the rest of the phrase is encoded, and it is popped again; if it is a code of the whole phrase, the phrase is learned again as a word |
| `EntryCollectors.EntryCollector.EncodeWord` | librime/src/dict/dict_compiler.cc:280-291 | All codes of one word are tried, in order, with the weights there are by then |
| `EntryCollectors.EntryCollector.Encode` | librime/src/dict/dict_compiler.cc:271-294 | For any phrase: exactly one entry is created per encoding found, in order; the result is true just when there is one; the shared code is restored, the syllabary does not change, and what encoding relies on is kept; an empty phrase becomes a word with an empty code |
| `EntryCollectors.OwnCodesFirst` | librime/src/dict/dict_compiler.cc:279-292 | A phrase is encoded by its own codes first, if it is a known word, and then by shorter words |
| `EntryCollectors.UnknownPhrase` | librime/src/dict/dict_compiler.cc:271-294 | For a phrase that is no known word, what is found is all its encodings, and nothing is learned |
| `EntryCollectors.ShorterWords` | librime/src/dict/dict_compiler.cc:279-292 | For one that is, the encodings by two words or more are found just the same |
| `EntryCollectors.AsWordFinds` | librime/src/dict/dict_compiler.cc:282-285 | A code of the whole phrase is found just when its own weight is at least a twentieth of the total, which has grown by the weight of the entry for every code found before |
| `EntryCollectors.AsWordInOrder` | librime/src/dict/dict_compiler.cc:282 | Its own codes are tried in their order |
| `EntryCollectors.AsWordLearns` | librime/src/dict/dict_compiler.cc:254-266 | Each code found gains the weight of the entry once, and the other codes of the phrase keep theirs |
| `EntryCollectors.AsWordAddsUp` | librime/src/dict/dict_compiler.cc:254-266 | The total of the phrase gains it once for each code found |
| `EntryCollectors.AsWordKeeps` | librime/src/dict/dict_compiler.cc:254-266 | No word gets a new code by that, and no other word changes, so the iteration over the codes of the phrase goes on undisturbed |
| `EntryCollectors.EntriesPrefixed` | librime/src/dict/dict_compiler.cc:286-289 | Pushing a code before the recursion gives the entries of the encodings that begin with it |
| `EntryCollectors.EntriesExactly` | librime/src/dict/dict_compiler.cc:274-277 | The entries are one for each encoding, in order, with the phrase, its weight and the codes of the pieces |
| `EntryCollectors.LearningKeepsConsistent` | librime/src/dict/dict_compiler.cc:254-266 | Learning a word keeps what encoding relies on: every known word has a total weight, and its codes are syllables |
| `EntryCollectors.LearningKeepsBalance` | librime/src/dict/dict_compiler.cc:259-266 | The total of every word stays the sum of the weights of its codes |
| `Vocabularies.CompareCodes` | librime/src/dict/vocabulary.cc:15-23 | Shorter codes first, then lexicographic order |
| `Vocabularies.CodeOrderTotal` | librime/src/dict/vocabulary.cc:15-33 | The order of codes is strict and total, and goes with their equality |
| `Vocabularies.CodeOrderExactly` | librime/src/dict/vocabulary.cc:15-23 | Codes of one length go by the first id in which they differ |
| `Vocabularies.EntryOrder` | librime/src/dict/vocabulary.cc:48-53 | The order of entries, by weight and then by text, is a strict weak order |
| `Vocabularies.SameListExactly` | librime/src/dict/vocabulary.cc:64-83 | Two codes lead to the same list just when they are equal, or both longer than the index and equal in its first three ids |
| `Vocabularies.Vocabulary.LocateEntries` | librime/src/dict/vocabulary.cc:64-83 | An empty code has no list; for any other the pages on the way are created, and the place is found |
| `Vocabularies.CreateKeeps` | librime/src/dict/vocabulary.cc:71-79 | Creating pages disturbs no list |
| `Vocabularies.ReplaceKeeps` | librime/src/dict/vocabulary.cc:72-73 | Changing the list of one place disturbs no other list |
| `Vocabularies.Vocabulary.PushBack` | librime/src/dict/dict_compiler.cc:429 | One entry joins one list, and all other lists stay as they are |
| `Vocabularies.SortList` | librime/src/dict/vocabulary.cc:60-62 | A list is rearranged into order by weight, descending, and text |
| `Vocabularies.SortPage` | librime/src/dict/vocabulary.cc:87-90 | The list of a page and those of all levels below it are rearranged into order |
| `Vocabularies.SortTree` | librime/src/dict/vocabulary.cc:85-92 | All lists at all levels are rearranged into order, and nothing else |
| `Vocabularies.Vocabulary.SortHomophones` | librime/src/dict/vocabulary.cc:85-92 | The same in place |
| `Vocabularies.FillVocabulary` | librime/src/dict/dict_compiler.cc:408-433 | The nested vocabulary refines a flat map from codes to lists: each list holds the entries that were filed under its code, in their original order, or sorted unless the original order is asked for |
| `Vocabularies.FiledExactly` | librime/src/dict/dict_compiler.cc:414-430 | The list of a code holds the entries with that code, or one too long to be told from it, and no others |
| `Vocabularies.EntryIsFiled` | librime/src/dict/dict_compiler.cc:414-430 | Every entry with known tokens is in the list of the code that has the place of each token in the syllabary, in order |
| `Vocabularies.FiledComesFrom` | librime/src/dict/dict_compiler.cc:414-430 | Every entry of any list comes from one that was collected, and is in the list of its code |
| `Vocabularies.FiledInOrder` | librime/src/dict/dict_compiler.cc:414-430 | The entries of a list are in the order in which they have been collected |
| `Segmentations.CommonPrefix` | librime/src/segmentation.cc:34-38 | The longest common prefix of two inputs |
| `Segmentations.Segmentation.ResetInput` | librime/src/segmentation.cc:31-50 | Segments that end beyond the common prefix are popped, and a new one is started if there were any |
| `Segmentations.ResetKeeps` | librime/src/segmentation.cc:41-49 | Exactly the segments that end within the common prefix are kept, and their text is the same in both inputs |
| `Segmentations.WithinExactly` | librime/src/segmentation.cc:41-46 | Popping from the back removes exactly the segments that end too late |
| `Segmentations.ResetTiles` | librime/src/segmentation.cc:31-50 | After a reset the segments tile the new input |
| `Segmentations.ResetExactly` | librime/src/segmentation.cc:31-50 | What a reset leaves: the segments before the first that ends beyond the common prefix, and a fresh one if any were dropped |
| `Segmentations.Segmentation.AddSegment` | librime/src/segmentation.cc:58-88 | A segment that is not aligned with the last one is refused; a longer one replaces it, an equal one merges its tags, a shorter one is ignored |
| `Segmentations.AddTiles` | librime/src/segmentation.cc:58-88 | Adding a segment keeps the tiling, and never makes the last segment shorter |
| `Segmentations.AddExactly` | librime/src/segmentation.cc:58-88 | Only the last segment can change, and only by one with the same start: to that one if it ends later, and to itself with more tags if it ends in the same place |
| `Segmentations.Segmentation.Advance` | librime/src/segmentation.cc:91-97 | An empty segment is started after the last one, unless that is empty itself |
| `Segmentations.ForwardTiles` | librime/src/segmentation.cc:91-97 | This keeps the tiling |
| `Segmentations.ForwardExactly` | librime/src/segmentation.cc:91-97 | The segment that is started is void, and has no tags, menu or prompt |
| `Segmentations.Segmentation.RemoveTrailing` | librime/src/segmentation.cc:100-106 | An empty last segment is removed |
| `Segmentations.TrimTiles` | librime/src/segmentation.cc:100-106 | This keeps the tiling, and then no segment is empty |
| `Segmentations.TrimExactly` | librime/src/segmentation.cc:100-106 | No other segment is removed |
| `Segmentations.Segmentation.GetConfirmedPosition` | librime/src/segmentation.cc:124-131 | The end of the last segment that has been selected |
| `Segmentations.ConfirmedIsGreatest` | librime/src/segmentation.cc:124-131 | In a tiling no selected segment ends later |
| `Engines.Proceed` | librime/src/engine.cc:136-139 | A segmentor adds its segments one by one |
| `Engines.PlayRound` | librime/src/engine.cc:136-139 | The segmentors are called in turn until one of them ends the round |
| `Engines.AddAllFromFirst` | librime/src/engine.cc:136-139 | The segments of a segmentor are added from the first to the last |
| `Engines.RoundExactly` | librime/src/engine.cc:136-139 | A round is a run of the segmentors, each adding what it proposes in the state before it, up to the first that ends the round |
| `Engines.CalculateSegmentation` | librime/src/engine.cc:128-152 | The loop terminates for any segmentors that only add segments within the input, and ends as the rounds say |
| `Engines.RoundsExactly` | librime/src/engine.cc:130-147 | Segmentation is a run of rounds, each but the last getting past the start of its segment and followed by a fresh one; the last ends at the end of the input, or at the start of its segment |
| `Engines.RoundExtends` | librime/src/engine.cc:136-139 | A round keeps the tiling and the start of the last segment, and never shortens it |
| `Engines.RoundsReach` | librime/src/engine.cc:130-147 | Segmentation keeps the tiling, and reaches the end of the input unless some round gets no further than the start of its segment |
| `Engines.SegmentationFinishes` | librime/src/engine.cc:130-147 | If every round makes progress, the whole input is segmented |
| `Engines.SettleTiles` | librime/src/engine.cc:148-151 | An empty segment is left at the end only after a selected one, and the tiling is kept |
| `Engines.TranslateSegments` | librime/src/engine.cc:154-181 | Segments that are not empty and have not been translated get a menu, in place |
| `Engines.TranslatedExactly` | librime/src/engine.cc:158-180 | Translation moves no segment, and leaves none with text untranslated |
| `Engines.TranslationAsks` | librime/src/engine.cc:158-180 | Every segment that has text and is void gets what the translators offer for its own text, with the first candidate selected; the others stay as they are |
| `Engines.ComposedTiles` | librime/src/engine.cc:117-126 | Composing again gives segments that tile the new active input |
| `Engines.ComposedIsTranslated` | librime/src/engine.cc:117-126 | Afterwards every segment that has text has been translated |
| `Engines.ComposedFinishes` | librime/src/engine.cc:117-126 | And if every round makes progress, the segments reach the end of the input |
| `Engines.ComposedKeeps` | librime/src/engine.cc:117-152 | Composing again leaves alone every translated segment that ends before the input changes, but for the last one left, which may be extended |
| `Engines.ComposedOpens` | librime/src/engine.cc:117-152 | It always leaves a last segment that is empty or not selected |
| `Engines.SelectedStays` | librime/src/engine.cc:117-152 | If that was so before, composing leaves alone every selected segment with text that ends before the input changes, the last one left included |
| `Compositions.GetCommitText` | librime/src/composition.cc:74-92 | The texts of the selected candidates, the raw input of the other segments, and what is left of the input |
| `Compositions.CommitTextExactly` | librime/src/composition.cc:74-92 | Piece by piece: the candidates and the raw texts in order, and the input from the end of the last piece on |
| `Compositions.RawCommitsInput` | librime/src/composition.cc:74-92 | Without candidates, exactly the input is committed |
| `Contexts.Compose` | librime/src/engine.cc:117-126 | Composing establishes the invariant, and changes neither the input nor the caret |
| `Contexts.PushInput` | librime/src/context.cc:79-90 | Typing keeps the invariant: caret within the input, segments tiling what is before the caret |
| `Contexts.PopInput` | librime/src/context.cc:92-99 | Deleting backwards keeps it |
| `Contexts.DeleteInput` | librime/src/context.cc:101-107 | Deleting forwards keeps it |
| `Contexts.Clear` | librime/src/context.cc:109-114 | Clearing establishes it, with an empty input |
| `Contexts.SetCaret` | librime/src/context.cc:243-249 | Moving the caret keeps it |
| `Contexts.SetInput` | librime/src/context.cc:257-261 | Replacing the input keeps it |
| `Contexts.Commit` | librime/src/context.cc:23-33 | Committing keeps it |
| `Contexts.OnSelect` | librime/src/engine.cc:199-227 | What the engine does after a selection keeps it, in all four branches |
| `Contexts.Select` | librime/src/context.cc:116-130 | Selecting a candidate keeps it |
| `Contexts.ConfirmCurrentSelection` | librime/src/context.cc:146-165 | Confirming the current candidate keeps it, also when it is refused after the status has been set |
| `Contexts.RefusalChangesNothingExactly` | librime/src/context.cc:146-165 | A refused confirmation changes nothing if and only if there is no segment, or the last one has been selected already |
| `Contexts.ConfirmPreviousSelection` | librime/src/context.cc:167-178 | Confirming an earlier selection keeps it |
| `Contexts.ReopenPreviousSegment` | librime/src/context.cc:180-191 | Reopening a segment keeps it |
| `Contexts.ClearPreviousSegment` | librime/src/context.cc:193-202 | Clearing a segment keeps it |
| `Contexts.ReopenPreviousSelection` | librime/src/context.cc:204-218 | Reopening a selection keeps it |
| `Contexts.ClearNonConfirmed` | librime/src/context.cc:220-232 | Dropping what is not confirmed keeps it |
| `Contexts.RefreshNonConfirmed` | librime/src/context.cc:234-241 | Composing that part again keeps it |
| `Contexts.SetOption` | librime/src/context.cc:271-274 | Switching an option keeps it |
| `Contexts.Step` | librime/src/context.cc:66-274 | Every operation keeps the invariant |
| `Contexts.RunKeepsInv` | librime/src/context.cc:66-274 | Every state of every run meets the invariant |
| `Contexts.EveryRunTiles` | librime/src/context.cc:66-274 | In every run the caret is within the input, the composition is about the input before the caret, and its segments follow each other from 0 on within it, only the last of them possibly empty |
| `Contexts.StepKeepsOpen` | librime/src/context.cc:66-274 | Every operation keeps it so that a last segment with text is not selected |
| `Contexts.RunKeepsOpen` | librime/src/context.cc:66-274 | That holds in every state of every run |
| `Contexts.SelectedSurvives` | librime/src/engine.cc:117-152 | So in every run, whatever the input becomes next, every selected segment with text that ends before the change stays as it is when the input is composed |
| `Contexts.RunGoesOn` | librime/src/context.cc:66-274 | No operation is ever refused: every run can be continued with every operation |
| `Contexts.RawRunCommitsActiveInput` | librime/src/context.cc:23-33 | In every run, committing a composition without candidates hands over exactly the input before the caret |
| `Contexts.PopUndoesPush` | librime/src/context.cc:79-99 | Deleting what has just been typed restores the input and the caret |
| `Contexts.ConfirmingKeepsText` | librime/src/context.cc:167-178 | Confirming an earlier selection does not change what would be committed |
| `Contexts.SelectionIsCommitted` | librime/src/engine.cc:199-211 | With auto_commit, selecting a candidate that reaches the end of the input commits its text after that of the segments before it, and clears the input |
| `Editings.ComposesBeforeCaret` | librime/src/engine.cc:117-126 | Composing changes nothing but the composition, which is that of the input before the caret |
| `Editings.PushExactly` | librime/src/context.cc:79-90 | What is typed stands before the caret, between what was before and after it |
| `Editings.PopExactly` | librime/src/context.cc:92-99 | As many characters before the caret are gone |
| `Editings.DeleteExactly` | librime/src/context.cc:101-107 | As many characters after the caret are gone |
| `Editings.DeleteIsPop` | librime/src/context.cc:92-107 | Deleting forwards is moving the caret over what goes and deleting backwards |
| `Editings.CaretExactly` | librime/src/context.cc:243-249 | The caret is where it was asked for, or at the end of the input before that |
| `Editings.ReplaceExactly` | librime/src/context.cc:109-114 | Replacing and clearing the input set it and the caret, and nothing else |
| `Editings.CommitExactly` | librime/src/context.cc:23-33 | A commit hands over the pieces of the segments and the rest of the composed input, or nothing in dumb mode, and empties the input |
| `Editings.SelectedExactly` | librime/src/engine.cc:199-227 | After a selection the last segment ends where its candidate does; at the end of the input it is confirmed or committed, before that a fresh segment follows and the rest is composed |
| `Editings.SelectExactly` | librime/src/context.cc:116-130 | A candidate that is there becomes that of the last segment |
| `Editings.ConfirmExactly` | librime/src/context.cc:146-165 | The last segment becomes selected with the candidate that it has |
| `Editings.FindSelectedExactly` | librime/src/context.cc:167-176 | The segment that is found is selected, no more than that, and nothing after it is |
| `Editings.ConfirmPreviousExactly` | librime/src/context.cc:167-178 | That segment is confirmed, and nothing else changes |
| `Editings.ReopenSelectionExactly` | librime/src/context.cc:204-218 | The segments after that one are dropped and it is void again |
| `Editings.ReopenSegmentExactly` | librime/src/context.cc:180-191 | An empty last segment is dropped, and the one before it is void again if it was selected |
| `Editings.ClearSegmentExactly` | librime/src/context.cc:193-202 | The input is cut off at the start of the last segment |
| `Editings.ClearUnconfirmedExactly` | librime/src/context.cc:220-241 | The segments after the last selected one are dropped, and a fresh one follows |
| `Editings.SwitchExactly` | librime/src/context.cc:271-274 | Only that option is set |
| `Contexts.Context.constructor` | librime/src/context.cc:17-18 | A new context is in the initial state |
| `Contexts.Context.Update` | librime/src/engine.cc:104-126 | The update notification composes the input before the caret, in place |
| `Contexts.Context.DoPushInput` | librime/src/context.cc:79-90 | The text is inserted at the caret, which moves behind it |
| `Contexts.Context.DoPopInput` | librime/src/context.cc:92-99 | Refused just when there is not so much before the caret |
| `Contexts.Context.DoDeleteInput` | librime/src/context.cc:101-107 | Refused just when there is not so much after the caret |
| `Contexts.Context.DoClear` | librime/src/context.cc:109-114 | Everything starts over |
| `Contexts.Context.DoCommit` | librime/src/context.cc:23-33 | Refused just when nothing has been typed |
| `Contexts.Context.DoSetCaret` | librime/src/context.cc:243-249 | The caret never goes beyond the input |
| `Contexts.Context.DoSetInput` | librime/src/context.cc:257-261 | The caret goes to the end of the new input |
| `Contexts.Context.Selected` | librime/src/engine.cc:199-227 | The handler shortens the segment to its candidate and confirms, commits, moves the caret or composes again |
| `Contexts.Context.DoSelect` | librime/src/context.cc:116-130 | Refused just when there is no such candidate |
| `Contexts.Context.DoDeleteCurrentSelection` | librime/src/context.cc:132-144 | Only tells whether there is a candidate to delete |
| `Contexts.Context.DoConfirmCurrentSelection` | librime/src/context.cc:146-165 | Refused just when there is neither a candidate nor raw input |
| `Contexts.Context.LastSelected` | librime/src/context.cc:167-176 | The last segment that is selected but not confirmed, unless a confirmed one comes after it |
| `Contexts.Context.DoConfirmPreviousSelection` | librime/src/context.cc:167-178 | Refused just when there is no such segment |
| `Contexts.Context.DoReopenPreviousSegment` | librime/src/context.cc:180-191 | Refused just when the last segment is not empty |
| `Contexts.Context.DoClearPreviousSegment` | librime/src/context.cc:193-202 | Refused just when the last segment starts at the end of the input |
| `Contexts.Context.DoReopenPreviousSelection` | librime/src/context.cc:204-218 | The segments after the reopened one are popped |
| `Contexts.Context.DoClearNonConfirmedComposition` | librime/src/context.cc:220-232 | Tells whether any segment has been dropped |
| `Contexts.Context.DoRefreshNonConfirmedComposition` | librime/src/context.cc:234-241 | Composes again only if a segment has been dropped |
| `Contexts.Context.DoSetOption` | librime/src/engine.cc:110-115 | The option is set, and what is not confirmed is composed again while something is being typed |
| `Menus.Winner` | librime/src/menu.cc:29-36 | The first translation that does not leave the turn to the next one; there always is one |
| `Menus.CompareExactly` | librime/src/translation.cc:14-31 | A translation takes its turn before the next just when that has nothing left, or it starts earlier itself, or in the same place and ends no earlier |
| `Menus.Menu.SelectWinner` | librime/src/menu.cc:28-40 | The loop finds it |
| `Menus.Menu.TakeTurn` | librime/src/menu.cc:41-65 | One candidate passes through the filter, and its translation moves on or is dropped; an exhausted translation is dropped without a candidate |
| `Menus.TurnExactly` | librime/src/menu.cc:41-65 | What one turn recruits is the first candidate of the winner, or what the filter makes of it; and the winner moves on, or is dropped after its last |
| `Menus.Menu.Prepare` | librime/src/menu.cc:22-67 | Turns are taken until there are enough candidates or no translations; the number of candidates is returned |
| `Menus.TurnUsesUp` | librime/src/menu.cc:27-66 | Every turn uses up something, so preparing terminates for every filter |
| `Menus.PrepareTwice` | librime/src/menu.cc:22-67 | Preparing in two goes gives the same as preparing the greater number at once |
| `Menus.PreparedIsFirst` | librime/src/menu.cc:22-67 | Candidates that have been recruited never change, and are always the first part of what can be recruited at all |
| `Menus.PreparedIsLazy` | librime/src/menu.cc:27 | Without a filter no more is recruited than asked for |
| `Menus.DrainedConserves` | librime/src/menu.cc:45-60 | Without a filter every candidate is recruited exactly once |
| `Menus.DrainedInOrder` | librime/src/translation.cc:14-31 | One or two translations in order are merged in order |
| `Menus.TwoInOrder` | librime/src/translation.cc:14-31 | Two translations, each by start and then the longest first, are merged into one list in that order with the same candidates |
| `Menus.MergesExactly` | librime/src/menu.cc:29-36 | A given number of translations in order is always merged into one list in order if and only if there are no more than two, since only neighbours are compared |
| `Menus.Menu.CreatePage` | librime/src/menu.cc:69-91 | A page is a cut of the list of everything that can be recruited; there is none beyond the end of it; it is known to be the last just when it ends there and no translation is left |
| `Menus.CutExactly` | librime/src/menu.cc:69-91 | A page has the candidates with its numbers, as far as there are any |
| `Menus.PagesTile` | librime/src/menu.cc:69-91 | The pages, one after the other, give the list without gaps or overlaps |
| `Menus.LastPageIsKnown` | librime/src/menu.cc:86 | Without a filter, or with one that never drops a candidate without a substitute, and if no translation was exhausted when it was added, no translation is left just when everything has been recruited |
| `Menus.LastPageIsKnownExactly` | librime/src/menu.cc:86 | That is so for every such menu if and only if the filter never drops a candidate without a substitute |
| `Menus.LastPageIsMarked` | librime/src/menu.cc:86 | With such a filter, or none, the page marked as the last one is precisely that whose end is the end of the list |
| `Menus.Menu.GetCandidateAt` | librime/src/menu.cc:93-99 | The candidate with that index of everything that can be recruited, if there is one |
| `Menus.Menu.AddTranslation` | librime/src/menu.cc:17-20 | The translation comes last |
| `Menus.UniqueTranslation.Next` | librime/include/rime/translation.h:52-57 | After one candidate nothing is left |
| `Menus.UniqueTranslation.Peek` | librime/include/rime/translation.h:59-63 | Shows the candidate until then |
| `Menus.FifoTranslation.Next` | librime/include/rime/translation.h:73-79 | Refused just when exhausted; otherwise moves on by one, and the translation is exhausted when nothing is left, also if it has never been filled |
| `Menus.FifoTranslation.Peek` | librime/include/rime/translation.h:81-85 | Shows the next candidate, and none when exhausted |
| `Menus.FifoTranslation.Append` | librime/include/rime/translation.h:87-90 | A candidate comes last, and an exhausted translation comes back to life; one that was moved on before it was filled skips its first candidate |
| `Menus.FifoTranslation.Size` | librime/include/rime/translation.h:92-94 | The number of candidates to come, which wraps around once the cursor has passed the end |
| `Utf8Core.Decodes2` | squirrel/utf8/core.h:150-172 | Two octets: the checks of the decoder accept exactly what section 4 of RFC 3629 allows, and the value is that of section 3 |
| `Utf8Core.Decodes3` | squirrel/utf8/core.h:175-206 | The same for three octets |
| `Utf8Core.Decodes4` | squirrel/utf8/core.h:209-249 | The same for four octets |
| `Utf8Core.LengthFromLead` | squirrel/utf8/core.h:100-113 | A character can be read in one way only: its first octet tells the length |
| `Utf8Core.GetSequence1` | squirrel/utf8/core.h:139-147 | Ends with what reading one octet can end with |
| `Utf8Core.GetSequence2` | squirrel/utf8/core.h:150-172 | Which error is reported, and where the position and the value are if there is none |
| `Utf8Core.GetSequence3` | squirrel/utf8/core.h:175-206 | The same for three octets |
| `Utf8Core.GetSequence4` | squirrel/utf8/core.h:209-249 | The same for four octets |
| `Utf8Core.ChecksAreTheGrammar` | squirrel/utf8/core.h:284-299 | The checks for surrogates, range and overlong forms accept exactly the characters of section 4 of RFC 3629 |
| `Utf8Core.ValidateNext` | squirrel/utf8/core.h:252-302 | Accepts exactly when a character of section 4 of RFC 3629 is at the position, moves past it and yields its value; otherwise says what is wrong and restores position and code point |
| `Utf8Checked.FormExactly` | squirrel/utf8/core.h:252-281 | An octet that cannot be a lead is reported first, then one that is not a trail where a trail is announced, then that the text ends too early |
| `Utf8Checked.ValueExactly` | squirrel/utf8/core.h:284-299 | Then a value that is no valid code point, and last one that could be written with less octets |
| `Utf8Checked.LeadExactly` | squirrel/utf8/core.h:100-113 | The ranges of lead and trail octets |
| `Utf8Checked.FindInvalid` | squirrel/utf8/core.h:317-326 | The greatest prefix that is read character by character, which is everything just when the whole is a text |
| `Utf8Checked.IsValid` | squirrel/utf8/core.h:329-332 | True just for texts |
| `Utf8Texts.TextIsConcatenation` | squirrel/utf8/core.h:329-332 | A text is precisely a concatenation of characters of section 4 of RFC 3629 |
| `Utf8Texts.TextAppend` | squirrel/utf8/core.h:317-326 | Texts can be read piece by piece |
| `Utf8Texts.EncodedIsCharacter` | squirrel/utf8/checked.h:111-134 | What is appended for a valid code point is a character that stands for it |
| `Utf8Texts.CharacterIsEncoded` | squirrel/utf8/checked.h:111-134 | And there is no other way to write it: encoding the value of a character gives it back |
| `Utf8Texts.DecodeUndoesEncode` | squirrel/utf8/checked.h:249-264 | For every sequence of valid code points, decoding undoes encoding |
| `Utf8Texts.EncodeUndoesDecode` | squirrel/utf8/checked.h:249-264 | For every text, encoding undoes decoding, and only valid code points come out |
| `Utf8Texts.EncodedIsCharacter16` | squirrel/utf8/checked.h:234-246 | The same for UTF-16, with the surrogates of section 2.1 of RFC 2781 |
| `Utf8Texts.CharacterIsEncoded16` | squirrel/utf8/checked.h:207-231 | Decoding by section 2.2 of RFC 2781 gives valid code points and is undone by encoding |
| `Utf8Texts.DecodeUndoesEncode16` | squirrel/utf8/checked.h:207-246 | UTF-16 decoding undoes encoding |
| `Utf8Texts.EncodeUndoesDecode16` | squirrel/utf8/checked.h:207-246 | UTF-16 encoding undoes decoding |
| `Utf8Texts.ConversionsUndoEachOther` | squirrel/utf8/checked.h:207-246 | From UTF-8 to UTF-16 and back, and from UTF-16 to UTF-8 and back, every well-formed text stays what it was |
| `Utf8Checked.Append` | squirrel/utf8/checked.h:111-134 | Throws exactly for code points that are not valid, and then writes nothing |
| `Utf8Checked.Next` | squirrel/utf8/checked.h:137-154 | Throws exactly where no character can be read, the exception that goes with the error; an invalid code point is reported as 0, since it has not been stored |
| `Utf8Checked.ThrownExactly` | squirrel/utf8/checked.h:137-154 | Which exception goes with which error |
| `Utf8Checked.Prior` | squirrel/utf8/checked.h:163-175 | On a text steps back over the last character, undoing Next; in general it decodes from the last lead octet, and what it reads ends at the given position just when a character ends there |
| `Utf8Checked.EndsExactly` | squirrel/utf8/checked.h:163-175 | What can be decoded from the last lead octet ends at the position if and only if some character ends there |
| `Utf8Checked.StrayIsPassedOver` | squirrel/utf8/checked.h:163-175 | A letter and a stray trail octet: the letter is accepted, although no character ends at the position |
| `Utf8Checked.Distance` | squirrel/utf8/checked.h:198-204 | The number of code points of a text, and throws for anything else |
| `Utf8Checked.Utf8To32` | squirrel/utf8/checked.h:258-264 | Decodes a text; otherwise decodes up to the first error, and throws what is wrong there |
| `Utf8Checked.Utf32To8` | squirrel/utf8/checked.h:249-255 | Encodes valid code points; otherwise encodes up to the first one that is not valid |
| `Utf8Checked.OffsetsMakeSurrogates` | squirrel/utf8/core.h:48-52 | The lead offset and the trail minimum make the surrogates of section 2.1 of RFC 2781 |
| `Utf8Checked.OffsetJoinsSurrogates` | squirrel/utf8/core.h:48-53 | The surrogate offset, which has wrapped around in 32 bits, wraps back when a pair is joined |
| `Utf8Checked.Next16` | squirrel/utf8/checked.h:210-226 | Reads a unit or a pair, and throws for a trail surrogate without a lead and a lead surrogate without a trail |
| `Utf8Checked.Thrown16Exactly` | squirrel/utf8/checked.h:210-226 | Nothing is thrown just where a character can be read; otherwise the unit there, or the one after a lead surrogate |
| `Utf8Checked.Utf16To8` | squirrel/utf8/checked.h:207-231 | Converts a well-formed text; otherwise converts up to the first lone surrogate and throws it |
| `Utf8Checked.Utf8To16` | squirrel/utf8/checked.h:234-246 | Converts a text; otherwise converts up to the first error and throws it |
| `Utf8Unchecked.Append` | squirrel/utf8/unchecked.h:38-58 | Writes the encoding at its place in the buffer, and nothing else |
| `Utf8Unchecked.TrustedIsValue` | squirrel/utf8/unchecked.h:61-89 | Wherever there is a character, the unchecked decoder gives what the checked one gives, and goes as far |
| `Utf8Unchecked.Next` | squirrel/utf8/unchecked.h:61-89 | Goes as far as the lead octet says, and yields what it makes of the octets |
| `Utf8Unchecked.NextInText` | squirrel/utf8/unchecked.h:61-89 | In a text the octets that the lead octet announces are there, and decoding goes on from there |
| `Utf8Unchecked.Distance` | squirrel/utf8/unchecked.h:121-127 | How often the reader moves on, if the announced octets are there; on a text, the same number as the checked form |
| `KeyEvents.NameFindsBit` | librime/src/key_table.cc:3964-3974 | The name of a modifier finds its own bit |
| `KeyEvents.GetModifierName` | librime/src/key_table.cc:3976-3985 | The name of the lowest modifier, and nothing if there is none |
| `KeyEvents.Stringify` | librime/src/key_event.cc:22-35 | The names of the modifiers in the mask, each with a plus sign, from the lowest to the highest |
| `KeyEvents.KeyEvent.ToRepr` | librime/src/key_event.cc:21-52 | Modifiers and the name of the key, or its hex value |
| `KeyEvents.PrefixExactly` | librime/src/key_event.cc:22-35 | The names of lower modifiers come before those of higher ones |
| `KeyEvents.ReprExactly` | librime/src/key_event.cc:36-52 | A key is written by its modifiers and its name, or its code in hexadecimal if it has none; neither is written if the code is too great |
| `KeyEvents.KeyEvent.FromRepr` | librime/src/key_event.cc:54-87 | A single character is its own code; otherwise modifiers are read up to the last plus sign, and then the key; fails for what is not recognized |
| `KeyEvents.ParseUnknown` | librime/src/key_event.cc:67-76 | A word that is not the name of a modifier makes reading fail |
| `KeyEvents.ParseCharacter` | librime/src/key_event.cc:57-60 | A single character stands for itself |
| `KeyEvents.ParseUndoesRepr` | librime/src/key_event.cc:21-87 | For every key with a name, reading back gives the key and those of its modifiers that have names |
| `KeyEvents.RoundTripExactly` | librime/src/key_event.cc:21-87 | So the event comes back unchanged just when all its modifiers have names |
| `KeyEvents.KeySequence.ToRepr` | librime/src/key_event.cc:94-107 | Keys that are not written as one character are put in braces |
| `KeyEvents.SequenceExactly` | librime/src/key_event.cc:94-107 | In a sequence a key stands in braces unless it is a single character |
| `KeyEvents.KeySequence.ReadOne` | librime/src/key_event.cc:116-134 | Reads one event, up to the closing brace if it is in braces |
| `KeyEvents.KeySequence.FromRepr` | librime/src/key_event.cc:109-137 | Reads all events; on failure those before it are left |
| `KeyEvents.ParseFails` | librime/src/key_event.cc:116-130 | A brace that is not closed, and one around what cannot be read, make reading fail |
| `KeyEvents.SequenceRoundTrip` | librime/src/key_event.cc:94-137 | For every sequence of keys with names, reading back gives the keys, with those modifiers that have names |
| `KeyEvents.FindAppend` | librime/src/key_event.cc:67 | The first occurrence of a character that the text before it does not contain |

## Left out

- Vocabularies.Vocabulary.LocateEntries: the place of a list is its path, not an address inside the tree; the tree is a value in a field of the class, so aliasing of pages is not modelled.
- Menus.Menu.Prepare: a translation in the menu is the list of what it still offers; two menus sharing one translation are not modelled, nor is the message for a failed selection, which cannot occur.
- Menus.FifoTranslation.Peek: for a translation that is not exhausted although it has nothing to show, where the source reads beyond its candidates.
- Reading the dictionary file, queueing its phrases, and going through the preset vocabulary.
- Calculations.Parse: for strings whose lead octets lead past the terminator, where the source reads beyond the string.
- Calculations.Apply: for a spelling whose lead octets lead past the terminator, like Parse.
- Contexts.OnSelect: the end of the segment is read as a value after the segment list has grown; the source reads it through a reference that may no longer be valid.
- Contexts.Context.DoCommit: the commit history, and what listeners other than the engine do on a commit.
- Engines.TranslateSegments: menus are the drained lists of candidates, which Menus shows to be what asking on demand gives; translators are one function that offers them all.
- Prisms.Prism.Build: the spelling map that stays without a script is a value; in the source it is a pointer into a mapping that has been released by then. Failing to build the trie or to create the file; the size of the file and of its alphabet buffer, checksums, tips, and strings with embedded terminators.
- Prisms.Prism.Load: failing to open the file or to read what is in it.
- Prisms.CopyAscending: the order of characters from 0x80 on. The source collects them in a set of signed characters but keeps its keys in a set of strings, which compares them without a sign; the model orders both without a sign.
- ExpandSearches.ExpandSearch: the same difference, by which keys of one length with characters from 0x80 on come in another order, and a limit may cut elsewhere.
- Prisms.Prism.CommonPrefixSearch: the bound on the number of results, which could matter only if the empty string were a key.
- Syllabifiers.BuildSyllableGraph: a graph that is not empty at the start, and completion when it does not end.
- DictEntryIterators.DictEntryIterator.Drain: skipping and swapping iterators, which neither sort again nor drop the cached entry; chunks without an entry array count as empty.
- Algebras.Projection.Apply: regular expressions, exceptions from them, tips, and the form that projects a single string.
- Utf8Checked.Utf8To32: replacing invalid sequences, advancing, the deprecated form of stepping back, and the iterator classes.
- Utf8Unchecked.Distance: octets that end before what their lead octets announce, where the source reads beyond the end.
- The unchecked conversions between encodings and stepping back, which repeat the checked ones without the checks.
- KeyEvents.KeyEvent.ToRepr: the layout of hexadecimal key names, which are not read back; they come from a parameter.
- The texts for display: preedit, script and debug text.
- Loading and storing tables and prisms as mapped files, the queries on a table, user dictionaries, configuration, sessions and the deployer.
- Sizes and positions are unbounded; overflow of size_t is not modelled.
