# cipherly cryptogram engine, in Dafny

This project models the engine that solves substitution cryptograms in
cipherly:

- `src/services/pattern.server.ts` computes word patterns.
- `src/services/cryptogram.server.ts` does the candidate search.

Given the words of a ciphertext and a dictionary, the engine proceeds in
these steps:

- It looks up the dictionary words that share each word's pattern
  (`findWordCandidates`).
- It derives the plaintext letters that each ciphertext letter may still
  stand for (`computeLetterCandidates`). This is an intersection phase
  followed by pigeonhole elimination to a fixed point.
- It drops the candidates those letters rule out (`pruneWordCandidates`).
- It branches by pinning one word at a time to one of its candidates
  (`partitionWordCandidates`). A depth-first search over a stack of
  candidate maps (`solveCryptogram`) drives the branching.
- At a leaf, where every word has one candidate, it builds the letter cipher
  (`computeCipher`, `zipWords`) and decrypts the ciphertext with it
  (`decryptCiphertext`).

The modules follow that structure:

- `Patterns`:
  - `Pattern` is the specification of a word's pattern.
  - `ComputePattern` is the source's two-pass loop, proved equal to it.
  - `ComputePatternWords` groups words by pattern.
- `Dictionaries`: the dictionary record, and what its loader guarantees.
- `Propagation`: the specification functions of candidate lookup, the
  intersection phase, the pigeonhole fixed point and pruning, with their
  properties.
- `Propagator`: the imperative loops of `computeLetterCandidates` and
  `intersection`, proved to compute those functions.
- `Soundness`: propagation never excludes a solution.
- `Branching`: `partitionWordCandidates` as a loop. It is proved to split a
  candidate map into maps whose word combinations are pairwise disjoint and
  together exactly the original's.
- `Finalize`: `computeCipher`, with its failure cases as `None`, and
  `decryptCiphertext`.
- `Search`: the search loop. Its invariant is that every recorded plaintext
  solves the cryptogram, and that every solution is either recorded or still
  selected by a map on the stack. When the search is not cut short it
  therefore returns every solution.
- `Termination`: a weight on the stack that every iteration decreases. It
  bounds the number of iterations, so a large enough budget never cuts the
  search short.
- `Findings`: a cryptogram on which the search as written aborts (see
  "## Findings").
- `Sets`, `Wrappers`: helpers.

Representation:

- Letters are UTF-16 code units held as `int`, and words are `seq<int>`.
- A candidate map is a `map<Word, set<Word>>`.
- A cipher is a `map<Letter, Letter>`.

## Model

| member | source | states |
|---|---|---|
| Patterns.Unique | src/services/pattern.server.ts:24-26 | the distinct letters of a word, in order of first appearance and with no repeats, are exactly the word's letters |
| Patterns.PatternShape | src/services/pattern.server.ts:22-39 | a pattern is as long as its word and repeats exactly where the word repeats |
| Patterns.PatternFirstAppearance | src/services/pattern.server.ts:23-30 | a letter first seen at position i gets symbol `A` plus the number of distinct letters before it |
| Patterns.PatternStartsWithFirstSymbol | src/services/pattern.server.ts:23 | the pattern of a non-empty word starts with `A` |
| Patterns.SameShapeSamePattern | src/services/pattern.server.ts:16-22 | words with equal letters at the same pairs of positions have the same pattern |
| Patterns.PatternCanonical | src/services/pattern.server.ts:16-22 | two words have the same pattern if and only if a one-to-one renaming of letters turns one into the other |
| Patterns.PatternIdempotent | src/services/pattern.server.ts:22-39 | the pattern of a pattern is itself |
| Patterns.PatternExample | src/services/pattern.server.ts:19-20 | SEEN and ROOT both have pattern ABBC |
| Patterns.SymbolTable | src/services/pattern.server.ts:23-32 | the symbol table maps exactly the word's distinct letters, the k-th new letter to `A` + k |
| Patterns.ComputePattern | src/services/pattern.server.ts:22-39 | the loop computes the pattern of the word |
| Patterns.ComputePatternWords | src/services/pattern.server.ts:7-14 | every word lies under its own pattern and under no other, and no group is empty |
| Propagation.ZipWords | src/services/cryptogram.server.ts:346-352 | the aligned letter pairs exist exactly when the words have equal lengths, one pair per position; the other engine functions index the two words position by position, and the next two lemmas restate them over these pairs |
| Propagation.AlignedZipped | src/services/cryptogram.server.ts:194-199 | a letter is grouped with a plaintext letter exactly when some candidate's zipped pairs hold that pair |
| Propagation.PairsAllowedZipped | src/services/cryptogram.server.ts:136-145 | a candidate passes the pruning filter exactly when the letter candidates allow every one of its zipped pairs |
| Propagation.ZipUnzip | src/services/cryptogram.server.ts:346-352 | the first and second letters of the pairs give back the two words |
| Propagation.FindWordCandidates | src/services/cryptogram.server.ts:107-121 | each ciphertext word is a key, and a word is its candidate if and only if it is a dictionary word with the same pattern |
| Propagation.WordLetterGroups | src/services/cryptogram.server.ts:194-199 | a word's grouping has a letter exactly when the word has the letter and some candidate |
| Propagation.IntersectLetterCandidates | src/services/cryptogram.server.ts:192-221 | every alphabet letter gets a subset of the alphabet, and a letter in no word keeps the whole alphabet |
| Propagation.IntersectedAt | src/services/cryptogram.server.ts:192-221 | after the intersection phase, a letter keeps a candidate if and only if every word containing the letter (and having candidates) aligns that candidate with it |
| Propagation.SingleCandidatePins | src/services/cryptogram.server.ts:192-221 | a word with a single candidate pins each of its letters to that candidate's letter |
| Propagation.PigeonholePass | src/services/cryptogram.server.ts:232-258 | a pass keeps the letters and only deletes candidates |
| Propagation.PassShrinks | src/services/cryptogram.server.ts:243-259 | a pass that changes anything deletes at least one letter-candidate pair, so the do/while loop ends |
| Propagation.Pigeonhole | src/services/cryptogram.server.ts:223-259 | the loop's result only deletes candidates and is a fixed point of the pass |
| Propagation.LetterCandidates | src/services/cryptogram.server.ts:188-262 | every alphabet letter gets a subset of what the intersection phase gave it |
| Propagation.GroupRemoves | src/services/cryptogram.server.ts:244-256 | a group that pigeonholes a letter has its whole candidate set removed from that letter |
| Propagation.FixedPointExclusive | src/services/cryptogram.server.ts:178-184 | at the fixed point, n letters sharing the same n candidates own them: no other letter keeps any of them |
| Propagation.FixedPointNotOversubscribed | src/services/cryptogram.server.ts:184-186 | at the fixed point, no non-empty candidate set is shared by more letters than it has elements |
| Propagation.OversubscribedRemoved | src/services/cryptogram.server.ts:184-186 | a set shared by more letters than it has elements is removed from every letter, its sharers included |
| Propagation.Filtered | src/services/cryptogram.server.ts:132-150 | each word keeps exactly those of its candidates whose every letter pair the letter candidates allow |
| Propagation.PruneWordCandidates | src/services/cryptogram.server.ts:123-155 | the result has the same words, each with a non-empty subset of exactly the allowed candidates; it is absent if and only if there is no word or some word has no allowed candidate |
| Propagation.EmptyLetterFailsPrune | src/services/cryptogram.server.ts:184-186 | a letter of some word left with no candidate makes pruning fail |
| Propagator.Intersection | src/services/cryptogram.server.ts:264-275 | the loop returns the intersection of the two sets |
| Propagator.IntersectWord | src/services/cryptogram.server.ts:208-219 | each letter is intersected with its group, or with the alphabet when the word does not group it |
| Propagator.IntersectAll | src/services/cryptogram.server.ts:192-221 | the fold over the words computes the intersection phase |
| Propagator.DeleteFromLetter | src/services/cryptogram.server.ts:245-257 | the inner loop removes from the letter the union of the pigeonholing groups, and reports a deletion exactly when something was removed |
| Propagator.PigeonholeStep | src/services/cryptogram.server.ts:232-258 | one pass over all letters computes the pass function and reports a change exactly when the map changed |
| Propagator.ComputeLetterCandidates | src/services/cryptogram.server.ts:188-262 | the method returns the letter candidates |
| Soundness.IntersectSound | src/services/cryptogram.server.ts:166-171 | the intersection phase keeps each letter's image under any one-to-one cipher that decrypts every word to one of its candidates |
| Soundness.IntersectAllows | src/services/cryptogram.server.ts:192-221 | the intersection phase keeps the image of every letter that each word with candidates aligns, by some candidate, at every position of the letter |
| Soundness.PassSound | src/services/cryptogram.server.ts:178-184 | a pigeonhole pass keeps the image of every letter under a one-to-one cipher allowed before it |
| Soundness.PigeonholeSound | src/services/cryptogram.server.ts:223-259 | the fixed point keeps it too |
| Soundness.LetterCandidatesSound | src/services/cryptogram.server.ts:188-262 | computeLetterCandidates never excludes a consistent one-to-one cipher |
| Soundness.PruneSound | src/services/cryptogram.server.ts:123-155 | with such a cipher, pruning succeeds and keeps every candidate the cipher decrypts to |
| Branching.SplitSelects | src/services/cryptogram.server.ts:303-311 | pinning a word to one candidate, and deleting that candidate from the rest, splits the combinations into two disjoint halves |
| Branching.NarrowedPairs | src/services/cryptogram.server.ts:298-315 | a map narrowed at some word has fewer word-candidate pairs |
| Branching.PinEachWord | src/services/cryptogram.server.ts:298-313 | the loop pins each word with several candidates once, and the pinned maps and the running copy cover the combinations disjointly |
| Branching.PartitionWordCandidates | src/services/cryptogram.server.ts:277-318 | one map per word with several candidates plus the last; the k-th map pins the k-th of distinct words with several candidates to one candidate; each map narrows the input, and together they hold exactly the input's combinations, no two sharing one |
| Branching.PinnedCoverAll | src/services/cryptogram.server.ts:298-313 | the words the partition pins are all the words with several candidates, each pinned once |
| Finalize.ComputeCipher | src/services/cryptogram.server.ts:320-344 | when it succeeds, the cipher is one-to-one on exactly the assigned letters and decrypts every assigned word to its plaintext |
| Finalize.ComputeCipherComplete | src/services/cryptogram.server.ts:320-344 | it succeeds whenever some one-to-one cipher decrypts every assigned word, and then returns that cipher on those letters |
| Finalize.ConflictFails | src/services/cryptogram.server.ts:331-334 | a letter assigned two different plaintext letters makes it fail |
| Finalize.DecryptCiphertext | src/services/cryptogram.server.ts:354-362 | the plaintext is as long as the ciphertext; each symbol the cipher maps is replaced by its image, and every other symbol is kept |
| Finalize.DecryptConcat | src/services/cryptogram.server.ts:354-362 | decryption works symbol by symbol and distributes over concatenation |
| Finalize.DecryptWordAt | src/services/cryptogram.server.ts:354-362 | a word the cipher decrypts to c reads c wherever it stands in the ciphertext |
| Finalize.Inverse | src/services/cryptogram.server.ts:339-342 | a one-to-one cipher has an inverse defined on its images |
| Finalize.DecryptInverse | src/services/cryptogram.server.ts:354-362 | decrypting with the inverse cipher restores the ciphertext when no kept symbol is an image |
| Search.DecryptKeepsPattern | src/services/cryptogram.server.ts:107-121 | a one-to-one cipher keeps the pattern of each word it decrypts |
| Search.SolutionInInitial | src/services/cryptogram.server.ts:46-49 | every solution selects one combination of the initial candidate map |
| Search.PruneKeepsSolution | src/services/cryptogram.server.ts:51-57 | pruning a map that a solution selects neither fails nor drops the solution's words |
| Search.CompleteStep | src/services/cryptogram.server.ts:50-95 | an iteration that handles the popped map keeps every solution recorded or reachable on the stack |
| Search.PrunedAwayHandled | src/services/cryptogram.server.ts:55-57 | a map whose pruning fails selects no solution |
| Search.BranchHandled | src/services/cryptogram.server.ts:65-69 | the parts, pushed in reverse, select every solution the popped map selects |
| Search.FinalizeLeafAsWritten | src/services/cryptogram.server.ts:72-81 | the leaf as written aborts the search exactly when computeCipher rejects the assignment |
| Search.FinalizeLeaf | src/services/cryptogram.server.ts:72-81 | the corrected leaf never aborts; it has a cipher exactly when computeCipher accepts, one-to-one on the ciphertext letters and decrypting each word to its candidate |
| Search.LeafFindsSolution | src/services/cryptogram.server.ts:72-81 | a settled map that a solution selects finalizes to that solution on the ciphertext letters |
| Search.LeafSolves | src/services/cryptogram.server.ts:72-90 | the cipher of a leaf solves the cryptogram |
| Search.LeafHandled | src/services/cryptogram.server.ts:82-90 | once the leaf's plaintext is recorded, every solution the popped map selects is recorded |
| Search.Reversed | src/services/cryptogram.server.ts:67 | the parts reversed, so that the first part is popped next |
| Search.PushPartition | src/services/cryptogram.server.ts:65-69 | the reversed partition of a pruned map covers its combinations and weighs less than the map popped |
| Search.BranchOn | src/services/cryptogram.server.ts:65-69 | replacing the popped map by its reversed partition keeps the search invariant and lightens the stack |
| Search.SettleLeaf | src/services/cryptogram.server.ts:72-90 | finalizing a leaf with the corrected FinalizeLeaf (where lines 331-334 and 339-342 throw as written) and recording its plaintext unless already recorded keeps the search invariant and adds at most one plaintext |
| Search.SearchStep | src/services/cryptogram.server.ts:51-90 | one iteration keeps the search invariant, records at most one plaintext and makes the stack strictly lighter; its leaves are finalized with the corrected FinalizeLeaf, where lines 331-334 and 339-342 throw as written |
| Search.SolveCryptogram | src/services/cryptogram.server.ts:29-105 | at most maxSolutionCount (at least one) solutions are returned; each plaintext is the ciphertext decrypted by a one-to-one cipher within the alphabet that maps exactly the word letters and turns every word into a dictionary word; the loop runs at most SearchBound times whatever the budget; unless the search stops on the count or on a budget below SearchBound, every solution is returned. Leaves use the corrected FinalizeLeaf (see "## Findings") |
| Termination.BranchLighter | src/services/cryptogram.server.ts:51-69 | the partition of a pruned map, at most one map more than there are words and each with fewer word-candidate pairs, weighs less than the map popped |
| Termination.StackWeightPositive | src/services/cryptogram.server.ts:91-95 | a stack weighs nothing exactly when it is empty, so once the iterations reach the initial weight the stack is empty |
| Findings.InitialCandidates | src/services/cryptogram.server.ts:107-121 | on the sample, findWordCandidates gives AB and AC the four two-letter words, BEG only QVX and CFFF only TWWW |
| Findings.LettersAtLeast | src/services/cryptogram.server.ts:188-262 | on that map, A keeps both P and R, and B, C, E, F, G keep Q, T, V, W, X |
| Findings.SampleLetters | src/services/cryptogram.server.ts:188-262 | on that map, B keeps only Q and C only T |
| Findings.SamplePruned | src/services/cryptogram.server.ts:127-155 | one pruning succeeds and leaves AB only PQ and AC only RT |
| Findings.PrunedLeaf | src/services/cryptogram.server.ts:320-344 | that map is a leaf that aborts the search as written and is a dead end when corrected |
| Findings.SampleAborts | src/services/cryptogram.server.ts:50-81 | on any dictionary of the sample words over A to Z, the first iteration reaches that leaf |
| Findings.SampleAbortsOnSample | src/services/dictionary.server.ts:24-43 | such a dictionary exists, with the loader's alphabet and pattern groups |
| Findings.SampleUnsolvable | src/services/cryptogram.server.ts:29-105 | the sample cryptogram has no solution |
| Findings.SolveSample | src/services/cryptogram.server.ts:29-105 | on any dictionary of the sample words over A to Z, the corrected search returns no solution on the sample, whatever the bounds |

## Left out

- The clock of `solveCryptogram` is not modelled. The timeout becomes an iteration budget, `maxIterations`.
- Tokenizing the ciphertext is not modelled. `src/services/words.server.ts` is not part of this model. The search takes the set of ciphertext words as a parameter; `Search.Tokens` says what the tokenizer yields (non-empty words over the alphabet).
- `computeMeanFrequency` and the final sort by it are not modelled, since they are floating point. The order of the returned solutions is therefore not modelled either.
- Search.SolveCryptogram: returns a map from plaintext to cipher, with no order, where the source returns them sorted by mean word frequency.
- Search.SolveCryptogram: finalizes each leaf with the corrected `Search.FinalizeLeaf`, where the source throws at lines 331-334 and 339-342 of `src/services/cryptogram.server.ts`; the row under "## Findings" shows the as-written leaf and an input that reaches it.
- Iteration order of JavaScript `Set` and `Map` is not modelled. Each `first(...)` and each loop over a set takes an arbitrary element, so the most-frequent-first order of the partitions is not modelled.
- Branching.PartitionWordCandidates: does not state the frequency order of the returned maps.
- Pattern symbols are `A` plus the rank of the letter as unbounded integers. `String.fromCharCode` wrapping after 65 471 distinct letters (`A` is 65, and code units stop at 65 535) is not modelled.
- Patterns.Pattern: the symbols are not truncated to 16 bits, for the reason above.
- The group key of the pigeonhole step is the sorted string of a candidate set. It is modelled as the set itself, which identifies it the same way for one-character letters.
- Sets and maps that the source updates in place are modelled as values that are reassigned. The source never aliases them between letters or maps, so nothing is lost.
- The engine functions require that every candidate is as long as its ciphertext word. `findWordCandidates` produces only such candidates, so the length invariant of `zipWords` can never throw inside the engine; `Propagation.ZipWords` models that failure as `None`.
- Loading the dictionary, its frequency threshold and caching are not modelled. `Dictionaries.ValidDictionary` states what the loader guarantees: words over the alphabet, grouped by `computePatternWords`.
- With `maxSolutionCount` of zero or less the search still runs its first iteration, since the loop tests its condition at the end, and can return one solution. The model follows the code.

## Findings

| source | as written | input that shows it | evidently intended | confidence | as-written member | corrected member |
|---|---|---|---|---|---|---|
| src/services/cryptogram.server.ts:72-81 | a map whose words all have one candidate after one round of pruning is taken for a consistent leaf; `computeCipher` then fails its invariant (lines 331-334) and the search throws | ciphertext `AB AC BEG CFFF`, dictionary words PQ, RS, RT, PU, QVX, TWWW over A to Z: BEG pins B to Q and CFFF pins C to T, so pruning leaves AB only PQ and AC only RT, and A must decrypt to both P and R | such a leaf is one more dead branch; the cryptogram has no solution, so the search returns none | not executed | Search.FinalizeLeafAsWritten, Findings.SampleAborts | Search.FinalizeLeaf, Findings.SolveSample |
