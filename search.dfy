/**
 * solveCryptogram (src/services/cryptogram.server.ts:29-105): a depth-first
 * search over word candidate maps. Each popped map is pruned; a map with a
 * word of several candidates is partitioned and its parts pushed; a map of
 * single candidates is a leaf whose cipher and plaintext are recorded.
 *
 * The clock is replaced by an iteration budget and the tokenizer by the set
 * of ciphertext words it yields; the mean frequency of a plaintext and the
 * final sort by it are not part of this model.
 */
module Search {
  import opened Wrappers
  import opened Sets
  import opened Patterns
  import opened Dictionaries
  import opened Propagation
  import opened Soundness
  import opened Branching
  import opened Finalize
  import opened Termination

  /** What the tokenizer yields for a ciphertext: non-empty words over the alphabet. */
  predicate Tokens(words: set<Word>, alphabet: set<Letter>) {
    forall w :: w in words ==> w != [] && OverAlphabet(w, alphabet)
  }

  /** A candidate map on the stack: keyed by the ciphertext words, holding dictionary words of their length. */
  predicate OnStack(wc: CandidateWords, words: set<Word>, dictionary: Dictionary) {
    && wc.Keys == words && WellFormed(wc)
    && forall w, c :: w in wc && c in wc[w] ==> c in dictionary.wordFrequencies
  }

  /**
   * `g` solves the cryptogram: it is one-to-one within the alphabet, maps
   * every ciphertext letter, and decrypts every ciphertext word to a
   * dictionary word.
   */
  predicate Solves(g: Cipher, words: set<Word>, dictionary: Dictionary) {
    && Injective(g) && g.Keys <= dictionary.alphabet && g.Values <= dictionary.alphabet
    && LettersOf(words) <= g.Keys
    && forall w :: w in words ==> DecryptCiphertext(w, g) in dictionary.wordFrequencies
  }

  /** The plaintext word that `g` gives each ciphertext word. */
  function Induced(g: Cipher, words: set<Word>): map<Word, Word> {
    map w | w in words :: DecryptCiphertext(w, g)
  }

  /** The plaintext a solution `g` is reported under: the ciphertext decrypted by `g` on the word letters. */
  function PlaintextOf(ciphertext: seq<Letter>, g: Cipher, words: set<Word>): seq<Letter>
    requires LettersOf(words) <= g.Keys
  {
    DecryptCiphertext(ciphertext, Restrict(g, LettersOf(words)))
  }

  /** A cipher defined on every letter of `w` decrypts it to what decryptCiphertext yields. */
  lemma DecryptsDecrypted(g: Cipher, w: Word)
    requires forall i :: 0 <= i < |w| ==> w[i] in g
    ensures Decrypts(g, w, DecryptCiphertext(w, g))
  {
  }

  /** What decryptCiphertext yields for a word that `g` decrypts to `c` is `c`. */
  lemma DecryptedIs(g: Cipher, w: Word, c: Word)
    requires Decrypts(g, w, c)
    ensures DecryptCiphertext(w, g) == c
  {
  }

  /** A one-to-one cipher keeps the pattern of every word it decrypts. */
  lemma DecryptKeepsPattern(g: Cipher, w: Word)
    requires Injective(g) && forall i :: 0 <= i < |w| ==> w[i] in g
    ensures Pattern(DecryptCiphertext(w, g)) == Pattern(w)
  {
    var c := DecryptCiphertext(w, g);
    assert SameShape(w, c);
    SameShapeSamePattern(w, c);
  }

  /** Every solution selects one combination of the map findWordCandidates starts with. */
  lemma SolutionInInitial(g: Cipher, words: set<Word>, dictionary: Dictionary)
    requires ValidDictionary(dictionary) && Solves(g, words, dictionary)
    ensures Selects(Induced(g, words), FindWordCandidates(words, dictionary))
  {
    var wc := FindWordCandidates(words, dictionary);
    forall w | w in words
      ensures Induced(g, words)[w] in wc[w]
    {
      forall i | 0 <= i < |w|
        ensures w[i] in g
      {
        assert w[i] in LettersOf(words);
      }
      DecryptKeepsPattern(g, w);
    }
  }

  /** Pruning a map that a solution selects keeps the solution's words: it neither fails nor drops them. */
  lemma PruneKeepsSolution(g: Cipher, wc: CandidateWords, words: set<Word>, dictionary: Dictionary)
    requires Tokens(words, dictionary.alphabet) && OnStack(wc, words, dictionary) && words != {}
    requires Solves(g, words, dictionary) && Selects(Induced(g, words), wc)
    ensures PruneWordCandidates(wc, dictionary).Some?
    ensures Selects(Induced(g, words), PruneWordCandidates(wc, dictionary).value)
  {
    var total := ExtendCipher(g, dictionary.alphabet);
    assert forall l :: l in g ==> total[l] == g[l];
    forall w | w in wc
      ensures Decrypts(total, w, Induced(g, words)[w])
    {
      forall i | 0 <= i < |w|
        ensures w[i] in total && total[w[i]] == Induced(g, words)[w][i]
      {
        assert w[i] in LettersOf(words);
        assert Induced(g, words)[w] == DecryptCiphertext(w, g);
      }
    }
    assert Consistent(total, wc);
    assert wc != map[] by {
      var w := Choose(words);
      assert w in wc;
    }
    PruneSound(total, wc, dictionary);
  }

  /** The stack entries are the ones holding a combination `g` selects. */
  ghost predicate Reaches(g: Cipher, words: set<Word>, stack: seq<CandidateWords>) {
    exists k :: 0 <= k < |stack| && Selects(Induced(g, words), stack[k])
  }

  /** Every solution is either recorded under its plaintext or still selected by a stack entry. */
  ghost predicate Complete(ciphertext: seq<Letter>, words: set<Word>, dictionary: Dictionary,
                           solutions: map<seq<Letter>, Cipher>, stack: seq<CandidateWords>)
  {
    forall g :: words != {} && Solves(g, words, dictionary) ==>
      PlaintextOf(ciphertext, g, words) in solutions || Reaches(g, words, stack)
  }

  /** Handling the popped map `top` recorded or pushed again every solution it selects. */
  ghost predicate TopHandled(ciphertext: seq<Letter>, words: set<Word>, dictionary: Dictionary,
                             top: CandidateWords, solutions: map<seq<Letter>, Cipher>, pushed: seq<CandidateWords>)
  {
    forall g :: words != {} && Solves(g, words, dictionary) && Selects(Induced(g, words), top) ==>
      PlaintextOf(ciphertext, g, words) in solutions || Reaches(g, words, pushed)
  }

  /** One iteration keeps the search complete when it handles the map it pops and forgets no solution. */
  lemma CompleteStep(ciphertext: seq<Letter>, words: set<Word>, dictionary: Dictionary,
                     solutions: map<seq<Letter>, Cipher>, solutions': map<seq<Letter>, Cipher>,
                     rest: seq<CandidateWords>, top: CandidateWords, pushed: seq<CandidateWords>)
    requires Complete(ciphertext, words, dictionary, solutions, rest + [top])
    requires solutions.Keys <= solutions'.Keys
    requires TopHandled(ciphertext, words, dictionary, top, solutions', pushed)
    ensures Complete(ciphertext, words, dictionary, solutions', rest + pushed)
  {
    forall g | words != {} && Solves(g, words, dictionary)
      ensures PlaintextOf(ciphertext, g, words) in solutions' || Reaches(g, words, rest + pushed)
    {
      if PlaintextOf(ciphertext, g, words) !in solutions' {
        var k :| 0 <= k < |rest + [top]| && Selects(Induced(g, words), (rest + [top])[k]);
        if k < |rest| {
          assert (rest + pushed)[k] == rest[k];
        } else {
          var j :| 0 <= j < |pushed| && Selects(Induced(g, words), pushed[j]);
          assert (rest + pushed)[|rest| + j] == pushed[j];
        }
      }
    }
  }

  /** A map whose pruning fails selects no solution. */
  lemma PrunedAwayHandled(ciphertext: seq<Letter>, words: set<Word>, dictionary: Dictionary,
                          top: CandidateWords, solutions: map<seq<Letter>, Cipher>)
    requires Tokens(words, dictionary.alphabet) && OnStack(top, words, dictionary)
    requires PruneWordCandidates(top, dictionary).None?
    ensures TopHandled(ciphertext, words, dictionary, top, solutions, [])
  {
    forall g | words != {} && Solves(g, words, dictionary) && Selects(Induced(g, words), top)
      ensures false
    {
      PruneKeepsSolution(g, top, words, dictionary);
    }
  }

  /** The parts of a partitioned pruned map, pushed in reverse, select every solution the popped map does. */
  lemma BranchHandled(ciphertext: seq<Letter>, words: set<Word>, dictionary: Dictionary,
                      top: CandidateWords, solutions: map<seq<Letter>, Cipher>, parts: seq<CandidateWords>,
                      pushed: seq<CandidateWords>)
    requires Tokens(words, dictionary.alphabet) && OnStack(top, words, dictionary)
    requires PruneWordCandidates(top, dictionary).Some?
    requires forall choice :: Selects(choice, PruneWordCandidates(top, dictionary).value) ==>
      exists k :: 0 <= k < |parts| && Selects(choice, parts[k])
    requires |pushed| == |parts| && forall k :: 0 <= k < |parts| ==> pushed[|parts| - 1 - k] == parts[k]
    ensures TopHandled(ciphertext, words, dictionary, top, solutions, pushed)
  {
    forall g | words != {} && Solves(g, words, dictionary) && Selects(Induced(g, words), top)
      ensures Reaches(g, words, pushed)
    {
      PruneKeepsSolution(g, top, words, dictionary);
      var k :| 0 <= k < |parts| && Selects(Induced(g, words), parts[k]);
      assert pushed[|parts| - 1 - k] == parts[k];
    }
  }

  // ---------------------------------------------------------------------
  // Leaves

  /** Every word has exactly one candidate left. */
  predicate Settled(wc: CandidateWords) {
    forall w :: w in wc ==> |wc[w]| == 1
  }

  /** The word assignment of a settled map: each word to its one candidate. */
  function Assignment(wc: CandidateWords): (assignment: map<Word, Word>)
    requires Settled(wc)
    ensures assignment.Keys == wc.Keys && forall w :: w in wc ==> wc[w] == {assignment[w]}
  {
    map w | w in wc :: Only(wc[w])
  }

  /** How a leaf ends: with a cipher, as a dead end, or by aborting the whole search. */
  datatype Leaf = Solved(cipher: Cipher) | DeadEnd | Aborted

  /**
   * The leaf as src/services/cryptogram.server.ts:72-81 handles it: the
   * cipher of the assignment is taken for granted, so an assignment that
   * computeCipher rejects trips its invariant and aborts the search.
   */
  function FinalizeLeafAsWritten(wc: CandidateWords): (r: Leaf)
    requires Settled(wc)
    ensures r.Aborted? <==> ComputeCipher(Assignment(wc)).None?
    ensures r.Solved? ==> forall w :: w in wc ==> Decrypts(r.cipher, w, Assignment(wc)[w])
  {
    match ComputeCipher(Assignment(wc))
    case None => Aborted
    case Some(cipher) => Solved(cipher)
  }

  /**
   * The leaf as the search needs it: an assignment that computeCipher
   * rejects is one more dead branch. A leaf never aborts, and its cipher is
   * one-to-one on the ciphertext letters and decrypts each word to its one
   * candidate.
   */
  function FinalizeLeaf(wc: CandidateWords): (r: Leaf)
    requires Settled(wc)
    ensures !r.Aborted?
    ensures r.Solved? <==> ComputeCipher(Assignment(wc)).Some?
    ensures r.Solved? ==> Injective(r.cipher) && r.cipher.Keys == LettersOf(wc.Keys)
    ensures r.Solved? ==> forall w :: w in wc ==> Decrypts(r.cipher, w, Assignment(wc)[w])
  {
    match ComputeCipher(Assignment(wc))
    case None => DeadEnd
    case Some(cipher) => Solved(cipher)
  }

  /**
   * A settled map that a solution selects is finalized to that solution on
   * the ciphertext letters.
   */
  lemma LeafFindsSolution(g: Cipher, wc: CandidateWords, words: set<Word>, dictionary: Dictionary)
    requires Settled(wc) && wc.Keys == words
    requires Solves(g, words, dictionary) && Selects(Induced(g, words), wc)
    ensures FinalizeLeaf(wc) == Solved(Restrict(g, LettersOf(words)))
  {
    var assignment := Assignment(wc);
    forall w | w in assignment
      ensures Decrypts(g, w, assignment[w])
    {
      forall i | 0 <= i < |w|
        ensures w[i] in g
      {
        assert w[i] in LettersOf(words);
      }
      assert Induced(g, words)[w] in wc[w];
    }
    ComputeCipherComplete(assignment, g);
  }

  /** The cipher of a leaf built from dictionary candidates solves the cryptogram. */
  lemma LeafSolves(wc: CandidateWords, words: set<Word>, dictionary: Dictionary, cipher: Cipher)
    requires ValidDictionary(dictionary) && Tokens(words, dictionary.alphabet)
    requires OnStack(wc, words, dictionary) && Settled(wc)
    requires FinalizeLeaf(wc) == Solved(cipher)
    ensures Solves(cipher, words, dictionary) && cipher.Keys == LettersOf(words)
  {
    var assignment := Assignment(wc);
    forall l | l in cipher
      ensures l in dictionary.alphabet && cipher[l] in dictionary.alphabet
    {
      var w, i :| w in words && 0 <= i < |w| && w[i] == l;
      var c := assignment[w];
      assert c in wc[w];
      assert OverAlphabet(c, dictionary.alphabet) && c[i] == cipher[l];
      assert OverAlphabet(w, dictionary.alphabet);
    }
    forall w | w in words
      ensures DecryptCiphertext(w, cipher) in dictionary.wordFrequencies
    {
      DecryptedIs(cipher, w, assignment[w]);
      assert assignment[w] in wc[w];
    }
  }

  /** A settled map that the solutions table covers has every solution it selects recorded. */
  lemma LeafHandled(ciphertext: seq<Letter>, words: set<Word>, dictionary: Dictionary,
                    top: CandidateWords, pruned: CandidateWords, solutions: map<seq<Letter>, Cipher>)
    requires Tokens(words, dictionary.alphabet) && OnStack(top, words, dictionary)
    requires PruneWordCandidates(top, dictionary) == Some(pruned) && Settled(pruned)
    requires FinalizeLeaf(pruned).Solved? ==>
      DecryptCiphertext(ciphertext, FinalizeLeaf(pruned).cipher) in solutions
    ensures TopHandled(ciphertext, words, dictionary, top, solutions, [])
  {
    forall g | words != {} && Solves(g, words, dictionary) && Selects(Induced(g, words), top)
      ensures PlaintextOf(ciphertext, g, words) in solutions
    {
      PruneKeepsSolution(g, top, words, dictionary);
      LeafFindsSolution(g, pruned, words, dictionary);
    }
  }

  // ---------------------------------------------------------------------
  // The search loop

  /** The parts in reverse order, so that the first part is the next one popped. */
  function Reversed(parts: seq<CandidateWords>): (r: seq<CandidateWords>)
    ensures |r| == |parts| && forall k :: 0 <= k < |parts| ==> r[|parts| - 1 - k] == parts[k]
  {
    if parts == [] then [] else Reversed(parts[1..]) + [parts[0]]
  }

  /** The parts of a pruned stack entry are stack entries too. */
  lemma PushedOnStack(top: CandidateWords, pruned: CandidateWords, parts: seq<CandidateWords>,
                      words: set<Word>, dictionary: Dictionary)
    requires OnStack(top, words, dictionary)
    requires pruned.Keys == top.Keys && forall w :: w in top ==> pruned[w] <= top[w]
    requires forall k :: 0 <= k < |parts| ==> Narrows(parts[k], pruned)
    ensures forall k :: 0 <= k < |parts| ==> OnStack(parts[k], words, dictionary)
  {
  }

  /** At most `maxSolutionCount` solutions are kept, but the first iteration always runs. */
  function SolutionBound(maxSolutionCount: int): nat {
    if maxSolutionCount < 1 then 1 else maxSolutionCount
  }

  /** Every stack entry is keyed by the ciphertext words and holds dictionary words of their length. */
  predicate StackOk(stack: seq<CandidateWords>, words: set<Word>, dictionary: Dictionary) {
    forall k :: 0 <= k < |stack| ==> OnStack(stack[k], words, dictionary)
  }

  /** `plaintext` is the ciphertext decrypted by `cipher`, which solves the cryptogram on exactly its letters. */
  predicate Entry(ciphertext: seq<Letter>, words: set<Word>, dictionary: Dictionary,
                  plaintext: seq<Letter>, cipher: Cipher)
  {
    && plaintext == DecryptCiphertext(ciphertext, cipher)
    && Solves(cipher, words, dictionary) && cipher.Keys == LettersOf(words)
  }

  /** Every recorded plaintext and cipher form an entry; nothing is recorded without words. */
  predicate Recorded(ciphertext: seq<Letter>, words: set<Word>, dictionary: Dictionary,
                     solutions: map<seq<Letter>, Cipher>)
  {
    && (forall p :: p in solutions ==> Entry(ciphertext, words, dictionary, p, solutions[p]))
    && (words == {} ==> solutions == map[])
  }

  /** What the search keeps true of its stack and its solutions table. */
  ghost predicate SearchState(ciphertext: seq<Letter>, words: set<Word>, dictionary: Dictionary,
                              stack: seq<CandidateWords>, solutions: map<seq<Letter>, Cipher>)
  {
    && StackOk(stack, words, dictionary)
    && Recorded(ciphertext, words, dictionary, solutions)
    && Complete(ciphertext, words, dictionary, solutions, stack)
  }

  /** Popping keeps the rest of the stack well formed. */
  lemma StackPop(stack: seq<CandidateWords>, rest: seq<CandidateWords>, top: CandidateWords,
                 words: set<Word>, dictionary: Dictionary)
    requires StackOk(stack, words, dictionary) && stack == rest + [top]
    ensures StackOk(rest, words, dictionary) && OnStack(top, words, dictionary)
  {
    assert stack[|rest|] == top;
    forall k | 0 <= k < |rest|
      ensures OnStack(rest[k], words, dictionary)
    {
      assert stack[k] == rest[k];
    }
  }

  /** Recording a leaf's cipher under its plaintext, unless that plaintext is already recorded. */
  lemma RecordLeaf(ciphertext: seq<Letter>, words: set<Word>, dictionary: Dictionary,
                   top: CandidateWords, pruned: CandidateWords, leaf: Leaf,
                   solutions: map<seq<Letter>, Cipher>, solutions': map<seq<Letter>, Cipher>)
    requires ValidDictionary(dictionary) && Tokens(words, dictionary.alphabet) && OnStack(top, words, dictionary)
    requires Recorded(ciphertext, words, dictionary, solutions)
    requires PruneWordCandidates(top, dictionary) == Some(pruned) && Settled(pruned)
    requires leaf == FinalizeLeaf(pruned)
    requires leaf.Solved? && DecryptCiphertext(ciphertext, leaf.cipher) !in solutions ==>
      solutions' == solutions[DecryptCiphertext(ciphertext, leaf.cipher) := leaf.cipher]
    requires !(leaf.Solved? && DecryptCiphertext(ciphertext, leaf.cipher) !in solutions) ==> solutions' == solutions
    ensures Recorded(ciphertext, words, dictionary, solutions')
  {
    if leaf.Solved? && DecryptCiphertext(ciphertext, leaf.cipher) !in solutions {
      var plaintext, cipher := DecryptCiphertext(ciphertext, leaf.cipher), leaf.cipher;
      LeafSolves(pruned, words, dictionary, cipher);
      assert Entry(ciphertext, words, dictionary, plaintext, cipher);
      forall p | p in solutions'
        ensures Entry(ciphertext, words, dictionary, p, solutions'[p])
      {
        if p != plaintext {
          assert p in solutions && solutions'[p] == solutions[p];
        }
      }
      assert top != map[];
      assert words != {} by {
        var w := Choose(top.Keys);
      }
    }
  }

  /** Once the stack is empty, every solution has its plaintext recorded. */
  lemma Exhausted(ciphertext: seq<Letter>, words: set<Word>, dictionary: Dictionary,
                  solutions: map<seq<Letter>, Cipher>)
    requires Complete(ciphertext, words, dictionary, solutions, [])
    ensures forall g :: words != {} && Solves(g, words, dictionary) ==> PlaintextOf(ciphertext, g, words) in solutions
  {
  }

  /** The search starts from the map of findWordCandidates alone and no solution. */
  lemma InitialState(ciphertext: seq<Letter>, words: set<Word>, dictionary: Dictionary)
    requires ValidDictionary(dictionary) && Tokens(words, dictionary.alphabet)
    ensures SearchState(ciphertext, words, dictionary, [FindWordCandidates(words, dictionary)], map[])
  {
    InitialOnStack(words, dictionary);
    InitialComplete(ciphertext, words, dictionary);
  }

  /** findWordCandidates keys the ciphertext words to dictionary words of their length. */
  lemma InitialOnStack(words: set<Word>, dictionary: Dictionary)
    requires ValidDictionary(dictionary)
    ensures StackOk([FindWordCandidates(words, dictionary)], words, dictionary)
  {
    var wc := FindWordCandidates(words, dictionary);
    forall w, c | w in wc && c in wc[w]
      ensures c in dictionary.wordFrequencies
    {
    }
    assert OnStack(wc, words, dictionary);
  }

  /** Every solution selects the one map the search starts with. */
  lemma InitialComplete(ciphertext: seq<Letter>, words: set<Word>, dictionary: Dictionary)
    requires ValidDictionary(dictionary)
    ensures Complete(ciphertext, words, dictionary, map[], [FindWordCandidates(words, dictionary)])
  {
    var stack := [FindWordCandidates(words, dictionary)];
    forall g | words != {} && Solves(g, words, dictionary)
      ensures Reaches(g, words, stack)
    {
      SolutionInInitial(g, words, dictionary);
      assert Selects(Induced(g, words), stack[0]);
    }
  }

  /** Dropping a map whose pruning fails keeps the search state. */
  lemma PrunedAwayStep(ciphertext: seq<Letter>, words: set<Word>, dictionary: Dictionary,
                       rest: seq<CandidateWords>, top: CandidateWords, solutions: map<seq<Letter>, Cipher>)
    requires Tokens(words, dictionary.alphabet) && OnStack(top, words, dictionary)
    requires SearchState(ciphertext, words, dictionary, rest + [top], solutions)
    requires PruneWordCandidates(top, dictionary).None?
    ensures SearchState(ciphertext, words, dictionary, rest, solutions)
  {
    StackPop(rest + [top], rest, top, words, dictionary);
    PrunedAwayHandled(ciphertext, words, dictionary, top, solutions);
    CompleteStep(ciphertext, words, dictionary, solutions, solutions, rest, top, []);
    assert rest + [] == rest;
  }

  /** Replacing a pruned map by its partition, pushed in reverse, keeps the search state. */
  lemma BranchStep(ciphertext: seq<Letter>, words: set<Word>, dictionary: Dictionary,
                   rest: seq<CandidateWords>, top: CandidateWords, solutions: map<seq<Letter>, Cipher>,
                   pruned: CandidateWords, parts: seq<CandidateWords>, pushed: seq<CandidateWords>)
    requires Tokens(words, dictionary.alphabet) && OnStack(top, words, dictionary)
    requires SearchState(ciphertext, words, dictionary, rest + [top], solutions)
    requires PruneWordCandidates(top, dictionary) == Some(pruned)
    requires forall k :: 0 <= k < |parts| ==> Narrows(parts[k], pruned)
    requires forall choice :: Selects(choice, pruned) <==>
      exists k :: 0 <= k < |parts| && Selects(choice, parts[k])
    requires |pushed| == |parts| && forall k :: 0 <= k < |parts| ==> pushed[|parts| - 1 - k] == parts[k]
    ensures SearchState(ciphertext, words, dictionary, rest + pushed, solutions)
  {
    StackPop(rest + [top], rest, top, words, dictionary);
    BranchHandled(ciphertext, words, dictionary, top, solutions, parts, pushed);
    CompleteStep(ciphertext, words, dictionary, solutions, solutions, rest, top, pushed);
    PushedOnStack(top, pruned, parts, words, dictionary);
    forall k | 0 <= k < |rest + pushed|
      ensures OnStack((rest + pushed)[k], words, dictionary)
    {
      if k >= |rest| {
        assert pushed[k - |rest|] == parts[|parts| - 1 - (k - |rest|)];
      }
    }
  }

  /** Recording the plaintext of a leaf's cipher, unless it is already recorded, keeps the search complete. */
  lemma LeafStep(ciphertext: seq<Letter>, words: set<Word>, dictionary: Dictionary,
                 rest: seq<CandidateWords>, top: CandidateWords, solutions: map<seq<Letter>, Cipher>,
                 pruned: CandidateWords, leaf: Leaf, solutions': map<seq<Letter>, Cipher>)
    requires ValidDictionary(dictionary) && Tokens(words, dictionary.alphabet) && OnStack(top, words, dictionary)
    requires Complete(ciphertext, words, dictionary, solutions, rest + [top])
    requires PruneWordCandidates(top, dictionary) == Some(pruned) && Settled(pruned)
    requires leaf == FinalizeLeaf(pruned)
    requires leaf.Solved? && DecryptCiphertext(ciphertext, leaf.cipher) !in solutions ==>
      solutions' == solutions[DecryptCiphertext(ciphertext, leaf.cipher) := leaf.cipher]
    requires !(leaf.Solved? && DecryptCiphertext(ciphertext, leaf.cipher) !in solutions) ==> solutions' == solutions
    ensures Complete(ciphertext, words, dictionary, solutions', rest)
  {
    LeafHandled(ciphertext, words, dictionary, top, pruned, solutions');
    CompleteStep(ciphertext, words, dictionary, solutions, solutions', rest, top, []);
    assert rest + [] == rest;
  }

  /**
   * The branching step of the loop: partition a pruned map with a word of
   * several candidates and reverse the parts for pushing, so that the first
   * part is popped next. The parts cover the pruned map, and weigh less than
   * the map popped.
   */
  method PushPartition(words: set<Word>, top: CandidateWords, pruned: CandidateWords)
    returns (parts: seq<CandidateWords>, pushed: seq<CandidateWords>)
    requires top.Keys == words && pruned.Keys == words
    requires forall w :: w in top ==> pruned[w] != {} && pruned[w] <= top[w]
    requires exists w :: w in pruned && |pruned[w]| > 1
    ensures forall k :: 0 <= k < |parts| ==> Narrows(parts[k], pruned)
    ensures forall choice :: Selects(choice, pruned) <==>
      exists k :: 0 <= k < |parts| && Selects(choice, parts[k])
    ensures |pushed| == |parts| && forall k :: 0 <= k < |parts| ==> pushed[|parts| - 1 - k] == parts[k]
    ensures StackWeight(pushed, Base(words)) < Weight(top, Base(words))
  {
    ghost var pinned;
    parts, pinned := PartitionWordCandidates(pruned);
    pushed := Reversed(parts);
    var w :| w in pruned && |pruned[w]| > 1;
    assert w in MultiWords(pruned);
    BranchLighter(words, top, pruned, parts, pushed);
  }

  /** The branching case of an iteration: the popped map's partition replaces it on the stack. */
  method BranchOn(ciphertext: seq<Letter>, words: set<Word>, dictionary: Dictionary,
                  rest: seq<CandidateWords>, top: CandidateWords, solutions: map<seq<Letter>, Cipher>,
                  pruned: CandidateWords)
    returns (stack': seq<CandidateWords>)
    requires Tokens(words, dictionary.alphabet) && OnStack(top, words, dictionary)
    requires SearchState(ciphertext, words, dictionary, rest + [top], solutions)
    requires PruneWordCandidates(top, dictionary) == Some(pruned)
    requires exists w :: w in pruned && |pruned[w]| > 1
    ensures SearchState(ciphertext, words, dictionary, stack', solutions)
    ensures StackWeight(stack', Base(words)) < StackWeight(rest + [top], Base(words))
  {
    var parts, pushed := PushPartition(words, top, pruned);
    BranchStep(ciphertext, words, dictionary, rest, top, solutions, pruned, parts, pushed);
    stack' := rest + pushed;
    ReplaceLighter(rest, top, pushed, Base(words));
  }

  /** The leaf case of an iteration: the leaf's plaintext is recorded unless it already is. */
  method SettleLeaf(ciphertext: seq<Letter>, words: set<Word>, dictionary: Dictionary,
                    rest: seq<CandidateWords>, top: CandidateWords, solutions: map<seq<Letter>, Cipher>,
                    pruned: CandidateWords)
    returns (solutions': map<seq<Letter>, Cipher>)
    requires ValidDictionary(dictionary) && Tokens(words, dictionary.alphabet) && OnStack(top, words, dictionary)
    requires SearchState(ciphertext, words, dictionary, rest + [top], solutions) && StackOk(rest, words, dictionary)
    requires PruneWordCandidates(top, dictionary) == Some(pruned) && Settled(pruned)
    ensures SearchState(ciphertext, words, dictionary, rest, solutions')
    ensures |solutions'| <= |solutions| + 1
  {
    var leaf := FinalizeLeaf(pruned);
    solutions' := solutions;
    if leaf.Solved? {
      var plaintext := DecryptCiphertext(ciphertext, leaf.cipher);
      if plaintext !in solutions {
        solutions' := solutions[plaintext := leaf.cipher];
      }
    }
    RecordLeaf(ciphertext, words, dictionary, top, pruned, leaf, solutions, solutions');
    LeafStep(ciphertext, words, dictionary, rest, top, solutions, pruned, leaf, solutions');
  }

  /**
   * One iteration of the loop: pop a map and prune it; drop it when pruning
   * fails, push its partition when a word keeps several candidates, and
   * otherwise record the leaf's plaintext unless it is already recorded.
   * The stack gets lighter every time.
   */
  method SearchStep(ciphertext: seq<Letter>, words: set<Word>, dictionary: Dictionary,
                    stack: seq<CandidateWords>, solutions: map<seq<Letter>, Cipher>)
    returns (stack': seq<CandidateWords>, solutions': map<seq<Letter>, Cipher>)
    requires ValidDictionary(dictionary) && Tokens(words, dictionary.alphabet)
    requires stack != [] && SearchState(ciphertext, words, dictionary, stack, solutions)
    ensures SearchState(ciphertext, words, dictionary, stack', solutions')
    ensures |solutions'| <= |solutions| + 1
    ensures StackWeight(stack', Base(words)) < StackWeight(stack, Base(words))
  {
    var top := stack[|stack| - 1];
    var rest := stack[..|stack| - 1];
    assert stack == rest + [top];
    StackPop(stack, rest, top, words, dictionary);
    var wordCandidates := PruneWordCandidates(top, dictionary);
    if wordCandidates.None? {
      PrunedAwayStep(ciphertext, words, dictionary, rest, top, solutions);
      stack', solutions' := rest, solutions;
      PopLighter(rest, top, Base(words));
    } else if exists w :: w in wordCandidates.value && |wordCandidates.value[w]| > 1 {
      stack' := BranchOn(ciphertext, words, dictionary, rest, top, solutions, wordCandidates.value);
      solutions' := solutions;
    } else {
      solutions' := SettleLeaf(ciphertext, words, dictionary, rest, top, solutions, wordCandidates.value);
      stack' := rest;
      PopLighter(rest, top, Base(words));
    }
  }

  /**
   * solveCryptogram: every returned plaintext is the ciphertext decrypted by
   * its cipher, and every cipher solves the cryptogram on exactly the
   * ciphertext letters. At most `maxSolutionCount` are returned (one when it
   * is below one, since the loop body runs before the test). The loop runs
   * at most SearchBound times whatever the budget, and when the search stops
   * for neither the count nor the budget (in particular when the budget is at
   * least SearchBound), every solution of the cryptogram has its plaintext
   * among those returned.
   */
  method SolveCryptogram(ciphertext: seq<Letter>, words: set<Word>, dictionary: Dictionary,
                         maxSolutionCount: int, maxIterations: nat)
    returns (solutions: map<seq<Letter>, Cipher>, iterations: nat)
    requires ValidDictionary(dictionary) && Tokens(words, dictionary.alphabet)
    ensures |solutions| <= SolutionBound(maxSolutionCount)
    ensures forall p :: p in solutions ==> p == DecryptCiphertext(ciphertext, solutions[p])
    ensures forall p :: p in solutions ==>
      Solves(solutions[p], words, dictionary) && solutions[p].Keys == LettersOf(words)
    ensures words == {} ==> solutions == map[]
    ensures 1 <= iterations && (iterations <= maxIterations || iterations == 1)
    ensures iterations <= SearchBound(words, dictionary)
    ensures |solutions| < maxSolutionCount && (iterations < maxIterations || maxIterations >= SearchBound(words, dictionary)) ==>
      forall g :: words != {} && Solves(g, words, dictionary) ==> PlaintextOf(ciphertext, g, words) in solutions
  {
    solutions := map[];
    var wordCandidatesStack := [FindWordCandidates(words, dictionary)];
    iterations := 0;
    InitialState(ciphertext, words, dictionary);
    assert StackWeight(wordCandidatesStack, Base(words)) == SearchBound(words, dictionary) by {
      assert wordCandidatesStack[..0] == [];
    }
    var searching := true;
    while searching
      invariant SearchState(ciphertext, words, dictionary, wordCandidatesStack, solutions)
      invariant |solutions| <= SolutionBound(maxSolutionCount)
      invariant searching ==> wordCandidatesStack != [] && |solutions| < SolutionBound(maxSolutionCount)
      invariant searching ==> iterations < maxIterations || iterations == 0
      invariant !searching ==> 1 <= iterations && (iterations <= maxIterations || iterations == 1)
      invariant !searching ==>
        |solutions| >= maxSolutionCount || wordCandidatesStack == [] || iterations >= maxIterations
      invariant iterations + StackWeight(wordCandidatesStack, Base(words)) <= SearchBound(words, dictionary)
      decreases if searching then maxIterations - iterations + 1 else 0
    {
      wordCandidatesStack, solutions := SearchStep(ciphertext, words, dictionary, wordCandidatesStack, solutions);
      iterations := iterations + 1;
      searching := |solutions| < maxSolutionCount && |wordCandidatesStack| > 0 && iterations < maxIterations;
    }
    if |solutions| < maxSolutionCount && (iterations < maxIterations || maxIterations >= SearchBound(words, dictionary)) {
      StackWeightPositive(wordCandidatesStack, Base(words));
      Exhausted(ciphertext, words, dictionary, solutions);
    }
  }
}
