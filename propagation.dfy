/**
 * Candidate lookup and constraint propagation (src/services/cryptogram.server.ts):
 * which plaintext words each ciphertext word may stand for, which plaintext
 * letters each ciphertext letter may stand for, and the pruning of word
 * candidates against those letters.
 */
module Propagation {
  import opened Wrappers
  import opened Patterns
  import opened Dictionaries

  /** Ciphertext word -> the plaintext words it may decrypt to. */
  type CandidateWords = map<Word, set<Word>>
  /** Ciphertext letter -> the plaintext letters it may decrypt to. */
  type CandidateLetters = map<Letter, set<Letter>>

  /** Every candidate is as long as its ciphertext word, so zipping them never fails. */
  predicate WellFormed(wc: CandidateWords) {
    forall w, c :: w in wc && c in wc[w] ==> |c| == |w|
  }

  /** Every ciphertext word is over the alphabet (what the tokenizer produces). */
  predicate WordsOver(wc: CandidateWords, alphabet: set<Letter>) {
    forall w :: w in wc ==> OverAlphabet(w, alphabet)
  }

  /**
   * zipWords: the position-aligned letter pairs of two words; the source's
   * length invariant failing is None.
   */
  function ZipWords(word1: Word, word2: Word): (r: Option<seq<(Letter, Letter)>>)
    ensures r.Some? <==> |word1| == |word2|
    ensures r.Some? ==> |r.value| == |word1|
  {
    if |word1| != |word2| then None
    else Some(seq(|word1|, i requires 0 <= i < |word1| => (word1[i], word2[i])))
  }

  /** Unzipping the pairs gives back both words. */
  lemma ZipUnzip(word1: Word, word2: Word)
    requires |word1| == |word2|
    ensures var pairs := ZipWords(word1, word2).value;
      && seq(|pairs|, i requires 0 <= i < |pairs| => pairs[i].0) == word1
      && seq(|pairs|, i requires 0 <= i < |pairs| => pairs[i].1) == word2
  {
  }

  /**
   * findWordCandidates: each ciphertext word is mapped to exactly the
   * dictionary words that share its pattern.
   */
  function FindWordCandidates(words: set<Word>, dictionary: Dictionary): (r: CandidateWords)
    requires ValidDictionary(dictionary)
    ensures r.Keys == words
    ensures forall w, c :: w in r ==>
      (c in r[w] <==> c in dictionary.wordFrequencies && Pattern(c) == Pattern(w))
    ensures WellFormed(r)
  {
    map w | w in words ::
      if Pattern(w) in dictionary.patternWords then dictionary.patternWords[Pattern(w)] else {}
  }

  // ---------------------------------------------------------------------
  // Intersection phase of computeLetterCandidates

  /** The plaintext letters that the candidates put where `word` has `l`. */
  function Aligned(word: Word, cands: set<Word>, l: Letter): set<Letter>
    requires forall c :: c in cands ==> |c| == |word|
  {
    set c, i | c in cands && 0 <= i < |word| && word[i] == l :: c[i]
  }

  /** A letter is aligned with exactly the second letters of its zipped pairs with some candidate. */
  lemma AlignedZipped(word: Word, cands: set<Word>, l: Letter, m: Letter)
    requires forall c :: c in cands ==> |c| == |word|
    ensures m in Aligned(word, cands, l) <==> exists c :: c in cands && (l, m) in ZipWords(word, c).value
  {
    if m in Aligned(word, cands, l) {
      var c, i :| c in cands && 0 <= i < |word| && word[i] == l && c[i] == m;
      assert ZipWords(word, c).value[i] == (l, m);
    }
    if c :| c in cands && (l, m) in ZipWords(word, c).value {
      var i :| 0 <= i < |word| && ZipWords(word, c).value[i] == (l, m);
      assert word[i] == l && c[i] == m;
    }
  }

  /**
   * One word's grouping of its zipped pairs by ciphertext letter: a letter is a
   * key exactly when some pair has it.
   */
  function WordLetterGroups(word: Word, cands: set<Word>): (r: map<Letter, set<Letter>>)
    requires forall c :: c in cands ==> |c| == |word|
    ensures forall l :: l in r <==> l in word && cands != {}
  {
    map l | l in word && cands != {} :: Aligned(word, cands, l)
  }

  /** Whether every one of `words` that groups `l` lets it decrypt to `c`. */
  predicate AllowedBy(wc: CandidateWords, words: set<Word>, l: Letter, c: Letter)
    requires WellFormed(wc) && words <= wc.Keys
  {
    forall w :: w in words && l in WordLetterGroups(w, wc[w]) ==> c in WordLetterGroups(w, wc[w])[l]
  }

  /**
   * The result of the intersection phase: every alphabet letter starts at the
   * whole alphabet and is intersected with each word's grouping.
   */
  function IntersectLetterCandidates(wc: CandidateWords, alphabet: set<Letter>): (r: CandidateLetters)
    requires WellFormed(wc)
    ensures r.Keys == alphabet
    ensures forall l :: l in r ==> r[l] <= alphabet
    ensures forall l :: l in alphabet && (forall w :: w in wc ==> l !in w) ==> r[l] == alphabet
  {
    map l | l in alphabet :: set c | c in alphabet && AllowedBy(wc, wc.Keys, l, c)
  }

  /** The candidate `cand` puts its letter at position `i` beside the ciphertext letter there. */
  lemma AlignedAt(word: Word, cands: set<Word>, cand: Word, i: int)
    requires forall c :: c in cands ==> |c| == |word|
    requires cand in cands && 0 <= i < |word|
    ensures cand[i] in Aligned(word, cands, word[i])
  {
  }

  /**
   * After the intersection phase a letter keeps exactly the alphabet letters
   * that every word containing it, if it has candidates, puts beside it.
   */
  lemma IntersectedAt(wc: CandidateWords, alphabet: set<Letter>, l: Letter, c: Letter)
    requires WellFormed(wc) && l in alphabet
    ensures c in IntersectLetterCandidates(wc, alphabet)[l] <==>
      c in alphabet && forall w :: w in wc && l in w && wc[w] != {} ==> c in Aligned(w, wc[w], l)
  {
    if c in alphabet && forall w :: w in wc && l in w && wc[w] != {} ==> c in Aligned(w, wc[w], l) {
      assert AllowedBy(wc, wc.Keys, l, c);
    }
  }

  /**
   * A word with a single candidate pins each of its letters: after the
   * intersection phase the letter at position `i` keeps at most the
   * candidate's letter there (when the candidate repeats it wherever the
   * word repeats that letter).
   */
  lemma SingleCandidatePins(wc: CandidateWords, alphabet: set<Letter>, word: Word, cand: Word, i: int, c: Letter)
    requires WellFormed(wc) && word in wc && wc[word] == {cand} && 0 <= i < |word| && word[i] in alphabet
    requires forall j :: 0 <= j < |word| && word[j] == word[i] ==> cand[j] == cand[i]
    requires c in IntersectLetterCandidates(wc, alphabet)[word[i]]
    ensures c == cand[i]
  {
    IntersectedAt(wc, alphabet, word[i], c);
    var cand', j :| cand' in wc[word] && 0 <= j < |word| && word[j] == word[i] && c == cand'[j];
  }

  // ---------------------------------------------------------------------
  // Pigeonhole elimination of computeLetterCandidates

  /** The letters whose candidate set is exactly `s`. */
  function Sharing(lc: CandidateLetters, s: set<Letter>): set<Letter> {
    set l | l in lc && lc[l] == s
  }

  /** Letters grouped by their candidate sets. */
  function Groups(lc: CandidateLetters): map<set<Letter>, set<Letter>> {
    map s | s in lc.Values :: Sharing(lc, s)
  }

  /**
   * The source's removal condition: `letters` share exactly `s`, and either they
   * are as many as `s` and `l` is not one of them, or they outnumber `s`.
   */
  predicate Pigeonholed(s: set<Letter>, letters: set<Letter>, l: Letter) {
    (|s| == |letters| && l !in letters) || |s| < |letters|
  }

  /** The union of the sets, among `keys`, of the groups that pigeonhole `l`. */
  function RemovedBy(groups: map<set<Letter>, set<Letter>>, keys: set<set<Letter>>, l: Letter): set<Letter> {
    set s, c | s in keys && s in groups && Pigeonholed(s, groups[s], l) && c in s :: c
  }

  /** Everything one pass removes from `l`. */
  function Removed(groups: map<set<Letter>, set<Letter>>, l: Letter): set<Letter> {
    RemovedBy(groups, groups.Keys, l)
  }

  /** One pass of the do/while loop, with the groups taken before the pass. */
  function PigeonholePass(lc: CandidateLetters): (r: CandidateLetters)
    ensures r.Keys == lc.Keys
    ensures forall l :: l in lc ==> r[l] <= lc[l]
  {
    var groups := Groups(lc);
    map l | l in lc :: lc[l] - Removed(groups, l)
  }

  /** All (letter, candidate) pairs: the measure the pigeonhole loop shrinks. */
  function CandidatePairs(lc: CandidateLetters): set<(Letter, Letter)> {
    set l, c | l in lc && c in lc[l] :: (l, c)
  }

  /** A pass that changes something deletes at least one pair and adds none. */
  lemma PassShrinks(lc: CandidateLetters)
    requires PigeonholePass(lc) != lc
    ensures CandidatePairs(PigeonholePass(lc)) < CandidatePairs(lc)
  {
    var next := PigeonholePass(lc);
    var l :| l in lc && next[l] != lc[l];
    var c :| c in lc[l] && c !in next[l];
    assert (l, c) in CandidatePairs(lc);
  }

  /**
   * The fixed point of the pigeonhole loop. It only deletes candidates, and
   * a further pass would change nothing.
   */
  function Pigeonhole(lc: CandidateLetters): (r: CandidateLetters)
    ensures r.Keys == lc.Keys
    ensures forall l :: l in lc ==> r[l] <= lc[l]
    ensures PigeonholePass(r) == r
    decreases CandidatePairs(lc)
  {
    var next := PigeonholePass(lc);
    if next == lc then lc
    else
      PassShrinks(lc);
      Pigeonhole(next)
  }

  /** computeLetterCandidates: the intersection phase followed by the pigeonhole fixed point. */
  function LetterCandidates(wc: CandidateWords, alphabet: set<Letter>): (r: CandidateLetters)
    requires WellFormed(wc)
    ensures r.Keys == alphabet
    ensures forall l :: l in r ==> r[l] <= IntersectLetterCandidates(wc, alphabet)[l]
  {
    Pigeonhole(IntersectLetterCandidates(wc, alphabet))
  }

  /** One letter after a pass. */
  lemma PassAt(lc: CandidateLetters, l: Letter)
    requires l in lc
    ensures PigeonholePass(lc)[l] == lc[l] - Removed(Groups(lc), l)
  {
  }

  /** A group that pigeonholes `l` has all of its set removed from `l`. */
  lemma GroupRemoves(lc: CandidateLetters, s: set<Letter>, l: Letter)
    requires s in lc.Values && Pigeonholed(s, Sharing(lc, s), l)
    ensures s <= Removed(Groups(lc), l)
  {
    var groups := Groups(lc);
    assert s in groups && groups[s] == Sharing(lc, s);
    forall c | c in s
      ensures c in Removed(groups, l)
    {
    }
  }

  /**
   * At the fixed point, a candidate set shared by exactly as many letters as
   * it has elements belongs to those letters alone.
   */
  lemma FixedPointExclusive(lc: CandidateLetters, l: Letter, m: Letter)
    requires PigeonholePass(lc) == lc
    requires l in lc && m in lc && |Sharing(lc, lc[l])| == |lc[l]| && m !in Sharing(lc, lc[l])
    ensures lc[m] * lc[l] == {}
  {
    GroupRemoves(lc, lc[l], m);
    PassAt(lc, m);
  }

  /** At the fixed point no non-empty candidate set is shared by more letters than it has elements. */
  lemma FixedPointNotOversubscribed(lc: CandidateLetters, l: Letter)
    requires PigeonholePass(lc) == lc
    requires l in lc && lc[l] != {}
    ensures |Sharing(lc, lc[l])| <= |lc[l]|
  {
    var s := lc[l];
    if |s| < |Sharing(lc, s)| {
      GroupRemoves(lc, s, l);
      PassAt(lc, l);
      assert false;
    }
  }

  /** A set shared by more letters than it has elements is removed from every letter. */
  lemma OversubscribedRemoved(lc: CandidateLetters, s: set<Letter>, m: Letter)
    requires s in lc.Values && |Sharing(lc, s)| > |s| && m in lc
    ensures PigeonholePass(lc)[m] * s == {}
  {
    GroupRemoves(lc, s, m);
    PassAt(lc, m);
  }

  // ---------------------------------------------------------------------
  // pruneWordCandidates

  /** Every zipped pair of `word` and `cand` is allowed by the letter candidates. */
  predicate PairsAllowed(lc: CandidateLetters, word: Word, cand: Word)
    requires |cand| == |word| && forall i :: 0 <= i < |word| ==> word[i] in lc
  {
    forall i :: 0 <= i < |word| ==> cand[i] in lc[word[i]]
  }

  /** The filter of pruneWordCandidates, stated over the zipped pairs. */
  lemma PairsAllowedZipped(lc: CandidateLetters, word: Word, cand: Word)
    requires |cand| == |word| && forall i :: 0 <= i < |word| ==> word[i] in lc
    ensures PairsAllowed(lc, word, cand) <==>
      forall p :: p in ZipWords(word, cand).value ==> p.0 in lc && p.1 in lc[p.0]
  {
    var pairs := ZipWords(word, cand).value;
    if PairsAllowed(lc, word, cand) {
      forall p | p in pairs
        ensures p.0 in lc && p.1 in lc[p.0]
      {
        var i :| 0 <= i < |pairs| && pairs[i] == p;
      }
    }
    if forall p :: p in pairs ==> p.0 in lc && p.1 in lc[p.0] {
      forall i | 0 <= i < |word|
        ensures cand[i] in lc[word[i]]
      {
        assert pairs[i] in pairs;
      }
    }
  }

  /** The candidates of each word that agree with the letter candidates. */
  function Filtered(wc: CandidateWords, lc: CandidateLetters): (r: CandidateWords)
    requires WellFormed(wc)
    requires forall w, i :: w in wc && 0 <= i < |w| ==> w[i] in lc
    ensures r.Keys == wc.Keys
    ensures forall w :: w in wc ==> r[w] <= wc[w]
    ensures forall w, c :: w in wc && c in wc[w] ==> (c in r[w] <==> PairsAllowed(lc, w, c))
  {
    map w | w in wc :: set c | c in wc[w] && PairsAllowed(lc, w, c)
  }

  /** No candidate of `w` agrees with the letter candidates. */
  predicate NoneAllowed(wc: CandidateWords, alphabet: set<Letter>, w: Word)
    requires WellFormed(wc) && WordsOver(wc, alphabet) && w in wc
  {
    forall c :: c in wc[w] ==> !PairsAllowed(LetterCandidates(wc, alphabet), w, c)
  }

  /**
   * pruneWordCandidates: keeps exactly the input words, each with the
   * candidates allowed by the letter candidates; absent exactly when there
   * is no word or some word is left without a candidate.
   */
  function PruneWordCandidates(wc: CandidateWords, dictionary: Dictionary): (r: Option<CandidateWords>)
    requires WellFormed(wc) && WordsOver(wc, dictionary.alphabet)
    ensures r.Some? ==> r.value.Keys == wc.Keys && WellFormed(r.value)
    ensures r.Some? ==> forall w :: w in wc ==> r.value[w] != {} && r.value[w] <= wc[w]
    ensures r.Some? ==> forall w, c :: w in wc && c in wc[w] ==>
      (c in r.value[w] <==> PairsAllowed(LetterCandidates(wc, dictionary.alphabet), w, c))
    ensures r.None? <==> (wc == map[] || exists w :: w in wc && NoneAllowed(wc, dictionary.alphabet, w))
  {
    var lc := LetterCandidates(wc, dictionary.alphabet);
    var pruned := Filtered(wc, lc);
    if pruned != map[] && forall w :: w in pruned ==> pruned[w] != {} then Some(pruned) else None
  }

  /**
   * A ciphertext letter left with no candidate dooms every word containing
   * it, so pruning fails; in particular after an over-subscribed group.
   */
  lemma EmptyLetterFailsPrune(wc: CandidateWords, dictionary: Dictionary, w: Word, l: Letter)
    requires WellFormed(wc) && WordsOver(wc, dictionary.alphabet)
    requires w in wc && l in w && LetterCandidates(wc, dictionary.alphabet)[l] == {}
    ensures PruneWordCandidates(wc, dictionary).None?
  {
    var lc := LetterCandidates(wc, dictionary.alphabet);
    var i :| 0 <= i < |w| && w[i] == l;
    forall c | c in wc[w]
      ensures !PairsAllowed(lc, w, c)
    {
      assert c[i] !in lc[w[i]];
    }
  }
}
