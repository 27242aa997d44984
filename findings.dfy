/**
 * A cryptogram on which solveCryptogram, as written, aborts
 * (src/services/cryptogram.server.ts:72-81 with the invariant of
 * computeCipher at :331-334).
 *
 * pruneWordCandidates filters the candidates once against the letter
 * candidates; it does not filter again with the letter candidates of what
 * survived. So every word can be left with one candidate while two of those
 * candidates still disagree on a letter. The search then takes the map for a
 * leaf, and computeCipher's invariant throws.
 *
 * The ciphertext words AB, AC, BEG and CFFF over a dictionary of PQ, RS, RT,
 * PU, QVX and TWWW: BEG forces B to Q and CFFF forces C to T, so AB keeps only
 * PQ and AC only RT, and A would have to be both P and R. The candidates of
 * findWordCandidates are computed from the patterns (InitialCandidates), the
 * letter candidates bounded from above by the single-candidate words and from
 * below by the soundness of computeLetterCandidates for two ciphers that
 * agree with some candidate of every word position by position
 * (LettersAtLeast), and the leaf follows (SampleAborts). The cryptogram has no
 * solution (SampleUnsolvable), so the corrected search returns none
 * (SolveSample).
 */
module Findings {
  import opened Wrappers
  import opened Sets
  import opened Patterns
  import opened Dictionaries
  import opened Propagation
  import opened Soundness
  import opened Branching
  import opened Finalize
  import opened Search

  const A: Letter := 65
  const B: Letter := 66
  const C: Letter := 67
  const E: Letter := 69
  const F: Letter := 70
  const G: Letter := 71
  const P: Letter := 80
  const Q: Letter := 81
  const R: Letter := 82
  const S: Letter := 83
  const T: Letter := 84
  const U: Letter := 85
  const V: Letter := 86
  const W: Letter := 87
  const X: Letter := 88

  const AB: Word := [A, B]
  const AC: Word := [A, C]
  const BEG: Word := [B, E, G]
  const CFFF: Word := [C, F, F, F]
  const PQ: Word := [P, Q]
  const RS: Word := [R, S]
  const RT: Word := [R, T]
  const PU: Word := [P, U]
  const QVX: Word := [Q, V, X]
  const TWWW: Word := [T, W, W, W]

  /** The alphabet of the dictionary loader: A to Z. */
  const SampleAlphabet: set<Letter> := set l | A <= l <= 90
  const SampleWords: set<Word> := {AB, AC, BEG, CFFF}
  const SampleFrequencies: map<Word, real> :=
    map[PQ := 1.0, RS := 1.0, RT := 1.0, PU := 1.0, QVX := 1.0, TWWW := 1.0]
  const Sample: Dictionary :=
    Dictionary(SampleAlphabet, SampleFrequencies, ComputePatternWords(SampleFrequencies.Keys))

  /** The candidate map findWordCandidates starts the search with. */
  const Initial: CandidateWords :=
    map[AB := {PQ, RS, RT, PU}, AC := {PQ, RS, RT, PU}, BEG := {QVX}, CFFF := {TWWW}]

  /** The words of the sample dictionary. */
  const SampleKeys: set<Word> := {PQ, RS, RT, PU, QVX, TWWW}

  /** A dictionary the loader could produce with the sample words over the sample alphabet. */
  predicate SampleDictionary(d: Dictionary) {
    ValidDictionary(d) && d.alphabet == SampleAlphabet && d.wordFrequencies.Keys == SampleKeys
  }

  /** The sample is such a dictionary ... */
  lemma SampleValid()
    ensures SampleDictionary(Sample)
  {
    assert SampleFrequencies.Keys == SampleKeys;
    assert forall w :: w in SampleKeys ==> OverAlphabet(w, SampleAlphabet);
  }

  /** ... and its ciphertext words are what the tokenizer yields. */
  lemma SampleTokens()
    ensures Tokens(SampleWords, SampleAlphabet) && AB in SampleWords
  {
  }

  /** The words of one length share a pattern: two distinct letters, three, or one then a triple. */
  lemma SamplePatterns()
    ensures Pattern(AB) == Pattern(PQ) == Pattern(RS) == Pattern(RT) == Pattern(PU) == Pattern(AC)
    ensures Pattern(BEG) == Pattern(QVX) && Pattern(CFFF) == Pattern(TWWW)
  {
    assert SameShape(AB, PQ) && SameShape(AB, RS) && SameShape(AB, RT) && SameShape(AB, PU) && SameShape(AB, AC);
    SameShapeSamePattern(AB, PQ);
    SameShapeSamePattern(AB, RS);
    SameShapeSamePattern(AB, RT);
    SameShapeSamePattern(AB, PU);
    SameShapeSamePattern(AB, AC);
    assert SameShape(BEG, QVX) && SameShape(CFFF, TWWW);
    SameShapeSamePattern(BEG, QVX);
    SameShapeSamePattern(CFFF, TWWW);
  }

  /** findWordCandidates gives each word the dictionary words of its pattern ... */
  lemma InitialHas(d: Dictionary)
    requires SampleDictionary(d)
    ensures var wc := FindWordCandidates(SampleWords, d);
      && wc.Keys == SampleWords
      && PQ in wc[AB] && RS in wc[AB] && RT in wc[AB] && PU in wc[AB]
      && PQ in wc[AC] && RS in wc[AC] && RT in wc[AC] && PU in wc[AC]
      && QVX in wc[BEG] && TWWW in wc[CFFF]
  {
    SamplePatterns();
  }

  /** ... and only dictionary words of its own length ... */
  lemma CandidatesFromDictionary(words: set<Word>, d: Dictionary)
    requires ValidDictionary(d)
    ensures var wc := FindWordCandidates(words, d);
      WellFormed(wc) && forall w, c :: w in wc && c in wc[w] ==> c in d.wordFrequencies
  {
  }

  /** ... of which the sample has four of two letters, one of three and one of four. */
  lemma KeysOfLength(c: Word)
    requires c in SampleKeys
    ensures |c| == 2 ==> c in {PQ, RS, RT, PU}
    ensures |c| == 3 ==> c == QVX
    ensures |c| == 4 ==> c == TWWW
  {
  }

  /** A candidate map with those members and no others is Initial. */
  lemma InitialExactly(wc: CandidateWords)
    requires wc.Keys == SampleWords && WellFormed(wc)
    requires forall w, c :: w in wc && c in wc[w] ==> c in SampleKeys
    requires PQ in wc[AB] && RS in wc[AB] && RT in wc[AB] && PU in wc[AB]
    requires PQ in wc[AC] && RS in wc[AC] && RT in wc[AC] && PU in wc[AC]
    requires QVX in wc[BEG] && TWWW in wc[CFFF]
    ensures wc == Initial
  {
    forall w, c | w in SampleWords && c in wc[w]
      ensures c in Initial[w]
    {
      KeysOfLength(c);
    }
    assert wc[AB] == Initial[AB];
    assert wc[AC] == Initial[AC];
    assert wc[BEG] == Initial[BEG];
    assert wc[CFFF] == Initial[CFFF];
  }

  /** So findWordCandidates starts the search with the map Initial. */
  lemma InitialCandidates(d: Dictionary)
    requires SampleDictionary(d)
    ensures FindWordCandidates(SampleWords, d) == Initial
  {
    InitialHas(d);
    CandidatesFromDictionary(SampleWords, d);
    InitialExactly(FindWordCandidates(SampleWords, d));
  }

  // ---------------------------------------------------------------------
  // computeLetterCandidates on Initial

  /** The candidate maps shaped like Initial. */
  predicate InitialShape(wc: CandidateWords) {
    InitialEntries(wc) && WordsOver(wc, SampleAlphabet)
  }

  /** The entries of InitialShape, without the alphabet. */
  predicate InitialEntries(wc: CandidateWords) {
    && wc.Keys == SampleWords && WellFormed(wc)
    && wc[AB] == {PQ, RS, RT, PU} && wc[AC] == {PQ, RS, RT, PU} && wc[BEG] == {QVX} && wc[CFFF] == {TWWW}
  }

  /** Initial is shaped like itself, and over the sample alphabet. */
  lemma InitialShaped()
    ensures InitialShape(Initial) && WordsOver(Initial, SampleAlphabet)
  {
  }

  /** BEG has the one candidate QVX, so the intersection leaves B at most Q ... */
  lemma IntersectedB(wc: CandidateWords, c: Letter)
    requires WellFormed(wc) && BEG in wc && wc[BEG] == {QVX}
    requires c in IntersectLetterCandidates(wc, SampleAlphabet)[B]
    ensures c == Q
  {
    assert forall j :: 0 <= j < |BEG| && BEG[j] == BEG[0] ==> j == 0;
    SingleCandidatePins(wc, SampleAlphabet, BEG, QVX, 0, c);
  }

  /** ... and CFFF has the one candidate TWWW, so C keeps at most T. */
  lemma IntersectedC(wc: CandidateWords, c: Letter)
    requires WellFormed(wc) && CFFF in wc && wc[CFFF] == {TWWW}
    requires c in IntersectLetterCandidates(wc, SampleAlphabet)[C]
    ensures c == T
  {
    assert forall j :: 0 <= j < |CFFF| && CFFF[j] == CFFF[0] ==> j == 0;
    SingleCandidatePins(wc, SampleAlphabet, CFFF, TWWW, 0, c);
  }

  /**
   * The one-to-one ciphers on the sample alphabet that send A to `a`, either P
   * or R, and B, C, E, F and G to Q, T, V, W and X.
   */
  predicate SampleImages(g: map<Letter, Letter>, a: Letter) {
    TotalCipher(g, SampleAlphabet) && ImagesOf(g, a)
  }

  /** The images of SampleImages, without the alphabet. */
  predicate ImagesOf(g: map<Letter, Letter>, a: Letter) {
    && (a == P || a == R)
    && A in g && B in g && C in g && E in g && F in g && G in g
    && g[A] == a && g[B] == Q && g[C] == T && g[E] == V && g[F] == W && g[G] == X
  }

  /** Such a cipher finds, for every position of every word, a candidate with its image there. */
  lemma SampleAligned(wc: CandidateWords, g: map<Letter, Letter>, a: Letter)
    requires InitialEntries(wc) && ImagesOf(g, a)
    ensures forall w, i :: w in wc && wc[w] != {} && 0 <= i < |w| && w[i] in g ==>
      g[w[i]] in Aligned(w, wc[w], w[i])
  {
    forall w, i | w in wc && wc[w] != {} && 0 <= i < |w| && w[i] in g
      ensures g[w[i]] in Aligned(w, wc[w], w[i])
    {
      if w == AB {
        AlignedAt(w, wc[w], if i == 0 && a == R then RS else PQ, i);
      } else if w == AC {
        AlignedAt(w, wc[w], if i == 0 && a == P then PQ else RT, i);
      } else if w == BEG {
        AlignedAt(w, wc[w], QVX, i);
      } else {
        AlignedAt(w, wc[w], TWWW, i);
      }
    }
  }

  /** A map with a left inverse is one-to-one. */
  lemma InverseInjective(f: map<Letter, Letter>, inv: map<Letter, Letter>)
    requires forall l :: l in f ==> f[l] in inv && inv[f[l]] == l
    ensures Injective(f)
  {
  }

  /** Such a cipher exists for both choices of `a`. */
  lemma SampleCipher(a: Letter) returns (g: map<Letter, Letter>)
    requires a == P || a == R
    ensures SampleImages(g, a)
  {
    var f := map[A := a, B := Q, C := T, E := V, F := W, G := X];
    assert f[A] == a && f[B] == Q && f[C] == T && f[E] == V && f[F] == W && f[G] == X;
    InverseInjective(f, map[a := A, Q := B, T := C, V := E, W := F, X := G]);
    assert f.Keys <= SampleAlphabet && f.Values <= SampleAlphabet;
    g := ExtendCipher(f, SampleAlphabet);
    assert A in f && B in f && C in f && E in f && F in f && G in f;
  }

  /** The intersection phase keeps those images ... */
  lemma SampleIntersectAllows(wc: CandidateWords, g: map<Letter, Letter>, a: Letter)
    requires InitialShape(wc) && SampleImages(g, a)
    ensures Allows(g, IntersectLetterCandidates(wc, SampleAlphabet))
  {
    SampleAligned(wc, g, a);
    IntersectAllows(g, wc, SampleAlphabet);
  }

  /** ... and so does the pigeonhole loop. */
  lemma SampleLettersAllow(wc: CandidateWords, g: map<Letter, Letter>, a: Letter)
    requires InitialShape(wc) && SampleImages(g, a)
    ensures Allows(g, LetterCandidates(wc, SampleAlphabet))
  {
    SampleIntersectAllows(wc, g, a);
    PigeonholeSound(g, IntersectLetterCandidates(wc, SampleAlphabet));
  }

  /** So computeLetterCandidates keeps P and R for A, and Q, T, V, W, X for B, C, E, F, G. */
  lemma LettersAtLeast(wc: CandidateWords, a: Letter)
    requires InitialShape(wc) && (a == P || a == R)
    ensures var lc := LetterCandidates(wc, SampleAlphabet);
      a in lc[A] && Q in lc[B] && T in lc[C] && V in lc[E] && W in lc[F] && X in lc[G]
  {
    var g := SampleCipher(a);
    SampleLettersAllow(wc, g, a);
  }

  /**
   * The letter candidates computeLetterCandidates leaves on Initial, as far as
   * pruning looks at them: A keeps P and R, B only Q and C only T.
   */
  predicate LettersShape(lc: CandidateLetters) {
    && lc.Keys == SampleAlphabet
    && P in lc[A] && R in lc[A] && Q in lc[B] && lc[B] <= {Q} && T in lc[C] && lc[C] <= {T}
    && V in lc[E] && W in lc[F] && X in lc[G]
  }

  /** Pigeonholing only deletes, so B keeps at most Q ... */
  lemma LettersAtMostB(wc: CandidateWords)
    requires WellFormed(wc) && BEG in wc && wc[BEG] == {QVX}
    ensures LetterCandidates(wc, SampleAlphabet)[B] <= {Q}
  {
    forall c | c in LetterCandidates(wc, SampleAlphabet)[B]
      ensures c == Q
    {
      IntersectedB(wc, c);
    }
  }

  /** ... and C at most T. */
  lemma LettersAtMostC(wc: CandidateWords)
    requires WellFormed(wc) && CFFF in wc && wc[CFFF] == {TWWW}
    ensures LetterCandidates(wc, SampleAlphabet)[C] <= {T}
  {
    forall c | c in LetterCandidates(wc, SampleAlphabet)[C]
      ensures c == T
    {
      IntersectedC(wc, c);
    }
  }

  /** The letter candidates on Initial are as pruning needs them. */
  lemma SampleLetters(wc: CandidateWords)
    requires InitialShape(wc)
    ensures LettersShape(LetterCandidates(wc, SampleAlphabet))
  {
    LettersAtLeast(wc, P);
    LettersAtLeast(wc, R);
    LettersAtMostB(wc);
    LettersAtMostC(wc);
  }

  /** Pruning keeps PQ for AB: S, T and U are not candidates of B ... */
  lemma FilteredAB(wc: CandidateWords, lc: CandidateLetters)
    requires InitialShape(wc) && LettersShape(lc)
    ensures Filtered(wc, lc)[AB] == {PQ}
  {
    assert PairsAllowed(lc, AB, PQ);
    assert !PairsAllowed(lc, AB, RS) && !PairsAllowed(lc, AB, RT) && !PairsAllowed(lc, AB, PU) by {
      assert AB[1] == B;
    }
  }

  /** ... RT for AC: Q, S and U are not candidates of C ... */
  lemma FilteredAC(wc: CandidateWords, lc: CandidateLetters)
    requires InitialShape(wc) && LettersShape(lc)
    ensures Filtered(wc, lc)[AC] == {RT}
  {
    assert PairsAllowed(lc, AC, RT);
    assert !PairsAllowed(lc, AC, PQ) && !PairsAllowed(lc, AC, RS) && !PairsAllowed(lc, AC, PU) by {
      assert AC[1] == C;
    }
  }

  /** ... and the only candidates of BEG and CFFF. */
  lemma FilteredSingles(wc: CandidateWords, lc: CandidateLetters)
    requires InitialShape(wc) && LettersShape(lc)
    ensures Filtered(wc, lc)[BEG] == {QVX} && Filtered(wc, lc)[CFFF] == {TWWW}
  {
    assert PairsAllowed(lc, BEG, QVX);
    assert PairsAllowed(lc, CFFF, TWWW);
  }

  /** The map pruning leaves: one candidate per word. */
  predicate PrunedShape(wc: CandidateWords) {
    && wc.Keys == SampleWords
    && wc[AB] == {PQ} && wc[AC] == {RT} && wc[BEG] == {QVX} && wc[CFFF] == {TWWW}
  }

  /** So filtering leaves one candidate per word. */
  lemma FilteredShape(wc: CandidateWords, lc: CandidateLetters)
    requires InitialShape(wc) && LettersShape(lc)
    ensures PrunedShape(Filtered(wc, lc))
  {
    FilteredAB(wc, lc);
    FilteredAC(wc, lc);
    FilteredSingles(wc, lc);
  }

  /** Such a map is a leaf: every word has exactly one candidate. */
  lemma PrunedSettled(wc: CandidateWords)
    requires PrunedShape(wc)
    ensures wc != map[] && Settled(wc) && forall w :: w in wc ==> wc[w] != {}
  {
    assert AB in wc;
    forall w | w in wc
      ensures |wc[w]| == 1
    {
      assert w == AB || w == AC || w == BEG || w == CFFF;
    }
  }

  /** pruneWordCandidates on Initial succeeds, with one candidate per word. */
  lemma SamplePruned(wc: CandidateWords, dictionary: Dictionary)
    requires InitialShape(wc) && dictionary.alphabet == SampleAlphabet
    ensures PruneWordCandidates(wc, dictionary).Some?
    ensures PrunedShape(PruneWordCandidates(wc, dictionary).value)
  {
    var lc := LetterCandidates(wc, SampleAlphabet);
    SampleLetters(wc);
    var pruned := Filtered(wc, lc);
    FilteredShape(wc, lc);
    PrunedSettled(pruned);
    assert PruneWordCandidates(wc, dictionary) == Some(pruned);
  }

  /**
   * The leaf that map is, as the source handles it, aborts the search: the
   * assignment sends A to P by AB and to R by AC, and computeCipher rejects it.
   * The corrected leaf is a dead end.
   */
  lemma PrunedLeaf(wc: CandidateWords)
    requires PrunedShape(wc)
    ensures Settled(wc)
    ensures FinalizeLeafAsWritten(wc) == Aborted
    ensures FinalizeLeaf(wc) == DeadEnd
  {
    PrunedSettled(wc);
    var assignment := Assignment(wc);
    assert assignment[AB] == PQ && assignment[AC] == RT;
    assert SameLengths(assignment);
    ConflictFails(assignment, AB, 0, AC, 0);
  }

  /** The candidate map of ciphertext words over the alphabet is over the alphabet. */
  lemma CandidatesOver(words: set<Word>, dictionary: Dictionary)
    requires ValidDictionary(dictionary) && Tokens(words, dictionary.alphabet)
    ensures WordsOver(FindWordCandidates(words, dictionary), dictionary.alphabet)
  {
  }

  /** The candidates of the sample are shaped like Initial. */
  lemma CandidatesShaped(dictionary: Dictionary)
    requires SampleDictionary(dictionary)
    ensures InitialShape(FindWordCandidates(SampleWords, dictionary))
  {
    InitialCandidates(dictionary);
    InitialShaped();
  }

  /**
   * On the sample, the first step of the search as written aborts, since
   * pruning the candidates of findWordCandidates leaves a conflicting leaf;
   * the corrected step drops that leaf.
   */
  lemma SampleAborts(dictionary: Dictionary)
    requires SampleDictionary(dictionary)
    ensures WordsOver(FindWordCandidates(SampleWords, dictionary), dictionary.alphabet)
    ensures var pruned := PruneWordCandidates(FindWordCandidates(SampleWords, dictionary), dictionary);
      && pruned.Some? && Settled(pruned.value)
      && FinalizeLeafAsWritten(pruned.value) == Aborted
      && FinalizeLeaf(pruned.value) == DeadEnd
  {
    var wc := FindWordCandidates(SampleWords, dictionary);
    CandidatesShaped(dictionary);
    SamplePruned(wc, dictionary);
    PrunedLeaf(PruneWordCandidates(wc, dictionary).value);
  }

  /** The sample dictionary is one such dictionary. */
  lemma SampleAbortsOnSample()
    ensures SampleDictionary(Sample)
    ensures WordsOver(FindWordCandidates(SampleWords, Sample), SampleAlphabet)
    ensures var pruned := PruneWordCandidates(FindWordCandidates(SampleWords, Sample), Sample);
      && pruned.Some? && Settled(pruned.value) && FinalizeLeafAsWritten(pruned.value) == Aborted
  {
    SampleValid();
    SampleAborts(Sample);
  }

  /** A solution survives pruning the candidates of findWordCandidates. */
  lemma SolutionSurvivesPrune(words: set<Word>, dictionary: Dictionary, g: Cipher)
    requires ValidDictionary(dictionary) && Tokens(words, dictionary.alphabet) && words != {}
    requires Solves(g, words, dictionary)
    ensures WordsOver(FindWordCandidates(words, dictionary), dictionary.alphabet)
    ensures var pruned := PruneWordCandidates(FindWordCandidates(words, dictionary), dictionary);
      pruned.Some? && pruned.value.Keys == words && Selects(Induced(g, words), pruned.value)
  {
    var wc := FindWordCandidates(words, dictionary);
    CandidatesOver(words, dictionary);
    CandidatesFromDictionary(words, dictionary);
    SolutionInInitial(g, words, dictionary);
    PruneKeepsSolution(g, wc, words, dictionary);
  }

  /**
   * The sample cryptogram has no solution: a solution would survive pruning
   * into that leaf, and the leaf would then yield it instead of being a dead
   * end.
   */
  lemma SampleUnsolvable(dictionary: Dictionary, g: Cipher)
    requires SampleDictionary(dictionary)
    ensures !Solves(g, SampleWords, dictionary)
  {
    if Solves(g, SampleWords, dictionary) {
      var wc := FindWordCandidates(SampleWords, dictionary);
      SampleTokens();
      SolutionSurvivesPrune(SampleWords, dictionary, g);
      SampleAborts(dictionary);
      var pruned := PruneWordCandidates(wc, dictionary).value;
      LeafFindsSolution(g, pruned, SampleWords, dictionary);
      assert false;
    }
  }

  /** The sample ciphertext: its four words separated by spaces. */
  const SampleCiphertext: seq<Letter> := AB + [32] + AC + [32] + BEG + [32] + CFFF

  /**
   * The corrected search on the sample, with any bounds, answers that there
   * is no solution, where the search as written aborts.
   */
  method SolveSample(dictionary: Dictionary, maxSolutionCount: int, maxIterations: nat)
    returns (solutions: map<seq<Letter>, Cipher>)
    requires SampleDictionary(dictionary)
    ensures solutions == map[]
  {
    SampleTokens();
    var iterations;
    solutions, iterations := SolveCryptogram(SampleCiphertext, SampleWords, dictionary, maxSolutionCount, maxIterations);
    if solutions != map[] {
      var p := Pick(solutions.Keys);
      SampleUnsolvable(dictionary, solutions[p]);
      assert false;
    }
  }
}
