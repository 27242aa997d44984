/**
 * Soundness of candidate propagation: a one-to-one cipher that decrypts every
 * ciphertext word to one of its candidates is never excluded by
 * computeLetterCandidates, and pruneWordCandidates keeps every candidate it
 * decrypts to (src/services/cryptogram.server.ts:127-262).
 */
module Soundness {
  import opened Sets
  import opened Patterns
  import opened Dictionaries
  import opened Propagation

  /** `g` is a one-to-one cipher on every alphabet letter, into the alphabet. */
  predicate TotalCipher(g: map<Letter, Letter>, alphabet: set<Letter>) {
    && g.Keys == alphabet
    && (forall l :: l in g ==> g[l] in alphabet)
    && Injective(g)
  }

  /** `g` decrypts ciphertext word `w` to `c`. */
  predicate Decrypts(g: map<Letter, Letter>, w: Word, c: Word) {
    |c| == |w| && forall i :: 0 <= i < |w| ==> w[i] in g && g[w[i]] == c[i]
  }

  /** `g` decrypts every ciphertext word to one of its candidates. */
  predicate Consistent(g: map<Letter, Letter>, wc: CandidateWords) {
    forall w :: w in wc ==> exists c :: c in wc[w] && Decrypts(g, w, c)
  }

  /** Every letter's image under `g` is among its candidates. */
  predicate Allows(g: map<Letter, Letter>, lc: CandidateLetters) {
    forall l :: l in g ==> l in lc && g[l] in lc[l]
  }

  /**
   * The intersection phase keeps the image of every letter: each word that
   * contains the letter has a candidate putting that image beside it.
   */
  lemma IntersectSound(g: map<Letter, Letter>, wc: CandidateWords, alphabet: set<Letter>)
    requires WellFormed(wc) && TotalCipher(g, alphabet) && Consistent(g, wc)
    ensures Allows(g, IntersectLetterCandidates(wc, alphabet))
  {
    var r := IntersectLetterCandidates(wc, alphabet);
    forall l | l in g
      ensures g[l] in r[l]
    {
      forall w | w in wc && l in WordLetterGroups(w, wc[w])
        ensures g[l] in WordLetterGroups(w, wc[w])[l]
      {
        var c :| c in wc[w] && Decrypts(g, w, c);
        var i :| 0 <= i < |w| && w[i] == l;
        assert c[i] == g[l];
      }
    }
  }

  /**
   * The intersection phase keeps the image of every letter that each word
   * with candidates puts, by some candidate, beside every position of it.
   */
  lemma IntersectAllows(g: map<Letter, Letter>, wc: CandidateWords, alphabet: set<Letter>)
    requires WellFormed(wc) && TotalCipher(g, alphabet)
    requires forall w, i :: w in wc && wc[w] != {} && 0 <= i < |w| && w[i] in g ==>
      g[w[i]] in Aligned(w, wc[w], w[i])
    ensures Allows(g, IntersectLetterCandidates(wc, alphabet))
  {
    forall l | l in g
      ensures g[l] in IntersectLetterCandidates(wc, alphabet)[l]
    {
      forall w | w in wc && l in w && wc[w] != {}
        ensures g[l] in Aligned(w, wc[w], l)
      {
        var i :| 0 <= i < |w| && w[i] == l;
      }
      IntersectedAt(wc, alphabet, l, g[l]);
    }
  }

  /**
   * A pigeonhole pass keeps the image of every letter: a group that
   * pigeonholes `l` and holds `g[l]` would have `g` put more letters into its
   * set than it has elements.
   */
  lemma PassSound(g: map<Letter, Letter>, lc: CandidateLetters)
    requires Injective(g) && lc.Keys == g.Keys && Allows(g, lc)
    ensures Allows(g, PigeonholePass(lc))
  {
    var groups := Groups(lc);
    forall l | l in g
      ensures g[l] in PigeonholePass(lc)[l]
    {
      PassAt(lc, l);
      if g[l] in Removed(groups, l) {
        var s :| s in groups && Pigeonholed(s, groups[s], l) && g[l] in s;
        var sharing := groups[s];
        assert sharing == Sharing(lc, s);
        var into := if l in sharing then sharing else sharing + {l};
        assert Image(g, into) <= s;
        ImageCard(g, into);
        SubsetCard(Image(g, into), s);
        assert false;
      }
    }
  }

  /** The pigeonhole fixed point keeps the image of every letter. */
  lemma {:induction false} PigeonholeSound(g: map<Letter, Letter>, lc: CandidateLetters)
    requires Injective(g) && lc.Keys == g.Keys && Allows(g, lc)
    ensures Allows(g, Pigeonhole(lc))
    decreases CandidatePairs(lc)
  {
    var next := PigeonholePass(lc);
    PassSound(g, lc);
    if next != lc {
      PassShrinks(lc);
      PigeonholeSound(g, next);
    }
  }

  /** computeLetterCandidates never excludes a consistent one-to-one cipher. */
  lemma LetterCandidatesSound(g: map<Letter, Letter>, wc: CandidateWords, alphabet: set<Letter>)
    requires WellFormed(wc) && TotalCipher(g, alphabet) && Consistent(g, wc)
    ensures Allows(g, LetterCandidates(wc, alphabet))
  {
    IntersectSound(g, wc, alphabet);
    PigeonholeSound(g, IntersectLetterCandidates(wc, alphabet));
  }

  /**
   * pruneWordCandidates never loses a solution: when a one-to-one cipher on
   * the alphabet decrypts every word to one of its candidates, pruning
   * succeeds and keeps every candidate that cipher decrypts to.
   */
  lemma PruneSound(g: map<Letter, Letter>, wc: CandidateWords, dictionary: Dictionary)
    requires WellFormed(wc) && WordsOver(wc, dictionary.alphabet)
    requires TotalCipher(g, dictionary.alphabet) && Consistent(g, wc) && wc != map[]
    ensures PruneWordCandidates(wc, dictionary).Some?
    ensures forall w, c :: w in wc && c in wc[w] && Decrypts(g, w, c) ==>
      c in PruneWordCandidates(wc, dictionary).value[w]
  {
    var lc := LetterCandidates(wc, dictionary.alphabet);
    LetterCandidatesSound(g, wc, dictionary.alphabet);
    forall w, c | w in wc && c in wc[w] && Decrypts(g, w, c)
      ensures PairsAllowed(lc, w, c)
    {
    }
    forall w | w in wc
      ensures !NoneAllowed(wc, dictionary.alphabet, w)
    {
      var c :| c in wc[w] && Decrypts(g, w, c);
      assert PairsAllowed(lc, w, c);
    }
  }

  /**
   * A one-to-one cipher on part of the alphabet extends to one on all of it:
   * the unused letters are paired with the unused images.
   */
  lemma ExtendCipher(f: map<Letter, Letter>, alphabet: set<Letter>) returns (g: map<Letter, Letter>)
    requires f.Keys <= alphabet && f.Values <= alphabet && Injective(f)
    ensures TotalCipher(g, alphabet)
    ensures forall l :: l in f ==> g[l] == f[l]
  {
    var h := UnusedPairing(f, alphabet);
    g := f + h;
    assert forall l :: l in f ==> g[l] == f[l];
    assert forall l :: l in h ==> g[l] == h[l];
    JoinInjective(f, h, f.Values, alphabet - f.Values);
  }

  /** The letters `f` leaves undefined, paired one to one with the images it leaves unused. */
  lemma UnusedPairing(f: map<Letter, Letter>, alphabet: set<Letter>) returns (h: map<Letter, Letter>)
    requires f.Keys <= alphabet && f.Values <= alphabet && Injective(f)
    ensures h.Keys == alphabet - f.Keys && Injective(h)
    ensures forall l :: l in h ==> h[l] in alphabet - f.Values
  {
    var images := Image(f, f.Keys);
    assert images == f.Values;
    ImageCard(f, f.Keys);
    DifferenceCard(alphabet, f.Keys);
    DifferenceCard(alphabet, images);
    h := Pairing(alphabet - f.Keys, alphabet - images);
  }

  /** Two one-to-one maps with disjoint keys and disjoint values join into one. */
  lemma JoinInjective(f: map<Letter, Letter>, h: map<Letter, Letter>, fImages: set<Letter>, hImages: set<Letter>)
    requires Injective(f) && Injective(h) && f.Keys !! h.Keys && fImages !! hImages
    requires forall l :: l in f ==> f[l] in fImages
    requires forall l :: l in h ==> h[l] in hImages
    ensures Injective(f + h)
  {
    var g := f + h;
    forall l1, l2 | l1 in g && l2 in g && g[l1] == g[l2]
      ensures l1 == l2
    {
    }
  }
}
