/**
 * The read-only dictionary the engine consults (the `Dictionary` type of
 * src/services/dictionary.server.ts). Loading it is not part of this model;
 * what the loader guarantees is stated by ValidDictionary.
 */
module Dictionaries {
  import opened Patterns

  datatype Dictionary = Dictionary(
    alphabet: set<Letter>,
    wordFrequencies: map<Word, real>,
    patternWords: map<Word, set<Word>>)

  predicate OverAlphabet(w: Word, alphabet: set<Letter>) {
    forall i :: 0 <= i < |w| ==> w[i] in alphabet
  }

  /** Every dictionary word is over the alphabet, and patternWords groups them by pattern. */
  predicate ValidDictionary(d: Dictionary) {
    && (forall w :: w in d.wordFrequencies ==> OverAlphabet(w, d.alphabet))
    && d.patternWords == ComputePatternWords(d.wordFrequencies.Keys)
  }
}
