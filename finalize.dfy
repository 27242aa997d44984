/**
 * Finalization of a search leaf (src/services/cryptogram.server.ts:320-362):
 * computeCipher turns a word-to-word assignment into a letter cipher, and
 * decryptCiphertext applies a cipher to the whole ciphertext.
 */
module Finalize {
  import opened Wrappers
  import opened Sets
  import opened Patterns
  import opened Soundness

  /** Ciphertext letter -> plaintext letter. */
  type Cipher = map<Letter, Letter>

  /** Every assigned plaintext word is as long as its ciphertext word (zipWords' invariant). */
  predicate SameLengths(assignment: map<Word, Word>) {
    forall w :: w in assignment ==> |assignment[w]| == |w|
  }

  /** The letters of some ciphertext words. */
  function LettersOf(words: set<Word>): set<Letter> {
    set w, i | w in words && 0 <= i < |w| :: w[i]
  }

  /** The plaintext letters the assignment puts beside `l`: its group of zipped pairs. */
  function Images(assignment: map<Word, Word>, l: Letter): set<Letter>
    requires SameLengths(assignment)
  {
    set w, i | w in assignment && 0 <= i < |w| && w[i] == l :: assignment[w][i]
  }

  /**
   * computeCipher: absent when zipWords' length invariant fails, when some
   * letter has other than exactly one image, or when two letters share an
   * image. Otherwise a one-to-one cipher on exactly the assigned letters that
   * decrypts every assigned word to its plaintext.
   */
  function ComputeCipher(assignment: map<Word, Word>): (r: Option<Cipher>)
    ensures r.Some? ==> SameLengths(assignment)
    ensures r.Some? ==> r.value.Keys == LettersOf(assignment.Keys) && Injective(r.value)
    ensures r.Some? ==> forall w :: w in assignment ==> Decrypts(r.value, w, assignment[w])
  {
    if !SameLengths(assignment) then None
    else
      var letters := LettersOf(assignment.Keys);
      if exists l :: l in letters && |Images(assignment, l)| != 1 then None
      else
        var cipher := map l | l in letters :: Only(Images(assignment, l));
        if Injective(cipher) then
          CipherDecrypts(assignment, cipher);
          Some(cipher)
        else None
  }

  /** A cipher taking each assigned letter to its one image decrypts every assigned word. */
  lemma CipherDecrypts(assignment: map<Word, Word>, cipher: Cipher)
    requires SameLengths(assignment)
    requires forall l :: l in LettersOf(assignment.Keys) ==> |Images(assignment, l)| == 1
    requires cipher == map l | l in LettersOf(assignment.Keys) :: Only(Images(assignment, l))
    ensures forall w :: w in assignment ==> Decrypts(cipher, w, assignment[w])
  {
    forall w, i | w in assignment && 0 <= i < |w|
      ensures w[i] in cipher && cipher[w[i]] == assignment[w][i]
    {
      assert w[i] in LettersOf(assignment.Keys);
      assert assignment[w][i] in Images(assignment, w[i]);
    }
  }

  /** `g` restricted to `keys`. */
  function Restrict(g: Cipher, keys: set<Letter>): (r: Cipher)
    requires keys <= g.Keys
    ensures r.Keys == keys && forall l :: l in keys ==> r[l] == g[l]
  {
    map l | l in keys :: g[l]
  }

  /**
   * computeCipher succeeds whenever some one-to-one cipher decrypts every
   * assigned word to its plaintext, and then returns that cipher on the
   * assigned letters.
   */
  lemma ComputeCipherComplete(assignment: map<Word, Word>, g: Cipher)
    requires Injective(g) && forall w :: w in assignment ==> Decrypts(g, w, assignment[w])
    ensures LettersOf(assignment.Keys) <= g.Keys
    ensures ComputeCipher(assignment) == Some(Restrict(g, LettersOf(assignment.Keys)))
  {
    var letters := LettersOf(assignment.Keys);
    forall l | l in letters
      ensures l in g && Images(assignment, l) == {g[l]}
    {
      var w, i :| w in assignment && 0 <= i < |w| && w[i] == l;
      assert assignment[w][i] in Images(assignment, l);
    }
    var cipher := map l | l in letters :: Only(Images(assignment, l));
    assert cipher == Restrict(g, letters);
  }

  /** A ciphertext letter put beside two different plaintext letters makes computeCipher fail. */
  lemma ConflictFails(assignment: map<Word, Word>, w1: Word, i1: nat, w2: Word, i2: nat)
    requires SameLengths(assignment) && w1 in assignment && w2 in assignment
    requires i1 < |w1| && i2 < |w2| && w1[i1] == w2[i2] && assignment[w1][i1] != assignment[w2][i2]
    ensures ComputeCipher(assignment).None?
  {
    var l := w1[i1];
    var images := Images(assignment, l);
    assert assignment[w1][i1] in images && assignment[w2][i2] in images;
    assert l in LettersOf(assignment.Keys);
    if |images| == 1 {
      SingletonUnique(images);
    }
  }

  /**
   * decryptCiphertext: every symbol the cipher maps is replaced by its image;
   * every other symbol (spaces, punctuation, unmapped letters) is kept.
   */
  function DecryptCiphertext(ciphertext: seq<Letter>, cipher: Cipher): (plaintext: seq<Letter>)
    ensures |plaintext| == |ciphertext|
    ensures forall i {:trigger plaintext[i]} :: 0 <= i < |ciphertext| && ciphertext[i] in cipher ==> plaintext[i] == cipher[ciphertext[i]]
    ensures forall i {:trigger plaintext[i]} :: 0 <= i < |ciphertext| && ciphertext[i] !in cipher ==> plaintext[i] == ciphertext[i]
  {
    seq(|ciphertext|, i requires 0 <= i < |ciphertext| =>
      if ciphertext[i] in cipher then cipher[ciphertext[i]] else ciphertext[i])
  }

  /** Decryption works symbol by symbol, so it distributes over concatenation. */
  lemma DecryptConcat(a: seq<Letter>, b: seq<Letter>, cipher: Cipher)
    ensures DecryptCiphertext(a + b, cipher) == DecryptCiphertext(a, cipher) + DecryptCiphertext(b, cipher)
  {
  }

  /** A word the cipher decrypts to `c` decrypts to `c` wherever it stands in the ciphertext. */
  lemma DecryptWordAt(ciphertext: seq<Letter>, cipher: Cipher, w: Word, c: Word, at: nat)
    requires Decrypts(cipher, w, c) && at + |w| <= |ciphertext| && ciphertext[at..at + |w|] == w
    ensures DecryptCiphertext(ciphertext, cipher)[at..at + |w|] == c
  {
    var p := DecryptCiphertext(ciphertext, cipher);
    forall i | 0 <= i < |w|
      ensures p[at + i] == c[i]
    {
      assert ciphertext[at + i] == w[i];
    }
  }

  /** The cipher that undoes a one-to-one cipher. */
  function Inverse(cipher: Cipher): (inverse: Cipher)
    requires Injective(cipher)
    ensures inverse.Keys == cipher.Values
    ensures forall l :: l in cipher ==> inverse[cipher[l]] == l
  {
    map v | v in cipher.Values :: InverseAt(cipher, v)
  }

  /** The letter a one-to-one cipher maps to `v`. */
  function InverseAt(cipher: Cipher, v: Letter): (l: Letter)
    requires Injective(cipher) && v in cipher.Values
    ensures l in cipher && cipher[l] == v
  {
    PreimageSingleton(cipher, v);
    Only(Preimage(cipher, v))
  }

  /**
   * Decrypting with the inverse cipher restores the ciphertext, provided no
   * kept symbol is also an image of the cipher.
   */
  lemma DecryptInverse(ciphertext: seq<Letter>, cipher: Cipher)
    requires Injective(cipher)
    requires forall i :: 0 <= i < |ciphertext| && ciphertext[i] !in cipher ==> ciphertext[i] !in cipher.Values
    ensures DecryptCiphertext(DecryptCiphertext(ciphertext, cipher), Inverse(cipher)) == ciphertext
  {
  }
}
