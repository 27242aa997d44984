/**
 * Word patterns (src/services/pattern.server.ts): the canonical shape of a
 * word, which keeps only which positions hold equal letters.
 */
module Patterns {
  /** A letter is a UTF-16 code unit; a word is a sequence of them. */
  type Letter = int
  type Word = seq<Letter>

  /** The code of `A`, the symbol of the first distinct letter of a word. */
  const FirstSymbol: Letter := 65

  predicate Distinct(s: seq<Letter>) {
    forall i, j :: 0 <= i < j < |s| ==> s[i] != s[j]
  }

  /** The distinct letters of `w` in order of first appearance. */
  function Unique(w: Word): (u: seq<Letter>)
    ensures Distinct(u)
    ensures forall c :: c in u <==> c in w
    ensures |u| <= |w|
  {
    if w == [] then []
    else
      var u := Unique(w[..|w| - 1]);
      assert w == w[..|w| - 1] + [w[|w| - 1]];
      if w[|w| - 1] in u then u else u + [w[|w| - 1]]
  }

  /** The position of the first occurrence of `c` in `s`. */
  function IndexOf(s: seq<Letter>, c: Letter): (i: nat)
    requires c in s
    ensures i < |s| && s[i] == c
    ensures forall j :: 0 <= j < i ==> s[j] != c
  {
    if s[0] == c then 0 else IndexOf(s[1..], c) + 1
  }

  /**
   * The pattern of `w`: each position holds the symbol of its letter, the
   * k-th distinct letter (counting from 0) getting symbol FirstSymbol + k.
   */
  function Pattern(w: Word): (p: Word)
    ensures |p| == |w|
  {
    var u := Unique(w);
    seq(|w|, i requires 0 <= i < |w| => FirstSymbol + IndexOf(u, w[i]))
  }

  /** `a` and `b` have equal letters at exactly the same pairs of positions. */
  predicate SameShape(a: Word, b: Word) {
    && |a| == |b|
    && forall i, j :: 0 <= i < |a| && 0 <= j < |a| ==> (a[i] == a[j] <==> b[i] == b[j])
  }

  /** `f` renames the letters of `a` into those of `b`, one-to-one. */
  ghost predicate Renames(f: map<Letter, Letter>, a: Word, b: Word) {
    && |a| == |b|
    && (forall i :: 0 <= i < |a| ==> a[i] in f && f[a[i]] == b[i])
    && forall c, d :: c in f && d in f && c != d ==> f[c] != f[d]
  }

  /** The pattern is as long as the word and repeats where the word repeats. */
  lemma PatternShape(w: Word)
    ensures |Pattern(w)| == |w|
    ensures SameShape(Pattern(w), w)
  {
  }

  lemma {:induction false} UniquePrefix(w: Word, k: nat)
    requires k <= |w|
    ensures Unique(w[..k]) <= Unique(w)
    decreases |w| - k
  {
    if k < |w| {
      var v := w[..|w| - 1];
      assert v[..k] == w[..k];
      UniquePrefix(v, k);
    } else {
      assert w[..k] == w;
    }
  }

  /**
   * A letter seen for the first time at position i gets the next unused
   * symbol: FirstSymbol plus the number of distinct letters before it.
   */
  lemma {:induction false} PatternFirstAppearance(w: Word, i: nat)
    requires i < |w| && w[i] !in w[..i]
    ensures Pattern(w)[i] == FirstSymbol + |Unique(w[..i])|
  {
    var u := Unique(w[..i]);
    assert w[..i + 1][..i] == w[..i];
    assert w[..i + 1] == w[..i] + [w[i]];
    assert Unique(w[..i + 1]) == u + [w[i]];
    UniquePrefix(w, i + 1);
    var all := Unique(w);
    assert all[|u|] == w[i];
    var k := IndexOf(all, w[i]);
    assert k == |u|;
  }

  /** A non-empty word's pattern starts with `A`. */
  lemma PatternStartsWithFirstSymbol(w: Word)
    requires |w| > 0
    ensures Pattern(w)[0] == FirstSymbol
  {
    assert w[..0] == [];
    PatternFirstAppearance(w, 0);
  }

  /** Appending a letter to a word extends its distinct letters only if it is new. */
  lemma UniqueSnoc(w: Word, x: Letter)
    ensures Unique(w + [x]) == if x in Unique(w) then Unique(w) else Unique(w) + [x]
  {
    assert (w + [x])[..|w|] == w;
  }

  /** The definition of Unique, one step. */
  lemma UniqueLast(w: Word)
    requires w != []
    ensures var n := |w| - 1;
      Unique(w) == if w[n] in Unique(w[..n]) then Unique(w[..n]) else Unique(w[..n]) + [w[n]]
  {
  }

  /** Appending a new element keeps the positions of the old ones. */
  lemma IndexOfAppend(u: seq<Letter>, x: Letter, c: Letter)
    requires Distinct(u + [x]) && c in u
    ensures IndexOf(u + [x], c) == IndexOf(u, c)
  {
    var k := IndexOf(u, c);
    assert (u + [x])[k] == c;
  }

  /** Under equal shapes, a position repeats an earlier letter in both words or in neither. */
  lemma ShapeRepeats(a: Word, b: Word, n: nat)
    requires SameShape(a, b) && n < |a|
    ensures a[n] in a[..n] <==> b[n] in b[..n]
  {
    if a[n] in a[..n] {
      var j :| 0 <= j < n && a[..n][j] == a[n];
      assert a[j] == a[n];
      assert b[..n][j] == b[n];
    }
    if b[n] in b[..n] {
      var j :| 0 <= j < n && b[..n][j] == b[n];
      assert b[j] == b[n];
      assert a[..n][j] == a[n];
    }
  }

  lemma ShapePrefix(a: Word, b: Word, n: nat)
    requires SameShape(a, b) && n <= |a|
    ensures SameShape(a[..n], b[..n])
  {
  }

  /** The ranks of a prefix survive appending a letter that was seen before. */
  lemma RanksOld(a: Word, b: Word, n: nat, j: nat)
    requires SameShape(a, b) && j < n == |a| - 1 && a[j] == a[n]
    requires Unique(a) == Unique(a[..n]) && Unique(b) == Unique(b[..n])
    requires forall i :: 0 <= i < n ==> IndexOf(Unique(a[..n]), a[..n][i]) == IndexOf(Unique(b[..n]), b[..n][i])
    ensures forall i :: 0 <= i < |a| ==> IndexOf(Unique(a), a[i]) == IndexOf(Unique(b), b[i])
  {
    assert b[n] == b[j];
    forall i | 0 <= i < |a|
      ensures IndexOf(Unique(a), a[i]) == IndexOf(Unique(b), b[i])
    {
      if i == n {
        assert a[..n][j] == a[n] && b[..n][j] == b[n];
      } else {
        assert a[..n][i] == a[i] && b[..n][i] == b[i];
      }
    }
  }

  /** The ranks of a prefix survive appending a new letter, which ranks last. */
  lemma RanksNew(a: Word, b: Word, n: nat)
    requires n == |a| - 1 && |b| == |a|
    requires Unique(a) == Unique(a[..n]) + [a[n]] && Unique(b) == Unique(b[..n]) + [b[n]]
    requires |Unique(a[..n])| == |Unique(b[..n])|
    requires forall i :: 0 <= i < n ==> IndexOf(Unique(a[..n]), a[..n][i]) == IndexOf(Unique(b[..n]), b[..n][i])
    ensures forall i :: 0 <= i < |a| ==> IndexOf(Unique(a), a[i]) == IndexOf(Unique(b), b[i])
  {
    var ua, ub := Unique(a[..n]), Unique(b[..n]);
    forall i | 0 <= i < |a|
      ensures IndexOf(Unique(a), a[i]) == IndexOf(Unique(b), b[i])
    {
      if i < n {
        assert a[..n][i] == a[i] && b[..n][i] == b[i];
        assert a[i] in a[..n] && b[i] in b[..n];
        IndexOfAppend(ua, a[n], a[i]);
        IndexOfAppend(ub, b[n], b[i]);
      } else {
        assert Unique(a)[|ua|] == a[i];
        assert Unique(b)[|ub|] == b[i];
      }
    }
  }

  /** Letters ranked the same way in both words, by induction on the length. */
  lemma {:induction false} SameShapeRanks(a: Word, b: Word)
    requires SameShape(a, b)
    ensures |Unique(a)| == |Unique(b)|
    ensures forall i :: 0 <= i < |a| ==> IndexOf(Unique(a), a[i]) == IndexOf(Unique(b), b[i])
  {
    if a != [] {
      var n := |a| - 1;
      ShapePrefix(a, b, n);
      SameShapeRanks(a[..n], b[..n]);
      UniqueLast(a);
      UniqueLast(b);
      ShapeRepeats(a, b, n);
      if a[n] in a[..n] {
        var j :| 0 <= j < n && a[..n][j] == a[n];
        RanksOld(a, b, n, j);
      } else {
        RanksNew(a, b, n);
      }
    }
  }

  /** Equal shapes give equal patterns. */
  lemma SameShapeSamePattern(a: Word, b: Word)
    requires SameShape(a, b)
    ensures Pattern(a) == Pattern(b)
  {
    SameShapeRanks(a, b);
  }

  /**
   * The pattern is canonical: two words have the same pattern exactly when
   * a one-to-one renaming of letters turns one into the other.
   */
  lemma PatternCanonical(a: Word, b: Word)
    ensures Pattern(a) == Pattern(b) <==> exists f :: Renames(f, a, b)
  {
    if Pattern(a) == Pattern(b) {
      PatternShape(a);
      PatternShape(b);
      var f := map c | c in a :: b[IndexOf(a, c)];
      forall i | 0 <= i < |a|
        ensures a[i] in f && f[a[i]] == b[i]
      {
        var k := IndexOf(a, a[i]);
        assert Pattern(a)[k] == Pattern(a)[i];
      }
      forall c, d | c in f && d in f && c != d
        ensures f[c] != f[d]
      {
        var k, m := IndexOf(a, c), IndexOf(a, d);
        assert Pattern(b)[k] == Pattern(a)[k] && Pattern(b)[m] == Pattern(a)[m];
      }
      assert Renames(f, a, b);
    }
    if f :| Renames(f, a, b) {
      assert SameShape(a, b);
      SameShapeSamePattern(a, b);
    }
  }

  /** Encoding a pattern again returns it unchanged. */
  lemma PatternIdempotent(w: Word)
    ensures Pattern(Pattern(w)) == Pattern(w)
  {
    PatternShape(w);
    SameShapeSamePattern(Pattern(w), w);
  }

  /** The letter codes of a string. */
  function Str(s: string): (w: Word)
    ensures |w| == |s| && forall i :: 0 <= i < |s| ==> w[i] == s[i] as int
  {
    seq(|s|, i requires 0 <= i < |s| => s[i] as int)
  }

  /** The distinct letters of SEEN are S, E, N. */
  lemma UniqueOfSeen()
    ensures Unique([83, 69, 69, 78]) == [83, 69, 78]
  {
    UniqueOfXYYZ(83, 69, 78);
  }

  /** The distinct letters of a word shaped like SEE are its first two. */
  lemma UniqueOfXYY(x: Letter, y: Letter)
    requires x != y
    ensures Unique([x, y, y]) == [x, y]
  {
    assert Unique([x]) == [x] by {
      assert [x] == [] + [x];
      UniqueSnoc([], x);
    }
    assert Unique([x, y]) == [x, y] by {
      assert [x, y] == [x] + [y];
      UniqueSnoc([x], y);
    }
    assert [x, y, y] == [x, y] + [y];
    UniqueSnoc([x, y], y);
  }

  /** The distinct letters of a word shaped like SEEN are its first, second and last. */
  lemma UniqueOfXYYZ(x: Letter, y: Letter, z: Letter)
    requires x != y && y != z && x != z
    ensures Unique([x, y, y, z]) == [x, y, z]
  {
    UniqueOfXYY(x, y);
    assert [x, y, y, z] == [x, y, y] + [z];
    UniqueSnoc([x, y, y], z);
  }

  /** The documented example: SEEN and ROOT both encode to ABBC. */
  lemma PatternExample()
    ensures Pattern(Str("SEEN")) == Pattern(Str("ROOT")) == Str("ABBC")
  {
    var seen, root := [83, 69, 69, 78], [82, 79, 79, 84];
    assert Str("SEEN") == seen && Str("ROOT") == root && Str("ABBC") == [65, 66, 66, 67];
    UniqueOfSeen();
    var u := [83, 69, 78];
    assert IndexOf(u, 83) == 0 && IndexOf(u, 69) == 1 && IndexOf(u, 78) == 2;
    assert Pattern(seen) == [65, 66, 66, 67];
    assert SameShape(seen, root);
    SameShapeSamePattern(seen, root);
  }

  /**
   * The first half of the source's pass: walk the word left to right and give
   * each new letter the next symbol, advancing a counter.
   */
  method SymbolTable(word: Word) returns (letters: map<Letter, Letter>)
    ensures forall k :: 0 <= k < |word| ==> word[k] in letters
    ensures forall c :: c in letters <==> c in Unique(word)
    ensures forall c :: c in letters ==> letters[c] == FirstSymbol + IndexOf(Unique(word), c)
  {
    var maxLetterCode := FirstSymbol;
    letters := map[];
    var i := 0;
    while i < |word|
      invariant 0 <= i <= |word|
      invariant maxLetterCode == FirstSymbol + |Unique(word[..i])|
      invariant forall c :: c in letters <==> c in Unique(word[..i])
      invariant forall c :: c in letters ==> letters[c] == FirstSymbol + IndexOf(Unique(word[..i]), c)
      invariant forall k :: 0 <= k < i ==> word[k] in letters
    {
      ghost var u := Unique(word[..i]);
      assert word[..i + 1][..i] == word[..i];
      UniqueLast(word[..i + 1]);
      assert word[..i + 1][i] == word[i];
      if word[i] !in letters {
        assert Unique(word[..i + 1]) == u + [word[i]];
        letters := letters[word[i] := maxLetterCode];
        maxLetterCode := maxLetterCode + 1;
        forall c | c in u
          ensures IndexOf(u + [word[i]], c) == IndexOf(u, c)
        {
          IndexOfAppend(u, word[i], c);
        }
      } else {
        assert Unique(word[..i + 1]) == u;
      }
      i := i + 1;
    }
    assert word[..i] == word;
  }

  /** The source's computePattern: build the symbol table, then map the word through it. */
  method ComputePattern(word: Word) returns (p: Word)
    ensures p == Pattern(word)
  {
    var letters := SymbolTable(word);
    p := [];
    var j := 0;
    while j < |word|
      invariant 0 <= j <= |word|
      invariant |p| == j
      invariant forall k :: 0 <= k < j ==> p[k] == Pattern(word)[k]
    {
      p := p + [letters[word[j]]];
      j := j + 1;
    }
  }

  /**
   * Groups words by pattern: every word lies under its own pattern and
   * nowhere else, and no group is empty.
   */
  function ComputePatternWords(words: set<Word>): (r: map<Word, set<Word>>)
    ensures forall w :: w in words ==> Pattern(w) in r && w in r[Pattern(w)]
    ensures forall p, w :: p in r && w in r[p] ==> w in words && Pattern(w) == p
    ensures forall p :: p in r ==> r[p] != {}
  {
    var patterns := set w | w in words :: Pattern(w);
    map p | p in patterns :: set w | w in words && Pattern(w) == p
  }
}
