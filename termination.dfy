/**
 * Why the do-while loop of solveCryptogram (src/services/cryptogram.server.ts:50-95)
 * runs out of stack entries after boundedly many iterations, whatever its
 * time budget. A stack entry weighs `base` to the power of its number of
 * (word, candidate) pairs, with `base` one more than the number of maps a
 * partition can return; every iteration makes the stack strictly lighter.
 */
module Termination {
  import opened Sets
  import opened Patterns
  import opened Dictionaries
  import opened Propagation
  import opened Branching

  /** `b` to the power `n`. */
  function Power(b: nat, n: nat): (r: nat)
    ensures b >= 1 ==> r >= 1
  {
    if n == 0 then 1 else b * Power(b, n - 1)
  }

  /** The weight of one candidate map. */
  function Weight(wc: CandidateWords, base: nat): nat {
    Power(base, |WordPairs(wc)|)
  }

  /** The weight of a stack: the sum of its entries' weights. */
  function StackWeight(stack: seq<CandidateWords>, base: nat): nat {
    if stack == [] then 0 else StackWeight(stack[..|stack| - 1], base) + Weight(stack[|stack| - 1], base)
  }

  /** One more than the most maps a partition of a map keyed by `words` returns. */
  function Base(words: set<Word>): nat {
    |words| + 2
  }

  /** The weight of the stack the search starts with. */
  function SearchBound(words: set<Word>, dictionary: Dictionary): nat
    requires ValidDictionary(dictionary)
  {
    Weight(FindWordCandidates(words, dictionary), Base(words))
  }

  /** A larger exponent gives a larger power. */
  lemma {:induction false} PowerMonotone(b: nat, m: nat, n: nat)
    requires b >= 1 && m <= n
    ensures Power(b, m) <= Power(b, n)
    decreases n
  {
    if m < n {
      PowerMonotone(b, m, n - 1);
      var p := Power(b, n - 1);
      assert Power(b, n) == b * p;
      assert b * p >= p by {
        assert (b - 1) * p >= 0;
      }
    }
  }

  /** The weight of a stack is the sum over any split of it. */
  lemma {:induction false} StackWeightAppend(s: seq<CandidateWords>, t: seq<CandidateWords>, base: nat)
    ensures StackWeight(s + t, base) == StackWeight(s, base) + StackWeight(t, base)
    decreases |t|
  {
    if t == [] {
      assert s + t == s;
    } else {
      var t' := t[..|t| - 1];
      assert (s + t)[..|s + t| - 1] == s + t';
      assert (s + t)[|s + t| - 1] == t[|t| - 1];
      StackWeightAppend(s, t', base);
    }
  }

  /** A stack of entries each at most `m` heavy weighs at most `|s| * m`. */
  lemma {:induction false} StackWeightBound(s: seq<CandidateWords>, base: nat, m: nat)
    requires forall k :: 0 <= k < |s| ==> Weight(s[k], base) <= m
    ensures StackWeight(s, base) <= |s| * m
    decreases |s|
  {
    if s != [] {
      var s' := s[..|s| - 1];
      assert forall k :: 0 <= k < |s'| ==> s'[k] == s[k];
      StackWeightBound(s', base, m);
      assert |s| * m == |s'| * m + m by {
        assert |s| == |s'| + 1;
      }
    }
  }

  /** A stack weighs nothing exactly when it is empty. */
  lemma {:induction false} StackWeightPositive(s: seq<CandidateWords>, base: nat)
    requires base >= 1
    ensures StackWeight(s, base) == 0 <==> s == []
  {
    if s != [] {
      assert Weight(s[|s| - 1], base) >= 1;
    }
  }

  /** Popping the top entry makes the stack lighter. */
  lemma PopLighter(rest: seq<CandidateWords>, top: CandidateWords, base: nat)
    requires base >= 1
    ensures StackWeight(rest, base) < StackWeight(rest + [top], base)
  {
    assert (rest + [top])[..|rest + [top]| - 1] == rest;
  }

  /** Replacing the top entry by entries lighter in total makes the stack lighter. */
  lemma ReplaceLighter(rest: seq<CandidateWords>, top: CandidateWords, pushed: seq<CandidateWords>, base: nat)
    requires StackWeight(pushed, base) < Weight(top, base)
    ensures StackWeight(rest + pushed, base) < StackWeight(rest + [top], base)
  {
    assert (rest + [top])[..|rest + [top]| - 1] == rest;
    StackWeightAppend(rest, pushed, base);
  }

  /** A proper subset is smaller. */
  lemma ProperSubsetCard<T>(a: set<T>, b: set<T>)
    requires a < b
    ensures |a| < |b|
  {
    DifferenceCard(b, a);
    var x :| x in b && x !in a;
    assert x in b - a;
  }

  /** A map narrowing `pruned` at some word has fewer pairs than it. */
  lemma PartLighter(pruned: CandidateWords, part: CandidateWords, n: nat)
    requires |WordPairs(pruned)| <= n
    requires Narrows(part, pruned) && exists w :: w in pruned && w in part && part[w] < pruned[w]
    ensures 1 <= n && |WordPairs(part)| <= n - 1
  {
    var w :| w in pruned && w in part && part[w] < pruned[w];
    NarrowedPairs(part, pruned, w);
    ProperSubsetCard(WordPairs(part), WordPairs(pruned));
  }

  /** At most `base - 1` entries each at most `base^(n-1)` heavy weigh less than `base^n`. */
  lemma FewLighter(s: seq<CandidateWords>, base: nat, n: nat)
    requires 1 <= n && |s| < base
    requires forall k :: 0 <= k < |s| ==> Weight(s[k], base) <= Power(base, n - 1)
    ensures StackWeight(s, base) < Power(base, n)
  {
    var p := Power(base, n - 1);
    StackWeightBound(s, base, p);
    assert |s| * p < base * p by {
      assert p >= 1;
    }
  }

  /**
   * The partition of a pruned map, pushed in whatever order, weighs less than
   * the map popped: it has at most `|words| + 1` maps, each with fewer pairs.
   */
  lemma BranchLighter(words: set<Word>, top: CandidateWords, pruned: CandidateWords,
                      parts: seq<CandidateWords>, pushed: seq<CandidateWords>)
    requires top.Keys == words && pruned.Keys == words
    requires forall w :: w in top ==> pruned[w] <= top[w]
    requires |parts| == |MultiWords(pruned)| + 1
    requires forall k :: 0 <= k < |parts| ==> Narrows(parts[k], pruned)
    requires forall k :: 0 <= k < |parts| ==>
      exists w :: w in pruned && w in parts[k] && parts[k][w] < pruned[w]
    requires |pushed| == |parts| && forall k :: 0 <= k < |parts| ==> pushed[|parts| - 1 - k] == parts[k]
    ensures StackWeight(pushed, Base(words)) < Weight(top, Base(words))
  {
    var b := Base(words);
    var n := |WordPairs(top)|;
    assert WordPairs(pruned) <= WordPairs(top);
    SubsetCard(WordPairs(pruned), WordPairs(top));
    PartLighter(pruned, parts[0], n);
    forall k | 0 <= k < |pushed|
      ensures Weight(pushed[k], b) <= Power(b, n - 1)
    {
      var j := |parts| - 1 - k;
      assert pushed[k] == parts[j];
      PartLighter(pruned, parts[j], n);
      PowerMonotone(b, |WordPairs(parts[j])|, n - 1);
    }
    SubsetCard(MultiWords(pruned), words);
    FewLighter(pushed, b, n);
  }
}
