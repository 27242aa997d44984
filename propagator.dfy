/**
 * The imperative parts of computeLetterCandidates and its helper
 * intersection (src/services/cryptogram.server.ts:188-275), proved to compute
 * the specification functions of module Propagation.
 */
module Propagator {
  import opened Patterns
  import opened Propagation
  import opened Sets

  /** intersection: collects the elements of `set1` that `set2` also has. */
  method Intersection<T(==)>(set1: set<T>, set2: set<T>) returns (r: set<T>)
    ensures r == set1 * set2
  {
    r := {};
    var rest := set1;
    while rest != {}
      invariant rest <= set1
      invariant r == (set1 - rest) * set2
      decreases rest
    {
      var value :| value in rest;
      if value in set2 {
        r := r + {value};
      }
      rest := rest - {value};
    }
  }

  /** Adding one more pigeonholing group to those already applied. */
  lemma RemovedByStep(groups: map<set<Letter>, set<Letter>>, keys: set<set<Letter>>, s: set<Letter>, l: Letter)
    requires s in groups
    ensures RemovedBy(groups, keys + {s}, l) ==
      RemovedBy(groups, keys, l) + (if Pigeonholed(s, groups[s], l) then s else {})
  {
    if Pigeonholed(s, groups[s], l) {
      forall c | c in s
        ensures c in RemovedBy(groups, keys + {s}, l)
      {
      }
    }
  }

  /** Intersecting the running result with one more word's grouping. */
  method IntersectWord(letterCandidates: CandidateLetters, groups: map<Letter, set<Letter>>, alphabet: set<Letter>)
    returns (next: CandidateLetters)
    ensures next.Keys == letterCandidates.Keys
    ensures forall l :: l in next ==>
      next[l] == letterCandidates[l] * (if l in groups then groups[l] else alphabet)
  {
    next := map[];
    var letters := letterCandidates.Keys;
    while letters != {}
      invariant letters <= letterCandidates.Keys
      invariant next.Keys == letterCandidates.Keys - letters
      invariant forall l :: l in next ==>
        next[l] == letterCandidates[l] * (if l in groups then groups[l] else alphabet)
      decreases letters
    {
      var letter := Pick(letters);
      var s := Intersection<Letter>(letterCandidates[letter], if letter in groups then groups[letter] else alphabet);
      next := next[letter := s];
      letters := letters - {letter};
    }
  }

  /** The intersection phase: fold every word's grouping into the all-alphabet start. */
  method IntersectAll(wc: CandidateWords, alphabet: set<Letter>) returns (letterCandidates: CandidateLetters)
    requires WellFormed(wc)
    ensures letterCandidates == IntersectLetterCandidates(wc, alphabet)
  {
    letterCandidates := map l | l in alphabet :: alphabet;
    var words := wc.Keys;
    ghost var done: set<Word> := {};
    while words != {}
      invariant words + done == wc.Keys && words !! done
      invariant letterCandidates.Keys == alphabet
      invariant forall l :: l in alphabet ==>
        letterCandidates[l] == set c | c in alphabet && AllowedBy(wc, done, l, c)
      decreases words
    {
      var word :| word in words;
      var groups := WordLetterGroups(word, wc[word]);
      ghost var before := letterCandidates;
      letterCandidates := IntersectWord(letterCandidates, groups, alphabet);
      forall l | l in alphabet
        ensures letterCandidates[l] == set c | c in alphabet && AllowedBy(wc, done + {word}, l, c)
      {
        forall c | c in alphabet
          ensures c in letterCandidates[l] <==> AllowedBy(wc, done + {word}, l, c)
        {
          assert c in letterCandidates[l] <==> c in before[l] && (l in groups ==> c in groups[l]);
        }
      }
      done := done + {word};
      words := words - {word};
    }
    assert done == wc.Keys;
  }

  /**
   * The inner loop of one pass for one letter: deletes from its candidate set
   * the candidates of every group that pigeonholes it, and reports whether
   * that deleted anything.
   */
  method DeleteFromLetter(candidates: set<Letter>, letter: Letter, candidatesLetters: map<set<Letter>, set<Letter>>)
    returns (remaining: set<Letter>, deleted: bool)
    ensures remaining == candidates - Removed(candidatesLetters, letter)
    ensures deleted <==> remaining != candidates
  {
    remaining := candidates;
    deleted := false;
    var keys := candidatesLetters.Keys;
    ghost var visited: set<set<Letter>> := {};
    assert RemovedBy(candidatesLetters, visited, letter) == {};
    while keys != {}
      invariant keys + visited == candidatesLetters.Keys && keys !! visited
      invariant remaining == candidates - RemovedBy(candidatesLetters, visited, letter)
      invariant deleted <==> remaining != candidates
      decreases keys
    {
      var s := Pick(keys);
      var group := candidatesLetters[s];
      RemovedByStep(candidatesLetters, visited, s, letter);
      if (|s| == |group| && letter !in group) || |s| < |group| {
        var removes := remaining * s != {};
        if removes {
          var c :| c in remaining * s;
          assert c in candidates && c !in remaining - s;
        }
        remaining := remaining - s;
        deleted := deleted || removes;
      }
      keys := keys - {s};
      visited := visited + {s};
    }
    assert visited == candidatesLetters.Keys;
  }

  /**
   * One pass of the pigeonhole loop over every letter; reports whether
   * anything was deleted.
   */
  method PigeonholeStep(letterCandidates: CandidateLetters) returns (next: CandidateLetters, candidatesChanged: bool)
    ensures next == PigeonholePass(letterCandidates)
    ensures candidatesChanged <==> next != letterCandidates
  {
    var candidatesLetters := Groups(letterCandidates);
    candidatesChanged := false;
    next := letterCandidates;
    var letters := letterCandidates.Keys;
    while letters != {}
      invariant letters <= letterCandidates.Keys
      invariant next.Keys == letterCandidates.Keys
      invariant forall l :: l in letterCandidates && l !in letters ==>
        next[l] == letterCandidates[l] - Removed(candidatesLetters, l)
      invariant forall l :: l in letters ==> next[l] == letterCandidates[l]
      invariant candidatesChanged <==>
        exists l :: l in letterCandidates && l !in letters && next[l] != letterCandidates[l]
      decreases letters
    {
      var letter := Pick(letters);
      var remaining, deleted := DeleteFromLetter(next[letter], letter, candidatesLetters);
      next := next[letter := remaining];
      candidatesChanged := candidatesChanged || deleted;
      letters := letters - {letter};
    }
  }

  /**
   * computeLetterCandidates: the intersection phase, then passes until one
   * deletes nothing. Its result is the function LetterCandidates.
   */
  method ComputeLetterCandidates(wc: CandidateWords, alphabet: set<Letter>) returns (letterCandidates: CandidateLetters)
    requires WellFormed(wc)
    ensures letterCandidates == LetterCandidates(wc, alphabet)
  {
    letterCandidates := IntersectAll(wc, alphabet);
    ghost var start := letterCandidates;
    var candidatesChanged := true;
    while candidatesChanged
      invariant Pigeonhole(letterCandidates) == Pigeonhole(start)
      invariant !candidatesChanged ==> PigeonholePass(letterCandidates) == letterCandidates
      decreases CandidatePairs(letterCandidates), candidatesChanged
    {
      ghost var before := letterCandidates;
      letterCandidates, candidatesChanged := PigeonholeStep(letterCandidates);
      if candidatesChanged {
        PassShrinks(before);
      }
    }
  }
}
