/**
 * partitionWordCandidates (src/services/cryptogram.server.ts:277-318): the
 * branching step of the search, which splits a candidate map into maps whose
 * candidate combinations are disjoint and together are the original's.
 */
module Branching {
  import opened Sets
  import opened Patterns
  import opened Propagation

  /** `choice` picks, for every ciphertext word, one of its candidates: one combination of `wc`. */
  predicate Selects(choice: map<Word, Word>, wc: CandidateWords) {
    choice.Keys == wc.Keys && forall w :: w in wc ==> choice[w] in wc[w]
  }

  /** The words with more than one candidate: one map is returned per such word. */
  function MultiWords(wc: CandidateWords): set<Word> {
    set w | w in wc && |wc[w]| > 1
  }

  /** `part` has the keys of `wc`, and each of its sets is a non-empty subset of the original. */
  predicate Narrows(part: CandidateWords, wc: CandidateWords) {
    part.Keys == wc.Keys && forall w :: w in wc ==> part[w] != {} && part[w] <= wc[w]
  }

  /** Every (word, candidate) pair: the measure that branching shrinks. */
  function WordPairs(wc: CandidateWords): set<(Word, Word)> {
    set w, c | w in wc && c in wc[w] :: (w, c)
  }

  /** Splitting one word's set on one candidate splits the combinations in two disjoint halves. */
  lemma SplitSelects(m: CandidateWords, word: Word, c: Word, choice: map<Word, Word>)
    requires word in m && c in m[word]
    ensures Selects(choice, m) <==>
      Selects(choice, m[word := m[word] - {c}]) || Selects(choice, m[word := {c}])
    ensures !(Selects(choice, m[word := m[word] - {c}]) && Selects(choice, m[word := {c}]))
  {
  }

  /** A map narrowed at every word has fewer combinations. */
  lemma SelectsNarrowed(part: CandidateWords, wc: CandidateWords, choice: map<Word, Word>)
    requires Narrows(part, wc) && Selects(choice, part)
    ensures Selects(choice, wc)
  {
  }

  /** Narrowing some word strictly loses at least one (word, candidate) pair. */
  lemma NarrowedPairs(part: CandidateWords, wc: CandidateWords, w: Word)
    requires Narrows(part, wc) && w in wc && part[w] < wc[w]
    ensures WordPairs(part) < WordPairs(wc)
  {
    var c :| c in wc[w] && c !in part[w];
    assert (w, c) in WordPairs(wc);
  }

  /**
   * The running state of the partition: the returned maps and the running copy
   * together have exactly the combinations of `wc`, and no two of them share one.
   */
  ghost predicate Covers(wc: CandidateWords, remaining: CandidateWords, parts: seq<CandidateWords>) {
    && (forall choice :: Selects(choice, wc) <==>
          Selects(choice, remaining) || exists k :: 0 <= k < |parts| && Selects(choice, parts[k]))
    && (forall k, choice :: 0 <= k < |parts| && Selects(choice, parts[k]) ==> !Selects(choice, remaining))
    && (forall i, j, choice :: 0 <= i < j < |parts| && Selects(choice, parts[i]) ==> !Selects(choice, parts[j]))
  }

  /** Pinning one word of the running copy to one candidate keeps the cover. */
  lemma CoversStep(wc: CandidateWords, m: CandidateWords, parts: seq<CandidateWords>, word: Word, c: Word)
    requires Covers(wc, m, parts) && word in m && c in m[word]
    ensures Covers(wc, m[word := m[word] - {c}], parts + [m[word := m[word] - {c}][word := {c}]])
  {
    var rest := m[word := m[word] - {c}];
    var pin := rest[word := {c}];
    assert pin == m[word := {c}];
    var parts' := parts + [pin];
    forall choice
      ensures Selects(choice, m) <==> Selects(choice, rest) || Selects(choice, pin)
      ensures !(Selects(choice, rest) && Selects(choice, pin))
    {
      SplitSelects(m, word, c, choice);
    }
    forall choice | Selects(choice, wc)
      ensures Selects(choice, rest) || exists k :: 0 <= k < |parts'| && Selects(choice, parts'[k])
    {
      if !Selects(choice, m) {
        var k :| 0 <= k < |parts| && Selects(choice, parts[k]);
        assert Selects(choice, parts'[k]);
      } else if Selects(choice, pin) {
        assert Selects(choice, parts'[|parts|]);
      }
    }
  }

  /** Appending the running copy turns the cover into the final partition. */
  lemma CoversDone(wc: CandidateWords, m: CandidateWords, parts: seq<CandidateWords>, all: seq<CandidateWords>)
    requires Covers(wc, m, parts) && all == parts + [m]
    ensures forall choice :: Selects(choice, wc) <==> exists k :: 0 <= k < |all| && Selects(choice, all[k])
    ensures forall i, j, choice :: 0 <= i < j < |all| && Selects(choice, all[i]) ==> !Selects(choice, all[j])
  {
    forall choice | Selects(choice, wc)
      ensures exists k :: 0 <= k < |all| && Selects(choice, all[k])
    {
      if Selects(choice, m) {
        assert Selects(choice, all[|parts|]);
      } else {
        var k :| 0 <= k < |parts| && Selects(choice, parts[k]);
        assert Selects(choice, all[k]);
      }
    }
  }

  /**
   * The running copy while the words in `unvisited` remain: the visited words
   * with several candidates lost one, all others are untouched.
   */
  ghost predicate Running(wc: CandidateWords, remaining: CandidateWords, unvisited: set<Word>) {
    && Narrows(remaining, wc)
    && (forall w :: w in wc && (w in unvisited || |wc[w]| <= 1) ==> remaining[w] == wc[w])
    && (forall w :: w in wc && w !in unvisited && |wc[w]| > 1 ==> remaining[w] < wc[w])
  }

  /** Each returned map narrows `wc` and pins the corresponding word to one candidate. */
  ghost predicate Pins(wc: CandidateWords, parts: seq<CandidateWords>, pinned: seq<Word>) {
    |pinned| == |parts| &&
    forall k :: 0 <= k < |parts| ==>
      Narrows(parts[k], wc) && pinned[k] in MultiWords(wc) && |parts[k][pinned[k]]| == 1
  }

  /** Visiting a word with several candidates takes one of them out of the running copy. */
  lemma RunningStep(wc: CandidateWords, m: CandidateWords, unvisited: set<Word>, word: Word, c: Word)
    requires Running(wc, m, unvisited)
    requires word in wc && word in unvisited && |wc[word]| != 1 && c in wc[word]
    ensures Running(wc, m[word := m[word] - {c}], unvisited - {word})
    ensures |MultiWords(wc) - (unvisited - {word})| == |MultiWords(wc) - unvisited| + 1
  {
    assert MultiWords(wc) - (unvisited - {word}) == (MultiWords(wc) - unvisited) + {word};
    RemoveOneNonEmpty(wc[word], c);
  }

  /** ... and the map pinning the word to that candidate narrows the input. */
  lemma PinsStep(wc: CandidateWords, m: CandidateWords, unvisited: set<Word>, parts: seq<CandidateWords>,
                 pinned: seq<Word>, word: Word, c: Word)
    requires Running(wc, m, unvisited) && Pins(wc, parts, pinned)
    requires word in wc && word in unvisited && |wc[word]| != 1 && c in wc[word]
    ensures Pins(wc, parts + [m[word := m[word] - {c}][word := {c}]], pinned + [word])
  {
    var pin := m[word := m[word] - {c}][word := {c}];
    assert pin == m[word := {c}];
    assert Narrows(pin, wc);
  }

  /** Visiting a word with a single candidate changes nothing. */
  lemma SkipStep(wc: CandidateWords, m: CandidateWords, unvisited: set<Word>, word: Word)
    requires Running(wc, m, unvisited) && word in wc && word in unvisited && |m[word]| == 1
    ensures Running(wc, m, unvisited - {word})
    ensures |MultiWords(wc) - (unvisited - {word})| == |MultiWords(wc) - unvisited|
  {
    assert MultiWords(wc) - (unvisited - {word}) == MultiWords(wc) - unvisited;
  }

  /** Once every word was visited, the running copy closes the list of returned maps. */
  lemma PinsDone(wc: CandidateWords, m: CandidateWords, parts: seq<CandidateWords>, pinned: seq<Word>,
                 all: seq<CandidateWords>)
    requires Running(wc, m, {}) && Pins(wc, parts, pinned) && |parts| == |MultiWords(wc) - {}|
    requires all == parts + [m]
    ensures |all| == |MultiWords(wc)| + 1
    ensures forall k :: 0 <= k < |all| ==> Narrows(all[k], wc)
    ensures forall k :: 0 <= k < |all| - 1 ==>
      exists w :: w in MultiWords(wc) && w in all[k] && |all[k][w]| == 1
    ensures MultiWords(wc) == {} ==> all == [wc]
    ensures MultiWords(wc) != {} ==> forall k :: 0 <= k < |all| ==>
      exists w :: w in wc && w in all[k] && all[k][w] < wc[w]
  {
    assert MultiWords(wc) - {} == MultiWords(wc);
    PinsDonePinned(wc, m, parts, pinned, all);
    if MultiWords(wc) == {} {
      assert m == wc;
    } else {
      PinsDoneShrink(wc, m, parts, pinned, all);
    }
  }

  /** Once every word was visited, the k-th returned map pins the k-th pinned word, each one once. */
  lemma PinnedDone(wc: CandidateWords, m: CandidateWords, parts: seq<CandidateWords>, pinned: seq<Word>,
                   all: seq<CandidateWords>)
    requires Pins(wc, parts, pinned) && PinnedOnce(pinned, {}) && all == parts + [m]
    ensures |pinned| == |all| - 1
    ensures forall k :: 0 <= k < |pinned| ==>
      pinned[k] in MultiWords(wc) && pinned[k] in all[k] && |all[k][pinned[k]]| == 1
    ensures forall i, j :: 0 <= i < j < |pinned| ==> pinned[i] != pinned[j]
  {
    forall k | 0 <= k < |pinned|
      ensures pinned[k] in MultiWords(wc) && pinned[k] in all[k] && |all[k][pinned[k]]| == 1
    {
      assert all[k] == parts[k];
    }
  }

  /**
   * The words pinned by a partition are every word with several candidates:
   * as many distinct words as there are such words, each one of them.
   */
  lemma PinnedCoverAll(wc: CandidateWords, pinned: seq<Word>)
    requires |pinned| == |MultiWords(wc)| && (forall i, j :: 0 <= i < j < |pinned| ==> pinned[i] != pinned[j])
    requires forall k :: 0 <= k < |pinned| ==> pinned[k] in MultiWords(wc)
    ensures forall w :: w in MultiWords(wc) ==> w in pinned
  {
    DistinctCovers(pinned, MultiWords(wc));
  }

  /** `part` pins some word with several candidates of `wc` to one candidate. */
  predicate PinsOne(part: CandidateWords, wc: CandidateWords) {
    exists w :: w in MultiWords(wc) && w in part && |part[w]| == 1
  }

  /** Every returned map but the last pins a word with several candidates. */
  lemma PinsDonePinned(wc: CandidateWords, m: CandidateWords, parts: seq<CandidateWords>, pinned: seq<Word>,
                       all: seq<CandidateWords>)
    requires Pins(wc, parts, pinned) && all == parts + [m]
    ensures forall k :: 0 <= k < |all| - 1 ==> PinsOne(all[k], wc)
  {
    forall k | 0 <= k < |all| - 1
      ensures PinsOne(all[k], wc)
    {
      assert all[k] == parts[k];
      assert pinned[k] in all[k];
    }
  }

  /** When some word has several candidates, every returned map lost a candidate of some word. */
  lemma PinsDoneShrink(wc: CandidateWords, m: CandidateWords, parts: seq<CandidateWords>, pinned: seq<Word>,
                       all: seq<CandidateWords>)
    requires Running(wc, m, {}) && Pins(wc, parts, pinned) && all == parts + [m]
    requires MultiWords(wc) != {}
    ensures forall k :: 0 <= k < |all| ==> exists w :: w in wc && w in all[k] && all[k][w] < wc[w]
  {
    forall k | 0 <= k < |all|
      ensures exists w :: w in wc && w in all[k] && all[k][w] < wc[w]
    {
      if k < |parts| {
        var w := pinned[k];
        assert all[k] == parts[k];
        assert all[k][w] <= wc[w] && |all[k][w]| < |wc[w]|;
        assert all[k][w] != wc[w];
      } else {
        var w := Choose(MultiWords(wc));
        assert all[k] == m;
        assert m[w] < wc[w];
      }
    }
  }

  /** Removing one element from a set of at least two leaves it non-empty. */
  lemma RemoveOneNonEmpty(s: set<Word>, c: Word)
    requires |s| > 1
    ensures s - {c} != {}
  {
    if s - {c} == {} {
      assert s <= {c};
      SubsetCard(s, {c});
    }
  }

  /** The state of the partition loop while the words in `unvisited` remain. */
  ghost predicate PinState(wc: CandidateWords, m: CandidateWords, unvisited: set<Word>,
                           parts: seq<CandidateWords>, pinned: seq<Word>)
  {
    && unvisited <= wc.Keys
    && Running(wc, m, unvisited)
    && Pins(wc, parts, pinned) && |parts| == |MultiWords(wc) - unvisited|
    && PinnedOnce(pinned, unvisited)
    && Covers(wc, m, parts)
  }

  /** The pinned words are distinct, and none of them is still to be visited. */
  ghost predicate PinnedOnce(pinned: seq<Word>, unvisited: set<Word>) {
    && (forall i, j :: 0 <= i < j < |pinned| ==> pinned[i] != pinned[j])
    && (forall k :: 0 <= k < |pinned| ==> pinned[k] !in unvisited)
  }

  /** Pinning a word not pinned yet keeps the pinned words distinct. */
  lemma PinnedOnceStep(pinned: seq<Word>, unvisited: set<Word>, word: Word)
    requires PinnedOnce(pinned, unvisited) && word in unvisited
    ensures PinnedOnce(pinned + [word], unvisited - {word})
    ensures PinnedOnce(pinned, unvisited - {word})
  {
    var pinned' := pinned + [word];
    forall i, j | 0 <= i < j < |pinned'|
      ensures pinned'[i] != pinned'[j]
    {
      assert pinned'[i] == pinned[i];
    }
  }

  /** Visiting a word with several candidates: one is taken out of the running copy and pinned in a new map. */
  lemma PinWord(wc: CandidateWords, m: CandidateWords, unvisited: set<Word>,
                parts: seq<CandidateWords>, pinned: seq<Word>, word: Word, c: Word)
    requires PinState(wc, m, unvisited, parts, pinned)
    requires word in unvisited && |m[word]| != 1 && c in m[word]
    ensures PinState(wc, m[word := m[word] - {c}], unvisited - {word},
                     parts + [m[word := m[word] - {c}][word := {c}]], pinned + [word])
  {
    RunningStep(wc, m, unvisited, word, c);
    PinsStep(wc, m, unvisited, parts, pinned, word, c);
    PinnedOnceStep(pinned, unvisited, word);
    CoversStep(wc, m, parts, word, c);
  }

  /** Visiting a word with a single candidate keeps the state. */
  lemma SkipWord(wc: CandidateWords, m: CandidateWords, unvisited: set<Word>,
                 parts: seq<CandidateWords>, pinned: seq<Word>, word: Word)
    requires PinState(wc, m, unvisited, parts, pinned)
    requires word in unvisited && |m[word]| == 1
    ensures PinState(wc, m, unvisited - {word}, parts, pinned)
  {
    SkipStep(wc, m, unvisited, word);
    PinnedOnceStep(pinned, unvisited, word);
  }

  /** Before the loop no word is visited, nothing is returned yet and the running copy is the input. */
  lemma PinStart(wc: CandidateWords)
    requires forall w :: w in wc ==> wc[w] != {}
    ensures PinState(wc, wc, wc.Keys, [], [])
  {
    assert MultiWords(wc) - wc.Keys == {};
  }

  /**
   * The body of the partition loop for one word: when it has several
   * candidates, one is taken out of the running copy and a map pinning the
   * word to it is collected.
   */
  method VisitWord(wc: CandidateWords, remainingWordCandidates: CandidateWords, unvisited: set<Word>,
                   parts: seq<CandidateWords>, ghost pinned: seq<Word>, word: Word)
    returns (remaining': CandidateWords, parts': seq<CandidateWords>, ghost pinned': seq<Word>)
    requires PinState(wc, remainingWordCandidates, unvisited, parts, pinned) && word in unvisited
    ensures PinState(wc, remaining', unvisited - {word}, parts', pinned')
  {
    var candidateWords := remainingWordCandidates[word];
    if |candidateWords| != 1 {
      var candidateWord := Pick(candidateWords);
      PinWord(wc, remainingWordCandidates, unvisited, parts, pinned, word, candidateWord);
      remaining' := remainingWordCandidates[word := remainingWordCandidates[word] - {candidateWord}];
      var newWordCandidates := remaining'[word := {candidateWord}];
      parts' := parts + [newWordCandidates];
      pinned' := pinned + [word];
    } else {
      SkipWord(wc, remainingWordCandidates, unvisited, parts, pinned, word);
      remaining', parts', pinned' := remainingWordCandidates, parts, pinned;
    }
  }

  /** The loop of partitionWordCandidates: every word is visited once. */
  method PinEachWord(wc: CandidateWords) returns (remainingWordCandidates: CandidateWords,
                                                   parts: seq<CandidateWords>, ghost pinned: seq<Word>)
    requires forall w :: w in wc ==> wc[w] != {}
    ensures PinState(wc, remainingWordCandidates, {}, parts, pinned)
  {
    parts := [];
    remainingWordCandidates := wc;
    pinned := [];
    var words := wc.Keys;
    PinStart(wc);
    while words != {}
      invariant PinState(wc, remainingWordCandidates, words, parts, pinned)
      decreases words
    {
      var word := Pick(words);
      remainingWordCandidates, parts, pinned := VisitWord(wc, remainingWordCandidates, words, parts, pinned, word);
      words := words - {word};
    }
  }

  /**
   * partitionWordCandidates: one map per word with several candidates, pinning
   * it to one of them, and the running copy last. `pinned` names the word each
   * map pins; they are distinct, and by PinnedCoverAll they are all the words
   * with several candidates. The maps narrow the input, their combinations
   * are pairwise disjoint and together are the input's.
   */
  method PartitionWordCandidates(wc: CandidateWords) returns (parts: seq<CandidateWords>, ghost pinned: seq<Word>)
    requires forall w :: w in wc ==> wc[w] != {}
    ensures |parts| == |MultiWords(wc)| + 1
    ensures |pinned| == |parts| - 1
    ensures forall k :: 0 <= k < |pinned| ==>
      pinned[k] in MultiWords(wc) && pinned[k] in parts[k] && |parts[k][pinned[k]]| == 1
    ensures forall i, j :: 0 <= i < j < |pinned| ==> pinned[i] != pinned[j]
    ensures forall k :: 0 <= k < |parts| ==> Narrows(parts[k], wc)
    ensures forall k :: 0 <= k < |parts| - 1 ==>
      exists w :: w in MultiWords(wc) && w in parts[k] && |parts[k][w]| == 1
    ensures MultiWords(wc) == {} ==> parts == [wc]
    ensures MultiWords(wc) != {} ==> forall k :: 0 <= k < |parts| ==>
      exists w :: w in wc && w in parts[k] && parts[k][w] < wc[w]
    ensures forall choice :: Selects(choice, wc) <==>
      exists k :: 0 <= k < |parts| && Selects(choice, parts[k])
    ensures forall i, j, choice :: 0 <= i < j < |parts| && Selects(choice, parts[i]) ==>
      !Selects(choice, parts[j])
  {
    var remainingWordCandidates, pinning;
    remainingWordCandidates, pinning, pinned := PinEachWord(wc);
    parts := pinning + [remainingWordCandidates];
    CoversDone(wc, remainingWordCandidates, pinning, parts);
    PinsDone(wc, remainingWordCandidates, pinning, pinned, parts);
    PinnedDone(wc, remainingWordCandidates, pinning, pinned, parts);
  }
}
