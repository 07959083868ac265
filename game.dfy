/** The game state and the ranker: the candidates still consistent with the
    feedback so far, and for every legal guess the size of its worst-case
    bucket over those candidates. */
module Game {
  import opened Letters
  import opened WordList
  import opened Scoring
  import opened Ordering

  /** Every word of `words` has the length of `word`, so it can be scored against it. */
  predicate SameLength(word: string, words: seq<string>) {
    forall s | s in words :: |s| == |word|
  }

  /** Every guess word can be scored against every candidate. */
  predicate Compatible(guesses: seq<string>, candidates: seq<string>) {
    forall w | w in guesses :: SameLength(w, candidates)
  }

  /** The candidates of `words` whose score for `guess` is `score`, in order:
      the candidate list after `guess(guess, score)`. */
  function Survivors(guess: string, score: string, words: seq<string>): (r: seq<string>)
    requires SameLength(guess, words)
    ensures |r| <= |words|
    ensures forall w | w in r :: w in words
    decreases |words|
  {
    if words == [] then []
    else
      var last := words[|words| - 1];
      var prefix := words[..|words| - 1];
      assert forall s | s in prefix :: s in words;
      Survivors(guess, score, prefix) + (if Score(guess, last) == score then [last] else [])
  }

  /** One more candidate is kept at the end exactly when it scores the feedback. */
  lemma SurvivorsSnoc(guess: string, score: string, words: seq<string>, x: string)
    requires SameLength(guess, words + [x])
    ensures SameLength(guess, words) && |x| == |guess|
    ensures Survivors(guess, score, words + [x])
      == Survivors(guess, score, words) + (if Score(guess, x) == score then [x] else [])
  {
    assert (words + [x])[..|words|] == words;
    assert x in words + [x];
    assert forall s | s in words :: s in words + [x];
  }

  /** Regrouping a concatenation of three candidate lists. */
  lemma ConcatAssociative(x: seq<string>, y: seq<string>, z: seq<string>)
    ensures (x + y) + z == x + (y + z)
  {
  }

  /** Filtering keeps the order: survivors of earlier candidates come first. */
  lemma {:induction false} SurvivorsConcat(guess: string, score: string, a: seq<string>, b: seq<string>)
    requires SameLength(guess, a + b)
    ensures SameLength(guess, a) && SameLength(guess, b)
    ensures Survivors(guess, score, a + b) == Survivors(guess, score, a) + Survivors(guess, score, b)
    decreases |b|
  {
    assert SameLength(guess, a) && SameLength(guess, b) by {
      assert forall s | s in a :: s in a + b;
      assert forall s | s in b :: s in a + b;
    }
    if b == [] {
      assert a + b == a;
    } else {
      var b' := b[..|b| - 1];
      var x := b[|b| - 1];
      var kept := if Score(guess, x) == score then [x] else [];
      assert b == b' + [x];
      assert a + b == (a + b') + [x];
      SurvivorsSnoc(guess, score, a + b', x);
      SurvivorsSnoc(guess, score, b', x);
      SurvivorsConcat(guess, score, a, b');
      ConcatAssociative(Survivors(guess, score, a), Survivors(guess, score, b'), kept);
    }
  }

  /** Exactly the consistent candidates survive, each as often as it occurred. */
  lemma {:induction false} SurvivorsExact(guess: string, score: string, words: seq<string>)
    requires SameLength(guess, words)
    ensures forall w | w in words ::
      multiset(Survivors(guess, score, words))[w] == if Score(guess, w) == score then multiset(words)[w] else 0
    decreases |words|
  {
    if words != [] {
      var last := words[|words| - 1];
      var prefix := words[..|words| - 1];
      assert words == prefix + [last];
      assert forall s | s in prefix :: s in words;
      SurvivorsExact(guess, score, prefix);
      forall w | w in words
        ensures multiset(Survivors(guess, score, words))[w]
          == if Score(guess, w) == score then multiset(words)[w] else 0
      {
        if w !in prefix {
          assert multiset(prefix)[w] == 0;
          assert w !in Survivors(guess, score, prefix);
        }
      }
    }
  }

  /** Every survivor is consistent with the feedback: scoring it against the
      guess gives back exactly `score`. */
  lemma {:induction false} SurvivorsConsistent(guess: string, score: string, words: seq<string>)
    requires SameLength(guess, words)
    ensures forall w | w in Survivors(guess, score, words) :: |w| == |guess| && Score(guess, w) == score
    decreases |words|
  {
    if words != [] {
      var prefix := words[..|words| - 1];
      assert forall s | s in prefix :: s in words;
      SurvivorsConsistent(guess, score, prefix);
    }
  }

  /** Repeating a guess with the same feedback changes nothing more. */
  lemma {:induction false} SurvivorsIdempotent(guess: string, score: string, words: seq<string>)
    requires SameLength(guess, words)
    ensures SameLength(guess, Survivors(guess, score, words))
    ensures Survivors(guess, score, Survivors(guess, score, words)) == Survivors(guess, score, words)
    decreases |words|
  {
    if words != [] {
      var prefix := words[..|words| - 1];
      var last := words[|words| - 1];
      assert forall s | s in prefix :: s in words;
      SurvivorsIdempotent(guess, score, prefix);
      var kept := Survivors(guess, score, prefix);
      var tail := if Score(guess, last) == score then [last] else [];
      assert forall s | s in tail :: s in words;
      SurvivorsConcat(guess, score, kept, tail);
      if tail != [] {
        assert tail[..0] == [];
      }
    }
  }

  /** The solution is never eliminated by its own feedback. */
  lemma SolutionSurvives(guess: string, solution: string, words: seq<string>)
    requires SameLength(guess, words) && solution in words
    ensures solution in Survivors(guess, score := Score(guess, solution), words := words)
  {
    SurvivorsExact(guess, Score(guess, solution), words);
  }

  /** The buckets getBestGuesses counts for one guess word: each score
      mapped to how many candidates produce it (Go's `scores[score] += 1`,
      with a missing key read as 0). */
  function Buckets(word: string, solutions: seq<string>): map<string, nat>
    requires SameLength(word, solutions)
    decreases |solutions|
  {
    if solutions == [] then map[]
    else
      var prefix := solutions[..|solutions| - 1];
      assert forall s | s in prefix :: s in solutions;
      var m := Buckets(word, prefix);
      var score := Score(word, solutions[|solutions| - 1]);
      m[score := (if score in m then m[score] else 0) + 1]
  }

  /** Each bucket holds exactly the candidates the feedback would leave: the
      count for a score is the length of the list `guess` would keep, and a
      score has a bucket iff some candidate produces it. */
  lemma {:induction false} BucketsAreSurvivorCounts(word: string, solutions: seq<string>)
    requires SameLength(word, solutions)
    ensures forall k :: k in Buckets(word, solutions) <==> |Survivors(word, k, solutions)| > 0
    ensures forall k | k in Buckets(word, solutions) ::
      Buckets(word, solutions)[k] == |Survivors(word, k, solutions)|
    decreases |solutions|
  {
    if solutions != [] {
      var prefix := solutions[..|solutions| - 1];
      assert forall s | s in prefix :: s in solutions;
      BucketsAreSurvivorCounts(word, prefix);
    }
  }

  /** The sum of the values of a map of counts. */
  ghost function Total(m: map<string, nat>): nat
    decreases |m|
  {
    if m == map[] then 0
    else
      var k :| k in m;
      assert (m - {k}).Keys == m.Keys - {k};
      m[k] + Total(m - {k})
  }

  /** The total does not depend on which key is taken out first. */
  lemma {:induction false} TotalRemove(m: map<string, nat>, k: string)
    requires k in m
    ensures Total(m) == m[k] + Total(m - {k})
    decreases |m|
  {
    var j :| j in m && Total(m) == m[j] + Total(m - {j});
    assert (m - {j}).Keys == m.Keys - {j};
    if j != k {
      var mj := m - {j};
      var mk := m - {k};
      assert mj.Keys == m.Keys - {j};
      TotalRemove(mj, k);
      assert (mj - {k}).Keys == mk.Keys - {j};
      assert mk.Keys == m.Keys - {k};
      TotalRemove(mk, j);
      assert mj - {k} == mk - {j};
    }
  }

  /** Adding one to a count (a missing key counting as 0) adds one to the total. */
  lemma TotalIncrement(m: map<string, nat>, k: string)
    ensures Total(m[k := (if k in m then m[k] else 0) + 1]) == Total(m) + 1
  {
    var m' := m[k := (if k in m then m[k] else 0) + 1];
    TotalRemove(m', k);
    if k in m {
      TotalRemove(m, k);
      assert m' - {k} == m - {k};
    } else {
      assert m' - {k} == m;
    }
  }

  /** Every candidate lands in exactly one bucket: the counts add up to the
      number of candidates. */
  lemma {:induction false} BucketsSum(word: string, solutions: seq<string>)
    requires SameLength(word, solutions)
    ensures Total(Buckets(word, solutions)) == |solutions|
    decreases |solutions|
  {
    if solutions != [] {
      var prefix := solutions[..|solutions| - 1];
      assert forall s | s in prefix :: s in solutions;
      BucketsSum(word, prefix);
      TotalIncrement(Buckets(word, prefix), Score(word, solutions[|solutions| - 1]));
    }
  }

  /** The largest bucket reached from the scores of `probes`. */
  function LargestBucket(word: string, solutions: seq<string>, probes: seq<string>): nat
    requires SameLength(word, solutions) && SameLength(word, probes)
    decreases |probes|
  {
    if probes == [] then 0
    else
      var prefix := probes[..|probes| - 1];
      assert forall s | s in prefix :: s in probes;
      var size := |Survivors(word, Score(word, probes[|probes| - 1]), solutions)|;
      var rest := LargestBucket(word, solutions, prefix);
      if size > rest then size else rest
  }

  /** The size of the largest bucket of `word` over `solutions`. */
  function WorstCase(word: string, solutions: seq<string>): nat
    requires SameLength(word, solutions)
  {
    LargestBucket(word, solutions, solutions)
  }

  /** No probe's bucket is larger than LargestBucket. */
  lemma {:induction false} LargestBucketIsUpperBound(word: string, solutions: seq<string>, probes: seq<string>)
    requires SameLength(word, solutions) && SameLength(word, probes)
    ensures forall p | p in probes ::
      |Survivors(word, Score(word, p), solutions)| <= LargestBucket(word, solutions, probes)
    decreases |probes|
  {
    if probes != [] {
      var prefix := probes[..|probes| - 1];
      var last := probes[|probes| - 1];
      assert forall s | s in prefix :: s in probes;
      LargestBucketIsUpperBound(word, solutions, prefix);
      forall p | p in probes
        ensures |Survivors(word, Score(word, p), solutions)| <= LargestBucket(word, solutions, probes)
      {
        if p != last {
          assert p in prefix by {
            assert probes == prefix + [last];
          }
        }
      }
    }
  }

  /** Some probe's bucket has exactly the size LargestBucket reports, and with
      no probes it is 0. */
  lemma {:induction false} LargestBucketIsAttained(word: string, solutions: seq<string>, probes: seq<string>)
    requires SameLength(word, solutions) && SameLength(word, probes)
    ensures probes != [] ==> exists p | p in probes ::
      |Survivors(word, Score(word, p), solutions)| == LargestBucket(word, solutions, probes)
    ensures probes == [] ==> LargestBucket(word, solutions, probes) == 0
    decreases |probes|
  {
    if probes != [] {
      var prefix := probes[..|probes| - 1];
      var last := probes[|probes| - 1];
      assert forall s | s in prefix :: s in probes;
      LargestBucketIsAttained(word, solutions, prefix);
      var size := |Survivors(word, Score(word, last), solutions)|;
      if size <= LargestBucket(word, solutions, prefix) && prefix != [] {
        var p :| p in prefix && |Survivors(word, Score(word, p), solutions)| == LargestBucket(word, solutions, prefix);
        assert p in probes;
      } else {
        assert last in probes;
      }
    }
  }

  lemma LargestBucketBounds(word: string, solutions: seq<string>, probes: seq<string>)
    requires SameLength(word, solutions) && SameLength(word, probes)
    ensures forall p | p in probes ::
      |Survivors(word, Score(word, p), solutions)| <= LargestBucket(word, solutions, probes)
    ensures probes != [] ==> exists p | p in probes ::
      |Survivors(word, Score(word, p), solutions)| == LargestBucket(word, solutions, probes)
    ensures probes == [] ==> LargestBucket(word, solutions, probes) == 0
  {
    LargestBucketIsUpperBound(word, solutions, probes);
    LargestBucketIsAttained(word, solutions, probes);
  }

  /** The minimax value: no feedback leaves more candidates than WorstCase,
      and when there are candidates some feedback leaves exactly that many. */
  lemma WorstCaseIsMinimax(word: string, solutions: seq<string>)
    requires SameLength(word, solutions)
    ensures forall score :: |Survivors(word, score, solutions)| <= WorstCase(word, solutions)
    ensures solutions != [] ==>
      exists score :: |Survivors(word, score, solutions)| == WorstCase(word, solutions)
  {
    LargestBucketBounds(word, solutions, solutions);
    forall score ensures |Survivors(word, score, solutions)| <= WorstCase(word, solutions) {
      var r := Survivors(word, score, solutions);
      if r != [] {
        SurvivorsConsistent(word, score, solutions);
        assert r[0] in r;
      }
    }
  }

  /** For a non-empty candidate list the worst case lies between 1 and the
      number of candidates; it is 0 for an empty one. */
  lemma WorstCaseBounds(word: string, solutions: seq<string>)
    requires SameLength(word, solutions)
    ensures WorstCase(word, solutions) <= |solutions|
    ensures solutions != [] ==> 1 <= WorstCase(word, solutions)
    ensures solutions == [] ==> WorstCase(word, solutions) == 0
  {
    LargestBucketBounds(word, solutions, solutions);
    if solutions != [] {
      var p :| p in solutions && |Survivors(word, Score(word, p), solutions)| == WorstCase(word, solutions);
      SolutionSurvives(word, p, solutions);
    }
  }

  /** WorstCase is the largest bucket count, as getBestGuesses computes it. */
  lemma WorstCaseIsLargestCount(word: string, solutions: seq<string>)
    requires SameLength(word, solutions)
    ensures forall k | k in Buckets(word, solutions) :: Buckets(word, solutions)[k] <= WorstCase(word, solutions)
    ensures solutions != [] ==>
      exists k | k in Buckets(word, solutions) :: Buckets(word, solutions)[k] == WorstCase(word, solutions)
    ensures solutions == [] ==> Buckets(word, solutions) == map[] && WorstCase(word, solutions) == 0
  {
    BucketsAreSurvivorCounts(word, solutions);
    WorstCaseIsMinimax(word, solutions);
    LargestBucketBounds(word, solutions, solutions);
    if solutions != [] {
      var p :| p in solutions && |Survivors(word, Score(word, p), solutions)| == WorstCase(word, solutions);
      WorstCaseBounds(word, solutions);
      assert Score(word, p) in Buckets(word, solutions);
    }
  }

  /** Any upper bound of the bucket counts that is itself a count is the worst case. */
  lemma MaxCountIsWorstCase(word: string, solutions: seq<string>, maxCount: nat)
    requires SameLength(word, solutions)
    requires forall k | k in Buckets(word, solutions) :: Buckets(word, solutions)[k] <= maxCount
    requires Buckets(word, solutions) == map[] ==> maxCount == 0
    requires Buckets(word, solutions) != map[] ==>
      exists k | k in Buckets(word, solutions) :: Buckets(word, solutions)[k] == maxCount
    ensures maxCount == WorstCase(word, solutions)
  {
    WorstCaseIsLargestCount(word, solutions);
    if solutions != [] {
      var k0 :| k0 in Buckets(word, solutions) && Buckets(word, solutions)[k0] == WorstCase(word, solutions);
    }
  }

  /** The map getBestGuesses hands to getKeysSortedByValue: every guess word
      with its worst case. */
  function WordScores(guesses: seq<string>, candidates: seq<string>): map<string, int>
    requires Compatible(guesses, candidates)
  {
    map w | w in guesses :: WorstCase(w, candidates)
  }

  /** Adding one guess word adds its worst case to the map. */
  lemma WordScoresSnoc(guesses: seq<string>, word: string, candidates: seq<string>)
    requires Compatible(guesses + [word], candidates)
    ensures Compatible(guesses, candidates) && SameLength(word, candidates)
    ensures WordScores(guesses + [word], candidates)
      == WordScores(guesses, candidates)[word := WorstCase(word, candidates)]
  {
    assert forall w | w in guesses :: w in guesses + [word];
    assert word in guesses + [word];
    var m := WordScores(guesses + [word], candidates);
    var m' := WordScores(guesses, candidates)[word := WorstCase(word, candidates)];
    assert m.Keys == m'.Keys;
  }

  /** One more candidate increments the counter of its score. */
  lemma BucketsStep(word: string, solutions: seq<string>, i: nat)
    requires i < |solutions| && SameLength(word, solutions[..i + 1])
    ensures SameLength(word, solutions[..i]) && |solutions[i]| == |word|
    ensures var m := Buckets(word, solutions[..i]);
      var score := Score(word, solutions[i]);
      Buckets(word, solutions[..i + 1]) == m[score := (if score in m then m[score] else 0) + 1]
  {
    assert solutions[..i + 1][..i] == solutions[..i];
    assert solutions[i] in solutions[..i + 1];
    assert forall s | s in solutions[..i] :: s in solutions[..i + 1];
  }

  /** The inner loop of getBestGuesses: count the candidates per score. */
  method CountScores(word: string, solutions: seq<string>) returns (r: Result<map<string, nat>>)
    ensures r.Ok? <==> SameLength(word, solutions)
    ensures r.Ok? ==> SameLength(word, solutions) && r.value == Buckets(word, solutions)
    ensures r.LengthMismatch? ==> r.guess == word && r.solution in solutions && |r.solution| != |word|
    ensures r.LengthMismatch? ==>
      exists i | 0 <= i < |solutions| :: r.solution == solutions[i] && SameLength(word, solutions[..i])
  {
    var scores: map<string, nat> := map[];
    var i := 0;
    while i < |solutions|
      invariant 0 <= i <= |solutions|
      invariant SameLength(word, solutions[..i])
      invariant scores == Buckets(word, solutions[..i])
    {
      var solution := solutions[i];
      var scored := ScoreAgainst(word, solution);
      if scored.LengthMismatch? {
        assert solution == solutions[i] && SameLength(word, solutions[..i]);
        return LengthMismatch(word, solution);
      }
      var score := scored.value;
      assert SameLength(word, solutions[..i + 1]) by {
        assert solutions[..i + 1] == solutions[..i] + [solution];
      }
      BucketsStep(word, solutions, i);
      scores := scores[score := (if score in scores then scores[score] else 0) + 1];
      i := i + 1;
    }
    assert solutions[..i] == solutions;
    return Ok(scores);
  }

  /** The running maximum of getBestGuesses over the counts, visited in any order. */
  method MaxCount(scores: map<string, nat>) returns (maxCount: nat)
    ensures forall k | k in scores :: scores[k] <= maxCount
    ensures scores == map[] ==> maxCount == 0
    ensures scores != map[] ==> exists k | k in scores :: scores[k] == maxCount
  {
    maxCount := 0;
    var unvisited := scores.Keys;
    while unvisited != {}
      invariant unvisited <= scores.Keys
      invariant forall k | k in scores && k !in unvisited :: scores[k] <= maxCount
      invariant (unvisited == scores.Keys && maxCount == 0)
        || (exists k | k in scores && k !in unvisited :: scores[k] == maxCount)
      decreases unvisited
    {
      var key :| key in unvisited;
      if scores[key] > maxCount {
        maxCount := scores[key];
      }
      unvisited := unvisited - {key};
    }
  }

  /** The solver's state: the universe of legal guesses and the candidates
      still consistent with the feedback received. */
  class WordGame {
    var allWords: seq<string>
    var remainingWords: seq<string>

    constructor (allWords: seq<string>, remainingWords: seq<string>)
      ensures this.allWords == allWords && this.remainingWords == remainingWords
    {
      this.allWords := allWords;
      this.remainingWords := remainingWords;
    }

    /** getBestGuesses: every guess word once, ranked by its worst case over
        the remaining candidates, ties in string order; it aborts on the first
        guess word and candidate of different lengths. */
    method GetBestGuesses() returns (r: Result<seq<string>>)
      ensures r.Ok? <==> Compatible(allWords, remainingWords)
      ensures r.Ok? ==>
        Compatible(allWords, remainingWords) && IsRanking(r.value, WordScores(allWords, remainingWords))
      ensures r.LengthMismatch? ==>
        r.guess in allWords && r.solution in remainingWords && |r.guess| != |r.solution|
      ensures r.LengthMismatch? ==> exists i | 0 <= i < |allWords| ::
        r.guess == allWords[i] && Compatible(allWords[..i], remainingWords)
      ensures r.LengthMismatch? ==> exists j | 0 <= j < |remainingWords| ::
        r.solution == remainingWords[j] && SameLength(r.guess, remainingWords[..j])
    {
      var guesses := allWords;
      var candidates := remainingWords;
      var wordScores: map<string, int> := map[];
      var i := 0;
      while i < |guesses|
        invariant 0 <= i <= |guesses|
        invariant Compatible(guesses[..i], candidates)
        invariant wordScores == WordScores(guesses[..i], candidates)
      {
        var word := guesses[i];
        var scores := CountScores(word, candidates);
        if scores.LengthMismatch? {
          assert word == guesses[i] && Compatible(guesses[..i], candidates);
          return LengthMismatch(scores.guess, scores.solution);
        }
        var maxCount := MaxCount(scores.value);
        MaxCountIsWorstCase(word, candidates, maxCount);
        assert guesses[..i + 1] == guesses[..i] + [word];
        WordScoresSnoc(guesses[..i], word, candidates);
        wordScores := wordScores[word := maxCount];
        i := i + 1;
      }
      assert guesses[..i] == guesses;
      var ranked := GetKeysSortedByValue(wordScores);
      return Ok(ranked);
    }

    /** guess: keep the candidates whose score for `guess` equals the
        feedback, in order; it aborts, leaving the state as it was, on the
        first candidate whose length differs from the guess. */
    method Guess(guess: string, score: string) returns (r: Result<()>)
      modifies this
      ensures allWords == old(allWords)
      ensures r.Ok? <==> SameLength(guess, old(remainingWords))
      ensures r.Ok? ==>
        SameLength(guess, old(remainingWords)) && remainingWords == Survivors(guess, score, old(remainingWords))
      ensures r.LengthMismatch? ==>
        remainingWords == old(remainingWords) && r.guess == guess
        && r.solution in old(remainingWords) && |r.solution| != |guess|
      ensures r.LengthMismatch? ==> exists i | 0 <= i < |old(remainingWords)| ::
        r.solution == old(remainingWords)[i] && SameLength(guess, old(remainingWords)[..i])
    {
      var words := remainingWords;
      var newRemainingWords := [];
      var i := 0;
      while i < |words|
        invariant 0 <= i <= |words|
        invariant allWords == old(allWords) && remainingWords == words == old(remainingWords)
        invariant SameLength(guess, words[..i])
        invariant newRemainingWords == Survivors(guess, score, words[..i])
      {
        var word := words[i];
        var scored := ScoreAgainst(guess, word);
        if scored.LengthMismatch? {
          assert word == words[i] && SameLength(guess, words[..i]);
          return LengthMismatch(guess, word);
        }
        assert words[..i + 1][..i] == words[..i];
        if scored.value == score {
          newRemainingWords := newRemainingWords + [word];
        }
        i := i + 1;
      }
      assert words[..i] == words;
      remainingWords := newRemainingWords;
      return Ok(());
    }
  }

  /** createWordGame: clean the word list once and start the candidates as
      a copy of it. */
  method CreateWordGame(words: seq<string>, length: int) returns (wg: WordGame)
    ensures fresh(wg)
    ensures wg.allWords == Cleaned(words, length) && wg.remainingWords == wg.allWords
    ensures forall w | w in wg.allWords :: IsCleanWord(w, length)
  {
    var cleaned := CleanupWords(words, length);
    var remainingWords := cleaned;
    wg := new WordGame(cleaned, remainingWords);
  }

  /** createWordGameFromWordLists: both lists only upper-cased (empty words
      dropped), without the letter and length filters. */
  method CreateWordGameFromWordLists(allWords: seq<string>, remainingWords: seq<string>) returns (wg: WordGame)
    ensures fresh(wg)
    ensures wg.allWords == Applied(ToUpper, allWords)
    ensures wg.remainingWords == Applied(ToUpper, remainingWords)
  {
    var all := ApplyToWordSlice(ToUpper, allWords);
    var remaining := ApplyToWordSlice(ToUpper, remainingWords);
    wg := new WordGame(all, remaining);
  }
}
