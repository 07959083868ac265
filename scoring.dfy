/** The scorer and the feedback normaliser. A score is a string over the
    three symbols 'H' (hit: same letter at this position), 'h' (present: the
    letter occurs somewhere in the solution) and '.' (miss). */
module Scoring {
  import opened Letters

  const Hit: char := 'H'
  const Present: char := 'h'
  const Miss: char := '.'

  /** A computation that may abort because a guess and a solution differ in
      length (the panic of scoreAgainst, carrying the two words it names). */
  datatype Result<T> = Ok(value: T) | LengthMismatch(guess: string, solution: string)

  predicate IsScoreSymbol(c: char) { c == Hit || c == Present || c == Miss }

  /** The symbol for position `i`: a hit when the letters agree, otherwise
      present when the letter occurs anywhere in the solution (a plain
      membership test that ignores how often it occurs), otherwise a miss. */
  function SymbolAt(guess: string, solution: string, i: nat): char
    requires i < |guess| && i < |solution|
  {
    if guess[i] == solution[i] then Hit
    else if guess[i] in solution then Present
    else Miss
  }

  /** The first `n` symbols of the score, appended one position at a time. */
  function ScorePrefix(guess: string, solution: string, n: nat): string
    requires n <= |guess| == |solution|
  {
    if n == 0 then [] else ScorePrefix(guess, solution, n - 1) + [SymbolAt(guess, solution, n - 1)]
  }

  /** The score of `guess` against `solution`, for words of equal length. */
  function Score(guess: string, solution: string): string
    requires |guess| == |solution|
  {
    ScorePrefix(guess, solution, |guess|)
  }

  /** What each position of a score means. */
  lemma {:induction false} ScorePrefixAt(guess: string, solution: string, n: nat)
    requires n <= |guess| == |solution|
    ensures |ScorePrefix(guess, solution, n)| == n
    ensures forall i | 0 <= i < n ::
      && (ScorePrefix(guess, solution, n)[i] == Hit <==> guess[i] == solution[i])
      && (ScorePrefix(guess, solution, n)[i] == Present <==> guess[i] != solution[i] && guess[i] in solution)
      && (ScorePrefix(guess, solution, n)[i] == Miss <==> guess[i] !in solution)
  {
    if n > 0 {
      ScorePrefixAt(guess, solution, n - 1);
    }
  }

  /** The score has one symbol per position of the guess: 'H' exactly where
      guess and solution agree, 'h' exactly where they disagree and the
      guessed letter occurs in the solution, '.' exactly where it does not. */
  lemma ScoreAt(guess: string, solution: string)
    requires |guess| == |solution|
    ensures |Score(guess, solution)| == |guess|
    ensures forall i | 0 <= i < |guess| ::
      && (Score(guess, solution)[i] == Hit <==> guess[i] == solution[i])
      && (Score(guess, solution)[i] == Present <==> guess[i] != solution[i] && guess[i] in solution)
      && (Score(guess, solution)[i] == Miss <==> guess[i] !in solution)
  {
    ScorePrefixAt(guess, solution, |guess|);
  }

  /** Every symbol of a score is one of 'H', 'h', '.'. */
  lemma ScoreAlphabet(guess: string, solution: string)
    requires |guess| == |solution|
    ensures forall i | 0 <= i < |Score(guess, solution)| :: IsScoreSymbol(Score(guess, solution)[i])
  {
    ScoreAt(guess, solution);
  }

  /** A word scored against itself is all hits. */
  lemma ScoreSelf(w: string)
    ensures Score(w, w) == seq(|w|, _ => Hit)
  {
    ScoreAt(w, w);
  }

  /** The present test does not count letters: two positions of the guess that
      hold the same letter, neither of them a hit, get the same symbol. */
  lemma ScoreIgnoresCounts(guess: string, solution: string, i: nat, j: nat)
    requires |guess| == |solution|
    requires i < |guess| && j < |guess| && guess[i] == guess[j]
    requires guess[i] != solution[i] && guess[j] != solution[j]
    ensures |Score(guess, solution)| == |guess|
    ensures Score(guess, solution)[i] == Score(guess, solution)[j]
    ensures guess[i] in solution ==> Score(guess, solution)[i] == Present
  {
    ScoreAt(guess, solution);
  }

  /** scoreAgainst: aborts on words of different length, otherwise builds the
      score one position at a time. */
  method ScoreAgainst(guess: string, solution: string) returns (r: Result<string>)
    ensures |guess| != |solution| ==> r == LengthMismatch(guess, solution)
    ensures |guess| == |solution| ==> r == Ok(Score(guess, solution))
  {
    if |guess| != |solution| {
      return LengthMismatch(guess, solution);
    }
    var score := [];
    var idx := 0;
    while idx < |guess|
      invariant 0 <= idx <= |guess|
      invariant score == ScorePrefix(guess, solution, idx)
    {
      var letter := guess[idx];
      if letter == solution[idx] {
        score := score + [Hit];
      } else if letter in solution {
        score := score + [Present];
      } else {
        score := score + [Miss];
      }
      idx := idx + 1;
    }
    return Ok(score);
  }

  /** The canonical symbol for one raw feedback character: lower case is
      present, upper case is a hit, anything else a miss. */
  function FeedbackSymbol(c: char): (s: char)
    ensures IsScoreSymbol(s)
    ensures IsScoreSymbol(c) ==> s == c
  {
    if IsLower(c) then Present else if IsUpper(c) then Hit else Miss
  }

  /** toUniqueScore as a value, built from the front like the source's loop. */
  function UniqueScore(raw: string): string
    decreases |raw|
  {
    if raw == [] then [] else UniqueScore(raw[..|raw| - 1]) + [FeedbackSymbol(raw[|raw| - 1])]
  }

  /** The normalised feedback keeps the length and maps each character by
      its case: lower case to 'h', upper case to 'H', anything else to '.'. */
  lemma {:induction false} UniqueScoreAt(raw: string)
    ensures |UniqueScore(raw)| == |raw|
    ensures forall i | 0 <= i < |raw| ::
      && (IsLower(raw[i]) ==> UniqueScore(raw)[i] == Present)
      && (IsUpper(raw[i]) ==> UniqueScore(raw)[i] == Hit)
      && (!IsLetter(raw[i]) ==> UniqueScore(raw)[i] == Miss)
    decreases |raw|
  {
    if raw != [] {
      UniqueScoreAt(raw[..|raw| - 1]);
    }
  }

  /** The normalised feedback is written in the score alphabet only. */
  lemma UniqueScoreAlphabet(raw: string)
    ensures forall i | 0 <= i < |UniqueScore(raw)| :: IsScoreSymbol(UniqueScore(raw)[i])
  {
    UniqueScoreAt(raw);
  }

  /** A string already in the score alphabet is a fixed point. */
  lemma {:induction false} UniqueScoreFixesScores(s: string)
    requires forall i | 0 <= i < |s| :: IsScoreSymbol(s[i])
    ensures UniqueScore(s) == s
    decreases |s|
  {
    if s != [] {
      UniqueScoreFixesScores(s[..|s| - 1]);
      assert s == s[..|s| - 1] + [s[|s| - 1]];
    }
  }

  /** Normalising twice is normalising once. */
  lemma UniqueScoreIdempotent(raw: string)
    ensures UniqueScore(UniqueScore(raw)) == UniqueScore(raw)
  {
    UniqueScoreAlphabet(raw);
    UniqueScoreFixesScores(UniqueScore(raw));
  }

  /** Every score the scorer produces is already normalised. */
  lemma ScoreIsNormalised(guess: string, solution: string)
    requires |guess| == |solution|
    ensures UniqueScore(Score(guess, solution)) == Score(guess, solution)
  {
    ScoreAlphabet(guess, solution);
    UniqueScoreFixesScores(Score(guess, solution));
  }

  /** toUniqueScore: one canonical symbol appended per raw character. */
  method ToUniqueScore(score: string) returns (uniqueScore: string)
    ensures uniqueScore == UniqueScore(score)
  {
    uniqueScore := [];
    var i := 0;
    while i < |score|
      invariant 0 <= i <= |score|
      invariant uniqueScore == UniqueScore(score[..i])
    {
      assert score[..i + 1][..i] == score[..i];
      var letter := score[i];
      if IsLower(letter) {
        uniqueScore := uniqueScore + [Present];
      } else if IsUpper(letter) {
        uniqueScore := uniqueScore + [Hit];
      } else {
        uniqueScore := uniqueScore + [Miss];
      }
      i := i + 1;
    }
    assert score[..i] == score;
  }
}
