/** Worked examples of the solver's behaviour, each proved on concrete words. */
module Examples {
  import opened Letters
  import opened WordList
  import opened Scoring
  import opened Ordering
  import opened Game

  /** Upper-casing a list maps every word, mixed case included. */
  lemma UpperCaseList()
    ensures Applied(ToUpper, ["abc", "aBc"]) == ["ABC", "ABC"]
  {
    assert ToUpper("abc") == "ABC";
    assert ToUpper("aBc") == "ABC";
    assert ["abc", "aBc"][..1] == ["abc"];
    assert ["abc"][..0] == [];
  }

  /** Upper-casing leaves characters other than letters alone. */
  lemma UpperCaseKeepsSpecialCharacters()
    ensures Applied(ToUpper, ["ab'c", "aB_c"]) == ["AB'C", "AB_C"]
  {
    assert ToUpper("ab'c") == "AB'C";
    assert ToUpper("aB_c") == "AB_C";
    assert ["ab'c", "aB_c"][..1] == ["ab'c"];
    assert ["ab'c"][..0] == [];
  }

  /** The length filter keeps a word of the asked length and drops others. */
  lemma HasLengthExamples()
    ensures HasLength("abc", 3) == "abc"
    ensures HasLength("abc", 1) == ""
  {
  }

  /** Clean-up drops words with special characters or of the wrong length. */
  lemma CleanupExample()
    ensures Cleaned(["ab'c", "abc", "abcd"], 3) == ["ABC"]
  {
    var words := ["ab'c", "abc", "abcd"];
    CleanedIsReference(words, 3);
    assert !IsLetter(words[0][2]);
    assert !Survives(words[0], 3);
    assert Survives(words[1], 3);
    assert !Survives(words[2], 3);
    assert ToUpper("abc") == "ABC";
    assert words[..2] == ["ab'c", "abc"] && words[..2][..1] == ["ab'c"] && words[..2][..1][..0] == [];
    assert CleanReference(words[..2][..1], 3) == [];
    assert CleanReference(words[..2], 3) == ["ABC"];
  }

  /** A three-letter score, symbol by symbol. */
  lemma ScoreOfThree(guess: string, solution: string)
    requires |guess| == |solution| == 3
    ensures Score(guess, solution)
      == [SymbolAt(guess, solution, 0), SymbolAt(guess, solution, 1), SymbolAt(guess, solution, 2)]
  {
    assert ScorePrefix(guess, solution, 1) == [SymbolAt(guess, solution, 0)];
    assert ScorePrefix(guess, solution, 2) == [SymbolAt(guess, solution, 0), SymbolAt(guess, solution, 1)];
  }

  /** Scores of three-letter words: nothing shared, a displaced letter, and
      a hit next to a displaced letter. */
  lemma ScoreExamples()
    ensures Score("abc", "xyz") == "..."
    ensures Score("abc", "cde") == "..h"
    ensures Score("abc", "cbe") == ".Hh"
  {
    ScoreOfThree("abc", "xyz");
    ScoreOfThree("abc", "cde");
    ScoreOfThree("abc", "cbe");
  }

  /** Letter counts are ignored: both guessed a's are present although the
      solution holds only one. */
  lemma ScoreRepeatedLetter()
    ensures Score("aae", "bca") == "hh."
  {
    ScoreOfThree("aae", "bca");
  }

  /** Feedback in any case is mapped onto the score alphabet. */
  lemma FeedbackExamples()
    ensures UniqueScore(".aB") == ".hH"
    ensures UniqueScore("*aB") == ".hH"
  {
    assert ".aB"[..2] == ".a" && ".a"[..1] == ".";
    assert "*aB"[..2] == "*a" && "*a"[..1] == "*";
  }

  /** A guess whose first letter is a hit and whose other letters are absent
      keeps exactly the two candidates starting with that letter. */
  lemma GuessExample()
    ensures SameLength("AEF", ["ABC", "ACB", "EAD"])
    ensures Survivors("AEF", "H..", ["ABC", "ACB", "EAD"]) == ["ABC", "ACB"]
  {
    var words := ["ABC", "ACB", "EAD"];
    ScoreOfThree("AEF", "ABC");
    assert Score("AEF", "ABC") == "H..";
    ScoreOfThree("AEF", "ACB");
    assert Score("AEF", "ACB") == "H..";
    ScoreOfThree("AEF", "EAD");
    assert Score("AEF", "EAD") == "hh.";
    assert words[..2] == ["ABC", "ACB"];
    assert words[..2][..1] == ["ABC"];
    assert words[..2][..1][..0] == [];
  }

  /** Guessing AEF with feedback HHH, which no candidate produces, empties the list. */
  lemma GuessEmptiesList()
    ensures SameLength("AEF", ["ABC", "ACB", "EAD"])
    ensures Survivors("AEF", "HHH", ["ABC", "ACB", "EAD"]) == []
  {
    var words := ["ABC", "ACB", "EAD"];
    ScoreOfThree("AEF", "ABC");
    assert Score("AEF", "ABC") == "H..";
    ScoreOfThree("AEF", "ACB");
    assert Score("AEF", "ACB") == "H..";
    ScoreOfThree("AEF", "EAD");
    assert Score("AEF", "EAD") == "hh.";
    assert words[..2] == ["ABC", "ACB"];
    assert words[..2][..1] == ["ABC"];
    assert words[..2][..1][..0] == [];
  }

  const Universe: seq<string> := ["AXY", "BXY", "CXY", "ABC", "XXX"]

  /** Survivors over the universe, one candidate at a time. */
  lemma SurvivorsOfUniverse(guess: string, score: string)
    requires SameLength(guess, Universe)
    ensures Survivors(guess, score, Universe)
      == (if Score(guess, "AXY") == score then ["AXY"] else [])
       + (if Score(guess, "BXY") == score then ["BXY"] else [])
       + (if Score(guess, "CXY") == score then ["CXY"] else [])
       + (if Score(guess, "ABC") == score then ["ABC"] else [])
       + (if Score(guess, "XXX") == score then ["XXX"] else [])
  {
    var u1 := ["AXY"];
    var u2 := u1 + ["BXY"];
    var u3 := u2 + ["CXY"];
    var u4 := u3 + ["ABC"];
    assert Universe == u4 + ["XXX"];
    SurvivorsSnoc(guess, score, u4, "XXX");
    SurvivorsSnoc(guess, score, u3, "ABC");
    SurvivorsSnoc(guess, score, u2, "CXY");
    SurvivorsSnoc(guess, score, u1, "BXY");
    SurvivorsSnoc(guess, score, [], "AXY");
    assert [] + ["AXY"] == u1;
  }

  /** ABC tells every candidate apart: its worst case is 1. */
  lemma WorstCaseABC()
    ensures SameLength("ABC", Universe) && WorstCase("ABC", Universe) == 1
  {
    ScoreOfThree("ABC", "AXY");
    assert Score("ABC", "AXY") == "H..";
    ScoreOfThree("ABC", "BXY");
    assert Score("ABC", "BXY") == ".h.";
    ScoreOfThree("ABC", "CXY");
    assert Score("ABC", "CXY") == "..h";
    ScoreOfThree("ABC", "ABC");
    assert Score("ABC", "ABC") == "HHH";
    ScoreOfThree("ABC", "XXX");
    assert Score("ABC", "XXX") == "...";
    forall score ensures |Survivors("ABC", score, Universe)| <= 1 {
      SurvivorsOfUniverse("ABC", score);
    }
    WorstCaseIsMinimax("ABC", Universe);
    WorstCaseBounds("ABC", Universe);
  }

  /** AXY cannot separate BXY from CXY: its worst case is 2. */
  lemma WorstCaseAXY()
    ensures SameLength("AXY", Universe) && WorstCase("AXY", Universe) == 2
  {
    ScoreOfThree("AXY", "AXY");
    assert Score("AXY", "AXY") == "HHH";
    ScoreOfThree("AXY", "BXY");
    assert Score("AXY", "BXY") == ".HH";
    ScoreOfThree("AXY", "CXY");
    assert Score("AXY", "CXY") == ".HH";
    ScoreOfThree("AXY", "ABC");
    assert Score("AXY", "ABC") == "H..";
    ScoreOfThree("AXY", "XXX");
    assert Score("AXY", "XXX") == ".H.";
    forall score ensures |Survivors("AXY", score, Universe)| <= 2 {
      SurvivorsOfUniverse("AXY", score);
    }
    SurvivorsOfUniverse("AXY", ".HH");
    WorstCaseIsMinimax("AXY", Universe);
  }

  /** BXY cannot separate AXY from CXY: its worst case is 2. */
  lemma WorstCaseBXY()
    ensures SameLength("BXY", Universe) && WorstCase("BXY", Universe) == 2
  {
    ScoreOfThree("BXY", "AXY");
    assert Score("BXY", "AXY") == ".HH";
    ScoreOfThree("BXY", "BXY");
    assert Score("BXY", "BXY") == "HHH";
    ScoreOfThree("BXY", "CXY");
    assert Score("BXY", "CXY") == ".HH";
    ScoreOfThree("BXY", "ABC");
    assert Score("BXY", "ABC") == "h..";
    ScoreOfThree("BXY", "XXX");
    assert Score("BXY", "XXX") == ".H.";
    forall score ensures |Survivors("BXY", score, Universe)| <= 2 {
      SurvivorsOfUniverse("BXY", score);
    }
    SurvivorsOfUniverse("BXY", ".HH");
    WorstCaseIsMinimax("BXY", Universe);
  }

  /** CXY cannot separate AXY from BXY: its worst case is 2. */
  lemma WorstCaseCXY()
    ensures SameLength("CXY", Universe) && WorstCase("CXY", Universe) == 2
  {
    ScoreOfThree("CXY", "AXY");
    assert Score("CXY", "AXY") == ".HH";
    ScoreOfThree("CXY", "BXY");
    assert Score("CXY", "BXY") == ".HH";
    ScoreOfThree("CXY", "CXY");
    assert Score("CXY", "CXY") == "HHH";
    ScoreOfThree("CXY", "ABC");
    assert Score("CXY", "ABC") == "h..";
    ScoreOfThree("CXY", "XXX");
    assert Score("CXY", "XXX") == ".H.";
    forall score ensures |Survivors("CXY", score, Universe)| <= 2 {
      SurvivorsOfUniverse("CXY", score);
    }
    SurvivorsOfUniverse("CXY", ".HH");
    WorstCaseIsMinimax("CXY", Universe);
  }

  /** XXX scores AXY, BXY and CXY alike: its worst case is 3. */
  lemma WorstCaseXXX()
    ensures SameLength("XXX", Universe) && WorstCase("XXX", Universe) == 3
  {
    ScoreOfThree("XXX", "AXY");
    assert Score("XXX", "AXY") == "hHh";
    ScoreOfThree("XXX", "BXY");
    assert Score("XXX", "BXY") == "hHh";
    ScoreOfThree("XXX", "CXY");
    assert Score("XXX", "CXY") == "hHh";
    ScoreOfThree("XXX", "ABC");
    assert Score("XXX", "ABC") == "...";
    ScoreOfThree("XXX", "XXX");
    assert Score("XXX", "XXX") == "HHH";
    forall score ensures |Survivors("XXX", score, Universe)| <= 3 {
      SurvivorsOfUniverse("XXX", score);
    }
    SurvivorsOfUniverse("XXX", "hHh");
    WorstCaseIsMinimax("XXX", Universe);
  }

  /** The score map of the universe, built one guess word at a time. */
  lemma ScoresOfAXY()
    ensures Compatible(["AXY"], Universe) && WordScores(["AXY"], Universe) == map["AXY" := 2]
  {
    WorstCaseAXY();
    assert [] + ["AXY"] == ["AXY"];
    WordScoresSnoc([], "AXY", Universe);
    assert WordScores([], Universe) == map[];
  }

  lemma ScoresOfBXY()
    ensures Compatible(["AXY", "BXY"], Universe)
    ensures WordScores(["AXY", "BXY"], Universe) == map["AXY" := 2, "BXY" := 2]
  {
    ScoresOfAXY();
    WorstCaseBXY();
    assert ["AXY", "BXY"] == ["AXY"] + ["BXY"];
    WordScoresSnoc(["AXY"], "BXY", Universe);
  }

  lemma ScoresOfCXY()
    ensures Compatible(["AXY", "BXY", "CXY"], Universe)
    ensures WordScores(["AXY", "BXY", "CXY"], Universe) == map["AXY" := 2, "BXY" := 2, "CXY" := 2]
  {
    ScoresOfBXY();
    WorstCaseCXY();
    assert ["AXY", "BXY", "CXY"] == ["AXY", "BXY"] + ["CXY"];
    WordScoresSnoc(["AXY", "BXY"], "CXY", Universe);
  }

  lemma ScoresOfABC()
    ensures Compatible(["AXY", "BXY", "CXY", "ABC"], Universe)
    ensures WordScores(["AXY", "BXY", "CXY", "ABC"], Universe) == map["AXY" := 2, "BXY" := 2, "CXY" := 2, "ABC" := 1]
  {
    ScoresOfCXY();
    WorstCaseABC();
    assert ["AXY", "BXY", "CXY", "ABC"] == ["AXY", "BXY", "CXY"] + ["ABC"];
    WordScoresSnoc(["AXY", "BXY", "CXY"], "ABC", Universe);
  }

  /** The worst cases getBestGuesses computes for the universe. */
  lemma UniverseScores()
    ensures Compatible(Universe, Universe)
    ensures WordScores(Universe, Universe) == map["AXY" := 2, "BXY" := 2, "CXY" := 2, "ABC" := 1, "XXX" := 3]
  {
    ScoresOfABC();
    WorstCaseXXX();
    assert Universe == ["AXY", "BXY", "CXY", "ABC"] + ["XXX"];
    WordScoresSnoc(["AXY", "BXY", "CXY", "ABC"], "XXX", Universe);
  }

  /** The expected order: ABC first, the three ties in string order, XXX last. */
  lemma ExpectedIsRanking()
    ensures IsRanking(["ABC", "AXY", "BXY", "CXY", "XXX"],
                      map["AXY" := 2, "BXY" := 2, "CXY" := 2, "ABC" := 1, "XXX" := 3])
  {
    assert StrLess("AXY", "BXY") && StrLess("BXY", "CXY") && StrLess("AXY", "CXY");
  }

  /** With the universe as both guesses and candidates the ranking is
      exactly ABC, AXY, BXY, CXY, XXX. */
  lemma RankingExample()
    ensures Compatible(Universe, Universe)
    ensures forall r :: IsRanking(r, WordScores(Universe, Universe)) <==> r == ["ABC", "AXY", "BXY", "CXY", "XXX"]
  {
    UniverseScores();
    ExpectedIsRanking();
    var expected := ["ABC", "AXY", "BXY", "CXY", "XXX"];
    forall r | IsRanking(r, WordScores(Universe, Universe)) ensures r == expected {
      RankingUnique(r, expected, WordScores(Universe, Universe));
    }
  }
}
