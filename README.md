# WordleSolver in Dafny

This project models the engine of WordleSolver, a Wordle helper written in Go
(`main.go`). The engine does four things:

- It cleans a dictionary. Only words made of letters and of the game's length
  are kept, and they are upper-cased.
- It scores a guess against a possible solution. Each position gets 'H' when
  the letters match, 'h' when the guessed letter occurs anywhere else in the
  solution, and '.' when it does not occur at all.
- It narrows the candidate solutions to those that agree with the feedback a
  player received.
- It ranks every legal guess by its worst case. That is the largest group of
  candidates that would all give the same feedback to the guess. Smaller is
  better, and ties go to the word that comes first in string order.

Modules, in dependency order:

- `Letters` (`letters.dfy`): the case predicates and `strings.ToUpper`, over ASCII.
- `WordList` (`wordlist.dfy`): `applyToWordSlice`, the two filters and `cleanupWords`.
- `Scoring` (`scoring.dfy`): `scoreAgainst` and `toUniqueScore`.
- `Ordering` (`ordering.dfy`): Go's string order, the two library sorts and `getKeysSortedByValue`.
- `Game` (`game.dfy`): the `WordGame` class, `guess`, `getBestGuesses`, `createWordGame` and `createWordGameFromWordLists`.
- `Examples` (`examples.dfy`): the behaviours of the Go tests and a few worked examples, on concrete words.

Each Go loop is a Dafny method with loop invariants, with one exception.
Its postcondition ties the result to a specification function: `Applied`,
`Score`, `UniqueScore`, `Buckets`, `WorstCase`, `Survivors` or `IsRanking`.
Lemmas then prove what those functions mean. The exception is the loop in
`hasNoSpecialCharacters` (main.go:40-44). It is the recursive function
`WordList.HasNoSpecialCharacters`, because the Go code passes it as a function
value to `applyToWordSlice`, and a Dafny function value cannot be a method.

`WordGame` is a class with two `seq<string>` fields. `Guess` reassigns
`remainingWords`. Dafny sequences are values, so the copy that
`createWordGame` makes is the default: no two fields can alias.

Go's `panic` on words of different lengths is modelled as a
`Result.LengthMismatch` value that names the two words. It is not a
precondition. A method that hits it returns at once, and `Guess` then leaves
the state as it was. In Go, a `range` over a map visits keys in an
unspecified order. The model visits them in an arbitrary order chosen with
`:|`, and the proofs hold for every order.

## Model

| member | source | states |
|---|---|---|
| Letters.UpperChar | main.go:58 | a lower-case letter becomes the upper-case letter at the same alphabet position; any other character is unchanged; the result is a letter exactly when the input is |
| Letters.ToUpper | main.go:58 | keeps the length and upper-cases every character on its own |
| Letters.ToUpperOfLetters | main.go:58 | upper-casing a word of letters gives a word of upper-case letters |
| Letters.ToUpperOfUpper | main.go:58 | a word that is already upper case is unchanged |
| Letters.ToUpperIdempotent | main.go:58 | upper-casing twice is the same as once |
| WordList.Applied | main.go:27-37 | the list applyToWordSlice builds is no longer than its input, holds no empty word, and every entry is `f` of some input word |
| WordList.AppliedConcat | main.go:27-37 | order is kept: the result for `a + b` is the result for `a` followed by the result for `b` |
| WordList.AppliedSingleton | main.go:30-34 | one word contributes `f(w)`, or nothing when `f(w)` is empty |
| WordList.ApplyToWordSlice | main.go:27-37 | the loop returns exactly `Applied(f, words)` |
| WordList.HasNoSpecialCharacters | main.go:39-46 | returns the word itself exactly when every character is a letter, and the empty word otherwise |
| WordList.HasLength | main.go:48-53 | returns the word itself exactly when it has the asked length (the empty word trivially), and the empty word otherwise |
| WordList.CleanedIsReference | main.go:55-60 | the three passes of cleanupWords equal one pass that keeps the upper-case form of each non-empty, letters-only word of the right length, in input order |
| WordList.ReferenceWordsAreClean | main.go:55-60 | every word the one-pass reference keeps is non-empty, of the game length, only letters and upper case |
| WordList.CleanedWordsAreClean | main.go:55-60 | every cleaned word has the game length, only letters, upper case |
| WordList.ReferenceKeepsCleanList | main.go:55-60 | a list of clean, non-empty words passes through unchanged |
| WordList.CleanedIdempotent | main.go:55-60 | cleaning a cleaned list changes nothing |
| WordList.CleanedNonPositiveLength | main.go:48-60 | with a length of 0 or less no word survives |
| WordList.CleanupWords | main.go:55-60 | returns `Cleaned(words, length)`, the three passes in order, with the closure of main.go:57 as `WordList.LengthFilter`; every word in the result is clean |
| Scoring.ScoreAt | main.go:84-94 | the score has the guess's length; a position is 'H' exactly when the letters agree, 'h' exactly when they differ and the guessed letter occurs in the solution, and '.' exactly when it does not occur |
| Scoring.ScorePrefixAt | main.go:85-93 | the same three equivalences for the first `n` positions as the loop builds them |
| Scoring.ScoreAlphabet | main.go:86-92 | every symbol of a score is 'H', 'h' or '.' |
| Scoring.ScoreSelf | main.go:85-87 | a word scored against itself is all 'H' |
| Scoring.ScoreIgnoresCounts | main.go:88 | the present test ignores how often a letter occurs: repeated non-hit letters of the guess all get the same symbol, 'h' when the letter is in the solution |
| Scoring.ScoreAgainst | main.go:80-95 | words of different lengths give `LengthMismatch(guess, solution)`; otherwise the loop returns `Ok(Score(guess, solution))` |
| Scoring.FeedbackSymbol | main.go:150-156 | always a score symbol, and a character that is already a score symbol maps to itself |
| Scoring.UniqueScoreAt | main.go:147-159 | normalised feedback keeps the length and maps lower case to 'h', upper case to 'H' and every other character to '.' |
| Scoring.UniqueScoreAlphabet | main.go:147-159 | normalised feedback uses only 'H', 'h', '.' |
| Scoring.UniqueScoreFixesScores | main.go:147-159 | a string already in the score alphabet is a fixed point |
| Scoring.UniqueScoreIdempotent | main.go:147-159 | normalising twice is the same as once |
| Scoring.ScoreIsNormalised | main.go:80-95 | every score scoreAgainst produces is already normalised feedback |
| Scoring.ToUniqueScore | main.go:147-159 | the loop returns `UniqueScore(score)` |
| Ordering.StrLessIrreflexive | main.go:110 | Go's string order is irreflexive |
| Ordering.StrLessTransitive | main.go:110 | Go's string order is transitive |
| Ordering.StrLessTotal | main.go:110 | any two different strings are ordered one way or the other |
| Ordering.StrLessAsymmetric | main.go:110 | never both `a < b` and `b < a` |
| Ordering.DistinctPermutation | main.go:108 | a permutation of a list without repeats has no repeats |
| Ordering.InsertInt | main.go:108 | inserting into a sorted list of ints adds exactly that element and keeps it sorted |
| Ordering.SortInts | main.go:108 | sort.Ints gives a sorted permutation of its input |
| Ordering.InsertString | main.go:110 | inserting into a sorted list of strings adds exactly that element and keeps it sorted |
| Ordering.SortStrings | main.go:110 | sort.Strings gives a permutation of its input in non-decreasing string order |
| Ordering.RankingDistinct | main.go:97-116 | a ranking never lists a key twice |
| Ordering.RankingLength | main.go:97-116 | a ranking has exactly one entry per key |
| Ordering.RankingUnique | main.go:97-116 | two rankings of the same map are equal, so the result does not depend on map iteration order |
| Ordering.AppendBlock | main.go:109-114 | appending a block of keys with a larger common value, sorted and distinct, keeps every entry before the next |
| Ordering.InvertMap | main.go:98-101 | the inverse map lists, for each value, exactly the keys with that value, each once |
| Ordering.KeysOf | main.go:102-105 | the collected values are exactly the inverse map's keys, each once |
| Ordering.EmitGroup | main.go:109-114 | after emitting the sorted group of the next smallest value, the result ranks exactly the keys whose values have been handled |
| Ordering.GetKeysSortedByValue | main.go:97-116 | lists every key of the map once, by ascending value, ties in ascending string order |
| Game.Survivors | main.go:137-145 | the list guess keeps is no longer than the old one and holds only old candidates |
| Game.SurvivorsConsistent | main.go:140 | every kept candidate scores exactly the given feedback against the guess |
| Game.SurvivorsExact | main.go:139-143 | each candidate is kept, as often as it occurred, exactly when its score equals the feedback, and dropped otherwise |
| Game.SurvivorsConcat | main.go:139-143 | filtering keeps the candidates' order |
| Game.SurvivorsIdempotent | main.go:137-145 | repeating a guess with the same feedback removes nothing more |
| Game.SolutionSurvives | main.go:140 | the true solution is never removed by the feedback it produces |
| Game.BucketsAreSurvivorCounts | main.go:121-125 | the count for a score is the number of candidates guess would keep for that feedback, and a score has a count exactly when some candidate produces it |
| Game.BucketsSum | main.go:121-125 | the counts add up to the number of candidates |
| Game.TotalIncrement | main.go:124 | incrementing one counter, a missing key counting as 0, adds one to the total |
| Game.LargestBucketBounds | main.go:126-131 | no probe's bucket exceeds the maximum, the maximum is some probe's bucket, and with no probes it is 0 |
| Game.WorstCaseIsMinimax | main.go:121-132 | no feedback leaves more candidates than the worst case, and with candidates some feedback leaves exactly that many |
| Game.WorstCaseBounds | main.go:126-132 | the worst case is at most the number of candidates, at least 1 when there are any, and 0 when there are none |
| Game.WorstCaseIsLargestCount | main.go:121-132 | the worst case bounds every bucket count and, with candidates, equals one of them; with no candidates there are no buckets and it is 0 |
| Game.MaxCountIsWorstCase | main.go:126-132 | a bucket count that bounds all the others is the worst case |
| Game.WordScoresSnoc | main.go:120-133 | adding one guess word adds that word with its worst case to the score map |
| Game.CountScores | main.go:121-125 | the counting loop returns `Buckets(word, candidates)` exactly when every candidate has the word's length; otherwise it names the first candidate of a different length |
| Game.MaxCount | main.go:126-131 | the running maximum bounds every count, equals one of them, and is 0 for no counts |
| Game.WordGame.GetBestGuesses | main.go:118-135 | succeeds exactly when every guess word can be scored against every candidate; the result then ranks every guess word by its worst case, ties in string order; otherwise it names the first guess word that has a candidate of a different length, and the first such candidate |
| Game.WordGame.Guess | main.go:137-145 | succeeds exactly when every candidate has the guess's length; the candidates become `Survivors(guess, score, old)`; allWords is unchanged; a mismatch names the first candidate of a different length and leaves the state unchanged |
| Game.WordGame.constructor | main.go:13-16 | a `WordGame` holds the guess words and the candidates as given, the struct literals of main.go:71 and main.go:77 |
| Game.CreateWordGame | main.go:67-72 | a fresh game whose guess words are the cleaned dictionary, whose candidates are the same list, and whose words are all clean |
| Game.CreateWordGameFromWordLists | main.go:74-78 | a fresh game whose two lists are the given lists upper-cased, with empty words dropped |
| Examples.UpperCaseList | main_test.go:21-26 | `["abc", "aBc"]` upper-cases to `["ABC", "ABC"]` |
| Examples.UpperCaseKeepsSpecialCharacters | main_test.go:28-33 | `["ab'c", "aB_c"]` upper-cases to `["AB'C", "AB_C"]` |
| Examples.HasLengthExamples | main_test.go:37-53 | `hasLength("abc", 3)` is `"abc"` and `hasLength("abc", 1)` is empty |
| Examples.CleanupExample | main.go:55-60 | cleaning `["ab'c", "abc", "abcd"]` for length 3 leaves `["ABC"]` |
| Examples.ScoreExamples | main.go:80-95 | `abc` scores `...` against `xyz`, `..h` against `cde` and `.Hh` against `cbe` |
| Examples.ScoreRepeatedLetter | main.go:88 | `aae` scores `hh.` against `bca`: both a's are present though the solution has one |
| Examples.FeedbackExamples | main.go:147-159 | `.aB` and `*aB` both normalise to `.hH` |
| Examples.GuessExample | main.go:137-145 | guessing `AEF` with feedback `H..` keeps `ABC` and `ACB` and drops `EAD` |
| Examples.GuessEmptiesList | main.go:137-145 | guessing `AEF` with feedback `HHH`, which none of `ABC`, `ACB`, `EAD` produces, leaves the empty list |
| Examples.WorstCaseABC | main.go:118-133 | over AXY, BXY, CXY, ABC, XXX the guess ABC has worst case 1 |
| Examples.WorstCaseXXX | main.go:118-133 | over the same words the guess XXX has worst case 3 |
| Examples.UniverseScores | main.go:118-133 | the score map of that universe is AXY, BXY, CXY to 2, ABC to 1 and XXX to 3 |
| Examples.RankingExample | main.go:118-135 | the only ranking of that universe is ABC, AXY, BXY, CXY, XXX |

## Left out

- `readDictionary` and `createWordGameFromDictionary` (main.go:18-25, 62-65): file I/O, and a panic on a read error.
- `main` (main.go:161 onwards): the interactive prompt loop, the display of the first 12 guesses and the exit on an all-'H' score. This is driver code. The word lists it uses are defined in a file that is not part of this model.
- Unicode: `unicode.IsLetter`, `IsUpper`, `IsLower` and `strings.ToUpper` are modelled on ASCII letters only. Other characters are never letters and are never changed in case.
- Bytes versus runes: `len` counts bytes and `range guess` walks runes, while `solution[idx]` reads a byte. The model treats a word as a sequence of characters, so the two views coincide, as they do for ASCII words.
- The algorithms of `sort.Ints` and `sort.Strings`: they are specified by their results (a sorted permutation) and computed by insertion sort. Sorting is not done in place.
- Go map iteration order: the loops visit keys in an arbitrary order. The results do not depend on it, because a ranking of a map is unique (`Ordering.RankingUnique`).
- The panic in `scoreAgainst` becomes a `Result.LengthMismatch` value. Go would unwind the whole call. The model returns it from `CountScores`, `GetBestGuesses` and `Guess`, and `Guess` leaves the state unchanged.
- Pointers to slices: a `*[]string` becomes a `seq<string>` value, so aliasing between the two lists of a game cannot be expressed.
- `createWordGameFromWordLists` (main.go:74-78) only upper-cases its two lists and drops empty words. Unlike `createWordGame`, it applies neither the letter filter nor the length filter, and the model does the same.
