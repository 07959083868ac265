/** The word clean-up pipeline: a filter/map step over word lists and the
    three steps that turn a raw dictionary into upper-case words of a fixed
    length made only of letters. */
module WordList {
  import opened Letters

  /** The list `ApplyToWordSlice(f, words)` produces: `f(w)` for each `w` in
      order, leaving out every `w` whose `f(w)` is the empty word. */
  function Applied(f: string -> string, words: seq<string>): (r: seq<string>)
    ensures |r| <= |words|
    ensures forall x | x in r :: x != ""
    ensures forall x | x in r :: exists w | w in words :: f(w) == x
    decreases |words|
  {
    if words == [] then []
    else
      var last := words[|words| - 1];
      var rest := Applied(f, words[..|words| - 1]);
      if f(last) == "" then rest else rest + [f(last)]
  }

  /** The contribution of a single word. */
  function AppliedOne(f: string -> string, w: string): seq<string> {
    if f(w) == "" then [] else [f(w)]
  }

  /** Order is kept: the image of a concatenation is the concatenation of
      the images, so outputs of earlier inputs come first. */
  lemma {:induction false} AppliedConcat(f: string -> string, a: seq<string>, b: seq<string>)
    ensures Applied(f, a + b) == Applied(f, a) + Applied(f, b)
    decreases |b|
  {
    if b == [] {
      assert a + b == a;
    } else {
      var b' := b[..|b| - 1];
      assert (a + b)[..|a + b| - 1] == a + b';
      assert (a + b)[|a + b| - 1] == b[|b| - 1];
      AppliedConcat(f, a, b');
    }
  }

  /** Applying to a one-word list keeps `f(w)` exactly when it is not empty. */
  lemma AppliedSingleton(f: string -> string, w: string)
    ensures Applied(f, [w]) == AppliedOne(f, w)
  {
    assert [w][..0] == [];
  }

  /** applyToWordSlice: a fresh list built by appending each non-empty `f(w)`. */
  method ApplyToWordSlice(f: string -> string, words: seq<string>) returns (newWords: seq<string>)
    ensures newWords == Applied(f, words)
  {
    newWords := [];
    var i := 0;
    while i < |words|
      invariant 0 <= i <= |words|
      invariant newWords == Applied(f, words[..i])
    {
      assert words[..i + 1][..i] == words[..i];
      var w := f(words[i]);
      if w != "" {
        newWords := newWords + [w];
      }
      i := i + 1;
    }
    assert words[..i] == words;
  }

  /** hasNoSpecialCharacters: the word itself when all its characters are letters,
      otherwise the empty word. */
  function HasNoSpecialCharacters(word: string): (r: string)
    ensures r == word <==> AllLetters(word)
    ensures r != word ==> r == ""
  {
    if word == [] then word
    else if IsLetter(word[0]) && HasNoSpecialCharacters(word[1..]) == word[1..] then word
    else ""
  }

  /** hasLength: the word itself when it has exactly `length` characters,
      otherwise the empty word. */
  function HasLength(word: string, length: int): (r: string)
    ensures r == word <==> |word| == length || word == ""
    ensures r != word ==> r == ""
  {
    if |word| == length then word else ""
  }

  /** The length filter of cleanupWords as a function value: hasLength with the length fixed. */
  function LengthFilter(length: int): string -> string {
    w => HasLength(w, length)
  }

  /** cleanupWords as a value: letters only, then the length filter, then upper case. */
  function Cleaned(words: seq<string>, length: int): seq<string> {
    Applied(ToUpper, Applied(LengthFilter(length), Applied(HasNoSpecialCharacters, words)))
  }

  /** A word that survives the clean-up: non-empty, only letters, of the given length. */
  predicate Survives(w: string, length: int) {
    w != "" && AllLetters(w) && |w| == length
  }

  /** A word fit for a game of word length `length`. */
  predicate IsCleanWord(w: string, length: int) {
    |w| == length && AllLetters(w) && AllUpper(w)
  }

  /** Reference definition of the clean-up in one pass: keep the upper-case
      form of each surviving word, in input order. */
  function CleanReference(words: seq<string>, length: int): seq<string>
    decreases |words|
  {
    if words == [] then []
    else
      var last := words[|words| - 1];
      CleanReference(words[..|words| - 1], length)
        + (if Survives(last, length) then [ToUpper(last)] else [])
  }

  /** The three-step pipeline equals the one-pass reference: a word is kept
      iff it survives, and survivors keep their input order. */
  lemma {:induction false} CleanedIsReference(words: seq<string>, length: int)
    ensures Cleaned(words, length) == CleanReference(words, length)
    decreases |words|
  {
    if words != [] {
      var p := words[..|words| - 1];
      var x := words[|words| - 1];
      assert words == p + [x];
      CleanedIsReference(p, length);
      var n1 := Applied(HasNoSpecialCharacters, p);
      var n2 := Applied(LengthFilter(length), n1);
      var x1 := AppliedOne(HasNoSpecialCharacters, x);
      var x2 := Applied(LengthFilter(length), x1);
      assert Applied(HasNoSpecialCharacters, words) == n1 + x1;
      AppliedConcat(LengthFilter(length), n1, x1);
      AppliedConcat(ToUpper, n2, x2);
      if Survives(x, length) {
        assert x1 == [x];
        AppliedSingleton(LengthFilter(length), x);
        assert x2 == [x];
        AppliedSingleton(ToUpper, x);
        assert Applied(ToUpper, x2) == [ToUpper(x)];
      } else if x1 == [] {
        assert x2 == [];
      } else {
        assert x1 == [x];
        AppliedSingleton(LengthFilter(length), x);
        assert x2 == [];
      }
    }
  }

  /** Every cleaned word has the game's length, only letters, upper case. */
  lemma {:induction false} ReferenceWordsAreClean(words: seq<string>, length: int)
    ensures forall w | w in CleanReference(words, length) :: IsCleanWord(w, length) && w != ""
    decreases |words|
  {
    if words != [] {
      var last := words[|words| - 1];
      ReferenceWordsAreClean(words[..|words| - 1], length);
      if Survives(last, length) {
        ToUpperOfLetters(last);
      }
    }
  }

  lemma CleanedWordsAreClean(words: seq<string>, length: int)
    ensures forall w | w in Cleaned(words, length) :: IsCleanWord(w, length)
  {
    CleanedIsReference(words, length);
    ReferenceWordsAreClean(words, length);
  }

  /** A list of clean words passes through the reference unchanged. */
  lemma {:induction false} ReferenceKeepsCleanList(words: seq<string>, length: int)
    requires forall w | w in words :: IsCleanWord(w, length) && w != ""
    ensures CleanReference(words, length) == words
    decreases |words|
  {
    if words != [] {
      var p := words[..|words| - 1];
      var last := words[|words| - 1];
      assert forall w | w in p :: w in words;
      assert last in words;
      ReferenceKeepsCleanList(p, length);
      ToUpperOfUpper(last);
      assert words == p + [last];
    }
  }

  /** Re-cleaning a cleaned list returns it unchanged. */
  lemma CleanedIdempotent(words: seq<string>, length: int)
    ensures Cleaned(Cleaned(words, length), length) == Cleaned(words, length)
  {
    var c := Cleaned(words, length);
    CleanedIsReference(words, length);
    CleanedIsReference(c, length);
    ReferenceWordsAreClean(words, length);
    ReferenceKeepsCleanList(c, length);
  }

  /** With a non-positive length nothing survives: the only word of length 0
      is the empty word, which the pipeline drops. */
  lemma {:induction false} ReferenceNonPositiveLength(words: seq<string>, length: int)
    requires length <= 0
    ensures CleanReference(words, length) == []
    decreases |words|
  {
    if words != [] {
      ReferenceNonPositiveLength(words[..|words| - 1], length);
    }
  }

  lemma CleanedNonPositiveLength(words: seq<string>, length: int)
    requires length <= 0
    ensures Cleaned(words, length) == []
  {
    CleanedIsReference(words, length);
    ReferenceNonPositiveLength(words, length);
  }

  /** cleanupWords: three passes of applyToWordSlice. */
  method CleanupWords(words: seq<string>, length: int) returns (cleaned: seq<string>)
    ensures cleaned == Cleaned(words, length)
    ensures forall w | w in cleaned :: IsCleanWord(w, length)
  {
    var letters := ApplyToWordSlice(HasNoSpecialCharacters, words);
    var sized := ApplyToWordSlice(LengthFilter(length), letters);
    cleaned := ApplyToWordSlice(ToUpper, sized);
    CleanedWordsAreClean(words, length);
  }
}
