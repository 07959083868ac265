/** Character classes and case mapping used by the solver, over the ASCII letters.
    They stand for unicode.IsLetter, unicode.IsUpper, unicode.IsLower and
    strings.ToUpper restricted to ASCII. */
module Letters {

  predicate IsLower(c: char) { 'a' <= c <= 'z' }

  predicate IsUpper(c: char) { 'A' <= c <= 'Z' }

  predicate IsLetter(c: char) { IsLower(c) || IsUpper(c) }

  /** True when every character of `s` is a letter. */
  predicate AllLetters(s: string) {
    forall i | 0 <= i < |s| :: IsLetter(s[i])
  }

  /** True when every character of `s` is an upper-case letter. */
  predicate AllUpper(s: string) {
    forall i | 0 <= i < |s| :: IsUpper(s[i])
  }

  /** Upper-case form of one character: lower-case letters move to upper case,
      every other character is kept. */
  function UpperChar(c: char): (u: char)
    ensures IsLower(c) ==> IsUpper(u) && u as int - 'A' as int == c as int - 'a' as int
    ensures !IsLower(c) ==> u == c
    ensures IsLetter(u) <==> IsLetter(c)
  {
    if IsLower(c) then (c as int - 'a' as int + 'A' as int) as char else c
  }

  /** strings.ToUpper, character by character. */
  function ToUpper(s: string): (r: string)
    ensures |r| == |s|
    ensures forall i | 0 <= i < |s| :: r[i] == UpperChar(s[i])
  {
    if s == [] then [] else [UpperChar(s[0])] + ToUpper(s[1..])
  }

  /** Upper-casing a word of letters yields a word of upper-case letters. */
  lemma ToUpperOfLetters(s: string)
    requires AllLetters(s)
    ensures AllLetters(ToUpper(s)) && AllUpper(ToUpper(s))
  {
  }

  /** A word already in upper case is left alone (so ToUpper is idempotent on its image). */
  lemma ToUpperOfUpper(s: string)
    requires AllUpper(s)
    ensures ToUpper(s) == s
  {
  }

  lemma ToUpperIdempotent(s: string)
    ensures ToUpper(ToUpper(s)) == ToUpper(s)
  {
  }
}
