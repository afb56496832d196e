/** The input check applied to each word before the matrix is built. */
module Validation {

  /** An ASCII letter, upper or lower case. */
  predicate IsLetter(c: char)
  {
    'A' <= c <= 'Z' || 'a' <= c <= 'z'
  }

  /** A word made of letters only; the empty word is one. */
  predicate IsWord(word: string)
  {
    forall k :: 0 <= k < |word| ==> IsLetter(word[k])
  }

  /** Scans the word and stops at the first character that is not a letter. */
  method InputValidation(word: string) returns (valid: bool)
    ensures valid <==> IsWord(word)
    ensures |word| == 0 ==> valid
  {
    for i := 0 to |word|
      invariant forall k :: 0 <= k < i ==> IsLetter(word[k])
    {
      if !IsLetter(word[i]) {
        return false;
      }
    }
    return true;
  }
}
