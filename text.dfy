/** Word-level predicates shared by both programs' token filters. */
module Text {

  /**
   * Python's `any(char.isalpha() for char in word)`. Python's `str.isalpha`
   * follows the Unicode letter categories; it is the parameter `isAlpha`.
   */
  predicate HasAlpha(word: string, isAlpha: char -> bool) {
    exists i :: 0 <= i < |word| && isAlpha(word[i])
  }
}
