/** The two character-class escapes the move-command regular expression uses,
    with the meaning section 22.2 of ECMA-262 gives them for a pattern compiled
    without the `u` and `i` flags. */
module CharClasses {

  /** `\w`: an ASCII letter of either case, an ASCII digit, or the underscore. */
  predicate IsWordChar(c: char)
  {
    ('a' <= c <= 'z') || ('A' <= c <= 'Z') || ('0' <= c <= '9') || c == '_'
  }

  /** `\d`: an ASCII digit (no Unicode digits, since the `u` flag is absent). */
  predicate IsDigit(c: char)
  {
    '0' <= c <= '9'
  }

  /** Every character of `w` is a word character. */
  predicate IsWord(w: string)
  {
    forall k :: 0 <= k < |w| ==> IsWordChar(w[k])
  }

}
