/** Character classes used by the regular expressions and by `str.splitlines`. */
module Chars {

  /** Python's `\s` on `str` patterns: the characters for which `str.isspace()`
      holds. */
  predicate IsSpace(c: char)
  {
    var n := c as int;
    (0x09 <= n <= 0x0D) || (0x1C <= n <= 0x20) || n == 0x85 || n == 0xA0 || n == 0x1680
    || (0x2000 <= n <= 0x200A) || n == 0x2028 || n == 0x2029 || n == 0x202F || n == 0x205F
    || n == 0x3000
  }

  /** The line boundaries on which `str.splitlines()` splits. */
  predicate IsLineBreak(c: char)
  {
    var n := c as int;
    (0x0A <= n <= 0x0D) || (0x1C <= n <= 0x1E) || n == 0x85 || n == 0x2028 || n == 0x2029
  }
}
