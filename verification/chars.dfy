/**
 Character classes of Python's `re` module as used by the two VTP patterns,
 and the longest run of one class starting at a position (the behaviour of a
 greedy `\s+` or `\w+`).
 */
module Chars {

  /** The classes a greedy run ranges over: `\s` and `\w`. */
  datatype Class = Space | Word

  /** Python's `\s` on a str pattern: exactly the characters `str.isspace()` accepts. */
  predicate IsSpace(c: char) {
    var n := c as int;
    || (0x09 <= n <= 0x0D)
    || (0x1C <= n <= 0x20)
    || n == 0x85 || n == 0xA0 || n == 0x1680
    || (0x2000 <= n <= 0x200A)
    || n == 0x2028 || n == 0x2029 || n == 0x202F || n == 0x205F || n == 0x3000
  }

  /** `\d`, restricted to the ASCII digits. */
  predicate IsDigit(c: char) {
    '0' <= c <= '9'
  }

  /** `\w`, restricted to ASCII letters, digits and the underscore. */
  predicate IsWord(c: char) {
    ('a' <= c <= 'z') || ('A' <= c <= 'Z') || IsDigit(c) || c == '_'
  }

  predicate In(c: char, cls: Class) {
    match cls
    case Space => IsSpace(c)
    case Word => IsWord(c)
  }

  /** Every character of `s[a..b]` belongs to `cls`. */
  ghost predicate AllIn(s: string, a: nat, b: nat, cls: Class)
    requires a <= b <= |s|
  {
    forall t :: a <= t < b ==> In(s[t], cls)
  }

  /**
   The end of the longest run of `cls` characters starting at `i`: what a
   greedy quantifier over `cls` consumes.
   */
  function Run(s: string, i: nat, cls: Class): (j: nat)
    requires i <= |s|
    ensures i <= j <= |s|
    ensures AllIn(s, i, j, cls)
    ensures j == |s| || !In(s[j], cls)
    decreases |s| - i
  {
    if i < |s| && In(s[i], cls) then Run(s, i + 1, cls) else i
  }

  /** A run that stops at a character outside the class is the longest run. */
  lemma RunUnique(s: string, i: nat, j: nat, cls: Class)
    requires i <= j <= |s|
    requires AllIn(s, i, j, cls)
    requires j == |s| || !In(s[j], cls)
    ensures Run(s, i, cls) == j
  {
  }

  /** Any run of `cls` characters from `i` is covered by the longest one. */
  lemma RunCovers(s: string, i: nat, e: nat, cls: Class)
    requires i <= e <= |s|
    requires AllIn(s, i, e, cls)
    ensures e <= Run(s, i, cls)
  {
  }
}
