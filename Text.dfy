/** Character classes and small string helpers shared by the normaliser.
    Python's `re` uses Unicode-aware `\d`, `\w` and `\s` on `str` patterns;
    this model defines all three on the ASCII characters only, where they
    agree with Python's classes. */
module Text {

  datatype Option<T> = None | Some(value: T)

  /** `\d` (ASCII) */
  predicate IsDigit(c: char) { '0' <= c <= '9' }

  /** `\w` (ASCII): the characters that make up a word for `\b` */
  predicate IsWordChar(c: char) {
    IsDigit(c) || 'a' <= c <= 'z' || 'A' <= c <= 'Z' || c == '_'
  }

  /** the class `[ ._-]` used by several patterns */
  predicate IsSeparator(c: char) { c == ' ' || c == '.' || c == '_' || c == '-' }

  /** `\s` on the ASCII range, as Python's default (Unicode) `\s` has it:
      space, \t, \n, \v, \f, \r and the separators \x1c to \x1f */
  predicate IsWhitespace(c: char) { c == ' ' || 9 <= c as int <= 13 || 28 <= c as int <= 31 }

  /** The character classes a greedy run can be taken over. */
  datatype CharClass = Digits | Separators | Whitespace | Spaces

  predicate InClass(cls: CharClass, c: char) {
    match cls
    case Digits => IsDigit(c)
    case Separators => IsSeparator(c)
    case Whitespace => IsWhitespace(c)
    case Spaces => c == ' '
  }

  /** Every character of `s[j..j+n]` is in `cls`. */
  predicate AllIn(cls: CharClass, s: string, j: nat, n: nat) {
    j + n <= |s| && forall k :: j <= k < j + n ==> InClass(cls, s[k])
  }

  /** The length of the longest run of `cls` characters starting at `s[j]`,
      capped at `cap`: what a greedy `cls{0,cap}` consumes. */
  function Run(cls: CharClass, s: string, j: nat, cap: nat): (n: nat)
    requires j <= |s|
    ensures n <= cap && AllIn(cls, s, j, n)
    ensures n == cap || j + n == |s| || !InClass(cls, s[j + n])
    decreases cap
  {
    if cap == 0 || j == |s| || !InClass(cls, s[j]) then 0
    else 1 + Run(cls, s, j + 1, cap - 1)
  }

  /** No run of `cls` at `s[j]` within the cap is longer than `Run`. */
  lemma RunIsLongest(cls: CharClass, s: string, j: nat, cap: nat, n: nat)
    requires j <= |s| && n <= cap && AllIn(cls, s, j, n)
    ensures n <= Run(cls, s, j, cap)
  {
  }

  /** A run of class characters, cut out, is all class characters. */
  lemma AllInSlice(cls: CharClass, s: string, j: nat, n: nat)
    requires AllIn(cls, s, j, n)
    ensures AllIn(cls, s[j..j + n], 0, n)
  {
    var t := s[j..j + n];
    assert forall k :: 0 <= k < n ==> t[k] == s[j + k];
  }

  /** `str.lower()` on one ASCII character */
  function LowerChar(c: char): (r: char)
    ensures 'A' <= c <= 'Z' ==> r as int == c as int + 32
    ensures !('A' <= c <= 'Z') ==> r == c
  {
    if 'A' <= c <= 'Z' then (c as int + 32) as char else c
  }

  /** `str.lower()` restricted to ASCII letters */
  function Lower(s: string): (r: string)
    ensures |r| == |s|
    ensures forall i :: 0 <= i < |s| ==> r[i] == LowerChar(s[i])
  {
    seq(|s|, i requires 0 <= i < |s| => LowerChar(s[i]))
  }

  /** `str.zfill(w)` for a string without a sign: left-pad with '0' to width `w`. */
  function ZFill(s: string, w: nat): (r: string)
    ensures |r| == if |s| >= w then |s| else w
    ensures r[|r| - |s|..] == s
    ensures forall i :: 0 <= i < |r| - |s| ==> r[i] == '0'
  {
    var pad := if |s| >= w then 0 else w - |s|;
    var r := seq(pad, _ => '0') + s;
    assert r[pad..] == s;
    r
  }
}
