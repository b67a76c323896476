/** UTF-16 code units, the few characters the lexer treats specially, and an Option type. */
module Text {

  /** One UTF-16 code unit, as a Java `char`. */
  type CodeUnit = c: int | 0 <= c <= 0xFFFF

  const TAB: CodeUnit := 9
  const NL: CodeUnit := 10
  const CR: CodeUnit := 13
  const SPACE: CodeUnit := 32

  datatype Option<T> = None | Some(value: T)

  predicate IsHighSurrogate(c: int) { 0xD800 <= c <= 0xDBFF }

  predicate IsLowSurrogate(c: int) { 0xDC00 <= c <= 0xDFFF }

  /** The supplementary code point of a surrogate pair (Character.toCodePoint). */
  function ToCodePoint(high: int, low: int): (cp: int)
    requires IsHighSurrogate(high) && IsLowSurrogate(low)
    ensures 0x10000 <= cp <= 0x10FFFF
  {
    (high - 0xD800) * 0x400 + (low - 0xDC00) + 0x10000
  }

  /** Number of newline code units in `s`. */
  function CountNL(s: seq<CodeUnit>): nat
  {
    if s == [] then 0 else CountNL(s[..|s| - 1]) + (if s[|s| - 1] == NL then 1 else 0)
  }

  lemma {:induction false} CountNLAppend(s: seq<CodeUnit>, t: seq<CodeUnit>)
    ensures CountNL(s + t) == CountNL(s) + CountNL(t)
    decreases |t|
  {
    if t == [] {
      assert s + t == s;
    } else {
      assert (s + t)[..|s + t| - 1] == s + t[..|t| - 1];
      CountNLAppend(s, t[..|t| - 1]);
    }
  }
}
