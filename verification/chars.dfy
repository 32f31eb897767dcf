/**
 The character classes that Python's `str` methods consult when the
 table updater normalises a cell: `str.isspace` (used by `str.strip()` and
 by `\s` in a `str` pattern), `str.isprintable`, the surrogate range that
 UTF-8 cannot encode, and `str.lower`. The Unicode database is abstracted:
 the whitespace set is CPython's complete list, the non-printable set is
 the categories Cc, Cs, Co, Zs, Zl, Zp and a listed part of Cf, and case
 folding is ASCII only.
 */
module Chars {

  /** A code point as a Python `str` holds it. Unlike Dafny's `char`, a
      lone surrogate is a legal value. */
  type CodePoint = c: int | 0 <= c < 0x11_0000

  const TAB: CodePoint := 0x09
  const LF: CodePoint := 0x0A
  const CR: CodePoint := 0x0D
  const SPACE: CodePoint := 0x20

  /** `str.isspace` for one character (CPython's Py_UNICODE_ISSPACE). */
  predicate IsSpace(c: CodePoint) {
    || 0x09 <= c <= 0x0D
    || 0x1C <= c <= 0x20
    || c == 0x85 || c == 0xA0 || c == 0x1680
    || 0x2000 <= c <= 0x200A
    || c == 0x2028 || c == 0x2029 || c == 0x202F || c == 0x205F || c == 0x3000
  }

  /** General category Cc. */
  predicate IsControl(c: CodePoint) {
    c < 0x20 || 0x7F <= c <= 0x9F
  }

  /** General category Cs: the code points that UTF-8 cannot encode. */
  predicate IsSurrogate(c: CodePoint) {
    0xD800 <= c <= 0xDFFF
  }

  /** The code points `str.encode('utf-8', 'ignore')` keeps: the complement
      of `IsSurrogate`, named so that it can be passed to a filter. */
  predicate IsEncodable(c: CodePoint) {
    !IsSurrogate(c)
  }

  /** General category Co. */
  predicate IsPrivateUse(c: CodePoint) {
    || 0xE000 <= c <= 0xF8FF
    || 0xF_0000 <= c <= 0xF_FFFD
    || 0x10_0000 <= c <= 0x10_FFFD
  }

  /** General categories Zs, Zl and Zp. */
  predicate IsSeparator(c: CodePoint) {
    || c == 0x20 || c == 0xA0 || c == 0x1680
    || 0x2000 <= c <= 0x200A
    || c == 0x2028 || c == 0x2029 || c == 0x202F || c == 0x205F || c == 0x3000
  }

  /** General category Cf, restricted to the format characters listed. */
  predicate IsFormat(c: CodePoint) {
    || c == 0xAD
    || 0x600 <= c <= 0x605 || c == 0x61C || c == 0x6DD || c == 0x70F || c == 0x180E
    || 0x200B <= c <= 0x200F
    || 0x202A <= c <= 0x202E
    || 0x2060 <= c <= 0x2064
    || 0x2066 <= c <= 0x206F
    || c == 0xFEFF
    || 0xFFF9 <= c <= 0xFFFB
    || c == 0xE_0001
    || 0xE_0020 <= c <= 0xE_007F
  }

  /** `str.isprintable` for one character: the ASCII space, and every
      character outside Cc, Cs, Co, Zs, Zl, Zp and the listed part of Cf.
      Unassigned code points and the rest of Cf count as printable. */
  predicate IsPrintable(c: CodePoint) {
    c == SPACE || !(IsControl(c) || IsFormat(c) || IsSurrogate(c) || IsPrivateUse(c) || IsSeparator(c))
  }

  predicate IsAsciiUpper(c: CodePoint) {
    'A' as int <= c <= 'Z' as int
  }

  /** `str.lower` for one character, as ASCII case folding. */
  function Lower(c: CodePoint): (r: CodePoint)
    ensures !IsAsciiUpper(r)
    ensures !IsAsciiUpper(c) ==> r == c
    ensures IsAsciiUpper(c) ==> r == c + ('a' as int - 'A' as int)
    ensures IsSpace(r) == IsSpace(c) && IsPrintable(r) == IsPrintable(c) && IsSurrogate(r) == IsSurrogate(c)
    ensures r == SPACE <==> c == SPACE
  {
    if IsAsciiUpper(c) then c + ('a' as int - 'A' as int) else c
  }

  /** `x` and `y` are the same character up to ASCII case. */
  predicate SameIgnoringCase(x: CodePoint, y: CodePoint) {
    || x == y
    || (IsAsciiUpper(x) && y == x + ('a' as int - 'A' as int))
    || (IsAsciiUpper(y) && x == y + ('a' as int - 'A' as int))
  }

  /** Two characters lower to the same character exactly when they are the
      same up to ASCII case. */
  lemma LowerSameIff(x: CodePoint, y: CodePoint)
    ensures Lower(x) == Lower(y) <==> SameIgnoringCase(x, y)
  {
  }

  /** The only whitespace character that `str.isprintable` accepts is the
      ASCII space; in particular tab, line feed and carriage return are not
      printable. */
  lemma PrintableSpaceIsSpace(c: CodePoint)
    requires IsPrintable(c) && IsSpace(c)
    ensures c == SPACE
  {
  }
}
