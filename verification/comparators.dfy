/** The element comparators that parameterise `qfind` (folly/Range.h, `AsciiCaseSensitive`
    and `AsciiCaseInsensitive`), and what `qfind` needs of a comparator. */
module Comparators {

  /** An element of a `StringPiece`, read as an unsigned byte. */
  type byte = x: int | 0 <= x < 256

  /** `eq` is reflexive, symmetric and transitive on every value of `T`. */
  ghost predicate Equivalence<T(!new)>(eq: (T, T) -> bool) {
    && (forall x :: eq(x, x))
    && (forall x, y :: eq(x, y) ==> eq(y, x))
    && (forall x, y, z :: eq(x, y) && eq(y, z) ==> eq(x, z))
  }

  predicate IsAsciiLower(c: byte) {
    'a' as int <= c <= 'z' as int
  }

  predicate IsAsciiUpper(c: byte) {
    'A' as int <= c <= 'Z' as int
  }

  /** `toupper` in the "C" locale: lower-case ASCII letters become upper case,
      every other byte is left alone. */
  function ToUpper(c: byte): (u: byte)
    ensures !IsAsciiLower(u)
    ensures u == c <==> !IsAsciiLower(c)
    ensures IsAsciiLower(c) ==> IsAsciiUpper(u) && c - u == 'a' as int - 'A' as int
  {
    if IsAsciiLower(c) then c - ('a' as int - 'A' as int) else c
  }

  /** Exact element equality: the same byte, and so also case-insensitively
      equal. */
  function AsciiCaseSensitive(lhs: byte, rhs: byte): (r: bool)
    ensures r <==> lhs == rhs
    ensures r ==> AsciiCaseInsensitive(lhs, rhs)
  {
    lhs == rhs
  }

  /** Equality after upper-casing both sides: the same byte, or the two cases
      of one ASCII letter. */
  function AsciiCaseInsensitive(lhs: byte, rhs: byte): (r: bool)
    ensures r <==>
              || lhs == rhs
              || (IsAsciiLower(lhs) && rhs == lhs - 32)
              || (IsAsciiUpper(lhs) && rhs == lhs + 32)
  {
    ToUpper(lhs) == ToUpper(rhs)
  }

  lemma CaseSensitiveIsEquivalence()
    ensures Equivalence(AsciiCaseSensitive)
  {
  }

  lemma CaseInsensitiveIsEquivalence()
    ensures Equivalence(AsciiCaseInsensitive)
  {
  }
}
