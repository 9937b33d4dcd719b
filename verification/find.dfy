/** The `StringPiece` search entry points of folly/Range.h: the two-argument and
    single-element `qfind`, and the `find` overloads that start at an offset. */
module Find {
  import opened Wrappers
  import opened Comparators
  import opened Ranges
  import opened Search

  /** `n` occurs in `h` at offset `k`, byte for byte. */
  predicate ExactAt(h: seq<byte>, n: seq<byte>, k: nat) {
    k + |n| <= |h| && h[k..k + |n|] == n
  }

  /** Under the case-sensitive comparator an element-wise match is a slice equality. */
  lemma CaseSensitiveMatchIsExact(h: seq<byte>, n: seq<byte>, k: nat)
    ensures MatchesAt(h, n, k, AsciiCaseSensitive) <==> ExactAt(h, n, k)
  {
  }

  /** Moving an answer from the tail to the whole view: not-found stays
      not-found, and an offset moves up by `pos`. */
  function Shift(r: Option<nat>, pos: nat): (s: Option<nat>)
    ensures s.None? <==> r.None?
    ensures r.Some? ==> s.value - pos == r.value
  {
    match r
    case None => None
    case Some(k) => Some(k + pos)
  }

  /** An occurrence in the tail `h[pos..]` is an occurrence in `h` `pos` further on. */
  lemma MatchesAtSuffix<T>(h: seq<T>, n: seq<T>, eq: (T, T) -> bool, pos: nat, k: nat)
    requires pos <= |h|
    ensures MatchesAt(h[pos..], n, k, eq) <==> MatchesAt(h, n, pos + k, eq)
  {
  }

  /** Searching the tail `h[pos..]` and shifting the answer by `pos` is searching
      `h` from `pos`. */
  lemma FirstMatchInSuffix<T>(h: seq<T>, n: seq<T>, eq: (T, T) -> bool, pos: nat)
    requires pos <= |h|
    ensures Shift(FirstMatch(h[pos..], n, eq, 0), pos) == FirstMatch(h, n, eq, pos)
  {
    var r := FirstMatch(h[pos..], n, eq, 0);
    FirstMatchIsLeftmost(h[pos..], n, eq, 0, r);
    forall k: nat
      ensures MatchesAt(h[pos..], n, k, eq) <==> MatchesAt(h, n, pos + k, eq)
    {
      MatchesAtSuffix(h, n, eq, pos, k);
    }
    assert IsLeftmost(h, n, eq, pos, Shift(r, pos)) by {
      if r.None? {
        forall m: nat | pos <= m
          ensures !MatchesAt(h, n, m, eq)
        {
          assert !MatchesAt(h[pos..], n, m - pos, eq);
        }
      } else {
        forall m: nat | pos <= m < r.value + pos
          ensures !MatchesAt(h, n, m, eq)
        {
          assert !MatchesAt(h[pos..], n, m - pos, eq);
        }
      }
    }
    FirstMatchIsLeftmost(h, n, eq, pos, Shift(r, pos));
  }

  /** `qfind(haystack, needle)`: the case-sensitive search, which finds the leftmost
      exact occurrence. */
  method QFindDefault(haystack: Range<byte>, needle: Range<byte>) returns (r: Option<nat>)
    requires haystack.Valid() && needle.Valid()
    ensures r == FirstMatch(haystack.Elements(), needle.Elements(), AsciiCaseSensitive, 0)
    ensures r.Some? ==> ExactAt(haystack.Elements(), needle.Elements(), r.value)
    ensures r.Some? ==> forall k: nat :: k < r.value ==> !ExactAt(haystack.Elements(), needle.Elements(), k)
    ensures r.None? ==> forall k: nat :: !ExactAt(haystack.Elements(), needle.Elements(), k)
  {
    CaseSensitiveIsEquivalence();
    r := QFind(haystack, needle, AsciiCaseSensitive);
    var h, n := haystack.Elements(), needle.Elements();
    FirstMatchIsLeftmost(h, n, AsciiCaseSensitive, 0, r);
    forall k: nat
      ensures MatchesAt(h, n, k, AsciiCaseSensitive) <==> ExactAt(h, n, k)
    {
      CaseSensitiveMatchIsExact(h, n, k);
    }
  }

  /** `qfind(haystack, c)`: the search for a one-element needle. */
  method QFindElement(haystack: Range<byte>, c: byte) returns (r: Option<nat>)
    requires haystack.Valid()
    ensures r == FirstMatch(haystack.Elements(), [c], AsciiCaseSensitive, 0)
    ensures r.Some? ==> r.value < haystack.Size() && haystack.Elements()[r.value] == c
    ensures r.Some? ==> c !in haystack.Elements()[..r.value]
    ensures r.None? <==> c !in haystack.Elements()
  {
    var needle := MakeRange([c], 0, 1);
    assert needle.Elements() == [c];
    r := QFindDefault(haystack, needle);
    var h := haystack.Elements();
    forall k: nat | k < |h|
      ensures ExactAt(h, [c], k) <==> h[k] == c
    {
      assert k + 1 <= |h| ==> h[k..k + 1] == [h[k]];
    }
    if r.Some? {
      forall k | 0 <= k < r.value
        ensures h[..r.value][k] != c
      {
        assert !ExactAt(h, [c], k);
      }
    } else {
      forall k | 0 <= k < |h|
        ensures h[k] != c
      {
        assert !ExactAt(h, [c], k);
      }
    }
  }

  /** `find(str)`. */
  method Find(piece: Range<byte>, needle: Range<byte>) returns (r: Option<nat>)
    requires piece.Valid() && needle.Valid()
    ensures r == FirstMatch(piece.Elements(), needle.Elements(), AsciiCaseSensitive, 0)
    ensures r.Some? ==> ExactAt(piece.Elements(), needle.Elements(), r.value)
  {
    r := QFindDefault(piece, needle);
  }

  /** `find(str, pos)`: not found when `pos` lies beyond the end, otherwise the
      leftmost exact occurrence at or after `pos`. */
  method FindFrom(piece: Range<byte>, needle: Range<byte>, pos: nat) returns (r: Option<nat>)
    requires piece.Valid() && needle.Valid()
    ensures pos > piece.Size() ==> r == None
    ensures pos <= piece.Size() ==> r == FirstMatch(piece.Elements(), needle.Elements(), AsciiCaseSensitive, pos)
    ensures r.Some? ==> pos <= r.value && ExactAt(piece.Elements(), needle.Elements(), r.value)
  {
    if pos > piece.Size() {
      return None;
    }
    var ret := QFindDefault(piece.SubpieceToEnd(pos), needle);
    FirstMatchInSuffix(piece.Elements(), needle.Elements(), AsciiCaseSensitive, pos);
    r := Shift(ret, pos);
    if r.Some? {
      FirstMatchIsLeftmost(piece.Elements(), needle.Elements(), AsciiCaseSensitive, pos, r);
      CaseSensitiveMatchIsExact(piece.Elements(), needle.Elements(), r.value);
    }
  }

  /** `find(s, pos, n)`: the needle is the `n` elements starting at `s`. */
  method FindBuffer(piece: Range<byte>, s: seq<byte>, pos: nat, n: nat) returns (r: Option<nat>)
    requires piece.Valid() && n <= |s|
    ensures pos > piece.Size() ==> r == None
    ensures pos <= piece.Size() ==> r == FirstMatch(piece.Elements(), s[..n], AsciiCaseSensitive, pos)
    ensures r.Some? ==> pos <= r.value && ExactAt(piece.Elements(), s[..n], r.value)
  {
    if pos > piece.Size() {
      return None;
    }
    var needle := FromStartSize(s, 0, n);
    var ret := QFindDefault(if pos != 0 then piece.SubpieceToEnd(pos) else piece, needle);
    FirstMatchInSuffix(piece.Elements(), s[..n], AsciiCaseSensitive, pos);
    r := Shift(ret, pos);
    if r.Some? {
      FirstMatchIsLeftmost(piece.Elements(), s[..n], AsciiCaseSensitive, pos, r);
      CaseSensitiveMatchIsExact(piece.Elements(), s[..n], r.value);
    }
  }

  /** `find(c)`. */
  method FindElement(piece: Range<byte>, c: byte) returns (r: Option<nat>)
    requires piece.Valid()
    ensures r.Some? ==> r.value < piece.Size() && piece.Elements()[r.value] == c
    ensures r.Some? ==> c !in piece.Elements()[..r.value]
    ensures r.None? <==> c !in piece.Elements()
  {
    r := QFindElement(piece, c);
  }

  /** `find(c, pos)`: the first `c` at or after `pos`. */
  method FindElementFrom(piece: Range<byte>, c: byte, pos: nat) returns (r: Option<nat>)
    requires piece.Valid()
    ensures pos > piece.Size() ==> r == None
    ensures r.Some? ==> pos <= r.value < piece.Size() && piece.Elements()[r.value] == c
    ensures r.Some? ==> c !in piece.Elements()[pos..r.value]
    ensures r.None? && pos <= piece.Size() ==> c !in piece.Elements()[pos..]
  {
    if pos > piece.Size() {
      return None;
    }
    var tail := piece.SubpieceToEnd(pos);
    var ret := QFindElement(tail, c);
    r := Shift(ret, pos);
    if ret.Some? {
      assert piece.Elements()[pos..r.value] == tail.Elements()[..ret.value];
    }
  }
}
