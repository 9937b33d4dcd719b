/** `Range::compare`, `operator==` and `operator<` for `StringPiece`, measured
    against an independent definition of lexicographic order. */
module Ordering {
  import opened Comparators
  import opened Ranges

  /** Strict lexicographic order on byte sequences: the first differing byte
      decides, and a proper prefix comes first. */
  predicate LexLess(x: seq<byte>, y: seq<byte>)
    decreases |x|
  {
    if |y| == 0 then false
    else if |x| == 0 then true
    else if x[0] != y[0] then x[0] < y[0]
    else LexLess(x[1..], y[1..])
  }

  lemma {:induction false} LexLessIrreflexive(x: seq<byte>)
    ensures !LexLess(x, x)
    decreases |x|
  {
    if |x| > 0 {
      LexLessIrreflexive(x[1..]);
    }
  }

  lemma {:induction false} LexLessTransitive(x: seq<byte>, y: seq<byte>, z: seq<byte>)
    requires LexLess(x, y) && LexLess(y, z)
    ensures LexLess(x, z)
    decreases |x|
  {
    if |x| > 0 && x[0] == y[0] && y[0] == z[0] {
      LexLessTransitive(x[1..], y[1..], z[1..]);
    }
  }

  /** Exactly one of `x < y`, `x == y`, `y < x` holds. */
  lemma {:induction false} LexLessTrichotomy(x: seq<byte>, y: seq<byte>)
    ensures x != y ==> LexLess(x, y) || LexLess(y, x)
    ensures !(LexLess(x, y) && LexLess(y, x))
    decreases |x|
  {
    if |x| > 0 && |y| > 0 && x[0] == y[0] {
      LexLessTrichotomy(x[1..], y[1..]);
      if x != y {
        assert x == [x[0]] + x[1..] && y == [y[0]] + y[1..];
      }
    }
  }

  /** When two sequences already differ within their first `m` bytes, those
      bytes alone decide the order. */
  lemma {:induction false} LexLessDecidedByPrefix(x: seq<byte>, y: seq<byte>, m: nat)
    requires m <= |x| && m <= |y| && x[..m] != y[..m]
    ensures LexLess(x, y) == LexLess(x[..m], y[..m])
    decreases m
  {
    if x[0] == y[0] {
      assert x[..m][1..] == x[1..][..m - 1];
      assert y[..m][1..] == y[1..][..m - 1];
      LexLessDecidedByPrefix(x[1..], y[1..], m - 1);
    }
  }

  /** A prefix of `y` precedes `y` exactly when it is a proper prefix, and never
      follows it. */
  lemma {:induction false} LexLessOfPrefix(x: seq<byte>, y: seq<byte>)
    requires |x| <= |y| && x == y[..|x|]
    ensures LexLess(x, y) <==> |x| < |y|
    ensures !LexLess(y, x)
    decreases |x|
  {
    if |x| > 0 {
      assert x[1..] == y[1..][..|x| - 1];
      LexLessOfPrefix(x[1..], y[1..]);
    }
  }

  /** `char_traits<char>::compare(p, q, n)`: the sign of the first difference
      among the first `n` bytes, or 0 when they agree. */
  function TraitsCompare(p: seq<byte>, q: seq<byte>, n: nat): (r: int)
    requires n <= |p| && n <= |q|
    ensures -1 <= r <= 1
    ensures r == 0 <==> p[..n] == q[..n]
    ensures r < 0 <==> LexLess(p[..n], q[..n])
    ensures r > 0 <==> LexLess(q[..n], p[..n])
    decreases n
  {
    if n == 0 then 0
    else if p[0] < q[0] then -1
    else if p[0] > q[0] then 1
    else
      assert p[..n] == [p[0]] + p[1..][..n - 1];
      assert q[..n] == [q[0]] + q[1..][..n - 1];
      TraitsCompare(p[1..], q[1..], n - 1)
  }

  /** `Range::compare`: negative, zero or positive as `a` sorts before, equal to or
      after `o`. */
  function Compare(a: Range<byte>, o: Range<byte>): (r: int)
    requires a.Valid() && o.Valid()
    ensures r < 0 <==> LexLess(a.Elements(), o.Elements())
    ensures r == 0 <==> a.Elements() == o.Elements()
    ensures r > 0 <==> LexLess(o.Elements(), a.Elements())
  {
    var tsize := a.Size();
    var osize := o.Size();
    var msize := Min(tsize, osize);
    var x, y := a.Elements(), o.Elements();
    var r := TraitsCompare(x, y, msize);
    if r != 0 then
      LexLessDecidedByPrefix(x, y, msize);
      LexLessDecidedByPrefix(y, x, msize);
      r
    else if tsize <= osize then
      LexLessOfPrefix(x, y);
      tsize - osize
    else
      LexLessOfPrefix(y, x);
      tsize - osize
  }

  /** `operator==`: equal sizes and `compare == 0`. */
  function Equal(lhs: Range<byte>, rhs: Range<byte>): (r: bool)
    requires lhs.Valid() && rhs.Valid()
    ensures r <==> lhs.Elements() == rhs.Elements()
  {
    lhs.Size() == rhs.Size() && Compare(lhs, rhs) == 0
  }

  /** `operator<`: `compare < 0`. */
  function Less(lhs: Range<byte>, rhs: Range<byte>): (r: bool)
    requires lhs.Valid() && rhs.Valid()
    ensures r <==> LexLess(lhs.Elements(), rhs.Elements())
  {
    Compare(lhs, rhs) < 0
  }

  /** `operator<` is a strict total order on views, up to `operator==`. */
  lemma LessIsStrictTotalOrder(a: Range<byte>, b: Range<byte>, c: Range<byte>)
    requires a.Valid() && b.Valid() && c.Valid()
    ensures !Less(a, a)
    ensures Less(a, b) && Less(b, c) ==> Less(a, c)
    ensures Less(a, b) || Equal(a, b) || Less(b, a)
    ensures !(Less(a, b) && Less(b, a))
    ensures Equal(a, b) ==> !Less(a, b)
  {
    LexLessIrreflexive(a.Elements());
    LexLessTrichotomy(a.Elements(), b.Elements());
    if Less(a, b) && Less(b, c) {
      LexLessTransitive(a.Elements(), b.Elements(), c.Elements());
    }
  }

  /** `compare` is antisymmetric in sign. */
  lemma CompareAntisymmetric(a: Range<byte>, b: Range<byte>)
    requires a.Valid() && b.Valid()
    ensures Compare(a, b) < 0 <==> Compare(b, a) > 0
    ensures Compare(a, b) == 0 <==> Compare(b, a) == 0
  {
  }
}
