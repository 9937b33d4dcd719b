/** `qfind` (folly/Range.h): first-occurrence search that probes the needle's last
    element first and, after a failed verification, jumps ahead by a skip it
    computes lazily from the needle. */
module Search {
  import opened Wrappers
  import opened Comparators
  import opened Ranges

  /** The needle `n` occurs in `h` at offset `k`, element by element under `eq`
      (haystack element on the left). */
  predicate MatchesAt<T>(h: seq<T>, n: seq<T>, k: nat, eq: (T, T) -> bool) {
    k + |n| <= |h| && forall j :: 0 <= j < |n| ==> eq(h[k + j], n[j])
  }

  /** `r` is the leftmost offset at or after `from` where `n` occurs in `h`, or
      `None` when there is no such offset. */
  ghost predicate IsLeftmost<T>(h: seq<T>, n: seq<T>, eq: (T, T) -> bool, from: nat, r: Option<nat>) {
    match r
    case Some(k) =>
      && from <= k
      && MatchesAt(h, n, k, eq)
      && forall m: nat :: from <= m < k ==> !MatchesAt(h, n, m, eq)
    case None =>
      forall m: nat :: from <= m ==> !MatchesAt(h, n, m, eq)
  }

  /** The reference search: try every offset from `from` upwards. */
  function FirstMatch<T>(h: seq<T>, n: seq<T>, eq: (T, T) -> bool, from: nat): (r: Option<nat>)
    decreases |h| - from
  {
    if from + |n| > |h| then None
    else if MatchesAt(h, n, from, eq) then Some(from)
    else FirstMatch(h, n, eq, from + 1)
  }

  /** The reference search finds the leftmost occurrence, and the leftmost
      occurrence is the only answer with that property. */
  lemma {:induction false} FirstMatchIsLeftmost<T>(h: seq<T>, n: seq<T>, eq: (T, T) -> bool, from: nat, r: Option<nat>)
    ensures IsLeftmost(h, n, eq, from, r) <==> r == FirstMatch(h, n, eq, from)
    decreases |h| - from
  {
    if from + |n| > |h| {
    } else if MatchesAt(h, n, from, eq) {
    } else {
      FirstMatchIsLeftmost(h, n, eq, from + 1, r);
      if r.None? {
        if IsLeftmost(h, n, eq, from + 1, r) {
          forall m: nat | from <= m
            ensures !MatchesAt(h, n, m, eq)
          {
            if m > from {
              assert from + 1 <= m;
            }
          }
        }
      } else if IsLeftmost(h, n, eq, from, r) {
        assert r.value != from;
      }
    }
  }

  /** The skip `qfind` computes for a nonempty needle `n`: the distance from its
      last position back to the nearest earlier element equivalent to the last
      one, or `|n|` when there is none. */
  ghost predicate IsSkip<T>(n: seq<T>, eq: (T, T) -> bool, skip: nat)
    requires |n| > 0
  {
    var last := |n| - 1;
    && 1 <= skip <= |n|
    && (forall p :: last - skip < p < last ==> !eq(n[p], n[last]))
    && (skip < |n| ==> eq(n[last - skip], n[last]))
  }

  /** The lazily computed skip value of `qfind`. */
  method ComputeSkip<T>(needle: Range<T>, eq: (T, T) -> bool) returns (skip: nat)
    requires needle.Valid() && needle.Size() > 0
    ensures IsSkip(needle.Elements(), eq, skip)
  {
    var nsize1 := needle.Size() - 1;
    var lastNeedle := needle.Get(nsize1);
    skip := 1;
    while skip <= nsize1 && !eq(needle.Get(nsize1 - skip), lastNeedle)
      invariant 1 <= skip <= nsize1 + 1
      invariant forall p :: nsize1 - skip < p < nsize1 ==> !eq(needle.Elements()[p], needle.Elements()[nsize1])
    {
      skip := skip + 1;
    }
  }

  /** No offset below `i` is an occurrence. */
  ghost predicate NoMatchBefore<T>(h: seq<T>, n: seq<T>, eq: (T, T) -> bool, i: nat) {
    forall k: nat :: k < i ==> !MatchesAt(h, n, k, eq)
  }

  /** The skip never jumps over an occurrence: when the haystack element aligned
      with the needle's last slot at offset `i` is equivalent to that last
      element, none of the offsets strictly between `i` and `i + skip` matches.
      This needs `eq` to be symmetric and transitive. */
  lemma SkipNeverJumpsMatch<T(!new)>(h: seq<T>, n: seq<T>, eq: (T, T) -> bool, i: nat, skip: nat)
    requires Equivalence(eq)
    requires |n| > 0 && IsSkip(n, eq, skip)
    requires i + |n| <= |h| && eq(h[i + |n| - 1], n[|n| - 1])
    ensures forall k: nat :: i < k < i + skip ==> !MatchesAt(h, n, k, eq)
  {
    var last := |n| - 1;
    forall k: nat | i < k < i + skip
      ensures !MatchesAt(h, n, k, eq)
    {
      // The needle slot that lands on haystack position `i + last` at offset `k`.
      var j := last - (k - i);
      assert k + j == i + last;
      assert !eq(n[j], n[last]);
    }
  }

  /** After a failed verification at offset `i`, everything below `i + skip` is
      known not to match. */
  lemma NoMatchAfterSkip<T(!new)>(h: seq<T>, n: seq<T>, eq: (T, T) -> bool, i: nat, skip: nat)
    requires Equivalence(eq)
    requires |n| > 0 && IsSkip(n, eq, skip)
    requires i + |n| <= |h| && eq(h[i + |n| - 1], n[|n| - 1])
    requires NoMatchBefore(h, n, eq, i) && !MatchesAt(h, n, i, eq)
    ensures NoMatchBefore(h, n, eq, i + skip)
  {
    SkipNeverJumpsMatch(h, n, eq, i, skip);
  }

  /** A failed probe of the last element rules offset `i` out, so the
      known-empty prefix grows by one. */
  lemma NoMatchStep<T>(h: seq<T>, n: seq<T>, eq: (T, T) -> bool, i: nat)
    requires |n| > 0 && i + |n| <= |h| && !eq(h[i + |n| - 1], n[|n| - 1])
    requires NoMatchBefore(h, n, eq, i)
    ensures !MatchesAt(h, n, i, eq)
    ensures NoMatchBefore(h, n, eq, i + 1)
  {
  }

  /** Once every offset that leaves room for the needle has failed, there is no
      occurrence at all. */
  lemma NoMatchAnywhere<T>(h: seq<T>, n: seq<T>, eq: (T, T) -> bool, i: nat)
    requires NoMatchBefore(h, n, eq, i) && i + |n| > |h|
    ensures IsLeftmost(h, n, eq, 0, None)
  {
  }

  /** The "pedestrian" loop of `qfind`: compares the alignment at offset `i`
      element by element from the left, stopping at the first mismatch. */
  method VerifyAlignment<T>(haystack: Range<T>, needle: Range<T>, i: nat, eq: (T, T) -> bool) returns (matched: bool)
    requires haystack.Valid() && needle.Valid()
    requires needle.Size() > 0 && i + needle.Size() <= haystack.Size()
    ensures matched <==> MatchesAt(haystack.Elements(), needle.Elements(), i, eq)
  {
    var nsize := needle.Size();
    var j := 0;
    while true
      invariant j < nsize
      invariant forall jj :: 0 <= jj < j ==> eq(haystack.Elements()[i + jj], needle.Elements()[jj])
      decreases nsize - j
    {
      if !eq(haystack.Get(i + j), needle.Get(j)) {
        return false;
      }
      j := j + 1;
      if j == nsize {
        return true;
      }
    }
  }

  /** `qfind(haystack, needle, eq)`. Every answer is an occurrence; when `eq` is an
      equivalence, as both stock comparators are, it is the leftmost one, and
      `None` means there is none. */
  method QFind<T(!new)>(haystack: Range<T>, needle: Range<T>, eq: (T, T) -> bool) returns (r: Option<nat>)
    requires haystack.Valid() && needle.Valid()
    ensures needle.Size() > haystack.Size() ==> r == None
    ensures needle.Size() == 0 ==> r == Some(0)
    ensures r.Some? ==> MatchesAt(haystack.Elements(), needle.Elements(), r.value, eq)
    ensures Equivalence(eq) ==> IsLeftmost(haystack.Elements(), needle.Elements(), eq, 0, r)
  {
    ghost var h := haystack.Elements();
    ghost var n := needle.Elements();
    var nsize := needle.Size();
    if haystack.Size() < nsize {
      NoMatchAnywhere(h, n, eq, 0);
      return None;
    }
    if nsize == 0 {
      assert MatchesAt(h, n, 0, eq);
      return Some(0);
    }
    var nsize1 := nsize - 1;
    var lastNeedle := needle.Get(nsize1);

    // Zero means "not computed yet".
    var skip: nat := 0;

    var i: nat := 0;
    var iEnd: nat := haystack.Size() - nsize1;
    while i < iEnd
      invariant i <= haystack.Size()
      invariant skip == 0 || IsSkip(n, eq, skip)
      invariant Equivalence(eq) ==> NoMatchBefore(h, n, eq, i)
      decreases haystack.Size() - i
    {
      // Probe the element aligned with the needle's last one.
      while !eq(haystack.Get(i + nsize1), lastNeedle)
        invariant i < iEnd
        invariant Equivalence(eq) ==> NoMatchBefore(h, n, eq, i)
        decreases iEnd - i
      {
        if Equivalence(eq) {
          NoMatchStep(h, n, eq, i);
        }
        i := i + 1;
        if i == iEnd {
          if Equivalence(eq) {
            NoMatchAnywhere(h, n, eq, i);
          }
          return None;
        }
      }
      // Here the last element matches; verify the alignment left to right.
      var matched := VerifyAlignment(haystack, needle, i, eq);
      if matched {
        return Some(i);
      }
      if skip == 0 {
        skip := ComputeSkip(needle, eq);
      }
      if Equivalence(eq) {
        NoMatchAfterSkip(h, n, eq, i, skip);
      }
      i := i + skip;
    }
    if Equivalence(eq) {
      NoMatchAnywhere(h, n, eq, i);
    }
    return None;
  }
}
