/** Worked searches through the model of `qfind` and `find`: the answers the
    search must give on small inputs, including repeated elements, a failed
    verification followed by a skip, and both stock comparators. */
module SearchExamples {
  import opened Wrappers
  import opened Comparators
  import opened Ranges
  import opened Search
  import opened Find

  /** The bytes of an ASCII string literal. */
  function Ascii(s: string): (r: seq<byte>)
    requires forall i :: 0 <= i < |s| ==> s[i] as int < 256
    ensures |r| == |s|
    ensures forall i :: 0 <= i < |s| ==> r[i] == s[i] as int
  {
    seq(|s|, i requires 0 <= i < |s| => s[i] as int)
  }

  /** The whole of `s` as a view. */
  function Whole(s: seq<byte>): (r: Range<byte>)
    ensures r.Valid() && r.Elements() == s
  {
    MakeRange(s, 0, |s|)
  }

  /** "aaa" in "aaaaa": a needle of one repeated element is found at the first
      place it fits. */
  method SearchRepeatedElements() returns (r: Option<nat>)
    ensures r == Some(0)
  {
    var h, n := Ascii("aaaaa"), Ascii("aaa");
    r := QFindDefault(Whole(h), Whole(n));
    assert MatchesAt(h, n, 0, AsciiCaseSensitive);
  }

  /** "abcd" is not found in the shorter "abc". */
  method SearchLongerNeedle() returns (r: Option<nat>)
    ensures r == None
  {
    var h: seq<byte> := [97, 98, 99];
    var n: seq<byte> := [97, 98, 99, 100];
    r := QFindDefault(Whole(h), Whole(n));
  }

  /** The empty needle is found at 0, even in the empty haystack. */
  method SearchEmptyInEmpty() returns (r: Option<nat>)
    ensures r == Some(0)
  {
    var e: seq<byte> := [];
    r := QFindDefault(Whole(e), Whole(e));
  }

  /** "abc" in "ABC": found at 0 when case is ignored, not found otherwise. */
  method SearchIgnoringCase() returns (insensitive: Option<nat>, sensitive: Option<nat>)
    ensures insensitive == Some(0)
    ensures sensitive == None
  {
    var h, n := Ascii("ABC"), Ascii("abc");
    CaseInsensitiveIsEquivalence();
    insensitive := QFind(Whole(h), Whole(n), AsciiCaseInsensitive);
    assert MatchesAt(h, n, 0, AsciiCaseInsensitive);
    sensitive := QFindDefault(Whole(h), Whole(n));
    assert !MatchesAt(h, n, 0, AsciiCaseSensitive) by {
      assert !AsciiCaseSensitive(h[0], n[0]);
    }
  }

  /** "abcde" in "abcxabcdabcdabcde": the partial matches at 0, 4 and 8 are
      passed over and the answer is 12. */
  method SearchPastPartialMatches() returns (r: Option<nat>)
    ensures r == Some(12)
  {
    var h: seq<byte> := [97, 98, 99, 120, 97, 98, 99, 100, 97, 98, 99, 100, 97, 98, 99, 100, 101];
    var n: seq<byte> := [97, 98, 99, 100, 101];
    assert Ascii("abcxabcdabcdabcde") == h by {
      var a := Ascii("abcxabcdabcdabcde");
      forall i | 0 <= i < 17 ensures a[i] == h[i] { }
    }
    assert Ascii("abcde") == n;
    r := QFindDefault(Whole(h), Whole(n));
    LeftmostAtTwelve(h, n);
  }

  lemma LeftmostAtTwelve(h: seq<byte>, n: seq<byte>)
    requires h == [97, 98, 99, 120, 97, 98, 99, 100, 97, 98, 99, 100, 97, 98, 99, 100, 101]
    requires n == [97, 98, 99, 100, 101]
    ensures FirstMatch(h, n, AsciiCaseSensitive, 0) == Some(12)
  {
    forall m: nat | m < 12
      ensures !MatchesAt(h, n, m, AsciiCaseSensitive)
    {
      if m % 4 == 0 {
        assert h[m + 3] != n[3] || h[m + 4] != n[4];
      } else {
        assert h[m] != n[0];
      }
    }
    assert MatchesAt(h, n, 12, AsciiCaseSensitive);
    FirstMatchIsLeftmost(h, n, AsciiCaseSensitive, 0, Some(12));
  }

  /** The skip for "abc" is the whole needle length, 3: its last element 'c'
      does not recur earlier in it. */
  method SkipOfDistinctNeedle() returns (skip: nat)
    ensures skip == 3
  {
    var n: seq<byte> := [97, 98, 99];
    skip := ComputeSkip(Whole(n), AsciiCaseSensitive);
    assert !AsciiCaseSensitive(n[1], n[2]) && !AsciiCaseSensitive(n[0], n[2]);
  }

  /** "abc" in "xbcabc": the probe at offset 0 succeeds ('c'), verification then
      fails on 'x', and the skip of 3 lands straight on the answer, because no
      offset the skip passes over can match. */
  method SearchThroughSkip() returns (r: Option<nat>)
    ensures r == Some(3)
  {
    var h: seq<byte> := [120, 98, 99, 97, 98, 99];
    var n: seq<byte> := [97, 98, 99];
    r := QFindDefault(Whole(h), Whole(n));
    SkipLandsOnThree(h, n);
  }

  lemma SkipLandsOnThree(h: seq<byte>, n: seq<byte>)
    requires h == [120, 98, 99, 97, 98, 99] && n == [97, 98, 99]
    ensures FirstMatch(h, n, AsciiCaseSensitive, 0) == Some(3)
  {
    CaseSensitiveIsEquivalence();
    assert IsSkip(n, AsciiCaseSensitive, 3);
    assert h[2] == n[2];
    assert !MatchesAt(h, n, 0, AsciiCaseSensitive) by { assert h[0] != n[0]; }
    assert NoMatchBefore(h, n, AsciiCaseSensitive, 0);
    NoMatchAfterSkip(h, n, AsciiCaseSensitive, 0, 3);
    assert MatchesAt(h, n, 3, AsciiCaseSensitive);
    FirstMatchIsLeftmost(h, n, AsciiCaseSensitive, 0, Some(3));
  }

  /** `find(str, pos)` on "abcabc" for "abc": from 0 the first occurrence, from
      1 the second, and past the end nothing. */
  method FindFromOffsets() returns (atZero: Option<nat>, atOne: Option<nat>, pastEnd: Option<nat>)
    ensures atZero == Some(0)
    ensures atOne == Some(3)
    ensures pastEnd == None
  {
    var h, n := Ascii("abcabc"), Ascii("abc");
    atZero := FindFrom(Whole(h), Whole(n), 0);
    atOne := FindFrom(Whole(h), Whole(n), 1);
    pastEnd := FindFrom(Whole(h), Whole(n), 7);
    assert MatchesAt(h, n, 0, AsciiCaseSensitive);
    assert !MatchesAt(h, n, 1, AsciiCaseSensitive) by { assert h[1] != n[0]; }
    assert !MatchesAt(h, n, 2, AsciiCaseSensitive) by { assert h[2] != n[0]; }
    assert MatchesAt(h, n, 3, AsciiCaseSensitive);
  }
}
