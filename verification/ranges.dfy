/** The non-owning view `Range<Iter>` of folly/Range.h, modelled over random-access
    positions: an immutable buffer the view does not own and two indices into it. */
module Ranges {
  import opened Wrappers

  /** `std::numeric_limits<size_t>::max() + 1`: the modulus of `size_t` arithmetic. */
  const SizeTLimit: nat := 0x1_0000_0000_0000_0000

  predicate IsSizeT(x: int) {
    0 <= x < SizeTLimit
  }

  function Min(x: nat, y: nat): (m: nat) {
    if x <= y then x else y
  }

  /** The recoverable error `at` reports (`std::out_of_range`). */
  datatype RangeError = OutOfRange

  /** A half-open window `[b, e)` into `buf`. Copying a `Range` copies only the
      two positions; `buf` stands for memory owned elsewhere. */
  datatype Range<T> = Range(buf: seq<T>, b: nat, e: nat) {

    /** The class invariant `b_ <= e_`, together with both positions lying in the buffer. */
    predicate Valid(): (ok: bool)
      ensures ok ==> b <= e
      ensures ok ==> b <= |buf| && e <= |buf|
      ensures b <= e && e <= |buf| ==> ok
    {
      b <= e <= |buf|
    }

    /** The elements the view shows, in order. */
    function Elements(): (s: seq<T>)
      requires Valid()
    {
      buf[b..e]
    }

    function Size(): (n: nat)
      requires Valid()
      ensures n == |Elements()|
    {
      e - b
    }

    function Empty(): (r: bool)
      requires Valid()
      ensures r <==> Elements() == []
      ensures r <==> Size() == 0
    {
      b == e
    }

    /** `front()`: asserts the view is not empty. */
    function Front(): (x: T)
      requires Valid() && !Empty()
      ensures x == Elements()[0]
    {
      buf[b]
    }

    /** `back()`: the value just before `e`; asserts the view is not empty. */
    function Back(): (x: T)
      requires Valid() && !Empty()
      ensures x == Elements()[Size() - 1]
    {
      buf[e - 1]
    }

    /** `operator[]`: a contract-checked access (`CHECK_GT(size(), i)`). */
    function Get(i: nat): (x: T)
      requires Valid() && i < Size()
      ensures x == Elements()[i]
    {
      buf[b + i]
    }

    /** `at`: a checked access that reports `OutOfRange` instead of aborting. */
    function At(i: nat): (r: Result<T, RangeError>)
      requires Valid()
      ensures r.Ok? <==> i < Size()
      ensures r.Ok? ==> r.value == Elements()[i]
      ensures r.Err? ==> r.error == OutOfRange
    {
      if i >= Size() then Err(OutOfRange) else Ok(buf[b + i])
    }

    /** `advance(n)`: drops `n` elements from the front (`CHECK_LE(n, size())`). */
    function Advance(n: nat): (r: Range<T>)
      requires Valid() && n <= Size()
      ensures r.Valid() && r.buf == buf
      ensures r.b == b + n && r.e == e
      ensures r.Size() == Size() - n
      ensures r.Elements() == Elements()[n..]
    {
      assert buf[b..e][n..] == buf[b + n..e];
      this.(b := b + n)
    }

    /** `subtract(n)`: drops `n` elements from the back (`CHECK_LE(n, size())`). */
    function Subtract(n: nat): (r: Range<T>)
      requires Valid() && n <= Size()
      ensures r.Valid() && r.buf == buf
      ensures r.b == b && r.e + n == e
      ensures r.Size() == Size() - n
      ensures r.Elements() == Elements()[..Size() - n]
    {
      assert buf[b..e][..e - n - b] == buf[b..e - n];
      this.(e := e - n)
    }

    /** `pop_front()`: asserts the view is not empty. */
    function PopFront(): (r: Range<T>)
      requires Valid() && !Empty()
      ensures r.Valid() && r.buf == buf
      ensures r.b == b + 1 && r.e == e
      ensures r.Elements() == Elements()[1..]
    {
      assert buf[b..e][1..] == buf[b + 1..e];
      this.(b := b + 1)
    }

    /** `pop_back()`: asserts the view is not empty. */
    function PopBack(): (r: Range<T>)
      requires Valid() && !Empty()
      ensures r.Valid() && r.buf == buf
      ensures r.b == b && r.e + 1 == e
      ensures r.Elements() == Elements()[..Size() - 1]
    {
      assert buf[b..e][..e - 1 - b] == buf[b..e - 1];
      this.(e := e - 1)
    }

    /** `subpiece(first, length)`: the window starting `first` elements in, holding
        `length` elements or as many as remain, whichever is fewer
        (`CHECK_LE(first, size())`). */
    function Subpiece(first: nat, length: nat): (r: Range<T>)
      requires Valid() && first <= Size()
      ensures r.Valid() && r.buf == buf && r.b == b + first
      ensures r.Size() <= length && r.Size() <= Size() - first
      ensures r.Size() == length || r.Size() == Size() - first
      ensures r.Elements() == Elements()[first..first + r.Size()]
    {
      FromStartSize(buf, b + first, Min(length, Size() - first))
    }

    /** `subpiece(first)`: the default length `npos` exceeds every size, so the
        window runs to the end. */
    function SubpieceToEnd(first: nat): (r: Range<T>)
      requires Valid() && first <= Size()
      ensures r.Valid() && r.buf == buf && r.b == b + first && r.e == e
      ensures r.Elements() == Elements()[first..]
    {
      Subpiece(first, Size() - first)
    }
  }

  /** `Range(Iter start, Iter end)` and `makeRange`: the constructor asserts `end` is
      reachable from `start`. */
  function MakeRange<T>(buf: seq<T>, start: nat, end: nat): (r: Range<T>)
    requires start <= end <= |buf|
    ensures r.Valid() && r.buf == buf
    ensures r.Size() == end - start
    ensures r.Elements() == buf[start..end]
  {
    Range(buf, start, end)
  }

  /** `Range(Iter start, size_t size)`: no check; the caller vouches that `size`
      elements follow `start`. */
  function FromStartSize<T>(buf: seq<T>, start: nat, size: nat): (r: Range<T>)
    requires start + size <= |buf|
    ensures r.Valid() && r.buf == buf && r.b == start
    ensures r.Size() == size
    ensures r.Elements() == buf[start..start + size]
  {
    Range(buf, start, start + size)
  }

  /** `Range(const std::string& str, startFrom)`: a view of the tail of an owned
      string (`CHECK_LE(startFrom, str.size())`). */
  function FromOwned<T>(str: seq<T>, startFrom: nat): (r: Range<T>)
    requires startFrom <= |str|
    ensures r.Valid() && r.buf == str
    ensures r.Elements() == str[startFrom..]
  {
    Range(str, startFrom, |str|)
  }

  /** The bounds check of `Range(const std::string& str, startFrom, size)` as the
      C++ evaluates it: the `size_t` sum wraps before it is compared. */
  function OwnedSizedCheckAsWritten(startFrom: nat, size: nat, len: nat): (ok: bool)
    requires IsSizeT(startFrom) && IsSizeT(size) && IsSizeT(len)
    ensures startFrom + size <= len ==> ok
  {
    (startFrom + size) % SizeTLimit <= len
  }

  /** The as-written check admits `str = "ab"`, `startFrom = 1`, `size = npos`:
      it asks for far more elements than the string holds, and the end
      position `b_ + size` wraps round to just before `b_`. */
  lemma OwnedSizedCheckAdmitsOverflow()
    ensures IsSizeT(SizeTLimit - 1)
    ensures OwnedSizedCheckAsWritten(1, SizeTLimit - 1, 2)
    ensures 1 + (SizeTLimit - 1) > 2
  {
  }

  /** The intended check, written so that no intermediate sum can wrap. */
  function OwnedSizedCheck(startFrom: nat, size: nat, len: nat): (ok: bool)
    ensures ok <==> startFrom + size <= len
  {
    startFrom <= len && size <= len - startFrom
  }

  /** On every request that fits, the two checks agree; they differ only on
      requests whose `size_t` sum wraps. */
  lemma OwnedSizedChecksAgreeWithoutWrap(startFrom: nat, size: nat, len: nat)
    requires IsSizeT(startFrom) && IsSizeT(size) && IsSizeT(len)
    requires startFrom + size < SizeTLimit
    ensures OwnedSizedCheckAsWritten(startFrom, size, len) == OwnedSizedCheck(startFrom, size, len)
  {
  }

  /** `Range(const std::string& str, startFrom, size)` with the corrected check. */
  function FromOwnedSized<T>(str: seq<T>, startFrom: nat, size: nat): (r: Range<T>)
    requires OwnedSizedCheck(startFrom, size, |str|)
    ensures r.Valid() && r.buf == str
    ensures r.Size() == size
    ensures r.Elements() == str[startFrom..startFrom + size]
  {
    FromStartSize(str, startFrom, size)
  }

  /** `at` and `operator[]` agree wherever `operator[]` may be called. */
  lemma AtAgreesWithGet<T>(r: Range<T>, i: nat)
    requires r.Valid()
    ensures i < r.Size() ==> r.At(i) == Ok(r.Get(i))
    ensures i >= r.Size() ==> r.At(i) == Err(OutOfRange)
  {
  }

  /** `front()` and `back()` are the first and last indexed elements. */
  lemma FrontBackAreEnds<T>(r: Range<T>)
    requires r.Valid() && !r.Empty()
    ensures r.Front() == r.Get(0)
    ensures r.Back() == r.Get(r.Size() - 1)
  {
  }

  /** Advancing twice is advancing by the sum; `pop_front` is `advance(1)` and
      `pop_back` is `subtract(1)`. */
  lemma AdvanceComposes<T>(r: Range<T>, m: nat, n: nat)
    requires r.Valid() && m + n <= r.Size()
    ensures r.Advance(m).Advance(n) == r.Advance(m + n)
    ensures r.Size() > 0 ==> r.PopFront() == r.Advance(1) && r.PopBack() == r.Subtract(1)
  {
  }

  /** `subpiece(first, length)` is `advance(first)` followed by dropping from the
      back whatever lies beyond `length`. */
  lemma SubpieceIsAdvanceThenSubtract<T>(r: Range<T>, first: nat, length: nat)
    requires r.Valid() && first <= r.Size()
    ensures var rest := r.Advance(first);
            rest.Size() - r.Subpiece(first, length).Size() <= rest.Size() &&
            r.Subpiece(first, length) == rest.Subtract(rest.Size() - r.Subpiece(first, length).Size())
  {
  }
}
