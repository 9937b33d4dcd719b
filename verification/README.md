# folly `Range` / `StringPiece` and `qfind` in Dafny

This project models the core of folly's `folly/Range.h`:

- the non-owning view `Range<Iter>`, in practice `StringPiece`. It is a pair of
  positions into memory the view does not own. Its accessors (`size`, `empty`,
  `front`, `back`, `operator[]`, `at`) and its shrinking operations (`advance`,
  `subtract`, `pop_front`, `pop_back`, `subpiece`) are modelled, and so are its
  constructors;
- `compare`, `operator==` and `operator<`, and the Bernstein `hash`;
- `qfind`, the allocation-free first-occurrence search. It probes the needle's
  last element first. After a failed verification it jumps ahead by a skip that
  it computes lazily from the needle. The model also covers the `find` overloads
  built on `qfind`.

## Modelling choices

- A view is `Range(buf, b, e)`: an immutable `seq` standing for the memory
  owned elsewhere, plus two indices with `b <= e <= |buf|` (`Valid`).
  `Elements()` is `buf[b..e]`, and every contract is stated in terms of it.
  Operations that mutate a view in C++ (`advance`, `pop_front`, ...) return the
  new view.
- `StringPiece` elements are bytes `0..255`, the `byte` subset type.
- `npos`, the "not found" sentinel, is `None` in an `Option<nat>`.
- Fatal checks (`assert`, `CHECK_LE`, `CHECK_GT`) become `requires`. The
  exception thrown by `at` becomes `Err(OutOfRange)`.
- A comparator is any total function `(T, T) -> bool`. `qfind`'s soundness
  holds for every comparator. The claims that its answer is the leftmost one,
  and that `None` means there is no occurrence, are proved under
  `Equivalence(eq)`. The source relies on this without checking it. Both stock
  comparators are proved to be equivalences.
- `FirstMatch` is the independent reference for `qfind`: the naive search that
  tries every offset in turn. `LexLess` is the independent reference for
  `compare`: plain lexicographic order on byte sequences.
- `hash` computes on an explicit `uint32` model. `x << 5` is `ShiftLeft5`, which drops the bits shifted out,
  and each `+` is `Add`, which wraps modulo 2^32. It is proved to equal the fold
  `h := (h * 33 + c) mod 2^32` from 5381.
- The search in `qfind` is split into two loops. The probe loop for the last
  element is inline in `QFind`. The left-to-right verification loop is
  `VerifyAlignment`. The behaviour, and the order of comparisons within one
  alignment, are those of the single C++ function.

## Model

| member | source | states |
|---|---|---|
| Ranges.Range.Valid | folly/Range.h:200-203 | the class invariant `b_ <= e_` asserted by `size()`, with both positions inside the underlying buffer, holds exactly when `b <= e <= |buf|` |
| Ranges.Range.Size | folly/Range.h:200-203 | the size of a valid view is the number of elements it shows |
| Ranges.Range.Empty | folly/Range.h:208 | a view is empty exactly when it shows no elements |
| Ranges.Range.Front | folly/Range.h:215-226 | on a non-empty view, `front` is its first element |
| Ranges.Range.Back | folly/Range.h:219-230 | on a non-empty view, `back` is its last element |
| Ranges.Range.Get | folly/Range.h:248-256 | `operator[]` may only be called with `i < size()`, and then yields the i-th element |
| Ranges.Range.At | folly/Range.h:258-266 | `at` succeeds exactly when `i < size()`, yields the i-th element, and otherwise reports out-of-range |
| Ranges.Range.Advance | folly/Range.h:279-282 | `advance(n)` needs `n <= size()`, moves only the begin, shrinks the size by exactly `n` and drops the first `n` elements |
| Ranges.Range.Subtract | folly/Range.h:284-287 | `subtract(n)` needs `n <= size()`, moves only the end, shrinks the size by exactly `n` and drops the last `n` elements |
| Ranges.Range.PopFront | folly/Range.h:289-292 | `pop_front` needs a non-empty view and drops exactly its first element |
| Ranges.Range.PopBack | folly/Range.h:294-297 | `pop_back` needs a non-empty view and drops exactly its last element |
| Ranges.Range.Subpiece | folly/Range.h:299-304 | `subpiece(first, length)` needs `first <= size()`, begins `first` elements in, has size `min(length, size() - first)` and shows exactly that slice |
| Ranges.Range.SubpieceToEnd | folly/Range.h:299-304 | `subpiece(first)` with the default length shows everything from `first` to the end |
| Ranges.MakeRange | folly/Range.h:133-137 | a view built from two positions with `start <= end` is valid and shows the elements between them |
| Ranges.FromStartSize | folly/Range.h:140-141 | a view built from a start and a size shows exactly `size` elements from `start` |
| Ranges.FromOwned | folly/Range.h:150-154 | a view of an owned string from `startFrom <= size` shows the string's tail from `startFrom` |
| Ranges.OwnedSizedCheckAsWritten | folly/Range.h:159 | the C++ check `startFrom + size <= str.size()`, computed in `size_t`, accepts every request that fits |
| Ranges.OwnedSizedCheckAdmitsOverflow | folly/Range.h:156-162 | the as-written check also accepts `str = "ab"`, `startFrom = 1`, `size = npos`, a request that does not fit |
| Ranges.OwnedSizedCheck | folly/Range.h:159 | the corrected check holds exactly when `startFrom + size <= str.size()` over the integers |
| Ranges.OwnedSizedChecksAgreeWithoutWrap | folly/Range.h:159 | the two checks agree on every request whose `size_t` sum does not wrap |
| Ranges.FromOwnedSized | folly/Range.h:156-162 | a view of `size` elements of an owned string from `startFrom` shows exactly that slice |
| Ranges.AtAgreesWithGet | folly/Range.h:248-266 | `at` and `operator[]` return the same element wherever `operator[]` is allowed |
| Ranges.FrontBackAreEnds | folly/Range.h:215-230 | `front` is element 0 and `back` is element `size() - 1` |
| Ranges.AdvanceComposes | folly/Range.h:279-297 | advancing by `m` then by `n` is advancing by `m + n`; `pop_front` is `advance(1)` and `pop_back` is `subtract(1)` |
| Ranges.SubpieceIsAdvanceThenSubtract | folly/Range.h:299-304 | `subpiece` is `advance(first)` followed by a `subtract` of whatever lies beyond `length` |
| Comparators.ToUpper | folly/Range.h:527-531 | upper-casing leaves no lower-case letter, changes exactly the lower-case letters, and maps each one to its capital |
| Comparators.AsciiCaseSensitive | folly/Range.h:521-525 | two bytes are case-sensitively equal exactly when they are the same byte, and such bytes are also case-insensitively equal |
| Comparators.AsciiCaseInsensitive | folly/Range.h:527-531 | two bytes are case-insensitively equal exactly when they are the same byte or the lower- and upper-case forms of one ASCII letter (32 apart) |
| Comparators.CaseSensitiveIsEquivalence | folly/Range.h:521-525 | `AsciiCaseSensitive` is reflexive, symmetric and transitive |
| Comparators.CaseInsensitiveIsEquivalence | folly/Range.h:527-531 | `AsciiCaseInsensitive` is reflexive, symmetric and transitive |
| Ordering.TraitsCompare | folly/Range.h:243 | comparing the first `n` bytes gives -1, 0 or 1 as those prefixes are lexicographically less, equal or greater |
| Ordering.Compare | folly/Range.h:239-246 | `compare` is negative, zero or positive exactly as the left view's elements are lexicographically before, equal to or after the right's, with a proper prefix first |
| Ordering.Equal | folly/Range.h:376-379 | `operator==` holds exactly when the two views show the same elements |
| Ordering.Less | folly/Range.h:381-384 | `operator<` holds exactly when the left view's elements are lexicographically before the right's |
| Ordering.LessIsStrictTotalOrder | folly/Range.h:381-384 | `operator<` is irreflexive, asymmetric and transitive, and any two views are `<`, `==` or `>` |
| Ordering.CompareAntisymmetric | folly/Range.h:239-246 | swapping the operands of `compare` flips its sign |
| Ordering.LexLessIrreflexive | folly/Range.h:239-246 | no byte sequence is lexicographically before itself |
| Ordering.LexLessTransitive | folly/Range.h:239-246 | lexicographic order is transitive |
| Ordering.LexLessTrichotomy | folly/Range.h:239-246 | two different byte sequences are ordered one way or the other, never both |
| Ordering.LexLessDecidedByPrefix | folly/Range.h:242-243 | when two sequences differ within their first `min` bytes, those bytes alone decide the order |
| Ordering.LexLessOfPrefix | folly/Range.h:244 | when one sequence is a prefix of the other, the shorter comes first |
| Hashing.HashStep | folly/Range.h:274 | one hash step is `h * 33 + c` reduced to 32 bits, and always fits in `uint32_t` |
| Hashing.HashFromSnoc | folly/Range.h:272-276 | appending one byte to a key updates its hash by exactly one step |
| Hashing.HashRange | folly/Range.h:269-277 | every hash fits in `uint32_t`, and the empty view hashes to 5381 |
| Hashing.ShiftLeft5 | folly/Range.h:274 | `x << 5` on `uint32_t` is `x * 32` with the top five bits of `x` discarded, and exactly `x * 32` when those bits are clear |
| Hashing.Add | folly/Range.h:274 | `+` on `uint32_t` is the integer sum when it fits, and otherwise the sum less 2^32 |
| Hashing.ShiftAddIsStep | folly/Range.h:274 | the C++ step `((hash << 5) + hash) + c` on `uint32_t` equals `(h * 33 + c) mod 2^32` |
| Hashing.Hash | folly/Range.h:269-277 | `hash()` returns the Bernstein fold of the view's bytes from seed 5381 |
| Hashing.EqualViewsHashEqually | folly/Range.h:456-460 | views that are `==` have the same hash, as a hash-table key requires |
| Search.FirstMatchIsLeftmost | folly/Range.h:48-51 | the reference search returns exactly the leftmost occurrence at or after its start, or `None` exactly when there is none |
| Search.ComputeSkip | folly/Range.h:502-507 | the lazily computed skip lies in `1..nsize`; it is the distance back to the nearest earlier needle element equivalent to the last one, or `nsize` when there is none |
| Search.SkipNeverJumpsMatch | folly/Range.h:479-508 | under an equivalence, after the last element matched at offset `i`, no offset strictly between `i` and `i + skip` is an occurrence |
| Search.NoMatchAfterSkip | folly/Range.h:497-509 | after a failed verification at `i`, no offset below `i + skip` is an occurrence |
| Search.NoMatchStep | folly/Range.h:489-494 | an offset whose last-element probe fails is not an occurrence, so no occurrence lies below the next offset the probe loop tries |
| Search.NoMatchAnywhere | folly/Range.h:490-493 | once every offset that leaves room for the needle has failed, there is no occurrence |
| Search.VerifyAlignment | folly/Range.h:497-516 | the left-to-right loop reports success exactly when the needle matches at offset `i` |
| Search.QFind | folly/Range.h:465-519 | not found when the needle is longer; 0 for the empty needle; every answer is an occurrence; under an equivalence the answer is the leftmost occurrence and not-found means there is none |
| Find.CaseSensitiveMatchIsExact | folly/Range.h:521-525 | under `AsciiCaseSensitive` an element-wise match is an equal slice |
| Find.Shift | folly/Range.h:314 | `ret == npos ? ret : ret + pos` keeps not-found and otherwise adds `pos` |
| Find.MatchesAtSuffix | folly/Range.h:311-315 | an occurrence at `k` in the tail from `pos` is an occurrence at `pos + k` in the whole view |
| Find.FirstMatchInSuffix | folly/Range.h:311-315 | searching the tail from `pos` and adding `pos` is searching the whole view from `pos` |
| Find.QFindDefault | folly/Range.h:536-540 | two-argument `qfind` returns the leftmost exact occurrence, or not-found exactly when there is none |
| Find.QFindElement | folly/Range.h:542-546 | single-element `qfind` equals `qfind` with a one-element needle: the first index holding `c`, or not-found exactly when `c` does not occur |
| Find.Find | folly/Range.h:307-309 | `find(str)` is the leftmost exact occurrence of `str` |
| Find.FindFrom | folly/Range.h:311-315 | `find(str, pos)` is not-found when `pos > size()`, and otherwise the leftmost exact occurrence at or after `pos` |
| Find.FindBuffer | folly/Range.h:317-321 | `find(s, pos, n)` behaves as `find(str, pos)` with the `n` elements from `s` as needle |
| Find.FindElement | folly/Range.h:333-335 | `find(c)` is the first index holding `c`, or not-found exactly when `c` does not occur |
| Find.FindElementFrom | folly/Range.h:337-341 | `find(c, pos)` is not-found when `pos > size()`, and otherwise the first index at or after `pos` holding `c` |
| SearchExamples.SearchRepeatedElements | folly/Range.h:465-519 | `qfind` finds "aaa" in "aaaaa" at 0 |
| SearchExamples.SearchLongerNeedle | folly/Range.h:471-474 | `qfind` does not find "abcd" in the shorter "abc" |
| SearchExamples.SearchEmptyInEmpty | folly/Range.h:471-475 | `qfind` finds the empty needle at 0 in the empty haystack |
| SearchExamples.SearchIgnoringCase | folly/Range.h:521-531 | `qfind` with `AsciiCaseInsensitive` finds "abc" in "ABC" at 0; the default case-sensitive search finds nothing |
| SearchExamples.SearchPastPartialMatches | folly/Range.h:465-519 | `qfind` finds "abcde" in "abcxabcdabcdabcde" at 12, past the partial matches at 0, 4 and 8 |
| SearchExamples.SkipOfDistinctNeedle | folly/Range.h:502-507 | the skip for "abc", whose last element does not recur, is the whole needle length 3 |
| SearchExamples.SearchThroughSkip | folly/Range.h:487-516 | `qfind` finds "abc" in "xbcabc" at 3: verification at 0 fails, and the skip of 3 passes over no occurrence |
| SearchExamples.FindFromOffsets | folly/Range.h:311-315 | `find("abc", pos)` on "abcabc" gives 0 from 0, 3 from 1, and nothing from a position past the end |

## Left out

- The forward-iterator reachability check with its `LOG_EVERY_N` logging, and the `value_before` iterator-category dispatch. These are logging and template plumbing. The model uses random-access indices only.
- Construction from `std::string`/`fbstring` without offsets, from a null-terminated string (`strlen`), and the conversions `str`/`fbstr`. These involve foreign owning types. A view is built from a `seq` and bounds instead. The `fbstring` constructors with offsets are the same as their `std::string` twins, which `FromOwned` and `FromOwnedSized` model.
- `find(const Iter s)` and `find(const Iter s, pos)`. Their needle is measured with `strlen`. Once it is measured they are `Find` and `FindFrom`.
- `clear`, `assign`, `reset`, `swap` and the free `swap`. They overwrite or exchange a view's two positions and check nothing. Two of them can leave a view that breaks the invariant the rest of the model keeps:
  - `clear` (folly/Range.h:180-183) sets both positions to a default-constructed iterator, which is a null pointer for `StringPiece`. The result is an empty view that belongs to no buffer, and positions into no buffer have no counterpart here.
  - `assign` (folly/Range.h:185-188) stores its two positions without the reachability assert that the two-position constructor makes (folly/Range.h:135). It can therefore store `start > end`. `size()` would then trip its assert, and a release build would wrap the difference. The model cannot construct such a view, because every view satisfies `Valid()`.
  - `reset` is `FromStartSize`, and `swap` exchanges two values.
- `walk_size`, `data`, `begin`, `end`, `cbegin`, `cend`. With random-access positions these are `Size` and the fields `b` and `e`.
- `operator<<` to `std::ostream`. This is stream output.
- The `ComparableAsStringPiece` overloads and `boost::totally_ordered`. These are type-level dispatch. The derived `>`, `<=`, `>=` add no behaviour beyond `Less` and `Equal`, whose order properties `LessIsStrictTotalOrder` states.
- Locale-dependent `toupper`. Only the "C"-locale ASCII mapping is modelled.
- Signed `char` effects in `hash` and `compare`. Elements are unsigned bytes.
- Ordering.Compare: the tie-break `tsize - osize` is an unbounded integer. The C++ narrows it to `int`, which can give the wrong sign, or 0, when the sizes differ by 2^31 or more. Only the sign for sizes that fit is modelled.
- Ordering.TraitsCompare: `char_traits::compare` may return any negative or positive value. The model returns -1 or 1, since callers use only the sign.
- The past-the-end position `i += skip` can produce. The model uses plain index arithmetic, where the value is harmless.
- `FOLLY_ASSUME_FBVECTOR_COMPATIBLE_1` and the `extern` comparator singletons. These are linkage and relocation traits.

## Findings

| source | as written | input that shows it | evidently intended | confidence | as-written member | corrected member |
|---|---|---|---|---|---|---|
| folly/Range.h:159 | `CHECK_LE(startFrom + size, str.size())` adds in `size_t` (the `fbstring` twin at folly/Range.h:175 repeats it), so the sum can wrap and pass the check | `str = "ab"`, `startFrom = 1`, `size = npos`: the sum wraps to 0 and passes. The view's end `b_ + size` then lies before its begin | reject every request with `startFrom + size > str.size()` over the integers, e.g. by checking `startFrom <= str.size() && size <= str.size() - startFrom` | medium (not executed) | Ranges.OwnedSizedCheckAsWritten | Ranges.OwnedSizedCheck |

`OwnedSizedCheckAdmitsOverflow` exhibits the wrapping input. `FromOwnedSized` uses the corrected check.
