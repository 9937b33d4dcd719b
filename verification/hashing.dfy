/** `Range::hash` and `StringPieceHash`: Bernstein's hash over the viewed bytes. */
module Hashing {
  import opened Comparators
  import opened Ranges
  import opened Ordering

  const HashSeed: nat := 5381
  const TwoTo32: nat := 0x1_0000_0000

  /** One step of the hash on unbounded integers: `h * 33 + c`, reduced to 32 bits. */
  function HashStep(h: nat, c: byte): (r: nat)
    ensures r < TwoTo32
  {
    (h * 33 + c) % TwoTo32
  }

  /** The hash of `s` when the running value is `h` before its first byte. */
  function HashFrom(h: nat, s: seq<byte>): (r: nat)
    decreases |s|
  {
    if |s| == 0 then h else HashFrom(HashStep(h, s[0]), s[1..])
  }

  /** The Bernstein hash of a byte sequence: a left fold of `HashStep` from 5381. */
  function BernsteinHash(s: seq<byte>): (r: nat) {
    HashFrom(HashSeed, s)
  }

  /** Appending a byte costs one step: the hash of `s + [c]` is one `HashStep`
      from the hash of `s`. */
  lemma {:induction false} HashFromSnoc(h: nat, s: seq<byte>, c: byte)
    ensures HashFrom(h, s + [c]) == HashStep(HashFrom(h, s), c)
    decreases |s|
  {
    if |s| > 0 {
      assert (s + [c])[1..] == s[1..] + [c];
      HashFromSnoc(HashStep(h, s[0]), s[1..], c);
    }
  }

  /** Every hash fits in `uint32_t`, and the empty view hashes to the seed. */
  lemma HashRange(s: seq<byte>)
    ensures BernsteinHash(s) < TwoTo32
    ensures s == [] ==> BernsteinHash(s) == HashSeed
  {
    if s != [] {
      assert s == s[..|s| - 1] + [s[|s| - 1]];
      HashFromSnoc(HashSeed, s[..|s| - 1], s[|s| - 1]);
    }
  }

  /** A C++ `uint32_t`. */
  type uint32 = x: int | 0 <= x < TwoTo32

  /** `x << 5` on `uint32_t`: the low 27 bits move up five places, the top
      five bits are lost and the low five bits become zero. */
  function ShiftLeft5(x: uint32): (r: uint32)
    ensures r == (x % 0x800_0000) * 32
    ensures x < 0x800_0000 ==> r == x * 32
  {
    (x * 32) % TwoTo32
  }

  /** `x + y` on `uint32_t`: the sum wraps at most once, past 2^32. */
  function Add(x: uint32, y: uint32): (r: uint32)
    ensures x + y < TwoTo32 ==> r == x + y
    ensures x + y >= TwoTo32 ==> r == x + y - TwoTo32
  {
    (x + y) % TwoTo32
  }

  /** Reducing the left summand first does not change a sum modulo 2^32. */
  lemma ModAddLeft(a: int, b: int)
    ensures (a % TwoTo32 + b) % TwoTo32 == (a + b) % TwoTo32
  {
  }

  /** The C++ step `((hash << 5) + hash) + c` agrees with `HashStep`. */
  lemma ShiftAddIsStep(h: uint32, c: byte)
    ensures Add(Add(ShiftLeft5(h), h), c) == HashStep(h, c)
  {
    ModAddLeft(h * 32, h);
    ModAddLeft(h * 32 + h, c);
  }

  /** `Range::hash()`. */
  method Hash(piece: Range<byte>) returns (hash: uint32)
    requires piece.Valid()
    ensures hash == BernsteinHash(piece.Elements())
  {
    hash := 5381;
    var ix := 0;
    while ix < piece.Size()
      invariant ix <= piece.Size()
      invariant HashFrom(hash, piece.Elements()[ix..]) == BernsteinHash(piece.Elements())
    {
      ShiftAddIsStep(hash, piece.Get(ix));
      assert piece.Elements()[ix..][1..] == piece.Elements()[ix + 1..];
      hash := Add(Add(ShiftLeft5(hash), hash), piece.Get(ix));
      ix := ix + 1;
    }
  }

  /** Views that compare equal hash equally, as a hash-table key requires. */
  lemma EqualViewsHashEqually(a: Range<byte>, b: Range<byte>)
    requires a.Valid() && b.Valid() && Equal(a, b)
    ensures BernsteinHash(a.Elements()) == BernsteinHash(b.Elements())
  {
  }
}
