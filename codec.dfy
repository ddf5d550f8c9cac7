/** Fixed-width little-endian integers, the building blocks of the four
    binary index files (document index, document data, term index,
    postings). A file is a sequence of bytes. */
module Codec {

  datatype Option<T> = None | Some(value: T)

  /** One byte of a file or of a C++ `std::string`. */
  type byte = b: int | 0 <= b < 256

  const U16_LIMIT: nat := 0x1_0000
  const U32_LIMIT: nat := 0x1_0000_0000
  const U64_LIMIT: nat := 0x1_0000_0000_0000_0000

  /** 256 to the power k: the number of values k bytes can hold. */
  function Pow256(k: nat): (r: nat)
    ensures r >= 1
  {
    if k == 0 then 1 else 256 * Pow256(k - 1)
  }

  /** The k-byte little-endian representation of n (what writing a
      `uintN_t` through a byte cast produces on the target). */
  function EncodeLE(n: nat, k: nat): (r: seq<byte>)
    requires n < Pow256(k)
    ensures |r| == k
    decreases k
  {
    if k == 0 then [] else [n % 256] + EncodeLE(n / 256, k - 1)
  }

  /** The unsigned integer whose little-endian bytes are s. */
  function DecodeLE(s: seq<byte>): (n: nat)
    ensures n < Pow256(|s|)
  {
    if s == [] then 0 else s[0] + 256 * DecodeLE(s[1..])
  }

  /** Decoding an encoded integer gives the integer back. */
  lemma {:induction false} DecodeEncode(n: nat, k: nat)
    requires n < Pow256(k)
    ensures DecodeLE(EncodeLE(n, k)) == n
    decreases k
  {
    if k > 0 {
      assert n / 256 < Pow256(k - 1);
      DecodeEncode(n / 256, k - 1);
      assert EncodeLE(n, k)[1..] == EncodeLE(n / 256, k - 1);
    }
  }

  /** All-zero bytes encode zero. */
  lemma {:induction false} DecodeZero(s: seq<byte>)
    requires forall k :: 0 <= k < |s| ==> s[k] == 0
    ensures DecodeLE(s) == 0
  {
    if s != [] {
      DecodeZero(s[1..]);
    }
  }

  /** Encoding a decoded integer gives the bytes back. */
  lemma {:induction false} EncodeDecode(s: seq<byte>)
    ensures EncodeLE(DecodeLE(s), |s|) == s
  {
    if s != [] {
      EncodeDecode(s[1..]);
      var n := DecodeLE(s);
      assert n % 256 == s[0] && n / 256 == DecodeLE(s[1..]);
    }
  }

  /** A value below the modulus survives a cast to the narrower type. */
  lemma ModSmall(x: nat, m: nat)
    requires x < m
    ensures x % m == x
  {
  }

  lemma Pow256Values()
    ensures Pow256(2) == U16_LIMIT && Pow256(4) == U32_LIMIT && Pow256(8) == U64_LIMIT
  {
  }

  /** A `uint16_t` as two bytes. */
  function U16(n: nat): (r: seq<byte>)
    requires n < U16_LIMIT
    ensures |r| == 2
  {
    Pow256Values();
    EncodeLE(n, 2)
  }

  /** A `uint32_t` as four bytes. */
  function U32(n: nat): (r: seq<byte>)
    requires n < U32_LIMIT
    ensures |r| == 4
  {
    Pow256Values();
    EncodeLE(n, 4)
  }

  /** A `uint64_t` as eight bytes. */
  function U64(n: nat): (r: seq<byte>)
    requires n < U64_LIMIT
    ensures |r| == 8
  {
    Pow256Values();
    EncodeLE(n, 8)
  }

  /** Reading back a field written by U16, U32 or U64. */
  lemma {:induction false} FixedWidthRoundTrip(n: nat)
    ensures n < U16_LIMIT ==> DecodeLE(U16(n)) == n
    ensures n < U32_LIMIT ==> DecodeLE(U32(n)) == n
    ensures n < U64_LIMIT ==> DecodeLE(U64(n)) == n
  {
    Pow256Values();
    if n < U16_LIMIT { DecodeEncode(n, 2); }
    if n < U32_LIMIT { DecodeEncode(n, 4); }
    if n < U64_LIMIT { DecodeEncode(n, 8); }
  }
}
