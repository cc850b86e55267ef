/**
 * Wire vocabulary of the hasher: bytes, the fixed-width integer ranges of
 * the Rust code, wire types with their one-byte codes, field headers, and the
 * little-endian byte encoding used for tags, lengths and integer bodies.
 */
module Wire {

  import opened Results

  type byte = bv8

  const U64_LIMIT: int := 0x1_0000_0000_0000_0000
  const I64_HALF: int := 0x8000_0000_0000_0000

  /** Rust `u64`. */
  type u64 = x: int | 0 <= x < U64_LIMIT

  /** Rust `usize`, on a 64-bit target (so `length as u64` is the identity). */
  type usize = x: int | 0 <= x < U64_LIMIT

  /** Rust `i64`. */
  type i64 = x: int | -I64_HALF <= x < I64_HALF

  /** A field tag, an unsigned 64-bit identifier. */
  type Tag = u64

  /** The closed set of wire types; booleans carry their value in the type. */
  datatype WireType = False | True | UInt64 | SInt64 | Bytes | String | Message | Sequence

  /**
   * The one-byte code of each wire type (`WireType::to_u8`). The concrete
   * numbers are an assumption of this model; every property proved below
   * depends only on the codes being pairwise distinct, which
   * `CodeRoundTrip` states.
   */
  function Code(wt: WireType): byte {
    match wt
    case False => 0
    case True => 1
    case UInt64 => 2
    case SInt64 => 3
    case Bytes => 4
    case String => 5
    case Message => 6
    case Sequence => 7
  }

  /** Reads a wire-type code back; `None` for a byte that is no code. */
  function WireTypeOf(b: byte): Option<WireType> {
    if b == 0 then Some(False)
    else if b == 1 then Some(True)
    else if b == 2 then Some(UInt64)
    else if b == 3 then Some(SInt64)
    else if b == 4 then Some(Bytes)
    else if b == 5 then Some(String)
    else if b == 6 then Some(Message)
    else if b == 7 then Some(Sequence)
    else None
  }

  /** Codes are injective: reading a code back gives its wire type, and a byte read as a wire type is that type's code. */
  lemma CodeRoundTrip(wt: WireType, b: byte)
    ensures WireTypeOf(Code(wt)) == Some(wt)
    ensures WireTypeOf(b) == Some(wt) ==> Code(wt) == b
  {
  }

  /** The one-byte marker written before every tag: the code of `UInt64`. */
  const TAG_PREFIX: byte := Code(UInt64)

  /** A field header: the tag of a field and the wire type it declares. */
  datatype Header = Header(tag: Tag, wireType: WireType)

  /** True of the wire types whose values are length-delimited. */
  predicate IsLengthDelimited(wt: WireType) {
    wt == Bytes || wt == String || wt == Message || wt == Sequence
  }

  function Pow256(n: nat): (p: nat)
    ensures p > 0
  {
    if n == 0 then 1 else 256 * Pow256(n - 1)
  }

  lemma Pow256Eight()
    ensures Pow256(8) == U64_LIMIT
  {
  }

  /** The `n` low-order bytes of `x`, least significant first. */
  function LE(n: nat, x: nat): (s: seq<byte>)
    ensures |s| == n
  {
    if n == 0 then [] else [(x % 256) as byte] + LE(n - 1, x / 256)
  }

  /** The number whose little-endian bytes are `s`. */
  function FromLE(s: seq<byte>): (x: nat)
    ensures x < Pow256(|s|)
  {
    if |s| == 0 then 0
    else
      var rest := FromLE(s[1..]);
      AppendBelow(s[0] as nat, rest, Pow256(|s| - 1));
      s[0] as nat + 256 * rest
  }

  lemma AppendBelow(b: nat, rest: nat, p: nat)
    requires b < 256 && rest < p
    ensures b + 256 * rest < 256 * p
  {
  }

  /** A zero written in any number of bytes is all zero bytes. */
  lemma {:induction false} LEOfZero(n: nat, j: nat)
    requires j < n
    ensures LE(n, 0)[j] == 0
  {
    if j > 0 {
      assert LE(n, 0)[j] == LE(n - 1, 0)[j - 1];
      LEOfZero(n - 1, j - 1);
    }
  }

  /** A value below 256 is written as itself followed by zero bytes. */
  lemma LEOfByte(n: nat, x: nat, j: nat)
    requires x < 256 && j < n
    ensures LE(n, x)[j] == if j == 0 then x as byte else 0
  {
    assert x / 256 == 0 && x % 256 == x;
    if j > 0 {
      assert LE(n, x)[j] == LE(n - 1, x / 256)[j - 1];
      LEOfZero(n - 1, j - 1);
    }
  }

  lemma DivideBelow(x: nat, p: nat)
    requires x < 256 * p
    ensures x / 256 < p
  {
  }

  lemma SplitLowByte(x: nat)
    ensures ((x % 256) as byte) as nat + 256 * (x / 256) == x
  {
  }

  lemma {:induction false} FromLEOfLE(n: nat, x: nat)
    requires x < Pow256(n)
    ensures FromLE(LE(n, x)) == x
  {
    if n > 0 {
      var s := LE(n, x);
      var q := x / 256;
      DivideBelow(x, Pow256(n - 1));
      assert s[1..] == LE(n - 1, q);
      FromLEOfLE(n - 1, q);
      SplitLowByte(x);
    }
  }

  lemma JoinLowByte(b: byte, rest: nat)
    ensures (b as nat + 256 * rest) % 256 == b as nat
    ensures (b as nat + 256 * rest) / 256 == rest
  {
  }

  lemma {:induction false} LEOfFromLE(s: seq<byte>)
    ensures LE(|s|, FromLE(s)) == s
  {
    if |s| > 0 {
      var rest := FromLE(s[1..]);
      var x := FromLE(s);
      assert x == s[0] as nat + 256 * rest;
      JoinLowByte(s[0], rest);
      LEOfFromLE(s[1..]);
      assert LE(|s|, x) == [(x % 256) as byte] + LE(|s| - 1, x / 256);
    }
  }

  /** `x.to_le_bytes()` for a 64-bit `x`. */
  function LE8(x: u64): (s: seq<byte>)
    ensures |s| == 8
    ensures FromLE(s) == x
  {
    Pow256Eight();
    FromLEOfLE(8, x);
    LE(8, x)
  }

  /** `u64::from_le_bytes`: the inverse of `LE8`. */
  function FromLE8(s: seq<byte>): (x: u64)
    requires |s| == 8
    ensures LE8(x) == s
  {
    Pow256Eight();
    LEOfFromLE(s);
    FromLE(s)
  }

  /** The two's-complement bit pattern of a signed 64-bit value (`i64::to_le_bytes` writes these bits). */
  function I64Bits(v: i64): u64 {
    if v >= 0 then v else v + U64_LIMIT
  }

  /** Reads a two's-complement bit pattern back as a signed value. */
  function I64FromBits(u: u64): (v: i64)
    ensures I64Bits(v) == u
  {
    if u < I64_HALF then u else u - U64_LIMIT
  }

  /** Two's complement is a bijection between `i64` and `u64`, and it keeps non-negative values as they are. */
  lemma I64BitsRoundTrip(v: i64)
    ensures I64FromBits(I64Bits(v)) == v
    ensures v >= 0 ==> I64Bits(v) == v
    ensures v < 0 ==> I64Bits(v) >= I64_HALF
  {
  }
}
