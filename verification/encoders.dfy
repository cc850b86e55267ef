/**
 * The canonical byte encoders. Each one returns the exact bytes the Rust
 * function feeds to `Digest::input`, in order; since absorbing is the only
 * thing those functions do, the returned sequence is their whole effect.
 */
module Encoders {

  import opened Results
  import opened Wire

  /**
   * `hash_fixed`: the frame `[TAG_PREFIX] ++ LE8(tag) ++ [code] ++ body`.
   * The contract reads every part of the frame back out of the result.
   */
  function HashFixed(tag: Tag, wt: WireType, body: seq<byte>): (out: seq<byte>)
    ensures |out| == 10 + |body|
    ensures out[0] == TAG_PREFIX
    ensures FromLE8(out[1..9]) == tag
    ensures WireTypeOf(out[9]) == Some(wt)
    ensures out[10..] == body
  {
    var out := [TAG_PREFIX] + LE8(tag) + [Code(wt)] + body;
    assert out[1..9] == LE8(tag);
    CodeRoundTrip(wt, out[9]);
    out
  }

  /** `hash_boolean`: the value is carried by the wire type (`True`/`False`) and repeated as a one-byte body. */
  function HashBoolean(tag: Tag, value: bool): (out: seq<byte>)
    ensures |out| == 11
    ensures out[..10] == [TAG_PREFIX] + LE8(tag) + [Code(if value then True else False)]
    ensures out[10] == (if value then 1 else 0)
  {
    if value then HashFixed(tag, True, [1]) else HashFixed(tag, False, [0])
  }

  /** `hash_uint64`: the body is the value's eight little-endian bytes. */
  function HashUInt64(tag: Tag, value: u64): (out: seq<byte>)
    ensures |out| == 18
    ensures out[..10] == [TAG_PREFIX] + LE8(tag) + [Code(UInt64)]
    ensures FromLE8(out[10..]) == value
  {
    HashFixed(tag, UInt64, LE8(value))
  }

  /** `hash_sint64`: the body is the eight little-endian bytes of the value's two's complement. */
  function HashSInt64(tag: Tag, value: i64): (out: seq<byte>)
    ensures |out| == 18
    ensures out[..10] == [TAG_PREFIX] + LE8(tag) + [Code(SInt64)]
    ensures I64FromBits(FromLE8(out[10..])) == value
  {
    I64BitsRoundTrip(value);
    HashFixed(tag, SInt64, LE8(I64Bits(value)))
  }

  /**
   * `hash_dynamically_sized_value`: the header of a length-delimited value,
   * `[TAG_PREFIX] ++ LE8(tag) ++ [code] ++ LE8(length)`; the content itself
   * is absorbed later, chunk by chunk, by the state machine.
   */
  function HashDynamicallySizedValue(tag: Tag, wt: WireType, length: usize): (out: seq<byte>)
    ensures |out| == 18
    ensures out[..10] == [TAG_PREFIX] + LE8(tag) + [Code(wt)]
    ensures FromLE8(out[10..]) == length
  {
    HashFixed(tag, wt, LE8(length))
  }

  /**
   * Tag and type binding: two frames are equal only when their tags, wire
   * types and bodies are. In particular frames that differ only in tag, or
   * only in wire type, already differ in their first ten bytes.
   */
  lemma HashFixedInjective(t1: Tag, w1: WireType, b1: seq<byte>, t2: Tag, w2: WireType, b2: seq<byte>)
    ensures HashFixed(t1, w1, b1)[..10] == HashFixed(t2, w2, b2)[..10] <==> t1 == t2 && w1 == w2
    ensures HashFixed(t1, w1, b1) == HashFixed(t2, w2, b2) <==> t1 == t2 && w1 == w2 && b1 == b2
  {
    var o1, o2 := HashFixed(t1, w1, b1), HashFixed(t2, w2, b2);
    if o1[..10] == o2[..10] {
      assert o1[1..9] == o1[..10][1..9] && o2[1..9] == o2[..10][1..9];
      assert o1[9] == o1[..10][9] && o2[9] == o2[..10][9];
    }
    if t1 == t2 && w1 == w2 {
      assert o1[..10] == [TAG_PREFIX] + LE8(t1) + [Code(w1)] == o2[..10];
    }
    if o1 == o2 {
      assert o1[..10] == o2[..10];
    }
  }

  /**
   * The boolean encodings of one tag share the prefix and tag bytes and
   * differ both in the wire-type code and in the body byte.
   */
  lemma BooleanEncodingsDiffer(tag: Tag)
    ensures HashBoolean(tag, true)[..9] == HashBoolean(tag, false)[..9]
    ensures HashBoolean(tag, true)[9] != HashBoolean(tag, false)[9]
    ensures HashBoolean(tag, true)[10] != HashBoolean(tag, false)[10]
  {
    var t, f := HashBoolean(tag, true), HashBoolean(tag, false);
    assert t[..9] == t[..10][..9] && f[..9] == f[..10][..9];
    assert t[9] == t[..10][9] && f[9] == f[..10][9];
  }
}
