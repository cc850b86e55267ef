/**
 * The decoding events the hasher consumes. They are produced by the decoder,
 * which is not part of this model; only their shape matters here.
 */
module Events {

  import opened Wire

  datatype Event =
    | FieldHeader(header: Header)
      /** The length of a length-delimited value became known. */
    | LengthDelimiter(wireType: WireType, length: usize)
    | Bool(boolValue: bool)
    | UInt64(uintValue: u64)
    | SInt64(sintValue: i64)
      /** A piece of a length-delimited value and the count still to come after it. */
    | ValueChunk(wireType: WireType, bytes: seq<byte>, remaining: usize)
    | SequenceHeader(wireType: WireType, length: usize)

  /** True of the three fixed-width value events. */
  predicate IsFixedSizedValue(e: Event) {
    e.Bool? || e.UInt64? || e.SInt64?
  }
}
