/**
 * Chunk-boundary invariance: the content of a bytes or string value may be
 * delivered in any number of chunks, and the digest cannot tell how it was
 * split.
 */
module Chunking {

  import opened Results
  import opened Wire
  import opened Events
  import opened StateMachine

  /** The concatenation of the chunks, in order. */
  function Flatten(cs: seq<seq<byte>>): seq<byte> {
    if |cs| == 0 then [] else cs[0] + Flatten(cs[1..])
  }

  /**
   * A split of a value with `r` bytes to come into the non-empty list of
   * chunks `cs`: every chunk fits, and every chunk but the last leaves
   * something to come (otherwise the value would already have ended).
   */
  predicate WellSplit(r: nat, cs: seq<seq<byte>>)
    decreases |cs|
  {
    && |cs| > 0
    && |cs[0]| <= r
    && (|cs| == 1 || (|cs[0]| < r && WellSplit(r - |cs[0]|, cs[1..])))
  }

  /** The chunk events that deliver `cs`, each announcing the count left after it. */
  function ChunkEvents(wt: WireType, r: usize, cs: seq<seq<byte>>): (es: seq<Event>)
    requires WellSplit(r, cs)
    ensures |es| == |cs|
    decreases |cs|
  {
    var next := r - |cs[0]|;
    if |cs| == 1 then [ValueChunk(wt, cs[0], next)]
    else [ValueChunk(wt, cs[0], next)] + ChunkEvents(wt, next, cs[1..])
  }

  /**
   * Delivering the content of a bytes or string value as the chunks `cs`
   * absorbs exactly their concatenation and ends in the same state as
   * delivering that concatenation in one chunk: `Initial` when the value is
   * complete, the same variant with the smaller count otherwise.
   */
  lemma {:induction false} ChunkBoundaryInvariance(wt: WireType, r: usize, cs: seq<seq<byte>>)
    requires wt == WireType.Bytes || wt == WireType.String
    requires WellSplit(r, cs)
    ensures |Flatten(cs)| <= r
    ensures Run(RemainingState(wt, r), ChunkEvents(wt, r, cs))
         == Run(RemainingState(wt, r), [ValueChunk(wt, Flatten(cs), r - |Flatten(cs)|)])
    ensures Run(RemainingState(wt, r), ChunkEvents(wt, r, cs))
         == Ok(Step(if |Flatten(cs)| == r then Initial else RemainingState(wt, r - |Flatten(cs)|), Flatten(cs)))
    decreases |cs|
  {
    var s := RemainingState(wt, r);
    var flat := Flatten(cs);
    var next := r - |cs[0]|;
    var first := ValueChunk(wt, cs[0], next);
    ChunkOfBytesOrString(wt, r, wt, cs[0], next);
    if |cs| == 1 {
      assert flat == cs[0] by { assert Flatten(cs[1..]) == []; }
    } else {
      var es := ChunkEvents(wt, r, cs);
      assert es[0] == first && es[1..] == ChunkEvents(wt, next, cs[1..]);
      ChunkBoundaryInvariance(wt, next, cs[1..]);
      assert flat == cs[0] + Flatten(cs[1..]);
      assert Transition(s, first) == Ok(Step(RemainingState(wt, next), cs[0]));
    }
    SingleChunk(wt, r, flat);
  }

  /** One chunk carrying `bytes`, announcing the exact count left. */
  lemma SingleChunk(wt: WireType, r: usize, bytes: seq<byte>)
    requires wt == WireType.Bytes || wt == WireType.String
    requires |bytes| <= r
    ensures Run(RemainingState(wt, r), [ValueChunk(wt, bytes, r - |bytes|)])
         == Ok(Step(if |bytes| == r then Initial else RemainingState(wt, r - |bytes|), bytes))
  {
    ChunkOfBytesOrString(wt, r, wt, bytes, r - |bytes|);
    var es := [ValueChunk(wt, bytes, r - |bytes|)];
    assert es[1..] == [];
    assert bytes + [] == bytes;
  }
}
