/**
 * Two places where the chunk handling of `State::handle_value_chunk` does
 * not do what the transcript is meant to guarantee, each stated once as
 * written and once as evidently intended.
 */
module Findings {

  import opened Results
  import opened Wire
  import opened Encoders
  import opened Events
  import opened StateMachine

  /**
   * As written: a chunk of a message or sequence returns before the
   * absorption, so two chunks that pass the same checks have the same effect
   * whatever bytes they carry.
   */
  lemma NestedChunkContentIgnored(wt: WireType, r: usize, b1: seq<byte>, b2: seq<byte>, newRemaining: usize)
    requires wt == WireType.Message || wt == WireType.Sequence
    requires |b1| == |b2|
    ensures Transition(RemainingState(wt, r), ValueChunk(wt, b1, newRemaining))
         == Transition(RemainingState(wt, r), ValueChunk(wt, b2, newRemaining))
  {
    ChunkOfMessageOrSequence(wt, r, wt, b1, newRemaining);
    ChunkOfMessageOrSequence(wt, r, wt, b2, newRemaining);
  }

  /** The events of a field whose nested message arrives as one chunk. */
  function NestedFieldEvents(tag: Tag, content: seq<byte>): seq<Event>
    requires |content| < U64_LIMIT
  {
    [ FieldHeader(Wire.Header(tag, WireType.Message)),
      LengthDelimiter(WireType.Message, |content|),
      ValueChunk(WireType.Message, content, 0) ]
  }

  /**
   * As written, end to end: two fields whose nested messages have the same
   * length but different content are both accepted and absorb the same
   * bytes, so their digests collide.
   */
  lemma NestedMessageCollision(tag: Tag, c1: seq<byte>, c2: seq<byte>)
    requires |c1| == |c2| < U64_LIMIT
    ensures Run(Initial, NestedFieldEvents(tag, c1)).Ok?
    ensures Run(Initial, NestedFieldEvents(tag, c1)) == Run(Initial, NestedFieldEvents(tag, c2))
  {
    var n := |c1|;
    var h := Wire.Header(tag, WireType.Message);
    var inside := RemainingState(WireType.Message, n);
    var es1, es2 := NestedFieldEvents(tag, c1), NestedFieldEvents(tag, c2);
    ChunkOfMessageOrSequence(WireType.Message, n, WireType.Message, c1, 0);
    NestedChunkContentIgnored(WireType.Message, n, c1, c2, 0);
    assert Transition(State.Header(h), es1[1]).value.next == inside;
    assert es1[1..][1..] == [es1[2]] && es2[1..][1..] == [es2[2]];
    assert es1[..2] == es2[..2];
    assert Run(inside, [es1[2]]) == Run(inside, [es2[2]]) by {
      assert [es1[2]][1..] == [] && [es2[2]][1..] == [];
    }
    assert Run(State.Header(h), es1[1..]) == Run(State.Header(h), es2[1..]);
    assert Run(inside, [es1[2]]).Ok? by {
      assert [es1[2]][1..] == [];
    }
  }

  /**
   * As written: after an accepted message or sequence chunk that leaves
   * bytes to come, the value continues as a bytes value, so a second chunk
   * typed as the nested value itself is rejected.
   */
  lemma NestedSecondChunkRejected(wt: WireType, r: usize, b1: seq<byte>, n: usize, b2: seq<byte>, n2: usize)
    requires wt == WireType.Message || wt == WireType.Sequence
    requires Transition(RemainingState(wt, r), ValueChunk(wt, b1, n)).Ok? && n != 0
    ensures Transition(RemainingState(wt, r), ValueChunk(wt, b1, n)).value.next == State.Bytes(n)
    ensures Transition(State.Bytes(n), ValueChunk(wt, b2, n2)) == Err(Hashing)
  {
    ChunkOfMessageOrSequence(wt, r, wt, b1, n);
  }

  /**
   * Evidently intended: every accepted chunk is absorbed verbatim, the
   * chunks of a message or sequence included, and a value that is not yet
   * complete stays in its own variant. Acceptance and the errors are those
   * of `HandleValueChunk`.
   */
  function HandleValueChunkAbsorbing(s: State, wt: WireType, bytes: seq<byte>, newRemaining: usize): (r: Result<Step>)
    ensures r.Ok? <==> HandleValueChunk(s, wt, bytes, newRemaining).Ok?
    ensures r.Err? ==> r == HandleValueChunk(s, wt, bytes, newRemaining)
    ensures r.Ok? ==> r.value.absorbed == bytes
    ensures r.Ok? ==> !s.Initial? && !s.Header?
    ensures r.Ok? && newRemaining == 0 ==> r.value.next == Initial
    ensures r.Ok? && newRemaining != 0 ==> !s.Initial? && !s.Header? && r.value.next == s.(remaining := newRemaining)
  {
    match HandleValueChunk(s, wt, bytes, newRemaining)
    case Err(e) => Err(e)
    case Ok(_) => Ok(Step(if newRemaining == 0 then Initial else s.(remaining := newRemaining), bytes))
  }

  /** The corrected transition: `Transition` with chunks handled by `HandleValueChunkAbsorbing`. */
  function TransitionAbsorbing(s: State, e: Event): (r: Result<Step>)
    ensures r.Ok? <==> Transition(s, e).Ok?
    ensures r.Err? ==> r == Transition(s, e)
    ensures !e.ValueChunk? ==> r == Transition(s, e)
    ensures e.ValueChunk? && r.Ok? ==> r.value.absorbed == e.bytes
  {
    match e
    case ValueChunk(wt, bytes, newRemaining) => HandleValueChunkAbsorbing(s, wt, bytes, newRemaining)
    case _ => Transition(s, e)
  }

  /** `Run` with the corrected transition. */
  function RunAbsorbing(s: State, es: seq<Event>): Result<Step>
    decreases |es|
  {
    if |es| == 0 then Ok(Step(s, []))
    else
      match TransitionAbsorbing(s, es[0])
      case Err(e) => Err(e)
      case Ok(first) =>
        (match RunAbsorbing(first.next, es[1..])
         case Err(e) => Err(e)
         case Ok(rest) => Ok(Step(rest.next, first.absorbed + rest.absorbed)))
  }

  /**
   * With the intended handling, two accepted chunks of a message or sequence
   * with different content absorb different bytes.
   */
  lemma AbsorbingChunkBindsContent(s: State, wt: WireType, b1: seq<byte>, b2: seq<byte>, newRemaining: usize)
    requires HandleValueChunkAbsorbing(s, wt, b1, newRemaining).Ok?
    requires HandleValueChunkAbsorbing(s, wt, b2, newRemaining).Ok?
    ensures HandleValueChunkAbsorbing(s, wt, b1, newRemaining).value.absorbed == b1
    ensures b1 != b2 ==>
      HandleValueChunkAbsorbing(s, wt, b1, newRemaining).value.absorbed
        != HandleValueChunkAbsorbing(s, wt, b2, newRemaining).value.absorbed
  {
  }

  /**
   * With the intended handling, a field whose nested message arrives as one
   * chunk is accepted and absorbs the length-delimited header followed by
   * the message's bytes.
   */
  lemma NestedMessageAbsorbed(tag: Tag, c: seq<byte>)
    requires |c| < U64_LIMIT
    ensures RunAbsorbing(Initial, NestedFieldEvents(tag, c))
         == Ok(Step(Initial, HashDynamicallySizedValue(tag, WireType.Message, |c|) + c))
  {
    var es := NestedFieldEvents(tag, c);
    var h := State.Header(Wire.Header(tag, WireType.Message));
    var head := HashDynamicallySizedValue(tag, WireType.Message, |c|);
    var inside := RemainingState(WireType.Message, |c|);
    assert TransitionAbsorbing(Initial, es[0]) == Ok(Step(h, []));
    assert TransitionAbsorbing(h, es[1]) == Ok(Step(inside, head));
    assert TransitionAbsorbing(inside, es[2]) == Ok(Step(Initial, c)) by {
      ChunkOfMessageOrSequence(WireType.Message, |c|, WireType.Message, c, 0);
    }
    assert RunAbsorbing(inside, es[2..]) == Ok(Step(Initial, c)) by {
      assert es[2..][1..] == [];
      assert c + [] == c;
    }
    assert es[1..][1..] == es[2..];
    assert RunAbsorbing(h, es[1..]) == Ok(Step(Initial, head + c));
    assert [] + (head + c) == head + c;
  }

  /**
   * With the intended handling, end to end: two one-chunk nested messages
   * under the same tag give the same transcript exactly when their contents
   * are equal. This is the corrected counterpart of `NestedMessageCollision`.
   */
  lemma NestedMessageBindsContent(tag: Tag, c1: seq<byte>, c2: seq<byte>)
    requires |c1| < U64_LIMIT && |c2| < U64_LIMIT
    ensures RunAbsorbing(Initial, NestedFieldEvents(tag, c1)).Ok?
    ensures RunAbsorbing(Initial, NestedFieldEvents(tag, c2)).Ok?
    ensures c1 == c2 <==>
      RunAbsorbing(Initial, NestedFieldEvents(tag, c1)).value.absorbed
        == RunAbsorbing(Initial, NestedFieldEvents(tag, c2)).value.absorbed
  {
    NestedMessageAbsorbed(tag, c1);
    NestedMessageAbsorbed(tag, c2);
    var t1 := HashDynamicallySizedValue(tag, WireType.Message, |c1|) + c1;
    var t2 := HashDynamicallySizedValue(tag, WireType.Message, |c2|) + c2;
    assert t1[18..] == c1 && t2[18..] == c2;
  }

  /**
   * With the intended handling, a nested value may arrive in several chunks
   * typed as the value itself: the second chunk is accepted when it fits,
   * and is absorbed.
   */
  lemma AbsorbingNestedChunksContinue(wt: WireType, r: usize, b1: seq<byte>, n: usize, b2: seq<byte>, n2: usize)
    requires wt == WireType.Message || wt == WireType.Sequence
    requires TransitionAbsorbing(RemainingState(wt, r), ValueChunk(wt, b1, n)).Ok? && n != 0
    requires |b2| <= n && n2 == n - |b2|
    ensures TransitionAbsorbing(RemainingState(wt, r), ValueChunk(wt, b1, n)).value.next == RemainingState(wt, n)
    ensures TransitionAbsorbing(RemainingState(wt, n), ValueChunk(wt, b2, n2))
         == Ok(Step(if n2 == 0 then Initial else RemainingState(wt, n2), b2))
  {
    ChunkOfMessageOrSequence(wt, n, wt, b2, n2);
  }

  /**
   * As written in a release build, where `remaining - bytes.len()` wraps
   * modulo 2^64 instead of panicking.
   */
  function ReleaseCheckChunk(expected: WireType, remaining: usize, wt: WireType, len: nat, newRemaining: usize): Result<()> {
    if wt != expected then Err(Hashing)
    else if (remaining - len) % U64_LIMIT != newRemaining then Err(Hashing)
    else Ok(())
  }

  /**
   * The release-build check agrees with the debug-build one whenever the
   * chunk fits, but accepts a one-byte chunk of a value with nothing left
   * to read by announcing 2^64 - 1 bytes still to come.
   */
  lemma ReleaseAcceptsOverlongChunk(expected: WireType, remaining: usize, wt: WireType, len: nat, newRemaining: usize)
    ensures len <= remaining ==>
      ReleaseCheckChunk(expected, remaining, wt, len, newRemaining) == CheckChunk(expected, remaining, wt, len, newRemaining)
    ensures ReleaseCheckChunk(WireType.Bytes, 0, WireType.Bytes, 1, U64_LIMIT - 1).Ok?
    ensures CheckChunk(WireType.Bytes, 0, WireType.Bytes, 1, U64_LIMIT - 1) == Err(Abort)
  {
  }
}
