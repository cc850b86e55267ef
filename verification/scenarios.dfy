/**
 * Concrete event streams whose transcripts are known byte for byte.
 */
module Scenarios {

  import opened Results
  import opened Wire
  import opened Encoders
  import opened Events
  import opened StateMachine
  import opened Canonical
  import opened Hashers

  /** A tag below 256 is written as itself followed by seven zero bytes. */
  lemma LE8OfSmall(tag: Tag)
    requires tag < 256
    ensures LE8(tag) == [tag as byte, 0, 0, 0, 0, 0, 0, 0]
  {
    var expected: seq<byte> := [tag as byte, 0, 0, 0, 0, 0, 0, 0];
    forall j | 0 <= j < 8
      ensures LE(8, tag)[j] == expected[j]
    {
      LEOfByte(8, tag, j);
    }
  }

  /** Hashing a single field from a fresh hasher leaves exactly that field's canonical bytes in the digest. */
  lemma FeedOneField(f: Field)
    requires ValidField(f)
    ensures Feed(New(), FieldEvents(f)).hasher == Hasher(Some(Initial), FieldBytes(f))
  {
    RunField(f);
    FeedAgreesWithRun(Initial, [], FieldEvents(f));
    assert [] + FieldBytes(f) == FieldBytes(f);
  }

  /** The boolean encoding spelled out as one concatenation. */
  lemma BooleanFrame(tag: Tag, value: bool)
    ensures HashBoolean(tag, value)
         == [TAG_PREFIX] + LE8(tag) + [Code(if value then WireType.True else WireType.False)] + [if value then 0x01 else 0x00]
  {
    var out := HashBoolean(tag, value);
    assert out == out[..10] + [out[10]];
  }

  /** The canonical bytes of a boolean field under a tag below 256, byte by byte. */
  lemma BooleanFieldBytes(tag: Tag, value: bool)
    requires tag < 256
    ensures FieldBytes(ScalarField(tag, BoolValue(value)))
         == [TAG_PREFIX, tag as byte, 0, 0, 0, 0, 0, 0, 0, Code(if value then WireType.True else WireType.False), if value then 0x01 else 0x00]
  {
    var code := Code(if value then WireType.True else WireType.False);
    var body: byte := if value then 0x01 else 0x00;
    assert LE8(tag) == [tag as byte, 0, 0, 0, 0, 0, 0, 0] by {
      LE8OfSmall(tag);
    }
    var frame := [TAG_PREFIX] + LE8(tag) + [code] + [body];
    assert HashBoolean(tag, value) == frame by {
      BooleanFrame(tag, value);
    }
    assert FieldBytes(ScalarField(tag, BoolValue(value))) == frame;
    ByteListOfFrame(tag as byte, LE8(tag), code, body);
  }

  /** Spelling out the concatenation of a boolean frame with a small tag. */
  lemma ByteListOfFrame(t: byte, le: seq<byte>, code: byte, body: byte)
    requires le == [t, 0, 0, 0, 0, 0, 0, 0]
    ensures [TAG_PREFIX] + le + [code] + [body] == [TAG_PREFIX, t, 0, 0, 0, 0, 0, 0, 0, code, body]
  {
  }

  /**
   * A boolean under a tag below 256 (tag 5, say) absorbs the prefix, the
   * tag as eight little-endian bytes, the code of `True` or `False`, and the
   * body `0x01` or `0x00`.
   */
  lemma BooleanTestVector(tag: Tag, value: bool)
    requires tag < 256
    ensures Feed(New(), [FieldHeader(Wire.Header(tag, if value then WireType.True else WireType.False)), Event.Bool(value)]).hasher.transcript
         == [TAG_PREFIX, tag as byte, 0, 0, 0, 0, 0, 0, 0, Code(if value then WireType.True else WireType.False), if value then 0x01 else 0x00]
  {
    var f := ScalarField(tag, BoolValue(value));
    assert FieldEvents(f) == [FieldHeader(Wire.Header(tag, if value then WireType.True else WireType.False)), Event.Bool(value)];
    assert Feed(New(), FieldEvents(f)).hasher.transcript == FieldBytes(f) by {
      FeedOneField(f);
    }
    BooleanFieldBytes(tag, value);
  }

  /** A `u64` field (tag 1, value 42) followed by a three-byte bytes field (tag 2). */
  function ScenarioFields(): (fs: seq<Field>)
    ensures ValidMessage(fs)
  {
    [ScalarField(1, UIntValue(42)), BlobField(2, WireType.Bytes, [0x61, 0x62, 0x63])]
  }

  function ScenarioEvents(lastRemaining: usize): seq<Event> {
    [ FieldHeader(Wire.Header(1, WireType.UInt64)), Event.UInt64(42),
      FieldHeader(Wire.Header(2, WireType.Bytes)), LengthDelimiter(WireType.Bytes, 3),
      ValueChunk(WireType.Bytes, [0x61, 0x62, 0x63], lastRemaining) ]
  }

  /**
   * The stream is accepted: every call succeeds, and the hasher ends in
   * `Initial` with the canonical encoding of both fields absorbed.
   */
  lemma EndToEndAccepted()
    ensures Feed(New(), ScenarioEvents(0)).hasher == Hasher(Some(Initial), Encode(ScenarioFields()))
    ensures forall i :: 0 <= i < 5 ==> Feed(New(), ScenarioEvents(0)).results[i].Ok?
  {
    var fs := ScenarioFields();
    assert MessageEvents(fs) == ScenarioEvents(0) by {
      assert fs[1..][1..] == [];
    }
    FeedMessage(fs);
  }

  /** Hashing the events of any flat message from a fresh hasher: every call succeeds, and the transcript is the message's canonical encoding. */
  lemma FeedMessage(fs: seq<Field>)
    requires ValidMessage(fs)
    ensures Feed(New(), MessageEvents(fs)).hasher == Hasher(Some(Initial), Encode(fs))
    ensures forall i :: 0 <= i < |MessageEvents(fs)| ==> Feed(New(), MessageEvents(fs)).results[i].Ok?
  {
    RunMessage(fs);
    FeedAgreesWithRun(Initial, [], MessageEvents(fs));
    AcceptedRunSucceedsEachCall(Initial, [], MessageEvents(fs));
    assert [] + Encode(fs) == Encode(fs);
  }

  /** A header and a length delimiter of the same bytes or string type open a value of that length. */
  lemma OpenValue(tag: Tag, kind: WireType, n: usize)
    requires kind == WireType.Bytes || kind == WireType.String
    ensures Run(Initial, [FieldHeader(Wire.Header(tag, kind)), LengthDelimiter(kind, n)])
         == Ok(Step(RemainingState(kind, n), HashDynamicallySizedValue(tag, kind, n)))
  {
    var h := Wire.Header(tag, kind);
    var es := [FieldHeader(h), LengthDelimiter(kind, n)];
    var head := HashDynamicallySizedValue(tag, kind, n);
    assert Transition(Initial, es[0]) == Ok(Step(State.Header(h), []));
    assert Transition(State.Header(h), es[1]) == Ok(Step(RemainingState(kind, n), head));
    RunOne(State.Header(h), es[1]);
    assert es[1..] == [es[1]];
    assert [] + head == head;
  }

  /** The first four events of the scenario leave a bytes value with three bytes to come. */
  lemma ScenarioPrefix(lastRemaining: usize)
    ensures Feed(New(), ScenarioEvents(lastRemaining)[..4]).hasher.state == Some(State.Bytes(3))
  {
    var prefix := ScenarioEvents(lastRemaining)[..4];
    var field := ScalarField(1, UIntValue(42));
    var first := FieldEvents(field);
    var second := [FieldHeader(Wire.Header(2, WireType.Bytes)), LengthDelimiter(WireType.Bytes, 3)];
    assert prefix == first + second;
    RunField(field);
    OpenValue(2, WireType.Bytes, 3);
    RunAppend(Initial, first, second);
    FeedAgreesWithRun(Initial, [], prefix);
  }

  /**
   * The same stream with a last chunk that carries all three bytes but
   * announces any count other than zero still to come is rejected at that
   * chunk, and the hasher is poisoned.
   */
  lemma EndToEndRejected(lastRemaining: usize)
    requires lastRemaining != 0
    ensures Feed(New(), ScenarioEvents(lastRemaining)).results[4] == Err(Hashing)
    ensures Feed(New(), ScenarioEvents(lastRemaining)).hasher.state.None?
  {
    var bad := ScenarioEvents(lastRemaining);
    var prefix := bad[..4];
    var last := bad[4];
    assert bad == prefix + [last];
    ScenarioPrefix(lastRemaining);
    ChunkOfBytesOrString(WireType.Bytes, 3, WireType.Bytes, last.bytes, lastRemaining);
    TransitionNeverFailed(State.Bytes(3), last);
    RejectedEventPoisons(New(), prefix, last);
  }
}
