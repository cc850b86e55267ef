/**
 * The transcript state machine (`State` and `State::transition`). A
 * transition either rejects the event or returns the next state together
 * with the bytes to absorb into the digest, so that `Transition` is a pure
 * function and the digest is left to the caller.
 */
module StateMachine {

  import opened Results
  import opened Wire
  import opened Encoders
  import opened Events

  /**
   * Where the hasher is in the event stream. The four length-delimited
   * variants count the content bytes not yet seen.
   */
  datatype State =
    | Initial
    | Header(header: Wire.Header)
    | Bytes(remaining: usize)
    | String(remaining: usize)
    | Message(remaining: usize)
    | Sequence(remaining: usize)

  /** A successful transition: the state to install and the bytes to absorb, in order. */
  datatype Step = Step(next: State, absorbed: seq<byte>)

  /** The state that reads the content of a length-delimited value of type `wt` with `n` bytes to come. */
  function RemainingState(wt: WireType, n: usize): (s: State)
    requires IsLengthDelimited(wt)
    ensures !s.Initial? && !s.Header? && s.remaining == n
    ensures s.Bytes? <==> wt == WireType.Bytes
    ensures s.String? <==> wt == WireType.String
    ensures s.Message? <==> wt == WireType.Message
  {
    match wt
    case Bytes => State.Bytes(n)
    case String => State.String(n)
    case Message => State.Message(n)
    case Sequence => State.Sequence(n)
  }

  /** `State::transition`: dispatch on the kind of event. */
  function Transition(s: State, e: Event): Result<Step> {
    match e
    case FieldHeader(h) => HandleFieldHeader(s, h)
    case LengthDelimiter(wt, length) => HandleLengthDelimiter(s, wt, length)
    case Bool(_) => HandleFixedSizedValue(s, e)
    case UInt64(_) => HandleFixedSizedValue(s, e)
    case SInt64(_) => HandleFixedSizedValue(s, e)
    case ValueChunk(wt, bytes, newRemaining) => HandleValueChunk(s, wt, bytes, newRemaining)
    case SequenceHeader(wt, length) => HandleSequenceHeader(s, wt, length)
  }

  function HandleFieldHeader(s: State, h: Wire.Header): Result<Step> {
    if s == Initial then Ok(Step(State.Header(h), [])) else Err(Hashing)
  }

  /**
   * A wire type that matches the pending header but is not length-delimited
   * reaches an `unreachable!()` in the Rust code: modelled as `Abort`.
   */
  function HandleLengthDelimiter(s: State, wt: WireType, length: usize): Result<Step> {
    if !s.Header? then Err(Hashing)
    else if wt != s.header.wireType then Err(Hashing)
    else if !IsLengthDelimited(wt) then Err(Abort)
    else Ok(Step(RemainingState(wt, length), HashDynamicallySizedValue(s.header.tag, wt, length)))
  }

  /**
   * The header's wire type is not compared with the kind of value: any
   * scalar completes any pending header.
   */
  function HandleFixedSizedValue(s: State, e: Event): Result<Step>
    requires IsFixedSizedValue(e)
  {
    if !s.Header? then Err(Hashing)
    else
      var tag := s.header.tag;
      var out := match e
        case Bool(v) => HashBoolean(tag, v)
        case UInt64(v) => HashUInt64(tag, v)
        case SInt64(v) => HashSInt64(tag, v);
      Ok(Step(Initial, out))
  }

  /**
   * The accounting check of one chunk: the wire type must be `expected`, and
   * `remaining - len` must equal the announced count. The Rust code computes
   * that difference with unchecked `usize` subtraction, which panics in a
   * debug build (and wraps in a release build) when the chunk is longer than
   * `remaining`; this model follows the debug build and answers `Abort`.
   * Because `||` short-circuits, a wrong wire type is rejected before the
   * subtraction happens.
   */
  function CheckChunk(expected: WireType, remaining: usize, wt: WireType, len: nat, newRemaining: usize): Result<()> {
    if wt != expected then Err(Hashing)
    else if len > remaining then Err(Abort)
    else if remaining - len != newRemaining then Err(Hashing)
    else Ok(())
  }

  /**
   * Chunks of a bytes or string value are absorbed verbatim. A chunk of a
   * message or sequence returns early, before the absorption, and the value
   * continues as a bytes value.
   */
  function HandleValueChunk(s: State, wt: WireType, bytes: seq<byte>, newRemaining: usize): Result<Step> {
    match s
    case Bytes(remaining) =>
      (match CheckChunk(WireType.Bytes, remaining, wt, |bytes|, newRemaining)
       case Err(e) => Err(e)
       case Ok(_) => Ok(Step(if newRemaining == 0 then Initial else State.Bytes(newRemaining), bytes)))
    case String(remaining) =>
      (match CheckChunk(WireType.String, remaining, wt, |bytes|, newRemaining)
       case Err(e) => Err(e)
       case Ok(_) => Ok(Step(if newRemaining == 0 then Initial else State.String(newRemaining), bytes)))
    case Message(remaining) =>
      (match CheckChunk(WireType.Message, remaining, wt, |bytes|, newRemaining)
       case Err(e) => Err(e)
       case Ok(_) => Ok(Step(if newRemaining == 0 then Initial else State.Bytes(newRemaining), [])))
    case Sequence(remaining) =>
      (match CheckChunk(WireType.Sequence, remaining, wt, |bytes|, newRemaining)
       case Err(e) => Err(e)
       case Ok(_) => Ok(Step(if newRemaining == 0 then Initial else State.Bytes(newRemaining), [])))
    case _ => Err(Hashing)
  }

  /** A placeholder in the Rust code: every state passes through unchanged. */
  function HandleSequenceHeader(s: State, wt: WireType, length: usize): Result<Step> {
    Ok(Step(s, []))
  }

  /**
   * Runs a sequence of events from `s`, stopping at the first rejection.
   * On success the result holds the final state and everything absorbed.
   */
  function Run(s: State, es: seq<Event>): Result<Step>
    decreases |es|
  {
    if |es| == 0 then Ok(Step(s, []))
    else
      match Transition(s, es[0])
      case Err(e) => Err(e)
      case Ok(first) =>
        (match Run(first.next, es[1..])
         case Err(e) => Err(e)
         case Ok(rest) => Ok(Step(rest.next, first.absorbed + rest.absorbed)))
  }

  /** Running two event sequences one after the other is running their concatenation. */
  lemma {:induction false} RunAppend(s: State, a: seq<Event>, b: seq<Event>)
    ensures Run(s, a + b) ==
      match Run(s, a)
      case Err(e) => Err(e)
      case Ok(first) =>
        (match Run(first.next, b)
         case Err(e) => Err(e)
         case Ok(rest) => Ok(Step(rest.next, first.absorbed + rest.absorbed)))
    decreases |a|
  {
    if |a| == 0 {
      assert a + b == b;
      match Run(s, b)
      case Err(_) =>
      case Ok(rest) => assert [] + rest.absorbed == rest.absorbed;
    } else {
      assert (a + b)[0] == a[0];
      assert (a + b)[1..] == a[1..] + b;
      match Transition(s, a[0])
      case Err(_) =>
      case Ok(first) =>
        RunAppend(first.next, a[1..], b);
        match Run(first.next, a[1..])
        case Err(_) =>
        case Ok(mid) =>
          match Run(mid.next, b)
          case Err(_) =>
          case Ok(last) =>
            assert first.absorbed + (mid.absorbed + last.absorbed) == (first.absorbed + mid.absorbed) + last.absorbed;
    }
  }

  /** A field header is accepted only from `Initial`; it latches the header and absorbs nothing. */
  lemma FieldHeaderTransition(s: State, h: Wire.Header)
    ensures Transition(s, FieldHeader(h)).Ok? <==> s == Initial
    ensures s == Initial ==> Transition(s, FieldHeader(h)) == Ok(Step(State.Header(h), []))
    ensures s != Initial ==> Transition(s, FieldHeader(h)) == Err(Hashing)
  {
  }

  /**
   * A length delimiter is accepted only right after a header that declared
   * the same, length-delimited, wire type. It absorbs the 18-byte frame
   * `[TAG_PREFIX] ++ LE8(tag) ++ [code] ++ LE8(length)` and enters the
   * matching content state with `length` bytes to come.
   */
  lemma LengthDelimiterTransition(s: State, wt: WireType, length: usize)
    ensures Transition(s, LengthDelimiter(wt, length)).Ok? <==>
      s.Header? && s.header.wireType == wt && IsLengthDelimited(wt)
    ensures Transition(s, LengthDelimiter(wt, length)) == Err(Abort) <==>
      s.Header? && s.header.wireType == wt && !IsLengthDelimited(wt)
    ensures Transition(s, LengthDelimiter(wt, length)).Ok? ==>
      var step := Transition(s, LengthDelimiter(wt, length)).value;
      && step.absorbed == [TAG_PREFIX] + LE8(s.header.tag) + [Code(wt)] + LE8(length)
      && |step.absorbed| == 18
      && step.next == RemainingState(wt, length)
  {
  }

  /**
   * A scalar is accepted from any `Header` state, whatever wire type the
   * header declared, and from no other state. It absorbs the prefix, the
   * header's tag, the code of the scalar's own kind and the scalar's body,
   * and returns to `Initial`.
   */
  lemma FixedValueTransition(s: State, e: Event)
    requires IsFixedSizedValue(e)
    ensures Transition(s, e).Ok? <==> s.Header?
    ensures !s.Header? ==> Transition(s, e) == Err(Hashing)
    ensures s.Header? ==>
      var step := Transition(s, e).value;
      var frame := [TAG_PREFIX] + LE8(s.header.tag);
      && step.next == Initial
      && (e.Bool? && e.boolValue ==> step.absorbed == frame + [Code(WireType.True)] + [1])
      && (e.Bool? && !e.boolValue ==> step.absorbed == frame + [Code(WireType.False)] + [0])
      && (e.UInt64? ==> step.absorbed == frame + [Code(WireType.UInt64)] + LE8(e.uintValue))
      && (e.SInt64? ==> step.absorbed == frame + [Code(WireType.SInt64)] + LE8(I64Bits(e.sintValue)))
  {
    if s.Header? {
      var tag := s.header.tag;
      var step := Transition(s, e).value;
      match e
      case Bool(v) =>
        assert step.absorbed[..10] + step.absorbed[10..] == step.absorbed;
      case UInt64(v) =>
        assert step.absorbed[..10] + step.absorbed[10..] == step.absorbed;
      case SInt64(v) =>
        assert step.absorbed[..10] + step.absorbed[10..] == step.absorbed;
    }
  }

  /**
   * A chunk of a bytes or string value is accepted exactly when its wire
   * type is the value's and its announced count is the old count minus its
   * length; a chunk longer than the old count aborts. An accepted chunk is
   * absorbed verbatim, without framing, and the value ends when nothing
   * remains.
   */
  lemma ChunkOfBytesOrString(wt: WireType, r: usize, chunkType: WireType, bytes: seq<byte>, newRemaining: usize)
    requires wt == WireType.Bytes || wt == WireType.String
    ensures Transition(RemainingState(wt, r), ValueChunk(chunkType, bytes, newRemaining)).Ok? <==>
      chunkType == wt && |bytes| <= r && r - |bytes| == newRemaining
    ensures Transition(RemainingState(wt, r), ValueChunk(chunkType, bytes, newRemaining)) == Err(Abort) <==>
      chunkType == wt && |bytes| > r
    ensures Transition(RemainingState(wt, r), ValueChunk(chunkType, bytes, newRemaining)).Ok? ==>
      Transition(RemainingState(wt, r), ValueChunk(chunkType, bytes, newRemaining)).value ==
        Step(if newRemaining == 0 then Initial else RemainingState(wt, newRemaining), bytes)
  {
  }

  /**
   * A chunk of a message or sequence passes the same checks, but is not
   * absorbed; the rest of the value is then read as a bytes value.
   */
  lemma ChunkOfMessageOrSequence(wt: WireType, r: usize, chunkType: WireType, bytes: seq<byte>, newRemaining: usize)
    requires wt == WireType.Message || wt == WireType.Sequence
    ensures Transition(RemainingState(wt, r), ValueChunk(chunkType, bytes, newRemaining)).Ok? <==>
      chunkType == wt && |bytes| <= r && r - |bytes| == newRemaining
    ensures Transition(RemainingState(wt, r), ValueChunk(chunkType, bytes, newRemaining)) == Err(Abort) <==>
      chunkType == wt && |bytes| > r
    ensures Transition(RemainingState(wt, r), ValueChunk(chunkType, bytes, newRemaining)).Ok? ==>
      Transition(RemainingState(wt, r), ValueChunk(chunkType, bytes, newRemaining)).value ==
        Step(if newRemaining == 0 then Initial else State.Bytes(newRemaining), [])
  {
  }

  /** A chunk with no length-delimited value open is rejected. */
  lemma ChunkOutsideValueRejected(s: State, e: Event)
    requires s.Initial? || s.Header?
    requires e.ValueChunk?
    ensures Transition(s, e) == Err(Hashing)
  {
  }

  /** A sequence header changes nothing, from every state. */
  lemma SequenceHeaderIsNoOp(s: State, wt: WireType, length: usize)
    ensures Transition(s, SequenceHeader(wt, length)) == Ok(Step(s, []))
  {
  }

  /**
   * Chunk accounting never overruns: an accepted chunk is no longer than the
   * count of the open value, and the count it leaves is exactly the old
   * count minus the chunk's length.
   */
  lemma ChunkNeverOverruns(s: State, e: Event)
    requires e.ValueChunk?
    requires Transition(s, e).Ok?
    ensures !s.Initial? && !s.Header?
    ensures |e.bytes| <= s.remaining
    ensures e.remaining == s.remaining - |e.bytes|
    ensures var next := Transition(s, e).value.next;
      if e.remaining == 0 then next == Initial else !next.Initial? && !next.Header? && next.remaining == e.remaining
  {
  }

  /** `Failed` is reserved for a poisoned hasher: no transition returns it. */
  lemma TransitionNeverFailed(s: State, e: Event)
    ensures Transition(s, e) != Err(Failed)
  {
  }
}
