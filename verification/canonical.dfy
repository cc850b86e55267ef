/**
 * The canonical form of a flat message (one without nested messages or
 * sequences) and a reader for it. A message is a list of fields; its
 * transcript is what the hasher absorbs while the message's events are
 * replayed. `Parse` reads a transcript back into fields, which shows that
 * the transcript determines the message: tags, wire types, lengths and
 * contents are all bound into it.
 */
module Canonical {

  import opened Results
  import opened Wire
  import opened Encoders
  import opened Events
  import opened StateMachine

  datatype Scalar = BoolValue(b: bool) | UIntValue(u: u64) | SIntValue(i: i64)

  datatype Field =
    | ScalarField(tag: Tag, scalar: Scalar)
    | BlobField(tag: Tag, kind: WireType, content: seq<byte>)

  /** Blobs are bytes or strings whose length fits a `usize`. */
  predicate ValidField(f: Field) {
    f.BlobField? ==> (f.kind == WireType.Bytes || f.kind == WireType.String) && |f.content| < U64_LIMIT
  }

  predicate ValidMessage(fs: seq<Field>) {
    forall i :: 0 <= i < |fs| ==> ValidField(fs[i])
  }

  /** The wire type a decoder reports in the header of a field. */
  function HeaderType(f: Field): WireType {
    match f
    case ScalarField(_, BoolValue(b)) => if b then WireType.True else WireType.False
    case ScalarField(_, UIntValue(_)) => WireType.UInt64
    case ScalarField(_, SIntValue(_)) => WireType.SInt64
    case BlobField(_, kind, _) => kind
  }

  /** The events a decoder emits for one field; a blob's content arrives as one chunk. */
  function FieldEvents(f: Field): seq<Event>
    requires ValidField(f)
  {
    var header := FieldHeader(Wire.Header(f.tag, HeaderType(f)));
    match f
    case ScalarField(_, BoolValue(b)) => [header, Event.Bool(b)]
    case ScalarField(_, UIntValue(u)) => [header, Event.UInt64(u)]
    case ScalarField(_, SIntValue(i)) => [header, Event.SInt64(i)]
    case BlobField(_, kind, c) => [header, LengthDelimiter(kind, |c|), ValueChunk(kind, c, 0)]
  }

  function MessageEvents(fs: seq<Field>): seq<Event>
    requires ValidMessage(fs)
  {
    if |fs| == 0 then [] else FieldEvents(fs[0]) + MessageEvents(fs[1..])
  }

  /** The canonical bytes of one field, as the encoders produce them. */
  function FieldBytes(f: Field): seq<byte>
    requires ValidField(f)
  {
    match f
    case ScalarField(tag, BoolValue(b)) => HashBoolean(tag, b)
    case ScalarField(tag, UIntValue(u)) => HashUInt64(tag, u)
    case ScalarField(tag, SIntValue(i)) => HashSInt64(tag, i)
    case BlobField(tag, kind, c) => HashDynamicallySizedValue(tag, kind, |c|) + c
  }

  function Encode(fs: seq<Field>): seq<byte>
    requires ValidMessage(fs)
  {
    if |fs| == 0 then [] else FieldBytes(fs[0]) + Encode(fs[1..])
  }

  /**
   * Reads one field from the front of a transcript and returns it with the
   * bytes after it; `None` when the front is not a canonical field.
   */
  function ParseField(t: seq<byte>): (r: Option<(Field, seq<byte>)>)
    ensures r.Some? ==> |r.value.1| < |t| && ValidField(r.value.0)
  {
    if |t| < 10 || t[0] != TAG_PREFIX then None
    else
      var tag := FromLE8(t[1..9]);
      var body := t[10..];
      match WireTypeOf(t[9])
      case None => None
      case Some(wt) =>
        if wt == WireType.True || wt == WireType.False then
          var v := wt == WireType.True;
          if |body| >= 1 && body[0] == (if v then 1 else 0) then Some((ScalarField(tag, BoolValue(v)), body[1..]))
          else None
        else if wt == WireType.UInt64 || wt == WireType.SInt64 then
          if |body| < 8 then None
          else
            var bits := FromLE8(body[..8]);
            var scalar := if wt == WireType.UInt64 then UIntValue(bits) else SIntValue(I64FromBits(bits));
            Some((ScalarField(tag, scalar), body[8..]))
        else if wt == WireType.Bytes || wt == WireType.String then
          if |body| < 8 then None
          else
            var n := FromLE8(body[..8]);
            if |body| - 8 < n then None
            else Some((BlobField(tag, wt, body[8..8 + n]), body[8 + n..]))
        else None
  }

  /** Reads a whole transcript as a list of fields. */
  function Parse(t: seq<byte>): Option<seq<Field>>
    decreases |t|
  {
    if |t| == 0 then Some([])
    else
      match ParseField(t)
      case None => None
      case Some((f, rest)) =>
        (match Parse(rest)
         case None => None
         case Some(fs) => Some([f] + fs))
  }

  /** The frame at the front of a field's canonical bytes reads back as its tag and header type. */
  lemma FrameOfFieldBytes(f: Field, rest: seq<byte>)
    requires ValidField(f)
    ensures |FieldBytes(f)| >= 10
    ensures (FieldBytes(f) + rest)[0] == TAG_PREFIX
    ensures FromLE8((FieldBytes(f) + rest)[1..9]) == f.tag
    ensures WireTypeOf((FieldBytes(f) + rest)[9]) == Some(HeaderType(f))
    ensures (FieldBytes(f) + rest)[10..] == FieldBytes(f)[10..] + rest
  {
    var out := FieldBytes(f);
    var t := out + rest;
    var frame := [TAG_PREFIX] + LE8(f.tag) + [Code(HeaderType(f))];
    assert out[..10] == frame;
    assert t[1..9] == frame[1..9] == LE8(f.tag);
    CodeRoundTrip(HeaderType(f), t[9]);
  }

  /** Reading the canonical bytes of a field gives the field back and leaves what follows untouched. */
  lemma ParseFieldBytes(f: Field, rest: seq<byte>)
    requires ValidField(f)
    ensures ParseField(FieldBytes(f) + rest) == Some((f, rest))
  {
    FrameOfFieldBytes(f, rest);
    var out := FieldBytes(f);
    var body := (out + rest)[10..];
    match f
    case ScalarField(tag, BoolValue(b)) =>
      assert body[1..] == rest;
    case ScalarField(tag, UIntValue(u)) =>
      assert body[..8] == out[10..] && body[8..] == rest;
    case ScalarField(tag, SIntValue(i)) =>
      assert body[..8] == out[10..] && body[8..] == rest;
    case BlobField(tag, kind, c) =>
      ParseBlobBytes(tag, kind, c, rest);
  }

  lemma ParseBlobBytes(tag: Tag, kind: WireType, c: seq<byte>, rest: seq<byte>)
    requires ValidField(BlobField(tag, kind, c))
    ensures var body := (FieldBytes(BlobField(tag, kind, c)) + rest)[10..];
      && |body| >= 8 + |c|
      && FromLE8(body[..8]) == |c|
      && body[8..8 + |c|] == c
      && body[8 + |c|..] == rest
  {
    var f := BlobField(tag, kind, c);
    FrameOfFieldBytes(f, rest);
    var head := HashDynamicallySizedValue(tag, kind, |c|);
    var body := FieldBytes(f)[10..] + rest;
    assert FieldBytes(f)[10..] == head[10..] + c;
    assert body[..8] == head[10..];
    assert body[8..8 + |c|] == c;
    assert body[8 + |c|..] == rest;
  }

  /** Reading the transcript of a message gives the message back. */
  lemma {:induction false} ParseEncode(fs: seq<Field>)
    requires ValidMessage(fs)
    ensures Parse(Encode(fs)) == Some(fs)
    decreases |fs|
  {
    if |fs| > 0 {
      var rest := Encode(fs[1..]);
      var t := Encode(fs);
      assert t == FieldBytes(fs[0]) + rest;
      ParseFieldBytes(fs[0], rest);
      FrameOfFieldBytes(fs[0], rest);
      assert ValidMessage(fs[1..]);
      ParseEncode(fs[1..]);
      assert [fs[0]] + fs[1..] == fs;
    }
  }


  /** Canonicity: two messages have the same transcript only if they are the same message. */
  lemma EncodeInjective(fs: seq<Field>, gs: seq<Field>)
    requires ValidMessage(fs) && ValidMessage(gs)
    ensures Encode(fs) == Encode(gs) <==> fs == gs
  {
    ParseEncode(fs);
    ParseEncode(gs);
  }

  /** A run of one event that is accepted. */
  lemma RunOne(s: State, e: Event)
    requires Transition(s, e).Ok?
    ensures Run(s, [e]) == Transition(s, e)
  {
    assert [e][1..] == [];
    assert Transition(s, e).value.absorbed + [] == Transition(s, e).value.absorbed;
  }

  /** Replaying one field's events from `Initial` absorbs its canonical bytes and returns to `Initial`. */
  lemma RunField(f: Field)
    requires ValidField(f)
    ensures Run(Initial, FieldEvents(f)) == Ok(Step(Initial, FieldBytes(f)))
  {
    if f.ScalarField? {
      RunScalarField(f);
    } else {
      RunBlobField(f);
    }
  }

  /** Prepending one accepted event to an accepted run. */
  lemma RunCons(s: State, e: Event, rest: seq<Event>, mid: State, a: seq<byte>, last: State, b: seq<byte>)
    requires Transition(s, e) == Ok(Step(mid, a))
    requires Run(mid, rest) == Ok(Step(last, b))
    ensures Run(s, [e] + rest) == Ok(Step(last, a + b))
  {
    assert ([e] + rest)[0] == e;
    assert ([e] + rest)[1..] == rest;
  }

  lemma RunScalarField(f: Field)
    requires f.ScalarField?
    ensures Run(Initial, FieldEvents(f)) == Ok(Step(Initial, FieldBytes(f)))
  {
    var es := FieldEvents(f);
    var h := State.Header(Wire.Header(f.tag, HeaderType(f)));
    var out := FieldBytes(f);
    assert Transition(h, es[1]) == Ok(Step(Initial, out));
    RunOne(h, es[1]);
    assert Transition(Initial, es[0]) == Ok(Step(h, []));
    RunCons(Initial, es[0], [es[1]], h, [], Initial, out);
    assert es == [es[0]] + [es[1]];
    assert [] + out == out;
  }

  lemma RunBlobField(f: Field)
    requires f.BlobField? && ValidField(f)
    ensures Run(Initial, FieldEvents(f)) == Ok(Step(Initial, FieldBytes(f)))
  {
    var es := FieldEvents(f);
    var h := Wire.Header(f.tag, f.kind);
    var c := f.content;
    var head := HashDynamicallySizedValue(f.tag, f.kind, |c|);
    var inside := RemainingState(f.kind, |c|);
    assert Transition(Initial, es[0]) == Ok(Step(State.Header(h), []));
    assert Transition(State.Header(h), es[1]) == Ok(Step(inside, head));
    ChunkOfBytesOrString(f.kind, |c|, f.kind, c, 0);
    RunOne(inside, es[2]);
    assert es[1..][1..] == [es[2]];
    assert Run(State.Header(h), es[1..]) == Ok(Step(Initial, head + c));
    assert [] + (head + c) == head + c;
  }

  /**
   * Replaying the events of a flat message from `Initial` succeeds, ends in
   * `Initial`, and absorbs exactly the message's canonical encoding.
   */
  lemma {:induction false} RunMessage(fs: seq<Field>)
    requires ValidMessage(fs)
    ensures Run(Initial, MessageEvents(fs)) == Ok(Step(Initial, Encode(fs)))
    decreases |fs|
  {
    if |fs| == 0 {
    } else {
      RunField(fs[0]);
      RunMessage(fs[1..]);
      RunAppend(Initial, FieldEvents(fs[0]), MessageEvents(fs[1..]));
    }
  }
}
