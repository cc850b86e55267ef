# Verihash transcript hasher, modelled in Dafny

This project models the Verihash message hasher of veriform
(`rust/src/decoder/hasher.rs`): a state machine that consumes decoding
events one at a time and either rejects them or feeds canonical bytes into a
digest. The digest is modelled as the append-only sequence of bytes it has
received (its transcript), since `Digest::input` is the only digest
operation the hasher uses. Every property below is therefore a statement
about exact byte sequences.

Modules, in dependency order:

- `Results` (`results.dfy`): `Option`, `Result` and the error kinds. `Hashing`
  is a rejected event, `Failed` is the answer of a poisoned hasher, and
  `Abort` stands for the two places where the Rust code panics.
- `Wire` (`wire.dfy`): bytes, `u64`/`usize`/`i64` ranges, `WireType` and its
  one-byte codes, `TAG_PREFIX`, `Header`, and the little-endian encoding
  `LE8` with its inverse.
- `Encoders` (`encoders.dfy`): `hash_fixed`, `hash_boolean`, `hash_uint64`,
  `hash_sint64` and `hash_dynamically_sized_value`. Each returns the bytes the
  Rust function absorbs, in order.
- `Events` (`events.dfy`): the decoder's `Event` sum type.
- `StateMachine` (`state_machine.dfy`): `State`, `State::transition` and its
  handlers as the pure function `Transition(state, event)`. It returns either
  an error or the next state and the bytes to absorb. `Run` folds it over a
  sequence of events.
- `Chunking` (`chunking.dfy`): chunk-boundary invariance for bytes and
  string values.
- `Canonical` (`canonical.dfy`): flat messages (scalar, bytes and string
  fields), their canonical transcript, and a reader `Parse` that recovers the
  message from its transcript.
- `Hashers` (`hasher.dfy`): `Hasher` as an `Option<State>` plus the
  transcript, `Hasher::new`, `Hasher::hash_event` and poisoning.
- `Scenarios` (`scenarios.dfy`): a boolean test vector and an end-to-end
  event stream.
- `Findings` (`findings.dfy`): two discrepancies in chunk handling. Each is
  stated as written and as evidently intended (see "## Findings").

In three places the code departs from the behaviour Verihash intends for
the transcript. The model follows the code in each:

- Intended: a chunk longer than the bytes still to come is a hashing
  failure, never a panic or a wrap-around. Code: `remaining - bytes.len()`
  is unchecked `usize` subtraction (lines 190, 205, 218, 231). That panics
  in a debug build and wraps in a release build. The model uses the
  debug-build behaviour, and the outcome is `Abort`.
- Intended: a sequence header is accepted only in `Initial` and in the
  remaining-count states. Code: it passes through unchanged from every
  state, `Header` included (lines 253-256).
- Intended: the chunks of a nested message or sequence are absorbed
  verbatim, and the value's own remaining count is updated. Code: it returns
  early (lines 222-228, 235-241). The chunk is not absorbed, and a non-zero
  remainder continues as a `Bytes` value.

## Model

| member | source | states |
|---|---|---|
| `Wire.Code` | rust/src/decoder/hasher.rs:289 | The one-byte code of a wire type. It has no contract of its own and is characterised by `Wire.CodeRoundTrip`. |
| `Wire.CodeRoundTrip` | rust/src/decoder/hasher.rs:289 | Wire-type codes are injective: reading a code back gives its wire type. |
| `Wire.LE8` | rust/src/decoder/hasher.rs:288 | `to_le_bytes` of a 64-bit value gives eight bytes whose little-endian value is the input. |
| `Wire.FromLEOfLE` | rust/src/decoder/hasher.rs:290 | Writing a value below 256^n as n little-endian bytes loses nothing: reading them back gives the value. |
| `Wire.LEOfFromLE` | rust/src/decoder/hasher.rs:296 | Every byte string is the little-endian encoding of exactly one number, so the encoding is onto as well as one-to-one. |
| `Wire.I64BitsRoundTrip` | rust/src/decoder/hasher.rs:276-278 | The two's-complement bits `i64::to_le_bytes` writes determine the signed value, and non-negative values keep their bits. |
| `Encoders.HashFixed` | rust/src/decoder/hasher.rs:294-299 | The frame is 10 + body bytes long, starts with `TAG_PREFIX`, and the tag, wire type and body can each be read back from their positions. |
| `Encoders.HashBoolean` | rust/src/decoder/hasher.rs:260-268 | A boolean is 11 bytes: the frame with the `True` or `False` code, then body `0x01` or `0x00`. |
| `Encoders.HashUInt64` | rust/src/decoder/hasher.rs:271-273 | A `u64` is 18 bytes: the frame with the `UInt64` code, then eight bytes that read back as the value. |
| `Encoders.HashSInt64` | rust/src/decoder/hasher.rs:276-278 | An `i64` is 18 bytes: the frame with the `SInt64` code, then eight bytes that read back, as two's complement, as the value. |
| `Encoders.HashDynamicallySizedValue` | rust/src/decoder/hasher.rs:281-291 | A length-delimited header is 18 bytes: the frame with the value's code, then the length as eight bytes that read back as the length. |
| `Encoders.HashFixedInjective` | rust/src/decoder/hasher.rs:294-299 | Tag and type binding: two frames share their first ten bytes exactly when tag and wire type agree, and are equal exactly when tag, type and body agree. |
| `Encoders.BooleanEncodingsDiffer` | rust/src/decoder/hasher.rs:261-265 | `true` and `false` under one tag share prefix and tag bytes but differ in both the code byte and the body byte. |
| `StateMachine.Transition` | rust/src/decoder/hasher.rs:102-120 | `State::transition`: dispatches each event kind to its handler. It has no contract of its own and is characterised by the per-event lemmas below and by `StateMachine.TransitionNeverFailed`. |
| `StateMachine.HandleFieldHeader` | rust/src/decoder/hasher.rs:123-129 | It has no contract of its own and is characterised by `StateMachine.FieldHeaderTransition`. |
| `StateMachine.HandleLengthDelimiter` | rust/src/decoder/hasher.rs:132-157 | It has no contract of its own and is characterised by `StateMachine.LengthDelimiterTransition`. |
| `StateMachine.HandleFixedSizedValue` | rust/src/decoder/hasher.rs:160-177 | It has no contract of its own and is characterised by `StateMachine.FixedValueTransition`. |
| `StateMachine.CheckChunk` | rust/src/decoder/hasher.rs:189-192 | The per-variant chunk test, repeated at lines 204-206, 218-220 and 231-233. It has no contract of its own and is characterised by `StateMachine.ChunkOfBytesOrString`, `StateMachine.ChunkOfMessageOrSequence` and `StateMachine.ChunkNeverOverruns`. |
| `StateMachine.HandleValueChunk` | rust/src/decoder/hasher.rs:180-250 | It has no contract of its own and is characterised by the chunk lemmas below. |
| `StateMachine.HandleSequenceHeader` | rust/src/decoder/hasher.rs:253-256 | It has no contract of its own and is characterised by `StateMachine.SequenceHeaderIsNoOp`. |
| `StateMachine.Run` | rust/src/decoder/hasher.rs:41-49 | Successive `hash_event` calls on a live hasher, stopping at the first rejection. It has no contract of its own and is characterised by `StateMachine.RunAppend` and `Hashers.FeedAgreesWithRun`. |
| `StateMachine.RunAppend` | rust/src/decoder/hasher.rs:41-49 | Running two event sequences one after the other is running their concatenation, and a rejection in the first stops the whole run. |
| `StateMachine.RemainingState` | rust/src/decoder/hasher.rs:143-149 | A length delimiter enters the remaining-count variant named by its wire type, with the announced length as its count. |
| `StateMachine.FieldHeaderTransition` | rust/src/decoder/hasher.rs:123-129 | A field header is accepted exactly in `Initial`; it latches the header and absorbs nothing; otherwise the result is `Hashing`. |
| `StateMachine.LengthDelimiterTransition` | rust/src/decoder/hasher.rs:132-157 | Accepted exactly after a header of the same length-delimited type. It absorbs the 18 bytes `[TAG_PREFIX] ++ LE8(tag) ++ [code] ++ LE8(length)` and enters the matching variant with `remaining = length`. A matching but non-delimited type aborts. |
| `StateMachine.FixedValueTransition` | rust/src/decoder/hasher.rs:160-177 | A scalar is accepted exactly in a `Header` state, whatever type the header declared. It absorbs prefix, tag, the scalar's own code and its body, and returns to `Initial`. |
| `StateMachine.ChunkOfBytesOrString` | rust/src/decoder/hasher.rs:188-216 | A chunk of a bytes/string value is accepted iff its type matches and `remaining - len == new_remaining`; an overlong chunk aborts. An accepted chunk absorbs exactly its bytes, and the next state is `Initial` at zero or the same variant otherwise. |
| `StateMachine.ChunkOfMessageOrSequence` | rust/src/decoder/hasher.rs:217-242 | A message/sequence chunk passes the same checks but absorbs nothing. A non-zero remainder continues as `Bytes`; zero returns to `Initial`. |
| `StateMachine.ChunkOutsideValueRejected` | rust/src/decoder/hasher.rs:243-245 | A chunk in `Initial` or `Header` is rejected with `Hashing`. |
| `StateMachine.SequenceHeaderIsNoOp` | rust/src/decoder/hasher.rs:253-256 | A sequence header leaves state and transcript unchanged from every state. |
| `StateMachine.ChunkNeverOverruns` | rust/src/decoder/hasher.rs:188-242 | An accepted chunk is no longer than the open value's count, leaves exactly count minus length, and the value ends exactly when that is zero. |
| `StateMachine.TransitionNeverFailed` | rust/src/decoder/hasher.rs:102-120 | No transition returns `Failed`; that error is reserved for a poisoned hasher. |
| `Chunking.ChunkBoundaryInvariance` | rust/src/decoder/hasher.rs:188-250 | Any split of a bytes/string value into chunks with consistent counts absorbs exactly the concatenation and ends in the same state as sending the concatenation as one chunk. |
| `Canonical.RunMessage` | rust/src/decoder/hasher.rs:102-250 | Replaying the events of a flat message from `Initial` succeeds, ends in `Initial`, and absorbs exactly the message's canonical encoding. |
| `Canonical.ParseFieldBytes` | rust/src/decoder/hasher.rs:259-299 | The canonical bytes of any field can be read back as that field, leaving what follows untouched. |
| `Canonical.ParseEncode` | rust/src/decoder/hasher.rs:259-299 | Reading the canonical transcript of a flat message gives back the message. |
| `Canonical.EncodeInjective` | rust/src/decoder/hasher.rs:259-299 | Two flat messages have the same transcript iff they are the same message, so tags, types, lengths and contents are all bound. |
| `Hashers.New` | rust/src/decoder/hasher.rs:56-61 | A fresh hasher is in `Initial` with an empty transcript. |
| `Hashers.HashEvent` | rust/src/decoder/hasher.rs:41-49 | The transcript only grows. A call succeeds iff a state is present and the transition accepts the event. A failure leaves no state and the transcript unchanged. A poisoned hasher answers `Failed`. A success installs the next state and appends exactly the transition's bytes. |
| `Hashers.Feed` | rust/src/decoder/hasher.rs:41-49 | Over any event sequence the transcript only grows, and a poisoned hasher stays exactly as it is. |
| `Hashers.PoisonedFeedFails` | rust/src/decoder/hasher.rs:46-48 | A poisoned hasher answers `Failed` to every event. |
| `Hashers.FailureIsFinal` | rust/src/decoder/hasher.rs:41-49 | After the first failing call the hasher is poisoned. Every later call returns `Failed`, and neither state nor transcript changes again. |
| `Hashers.FeedAgreesWithRun` | rust/src/decoder/hasher.rs:41-49 | A live hasher stays live over a sequence iff `Run` accepts it. It then holds `Run`'s final state and has appended exactly `Run`'s bytes. |
| `Hashers.RejectedEventPoisons` | rust/src/decoder/hasher.rs:42-47 | A rejected event returns the transition's error, empties the state and leaves the transcript as it was. |
| `Scenarios.BooleanTestVector` | rust/src/decoder/hasher.rs:260-268 | For any tag `t` below 256, `FieldHeader` followed by `Bool(v)` leaves exactly `[TAG_PREFIX, t,0,0,0,0,0,0,0, code, 0x01/0x00]` in a fresh hasher's transcript. |
| `Scenarios.EndToEndAccepted` | rust/src/decoder/hasher.rs:188-201 | The stream `FieldHeader(1, UInt64)`, `UInt64(42)`, `FieldHeader(2, Bytes)`, `LengthDelimiter(Bytes, 3)`, `ValueChunk(Bytes, "abc", 0)` is accepted call by call and ends in `Initial` with both fields' canonical bytes. |
| `Scenarios.EndToEndRejected` | rust/src/decoder/hasher.rs:190-192 | The same stream with any non-zero `remaining` on the last chunk is rejected at that chunk with `Hashing`, and the hasher is poisoned. |
| `Findings.NestedChunkContentIgnored` | rust/src/decoder/hasher.rs:217-242 | As written: two equally long message/sequence chunks have the same effect whatever bytes they carry. |
| `Findings.NestedMessageCollision` | rust/src/decoder/hasher.rs:217-229 | As written: two fields whose one-chunk nested messages are equally long but differ are both accepted and absorb the same bytes. |
| `Findings.NestedSecondChunkRejected` | rust/src/decoder/hasher.rs:217-242 | As written: after an accepted message/sequence chunk that leaves bytes to come, the value continues as `Bytes`. A second chunk typed as the nested value is then rejected with `Hashing`. |
| `Findings.HandleValueChunkAbsorbing` | rust/src/decoder/hasher.rs:180-250 | Intended handling: it accepts and rejects exactly like the code, with the same errors. Every accepted chunk is absorbed verbatim. A value that is not yet complete stays in its own variant, and a value that is complete returns to `Initial`. |
| `Findings.AbsorbingChunkBindsContent` | rust/src/decoder/hasher.rs:248 | With the intended handling an accepted chunk absorbs its bytes, so different chunk contents give different transcripts. |
| `Findings.TransitionAbsorbing` | rust/src/decoder/hasher.rs:102-120 | Intended transition: it accepts and rejects exactly the events `Transition` does, with the same errors. It agrees with `Transition` on every event but a chunk, and an accepted chunk absorbs its bytes. |
| `Findings.RunAbsorbing` | rust/src/decoder/hasher.rs:41-49 | `StateMachine.Run` with the intended transition. It has no contract of its own and is characterised by `Findings.NestedMessageAbsorbed`. |
| `Findings.NestedMessageAbsorbed` | rust/src/decoder/hasher.rs:217-248 | With the intended handling, a field whose nested message arrives in one chunk is accepted. It absorbs the 18-byte length-delimited header followed by the message's bytes. |
| `Findings.NestedMessageBindsContent` | rust/src/decoder/hasher.rs:217-248 | With the intended handling, two one-chunk nested messages under one tag give the same transcript exactly when their contents are equal. This is the corrected counterpart of `Findings.NestedMessageCollision`. |
| `Findings.AbsorbingNestedChunksContinue` | rust/src/decoder/hasher.rs:217-242 | With the intended handling, a nested value that is not yet complete stays in its own variant. A second chunk of the same type that fits is accepted and absorbed. |
| `Findings.ReleaseAcceptsOverlongChunk` | rust/src/decoder/hasher.rs:190 | The release-build wrapping check agrees with the debug check when the chunk fits. It accepts a one-byte chunk in a value with 0 bytes left that announces 2^64 - 1 bytes still to come, where the debug check aborts. |

## Left out

- The hash algorithm and the `Digest` trait: the digest is the sequence of bytes it received, because `input` is the only operation the hasher uses. Finalisation is not modelled.
- The concrete `WireType::to_u8` values and the definition of `Tag`: `field` is not part of this model. The codes are taken as `False`=0 to `Sequence`=7, but no property depends on these values beyond their being distinct. A tag is a `u64`, written as eight little-endian bytes. A field header carries only a tag and a wire type.
- `usize` is modelled with the range of a 64-bit target, so `length as u64` is the identity.
- The `Debug` impl for `Hasher` (lines 64-71): formatting only.
- The decoder that produces the events: it is external. `Canonical.FieldEvents` states one plausible event stream per field (a blob's content in one chunk), and `Chunking` covers every other split of bytes and string content.
- The Unicode-normalisation TODO (line 203): no behaviour exists.
- The intended semantics of sequence headers: the code is a placeholder, and the model states only that placeholder.
- Panics: the `unreachable!()` at line 148 and the debug-build subtraction panics are one `Abort` outcome that poisons the hasher like an error. Unwinding is not modelled. The `unreachable!()` at line 170 cannot be reached, because only scalar events are dispatched to that handler.
- Release-build wrap-around of the chunk subtraction appears only in `Findings.ReleaseCheckChunk`. The state machine uses the debug-build check.
- Determinism needs no lemma: every operation is a function of its inputs.
- `Canonical.ParseEncode`: covers flat messages only. As written, nested message and sequence content is not absorbed, so no reader can recover it (see Findings).

## Findings

| source | as written | input that shows it | evidently intended | confidence | as-written member | corrected member |
|---|---|---|---|---|---|---|
| rust/src/decoder/hasher.rs:217-242 | A chunk of a nested message or sequence returns `Ok` before `digest.input(bytes)` at line 248, so its bytes never reach the digest. | `FieldHeader(1, Message)`, `LengthDelimiter(Message, 1)`, `ValueChunk(Message, [0x00], 0)` and the same stream with `[0x01]` are both accepted, with identical transcripts. | Every accepted chunk is absorbed verbatim, as bytes and string chunks are. | medium; not executed | `Findings.NestedMessageCollision` | `Findings.NestedMessageBindsContent` |
| rust/src/decoder/hasher.rs:190 | `remaining - bytes.len()` is unchecked `usize` subtraction. In a release build it wraps. | After `LengthDelimiter(Bytes, 0)` the state is `Bytes{0}`. The chunk `ValueChunk(Bytes, [x], 2^64 - 1)` passes the release-build check and absorbs a byte past the declared length. | A chunk longer than the bytes still to come is never accepted. | medium; not executed | `Findings.ReleaseAcceptsOverlongChunk` | `StateMachine.ChunkNeverOverruns` |
| rust/src/decoder/hasher.rs:225-227 | After a message or sequence chunk that leaves bytes to come, the state becomes `Bytes` (lines 225-227 and 238-240). Only a `Bytes`-typed chunk can continue the value. | `FieldHeader(1, Message)`, `LengthDelimiter(Message, 2)`, `ValueChunk(Message, [0x00], 1)`, `ValueChunk(Message, [0x01], 0)`: the last chunk is rejected with `Hashing`. | A nested value keeps its own variant until it is complete, so chunks typed as the value itself are accepted. | low; not executed, because treating nested content as an opaque byte run may be deliberate | `Findings.NestedSecondChunkRejected` | `Findings.AbsorbingNestedChunksContinue` |

The state machine uses the checked subtraction, so it is the corrected
definition for the second row. For the first and third rows, the state
machine keeps the code's behaviour, because it is what the code does. The
corrected handler, `Findings.HandleValueChunkAbsorbing`, sits beside it.
From any one state it accepts and rejects exactly the same chunks as the
code's handler, and differs only in what a
nested chunk absorbs and in the state an incomplete nested value moves to.
`Findings.TransitionAbsorbing` and `Findings.RunAbsorbing` lift it to whole
event streams.
