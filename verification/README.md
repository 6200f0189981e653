# Streaming response decoder of the chat-completion client

This project models, in Dafny, the streaming decoder of a Rust client for a
chat-completion HTTP API. It also models the small mapping from the server's
response envelope to the library's `Result`.

The decoder is the closure inside `process_streaming_response`. It receives
the fragments of a server-sent event stream, one at a time, and turns them
into response events. Its only state is a carry-over string (`unparsed`).
For each fragment:

- a transport error becomes one `ClientError` item;
- bytes that are not UTF-8 become one `ParsingError` item;
- for text, the carry-over is prepended and cleared, and the combined text
  is split inclusively on the blank-line terminator `"\n\n"`;
- pieces without the `data: ` prefix, and the piece that is exactly
  `data: `, are dropped;
- an unterminated prefixed piece becomes the new carry-over, stored without
  its prefix, and ends the fragment;
- a complete `[DONE]` piece becomes `Done`;
- any other complete piece goes to the JSON parser, and the delta of
  `choices[0]` picks `BeginResponse`, `Content` or `CloseResponse`.

The model:

- `Step` is the closure, a pure function from the carry-over and one
  fragment to an `Outcome`: the new carry-over with the items, or `Abort`.
- `Decode` folds `Step` over a list of fragments.
- The JSON parser is a function parameter.
- The two panics of the original become `Abort`: a payload the parser
  rejects, and a parsed payload with an empty `choices` array.
- `split_inclusive`, `strip_prefix` and `strip_suffix` are modelled on
  `seq<char>`. `SplitInclusive` is proved to be the unique split that
  satisfies a declarative definition.

Modules, one per file:

| module | file | contents |
|---|---|---|
| `Types` | `types.dfy` | the wire and library datatypes |
| `Strings` | `strings.dfy` | the string operations |
| `StreamDecoder` | `stream_decoder.dfy` | `Classify`, `Process`, `Step` and `Decode` |
| `DecoderProperties` | `decoder_properties.dfy` | the general properties of the decoder |
| `DecoderExamples` | `decoder_examples.dfy` | concrete framings, including split events |
| `ServerResponses` | `server_responses.dfy` | the envelope mapping |

An event split across two fragments is lost, unless its payload itself
begins with `data: ` (see `ShortCarryReassembles`). The first part leaves
only the text after `data: ` as carry-over; a cut inside `data: ` leaves no
carry-over at all. When the second part arrives, the reassembled piece no
longer starts with `data: `, so the prefix filter drops it. The model follows the code here, not the library's design
intent that fragmentation should not matter (see `SplitEventIsLost`,
`SplitThreeEventExample` and `FragmentationChangesOutput`).

The design intent also has a malformed payload reported as an error item.
The code panics; the model follows the code with `Abort`.

## Model

| member | source | states |
|---|---|---|
| Strings.StripPrefix | src/client.rs:327 | `strip_prefix` succeeds exactly when the text starts with the prefix, and the text is the prefix followed by the result |
| Strings.StripSuffix | src/client.rs:331 | `strip_suffix` succeeds exactly when the text ends with the suffix, and the text is the result followed by the suffix |
| Strings.FindSpec | src/client.rs:327 | the search used by the split returns the leftmost occurrence of the terminator, and nothing exactly when there is none |
| Strings.SplitInclusive | src/client.rs:327 | `split_inclusive` on the terminator; its contract is given by `SplitInclusiveSplits` and `InclusiveSplitUnique` |
| Strings.SplitInclusiveSplits | src/client.rs:327 | the pieces of `split_inclusive` concatenate to the input; each piece but the last ends at its first terminator; a last piece without a terminator contains none |
| Strings.InclusiveSplitUnique | src/client.rs:327 | any sequence of pieces with those properties is the result of `split_inclusive`: the declarative definition determines the split |
| Strings.SplitAppend | src/client.rs:327 | splitting text that ends on a terminator and then more text gives the pieces of the first followed by the pieces of the second |
| Strings.SplitClosedPrefix | src/client.rs:327 | a piece ending at its first terminator splits to itself and splits off the front of any following text |
| Strings.SplitNoPattern | src/client.rs:327 | non-empty text without a terminator is a single piece |
| StreamDecoder.ChunkOf | src/client.rs:339-356 | the delta of the choice picks the event: role gives `BeginResponse` with that role, content gives `Content` with that text, close gives `CloseResponse`; the index is copied and the result is never `Done` |
| StreamDecoder.Classify | src/client.rs:327-362 | a piece is skipped exactly when it lacks the prefix or is only the prefix; it is carried over exactly when it is prefixed, has more text and lacks the terminator, and the carry-over is the text after the prefix; it emits or panics exactly when it is a complete event; a panic names the chunk after the prefix |
| StreamDecoder.Process | src/client.rs:326-363 | the loop over the pieces emits at most one event per complete event; a non-empty carry-over comes from an unterminated prefixed piece |
| StreamDecoder.MapOk | src/client.rs:365-368 | every event is wrapped in `Ok`, one item per event, in order |
| StreamDecoder.CarryHasNoTerminator | src/client.rs:358-360 | the carry-over taken from the final unterminated piece contains no terminator |
| StreamDecoder.StepError | src/client.rs:303-318 | a transport error yields exactly one `ClientError` item and a non-UTF-8 fragment exactly one `ParsingError` item, both with the carry-over unchanged |
| StreamDecoder.Step | src/client.rs:302-369 | the closure for one fragment; its contract is given by `StepError` for error fragments and by `StepText` for text |
| StreamDecoder.ProcessExact | src/client.rs:326-363 | when only the last piece may lack the terminator, the loop emits exactly one event per complete event unless it panics, and an open last piece with text after `data: ` becomes the carry-over: the `break` never skips a complete event |
| StreamDecoder.StepText | src/client.rs:319-368 | for text that does not panic, every item is `Ok` and there is exactly one item per complete event of carry-over plus text; an open last piece with text after `data: ` becomes the new carry-over, and a non-empty new carry-over is always that piece without its prefix and holds no terminator |
| StreamDecoder.Decode | src/client.rs:300-372 | the stream of items over all fragments, the carry-over threaded from one fragment to the next; its contract is given by `DecodeErrorCount`, `DecodeCarryInvariant` and `DecoderProperties.DecodeAppend` |
| StreamDecoder.DecodeErrorCount | src/client.rs:301-372 | over a whole stream that has not panicked, the error items are exactly one per error fragment |
| StreamDecoder.DecodeCarryInvariant | src/client.rs:301-372 | the carry-over never holds a complete terminator: only an unfinished event is kept between fragments |
| DecoderProperties.DoneNeverParsed | src/client.rs:331-333 | a complete `[DONE]` piece emits `Done` whatever the JSON parser would say: it is never parsed |
| DecoderProperties.EventVariants | src/client.rs:335-356 | for any other complete event, a payload the parser rejects panics, a payload with empty `choices` panics, and otherwise `choices[0]`'s delta and index decide the event; the parser sees the chunk with its terminator |
| DecoderProperties.StepPrependsCarry | src/client.rs:319-325 | a step with a carry-over is the step of the carry-over prepended to the text, from an empty carry-over |
| DecoderProperties.EmptyFragmentErasesCarry | src/client.rs:319-330 | an empty fragment with a carry-over that is not prefixed and holds no terminator emits nothing and leaves an empty carry-over |
| DecoderProperties.OpenPieceCarried | src/client.rs:358-360 | an unterminated piece with text after `data: ` emits nothing and becomes the carry-over, without its prefix |
| DecoderProperties.CutPrefixDropped | src/client.rs:327-330 | text that is only a beginning of `data: ` emits nothing and leaves no carry-over |
| DecoderProperties.UnprefixedPieceDropped | src/client.rs:327 | a complete piece without the prefix is as if absent |
| DecoderProperties.LostFirstPiece | src/client.rs:319-327 | with a carry-over that is neither prefixed nor a beginning of `data: `, the first piece of the combined text is dropped whole |
| DecoderProperties.StepOnePiece | src/client.rs:319-368 | a step whose combined text is one piece does what that piece's action says: nothing, carry-over, one event or a panic |
| DecoderProperties.ClosedPieceStep | src/client.rs:327-362 | text that is one complete piece never carries over, and steps by the piece's action |
| DecoderProperties.ProcessAppend | src/client.rs:327-363 | pieces that never carry over can be processed separately: the events of both parts are joined in order, and the first panic wins |
| DecoderProperties.StepAtEventBoundary | src/client.rs:326-368 | text ending on an event boundary leaves no carry-over, and the items of it followed by more text are its items followed by those of the rest, in split order |
| DecoderProperties.DecodeAppend | src/client.rs:301-372 | decoding is a left fold: later fragments continue from the carry-over earlier ones left, and a panic ends the stream |
| DecoderProperties.DecodeAfterSilent | src/client.rs:301-372 | a fragment that only leaves a carry-over, then a fragment that steps like `g` from it, decodes like `g` alone |
| DecoderProperties.DecodeAtEventBoundary | src/client.rs:301-372 | cutting a fragment at an event boundary changes nothing: the same ending, and the same items unless the single fragment panics |
| DecoderExamples.SingleEvent | src/client.rs:327-362 | a framed event in a fragment of its own either emits its event alone or panics, and leaves no carry-over |
| DecoderExamples.ParsedEventEmits | src/client.rs:335-362 | a framed event whose payload parses to one choice emits exactly that choice's event |
| DecoderExamples.DoneEventEmits | src/client.rs:331-333 | the framed `[DONE]` event alone emits exactly `Done` |
| DecoderExamples.ThreeEventExample | src/client.rs:326-368 | the role, content `Hi` and `[DONE]` events in one fragment yield `BeginResponse(assistant, 0)`, `Content("Hi", 0)`, `Done`, in that order, with no carry-over |
| DecoderExamples.FirstPartOfSplitEvent | src/client.rs:327-360 | the first part of an event cut at any offset emits nothing; it leaves the text after `data: ` as carry-over, or nothing when the cut is inside `data: ` |
| DecoderExamples.SecondPartOfSplitEvent | src/client.rs:319-327 | for a payload without a newline that does not itself begin with `data: `, behind that carry-over the second part of the event is dropped: the step is that of the text after the event |
| DecoderExamples.SplitEventIsLost | src/client.rs:327-360 | for a payload without a newline that does not itself begin with `data: `, an event cut at any offset across two fragments is never emitted: the stream goes on as if it had not been sent |
| DecoderExamples.SplitThreeEventExample | src/client.rs:301-372 | the three-event text cut at any offset inside the content event yields only `BeginResponse(assistant, 0)` and `Done` |
| DecoderExamples.FragmentationChangesOutput | src/client.rs:301-372 | `data: [DONE]` plus the terminator in one fragment yields `Done`; the same text cut after `[DO` yields nothing |
| DecoderExamples.ShortCarryKept | src/client.rs:358-360 | the fragment `data: da` emits nothing and leaves `da` as carry-over |
| DecoderExamples.ShortCarryReassembles | src/client.rs:319-333 | a carry-over shorter than `data: ` can form the prefix again: `data: da` then `ta: [DONE]` plus the terminator yields `Done` |
| ServerResponses.IntoResult | src/client.rs:170-176 | an error envelope becomes `BackendError` with its message and error type copied; a completion becomes `Ok` of that completion, and only it does |
| ServerResponses.IntoResultRecoverable | src/client.rs:170-176 | the mapping loses nothing: the envelope can be recovered from the result |
| ServerResponses.IntoResultInjective | src/client.rs:170-176 | distinct envelopes give distinct results |

## Left out

- Client construction, the authorization header and proxy setup (src/client.rs:34-80): HTTP plumbing.
- Restoring a conversation from JSON or postcard files (src/client.rs:84-123): file I/O and foreign decoders.
- Assembling and posting requests in the send methods (src/client.rs:146-286, 382-476): HTTP plumbing. Only their final envelope match is modelled; it appears identically at src/client.rs:170-176, 243-249, 434-440 and 469-475.
- The conversation history engine behind `new_conversation*` (src/client.rs:128-140): src/converse.rs is not part of this model.
- `error_for_status`, `bytes_stream` and the `map`/`flat_map` wiring of the futures stream (src/client.rs:297-300, 370-374): async plumbing. `Decode` is the fold these perform. Laziness, cancellation and a stream that stops early are not modelled.
- serde's JSON parse and `str::from_utf8` are foreign calls. The parse is the parameter `parse`, which sees the chunk with its trailing terminator, as in the code. A UTF-8 failure is the fragment variant `BadUtf8`, and its message is the fragment's `detail`.
- The panics at src/client.rs:336-339 are the `Abort` outcome. The items already built from that fragment are discarded, and the stream ends; items from earlier fragments stay delivered. The panic message and the process abort are not modelled.
- The completion payload of the non-streamed calls is a type parameter, and error types are strings.
- The `Role` values are taken from the data model; the file that declares them is not part of this model.
- Strings.Find: requires a non-empty pattern. The code only ever splits on `"\n\n"`, so Rust's behaviour for an empty pattern is not modelled.
- Strings.SplitInclusive: requires a non-empty pattern, for the same reason.
- DecoderExamples.SplitEventIsLost: stated for cuts on character boundaries, as are `FirstPartOfSplitEvent`, `SecondPartOfSplitEvent` and `SplitThreeEventExample`. The transport cuts bytes, and a cut inside a multi-byte character makes both halves fail `str::from_utf8` (src/client.rs:311-317), which gives two `ParsingError` items (see `StepError`).
- DecoderExamples.ThreeEventExample: parametric over the JSON text of the first two events. It assumes the parser reads them as the role and content choices, instead of modelling serde on the concrete JSON.
- DecoderExamples.SplitThreeEventExample: parametric over the JSON text in the same way.
