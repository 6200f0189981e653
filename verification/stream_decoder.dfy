/**
 The per-fragment step of the streaming response decoder and its fold over
 the fragments a transport delivers.

 The decoder's only state is the carry-over string `unparsed`. For each
 text fragment the carry-over is prepended and cleared, the combined text
 is split inclusively on the blank-line terminator, every piece without
 the `data: ` prefix is dropped, and every remaining piece is classified:
 an unterminated piece becomes the new carry-over (with the prefix already
 stripped), `[DONE]` becomes `Done`, anything else is handed to the JSON
 parser and its first choice's delta picks the event.

 The JSON parser is a parameter. A payload it rejects, or a payload with an
 empty `choices` array, makes the original panic; here that is the `Abort`
 outcome, which discards everything the fragment had produced so far.
 */
module StreamDecoder {
  import opened Types
  import opened Strings

  const Prefix: string := "data: "
  const Terminator: string := "\n\n"
  const DoneSentinel: string := "[DONE]"

  /** The serde parse of one `InboundResponseChunk`; `None` is a parse failure. */
  type JsonParser = string -> Option<InboundResponseChunk>

  /** What the transport delivers: an error, bytes that are not UTF-8, or text. */
  datatype Fragment = TransportErr(detail: string) | BadUtf8(detail: string) | Text(text: string)

  /** The two panics of the fragment step; each names the offending chunk. */
  datatype Panic = InvalidPayload(chunk: string) | NoChoices(chunk: string)

  /** What the step does with one split piece. */
  datatype PieceAction = Skip | Emit(chunk: ResponseChunk) | Carry(rest: string) | Stop(panic: Panic)

  /** Either the new carry-over with the produced elements, or a panic. */
  datatype Outcome<T> = Continue(carry: string, out: seq<T>) | Abort(panic: Panic)

  /** A prefixed piece that carries its terminator: a complete event. */
  predicate IsCompleteEvent(piece: string) {
    StartsWith(piece, Prefix) && EndsWith(piece, Terminator)
  }

  /** The event chosen by the delta of a streamed choice. */
  function ChunkOf(choice: InboundChoice): (c: ResponseChunk)
    ensures c != Done && c.responseIndex == choice.index
    ensures c.BeginResponse? <==> choice.delta.AnnounceRoles?
    ensures c.Content? <==> choice.delta.StreamContent?
    ensures c.BeginResponse? ==> c.role == choice.delta.role
    ensures c.Content? ==> c.delta == choice.delta.content
  {
    match choice.delta
    case AnnounceRoles(role) => BeginResponse(role, choice.index)
    case StreamContent(content) => Content(content, choice.index)
    case Close => CloseResponse(choice.index)
  }

  lemma {:induction false} PrefixedTerminator(chunk: string)
    requires chunk != ""
    ensures EndsWith(Prefix + chunk, Terminator) <==> EndsWith(chunk, Terminator)
  {
    var piece := Prefix + chunk;
    if |chunk| >= 2 {
      assert piece[|piece| - 2..] == chunk[|chunk| - 2..];
    } else {
      assert piece[|piece| - 2] == ' ';
    }
  }

  /** The body of the `for` loop for one piece of the split text. */
  function Classify(piece: string, parse: JsonParser): (a: PieceAction)
    ensures a.Skip? <==> !StartsWith(piece, Prefix) || piece == Prefix
    ensures a.Carry? <==> StartsWith(piece, Prefix) && piece != Prefix && !EndsWith(piece, Terminator)
    ensures a.Carry? ==> piece == Prefix + a.rest && a.rest != ""
    ensures a.Emit? || a.Stop? <==> IsCompleteEvent(piece)
    ensures a.Stop? ==> a.panic.chunk == piece[|Prefix|..]
  {
    match StripPrefix(piece, Prefix)
    case None => Skip
    case Some(chunk) =>
      if chunk == "" then Skip
      else
        PrefixedTerminator(chunk);
        match StripSuffix(chunk, Terminator)
        case None => Carry(chunk)
        case Some(data) =>
          if data == DoneSentinel then Emit(Done)
          else match parse(chunk)
            case None => Stop(InvalidPayload(chunk))
            case Some(parsed) =>
              if |parsed.choices| == 0 then Stop(NoChoices(chunk))
              else Emit(ChunkOf(parsed.choices[0]))
  }

  /** The number of complete events among the pieces. */
  function CountEvents(pieces: seq<string>): nat {
    if pieces == [] then 0
    else (if IsCompleteEvent(pieces[0]) then 1 else 0) + CountEvents(pieces[1..])
  }

  /** The `for` loop over the pieces: stops at the first carry-over or panic. */
  function Process(pieces: seq<string>, parse: JsonParser): (r: Outcome<ResponseChunk>)
    ensures r.Continue? ==> |r.out| <= CountEvents(pieces)
    ensures r.Continue? && r.carry != "" ==>
      Prefix + r.carry in pieces && !EndsWith(Prefix + r.carry, Terminator)
  {
    if pieces == [] then Continue("", [])
    else match Classify(pieces[0], parse)
      case Skip =>
        Process(pieces[1..], parse)
      case Carry(rest) => Continue(rest, [])
      case Stop(panic) => Abort(panic)
      case Emit(c) =>
        match Process(pieces[1..], parse)
        case Abort(p) => Abort(p)
        case Continue(carry, out) => Continue(carry, [c] + out)
  }

  /** Every piece but the last carries the terminator, as after a split. */
  predicate OnlyLastOpen(pieces: seq<string>) {
    forall k :: 0 <= k < |pieces| - 1 ==> EndsWith(pieces[k], Terminator)
  }

  /** When only the last piece may be open, the loop loses nothing: unless it
      panics it emits exactly one event per complete event, and an open last
      piece with text after `data: ` is always carried over. */
  lemma {:induction false} ProcessExact(pieces: seq<string>, parse: JsonParser)
    requires OnlyLastOpen(pieces)
    ensures var r := Process(pieces, parse);
      && (r.Continue? ==> |r.out| == CountEvents(pieces))
      && (r.Continue? && |pieces| > 0 && Classify(pieces[|pieces| - 1], parse).Carry? ==>
            r.carry == Classify(pieces[|pieces| - 1], parse).rest)
    decreases |pieces|
  {
    if pieces != [] {
      var h := pieces[0];
      var t := pieces[1..];
      assert OnlyLastOpen(t) by {
        forall k | 0 <= k < |t| - 1 ensures EndsWith(t[k], Terminator) {
          assert t[k] == pieces[k + 1];
        }
      }
      ProcessExact(t, parse);
      if |t| > 0 {
        assert EndsWith(h, Terminator);
        assert pieces[|pieces| - 1] == t[|t| - 1];
      }
    }
  }

  function MapOk(chunks: seq<ResponseChunk>): (items: seq<Item>)
    ensures |items| == |chunks|
    ensures forall i :: 0 <= i < |chunks| ==> items[i] == Ok(chunks[i])
  {
    if chunks == [] then [] else [Ok(chunks[0])] + MapOk(chunks[1..])
  }

  /** An unterminated final piece contains no terminator at all, nor does its tail. */
  lemma {:induction false} CarryHasNoTerminator(pieces: seq<string>, carry: string)
    requires IsInclusiveSplit(Flatten(pieces), Terminator, pieces)
    requires |pieces| > 0
    requires pieces[|pieces| - 1] == Prefix + carry
    requires !EndsWith(pieces[|pieces| - 1], Terminator)
    ensures !Contains(carry, Terminator)
  {
    var last := pieces[|pieces| - 1];
    assert PieceOk(pieces, |pieces| - 1, Terminator);
    ClosedEndsWith(last, Terminator);
    assert !Contains(last, Terminator);
    forall j | 0 <= j <= |carry| - |Terminator| ensures !OccursAt(carry, Terminator, j) {
      assert carry == last[|Prefix|..];
      OccursInSuffix(last, Terminator, |Prefix|, j);
    }
  }

  /** The step for one fragment, starting from carry-over `carry`. */
  function Step(carry: string, frag: Fragment, parse: JsonParser): Outcome<Item> {
    match frag
    case TransportErr(e) => Continue(carry, [Err(ClientError(e))])
    case BadUtf8(e) => Continue(carry, [Err(ParsingError(e))])
    case Text(t) =>
      var combined := if carry != "" then carry + t else t;
      match Process(SplitInclusive(combined, Terminator), parse)
      case Abort(p) => Abort(p)
      case Continue(c, chunks) => Continue(c, MapOk(chunks))
  }

  /** An error fragment yields exactly one error item and keeps the carry-over. */
  lemma {:induction false} StepError(carry: string, frag: Fragment, parse: JsonParser)
    requires !frag.Text?
    ensures var r := Step(carry, frag, parse);
      && r.Continue? && r.carry == carry && |r.out| == 1
      && r.out[0] == Err(if frag.TransportErr? then ClientError(frag.detail) else ParsingError(frag.detail))
  {
  }

  /** Only the last piece of a split may lack the terminator. */
  lemma {:induction false} SplitOnlyLastOpen(s: string)
    ensures OnlyLastOpen(SplitInclusive(s, Terminator))
  {
    var pieces := SplitInclusive(s, Terminator);
    SplitInclusiveSplits(s, Terminator);
    forall k | 0 <= k < |pieces| - 1 ensures EndsWith(pieces[k], Terminator) {
      assert PieceOk(pieces, k, Terminator);
      ClosedEndsWith(pieces[k], Terminator);
    }
  }

  /** A text fragment: the old carry-over is prepended and consumed; unless
      the step panics, every item is `Ok` and there is exactly one per complete
      event of the combined text; an open last piece with text after `data: `
      becomes the new carry-over, and a non-empty new carry-over is always
      that piece without its prefix and never holds a terminator. */
  lemma {:induction false} StepText(carry: string, t: string, parse: JsonParser)
    ensures var r := Step(carry, Text(t), parse);
      var pieces := SplitInclusive(carry + t, Terminator);
      && (r.Continue? ==> forall i :: 0 <= i < |r.out| ==> r.out[i].Ok?)
      && (r.Continue? ==> |r.out| == CountEvents(pieces))
      && (r.Continue? && |pieces| > 0 && Classify(pieces[|pieces| - 1], parse).Carry? ==>
            r.carry == Classify(pieces[|pieces| - 1], parse).rest)
      && (r.Continue? && r.carry != "" ==>
            && |pieces| > 0
            && pieces[|pieces| - 1] == Prefix + r.carry
            && !Contains(r.carry, Terminator))
  {
    assert carry == "" ==> carry + t == t;
    var pieces := SplitInclusive(carry + t, Terminator);
    SplitInclusiveSplits(carry + t, Terminator);
    var r := Process(pieces, parse);
    SplitOnlyLastOpen(carry + t);
    ProcessExact(pieces, parse);
    if r.Continue? && r.carry != "" {
      var c := r.carry;
      var i :| 0 <= i < |pieces| && pieces[i] == Prefix + c;
      assert i == |pieces| - 1;
      CarryHasNoTerminator(pieces, c);
    }
  }

  /** How a decoding run ends: still waiting with a carry-over, or panicked. */
  datatype Ending = Pending(carry: string) | Panicked(panic: Panic)

  /** Everything delivered to the caller, and how the stream stands afterwards. */
  datatype Decoded = Decoded(items: seq<Item>, ending: Ending)

  function CountErrors(items: seq<Item>): nat {
    if items == [] then 0 else (if items[0].Err? then 1 else 0) + CountErrors(items[1..])
  }

  function CountErrorFragments(frags: seq<Fragment>): nat {
    if frags == [] then 0 else (if frags[0].Text? then 0 else 1) + CountErrorFragments(frags[1..])
  }

  lemma {:induction false} CountErrorsAppend(a: seq<Item>, b: seq<Item>)
    ensures CountErrors(a + b) == CountErrors(a) + CountErrors(b)
    decreases |a|
  {
    if a == [] {
      assert a + b == b;
    } else {
      assert (a + b)[1..] == a[1..] + b;
      CountErrorsAppend(a[1..], b);
    }
  }

  lemma {:induction false} NoErrors(items: seq<Item>)
    requires forall i :: 0 <= i < |items| ==> items[i].Ok?
    ensures CountErrors(items) == 0
    decreases |items|
  {
    if items != [] {
      NoErrors(items[1..]);
    }
  }

  /**
   The stream the caller consumes: the step folded over the fragments. A
   panic ends the stream; what earlier fragments produced stays delivered.
   */
  function Decode(carry: string, frags: seq<Fragment>, parse: JsonParser): Decoded
    decreases |frags|
  {
    if frags == [] then Decoded([], Pending(carry))
    else match Step(carry, frags[0], parse)
      case Abort(p) => Decoded([], Panicked(p))
      case Continue(c, out) =>
        var rest := Decode(c, frags[1..], parse);
        Decoded(out + rest.items, rest.ending)
  }

  /** Every error fragment yields exactly one error item and no text fragment
      yields any, as long as the stream has not panicked. */
  lemma {:induction false} DecodeErrorCount(carry: string, frags: seq<Fragment>, parse: JsonParser)
    ensures var d := Decode(carry, frags, parse);
      d.ending.Pending? ==> CountErrors(d.items) == CountErrorFragments(frags)
    decreases |frags|
  {
    if frags != [] {
      match Step(carry, frags[0], parse)
      case Abort(_) =>
      case Continue(c, out) =>
        DecodeErrorCount(c, frags[1..], parse);
        CountErrorsAppend(out, Decode(c, frags[1..], parse).items);
        if frags[0].Text? {
          StepText(carry, frags[0].text, parse);
          NoErrors(out);
        }
    }
  }

  /** The carry-over never holds a complete terminator: the decoder only ever
      keeps an unfinished event. */
  lemma {:induction false} DecodeCarryInvariant(carry: string, frags: seq<Fragment>, parse: JsonParser)
    requires !Contains(carry, Terminator)
    ensures var d := Decode(carry, frags, parse);
      d.ending.Pending? ==> !Contains(d.ending.carry, Terminator)
    decreases |frags|
  {
    if frags != [] {
      match Step(carry, frags[0], parse)
      case Abort(_) =>
      case Continue(c, out) =>
        if frags[0].Text? {
          StepText(carry, frags[0].text, parse);
        }
        DecodeCarryInvariant(c, frags[1..], parse);
    }
  }
}
