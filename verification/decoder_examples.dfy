/**
 Consequences of the decoder's definition for concrete framings: complete
 events in one fragment, the worked three-event stream, and what happens
 when one event's text is split across two fragments. The split case is
 stated as the code behaves: the first part leaves only the text after
 `data: ` as carry-over (nothing when the cut is inside `data: `), the
 reassembled piece then fails the prefix filter, and the event is never
 delivered, unless its payload itself begins with `data: `.
 */
module DecoderExamples {
  import opened Types
  import opened Strings
  import opened StreamDecoder
  import opened DecoderProperties

  // ----- complete events -------------------------------------------------------

  /** A single framed event as a whole fragment: it is one closed piece and
      its classification `a` (an event or a panic) decides the step. */
  lemma {:induction false} SingleEvent(payload: string, a: PieceAction, parse: JsonParser)
    requires '\n' !in payload
    requires Classify(Prefix + payload + Terminator, parse) == a
    ensures var event := Prefix + payload + Terminator;
      && AllClosed(SplitInclusive(event, Terminator), Terminator)
      && (a.Emit? || a.Stop?)
      && (a.Emit? ==> Step("", Text(event), parse) == Continue("", [Ok(a.chunk)]))
      && (a.Stop? ==> Step("", Text(event), parse) == Abort(a.panic))
  {
    var event := Prefix + payload + Terminator;
    EventIsClosed(payload);
    ClosedPieceStep(event, a, parse);
    assert event[..|Prefix|] == Prefix;
  }

  /** A framed event whose payload parses to a single choice is a whole step
      that emits that choice's event. */
  lemma {:induction false} ParsedEventEmits(payload: string, choice: InboundChoice, parse: JsonParser)
    requires '\n' !in payload && payload != DoneSentinel
    requires parse(payload + Terminator) == Some(InboundResponseChunk([choice]))
    ensures var event := Prefix + payload + Terminator;
      && AllClosed(SplitInclusive(event, Terminator), Terminator)
      && Step("", Text(event), parse) == Continue("", [Ok(ChunkOf(choice))])
  {
    assert Classify(Prefix + payload + Terminator, parse) == Emit(ChunkOf(choice)) by {
      EventVariants(payload, parse);
    }
    SingleEvent(payload, Emit(ChunkOf(choice)), parse);
  }

  /** The `[DONE]` event alone is a whole step that emits just `Done`. */
  lemma {:induction false} DoneEventEmits(parse: JsonParser)
    ensures var event := Prefix + DoneSentinel + Terminator;
      && AllClosed(SplitInclusive(event, Terminator), Terminator)
      && Step("", Text(event), parse) == Continue("", [Ok(Done)])
  {
    assert '\n' !in DoneSentinel;
    DoneNeverParsed(parse);
    SingleEvent(DoneSentinel, Emit(Done), parse);
  }

  /** Two texts, the first ending on an event boundary, that each leave no
      carry-over: their concatenation emits both outputs, in order. */
  lemma {:induction false} JoinAtEventBoundary(x: string, y: string, ox: seq<Item>, oy: seq<Item>, parse: JsonParser)
    requires AllClosed(SplitInclusive(x, Terminator), Terminator)
    requires Step("", Text(x), parse) == Continue("", ox)
    requires Step("", Text(y), parse) == Continue("", oy)
    ensures Step("", Text(x + y), parse) == Continue("", ox + oy)
  {
    StepAtEventBoundary(x, y, parse);
  }

  // ----- the worked example ----------------------------------------------------

  /** Content followed by `[DONE]`, in one step. */
  lemma {:induction false} ContentThenDone(contentPayload: string, parse: JsonParser)
    requires '\n' !in contentPayload && contentPayload != DoneSentinel
    requires parse(contentPayload + Terminator) ==
      Some(InboundResponseChunk([InboundChoice(0, StreamContent("Hi"))]))
    ensures var e2 := Prefix + contentPayload + Terminator;
      var e3 := Prefix + DoneSentinel + Terminator;
      Step("", Text(e2 + e3), parse) == Continue("", [Ok(Content("Hi", 0)), Ok(Done)])
  {
    var e2 := Prefix + contentPayload + Terminator;
    var e3 := Prefix + DoneSentinel + Terminator;
    ParsedEventEmits(contentPayload, InboundChoice(0, StreamContent("Hi")), parse);
    DoneEventEmits(parse);
    var o2: seq<Item> := [Ok(Content("Hi", 0))];
    var o3: seq<Item> := [Ok(Done)];
    JoinAtEventBoundary(e2, e3, o2, o3, parse);
    assert o2 + o3 == [Ok(Content("Hi", 0)), Ok(Done)];
  }

  /** Three framed events in one step: a role announcement, content and `[DONE]`. */
  lemma {:induction false} ThreeEventStep(rolePayload: string, contentPayload: string, parse: JsonParser)
    requires '\n' !in rolePayload && '\n' !in contentPayload
    requires rolePayload != DoneSentinel && contentPayload != DoneSentinel
    requires parse(rolePayload + Terminator) ==
      Some(InboundResponseChunk([InboundChoice(0, AnnounceRoles(Assistant))]))
    requires parse(contentPayload + Terminator) ==
      Some(InboundResponseChunk([InboundChoice(0, StreamContent("Hi"))]))
    ensures var e1 := Prefix + rolePayload + Terminator;
      var e2 := Prefix + contentPayload + Terminator;
      var e3 := Prefix + DoneSentinel + Terminator;
      Step("", Text(e1 + e2 + e3), parse) ==
        Continue("", [Ok(BeginResponse(Assistant, 0)), Ok(Content("Hi", 0)), Ok(Done)])
  {
    var e1 := Prefix + rolePayload + Terminator;
    var e2 := Prefix + contentPayload + Terminator;
    var e3 := Prefix + DoneSentinel + Terminator;
    var o1: seq<Item> := [Ok(BeginResponse(Assistant, 0))];
    var o23: seq<Item> := [Ok(Content("Hi", 0)), Ok(Done)];
    ParsedEventEmits(rolePayload, InboundChoice(0, AnnounceRoles(Assistant)), parse);
    ContentThenDone(contentPayload, parse);
    JoinAtEventBoundary(e1, e2 + e3, o1, o23, parse);
    assert e1 + e2 + e3 == e1 + (e2 + e3);
    assert o1 + o23 == [Ok(BeginResponse(Assistant, 0)), Ok(Content("Hi", 0)), Ok(Done)];
  }

  /** The worked example: a role announcement, content and `[DONE]` framed in
      one fragment come out as exactly those three items, in order, and the
      stream waits with no carry-over; this holds whatever the JSON text of
      the first two events, provided the parser reads it so. */
  lemma {:induction false} ThreeEventExample(rolePayload: string, contentPayload: string, parse: JsonParser)
    requires '\n' !in rolePayload && '\n' !in contentPayload
    requires rolePayload != DoneSentinel && contentPayload != DoneSentinel
    requires parse(rolePayload + Terminator) ==
      Some(InboundResponseChunk([InboundChoice(0, AnnounceRoles(Assistant))]))
    requires parse(contentPayload + Terminator) ==
      Some(InboundResponseChunk([InboundChoice(0, StreamContent("Hi"))]))
    ensures var e1 := Prefix + rolePayload + Terminator;
      var e2 := Prefix + contentPayload + Terminator;
      var e3 := Prefix + DoneSentinel + Terminator;
      Decode("", [Text(e1 + e2 + e3)], parse) ==
        Decoded([Ok(BeginResponse(Assistant, 0)), Ok(Content("Hi", 0)), Ok(Done)], Pending(""))
  {
    var e1 := Prefix + rolePayload + Terminator;
    var e2 := Prefix + contentPayload + Terminator;
    var e3 := Prefix + DoneSentinel + Terminator;
    ThreeEventStep(rolePayload, contentPayload, parse);
    DecodeOneContinue("", Text(e1 + e2 + e3), "",
      [Ok(BeginResponse(Assistant, 0)), Ok(Content("Hi", 0)), Ok(Done)], parse);
  }

  // ----- events split across fragments -----------------------------------------

  /** No character of `data: ` after the first is a `d`. */
  lemma {:induction false} NoLaterDInPrefix(m: nat)
    requires 0 < m < |Prefix|
    ensures Prefix[m] != 'd'
  {
  }

  /** A framed payload that does not itself start with `data: ` is, once the
      prefix is stripped, no longer prefixed. */
  lemma {:induction false} StrippedEventUnprefixed(payload: string)
    requires '\n' !in payload
    requires !StartsWith(payload, Prefix)
    ensures !StartsWith(payload + Terminator, Prefix)
  {
    var q := payload + Terminator;
    if |Prefix| <= |q| {
      if |payload| >= |Prefix| {
        assert q[..|Prefix|] == payload[..|Prefix|];
      } else {
        assert q[|payload|] == '\n';
        assert Prefix[|payload|] != '\n';
        assert q[..|Prefix|][|payload|] == q[|payload|];
      }
    }
  }

  /** The carry-over the first part of a split event leaves behind: nothing
      if the cut falls inside `data: `, else the text after it. */
  function SplitCarry(event: string, k: nat): string
    requires k <= |event|
  {
    if k <= |Prefix| then "" else event[|Prefix|..k]
  }

  /** The step's view of the first part of a split event: nothing is emitted,
      and the carry-over is the part after `data: `, if any. */
  lemma {:induction false} FirstPartOfSplitEvent(payload: string, k: nat, parse: JsonParser)
    requires '\n' !in payload
    requires 0 < k < |Prefix + payload + Terminator|
    ensures var event := Prefix + payload + Terminator;
      Step("", Text(event[..k]), parse) == Continue(SplitCarry(event, k), [])
  {
    var event := Prefix + payload + Terminator;
    if k <= |Prefix| {
      assert event[..k] == Prefix[..k];
      CutPrefixDropped(k, parse);
    } else {
      EventIsClosed(payload);
      ClosedPrefixOpen(event, k);
      assert event[..k] == Prefix + event[|Prefix|..k];
      OpenPieceCarried(event[|Prefix|..k], parse);
    }
  }

  /** The carry-over and the rest of the event rejoin to the event past
      whatever of `data: ` the cut left in the first part. */
  lemma {:induction false} SplitCarryJoin(event: string, k: nat)
    requires k <= |event|
    ensures SplitCarry(event, k) + event[k..] == event[if k < |Prefix| then k else |Prefix|..]
  {
    if k <= |Prefix| {
      assert "" + event[k..] == event[k..];
    } else {
      assert event[|Prefix|..k] + event[k..] == event[|Prefix|..];
    }
  }

  /** The first part's carry-over followed by the second part is a closed
      piece of the event that lacks the prefix. */
  lemma {:induction false} SplitRemainder(payload: string, k: nat)
    requires '\n' !in payload
    requires !StartsWith(payload, Prefix)
    requires 0 < k < |Prefix + payload + Terminator|
    ensures var event := Prefix + payload + Terminator;
      var q := SplitCarry(event, k) + event[k..];
      ClosedPiece(q, Terminator) && !StartsWith(q, Prefix)
  {
    var event := Prefix + payload + Terminator;
    EventIsClosed(payload);
    var m := if k < |Prefix| then k else |Prefix|;
    var q := event[m..];
    SplitCarryJoin(event, k);
    ClosedSuffix(event, m);
    RemainderUnprefixed(payload, m);
  }

  /** What follows any part of `data: ` in an event whose payload is not
      itself prefixed does not start with `data: `. */
  lemma {:induction false} RemainderUnprefixed(payload: string, m: nat)
    requires '\n' !in payload
    requires !StartsWith(payload, Prefix)
    requires 0 < m <= |Prefix|
    ensures !StartsWith((Prefix + payload + Terminator)[m..], Prefix)
  {
    var q := (Prefix + payload + Terminator)[m..];
    if m < |Prefix| {
      NoLaterDInPrefix(m);
      assert q[0] == Prefix[m];
    } else {
      assert q == payload + Terminator;
      StrippedEventUnprefixed(payload);
    }
  }

  /** The second part of a split event, behind the first part's carry-over,
      steps exactly like the text after the event. */
  lemma {:induction false} SecondPartOfSplitEvent(payload: string, k: nat, rest: string, parse: JsonParser)
    requires '\n' !in payload
    requires !StartsWith(payload, Prefix)
    requires 0 < k < |Prefix + payload + Terminator|
    ensures var event := Prefix + payload + Terminator;
      Step(SplitCarry(event, k), Text(event[k..] + rest), parse) == Step("", Text(rest), parse)
  {
    var event := Prefix + payload + Terminator;
    var c1 := SplitCarry(event, k);
    var q := c1 + event[k..];
    SplitRemainder(payload, k);
    StepPrependsCarry(c1, event[k..] + rest, parse);
    assert c1 + (event[k..] + rest) == q + rest;
    UnprefixedPieceDropped(q, rest, parse);
  }

  /** An event whose text is split across two fragments, at any offset, is
      never emitted: the stream continues exactly as if the event had not
      been sent. */
  lemma {:induction false} SplitEventIsLost(payload: string, k: nat, rest: string, parse: JsonParser)
    requires '\n' !in payload
    requires !StartsWith(payload, Prefix)
    requires 0 < k < |Prefix + payload + Terminator|
    ensures var event := Prefix + payload + Terminator;
      Decode("", [Text(event[..k]), Text(event[k..] + rest)], parse) ==
        Decode("", [Text(rest)], parse)
  {
    var event := Prefix + payload + Terminator;
    FirstPartOfSplitEvent(payload, k, parse);
    SecondPartOfSplitEvent(payload, k, rest, parse);
    DecodeAfterSilent(SplitCarry(event, k), Text(event[..k]), Text(event[k..] + rest), Text(rest), parse);
  }

  /** The first fragment of the worked example cut inside its second event:
      the role announcement is emitted and the rest of the cut event after
      `data: `, if any, is carried over. */
  lemma {:induction false} SplitExampleFirstStep(rolePayload: string, contentPayload: string, k: nat, parse: JsonParser)
    requires '\n' !in rolePayload && '\n' !in contentPayload
    requires rolePayload != DoneSentinel
    requires parse(rolePayload + Terminator) ==
      Some(InboundResponseChunk([InboundChoice(0, AnnounceRoles(Assistant))]))
    requires 0 < k < |Prefix + contentPayload + Terminator|
    ensures var e1 := Prefix + rolePayload + Terminator;
      var e2 := Prefix + contentPayload + Terminator;
      Step("", Text(e1 + e2[..k]), parse) ==
        Continue(SplitCarry(e2, k), [Ok(BeginResponse(Assistant, 0))])
  {
    var e1 := Prefix + rolePayload + Terminator;
    var e2 := Prefix + contentPayload + Terminator;
    var o1: seq<Item> := [Ok(BeginResponse(Assistant, 0))];
    ParsedEventEmits(rolePayload, InboundChoice(0, AnnounceRoles(Assistant)), parse);
    FirstPartOfSplitEvent(contentPayload, k, parse);
    StepAtEventBoundary(e1, e2[..k], parse);
    assert o1 + [] == o1;
  }

  /** The worked example in two fragments cut at any offset inside the
      content event: that event is lost, and only the role announcement and
      `Done` come out. */
  lemma {:induction false} SplitThreeEventExample(rolePayload: string, contentPayload: string, k: nat, parse: JsonParser)
    requires '\n' !in rolePayload && '\n' !in contentPayload
    requires rolePayload != DoneSentinel && !StartsWith(contentPayload, Prefix)
    requires parse(rolePayload + Terminator) ==
      Some(InboundResponseChunk([InboundChoice(0, AnnounceRoles(Assistant))]))
    requires 0 < k < |Prefix + contentPayload + Terminator|
    ensures var e1 := Prefix + rolePayload + Terminator;
      var e2 := Prefix + contentPayload + Terminator;
      var e3 := Prefix + DoneSentinel + Terminator;
      Decode("", [Text(e1 + e2[..k]), Text(e2[k..] + e3)], parse) ==
        Decoded([Ok(BeginResponse(Assistant, 0)), Ok(Done)], Pending(""))
  {
    var e1 := Prefix + rolePayload + Terminator;
    var e2 := Prefix + contentPayload + Terminator;
    var e3 := Prefix + DoneSentinel + Terminator;
    var c1 := SplitCarry(e2, k);
    var o1: seq<Item> := [Ok(BeginResponse(Assistant, 0))];
    var o3: seq<Item> := [Ok(Done)];
    SplitExampleFirstStep(rolePayload, contentPayload, k, parse);
    SecondPartOfSplitEvent(contentPayload, k, e3, parse);
    DoneEventEmits(parse);
    DecodeConsContinue("", Text(e1 + e2[..k]), [Text(e2[k..] + e3)], c1, o1, parse);
    DecodeOneContinue(c1, Text(e2[k..] + e3), "", o3, parse);
    assert [Text(e1 + e2[..k])] + [Text(e2[k..] + e3)] == [Text(e1 + e2[..k]), Text(e2[k..] + e3)];
    assert o1 + o3 == [Ok(BeginResponse(Assistant, 0)), Ok(Done)];
  }

  /** `[DONE]` delivered whole is emitted. */
  lemma {:induction false} WholeDoneEmitted(parse: JsonParser)
    ensures Decode("", [Text("data: [DONE]\n\n")], parse).items == [Ok(Done)]
  {
    var event := Prefix + DoneSentinel + Terminator;
    assert event == "data: [DONE]\n\n";
    DoneEventEmits(parse);
    DecodeOneContinue("", Text(event), "", [Ok(Done)], parse);
  }

  /** `[DONE]` cut after `[DO` is lost. */
  lemma {:induction false} SplitDoneLost(parse: JsonParser)
    ensures Decode("", [Text("data: [DO"), Text("NE]\n\n")], parse).items == []
  {
    DoneSentinelFacts();
    SplitEventIsLost(DoneSentinel, 9, "", parse);
    EmptyTextDecodesNothing(parse);
  }

  /** The `[DONE]` event cut after `[DO`, and the sentinel's own shape. */
  lemma {:induction false} DoneSentinelFacts()
    ensures '\n' !in DoneSentinel && !StartsWith(DoneSentinel, Prefix)
    ensures var event := Prefix + DoneSentinel + Terminator;
      |event| == 14 && event[..9] == "data: [DO" && event[9..] + "" == "NE]\n\n"
  {
    assert DoneSentinel[..|Prefix|][0] != Prefix[0];
  }

  /** A lone empty fragment decodes to nothing and leaves no carry-over. */
  lemma {:induction false} EmptyTextDecodesNothing(parse: JsonParser)
    ensures Decode("", [Text("")], parse) == Decoded([], Pending(""))
  {
    EmptyFragmentErasesCarry("", parse);
    DecodeOneContinue("", Text(""), "", [], parse);
  }

  /** Decoding is therefore not invariant under fragmentation: `[DONE]` in one
      fragment is emitted, the same bytes in two fragments emit nothing. */
  lemma {:induction false} FragmentationChangesOutput(parse: JsonParser)
    ensures Decode("", [Text("data: [DONE]\n\n")], parse).items == [Ok(Done)]
    ensures Decode("", [Text("data: [DO"), Text("NE]\n\n")], parse).items == []
  {
    WholeDoneEmitted(parse);
    SplitDoneLost(parse);
  }

  /** The first fragment of the reassembling example keeps `da` as carry-over. */
  lemma {:induction false} ShortCarryKept(parse: JsonParser)
    ensures Step("", Text("data: da"), parse) == Continue("da", [])
  {
    var f := Prefix + "da";
    assert f == "data: da";
    assert '\n' !in f;
    MissingFirstCharNotContained(f, Terminator);
    OpenPieceCarried("da", parse);
  }

  lemma {:induction false} ShortCarryCompletes()
    ensures "da" + "ta: [DONE]\n\n" == Prefix + DoneSentinel + Terminator
  {
    assert Prefix + DoneSentinel + Terminator == "data: [DONE]\n\n";
  }

  /** A carry-over shorter than the prefix can complete it again: an event
      split inside the first two characters of its payload survives when
      those characters happen to continue `data: `. */
  lemma {:induction false} ShortCarryReassembles(parse: JsonParser)
    ensures Decode("", [Text("data: da"), Text("ta: [DONE]\n\n")], parse).items == [Ok(Done)]
  {
    var f2 := "ta: [DONE]\n\n";
    ShortCarryKept(parse);
    StepPrependsCarry("da", f2, parse);
    ShortCarryCompletes();
    DoneEventEmits(parse);
    DecodeConsContinue("", Text("data: da"), [Text(f2)], "da", [], parse);
    DecodeOneContinue("da", Text(f2), "", [Ok(Done)], parse);
    assert [Text("data: da")] + [Text(f2)] == [Text("data: da"), Text(f2)];
    var done: seq<Item> := [Ok(Done)];
    assert [] + done == done;
  }
}
