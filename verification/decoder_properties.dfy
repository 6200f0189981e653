/**
 Properties of the streaming decoder as the code is written: what a single
 piece does, how outputs compose in split and arrival order, the worked
 three-event example, and the loss of an event whose text is split across
 two fragments (the carry-over is stored without its `data: ` prefix, so
 the reassembled piece no longer passes the prefix filter).
 */
module DecoderProperties {
  import opened Types
  import opened Strings
  import opened StreamDecoder

  /** Two outcomes one after the other: the first panic wins, else outputs join. */
  function Then<T>(a: Outcome<T>, b: Outcome<T>): Outcome<T> {
    if a.Abort? then a
    else if b.Abort? then b
    else Continue(b.carry, a.out + b.out)
  }

  /** Decoding `more` fragments after a run that ended as `first`. */
  function Resume(first: Decoded, more: seq<Fragment>, parse: JsonParser): Decoded {
    match first.ending
    case Panicked(_) => first
    case Pending(carry) =>
      var next := Decode(carry, more, parse);
      Decoded(first.items + next.items, next.ending)
  }

  // ----- single pieces -------------------------------------------------------

  /** `[DONE]` is recognised before, and instead of, any JSON parse. */
  lemma {:induction false} DoneNeverParsed(parse: JsonParser)
    ensures Classify(Prefix + DoneSentinel + Terminator, parse) == Emit(Done)
  {
    var piece := Prefix + DoneSentinel + Terminator;
    assert piece[|Prefix|..] == DoneSentinel + Terminator;
  }

  /** A complete non-`[DONE]` event: parse failure and empty `choices` panic,
      otherwise the delta of `choices[0]` picks the event and its index. */
  lemma {:induction false} EventVariants(payload: string, parse: JsonParser)
    requires payload != DoneSentinel
    ensures var chunk := payload + Terminator;
      var a := Classify(Prefix + payload + Terminator, parse);
      && (parse(chunk).None? ==> a == Stop(InvalidPayload(chunk)))
      && (parse(chunk).Some? && parse(chunk).value.choices == [] ==> a == Stop(NoChoices(chunk)))
      && (parse(chunk).Some? && parse(chunk).value.choices != [] ==>
            var choice := parse(chunk).value.choices[0];
            match choice.delta
            case AnnounceRoles(role) => a == Emit(BeginResponse(role, choice.index))
            case StreamContent(content) => a == Emit(Content(content, choice.index))
            case Close => a == Emit(CloseResponse(choice.index)))
  {
    var chunk := payload + Terminator;
    assert Prefix + payload + Terminator == Prefix + chunk;
    assert (Prefix + chunk)[|Prefix|..] == chunk;
    assert chunk[..|chunk| - |Terminator|] == payload;
  }

  /** A newline-free payload framed as an event is a single closed piece. */
  lemma {:induction false} EventIsClosed(payload: string)
    requires '\n' !in payload
    ensures ClosedPiece(Prefix + payload + Terminator, Terminator)
  {
    var body := Prefix + payload;
    var event := body + Terminator;
    forall j | 0 <= j < |body| ensures body[j] != '\n' {
      if j < |Prefix| {
        assert body[j] == Prefix[j];
      } else {
        assert body[j] == payload[j - |Prefix|];
      }
    }
    forall j | 0 <= j < |event| - |Terminator| ensures !OccursAt(event, Terminator, j) {
      assert event[j] == body[j];
      if j + 2 <= |event| {
        assert event[j..j + 2][0] == event[j];
      }
    }
    assert event[|event| - 2..] == Terminator;
  }

  /** A suffix of a closed piece that still holds its terminator is closed. */
  lemma {:induction false} ClosedSuffix(p: string, m: nat)
    requires ClosedPiece(p, Terminator)
    requires m <= |p| - |Terminator|
    ensures ClosedPiece(p[m..], Terminator)
  {
    var q := p[m..];
    OccursInSuffix(p, Terminator, m, |q| - |Terminator|);
    forall j | 0 <= j < |q| - |Terminator| ensures !OccursAt(q, Terminator, j) {
      OccursInSuffix(p, Terminator, m, j);
    }
  }

  /** A proper prefix of a closed piece holds no terminator. */
  lemma {:induction false} ClosedPrefixOpen(p: string, k: nat)
    requires ClosedPiece(p, Terminator)
    requires k < |p|
    ensures !Contains(p[..k], Terminator)
  {
    forall j | 0 <= j <= k - |Terminator| ensures !OccursAt(p[..k], Terminator, j) {
      OccursInPrefix(p, Terminator, k, j);
    }
  }

  // ----- carry-over ----------------------------------------------------------

  /** The carry-over is simply prepended to the next text fragment. */
  lemma {:induction false} StepPrependsCarry(carry: string, t: string, parse: JsonParser)
    ensures Step(carry, Text(t), parse) == Step("", Text(carry + t), parse)
  {
    assert carry == "" ==> carry + t == t;
  }

  /** A carry-over that cannot begin a prefixed piece is thrown away with an
      empty fragment: nothing is emitted and the new carry-over is empty. */
  lemma {:induction false} EmptyFragmentErasesCarry(carry: string, parse: JsonParser)
    requires !Contains(carry, Terminator)
    requires !StartsWith(carry, Prefix)
    ensures Step(carry, Text(""), parse) == Continue("", [])
  {
    assert carry + "" == carry;
    if carry != "" {
      SplitNoPattern(carry, Terminator);
      StepOnePiece(carry, "", carry, Skip, parse);
    }
  }

  /** An unterminated piece with text after `data: ` is kept as the
      carry-over, without its prefix, and nothing is emitted. */
  lemma {:induction false} OpenPieceCarried(rest: string, parse: JsonParser)
    requires rest != ""
    requires !Contains(Prefix + rest, Terminator)
    ensures Step("", Text(Prefix + rest), parse) == Continue(rest, [])
  {
    var f := Prefix + rest;
    SplitNoPattern(f, Terminator);
    assert "" + f == f;
    assert f[..|Prefix|] == Prefix;
    EndsWithContains(f, Terminator);
    StepOnePiece("", f, f, Carry(rest), parse);
  }

  /** Text cut off inside `data: ` is dropped: no item, no carry-over. */
  lemma {:induction false} CutPrefixDropped(k: nat, parse: JsonParser)
    requires 0 < k <= |Prefix|
    ensures Step("", Text(Prefix[..k]), parse) == Continue("", [])
  {
    var part := Prefix[..k];
    assert '\n' !in part;
    MissingFirstCharNotContained(part, Terminator);
    SplitNoPattern(part, Terminator);
    assert "" + part == part;
    assert Classify(part, parse) == Skip;
    StepOnePiece("", part, part, Skip, parse);
  }

  /** A closed piece without the prefix is dropped: it is as if absent. */
  lemma {:induction false} UnprefixedPieceDropped(q: string, rest: string, parse: JsonParser)
    requires ClosedPiece(q, Terminator)
    requires !StartsWith(q, Prefix)
    ensures Step("", Text(q + rest), parse) == Step("", Text(rest), parse)
  {
    SplitClosedPrefix(q, rest, Terminator);
    var pieces := SplitInclusive(q + rest, Terminator);
    assert pieces[1..] == SplitInclusive(rest, Terminator);
  }

  /** With a carry-over that neither starts with `data: ` nor is the start of
      `data: `, the first piece of the combined text is dropped whole: the
      step behaves as if that piece had never arrived. */
  lemma {:induction false} LostFirstPiece(carry: string, t: string, parse: JsonParser)
    requires carry != ""
    requires !StartsWith(carry, Prefix) && !StartsWith(Prefix, carry)
    ensures var pieces := SplitInclusive(carry + t, Terminator);
      && |pieces| > 0
      && Step(carry, Text(t), parse) == Step("", Text(Flatten(pieces[1..])), parse)
  {
    var s := carry + t;
    var pieces := SplitInclusive(s, Terminator);
    SplitInclusiveSplits(s, Terminator);
    assert |pieces| > 0 by {
      assert Flatten([]) == "" != s;
    }
    TailIsInclusiveSplit(s, Terminator, pieces);
    var p := pieces[0];
    assert s[..|p|] == p;
    assert !StartsWith(s, Prefix) by {
      if |Prefix| <= |s| {
        if |carry| >= |Prefix| {
          assert s[..|Prefix|] == carry[..|Prefix|];
        } else {
          assert s[..|Prefix|][..|carry|] == carry;
          assert Prefix[..|carry|] != carry;
        }
      }
    }
    assert !StartsWith(p, Prefix) by {
      if |Prefix| <= |p| {
        assert p[..|Prefix|] == s[..|Prefix|];
      }
    }
    InclusiveSplitUnique(Flatten(pieces[1..]), Terminator, pieces[1..]);
    assert "" + Flatten(pieces[1..]) == Flatten(pieces[1..]);
  }

  // ----- order ---------------------------------------------------------------

  /** The effect of the loop body's action for one piece on the outcome of
      the remaining iterations. */
  function Apply(a: PieceAction, rest: Outcome<ResponseChunk>): Outcome<ResponseChunk> {
    match a
    case Skip => rest
    case Carry(r) => Continue(r, [])
    case Stop(panic) => Abort(panic)
    case Emit(c) => if rest.Abort? then rest else Continue(rest.carry, [c] + rest.out)
  }

  /** One unrolling of the loop over the pieces. */
  lemma {:induction false} ProcessCons(h: string, t: seq<string>, parse: JsonParser)
    ensures Process([h] + t, parse) == Apply(Classify(h, parse), Process(t, parse))
  {
    assert ([h] + t)[0] == h && ([h] + t)[1..] == t;
  }

  /** A step whose combined text is a single piece does what that piece's
      classification `a` says. */
  lemma {:induction false} StepOnePiece(carry: string, t: string, p: string, a: PieceAction, parse: JsonParser)
    requires SplitInclusive(carry + t, Terminator) == [p]
    requires Classify(p, parse) == a
    ensures a.Skip? ==> Step(carry, Text(t), parse) == Continue("", [])
    ensures a.Carry? ==> Step(carry, Text(t), parse) == Continue(a.rest, [])
    ensures a.Emit? ==> Step(carry, Text(t), parse) == Continue("", [Ok(a.chunk)])
    ensures a.Stop? ==> Step(carry, Text(t), parse) == Abort(a.panic)
  {
    assert carry == "" ==> carry + t == t;
    ProcessOne(p, a, parse);
    assert MapOk([]) == [];
    if a.Emit? {
      assert MapOk([a.chunk]) == [Ok(a.chunk)];
    }
  }

  /** Text that is one closed piece steps by that piece's action `a`, which
      is never a carry-over. */
  lemma {:induction false} ClosedPieceStep(p: string, a: PieceAction, parse: JsonParser)
    requires ClosedPiece(p, Terminator)
    requires Classify(p, parse) == a
    ensures AllClosed(SplitInclusive(p, Terminator), Terminator)
    ensures !a.Carry?
    ensures a.Skip? ==> Step("", Text(p), parse) == Continue("", [])
    ensures a.Emit? ==> Step("", Text(p), parse) == Continue("", [Ok(a.chunk)])
    ensures a.Stop? ==> Step("", Text(p), parse) == Abort(a.panic)
  {
    SplitClosedPrefix(p, "", Terminator);
    assert [p][0] == p;
    ClosedEndsWith(p, Terminator);
    assert "" + p == p;
    StepOnePiece("", p, p, a, parse);
  }

  /** The loop over a single piece applies that piece's action. */
  lemma {:induction false} ProcessOne(p: string, a: PieceAction, parse: JsonParser)
    requires Classify(p, parse) == a
    ensures Process([p], parse) == Apply(a, Continue("", []))
  {
    ProcessCons(p, [], parse);
    assert [p] + [] == [p];
  }

  /** An action other than a carry-over commutes with joining outcomes. */
  lemma {:induction false} ApplyThen(a: PieceAction, r1: Outcome<ResponseChunk>, r2: Outcome<ResponseChunk>)
    requires !a.Carry?
    requires r1.Continue? ==> r1.carry == ""
    ensures Apply(a, r1).Continue? ==> Apply(a, r1).carry == ""
    ensures Apply(a, Then(r1, r2)) == Then(Apply(a, r1), r2)
  {
    if a.Emit? && r1.Continue? && r2.Continue? {
      assert [a.chunk] + (r1.out + r2.out) == ([a.chunk] + r1.out) + r2.out;
    }
  }

  /** Pieces that never carry over can be processed separately and joined. */
  lemma {:induction false} ProcessAppend(p1: seq<string>, p2: seq<string>, parse: JsonParser)
    requires forall i :: 0 <= i < |p1| ==> !Classify(p1[i], parse).Carry?
    ensures Process(p1, parse).Continue? ==> Process(p1, parse).carry == ""
    ensures Process(p1 + p2, parse) == Then(Process(p1, parse), Process(p2, parse))
    decreases |p1|
  {
    if p1 == [] {
      assert p1 + p2 == p2;
    } else {
      var h := p1[0];
      var t := p1[1..];
      assert p1 == [h] + t;
      assert p1 + p2 == [h] + (t + p2);
      assert forall i :: 0 <= i < |t| ==> t[i] == p1[i + 1];
      ProcessAppend(t, p2, parse);
      ProcessCons(h, t, parse);
      ProcessCons(h, t + p2, parse);
      ApplyThen(Classify(h, parse), Process(t, parse), Process(p2, parse));
    }
  }

  lemma {:induction false} MapOkAppend(a: seq<ResponseChunk>, b: seq<ResponseChunk>)
    ensures MapOk(a + b) == MapOk(a) + MapOk(b)
  {
  }

  /** Text that ends on an event boundary decodes independently of what follows:
      the items of `x + y` are those of `x` followed by those of `y`. */
  lemma {:induction false} StepAtEventBoundary(x: string, y: string, parse: JsonParser)
    requires AllClosed(SplitInclusive(x, Terminator), Terminator)
    ensures Step("", Text(x), parse).Continue? ==> Step("", Text(x), parse).carry == ""
    ensures Step("", Text(x + y), parse) == Then(Step("", Text(x), parse), Step("", Text(y), parse))
  {
    var px := SplitInclusive(x, Terminator);
    var py := SplitInclusive(y, Terminator);
    SplitAppend(x, y, Terminator);
    forall i | 0 <= i < |px| ensures !Classify(px[i], parse).Carry? {
      ClosedEndsWith(px[i], Terminator);
    }
    ProcessAppend(px, py, parse);
    var a := Process(px, parse);
    var b := Process(py, parse);
    if a.Continue? && b.Continue? {
      MapOkAppend(a.out, b.out);
    }
    assert "" + x == x && "" + y == y && "" + (x + y) == x + y;
  }

  // ----- arrival order -------------------------------------------------------

  /** One unrolling of the fold, for a first step that continues. */
  lemma {:induction false} DecodeConsContinue(carry: string, f: Fragment, fs: seq<Fragment>, c: string, out: seq<Item>, parse: JsonParser)
    requires Step(carry, f, parse) == Continue(c, out)
    ensures Decode(carry, [f] + fs, parse) ==
      Decoded(out + Decode(c, fs, parse).items, Decode(c, fs, parse).ending)
  {
    assert ([f] + fs)[0] == f && ([f] + fs)[1..] == fs;
  }

  /** One unrolling of the fold, for a first step that panics. */
  lemma {:induction false} DecodeConsAbort(carry: string, f: Fragment, fs: seq<Fragment>, p: Panic, parse: JsonParser)
    requires Step(carry, f, parse) == Abort(p)
    ensures Decode(carry, [f] + fs, parse) == Decoded([], Panicked(p))
  {
    assert ([f] + fs)[0] == f;
  }

  /** Decoding one fragment that continues delivers that step's items. */
  lemma {:induction false} DecodeOneContinue(carry: string, f: Fragment, c: string, out: seq<Item>, parse: JsonParser)
    requires Step(carry, f, parse) == Continue(c, out)
    ensures Decode(carry, [f], parse) == Decoded(out, Pending(c))
  {
    DecodeConsContinue(carry, f, [], c, out, parse);
    assert [f] + [] == [f] && out + [] == out;
  }

  /** Decoding one fragment that panics delivers nothing. */
  lemma {:induction false} DecodeOneAbort(carry: string, f: Fragment, p: Panic, parse: JsonParser)
    requires Step(carry, f, parse) == Abort(p)
    ensures Decode(carry, [f], parse) == Decoded([], Panicked(p))
  {
    DecodeConsAbort(carry, f, [], p, parse);
    assert [f] + [] == [f];
  }

  /** Decoding is a left fold: the fragments after `f1` are decoded from where
      `f1` left the stream, and their items follow those of `f1`. */
  lemma {:induction false} DecodeAppend(carry: string, f1: seq<Fragment>, f2: seq<Fragment>, parse: JsonParser)
    ensures Decode(carry, f1 + f2, parse) == Resume(Decode(carry, f1, parse), f2, parse)
    decreases |f1|
  {
    if f1 == [] {
      assert f1 + f2 == f2;
      assert [] + Decode(carry, f2, parse).items == Decode(carry, f2, parse).items;
    } else {
      var f := f1[0];
      var t := f1[1..];
      assert f1 == [f] + t;
      assert f1 + f2 == [f] + (t + f2);
      match Step(carry, f, parse)
      case Abort(p) =>
        DecodeConsAbort(carry, f, t, p, parse);
        DecodeConsAbort(carry, f, t + f2, p, parse);
      case Continue(c, out) =>
        DecodeConsContinue(carry, f, t, c, out, parse);
        DecodeConsContinue(carry, f, t + f2, c, out, parse);
        DecodeAppend(c, t, f2, parse);
        ResumePrepend(out, Decode(c, t, parse), f2, parse);
    }
  }

  /** Items delivered before a run stay in front when the run is resumed. */
  lemma {:induction false} ResumePrepend(out: seq<Item>, d: Decoded, more: seq<Fragment>, parse: JsonParser)
    ensures Resume(Decoded(out + d.items, d.ending), more, parse) ==
      Decoded(out + Resume(d, more, parse).items, Resume(d, more, parse).ending)
  {
    if d.ending.Pending? {
      var next := Decode(d.ending.carry, more, parse);
      assert (out + d.items) + next.items == out + (d.items + next.items);
    }
  }

  /** A first fragment that only leaves carry-over `c`, followed by a fragment
      that from `c` steps like `g` from nothing, decodes like `g` alone. */
  lemma {:induction false} DecodeAfterSilent(c: string, f1: Fragment, f2: Fragment, g: Fragment, parse: JsonParser)
    requires Step("", f1, parse) == Continue(c, [])
    requires Step(c, f2, parse) == Step("", g, parse)
    ensures Decode("", [f1, f2], parse) == Decode("", [g], parse)
  {
    DecodeConsContinue("", f1, [f2], c, [], parse);
    assert [f1] + [f2] == [f1, f2];
    var d := Decode(c, [f2], parse);
    assert [] + d.items == d.items;
    match Step("", g, parse)
    case Abort(p) =>
      DecodeOneAbort(c, f2, p, parse);
      DecodeOneAbort("", g, p, parse);
    case Continue(c2, out) =>
      DecodeOneContinue(c, f2, c2, out, parse);
      DecodeOneContinue("", g, c2, out, parse);
  }

  /** Fragmenting at an event boundary is harmless: two fragments `x`, `y` end
      like the single fragment `x + y`, and deliver the same items unless
      the single fragment panics (a panic discards that fragment's items). */
  lemma {:induction false} DecodeAtEventBoundary(x: string, y: string, parse: JsonParser)
    requires AllClosed(SplitInclusive(x, Terminator), Terminator)
    ensures var two := Decode("", [Text(x), Text(y)], parse);
      var one := Decode("", [Text(x + y)], parse);
      && two.ending == one.ending
      && (one.ending.Pending? ==> two.items == one.items)
  {
    StepAtEventBoundary(x, y, parse);
    assert [Text(x)] + [Text(y)] == [Text(x), Text(y)];
    match Step("", Text(x), parse)
    case Abort(p) =>
      DecodeConsAbort("", Text(x), [Text(y)], p, parse);
      DecodeOneAbort("", Text(x + y), p, parse);
    case Continue(cx, ox) =>
      DecodeConsContinue("", Text(x), [Text(y)], cx, ox, parse);
      match Step("", Text(y), parse)
      case Abort(p) =>
        DecodeOneAbort("", Text(y), p, parse);
        DecodeOneAbort("", Text(x + y), p, parse);
      case Continue(cy, oy) =>
        DecodeOneContinue("", Text(y), cy, oy, parse);
        DecodeOneContinue("", Text(x + y), cy, ox + oy, parse);
  }
}
