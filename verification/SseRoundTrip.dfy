/** Rendering events on the wire and receiving them back. */
module SseRoundTrip {
  import opened Common
  import opened Utf8
  import opened Delimiters
  import opened Newlines
  import opened Sse
  import opened SseStream
  import opened StreamCaps
  import opened StreamTheorems

  // ----- Rendering (section 9.2 of the WHATWG HTML Standard) -----------------------------

  datatype Ending = Lf | CrLf | Cr

  function Eol(e: Ending): Bytes {
    match e {
      case Lf => [LF]
      case CrLf => [CR, LF]
      case Cr => [CR]
    }
  }

  /**
    * An event as a server means it: an optional type, data lines, an optional id; and whether it writes
    * the optional space after each colon.
    */
  datatype Event = Event(kind: Option<Bytes>, data: seq<Bytes>, id: Option<Bytes>, spaced: bool)

  /** One line of text: a string (well-formed UTF-8) without line terminators. */
  predicate LineText(s: Bytes) {
    WellFormed(s) && LF !in s && CR !in s
  }

  /** Without the space after the colon, a value cannot start with one. */
  predicate Value(spaced: bool, s: Bytes) {
    LineText(s) && (spaced || s == [] || s[0] != SPACE)
  }

  predicate AllValues(spaced: bool, values: seq<Bytes>) {
    forall i :: 0 <= i < |values| ==> Value(spaced, values[i])
  }

  predicate Sendable(e: Event) {
    && (e.kind.Some? || e.data != [] || e.id.Some?)
    && AllValues(e.spaced, OptionalSeq(e.kind)) && AllValues(e.spaced, e.data) && AllValues(e.spaced, OptionalSeq(e.id))
    && e.id != Some([])
  }

  function OptionalSeq<T>(v: Option<T>): seq<T> {
    if v.None? then [] else [v.value]
  }

  function Gap(spaced: bool): Bytes {
    if spaced then [SPACE] else []
  }

  function Prefixed(field: Bytes, spaced: bool, values: seq<Bytes>): seq<Bytes> {
    if values == [] then [] else [field + Gap(spaced) + values[0]] + Prefixed(field, spaced, values[1..])
  }

  function FieldLines(e: Event): seq<Bytes> {
    Prefixed(EVENT, e.spaced, OptionalSeq(e.kind)) + Prefixed(DATA, e.spaced, e.data)
    + Prefixed(ID, e.spaced, OptionalSeq(e.id))
  }

  function Block(lines: seq<Bytes>, eol: Bytes): Bytes
    requires lines != []
  {
    if |lines| == 1 then lines[0] else lines[0] + eol + Block(lines[1..], eol)
  }

  function BlockOf(e: (Event, Ending)): Bytes
    requires Sendable(e.0)
  {
    EventLines(e.0);
    Block(FieldLines(e.0), Eol(e.1))
  }

  function Render(e: (Event, Ending)): Bytes
    requires Sendable(e.0)
  {
    BlockOf(e) + Eol(e.1) + Eol(e.1)
  }

  function RenderAll(es: seq<(Event, Ending)>): Bytes
    requires forall i :: 0 <= i < |es| ==> Sendable(es[i].0)
  {
    if es == [] then [] else Render(es[0]) + RenderAll(es[1..])
  }

  function Expected<S>(parse: StateParser<S>, e: Event): SseFrame<S> {
    SseFrame(MakeEvent(parse, e.kind, e.data), e.id)
  }

  function ExpectedAll<S>(parse: StateParser<S>, es: seq<(Event, Ending)>): seq<SseFrame<S>> {
    if es == [] then [] else [Expected(parse, es[0].0)] + ExpectedAll(parse, es[1..])
  }

  // ----- Fields --------------------------------------------------------------------------

  lemma ValueOfField(name: Bytes, spaced: bool, value: Bytes, field: Bytes)
    requires name in {EVENT, DATA, ID} && field in {EVENT, DATA, ID} && Value(spaced, value)
    ensures ValueOf(name + Gap(spaced) + value, field) == if name == field then [value] else []
  {
    var line := name + Gap(spaced) + value;
    assert name <= line;
    FieldsAreDisjoint(line);
    assert line[|name|..] == Gap(spaced) + value;
    assert spaced ==> (Gap(spaced) + value)[1..] == value;
    assert !spaced ==> Gap(spaced) + value == value;
  }

  lemma {:induction false} ValuesOfPrefixed(name: Bytes, spaced: bool, values: seq<Bytes>, field: Bytes)
    requires name in {EVENT, DATA, ID} && field in {EVENT, DATA, ID} && AllValues(spaced, values)
    ensures Values(Prefixed(name, spaced, values), field) == if name == field then values else []
  {
    if values == [] {
    } else {
      var line := name + Gap(spaced) + values[0];
      ValuesOfPrefixed(name, spaced, values[1..], field);
      ValuesAppend([line], Prefixed(name, spaced, values[1..]), field);
      ValuesOne(line, field);
      ValueOfField(name, spaced, values[0], field);
      HeadAndTail(values);
    }
  }

  lemma FieldLineValues(e: Event, field: Bytes)
    requires field in {EVENT, DATA, ID} && Sendable(e)
    ensures Values(FieldLines(e), field)
         == (if field == EVENT then OptionalSeq(e.kind) else if field == DATA then e.data else OptionalSeq(e.id))
  {
    ValuesByField(e, field);
    FieldNamesDiffer();
    PickOne(OptionalSeq(e.kind), e.data, OptionalSeq(e.id));
  }

  lemma ValuesByField(e: Event, field: Bytes)
    requires field in {EVENT, DATA, ID} && Sendable(e)
    ensures Values(FieldLines(e), field)
         == (if EVENT == field then OptionalSeq(e.kind) else []) + (if DATA == field then e.data else [])
            + (if ID == field then OptionalSeq(e.id) else [])
  {
    var kinds, ids := OptionalSeq(e.kind), OptionalSeq(e.id);
    ValuesOfThree(Prefixed(EVENT, e.spaced, kinds), Prefixed(DATA, e.spaced, e.data), Prefixed(ID, e.spaced, ids),
                  field);
    ValuesOfPrefixed(EVENT, e.spaced, kinds, field);
    ValuesOfPrefixed(DATA, e.spaced, e.data, field);
    ValuesOfPrefixed(ID, e.spaced, ids, field);
  }

  lemma PickOne(a: seq<Bytes>, b: seq<Bytes>, c: seq<Bytes>)
    ensures a + [] + [] == a && [] + b + [] == b && [] + [] + c == c
  {
  }

  lemma FieldNamesDiffer()
    ensures EVENT != DATA && DATA != ID && EVENT != ID
  {
    assert EVENT[0] != DATA[0] && DATA[0] != ID[0] && EVENT[0] != ID[0];
  }

  lemma ValuesOfThree(a: seq<Bytes>, b: seq<Bytes>, c: seq<Bytes>, field: Bytes)
    ensures Values(a + b + c, field) == Values(a, field) + Values(b, field) + Values(c, field)
  {
    ValuesAppend(a + b, c, field);
    ValuesAppend(a, b, field);
  }

  /** Parsing the field lines of an event gives the event back. */
  lemma FieldsRoundTrip<S>(parse: StateParser<S>, e: Event)
    requires Sendable(e)
    ensures FrameOfLines(parse, FieldLines(e)) == Expected(parse, e)
  {
    FieldLineValues(e, EVENT);
    FieldLineValues(e, DATA);
    FieldLineValues(e, ID);
    assert Last(OptionalSeq(e.kind)) == e.kind && NonEmpty(Last(OptionalSeq(e.id))) == e.id;
  }

  /** Joined data lines can be told apart again. */
  lemma {:induction false} JoinThenSplit(data: seq<Bytes>)
    requires data != [] && forall i :: 0 <= i < |data| ==> LF !in data[i]
    ensures SplitLf(Join(data)) == data
  {
    if |data| == 1 {
      LineFirst(data[0], []);
      NothingAfter(data[0]);
    } else {
      JoinThenSplit(data[1..]);
      LineFirst(data[0], [LF] + Join(data[1..]));
      SplitAtLf(Join(data[1..]));
      Associate(data[0], [LF], Join(data[1..]));
      HeadAndTail(data);
    }
  }

  lemma SplitAtLf(rest: Bytes)
    ensures SplitLf([LF] + rest) == [[]] + SplitLf(rest)
  {
    assert ([LF] + rest)[1..] == rest;
  }

  lemma {:induction false} LineFirst(line: Bytes, rest: Bytes)
    requires LF !in line && (rest == [] || rest[0] == LF)
    ensures SplitLf(line + rest) == [line] + SplitLf(rest)[1..]
  {
    if line == [] {
      assert line + rest == rest;
    } else {
      assert line[0] in line && (line + rest)[1..] == line[1..] + rest;
      LineFirst(line[1..], rest);
      assert SplitLf(line + rest) == Extend(line[0], [line[1..]] + SplitLf(rest)[1..]);
      assert [line[0]] + line[1..] == line;
    }
  }

  /**
    * What a received event says: a StateChange exactly when the type is `state` and the joined data
    * parses; otherwise the type and every data line as they were sent.
    */
  lemma ReceivedEventMeaning<S>(parse: StateParser<S>, e: Event)
    requires Sendable(e)
    ensures match Expected(parse, e).event {
              case StateChange(c) => e.kind == Some(STATE) && e.data != [] && parse(Join(e.data)) == Some(c)
              case Unknown(t, d) =>
                && (e.kind == Some(STATE) && e.data != [] ==> parse(Join(e.data)).None?)
                && t == (if e.kind.Some? then e.kind.value else [])
                && (if e.data == [] then d == [] else SplitLf(d) == e.data)
            }
  {
    if e.data != [] {
      assert forall i :: 0 <= i < |e.data| ==> Value(e.spaced, e.data[i]);
      JoinThenSplit(e.data);
    }
  }

  // ----- Lines and blocks ----------------------------------------------------------------

  predicate FieldLine(line: Bytes) {
    line != [] && LineText(line)
  }

  predicate FieldLinesOnly(lines: seq<Bytes>) {
    forall i :: 0 <= i < |lines| ==> FieldLine(lines[i])
  }

  lemma {:induction false} PrefixedAreFieldLines(name: Bytes, spaced: bool, values: seq<Bytes>)
    requires name in {EVENT, DATA, ID} && AllValues(spaced, values)
    ensures FieldLinesOnly(Prefixed(name, spaced, values))
  {
    if values == [] {
    } else {
      AsciiWellFormed(name + Gap(spaced));
      ConcatWellFormed(name + Gap(spaced), values[0]);
      PrefixedAreFieldLines(name, spaced, values[1..]);
    }
  }

  lemma EventLines(e: Event)
    requires Sendable(e)
    ensures FieldLines(e) != [] && FieldLinesOnly(FieldLines(e))
  {
    PrefixedAreFieldLines(EVENT, e.spaced, OptionalSeq(e.kind));
    PrefixedAreFieldLines(DATA, e.spaced, e.data);
    PrefixedAreFieldLines(ID, e.spaced, OptionalSeq(e.id));
  }

  /** No delimiter starts in a line or its terminator when another line follows. */
  lemma LineHasNoDelim(line: Bytes, ending: Ending, more: Bytes)
    requires FieldLine(line) && more != [] && more[0] != LF && more[0] != CR
    ensures NoneBefore(line + Eol(ending) + more, |line + Eol(ending)|)
  {
    var text := line + Eol(ending) + more;
    forall p | 0 <= p < |line + Eol(ending)|
      ensures DelimLen(text, p) == 0
    {
      if p < |line| { assert text[p] == line[p] && line[p] in line; }
    }
  }

  lemma BlankLineIsFirst(line: Bytes, ending: Ending, rest: Bytes)
    requires FieldLine(line)
    ensures FirstDelim(line + Eol(ending) + Eol(ending) + rest) == Some(Delim(|line|, 2 * |Eol(ending)|))
  {
    var text := line + Eol(ending) + Eol(ending) + rest;
    forall p | 0 <= p < |line|
      ensures DelimLen(text, p) == 0
    {
      assert text[p] == line[p] && line[p] in line;
    }
    FirstIsUnique(text, Delim(|line|, 2 * |Eol(ending)|));
  }

  /** A rendered block is cut exactly at its blank line, whatever follows. */
  lemma {:induction false} BlockIsFirstFrame(lines: seq<Bytes>, ending: Ending, rest: Bytes)
    requires lines != [] && FieldLinesOnly(lines)
    ensures var block := Block(lines, Eol(ending));
            FirstDelim(block + Eol(ending) + Eol(ending) + rest) == Some(Delim(|block|, 2 * |Eol(ending)|))
  {
    var eol := Eol(ending);
    if |lines| == 1 {
      BlankLineIsFirst(lines[0], ending, rest);
    } else {
      var inner := Block(lines[1..], eol);
      BlockIsFirstFrame(lines[1..], ending, rest);
      BlockStarts(lines[1..], eol);
      var more := inner + eol + eol + rest;
      LineHasNoDelim(lines[0], ending, more);
      FirstDelimShift(lines[0] + eol, more);
      assert Block(lines, eol) + eol + eol + rest == lines[0] + eol + more;
    }
  }

  lemma BlockStarts(lines: seq<Bytes>, eol: Bytes)
    requires lines != [] && FieldLinesOnly(lines)
    ensures Block(lines, eol) != [] && Block(lines, eol)[0] != LF && Block(lines, eol)[0] != CR
  {
    assert Block(lines, eol)[0] == lines[0][0] && lines[0][0] in lines[0];
  }

  lemma {:induction false} BlockLines(lines: seq<Bytes>, ending: Ending)
    requires lines != [] && FieldLinesOnly(lines)
    ensures SplitEol(Block(lines, Eol(ending))) == lines
  {
    if |lines| == 1 {
      SplitLine(lines[0]);
    } else {
      BlockStarts(lines[1..], Eol(ending));
      SplitAfterLine(lines[0], Eol(ending), Block(lines[1..], Eol(ending)));
      BlockLines(lines[1..], ending);
    }
  }

  lemma {:induction false} BlockWellFormed(lines: seq<Bytes>, ending: Ending)
    requires lines != [] && FieldLinesOnly(lines)
    ensures WellFormed(Block(lines, Eol(ending)))
  {
    if |lines| == 1 {
    } else {
      AsciiWellFormed(Eol(ending));
      BlockWellFormed(lines[1..], ending);
      ConcatWellFormed(lines[0], Eol(ending));
      ConcatWellFormed(lines[0] + Eol(ending), Block(lines[1..], Eol(ending)));
    }
  }

  // ----- Streams of events ---------------------------------------------------------------

  /** A rendered block, received as a frame, is the event that was sent. */
  lemma BlockRoundTrip<S>(parse: StateParser<S>, e: (Event, Ending))
    requires Sendable(e.0)
    ensures FrameOf(parse, BlockOf(e)) == Expected(parse, e.0)
  {
    EventLines(e.0);
    LineEndingsDoNotMatter(parse, BlockOf(e));
    BlockLines(FieldLines(e.0), e.1);
    FieldsRoundTrip(parse, e.0);
  }

  /** The first rendered event is the first frame, and the other events are what follows it. */
  lemma RenderAllCut(es: seq<(Event, Ending)>)
    requires es != [] && forall i :: 0 <= i < |es| ==> Sendable(es[i].0)
    ensures var d := Delim(|BlockOf(es[0])|, 2 * |Eol(es[0].1)|);
            && FirstDelim(RenderAll(es)) == Some(d)
            && d.pos + d.len == |Render(es[0])|
            && After(RenderAll(es), d) == RenderAll(es[1..])
            && RenderAll(es)[..d.pos] == BlockOf(es[0])
  {
    EventLines(es[0].0);
    BlockIsFirstFrame(FieldLines(es[0].0), es[0].1, RenderAll(es[1..]));
    CutAtBlankLine(BlockOf(es[0]), Eol(es[0].1), RenderAll(es[1..]));
  }

  lemma CutAtBlankLine(block: Bytes, eol: Bytes, rest: Bytes)
    ensures var text, n := block + eol + eol + rest, |block| + 2 * |eol|;
            n <= |text| && text[n..] == rest && text[..|block|] == block
  {
  }

  lemma {:induction false} RenderedFrames<S>(parse: StateParser<S>, es: seq<(Event, Ending)>)
    requires forall i :: 0 <= i < |es| ==> Sendable(es[i].0)
    ensures Delivered(parse, Frames(RenderAll(es))) == ExpectedAll(parse, es)
  {
    if es == [] {
    } else {
      RenderedFrames(parse, es[1..]);
      RenderAllCut(es);
      BlockRoundTrip(parse, es[0]);
      var frames := Frames(RenderAll(es));
      assert frames[1..] == Frames(RenderAll(es[1..]));
    }
  }

  lemma {:induction false} RenderedWellFormed(es: seq<(Event, Ending)>)
    requires forall i :: 0 <= i < |es| ==> Sendable(es[i].0)
    ensures WellFormed(RenderAll(es))
  {
    if es == [] {
    } else {
      RenderedWellFormed(es[1..]);
      RenderWellFormed(es[0], RenderAll(es[1..]));
    }
  }

  lemma RenderWellFormed(e: (Event, Ending), rest: Bytes)
    requires Sendable(e.0) && WellFormed(rest)
    ensures WellFormed(Render(e) + rest)
  {
    EventLines(e.0);
    BlockWellFormed(FieldLines(e.0), e.1);
    AsciiWellFormed(Eol(e.1));
    ConcatWellFormed(BlockOf(e), Eol(e.1));
    ConcatWellFormed(BlockOf(e) + Eol(e.1), Eol(e.1));
    ConcatWellFormed(Render(e), rest);
  }

  // ----- End to end ----------------------------------------------------------------------

  /** The connection delivers the rendered events and then, at most, an event cut off before its blank line. */
  predicate Carries(wire: Wire, es: seq<(Event, Ending)>, cutOff: Bytes) {
    && (forall i :: 0 <= i < |es| ==> Sendable(es[i].0))
    && Clean(cutOff) && FirstDelim(cutOff).None?
    && Received(wire) == RenderAll(es) + cutOff
  }

  lemma SalvageOfCutOff(cutOff: Bytes)
    requires Clean(cutOff) && FirstDelim(cutOff).None?
    ensures FirstDelim(Salvage(cutOff)).None?
  {
    DecodeConserves(cutOff, []);
    DecodeKeepsResidue(cutOff);
    assert cutOff + [] == cutOff && Kept(cutOff) + [] == Kept(cutOff);
    var text := Pushed(cutOff);
    assert Salvage(cutOff) == text;
    if FirstDelim(text).Some? {
      FirstDelimStable(text, Kept(cutOff));
    }
  }

  lemma CutOffAddsNoFrame(es: seq<(Event, Ending)>, cutOff: Bytes)
    requires forall i :: 0 <= i < |es| ==> Sendable(es[i].0)
    requires Clean(cutOff) && FirstDelim(cutOff).None?
    ensures Frames(Salvage(RenderAll(es) + cutOff)) == Frames(RenderAll(es))
  {
    RenderedWellFormed(es);
    SalvageStep(RenderAll(es), cutOff);
    SalvageOfCutOff(cutOff);
    RenderedTail(es);
    FramesAppend(RenderAll(es), Salvage(cutOff));
    assert [] + Salvage(cutOff) == Salvage(cutOff);
  }

  lemma CarriedFrames<S>(parse: StateParser<S>, wire: Wire, es: seq<(Event, Ending)>, cutOff: Bytes)
    requires Carries(wire, es, cutOff)
    ensures Clean(Received(wire))
    ensures Delivered(parse, Frames(Salvage(Received(wire)))) == ExpectedAll(parse, es)
  {
    RenderedWellFormed(es);
    CleanSuffix(RenderAll(es), cutOff);
    CutOffAddsNoFrame(es, cutOff);
    RenderedFrames(parse, es);
  }

  lemma {:induction false} RenderedTail(es: seq<(Event, Ending)>)
    requires forall i :: 0 <= i < |es| ==> Sendable(es[i].0)
    ensures Tail(RenderAll(es)) == []
  {
    if es == [] {
    } else {
      RenderAllCut(es);
      RenderedTail(es[1..]);
    }
  }

  /**
    * End to end: any list of events, each rendered with LF, CRLF or CR and split into chunks at
    * arbitrary byte positions, is received as exactly those events in order, unless a cap is hit.
    * An event cut off by the end of the connection is dropped.
    */
  lemma EventsRoundTrip<S>(parse: StateParser<S>, limit: nat, wire: Wire, es: seq<(Event, Ending)>, cutOff: Bytes)
    requires Carries(wire, es, cutOff) && !CapHit(RunFrom(limit, Live([], [], wire)))
    ensures var r := RunFrom(limit, Live([], [], wire));
            Delivered(parse, r.frames) == ExpectedAll(parse, es) && r.ending == Closing(wire)
  {
    CarriedFrames(parse, wire, es, cutOff);
    CleanStreamIsCut(limit, wire);
    RunEndsAsConnection(limit, Live([], [], wire));
  }

  /**
    * No cap is hit when the largest rendered event (or the cut-off one) and the largest chunk exceed the
    * limit by one byte at most.
    */
  lemma EventsRoundTripWithinLimit<S>(parse: StateParser<S>, limit: nat, wire: Wire, es: seq<(Event, Ending)>,
                                      cutOff: Bytes, largest: nat, chunk: nat)
    requires Carries(wire, es, cutOff) && ChunksFit(wire, chunk) && largest + chunk <= limit + 1
    requires |cutOff| <= largest <= limit && forall i :: 0 <= i < |es| ==> |Render(es[i])| <= largest
    ensures var r := RunFrom(limit, Live([], [], wire));
            Delivered(parse, r.frames) == ExpectedAll(parse, es) && r.ending == Closing(wire)
  {
    CarriedFrames(parse, wire, es, cutOff);
    RenderedPiecesFit(es, cutOff, largest);
    NoFalseCap(limit, wire, largest, chunk);
    EventsRoundTrip(parse, limit, wire, es, cutOff);
  }

  lemma {:induction false} RenderedPiecesFit(es: seq<(Event, Ending)>, cutOff: Bytes, largest: nat)
    requires FirstDelim(cutOff).None? && |cutOff| <= largest
    requires forall i :: 0 <= i < |es| ==> Sendable(es[i].0) && |Render(es[i])| <= largest
    ensures PiecesFit(RenderAll(es) + cutOff, largest)
  {
    if es == [] {
      assert RenderAll(es) + cutOff == cutOff;
    } else {
      RenderAllCut(es);
      FramesPop(RenderAll(es), cutOff);
      RenderedPiecesFit(es[1..], cutOff, largest);
    }
  }
}
