/** Event-stream blocks as servers write them, character by character, and what the client makes of them. */
module WireText {
  import opened Common
  import opened Utf8
  import opened Delimiters
  import opened Newlines
  import opened Sse
  import opened SseStream
  import opened StreamTheorems
  import opened SseRoundTrip

  // ----- Fields --------------------------------------------------------------------------

  datatype Name = EventName | DataName | IdName | Comment

  function NameText(n: Name): (s: string)
    ensures IsAscii(s)
  {
    match n {
      case EventName => "event:"
      case DataName => "data:"
      case IdName => "id:"
      case Comment => ":"
    }
  }

  /** A field line: its name, the optional space after the colon, and its value. */
  datatype Field = Field(name: Name, space: Bytes, value: Bytes)

  function LineOf(f: Field): Bytes {
    Ascii(NameText(f.name)) + f.space + f.value
  }

  function LinesOf(fields: seq<Field>): seq<Bytes> {
    Map(LineOf, fields)
  }

  /** The space can be left out where the value does not start with one. */
  predicate Spaced(f: Field) {
    || f.space == Ascii(" ")
    || (f.space == [] && (f.name.Comment? || f.value == [] || f.value[0] as char != ' '))
  }

  predicate AllSpaced(fields: seq<Field>) {
    forall i :: 0 <= i < |fields| ==> Spaced(fields[i])
  }

  /** The values of the fields of that name, in order. */
  function Named(fields: seq<Field>, name: Name): seq<Bytes> {
    if fields == [] then []
    else Named(fields[..|fields| - 1], name) + NamedOne(fields[|fields| - 1], name)
  }

  function NamedOne(f: Field, name: Name): seq<Bytes> {
    if f.name == name then [f.value] else []
  }

  /** The data lines as one text, each but the last followed by a newline. */
  function Joined(data: seq<Bytes>): Bytes {
    if data == [] then [] else if |data| == 1 then data[0] else data[0] + Ascii("\n") + Joined(data[1..])
  }

  /**
    * The last type and the last id count. The type `state` with data that parses is a StateChange; any
    * other block is its type and its data. An empty id is none.
    */
  function Meaning<S>(parse: StateParser<S>, fields: seq<Field>): SseFrame<S> {
    SseFrame(EventMeaning(parse, LastOrEmpty(Named(fields, EventName)), Named(fields, DataName)),
             NoneIfEmpty(LastOrEmpty(Named(fields, IdName))))
  }

  function EventMeaning<S>(parse: StateParser<S>, kind: Bytes, data: seq<Bytes>): SseEvent<S> {
    if kind == Ascii("state") && data != [] && parse(Joined(data)).Some? then StateChange(parse(Joined(data)).value)
    else Unknown(kind, Joined(data))
  }

  function LastOrEmpty(values: seq<Bytes>): Bytes {
    if values == [] then [] else values[|values| - 1]
  }

  function NoneIfEmpty(id: Bytes): Option<Bytes> {
    if id == [] then None else Some(id)
  }

  lemma StateText()
    ensures Ascii("state") == STATE && STATE != []
  {
  }

  lemma NamesDiffer(a: Name, b: Name)
    requires a != b
    ensures NameText(a) != "" && NameText(b) != ""
    ensures Ascii(NameText(a))[..1] != Ascii(NameText(b))[..1]
  {
    assert Ascii(NameText(a))[0] != Ascii(NameText(b))[0];
  }

  lemma LineValue(f: Field, name: Name)
    requires Spaced(f) && !name.Comment?
    ensures ValueOf(LineOf(f), Ascii(NameText(name))) == NamedOne(f, name)
  {
    if f.name == name {
      StripOptionalSpace(f);
      ValueAfterPrefix(Ascii(NameText(name)), f.space, f.value);
    } else {
      NamesDiffer(f.name, name);
      OtherPrefix(Ascii(NameText(f.name)), f.space + f.value, Ascii(NameText(name)));
      Associate(Ascii(NameText(f.name)), f.space, f.value);
    }
  }

  lemma ValueAfterPrefix(prefix: Bytes, space: Bytes, value: Bytes)
    ensures ValueOf(prefix + space + value, prefix) == [StripSpace(space + value)]
  {
    assert (prefix + space + value)[|prefix|..] == space + value;
  }

  lemma OtherPrefix(prefix: Bytes, rest: Bytes, other: Bytes)
    requires prefix != [] && other != [] && prefix[..1] != other[..1]
    ensures ValueOf(prefix + rest, other) == []
  {
    var line := prefix + rest;
    assert line[0] == prefix[0];
    assert line[..1] == prefix[..1];
    if other <= line { OneLess(line, other); }
  }

  lemma OneLess(line: Bytes, prefix: Bytes)
    requires prefix <= line && prefix != []
    ensures line[..1] == prefix[..1]
  {
  }

  lemma StripOptionalSpace(f: Field)
    requires Spaced(f) && !f.name.Comment?
    ensures StripSpace(f.space + f.value) == f.value
  {
    ControlCodes();
    if f.space == [] {
      NothingBefore(f.value);
    } else {
      assert (f.space + f.value)[1..] == f.value;
    }
  }

  lemma {:induction false} LineValues(fields: seq<Field>, name: Name)
    requires AllSpaced(fields) && !name.Comment?
    ensures Values(LinesOf(fields), Ascii(NameText(name))) == Named(fields, name)
  {
    if fields == [] {
    } else {
      var n := |fields| - 1;
      LineValues(fields[..n], name);
      LineValue(fields[n], name);
      MapTake(LineOf, fields, n);
    }
  }

  lemma {:induction false} JoinedByNewlines(data: seq<Bytes>)
    ensures Join(data) == Joined(data)
  {
    if |data| > 1 {
      ControlCodes();
      JoinedByNewlines(data[1..]);
    }
  }

  lemma EventValues(fields: seq<Field>)
    requires AllSpaced(fields)
    ensures Values(LinesOf(fields), EVENT) == Named(fields, EventName)
  {
    LineValues(fields, EventName);
    assert Ascii("event:") == EVENT;
  }

  lemma DataValues(fields: seq<Field>)
    requires AllSpaced(fields)
    ensures Values(LinesOf(fields), DATA) == Named(fields, DataName)
  {
    LineValues(fields, DataName);
    assert Ascii("data:") == DATA;
  }

  lemma IdValues(fields: seq<Field>)
    requires AllSpaced(fields)
    ensures Values(LinesOf(fields), ID) == Named(fields, IdName)
  {
    LineValues(fields, IdName);
    assert Ascii("id:") == ID;
  }

  lemma EventIsItsMeaning<S>(parse: StateParser<S>, kinds: seq<Bytes>, data: seq<Bytes>)
    ensures MakeEvent(parse, Last(kinds), data) == EventMeaning(parse, LastOrEmpty(kinds), data)
  {
    StateText();
    JoinedByNewlines(data);
  }

  /** Parsing the lines gives the meaning of the fields, in any order and with any repetition. */
  lemma LinesMeaning<S>(parse: StateParser<S>, fields: seq<Field>)
    requires AllSpaced(fields)
    ensures FrameOfLines(parse, LinesOf(fields)) == Meaning(parse, fields)
  {
    EventValues(fields);
    DataValues(fields);
    IdValues(fields);
    EventIsItsMeaning(parse, Named(fields, EventName), Named(fields, DataName));
  }

  /** One type, one data line and one id. */
  lemma ThreeFields<S>(parse: StateParser<S>, v: Bytes, w: Bytes, i: Bytes)
    requires i != []
    ensures FrameOfLines(parse, [Ascii("event: ") + v, Ascii("data: ") + w, Ascii("id: ") + i])
         == SseFrame(if v == Ascii("state") && parse(w).Some? then StateChange(parse(w).value) else Unknown(v, w),
                     Some(i))
  {
    var space := Ascii(" ");
    var kind, data, id := Field(EventName, space, v), Field(DataName, space, w), Field(IdName, space, i);
    LinesMeaning(parse, [kind, data, id]);
    MeaningOfThree(parse, kind, data, id);
    LinesOfThree(kind, data, id);
    SpacedNames();
  }

  lemma LinesOfThree(a: Field, b: Field, c: Field)
    ensures LinesOf([a, b, c]) == [LineOf(a), LineOf(b), LineOf(c)]
  {
  }

  lemma MeaningOfThree<S>(parse: StateParser<S>, kind: Field, data: Field, id: Field)
    requires kind.name.EventName? && data.name.DataName? && id.name.IdName? && id.value != []
    ensures Meaning(parse, [kind, data, id])
         == SseFrame(EventMeaning(parse, kind.value, [data.value]), Some(id.value))
  {
    NamedOfThree(kind, data, id, EventName);
    NamedOfThree(kind, data, id, DataName);
    NamedOfThree(kind, data, id, IdName);
    PickOne([kind.value], [data.value], [id.value]);
  }

  lemma SpacedNames()
    ensures Ascii("event:") + Ascii(" ") == Ascii("event: ")
    ensures Ascii("data:") + Ascii(" ") == Ascii("data: ")
    ensures Ascii("id:") + Ascii(" ") == Ascii("id: ")
  {
  }

  lemma NamedOfThree(a: Field, b: Field, c: Field, name: Name)
    ensures Named([a, b, c], name) == NamedOne(a, name) + NamedOne(b, name) + NamedOne(c, name)
  {
    assert [a, b, c][..2] == [a, b] && [a, b][..1] == [a] && [a][..0] == [];
    NothingBefore(NamedOne(a, name));
    assert Named([a], name) == NamedOne(a, name);
    assert Named([a, b], name) == NamedOne(a, name) + NamedOne(b, name);
  }

  // ----- Blocks --------------------------------------------------------------------------

  /** A block and its line terminator. */
  datatype Written = Written(fields: seq<Field>, eol: Bytes)

  predicate IsEol(eol: Bytes) {
    eol == Ascii("\n") || eol == Ascii("\r\n") || eol == Ascii("\r")
  }

  /** Values are strings that hold no terminator. */
  predicate OneLineText(s: Bytes) {
    WellFormed(s) && '\n' as byte !in s && '\r' as byte !in s
  }

  predicate Writable(b: Written) {
    && b.fields != [] && IsEol(b.eol) && AllSpaced(b.fields)
    && forall i :: 0 <= i < |b.fields| ==> OneLineText(b.fields[i].value)
  }

  function TextOfLines(lines: seq<Bytes>, eol: Bytes): Bytes {
    if lines == [] then [] else lines[0] + eol + TextOfLines(lines[1..], eol)
  }

  /** The lines of the block, each with its terminator, and an empty line. */
  function TextOf(b: Written): Bytes {
    TextOfLines(LinesOf(b.fields), b.eol) + b.eol
  }

  function TextOfAll(bs: seq<Written>): Bytes {
    if bs == [] then [] else TextOf(bs[0]) + TextOfAll(bs[1..])
  }

  function Meanings<S>(parse: StateParser<S>, bs: seq<Written>): seq<SseFrame<S>> {
    if bs == [] then [] else [Meaning(parse, bs[0].fields)] + Meanings(parse, bs[1..])
  }

  predicate AllWritable(bs: seq<Written>) {
    forall i :: 0 <= i < |bs| ==> Writable(bs[i])
  }

  lemma EolOf(eol: Bytes) returns (e: Ending)
    requires IsEol(eol)
    ensures Eol(e) == eol
  {
    ControlCodes();
    e := if eol == Ascii("\n") then Lf else if eol == Ascii("\r") then Cr else CrLf;
  }

  lemma {:induction false} TextIsBlock(lines: seq<Bytes>, eol: Bytes)
    requires lines != []
    ensures TextOfLines(lines, eol) == Block(lines, eol) + eol
  {
    if |lines| == 1 {
      NothingAfter(lines[0] + eol);
    } else {
      TextIsBlock(lines[1..], eol);
      Associate(lines[0] + eol, Block(lines[1..], eol), eol);
    }
  }

  lemma LineIsText(f: Field)
    requires Spaced(f) && OneLineText(f.value)
    ensures FieldLine(LineOf(f))
  {
    var head := Ascii(NameText(f.name)) + f.space;
    ControlCodes();
    NameHasNoTerminator(f.name);
    AsciiWellFormed(head);
    ConcatWellFormed(head, f.value);
  }

  lemma NameHasNoTerminator(n: Name)
    ensures LF !in Ascii(NameText(n)) && CR !in Ascii(NameText(n)) && NameText(n) != ""
  {
  }

  lemma LinesAreText(b: Written)
    requires Writable(b)
    ensures FieldLinesOnly(LinesOf(b.fields))
  {
    forall i | 0 <= i < |b.fields|
      ensures FieldLine(LinesOf(b.fields)[i])
    {
      LineIsText(b.fields[i]);
    }
  }

  /** A written block is the first frame of the stream, and its lines are read as they were written. */
  lemma BlockIsReceived<S>(parse: StateParser<S>, b: Written, rest: Bytes)
    requires Writable(b)
    ensures Delivered(parse, Frames(TextOf(b) + rest)) == [Meaning(parse, b.fields)] + Delivered(parse, Frames(rest))
  {
    var lines := LinesOf(b.fields);
    var e := EolOf(b.eol);
    var block := Block(lines, b.eol);
    LinesAreText(b);
    TextIsBlock(lines, b.eol);
    BlockIsFirstFrame(lines, e, rest);
    CutAtBlankLine(block, b.eol, rest);
    BlockLines(lines, e);
    LineEndingsDoNotMatter(parse, block);
    LinesMeaning(parse, b.fields);
    FirstDelivered(parse, TextOf(b) + rest, Delim(|block|, 2 * |b.eol|));
  }

  lemma FirstDelivered<S>(parse: StateParser<S>, text: Bytes, d: Delim)
    requires FirstDelim(text) == Some(d)
    ensures Delivered(parse, Frames(text)) == [FrameOf(parse, text[..d.pos])] + Delivered(parse, Frames(After(text, d)))
  {
    assert Frames(text)[1..] == Frames(After(text, d));
  }

  lemma BlockIsString(b: Written)
    requires Writable(b)
    ensures WellFormed(TextOf(b))
  {
    var lines := LinesOf(b.fields);
    var e := EolOf(b.eol);
    LinesAreText(b);
    TextIsBlock(lines, b.eol);
    BlockWellFormed(lines, e);
    AsciiWellFormed(b.eol);
    ConcatWellFormed(Block(lines, b.eol), b.eol);
    ConcatWellFormed(TextOfLines(lines, b.eol), b.eol);
  }

  lemma {:induction false} BlocksAreReceived<S>(parse: StateParser<S>, bs: seq<Written>)
    requires AllWritable(bs)
    ensures WellFormed(TextOfAll(bs)) && Delivered(parse, Frames(TextOfAll(bs))) == Meanings(parse, bs)
  {
    if bs == [] {
    } else {
      BlocksAreReceived(parse, bs[1..]);
      BlockIsString(bs[0]);
      ConcatWellFormed(TextOf(bs[0]), TextOfAll(bs[1..]));
      BlockIsReceived(parse, bs[0], TextOfAll(bs[1..]));
    }
  }

  /**
    * Blocks written down in text, with fields in any order, any of the three terminators and the optional
    * space or not, arrive as what they mean, however the bytes are cut into chunks, unless a cap is hit.
    */
  lemma WrittenStreamArrives<S>(parse: StateParser<S>, limit: nat, wire: Wire, bs: seq<Written>)
    requires AllWritable(bs) && Received(wire) == TextOfAll(bs) && !CapHit(RunFrom(limit, Live([], [], wire)))
    ensures Delivered(parse, RunFrom(limit, Live([], [], wire)).frames) == Meanings(parse, bs)
  {
    BlocksAreReceived(parse, bs);
    SalvageWellFormed(TextOfAll(bs));
    CleanStreamIsCut(limit, wire);
  }
}
