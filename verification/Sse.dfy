/** Event-stream frames and `parse_sse_block`. */
module Sse {
  import opened Common
  import opened Newlines

  const EVENT: Bytes := [101, 118, 101, 110, 116, 58]  // "event:"
  const DATA: Bytes := [100, 97, 116, 97, 58]          // "data:"
  const ID: Bytes := [105, 100, 58]                    // "id:"
  const STATE: Bytes := [115, 116, 97, 116, 101]       // "state"

  datatype SseEvent<S> = StateChange(change: S) | Unknown(eventType: Bytes, data: Bytes)

  datatype SseFrame<S> = SseFrame(event: SseEvent<S>, id: Option<Bytes>)

  /** The JSON parse of a StateChange object; `None` on any failure. */
  type StateParser<!S> = Bytes -> Option<S>

  // ----- What a list of lines means ------------------------------------------------------

  /** One leading space is removed from a field value. */
  function StripSpace(value: Bytes): Bytes {
    if value != [] && value[0] == SPACE then value[1..] else value
  }

  /** The values of every line of the given field, in order. */
  function Values(lines: seq<Bytes>, field: Bytes): seq<Bytes> {
    if lines == [] then []
    else Values(lines[..|lines| - 1], field) + ValueOf(lines[|lines| - 1], field)
  }

  function ValueOf(line: Bytes, field: Bytes): seq<Bytes> {
    if field <= line then [StripSpace(line[|field|..])] else []
  }

  function Last<T>(s: seq<T>): Option<T> {
    if s == [] then None else Some(s[|s| - 1])
  }

  function NonEmpty(v: Option<Bytes>): Option<Bytes> {
    if v == Some([]) then None else v
  }

  /** `join("\n")`. */
  function Join(lines: seq<Bytes>): Bytes {
    if lines == [] then []
    else if |lines| == 1 then lines[0]
    else lines[0] + [LF] + Join(lines[1..])
  }

  /** The event of a frame whose last `event:` value is `kind` and whose `data:` values are `data`. */
  function MakeEvent<S>(parse: StateParser<S>, kind: Option<Bytes>, data: seq<Bytes>): SseEvent<S> {
    match kind {
      case None => Unknown([], Join(data))
      case Some(k) =>
        if k != STATE || data == [] then Unknown(k, Join(data))
        else match parse(Join(data)) {
          case Some(change) => StateChange(change)
          case None => Unknown(STATE, Join(data))
        }
    }
  }

  /** The last `event:` and `id:` lines count, every `data:` line counts, and nothing else does. */
  function FrameOfLines<S>(parse: StateParser<S>, lines: seq<Bytes>): SseFrame<S> {
    SseFrame(MakeEvent(parse, Last(Values(lines, EVENT)), Values(lines, DATA)),
             NonEmpty(Last(Values(lines, ID))))
  }

  // ----- The parser ----------------------------------------------------------------------

  function StripPrefix(line: Bytes, prefix: Bytes): Option<Bytes> {
    if prefix <= line then Some(line[|prefix|..]) else None
  }

  method ParseStateData<S>(parse: StateParser<S>, eventType: Bytes, data: Bytes) returns (event: SseEvent<S>)
    ensures event == match parse(data) { case Some(c) => StateChange(c) case None => Unknown(eventType, data) }
  {
    match parse(data) {
      case Some(change) => return StateChange(change);
      case None => return Unknown(eventType, data);
    }
  }

  /** The match that ends `parse_sse_block`. */
  method EventOf<S>(parse: StateParser<S>, eventType: Option<Bytes>, dataLines: seq<Bytes>)
    returns (event: SseEvent<S>)
    ensures event == MakeEvent(parse, eventType, dataLines)
  {
    match eventType {
      case Some(t) =>
        if t == STATE {
          if |dataLines| == 0 {
            event := Unknown(STATE, []);
          } else if |dataLines| == 1 {
            event := ParseStateData(parse, STATE, dataLines[0]);
          } else {
            event := ParseStateData(parse, STATE, Join(dataLines));
          }
        } else {
          event := Unknown(t, Join(dataLines));
        }
      case None =>
        event := Unknown([], Join(dataLines));
    }
  }

  method ParseSseBlock<S>(parse: StateParser<S>, block: Bytes) returns (frame: SseFrame<S>)
    ensures frame == FrameOfLines(parse, Lines(block))
  {
    var eventType: Option<Bytes> := None;
    var dataLines: seq<Bytes> := [];
    var id: Option<Bytes> := None;
    var lines := Lines(block);
    for i := 0 to |lines|
      invariant eventType == Last(Values(lines[..i], EVENT))
      invariant dataLines == Values(lines[..i], DATA)
      invariant id == NonEmpty(Last(Values(lines[..i], ID)))
    {
      var line := lines[i];
      ValuesSnoc(lines, i);
      FieldsAreDisjoint(line);
      var value := StripPrefix(line, EVENT);
      if value.Some? {
        eventType := Some(StripSpace(value.value));
      } else {
        value := StripPrefix(line, DATA);
        if value.Some? {
          dataLines := dataLines + [StripSpace(value.value)];
        } else {
          value := StripPrefix(line, ID);
          if value.Some? {
            var v := StripSpace(value.value);
            id := if v == [] then None else Some(v);
          }
        }
      }
    }
    assert lines[..|lines|] == lines;

    var event := EventOf(parse, eventType, dataLines);
    return SseFrame(event, id);
  }

  lemma ValuesSnoc(lines: seq<Bytes>, i: nat)
    requires i < |lines|
    ensures forall field :: Values(lines[..i + 1], field) == Values(lines[..i], field) + ValueOf(lines[i], field)
  {
    assert lines[..i + 1][..i] == lines[..i];
  }

  lemma FieldsAreDisjoint(line: Bytes)
    ensures EVENT <= line ==> !(DATA <= line) && !(ID <= line)
    ensures DATA <= line ==> !(ID <= line)
  {
    if EVENT <= line { assert line[0] == EVENT[0]; }
    if DATA <= line { assert line[0] == DATA[0]; }
    if ID <= line { assert line[0] == ID[0]; }
  }

  /** Comments and unknown fields change nothing, wherever they stand. */
  lemma OtherLinesAreIgnored<S>(parse: StateParser<S>, before: seq<Bytes>, line: Bytes, after: seq<Bytes>)
    requires !(EVENT <= line) && !(DATA <= line) && !(ID <= line)
    ensures FrameOfLines(parse, before + [line] + after) == FrameOfLines(parse, before + after)
  {
    OneLineLess(before, line, after, EVENT);
    OneLineLess(before, line, after, DATA);
    OneLineLess(before, line, after, ID);
  }

  lemma OneLineLess(before: seq<Bytes>, line: Bytes, after: seq<Bytes>, field: Bytes)
    requires !(field <= line)
    ensures Values(before + [line] + after, field) == Values(before + after, field)
  {
    ValuesAppend(before + [line], after, field);
    ValuesAppend(before, after, field);
    assert (before + [line])[..|before|] == before;
    assert Values(before + [line], field) == Values(before, field) + [];
  }

  // ----- Line endings do not matter ------------------------------------------------------

  lemma {:induction false} ValuesAppend(a: seq<Bytes>, b: seq<Bytes>, field: Bytes)
    ensures Values(a + b, field) == Values(a, field) + Values(b, field)
  {
    if b == [] {
      assert a + b == a;
    } else {
      assert (a + b)[..|a + b| - 1] == a + b[..|b| - 1];
      ValuesAppend(a, b[..|b| - 1], field);
    }
  }

  lemma ValuesOne(line: Bytes, field: Bytes)
    ensures Values([line], field) == ValueOf(line, field)
  {
    assert [line][..0] == [];
    NothingBefore(ValueOf(line, field));
  }

  lemma EmptyLineIsIgnored(lines: seq<Bytes>, field: Bytes)
    requires field != []
    ensures Values(lines + [[]], field) == Values(lines, field)
  {
    assert (lines + [[]])[..|lines|] == lines;
  }

  /** Parsing the normalised frame reads the lines of the original frame, whatever ends them. */
  lemma LineEndingsDoNotMatter<S>(parse: StateParser<S>, frame: Bytes)
    ensures FrameOfLines(parse, Lines(Normalize(frame))) == FrameOfLines(parse, SplitEol(frame))
  {
    NormalizeIsFaithful(frame);
    LinesWithoutCr(Normalize(frame));
    var lines := Lines(Normalize(frame));
    EmptyLineIsIgnored(lines, EVENT);
    EmptyLineIsIgnored(lines, DATA);
    EmptyLineIsIgnored(lines, ID);
  }
}
