/** Field lines of section 9.2 of the WHATWG HTML Standard, against the prefixes `parse_sse_block` looks for. */
module StandardFields {
  import opened Common
  import opened Delimiters
  import opened Newlines
  import opened Sse
  import opened StreamTheorems
  import opened BlankLines

  const COLON: byte := 58

  /** The standard: the name ends at the first colon; a line without one is a name with an empty value. */
  function StandardValue(line: Bytes, name: Bytes): seq<Bytes> {
    match IndexOf(line, COLON) {
      case Some(i) => if line[..i] == name then [StripSpace(line[i + 1..])] else []
      case None => if line == name then [[]] else []
    }
  }

  function StandardValues(lines: seq<Bytes>, name: Bytes): seq<Bytes> {
    if lines == [] then []
    else StandardValues(lines[..|lines| - 1], name) + StandardValue(lines[|lines| - 1], name)
  }

  lemma NamesOfPrefixes()
    ensures [COLON] == Ascii(":")
    ensures EVENT == Ascii("event") + [COLON] && COLON !in Ascii("event")
    ensures DATA == Ascii("data") + [COLON] && COLON !in Ascii("data")
    ensures ID == Ascii("id") + [COLON] && COLON !in Ascii("id")
  {
  }

  lemma FirstColon(line: Bytes, name: Bytes)
    requires COLON !in name
    ensures name + [COLON] <= line <==> IndexOf(line, COLON) == Some(|name|) && line[..|name|] == name
  {
    if |name| < |line| { assert line[..|name| + 1] == line[..|name|] + [line[|name|]]; }
    if name + [COLON] <= line {
      var rest := line[|name| + 1..];
      assert line == name + [COLON] + rest;
      IndexOfAppend(name, COLON, rest);
    }
  }

  /** A line means the same to both unless it is the bare name, which the standard reads as an empty value. */
  lemma LineAgreesIff(line: Bytes, name: Bytes)
    requires COLON !in name
    ensures ValueOf(line, name + [COLON]) == StandardValue(line, name) <==> line != name
    ensures line == name ==> ValueOf(line, name + [COLON]) == [] && StandardValue(line, name) == [[]]
  {
    FirstColon(line, name);
  }

  /**
    * The values of a field agree exactly when no line is the bare name; each of those is one more value
    * for the standard.
    */
  lemma {:induction false} FieldAgreesIff(lines: seq<Bytes>, name: Bytes)
    requires COLON !in name
    ensures Values(lines, name + [COLON]) == StandardValues(lines, name) <==> name !in lines
    ensures |Values(lines, name + [COLON])| + Occurrences(lines, name) == |StandardValues(lines, name)|
  {
    if lines == [] {
    } else {
      var init, line := lines[..|lines| - 1], lines[|lines| - 1];
      FieldAgreesIff(init, name);
      LineAgreesIff(line, name);
      OccurrencesZeroIff(lines, name);
      OccurrencesZeroIff(init, name);
      assert lines == init + [line];
    }
  }

  function Occurrences(lines: seq<Bytes>, name: Bytes): nat {
    if lines == [] then 0
    else Occurrences(lines[..|lines| - 1], name) + if lines[|lines| - 1] == name then 1 else 0
  }

  lemma {:induction false} OccurrencesZeroIff(lines: seq<Bytes>, name: Bytes)
    ensures Occurrences(lines, name) == 0 <==> name !in lines
  {
    if lines == [] {
    } else {
      OccurrencesZeroIff(lines[..|lines| - 1], name);
      assert lines == lines[..|lines| - 1] + [lines[|lines| - 1]];
    }
  }

  /** The frame is read as the standard reads its lines exactly when none of them is a bare `event`, `data` or `id`. */
  lemma FrameFieldsAgreeIff(lines: seq<Bytes>)
    ensures (Values(lines, EVENT) == StandardValues(lines, Ascii("event"))
             && Values(lines, DATA) == StandardValues(lines, Ascii("data"))
             && Values(lines, ID) == StandardValues(lines, Ascii("id")))
       <==> Ascii("event") !in lines && Ascii("data") !in lines && Ascii("id") !in lines
  {
    NamesOfPrefixes();
    FieldAgreesIff(lines, Ascii("event"));
    FieldAgreesIff(lines, Ascii("data"));
    FieldAgreesIff(lines, Ascii("id"));
  }

  // ----- Frames without lines ------------------------------------------------------------

  lemma {:induction false} NoLineIff(text: Bytes)
    ensures NonEmptyLines(SplitEol(text)) == [] <==> forall i :: 0 <= i < |text| ==> IsTerminator(text[i])
    decreases |text|
  {
    if LineLen(text) == |text| {
      SplitFirst(text);
      NonEmptyFirst(text, []);
      NoneInLine(text, 0);
    } else {
      var n, q := LineLen(text), NextLine(text);
      SplitFirst(text);
      NonEmptyFirst(text[..n], SplitEol(text[q..]));
      NoLineIff(text[q..]);
      NoneInLine(text, 0);
      FirstLineMeaning(text);
      assert forall i :: q <= i < |text| ==> text[i] == text[q..][i - q];
    }
  }

  /**
    * The loop yields an event without type, data and id for a frame of terminators, where the standard
    * dispatches nothing.
    */
  lemma LinelessFrame<S>(parse: StateParser<S>, frame: Bytes)
    requires forall i :: 0 <= i < |frame| ==> IsTerminator(frame[i])
    ensures FrameOf(parse, frame) == SseFrame(Unknown([], []), None)
  {
    NoLineIff(frame);
    EventOfBlock(parse, frame);
  }
}
