/** Level 1 URI template expansion (section 3.2.2 of RFC 6570) with percent-encoding (RFC 3986). */
module UriTemplate {
  import opened Common
  import opened Characters
  import opened Errors
  import opened Hex
  import opened Utf8

  const OPEN: byte := 123     // '{'
  const CLOSE: byte := 125    // '}'
  const PERCENT: byte := 37   // '%'

  // ----- Percent-encoding ----------------------------------------------------------------

  /** Section 2.3 of RFC 3986. */
  predicate IsUnreserved(b: byte) {
    48 <= b <= 57 || 65 <= b <= 90 || 97 <= b <= 122 || b == 45 || b == 46 || b == 95 || b == 126
  }

  function EncodeByte(b: byte): Bytes {
    if IsUnreserved(b) then [b] else [PERCENT, HexNibbleUpper(b / 16), HexNibbleUpper(b % 16)]
  }

  /** Per-byte definition. */
  function PercentEncoding(value: Bytes): Bytes {
    if value == [] then [] else EncodeByte(value[0]) + PercentEncoding(value[1..])
  }

  lemma {:induction false} EncodingAppend(a: Bytes, b: Bytes)
    ensures PercentEncoding(a + b) == PercentEncoding(a) + PercentEncoding(b)
  {
    if a == [] {
      assert a + b == b;
    } else {
      assert (a + b)[1..] == a[1..] + b;
      EncodingAppend(a[1..], b);
    }
  }

  lemma {:induction false} EncodingOfUnreserved(a: Bytes)
    requires forall i :: 0 <= i < |a| ==> IsUnreserved(a[i])
    ensures PercentEncoding(a) == a
  {
    if a == [] {
    } else {
      EncodingOfUnreserved(a[1..]);
      assert a == [a[0]] + a[1..];
    }
  }

  lemma EncodeNext(value: Bytes, i: nat)
    requires i < |value|
    ensures PercentEncoding(value[..i + 1]) == PercentEncoding(value[..i]) + EncodeByte(value[i])
  {
    var one := [value[i]];
    assert value[..i + 1] == value[..i] + one;
    EncodingAppend(value[..i], one);
    assert one[1..] == [] && PercentEncoding(one) == EncodeByte(one[0]) + PercentEncoding([]);
  }

  lemma UnreservedPrefixCuts(value: Bytes, n: nat)
    requires WellFormed(value) && n <= |value| && forall i :: 0 <= i < n ==> IsUnreserved(value[i])
    ensures IsCharBoundary(value, n)
  {
    if n > 0 { AsciiCuts(value, n - 1); }
  }

  /** `percent_encode`: borrow when nothing needs escaping, else copy the clean prefix and encode the rest. */
  method PercentEncode(value: Bytes) returns (encoded: Bytes)
    requires WellFormed(value)
    ensures encoded == PercentEncoding(value)
  {
    var first := 0;
    while first < |value| && IsUnreserved(value[first])
      invariant first <= |value|
      invariant forall i :: 0 <= i < first ==> IsUnreserved(value[i])
    {
      first := first + 1;
    }
    EncodingOfUnreserved(value[..first]);
    if first == |value| {
      assert value[..first] == value;
      return value;
    }
    UnreservedPrefixCuts(value, first);
    var out := StrTo(value, first);
    for i := first to |value|
      invariant out == PercentEncoding(value[..i])
    {
      var b := value[i];
      EncodeNext(value, i);
      if IsUnreserved(b) {
        out := out + [b];
      } else {
        ghost var before := out;
        out := out + [PERCENT];
        out := out + [HexNibbleUpper(b / 16)];
        out := out + [HexNibbleUpper(b % 16)];
        assert out == before + EncodeByte(b);
      }
    }
    assert value[..|value|] == value;
    return out;
  }

  /** A standard percent-decoder: each `%XX` is a byte, everything else stands for itself. */
  function PercentDecode(s: Bytes): Bytes {
    if s == [] then []
    else if |s| >= 3 && s[0] == PERCENT && HexValue(s[1]).Some? && HexValue(s[2]).Some? then
      [HexValue(s[1]).value * 16 + HexValue(s[2]).value] + PercentDecode(s[3..])
    else [s[0]] + PercentDecode(s[1..])
  }

  /** Decoding undoes encoding, for every value. */
  lemma {:induction false} PercentRoundTrip(value: Bytes)
    ensures PercentDecode(PercentEncoding(value)) == value
  {
    if value == [] {
    } else {
      var b, rest := value[0], PercentEncoding(value[1..]);
      PercentRoundTrip(value[1..]);
      var s := EncodeByte(b) + rest;
      if IsUnreserved(b) {
        assert s[1..] == rest;
      } else {
        assert s[3..] == rest;
        assert HexValue(HexNibbleUpper(b / 16)) == Some(b / 16) && HexValue(HexNibbleUpper(b % 16)) == Some(b % 16);
        assert b / 16 * 16 + b % 16 == b;
      }
      assert [b] + value[1..] == value;
    }
  }

  predicate IsUpperHex(c: byte) {
    48 <= c <= 57 || 65 <= c <= 70
  }

  /** A `%XX` that encoding can produce: uppercase, and not of an unreserved byte. */
  predicate IsEscape(s: Bytes) {
    && |s| >= 3 && s[0] == PERCENT && IsUpperHex(s[1]) && IsUpperHex(s[2])
    && !IsUnreserved(HexValue(s[1]).value * 16 + HexValue(s[2]).value)
  }

  /** Sections 2.1 and 2.3 of RFC 3986: unreserved bytes, and escapes of the others. */
  predicate IsEncoded(s: Bytes) {
    s == []
    || (IsUnreserved(s[0]) && IsEncoded(s[1..]))
    || (IsEscape(s) && IsEncoded(s[3..]))
  }

  lemma {:induction false} EncodingShape(value: Bytes)
    ensures IsEncoded(PercentEncoding(value))
    ensures forall i :: 0 <= i < |PercentEncoding(value)| ==>
              IsUnreserved(PercentEncoding(value)[i]) || PercentEncoding(value)[i] == PERCENT
  {
    if value == [] {
    } else {
      var rest := PercentEncoding(value[1..]);
      EncodingShape(value[1..]);
      EscapeOf(value[0], rest);
      var s := EncodeByte(value[0]) + rest;
      assert s[|EncodeByte(value[0])|..] == rest;
    }
  }

  lemma EscapeOf(b: byte, rest: Bytes)
    ensures !IsUnreserved(b) ==> IsEscape(EncodeByte(b) + rest) && EncodeByte(b)[0] == PERCENT
    ensures !IsUnreserved(b) ==> IsUnreserved(EncodeByte(b)[1]) && IsUnreserved(EncodeByte(b)[2])
  {
    assert b / 16 * 16 + b % 16 == b;
  }

  /** Every text of that shape is the encoding of some bytes. */
  lemma {:induction false} EncodedIsEncoding(s: Bytes)
    requires IsEncoded(s)
    ensures PercentEncoding(PercentDecode(s)) == s
  {
    if s == [] {
    } else if IsUnreserved(s[0]) {
      EncodedIsEncoding(s[1..]);
      assert ([s[0]] + PercentDecode(s[1..]))[1..] == PercentDecode(s[1..]);
      assert [s[0]] + s[1..] == s;
    } else {
      EncodedIsEncoding(s[3..]);
      var b := EscapedByte(s);
      assert PercentDecode(s) == [b] + PercentDecode(s[3..]);
      assert ([b] + PercentDecode(s[3..]))[1..] == PercentDecode(s[3..]);
      assert s[..3] + s[3..] == s;
    }
  }

  lemma EscapedByte(s: Bytes) returns (b: byte)
    requires IsEscape(s)
    ensures b == HexValue(s[1]).value * 16 + HexValue(s[2]).value && EncodeByte(b) == s[..3]
  {
    b := HexValue(s[1]).value * 16 + HexValue(s[2]).value;
    assert b / 16 == HexValue(s[1]).value && b % 16 == HexValue(s[2]).value;
  }

  lemma EncodingInjective(a: Bytes, b: Bytes)
    requires PercentEncoding(a) == PercentEncoding(b)
    ensures a == b
  {
    PercentRoundTrip(a);
    PercentRoundTrip(b);
  }

  // ----- The characters ------------------------------------------------------------------

  const MARKS: string := "-._~"

  lemma FourMarks(c: char)
    ensures c in MARKS <==> c == '-' || c == '.' || c == '_' || c == '~'
  {
    assert MARKS[0] == '-' && MARKS[1] == '.' && MARKS[2] == '_' && MARKS[3] == '~';
  }

  lemma UnreservedCharacters(b: byte)
    ensures IsUnreserved(b) <==> b as char in UPPER + LOWER + DIGITS + MARKS
  {
    Alphanumeric(b as char);
    FourMarks(b as char);
  }

  /**
    * The 66 unreserved characters stand for themselves, and every other byte becomes `%` and its two
    * uppercase hex digits.
    */
  lemma EncodingOfOneByte(b: byte)
    ensures var e := PercentEncoding([b]);
            if b as char in UPPER + LOWER + DIGITS + MARKS then e == [b]
            else e == Ascii(['%', "0123456789ABCDEF"[b / 16], "0123456789ABCDEF"[b % 16]])
  {
    UnreservedCharacters(b);
    EncodeNext([b], 0);
    assert [b][..1] == [b] && [b][..0] == [];
    NothingBefore(EncodeByte(b));
    UpperDigit(b / 16);
    UpperDigit(b % 16);
  }

  // ----- Encodings of strings ------------------------------------------------------------

  /** A text of that shape whose bytes are well-formed UTF-8. */
  predicate IsEncodedString(s: Bytes) {
    IsEncoded(s) && WellFormed(PercentDecode(s))
  }

  /** These texts are exactly the encodings of strings. */
  lemma EncodedStringIff(s: Bytes)
    ensures IsEncodedString(s) <==> exists value :: WellFormed(value) && PercentEncoding(value) == s
  {
    if IsEncodedString(s) {
      EncodedIsEncoding(s);
    }
    forall value | WellFormed(value) && PercentEncoding(value) == s
      ensures IsEncodedString(s)
    {
      StringIsEncoded(value);
    }
  }

  lemma StringIsEncoded(value: Bytes)
    requires WellFormed(value)
    ensures IsEncodedString(PercentEncoding(value))
  {
    EncodingShape(value);
    PercentRoundTrip(value);
  }

  lemma {:induction false} EncodedSuffix(a: Bytes, c: Bytes)
    requires IsEncoded(a)
    ensures IsEncoded(a + c) <==> IsEncoded(c)
  {
    if a == [] {
      assert a + c == c;
    } else if IsUnreserved(a[0]) {
      DropAppend(a, c, 1);
      EncodedSuffix(a[1..], c);
    } else {
      DropAppend(a, c, 3);
      EncodedSuffix(a[3..], c);
    }
  }

  lemma {:induction false} DecodeAppend(a: Bytes, c: Bytes)
    requires IsEncoded(a)
    ensures PercentDecode(a + c) == PercentDecode(a) + PercentDecode(c)
  {
    if a == [] {
      NothingBefore(c);
      NothingBefore(PercentDecode(c));
    } else if IsUnreserved(a[0]) {
      DropAppend(a, c, 1);
      DecodeAppend(a[1..], c);
      Associate([a[0]], PercentDecode(a[1..]), PercentDecode(c));
    } else {
      DropAppend(a, c, 3);
      DecodeAppend(a[3..], c);
      Associate([HexValue(a[1]).value * 16 + HexValue(a[2]).value], PercentDecode(a[3..]), PercentDecode(c));
    }
  }

  lemma StringSuffix(a: Bytes, c: Bytes)
    requires IsEncodedString(a)
    ensures IsEncodedString(a + c) <==> IsEncodedString(c)
  {
    EncodedSuffix(a, c);
    DecodeAppend(a, c);
    ConcatWellFormed(PercentDecode(a), PercentDecode(c));
  }

  predicate AllUnreserved(d: Bytes) {
    forall i :: 0 <= i < |d| ==> IsUnreserved(d[i])
  }

  lemma UnreservedIsString(d: Bytes)
    requires AllUnreserved(d)
    ensures IsEncodedString(d) && PercentDecode(d) == d
  {
    EncodingOfUnreserved(d);
    AsciiWellFormed(d);
    StringIsEncoded(d);
    PercentRoundTrip(d);
  }

  // ----- Templates -----------------------------------------------------------------------

  /** A variable and the literal before it. */
  datatype Slot = Slot(literal: Bytes, name: Bytes)

  /** A template: its slots, and the literal at the end, or a `{` that is never closed. */
  datatype Template = Template(slots: seq<Slot>, tail: Result<Bytes, TemplateFault>)

  function Parse(t: Bytes): Template
    decreases |t|
  {
    match IndexOf(t, OPEN) {
      case None => Template([], Ok(t))
      case Some(open) =>
        match IndexOf(t[open + 1..], CLOSE) {
          case None => Template([], Err(UnmatchedBrace))
          case Some(close) =>
            var rest := Parse(t[open + 1..][close + 1..]);
            rest.(slots := [Slot(t[..open], t[open + 1..][..close])] + rest.slots)
        }
    }
  }

  /** Writing a template down. */
  function Unparse(slots: seq<Slot>, tail: Bytes): Bytes {
    if slots == [] then tail
    else slots[0].literal + [OPEN] + (slots[0].name + [CLOSE] + Unparse(slots[1..], tail))
  }

  /** Literals hold no `{` and names no `}`. */
  predicate Unambiguous(slots: seq<Slot>) {
    forall i :: 0 <= i < |slots| ==> OPEN !in slots[i].literal && CLOSE !in slots[i].name
  }

  lemma ParseSlot(literal: Bytes, name: Bytes, rest: Bytes)
    requires OPEN !in literal && CLOSE !in name
    ensures Parse(literal + [OPEN] + (name + [CLOSE] + rest))
         == Template([Slot(literal, name)] + Parse(rest).slots, Parse(rest).tail)
  {
    var inner := name + [CLOSE] + rest;
    var t := literal + [OPEN] + inner;
    IndexOfAppend(literal, OPEN, inner);
    assert t[|literal| + 1..] == inner && t[..|literal|] == literal;
    IndexOfAppend(name, CLOSE, rest);
    assert inner[|name| + 1..] == rest && inner[..|name|] == name;
  }

  /** Parsing inverts writing a template down. */
  lemma {:induction false} ParseUnparse(slots: seq<Slot>, tail: Bytes)
    requires Unambiguous(slots) && OPEN !in tail
    ensures Parse(Unparse(slots, tail)) == Template(slots, Ok(tail))
  {
    if slots == [] {
    } else {
      ParseUnparse(slots[1..], tail);
      ParseSlot(slots[0].literal, slots[0].name, Unparse(slots[1..], tail));
      assert [slots[0]] + slots[1..] == slots;
    }
  }

  type Vars = seq<(Bytes, Bytes)>

  /** The first entry of that name. */
  function Lookup(vars: Vars, name: Bytes): Option<Bytes> {
    if vars == [] then None else if vars[0].0 == name then Some(vars[0].1) else Lookup(vars[1..], name)
  }

  /** Slots are filled from the left; the first missing variable, or the unclosed `{` after them, is the error. */
  function Fill(slots: seq<Slot>, tail: Result<Bytes, TemplateFault>, vars: Vars): Result<Bytes, TemplateFault>
    decreases |slots|
  {
    if slots == [] then tail
    else match Lookup(vars, slots[0].name) {
      case None => Err(VariableNotSupplied(slots[0].name))
      case Some(value) =>
        match Fill(slots[1..], tail, vars) {
          case Err(e) => Err(e)
          case Ok(rest) => Ok(slots[0].literal + PercentEncoding(value) + rest)
        }
    }
  }

  function Expand(t: Bytes, vars: Vars): Result<Bytes, TemplateFault> {
    Fill(Parse(t).slots, Parse(t).tail, vars)
  }

  function Prepend(done: Bytes, rest: Result<Bytes, TemplateFault>): Result<Bytes, TemplateFault> {
    match rest {
      case Ok(s) => Ok(done + s)
      case Err(e) => Err(e)
    }
  }

  method FindVar(vars: Vars, name: Bytes) returns (value: Option<Bytes>)
    ensures value == Lookup(vars, name)
  {
    var i := 0;
    while i < |vars|
      invariant i <= |vars| && Lookup(vars, name) == Lookup(vars[i..], name)
    {
      assert vars[i..][1..] == vars[i + 1..];
      if vars[i].0 == name {
        return Some(vars[i].1);
      }
      i := i + 1;
    }
    return None;
  }

  predicate AreStrings(vars: Vars) {
    forall i :: 0 <= i < |vars| ==> WellFormed(vars[i].1)
  }

  /** `expand_url_template`. */
  method ExpandUrlTemplate(template: Bytes, vars: Vars) returns (r: Result<Bytes, ClientError>)
    requires WellFormed(template) && AreStrings(vars)
    ensures r == match Expand(template, vars) { case Ok(s) => Ok(s) case Err(e) => Err(InvalidSession(e)) }
  {
    var result: Bytes := [];
    var rest := template;
    PrependNothing(Expand(template, vars));
    while true
      invariant WellFormed(rest)
      invariant Expand(template, vars) == Prepend(result, Expand(rest, vars))
      decreases |rest|
    {
      var open := IndexOf(rest, OPEN);
      if open.None? {
        NoMoreSlots(rest, vars);
        return Ok(result + rest);
      }
      var filled, next := FillNext(rest, open.value, vars);
      if filled.Err? {
        return Err(InvalidSession(filled.error));
      }
      PrependTwice(result, filled.value, Expand(next, vars));
      result, rest := result + filled.value, next;
    }
  }

  /** The body of the loop: the literal before the next `{` with the encoded value, and the text after the `}`. */
  method FillNext(rest: Bytes, open: nat, vars: Vars) returns (filled: Result<Bytes, TemplateFault>, next: Bytes)
    requires WellFormed(rest) && AreStrings(vars) && IndexOf(rest, OPEN) == Some(open)
    ensures Expand(rest, vars) == match filled { case Err(e) => Err(e) case Ok(s) => Prepend(s, Expand(next, vars)) }
    ensures filled.Ok? ==> WellFormed(next) && |next| < |rest|
  {
    var literal, inner := SplitAtAscii(rest, open);
    var close := IndexOf(inner, CLOSE);
    if close.None? {
      NoMoreSlots(rest, vars);
      return Err(UnmatchedBrace), [];
    }
    var name;
    name, next := SplitAtAscii(inner, close.value);
    var value := FindVar(vars, name);
    ExpandStep(rest, open, close.value, vars);
    if value.None? {
      return Err(VariableNotSupplied(name)), [];
    }
    LookupIsString(vars, name);
    var encoded := PercentEncode(value.value);
    filled := Ok(literal + encoded);
  }

  /** `&s[..i]` and `&s[i + 1..]` around an ASCII character: neither can panic. */
  method SplitAtAscii(s: Bytes, i: nat) returns (before: Bytes, after: Bytes)
    requires WellFormed(s) && i < |s| && s[i] < 0x80
    ensures before == s[..i] && after == s[i + 1..] && WellFormed(after)
  {
    AsciiCuts(s, i);
    before := StrTo(s, i);
    after := StrFrom(s, i + 1);
  }

  lemma {:induction false} LookupIsString(vars: Vars, name: Bytes)
    requires AreStrings(vars) && Lookup(vars, name).Some?
    ensures WellFormed(Lookup(vars, name).value)
  {
    if vars[0].0 == name {
      assert WellFormed(vars[0].1);
    } else {
      LookupIsString(vars[1..], name);
    }
  }

  lemma NoMoreSlots(t: Bytes, vars: Vars)
    ensures IndexOf(t, OPEN).None? ==> Expand(t, vars) == Ok(t)
    ensures IndexOf(t, OPEN).Some? && IndexOf(t[IndexOf(t, OPEN).value + 1..], CLOSE).None? ==>
              Expand(t, vars) == Err(UnmatchedBrace)
  {
  }

  lemma ParseFirst(t: Bytes, open: nat, close: nat)
    requires IndexOf(t, OPEN) == Some(open) && IndexOf(t[open + 1..], CLOSE) == Some(close)
    ensures var rest := Parse(t[open + 1..][close + 1..]);
            Parse(t) == Template([Slot(t[..open], t[open + 1..][..close])] + rest.slots, rest.tail)
  {
  }

  lemma ExpandStep(t: Bytes, open: nat, close: nat, vars: Vars)
    requires IndexOf(t, OPEN) == Some(open) && IndexOf(t[open + 1..], CLOSE) == Some(close)
    ensures var name := t[open + 1..][..close];
            Expand(t, vars) == match Lookup(vars, name) {
                                 case None => Err(VariableNotSupplied(name))
                                 case Some(value) =>
                                   Prepend(t[..open] + PercentEncoding(value), Expand(t[open + 1..][close + 1..], vars))
                               }
  {
    ParseFirst(t, open, close);
    var rest := Parse(t[open + 1..][close + 1..]);
    FillFirst(Slot(t[..open], t[open + 1..][..close]), rest.slots, rest.tail, vars);
  }

  lemma FillFirst(slot: Slot, slots: seq<Slot>, tail: Result<Bytes, TemplateFault>, vars: Vars)
    ensures Fill([slot] + slots, tail, vars) ==
              match Lookup(vars, slot.name) {
                case None => Err(VariableNotSupplied(slot.name))
                case Some(value) => Prepend(slot.literal + PercentEncoding(value), Fill(slots, tail, vars))
              }
  {
    assert ([slot] + slots)[1..] == slots;
  }

  lemma PrependNothing(rest: Result<Bytes, TemplateFault>)
    ensures Prepend([], rest) == rest
  {
    if rest.Ok? { assert [] + rest.value == rest.value; }
  }

  lemma PrependTwice(done: Bytes, more: Bytes, rest: Result<Bytes, TemplateFault>)
    ensures Prepend(done, Prepend(more, rest)) == Prepend(done + more, rest)
  {
    if rest.Ok? { Associate(done, more, rest.value); }
  }

  // ----- What a template means -----------------------------------------------------------

  lemma Braces()
    ensures [OPEN] == Ascii("{") && [CLOSE] == Ascii("}")
  {
  }

  /** Text up to the first `{name}`: the value of that variable is put in, or the lack of one is the error. */
  lemma ExpandVariable(literal: Bytes, name: Bytes, rest: Bytes, vars: Vars)
    requires '{' as byte !in literal && '}' as byte !in name
    ensures Expand(literal + Ascii("{") + (name + Ascii("}") + rest), vars) ==
              match Lookup(vars, name) {
                case None => Err(VariableNotSupplied(name))
                case Some(value) => Prepend(literal + PercentEncoding(value), Expand(rest, vars))
              }
  {
    Braces();
    ParseSlot(literal, name, rest);
    FillFirst(Slot(literal, name), Parse(rest).slots, Parse(rest).tail, vars);
  }

  /** Text after the last variable: it stays as it is, unless it opens a brace. */
  lemma ExpandEnd(literal: Bytes, name: Bytes, vars: Vars)
    requires '{' as byte !in literal && '}' as byte !in name
    ensures Expand(literal, vars) == Ok(literal)
    ensures Expand(literal + Ascii("{") + name, vars) == Err(UnmatchedBrace)
  {
    Braces();
    IndexOfAppend(literal, OPEN, name);
    assert (literal + [OPEN] + name)[|literal| + 1..] == name;
    NoMoreSlots(literal, vars);
    NoMoreSlots(literal + [OPEN] + name, vars);
  }

  /** A variable has the value of the first entry with its name. */
  lemma {:induction false} FirstEntryCounts(before: Vars, name: Bytes, value: Bytes, after: Vars)
    ensures Lookup(before, name).None? <==> forall i :: 0 <= i < |before| ==> before[i].0 != name
    ensures Lookup(before + [(name, value)] + after, name)
         == if Lookup(before, name).Some? then Lookup(before, name) else Some(value)
  {
    var vars := before + [(name, value)] + after;
    if before == [] {
      assert vars[0] == (name, value);
    } else {
      FirstEntryCounts(before[1..], name, value, after);
      assert vars[0] == before[0] && vars[1..] == before[1..] + [(name, value)] + after;
      HeadAndTail(before);
    }
  }

  // ----- Expanded templates are plain text -----------------------------------------------

  predicate PlainLiterals(slots: seq<Slot>) {
    forall i :: 0 <= i < |slots| ==> OPEN !in slots[i].literal
  }

  lemma {:induction false} ParsedLiterals(t: Bytes)
    ensures PlainLiterals(Parse(t).slots)
    ensures Parse(t).tail.Ok? ==> OPEN !in Parse(t).tail.value
    decreases |t|
  {
    match IndexOf(t, OPEN) {
      case None =>
      case Some(open) =>
        match IndexOf(t[open + 1..], CLOSE) {
          case None =>
          case Some(close) =>
            ParseFirst(t, open, close);
            ParsedLiterals(t[open + 1..][close + 1..]);
            NotBeforeFirst(t, OPEN, open);
            MorePlainLiterals(Slot(t[..open], t[open + 1..][..close]), Parse(t[open + 1..][close + 1..]).slots);
        }
    }
  }

  lemma NotBeforeFirst(s: Bytes, x: byte, i: nat)
    requires IndexOf(s, x) == Some(i)
    ensures x !in s[..i]
  {
  }

  lemma MorePlainLiterals(slot: Slot, slots: seq<Slot>)
    requires OPEN !in slot.literal && PlainLiterals(slots)
    ensures PlainLiterals([slot] + slots)
  {
  }

  lemma {:induction false} FilledHasNoBrace(slots: seq<Slot>, tail: Result<Bytes, TemplateFault>, vars: Vars)
    requires PlainLiterals(slots)
    requires tail.Ok? ==> OPEN !in tail.value
    ensures Fill(slots, tail, vars).Ok? ==> OPEN !in Fill(slots, tail, vars).value
    decreases |slots|
  {
    if slots == [] {
    } else {
      FilledHasNoBrace(slots[1..], tail, vars);
      match Lookup(vars, slots[0].name) {
        case None =>
        case Some(value) => EncodingShape(value);
      }
    }
  }

  /** An expansion holds no `{`, whatever the values; expanding it again changes nothing. */
  lemma ExpansionIsIdempotent(t: Bytes, vars: Vars, others: Vars)
    requires Expand(t, vars).Ok?
    ensures OPEN !in Expand(t, vars).value
    ensures Expand(Expand(t, vars).value, others) == Expand(t, vars)
  {
    ParsedLiterals(t);
    FilledHasNoBrace(Parse(t).slots, Parse(t).tail, vars);
  }

  // ----- When values can spill between slots ---------------------------------------------

  /**
    * At most two unreserved bytes make the literal an encoded string: it does not stop inside a multi-
    * byte character.
    */
  ghost predicate StringPart(literal: Bytes) {
    exists d :: |d| <= 2 && AllUnreserved(d) && IsEncodedString(literal + d)
  }

  /** Some value and then the byte `x` go on with the character that the literal leaves open. */
  ghost predicate Continues(literal: Bytes, x: byte) {
    exists e, d :: IsEncodedString(e) && IsEncodedString(literal + e + [x] + d)
  }

  /** A prefix of some encoded text: it may stop inside an escape. */
  predicate IsPartialEncoding(s: Bytes) {
    s == [] || s == [PERCENT]
    || (|s| == 2 && s[0] == PERCENT && IsUpperHex(s[1]))
    || (IsUnreserved(s[0]) && IsPartialEncoding(s[1..]))
    || (IsEscape(s) && IsPartialEncoding(s[3..]))
  }

  lemma {:induction false} PrefixIsPartial(p: Bytes, s: Bytes)
    requires IsEncoded(p + s)
    ensures IsPartialEncoding(p)
  {
    var u := p + s;
    if p == [] {
    } else {
      if IsUnreserved(p[0]) {
        assert u[1..] == p[1..] + s;
        PrefixIsPartial(p[1..], s);
      } else if |p| >= 3 {
        assert u[3..] == p[3..] + s;
        PrefixIsPartial(p[3..], s);
      } else if |p| == 2 {
        assert p == [PERCENT, u[1]];
      } else {
        assert p == [PERCENT];
      }
    }
  }

  /** The escape a partial encoding stops in. */
  lemma {:induction false} OpenEscape(p: Bytes) returns (u: Bytes, r: Bytes)
    requires IsPartialEncoding(p)
    ensures p == u + r && IsEncoded(u)
    ensures r == [] || (1 <= |r| <= 2 && r[0] == PERCENT)
  {
    if p == [] || p == [PERCENT] || (|p| == 2 && p[0] == PERCENT && IsUpperHex(p[1])) {
      u, r := [], p;
    } else {
      var n := if IsUnreserved(p[0]) then 1 else 3;
      var u1, r1 := OpenEscape(p[n..]);
      u, r := p[..n] + u1, r1;
      assert u[n..] == u1 && p[..n] + p[n..] == p;
      Associate(p[..n], u1, r1);
    }
  }

  /** The digits that close it, where an encoding goes on. */
  lemma ClosingDigits(r: Bytes, c: Bytes) returns (k: nat)
    requires IsEncoded(r + c) && (r == [] || (1 <= |r| <= 2 && r[0] == PERCENT))
    ensures k <= 2 && k <= |c| && AllUnreserved(c[..k]) && IsEncoded(r + c[..k])
  {
    k := if r == [] then 0 else 3 - |r|;
    if r != [] {
      var u := r + c;
      assert u[0] == PERCENT && IsEscape(u);
      assert r + c[..k] == u[..3];
      assert u[..3][3..] == [] && IsEscape(u[..3]);
      assert forall i :: 0 <= i < k ==> c[i] == u[|r| + i];
    }
  }

  /** No character straddles the place where a string starts. */
  lemma StringStartCuts(p: Bytes, q: Bytes, more: Bytes)
    requires WellFormed(p + q) && WellFormed(q + more)
    ensures WellFormed(p)
  {
    if q == [] {
      NothingAfter(p);
    } else {
      assert (q + more)[0] == q[0] && !IsContinuation(q[0]);
      assert (p + q)[|p|] == q[0] && (p + q)[..|p|] == p;
      BoundaryCuts(p + q, |p|);
    }
  }

  /**
    * A literal that starts an encoded string whose rest `c` also starts an encoded string: closing the
    * escape it may stop in is enough.
    */
  lemma PrefixCompletes(literal: Bytes, c: Bytes, s: Bytes)
    requires IsEncodedString(literal + c) && IsEncodedString(c + s)
    ensures StringPart(literal)
  {
    PrefixIsPartial(literal, c);
    var u, r := OpenEscape(literal);
    Associate(u, r, c);
    EncodedSuffix(u, r + c);
    var k := ClosingDigits(r, c);
    var d, rest := c[..k], c[k..];
    TakeAndDrop(c, k);
    Associate(u, r, d);
    EncodedSuffix(u, r + d);
    Associate(literal, d, rest);
    Associate(d, rest, s);
    UnreservedIsString(d);
    StringSuffix(d, rest + s);
    EncodedSuffix(literal + d, rest);
    DecodeAppend(literal + d, rest);
    DecodeAppend(rest, s);
    StringStartCuts(PercentDecode(literal + d), PercentDecode(rest), PercentDecode(s));
  }

  lemma Overlap(a: Bytes, b: Bytes, literal: Bytes, s: Bytes, t: Bytes)
    requires a + literal + s == b + literal + t && |a| <= |b|
    ensures b == a + b[|a|..] && literal + s == b[|a|..] + literal + t
  {
    var u := a + literal + s;
    assert a == u[..|a|] && b == u[..|b|];
    assert literal + s == u[|a|..];
  }

  lemma PartAfterString(c: Bytes, rest: Bytes)
    requires IsEncodedString(c) && StringPart(rest)
    ensures StringPart(c + rest)
  {
    var d :| |d| <= 2 && AllUnreserved(d) && IsEncodedString(rest + d);
    Associate(c, rest, d);
    StringSuffix(c, rest + d);
  }

  lemma ContinuesAfterString(c: Bytes, rest: Bytes, x: byte)
    requires IsEncodedString(c) && Continues(rest, x)
    ensures Continues(c + rest, x)
  {
    var e, d :| IsEncodedString(e) && IsEncodedString(rest + e + [x] + d);
    RegroupFour(c, rest, e, [x], d);
    StringSuffix(c, rest + e + [x] + d);
  }

  lemma RegroupFour(a: Bytes, b: Bytes, c: Bytes, d: Bytes, e: Bytes)
    ensures a + (b + c + d + e) == a + b + c + d + e
  {
  }

  /**
    * A literal that can be read again after the string `c`: it is part of a string, or the text `n` after
    * its value goes on with the character it leaves open.
    */
  lemma {:induction false} RepeatedLiteral(literal: Bytes, s: Bytes, n: Bytes, c: Bytes, t: Bytes)
    requires IsEncodedString(c) && c != [] && IsEncodedString(s)
    requires literal + s + n == c + literal + t
    ensures StringPart(literal) || (n != [] && Continues(literal, n[0]))
    decreases |literal|
  {
    if |literal| <= |c| {
      var c2 := c[|literal|..];
      FirstReading(literal, s, n, c, t);
      if |c2| <= |s| {
        assert c2 + s[|c2|..] == s by { assert s[..|c2|] == (s + n)[..|c2|] == c2; }
        PrefixCompletes(literal, c2, s[|c2|..]);
      } else {
        GoesOn(literal, s, n, c);
      }
    } else {
      var rest := literal[|c|..];
      SecondReading(literal, s, n, c, t);
      RepeatedLiteral(rest, s, n, c, t);
      if StringPart(rest) {
        PartAfterString(c, rest);
      } else {
        ContinuesAfterString(c, rest, n[0]);
      }
    }
  }

  lemma FirstReading(literal: Bytes, s: Bytes, n: Bytes, c: Bytes, t: Bytes)
    requires literal + s + n == c + literal + t && |literal| <= |c|
    ensures c == literal + c[|literal|..] && c[|literal|..] <= s + n
  {
    var u := literal + s + n;
    assert literal == u[..|literal|] == c[..|literal|];
    assert s + n == u[|literal|..] && c[|literal|..] == u[|literal|..|c|];
  }

  lemma GoesOn(literal: Bytes, s: Bytes, n: Bytes, c: Bytes)
    requires IsEncodedString(c) && IsEncodedString(s) && |literal| <= |c| && c == literal + c[|literal|..]
    requires c[|literal|..] <= s + n && |s| < |c| - |literal|
    ensures n != [] && Continues(literal, n[0])
  {
    var c2 := c[|literal|..];
    var d := c2[|s| + 1..];
    assert c2[..|s|] == s && c2[|s|] == n[0];
    assert c2 == s + [n[0]] + d;
    assert c == literal + s + [n[0]] + d;
  }

  lemma SecondReading(literal: Bytes, s: Bytes, n: Bytes, c: Bytes, t: Bytes)
    requires literal + s + n == c + literal + t && |literal| > |c|
    ensures literal == c + literal[|c|..]
    ensures literal[|c|..] + s + n == c + literal[|c|..] + t
  {
    var u, rest := literal + s + n, literal[|c|..];
    assert c == u[..|c|] == literal[..|c|];
    assert rest + s + n == u[|c|..] == literal + t;
    assert literal == c + rest;
  }

  /** Nothing before the text after the value completes the literal, and that text does not continue it. */
  ghost predicate Separates(literal: Bytes, n: Bytes) {
    !StringPart(literal) && (n != [] ==> !Continues(literal, n[0]))
  }

  lemma NotShorter(e: Bytes, f: Bytes, literal: Bytes, s: Bytes, n: Bytes, t: Bytes)
    requires IsEncodedString(e) && IsEncodedString(f) && IsEncodedString(s) && Separates(literal, n)
    requires e + literal + (s + n) == f + literal + t
    ensures |e| >= |f|
  {
    if |e| < |f| {
      var c := f[|e|..];
      Overlap(e, f, literal, s + n, t);
      StringSuffix(e, c);
      Associate(literal, s, n);
      RepeatedLiteral(literal, s, n, c, t);
    }
  }

  /** The values before such a literal are read off in one way only. */
  lemma SplitAtSeparator(e: Bytes, f: Bytes, literal: Bytes, s: Bytes, n: Bytes, t: Bytes, m: Bytes)
    requires IsEncodedString(e) && IsEncodedString(f) && IsEncodedString(s) && IsEncodedString(t)
    requires Separates(literal, n) && Separates(literal, m)
    requires e + literal + (s + n) == f + literal + (t + m)
    ensures e == f && s + n == t + m
  {
    NotShorter(e, f, literal, s, n, t + m);
    NotShorter(f, e, literal, t, m, s + n);
    var u := e + literal + (s + n);
    assert e == u[..|e|] == f;
    assert s + n == u[|e| + |literal|..] == t + m;
  }

  lemma StripLeft(literal: Bytes, e1: Bytes, r1: Bytes, e2: Bytes, r2: Bytes)
    requires literal + e1 + r1 == literal + e2 + r2
    ensures e1 + r1 == e2 + r2
  {
    assert (literal + e1 + r1)[|literal|..] == e1 + r1 && (literal + e2 + r2)[|literal|..] == e2 + r2;
  }

  lemma StripRight(a: Bytes, b: Bytes, tail: Bytes)
    requires a + tail == b + tail
    ensures a == b
  {
    assert |a| == |b| && (a + tail)[..|a|] == a && (b + tail)[..|b|] == b;
  }

  /** A filled template, from the values of its slots. */
  function Fused(slots: seq<Slot>, values: seq<Bytes>, tail: Bytes): Bytes
    requires |slots| == |values|
  {
    if slots == [] then tail
    else slots[0].literal + PercentEncoding(values[0]) + Fused(slots[1..], values[1..], tail)
  }

  predicate AllStrings(values: seq<Bytes>) {
    forall i :: 0 <= i < |values| ==> WellFormed(values[i])
  }

  /** No literal between two variables is part of an encoded string. */
  ghost predicate Apart(slots: seq<Slot>) {
    forall j :: 1 <= j < |slots| ==> !StringPart(slots[j].literal)
  }

  /** No literal leaves a character open that the next literal could go on with. */
  ghost predicate NothingContinued(slots: seq<Slot>) {
    forall j :: 1 <= j < |slots| - 1 && slots[j + 1].literal != [] ==>
                  !Continues(slots[j].literal, slots[j + 1].literal[0])
  }

  lemma ApartFromSecond(slots: seq<Slot>)
    requires slots != [] && Apart(slots) && NothingContinued(slots)
    ensures Apart(slots[1..]) && NothingContinued(slots[1..])
  {
    assert forall k :: 0 <= k < |slots| - 1 ==> slots[1..][k] == slots[k + 1];
  }

  lemma EmptyIsPart()
    ensures StringPart([])
  {
    var d: Bytes := [];
    assert d + d == d && AllUnreserved(d) && IsEncodedString(d);
  }

  lemma FusedNext(slots: seq<Slot>, values: seq<Bytes>, tail: Bytes, e: Bytes)
    requires |slots| == |values| && slots != []
    ensures e + Fused(slots, values, tail)
         == e + slots[0].literal + (PercentEncoding(values[0]) + Fused(slots[1..], values[1..], tail))
  {
    var s := PercentEncoding(values[0]) + Fused(slots[1..], values[1..], tail);
    assert slots[0].literal + PercentEncoding(values[0]) + Fused(slots[1..], values[1..], tail) == slots[0].literal + s;
    Associate(e, slots[0].literal, s);
  }

  /** After the second slot comes the third literal, or nothing but the tail. */
  lemma NextSeparates(slots: seq<Slot>, v: seq<Bytes>, tail: Bytes)
    requires |slots| == |v| >= 3 && Apart(slots) && NothingContinued(slots)
    ensures Separates(slots[1].literal, Fused(slots[2..], v[2..], tail))
  {
    EmptyIsPart();
    var n := Fused(slots[2..], v[2..], tail);
    assert slots[2].literal != [] && n[0] == slots[2].literal[0];
  }

  /** The first values agree. */
  lemma FirstValuesAgree(slots: seq<Slot>, v: seq<Bytes>, w: seq<Bytes>, tail: Bytes)
    requires |slots| == |v| == |w| >= 2 && Apart(slots) && NothingContinued(slots) && AllStrings(v) && AllStrings(w)
    requires PercentEncoding(v[0]) + Fused(slots[1..], v[1..], tail)
          == PercentEncoding(w[0]) + Fused(slots[1..], w[1..], tail)
    ensures PercentEncoding(v[0]) == PercentEncoding(w[0])
  {
    var e, f, l := PercentEncoding(v[0]), PercentEncoding(w[0]), slots[1].literal;
    var s, t := PercentEncoding(v[1]), PercentEncoding(w[1]);
    EncodedValues(v, w);
    assert slots[1..][1..] == slots[2..] && v[1..][1..] == v[2..] && w[1..][1..] == w[2..];
    FusedNext(slots[1..], v[1..], tail, e);
    FusedNext(slots[1..], w[1..], tail, f);
    if |slots| == 2 {
      Associate(e + l, s, tail);
      Associate(f + l, t, tail);
      StripRight(e + l + s, f + l + t, tail);
      NothingAfter(s);
      NothingAfter(t);
      SplitAtSeparator(e, f, l, s, [], t, []);
    } else {
      NextSeparates(slots, v, tail);
      NextSeparates(slots, w, tail);
      SplitAtSeparator(e, f, l, s, Fused(slots[2..], v[2..], tail), t, Fused(slots[2..], w[2..], tail));
    }
  }

  lemma EncodedValues(v: seq<Bytes>, w: seq<Bytes>)
    requires AllStrings(v) && AllStrings(w)
    ensures forall i :: 0 <= i < |v| ==> IsEncodedString(PercentEncoding(v[i]))
    ensures forall i :: 0 <= i < |w| ==> IsEncodedString(PercentEncoding(w[i]))
  {
    forall i | 0 <= i < |v|
      ensures IsEncodedString(PercentEncoding(v[i]))
    {
      StringIsEncoded(v[i]);
    }
    forall i | 0 <= i < |w|
      ensures IsEncodedString(PercentEncoding(w[i]))
    {
      StringIsEncoded(w[i]);
    }
  }

  lemma {:induction false} FusedInjective(slots: seq<Slot>, v: seq<Bytes>, w: seq<Bytes>, tail: Bytes)
    requires |slots| == |v| == |w| && Apart(slots) && NothingContinued(slots) && AllStrings(v) && AllStrings(w)
    requires Fused(slots, v, tail) == Fused(slots, w, tail)
    ensures v == w
  {
    if slots == [] {
    } else {
      var e, f := PercentEncoding(v[0]), PercentEncoding(w[0]);
      var r, q := Fused(slots[1..], v[1..], tail), Fused(slots[1..], w[1..], tail);
      StripLeft(slots[0].literal, e, r, f, q);
      if |slots| == 1 {
        StripRight(e, f, tail);
      } else {
        FirstValuesAgree(slots, v, w, tail);
      }
      assert r == (e + r)[|e|..] && q == (f + q)[|f|..];
      EncodingInjective(v[0], w[0]);
      ApartFromSecond(slots);
      FusedInjective(slots[1..], v[1..], w[1..], tail);
      HeadAndTail(v);
      HeadAndTail(w);
    }
  }

  /** Filling succeeds exactly when every variable is supplied, and then fuses their values. */
  lemma {:induction false} FillIsFused(slots: seq<Slot>, tail: Bytes, vars: Vars) returns (values: seq<Bytes>)
    ensures Fill(slots, Ok(tail), vars).Ok? <==> forall i :: 0 <= i < |slots| ==> Lookup(vars, slots[i].name).Some?
    ensures Fill(slots, Ok(tail), vars).Ok? ==>
              && |values| == |slots|
              && (forall i :: 0 <= i < |slots| ==> Lookup(vars, slots[i].name) == Some(values[i]))
              && Fill(slots, Ok(tail), vars).value == Fused(slots, values, tail)
    decreases |slots|
  {
    values := [];
    if slots == [] {
    } else {
      var rest := FillIsFused(slots[1..], tail, vars);
      assert forall i :: 1 <= i < |slots| ==> slots[i] == slots[1..][i - 1];
      if Lookup(vars, slots[0].name).Some? {
        values := [Lookup(vars, slots[0].name).value] + rest;
        assert values[1..] == rest;
      }
    }
  }

  lemma FilledStrings(slots: seq<Slot>, tail: Bytes, vars: Vars) returns (values: seq<Bytes>)
    requires AreStrings(vars) && Fill(slots, Ok(tail), vars).Ok?
    ensures |values| == |slots| && AllStrings(values)
    ensures forall i :: 0 <= i < |slots| ==> Lookup(vars, slots[i].name) == Some(values[i])
    ensures Fill(slots, Ok(tail), vars).value == Fused(slots, values, tail)
  {
    values := FillIsFused(slots, tail, vars);
    forall i | 0 <= i < |slots|
      ensures WellFormed(values[i])
    {
      LookupIsString(vars, slots[i].name);
    }
  }

  /** Two assignments of strings that expand alike. */
  ghost predicate ExpandAlike(slots: seq<Slot>, tail: Bytes, vars1: Vars, vars2: Vars) {
    && AreStrings(vars1) && AreStrings(vars2)
    && Fill(slots, Ok(tail), vars1).Ok? && Fill(slots, Ok(tail), vars1) == Fill(slots, Ok(tail), vars2)
  }

  /** Equal expansions come from equal values of every variable. */
  ghost predicate NeverSpills(slots: seq<Slot>, tail: Bytes) {
    forall vars1, vars2, i :: ExpandAlike(slots, tail, vars1, vars2) && 0 <= i < |slots| ==>
                                Lookup(vars1, slots[i].name) == Lookup(vars2, slots[i].name)
  }

  /** The same when all other variables are known: the two around literal `j` cannot trade text. */
  ghost predicate NeverTrades(slots: seq<Slot>, tail: Bytes, j: nat)
    requires 1 <= j < |slots|
  {
    forall vars1, vars2 ::
      ExpandAlike(slots, tail, vars1, vars2) && AgreeElsewhere(slots, vars1, vars2, j) ==>
        Lookup(vars1, slots[j - 1].name) == Lookup(vars2, slots[j - 1].name)
        && Lookup(vars1, slots[j].name) == Lookup(vars2, slots[j].name)
  }

  predicate AgreeElsewhere(slots: seq<Slot>, vars1: Vars, vars2: Vars, j: nat) {
    forall i :: 0 <= i < |slots| && i != j - 1 && i != j ==>
                  Lookup(vars1, slots[i].name) == Lookup(vars2, slots[i].name)
  }

  lemma ApartNeverSpills(slots: seq<Slot>, tail: Bytes)
    requires Apart(slots) && NothingContinued(slots)
    ensures NeverSpills(slots, tail)
  {
    forall vars1, vars2, i | ExpandAlike(slots, tail, vars1, vars2) && 0 <= i < |slots|
      ensures Lookup(vars1, slots[i].name) == Lookup(vars2, slots[i].name)
    {
      var v := FilledStrings(slots, tail, vars1);
      var w := FilledStrings(slots, tail, vars2);
      FusedInjective(slots, v, w, tail);
    }
  }

  predicate Separated(slots: seq<Slot>) {
    forall j :: 1 <= j < |slots| ==> !IsPartialEncoding(slots[j].literal)
  }

  /** It is enough that no literal starts the encoding of any bytes. */
  lemma SeparatedNeverSpills(slots: seq<Slot>, tail: Bytes)
    requires Separated(slots)
    ensures NeverSpills(slots, tail)
  {
    forall j | 1 <= j < |slots|
      ensures !StringPart(slots[j].literal)
      ensures forall x :: !Continues(slots[j].literal, x)
    {
      NotPartialIsApart(slots[j].literal);
    }
    ApartNeverSpills(slots, tail);
  }

  lemma NotPartialIsApart(literal: Bytes)
    requires !IsPartialEncoding(literal)
    ensures !StringPart(literal) && forall x :: !Continues(literal, x)
  {
    forall d
      ensures !IsEncodedString(literal + d)
    {
      if IsEncoded(literal + d) { PrefixIsPartial(literal, d); }
    }
    forall x, e, d
      ensures !IsEncodedString(literal + e + [x] + d)
    {
      assert literal + (e + [x] + d) == literal + e + [x] + d;
      if IsEncoded(literal + (e + [x] + d)) { PrefixIsPartial(literal, e + [x] + d); }
    }
  }

  // ----- Two variables that trade text ---------------------------------------------------

  /** With all other values equal, equal expansions are equal around literal `j`. */
  lemma {:induction false} FusedAround(slots: seq<Slot>, v: seq<Bytes>, w: seq<Bytes>, j: nat, tail: Bytes)
    requires |slots| == |v| == |w| && 1 <= j < |slots|
    requires forall i :: 0 <= i < |slots| && i != j - 1 && i != j ==> v[i] == w[i]
    requires Fused(slots, v, tail) == Fused(slots, w, tail)
    ensures PercentEncoding(v[j - 1]) + slots[j].literal + PercentEncoding(v[j])
         == PercentEncoding(w[j - 1]) + slots[j].literal + PercentEncoding(w[j])
    decreases j
  {
    if j == 1 {
      FusedTwo(slots, v, tail);
      FusedTwo(slots, w, tail);
      assert v[2..] == w[2..];
      var rest := Fused(slots[2..], v[2..], tail);
      StripLeft(slots[0].literal, PercentEncoding(v[0]) + slots[1].literal + PercentEncoding(v[1]), rest,
                PercentEncoding(w[0]) + slots[1].literal + PercentEncoding(w[1]), rest);
      StripRight(PercentEncoding(v[0]) + slots[1].literal + PercentEncoding(v[1]),
                 PercentEncoding(w[0]) + slots[1].literal + PercentEncoding(w[1]), rest);
    } else {
      var r, q := Fused(slots[1..], v[1..], tail), Fused(slots[1..], w[1..], tail);
      var e := slots[0].literal + PercentEncoding(v[0]);
      assert r == (e + r)[|e|..] && q == (e + q)[|e|..];
      FusedAround(slots[1..], v[1..], w[1..], j - 1, tail);
    }
  }

  lemma ApartNeverTrades(slots: seq<Slot>, tail: Bytes, j: nat)
    requires 1 <= j < |slots| && !StringPart(slots[j].literal)
    ensures NeverTrades(slots, tail, j)
  {
    forall vars1, vars2 | ExpandAlike(slots, tail, vars1, vars2) && AgreeElsewhere(slots, vars1, vars2, j)
      ensures Lookup(vars1, slots[j - 1].name) == Lookup(vars2, slots[j - 1].name)
      ensures Lookup(vars1, slots[j].name) == Lookup(vars2, slots[j].name)
    {
      var v := FilledStrings(slots, tail, vars1);
      var w := FilledStrings(slots, tail, vars2);
      FusedAround(slots, v, w, j, tail);
      PairAgrees(v[j - 1], v[j], slots[j].literal, w[j - 1], w[j]);
    }
  }

  lemma PairAgrees(a: Bytes, b: Bytes, literal: Bytes, x: Bytes, y: Bytes)
    requires WellFormed(a) && WellFormed(b) && WellFormed(x) && WellFormed(y) && !StringPart(literal)
    requires PercentEncoding(a) + literal + PercentEncoding(b) == PercentEncoding(x) + literal + PercentEncoding(y)
    ensures a == x && b == y
  {
    StringIsEncoded(a);
    StringIsEncoded(b);
    StringIsEncoded(x);
    StringIsEncoded(y);
    NothingAfter(PercentEncoding(b));
    NothingAfter(PercentEncoding(y));
    SplitAtSeparator(PercentEncoding(a), PercentEncoding(x), literal, PercentEncoding(b), [], PercentEncoding(y), []);
    EncodingInjective(a, x);
    EncodingInjective(b, y);
  }

  // The converse: two assignments that expand alike, for any such literal between two variables.

  predicate DistinctNames(slots: seq<Slot>) {
    forall i, j :: 0 <= i < j < |slots| ==> slots[i].name != slots[j].name
  }

  function Assign(slots: seq<Slot>, values: seq<Bytes>): Vars
    requires |slots| == |values|
  {
    if slots == [] then [] else [(slots[0].name, values[0])] + Assign(slots[1..], values[1..])
  }

  lemma {:induction false} LookupAssigned(slots: seq<Slot>, values: seq<Bytes>, i: nat)
    requires |slots| == |values| && DistinctNames(slots) && i < |slots|
    ensures Lookup(Assign(slots, values), slots[i].name) == Some(values[i])
  {
    assert Assign(slots, values)[1..] == Assign(slots[1..], values[1..]);
    if i == 0 {
    } else {
      assert DistinctNames(slots[1..]) by {
        assert forall k :: 0 <= k < |slots| - 1 ==> slots[1..][k] == slots[k + 1];
      }
      LookupAssigned(slots[1..], values[1..], i - 1);
    }
  }

  lemma FillAssigned(slots: seq<Slot>, values: seq<Bytes>, tail: Bytes)
    requires |slots| == |values| && DistinctNames(slots)
    ensures Fill(slots, Ok(tail), Assign(slots, values)) == Ok(Fused(slots, values, tail))
  {
    forall i | 0 <= i < |slots|
      ensures Lookup(Assign(slots, values), slots[i].name) == Some(values[i])
    {
      LookupAssigned(slots, values, i);
    }
    var w := FillIsFused(slots, tail, Assign(slots, values));
    assert w == values;
  }

  /** Two values that meet across slot `j` can be replaced by any two that read the same there. */
  lemma {:induction false} FusedReplace(slots: seq<Slot>, v: seq<Bytes>, j: nat, x: Bytes, y: Bytes, tail: Bytes)
    requires |slots| == |v| && 1 <= j < |slots|
    requires PercentEncoding(v[j - 1]) + slots[j].literal + PercentEncoding(v[j])
          == PercentEncoding(x) + slots[j].literal + PercentEncoding(y)
    ensures Fused(slots, v[j - 1 := x][j := y], tail) == Fused(slots, v, tail)
    decreases j
  {
    var w := v[j - 1 := x][j := y];
    if j == 1 {
      var rest := Fused(slots[2..], v[2..], tail);
      FusedTwo(slots, v, tail);
      FusedTwo(slots, w, tail);
      assert w[2..] == v[2..];
    } else {
      assert w[1..] == v[1..][j - 2 := x][j - 1 := y];
      FusedReplace(slots[1..], v[1..], j - 1, x, y, tail);
    }
  }

  lemma FusedTwo(slots: seq<Slot>, v: seq<Bytes>, tail: Bytes)
    requires |slots| == |v| >= 2
    ensures Fused(slots, v, tail)
         == slots[0].literal + (PercentEncoding(v[0]) + slots[1].literal + PercentEncoding(v[1]))
            + Fused(slots[2..], v[2..], tail)
  {
    assert slots[1..][1..] == slots[2..] && v[1..][1..] == v[2..];
    var e, l, f, r := PercentEncoding(v[0]), slots[1].literal, PercentEncoding(v[1]), Fused(slots[2..], v[2..], tail);
    assert slots[0].literal + e + (l + f + r) == slots[0].literal + (e + l + f) + r;
  }

  lemma {:induction false} AssignedStrings(slots: seq<Slot>, values: seq<Bytes>)
    requires |slots| == |values| && AllStrings(values)
    ensures AreStrings(Assign(slots, values))
  {
    if slots == [] {
    } else {
      AssignedStrings(slots[1..], values[1..]);
    }
  }

  lemma PartTrades(slots: seq<Slot>, tail: Bytes, j: nat)
    requires DistinctNames(slots) && 1 <= j < |slots| && StringPart(slots[j].literal)
    ensures !NeverTrades(slots, tail, j)
  {
    var x, y, z := TradedValues(slots[j].literal);
    var v, w := TradeAmongEmpty(|slots|, j, x, y, z);
    FusedReplace(slots, v, j, x, y, tail);
    TradesOn(slots, v, w, j, tail);
  }

  /** All values empty but for the two that trade. */
  lemma TradeAmongEmpty(n: nat, j: nat, x: Bytes, y: Bytes, z: Bytes) returns (v: seq<Bytes>, w: seq<Bytes>)
    requires 1 <= j < n && WellFormed(x) && WellFormed(y) && WellFormed(z)
    ensures |v| == n && v[j - 1] == [] && v[j] == z && w == v[j - 1 := x][j := y]
    ensures AllStrings(v) && AllStrings(w)
    ensures w[j - 1] == x && forall i :: 0 <= i < n && i != j - 1 && i != j ==> v[i] == w[i]
  {
    v := seq(n, i => [])[j := z];
    w := v[j - 1 := x][j := y];
  }

  lemma TradesOn(slots: seq<Slot>, v: seq<Bytes>, w: seq<Bytes>, j: nat, tail: Bytes)
    requires DistinctNames(slots) && |slots| == |v| == |w| && AllStrings(v) && AllStrings(w)
    requires 1 <= j < |slots| && Fused(slots, v, tail) == Fused(slots, w, tail)
    requires v[j - 1] != w[j - 1] && forall i :: 0 <= i < |slots| && i != j - 1 && i != j ==> v[i] == w[i]
    ensures !NeverTrades(slots, tail, j)
  {
    FillAssigned(slots, v, tail);
    FillAssigned(slots, w, tail);
    AssignedStrings(slots, v);
    AssignedStrings(slots, w);
    forall i | 0 <= i < |slots|
      ensures Lookup(Assign(slots, v), slots[i].name) == Some(v[i])
      ensures Lookup(Assign(slots, w), slots[i].name) == Some(w[i])
    {
      LookupAssigned(slots, v, i);
      LookupAssigned(slots, w, i);
    }
    assert AgreeElsewhere(slots, Assign(slots, v), Assign(slots, w), j);
  }

  /** Around part of a string, an empty value and `z` read like `x` and `y`. */
  lemma TradedValues(literal: Bytes) returns (x: Bytes, y: Bytes, z: Bytes)
    requires StringPart(literal)
    ensures WellFormed(x) && WellFormed(y) && WellFormed(z) && x != []
    ensures PercentEncoding([]) + literal + PercentEncoding(z) == PercentEncoding(x) + literal + PercentEncoding(y)
  {
    var d :| |d| <= 2 && AllUnreserved(d) && IsEncodedString(literal + d);
    if literal + d == [] {
      d := [97];
      assert literal == [] && literal + d == d;
    }
    UnreservedIsString(d);
    StringSuffix(d, literal + d);
    x := ValueOf(literal + d);
    y := ValueOf(d);
    z := ValueOf(d + (literal + d));
    Regroup(literal, d);
  }

  lemma Regroup(literal: Bytes, d: Bytes)
    ensures [] + literal + (d + (literal + d)) == literal + d + literal + d
  {
  }

  lemma ValueOf(s: Bytes) returns (value: Bytes)
    requires IsEncodedString(s)
    ensures WellFormed(value) && PercentEncoding(value) == s && (s != [] ==> value != [])
  {
    value := PercentDecode(s);
    EncodedIsEncoding(s);
  }

  /**
    * In every template with distinct variables, the two variables around a literal can trade text exactly
    * when it is part of a string.
    */
  lemma NeverTradesIff(t: Bytes, j: nat)
    requires Parse(t).tail.Ok? && DistinctNames(Parse(t).slots) && 1 <= j < |Parse(t).slots|
    ensures NeverTrades(Parse(t).slots, Parse(t).tail.value, j) <==> !StringPart(Parse(t).slots[j].literal)
  {
    var slots, tail := Parse(t).slots, Parse(t).tail.value;
    if StringPart(slots[j].literal) {
      PartTrades(slots, tail, j);
    } else {
      ApartNeverTrades(slots, tail, j);
    }
  }

  lemma NoSpillNoTrade(slots: seq<Slot>, tail: Bytes, j: nat)
    requires NeverSpills(slots, tail) && 1 <= j < |slots|
    ensures NeverTrades(slots, tail, j)
  {
  }

  /**
    * A template with distinct variables keeps every value apart only if no literal between two of them is
    * part of an encoded string, and that is enough unless a literal leaves a character open that the next
    * literal goes on with.  A literal with a `/`, `?`, `=` or `&` is always safe.
    */
  lemma NeverSpillsIff(t: Bytes)
    requires Parse(t).tail.Ok? && DistinctNames(Parse(t).slots)
    ensures NeverSpills(Parse(t).slots, Parse(t).tail.value) ==> Apart(Parse(t).slots)
    ensures NothingContinued(Parse(t).slots) ==>
              (NeverSpills(Parse(t).slots, Parse(t).tail.value) <==> Apart(Parse(t).slots))
  {
    var slots, tail := Parse(t).slots, Parse(t).tail.value;
    if NeverSpills(slots, tail) {
      forall j | 1 <= j < |slots|
        ensures !StringPart(slots[j].literal)
      {
        NoSpillNoTrade(slots, tail, j);
        NeverTradesIff(t, j);
      }
    }
    if Apart(slots) && NothingContinued(slots) {
      ApartNeverSpills(slots, tail);
    }
  }

  // Literals that leave a character open: `%C3` is half of one, `%A9` its other half.

  const OPENS: Bytes := [37, 67, 51]    // "%C3"
  const CLOSES: Bytes := [37, 65, 57]   // "%A9"

  lemma HalfIsNoPart(literal: Bytes, b: byte)
    requires IsEscape(literal) && |literal| == 3 && b == HexValue(literal[1]).value * 16 + HexValue(literal[2]).value
    requires b == 0xC3 || b == 0xA9
    ensures !StringPart(literal)
  {
    forall d | AllUnreserved(d)
      ensures !IsEncodedString(literal + d)
    {
      UnreservedIsString(d);
      assert literal[3..] == [] && IsEncoded(literal);
      DecodeAppend(literal, d);
      assert PercentDecode(literal) == [b];
      var s := [b] + d;
      assert |s| > 1 ==> s[1] == d[0];
      assert !ScanOne(s).Char?;
    }
  }

  /** `{a}%C3{b}`: the literal starts the encoding of many strings, and yet no value spills. */
  lemma OpenCharacterIsSafe(tail: Bytes)
    ensures var slots := [Slot([], [97]), Slot(OPENS, [98])]; !Separated(slots) && NeverSpills(slots, tail)
  {
    var slots := [Slot([], [97]), Slot(OPENS, [98])];
    HalfIsNoPart(OPENS, 0xC3);
    assert OPENS[3..] == [] && IsEscape(OPENS);
    assert IsPartialEncoding(slots[1].literal);
    ApartNeverSpills(slots, tail);
  }

  /** `{a}%C3{b}%A9{c}`: no literal is part of a string, no two variables can trade text, and yet `a` and `c` can. */
  lemma ContinuedCharacterSpills(tail: Bytes)
    ensures var slots := [Slot([], [97]), Slot(OPENS, [98]), Slot(CLOSES, [99])];
            Apart(slots) && !NothingContinued(slots) && !NeverSpills(slots, tail)
  {
    var slots := [Slot([], [97]), Slot(OPENS, [98]), Slot(CLOSES, [99])];
    HalfIsNoPart(OPENS, 0xC3);
    HalfIsNoPart(CLOSES, 0xA9);
    HalvesSpill(slots, tail);
    if NothingContinued(slots) { ApartNeverSpills(slots, tail); }
  }

  lemma HalvesSpill(slots: seq<Slot>, tail: Bytes)
    requires DistinctNames(slots) && |slots| == 3
    requires slots[0].literal == [] && slots[1].literal == OPENS && slots[2].literal == CLOSES
    ensures !NeverSpills(slots, tail)
  {
    var v, w: seq<Bytes> := [[], [], [0xC3, 0xA9]], [[0xC3, 0xA9], [], []];
    TwoHalves();
    FusedThree(slots, v, tail);
    FusedThree(slots, w, tail);
    RegroupHalves(OPENS, CLOSES, tail);
    assert AllStrings(v) && AllStrings(w);
    SpillsOn(slots, v, w, 0, tail);
  }

  lemma RegroupHalves(o: Bytes, c: Bytes, tail: Bytes)
    ensures [] + ([] + o + []) + (c + (o + c) + tail) == [] + ((o + c) + o + []) + (c + [] + tail)
  {
  }

  lemma SpillsOn(slots: seq<Slot>, v: seq<Bytes>, w: seq<Bytes>, i: nat, tail: Bytes)
    requires DistinctNames(slots) && |slots| == |v| == |w| && AllStrings(v) && AllStrings(w)
    requires Fused(slots, v, tail) == Fused(slots, w, tail) && i < |slots| && v[i] != w[i]
    ensures !NeverSpills(slots, tail)
  {
    FillAssigned(slots, v, tail);
    FillAssigned(slots, w, tail);
    AssignedStrings(slots, v);
    AssignedStrings(slots, w);
    LookupAssigned(slots, v, i);
    LookupAssigned(slots, w, i);
    assert ExpandAlike(slots, tail, Assign(slots, v), Assign(slots, w));
  }

  lemma TwoHalves()
    ensures PercentEncoding([0xC3, 0xA9]) == OPENS + CLOSES && WellFormed([0xC3, 0xA9])
  {
    var e: Bytes := [0xC3, 0xA9];
    assert e[1..] == [0xA9] && e[1..][1..] == [] && e[2..] == [];
    assert EncodeByte(0xC3) == OPENS && EncodeByte(0xA9) == CLOSES;
    assert ScanOne(e) == Char(2);
  }

  lemma FusedThree(slots: seq<Slot>, v: seq<Bytes>, tail: Bytes)
    requires |slots| == |v| == 3
    ensures Fused(slots, v, tail)
         == slots[0].literal + (PercentEncoding(v[0]) + slots[1].literal + PercentEncoding(v[1]))
            + (slots[2].literal + PercentEncoding(v[2]) + tail)
  {
    FusedTwo(slots, v, tail);
    assert slots[2..][1..] == [] && v[2..][1..] == [];
    assert Fused(slots[2..][1..], v[2..][1..], tail) == tail;
  }

  lemma {:induction false} ReservedByteSeparates(literal: Bytes, i: nat)
    requires i < |literal| && !IsUnreserved(literal[i]) && literal[i] != PERCENT
    ensures !IsPartialEncoding(literal)
  {
    if IsUnreserved(literal[0]) {
      ReservedByteSeparates(literal[1..], i - 1);
    } else if IsEscape(literal) && i >= 3 {
      ReservedByteSeparates(literal[3..], i - 3);
    }
  }
}
