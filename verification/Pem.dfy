/** Scanning PEM bundles (section 3 of RFC 7468): `parse_first_pem_cert` and `parse_all_pem_certs`. */
module Pem {
  import opened Common
  import opened Utf8

  /** Text as the sequence of its Unicode scalar values. */
  type Text = seq<Scalar>

  /** Base64 decoding of text without whitespace. */
  type Base64 = Text -> Option<Bytes>

  const DASH: Scalar := 45
  const NEWLINE: Scalar := 10
  const BLANK: Scalar := 32
  const DASHES: Text := [45, 45, 45, 45, 45]
  const BEGIN: Text := [45, 45, 45, 45, 45, 66, 69, 71, 73, 78, 32]  // "-----BEGIN "
  const END: Text := [45, 45, 45, 45, 45, 69, 78, 68, 32]            // "-----END "

  /** `char::is_whitespace`: the Unicode White_Space property. */
  predicate IsWhitespace(c: Scalar) {
    9 <= c <= 13 || c == 32 || c == 0x85 || c == 0xA0 || c == 0x1680 || 0x2000 <= c <= 0x200A
    || c == 0x2028 || c == 0x2029 || c == 0x202F || c == 0x205F || c == 0x3000
  }

  function TrimStart(s: Text): Text {
    if s != [] && IsWhitespace(s[0]) then TrimStart(s[1..]) else s
  }

  function TrimEnd(s: Text): Text {
    if s != [] && IsWhitespace(s[|s| - 1]) then TrimEnd(s[..|s| - 1]) else s
  }

  function Trim(s: Text): Text {
    TrimEnd(TrimStart(s))
  }

  /** `trim_end_matches('-')`. */
  function TrimEndDashes(s: Text): Text {
    if s != [] && s[|s| - 1] == DASH then TrimEndDashes(s[..|s| - 1]) else s
  }

  function WithoutWhitespace(s: Text): Text {
    if s == [] then []
    else (if IsWhitespace(s[0]) then [] else [s[0]]) + WithoutWhitespace(s[1..])
  }

  function LabelOf(line: Text): Text {
    Trim(TrimEndDashes(Trim(line)))
  }

  function EndMarker(tag: Text): Text {
    END + tag + DASHES
  }

  // ----- One frame -----------------------------------------------------------------------

  /** The label of the next BEGIN line, and where the text after that line starts. */
  datatype Header = Header(tag: Text, bodyStart: nat)

  function ScanHeader(text: Text): (r: Option<Header>)
    ensures r.Some? ==> 0 < r.value.bodyStart <= |text|
  {
    match Find(text, BEGIN) {
      case None => None
      case Some(begin) => ScanLine(text[begin + |BEGIN|..], begin + |BEGIN|)
    }
  }

  function ScanLine(afterBegin: Text, at: nat): (r: Option<Header>)
    ensures r.Some? ==> at < r.value.bodyStart <= at + |afterBegin|
  {
    match IndexOf(afterBegin, NEWLINE) {
      case None => None
      case Some(eol) => Some(Header(LabelOf(afterBegin[..eol]), at + eol + 1))
    }
  }

  /** The body of a frame, and how much text it takes up with everything before it. */
  datatype Framed = Framed(body: Text, consumed: nat)

  function ScanFrame(text: Text): (r: Option<Framed>)
    ensures r.Some? ==> 0 < r.value.consumed <= |text|
  {
    match ScanHeader(text) {
      case None => None
      case Some(h) => ScanBody(text[h.bodyStart..], h.bodyStart, EndMarker(h.tag))
    }
  }

  function ScanBody(rest: Text, at: nat, marker: Text): (r: Option<Framed>)
    ensures r.Some? ==> at <= r.value.consumed <= at + |rest|
  {
    match Find(rest, marker) {
      case None => None
      case Some(offset) => Some(Framed(rest[..offset], at + offset + |marker|))
    }
  }

  function DecodeBody(decode: Base64, body: Text): Option<Bytes> {
    decode(WithoutWhitespace(body))
  }

  function FirstCert(decode: Base64, text: Text): Option<Bytes> {
    match ScanFrame(text) {
      case None => None
      case Some(f) => DecodeBody(decode, f.body)
    }
  }

  /** Every frame in order; those that do not decode are skipped. */
  function AllCerts(decode: Base64, text: Text): seq<Bytes>
    decreases |text|
  {
    match ScanFrame(text) {
      case None => []
      case Some(f) => Certs(DecodeBody(decode, f.body)) + AllCerts(decode, text[f.consumed..])
    }
  }

  function Certs(der: Option<Bytes>): seq<Bytes> {
    if der.None? then [] else [der.value]
  }

  /** `parse_first_pem_cert`. */
  function ParseFirstPemCert(decode: Base64, input: Bytes): Option<Bytes> {
    if WellFormed(input) then FirstCert(decode, Decode(input)) else None
  }

  /** The specification of `parse_all_pem_certs`. */
  function AllPemCerts(decode: Base64, input: Bytes): seq<Bytes> {
    if WellFormed(input) then AllCerts(decode, Decode(input)) else []
  }

  method ParseAllPemCerts(decode: Base64, input: Bytes) returns (out: seq<Bytes>)
    ensures out == AllPemCerts(decode, input)
  {
    out := [];
    if !WellFormed(input) {
      return;
    }
    out := ParseText(decode, Decode(input));
  }

  /** The loop of `parse_all_pem_certs`, on the decoded text. */
  method ParseText(decode: Base64, text: Text) returns (out: seq<Bytes>)
    ensures out == AllCerts(decode, text)
  {
    out := [];
    var rest := text;
    while true
      invariant AllCerts(decode, text) == out + AllCerts(decode, rest)
      decreases |rest|
    {
      var framed := NextFrame(rest);
      if framed.None? {
        break;
      }
      CertsStep(decode, rest, framed.value, out);
      var der := DecodeBody(decode, framed.value.body);
      if der.Some? {
        out := out + [der.value];
      }
      rest := rest[framed.value.consumed..];
    }
  }

  function Appended(done: seq<Bytes>, der: Option<Bytes>): seq<Bytes> {
    if der.Some? then done + [der.value] else done
  }

  lemma CertsStep(decode: Base64, text: Text, f: Framed, done: seq<Bytes>)
    requires ScanFrame(text) == Some(f)
    ensures done + AllCerts(decode, text)
         == Appended(done, DecodeBody(decode, f.body)) + AllCerts(decode, text[f.consumed..])
  {
    CertsOfFrame(decode, text, f);
    AppendCerts(done, DecodeBody(decode, f.body), AllCerts(decode, text[f.consumed..]));
  }

  lemma CertsOfFrame(decode: Base64, text: Text, f: Framed)
    requires ScanFrame(text) == Some(f)
    ensures AllCerts(decode, text) == Certs(DecodeBody(decode, f.body)) + AllCerts(decode, text[f.consumed..])
  {
  }

  lemma AppendCerts(done: seq<Bytes>, der: Option<Bytes>, rest: seq<Bytes>)
    ensures done + (Certs(der) + rest) == Appended(done, der) + rest
  {
  }

  /** The three searches of one loop turn; `None` is `break`. */
  method NextFrame(rest: Text) returns (framed: Option<Framed>)
    ensures framed == ScanFrame(rest)
  {
    var begin := Find(rest, BEGIN);
    if begin.None? {
      return None;
    }
    var afterBegin := rest[begin.value + |BEGIN|..];
    var eol := IndexOf(afterBegin, NEWLINE);
    if eol.None? {
      return None;
    }
    var tag := LabelOf(afterBegin[..eol.value]);
    var marker := EndMarker(tag);
    var bodyStart := begin.value + |BEGIN| + eol.value + 1;
    assert ScanHeader(rest) == Some(Header(tag, bodyStart));
    var offset := Find(rest[bodyStart..], marker);
    if offset.None? {
      return None;
    }
    return Some(Framed(rest[bodyStart..][..offset.value], bodyStart + offset.value + |marker|));
  }

  // ----- The two parsers -----------------------------------------------------------------

  /** A certificate found by the first parser is the head of the list of the second. */
  lemma FirstIsHead(decode: Base64, input: Bytes)
    ensures ParseFirstPemCert(decode, input).Some? ==>
              AllPemCerts(decode, input) != []
              && AllPemCerts(decode, input)[0] == ParseFirstPemCert(decode, input).value
  {
  }

  function Head(certs: seq<Bytes>): Option<Bytes> {
    if certs == [] then None else Some(certs[0])
  }

  /** The bodies of all frames the scan finds, decodable or not. */
  function ScannedBodies(text: Text): seq<Text>
    decreases |text|
  {
    match ScanFrame(text) {
      case None => []
      case Some(f) => [f.body] + ScannedBodies(text[f.consumed..])
    }
  }

  function FrameBodies(input: Bytes): seq<Text> {
    if WellFormed(input) then ScannedBodies(Decode(input)) else []
  }

  /** The bodies that decode, in order. */
  function Decodable(decode: Base64, bodies: seq<Text>): seq<Bytes> {
    if bodies == [] then [] else Certs(DecodeBody(decode, bodies[0])) + Decodable(decode, bodies[1..])
  }

  lemma {:induction false} CertsAreDecodable(decode: Base64, text: Text)
    ensures AllCerts(decode, text) == Decodable(decode, ScannedBodies(text))
    decreases |text|
  {
    match ScanFrame(text) {
      case None =>
      case Some(f) =>
        CertsAreDecodable(decode, text[f.consumed..]);
        assert ScannedBodies(text)[1..] == ScannedBodies(text[f.consumed..]);
    }
  }

  /** The second parser returns the bodies that decode, in order, and skips the others. */
  lemma AllPemCertsAreDecodable(decode: Base64, input: Bytes)
    ensures AllPemCerts(decode, input) == Decodable(decode, FrameBodies(input))
  {
    if WellFormed(input) { CertsAreDecodable(decode, Decode(input)); }
  }

  lemma {:induction false} NothingDecodes(decode: Base64, bodies: seq<Text>)
    ensures Decodable(decode, bodies) == [] <==> forall i :: 0 <= i < |bodies| ==> DecodeBody(decode, bodies[i]).None?
  {
    if bodies == [] {
    } else {
      NothingDecodes(decode, bodies[1..]);
      assert forall i :: 1 <= i < |bodies| ==> bodies[i] == bodies[1..][i - 1];
    }
  }

  /** The parsers agree on the first certificate if and only if the first frame decodes or no frame does. */
  lemma FirstAgreesIff(decode: Base64, input: Bytes)
    ensures ParseFirstPemCert(decode, input) == Head(AllPemCerts(decode, input))
       <==> (FrameBodies(input) != [] && DecodeBody(decode, FrameBodies(input)[0]).Some?)
            || forall i :: 0 <= i < |FrameBodies(input)| ==> DecodeBody(decode, FrameBodies(input)[i]).None?
  {
    AllPemCertsAreDecodable(decode, input);
    NothingDecodes(decode, FrameBodies(input));
    if FrameBodies(input) != [] {
      NothingDecodes(decode, FrameBodies(input)[1..]);
    }
  }

  // ----- Rendering and reading back ------------------------------------------------------

  /**
    * A labelled frame with the prose before it: whitespace before and after the label, the dashes, and
    * whitespace at the end of the first line, such as a CR.
    */
  datatype Entry = Entry(prose: Text, lead: Text, tag: Text, gap: Text, dashes: Text, pad: Text, body: Text)

  ghost predicate Prose(s: Text) {
    forall q :: !OccursAt(s, BEGIN, q)
  }

  predicate GoodLabel(s: Text) {
    NEWLINE !in s && (s == [] || (!IsWhitespace(s[0]) && !IsWhitespace(s[|s| - 1]) && s[|s| - 1] != DASH))
  }

  predicate AllWhitespace(s: Text) {
    forall i :: 0 <= i < |s| ==> IsWhitespace(s[i])
  }

  predicate AllDashes(s: Text) {
    forall i :: 0 <= i < |s| ==> s[i] == DASH
  }

  ghost predicate GoodEntry(e: Entry) {
    && Prose(e.prose) && GoodLabel(e.tag) && NEWLINE !in e.lead + e.gap + e.pad
    && AllWhitespace(e.lead) && AllWhitespace(e.gap) && AllDashes(e.dashes) && AllWhitespace(e.pad)
    && DASH !in e.body
  }

  function RenderEntry(e: Entry): Text {
    RenderHead(e) + e.body + EndMarker(e.tag)
  }

  function RenderHead(e: Entry): Text {
    e.prose + BEGIN + LabelLine(e) + [NEWLINE]
  }

  function LabelLine(e: Entry): Text {
    e.lead + e.tag + e.gap + e.dashes + e.pad
  }

  function RenderBundle(es: seq<Entry>, trailer: Text): Text {
    if es == [] then trailer else RenderEntry(es[0]) + RenderBundle(es[1..], trailer)
  }

  /** The markers cannot overlap themselves: only the last byte of the marker is a blank. */
  lemma FindBegin(prose: Text, rest: Text)
    requires Prose(prose)
    ensures Find(prose + BEGIN + rest, BEGIN) == Some(|prose|)
  {
    var t := prose + BEGIN + rest;
    assert t[|prose|..|prose| + |BEGIN|] == BEGIN;
    assert OccursAt(t, BEGIN, |prose|);
    forall q | 0 <= q < |prose|
      ensures !OccursAt(t, BEGIN, q)
    {
      if q + |BEGIN| <= |prose| {
        assert t[q..q + |BEGIN|] == prose[q..q + |BEGIN|];
        assert !OccursAt(prose, BEGIN, q);
      } else {
        var k := q + 10 - |prose|;
        assert t[q + 10] == BEGIN[k] && BEGIN[k] != BLANK;
        DiffersAt(t, BEGIN, q, 10);
      }
    }
  }

  lemma FindEnd(body: Text, marker: Text, rest: Text)
    requires DASH !in body && marker != [] && marker[0] == DASH
    ensures Find(body + marker + rest, marker) == Some(|body|)
  {
    var t := body + marker + rest;
    assert t[|body|..|body| + |marker|] == marker;
    assert OccursAt(t, marker, |body|);
    forall q | 0 <= q < |body|
      ensures !OccursAt(t, marker, q)
    {
      assert t[q] == body[q] && body[q] in body;
      DiffersAt(t, marker, q, 0);
    }
  }

  lemma {:induction false} TrimStartLead(lead: Text, s: Text)
    requires AllWhitespace(lead)
    ensures TrimStart(lead + s) == TrimStart(s)
  {
    if lead == [] {
      NothingBefore(s);
    } else {
      DropAppend(lead, s, 1);
      TrimStartLead(lead[1..], s);
    }
  }

  lemma {:induction false} TrimEndPad(s: Text, pad: Text)
    requires AllWhitespace(pad)
    ensures TrimEnd(s + pad) == TrimEnd(s)
  {
    if pad == [] {
      NothingAfter(s);
    } else {
      assert (s + pad)[..|s + pad| - 1] == s + pad[..|pad| - 1];
      TrimEndPad(s, pad[..|pad| - 1]);
    }
  }

  lemma {:induction false} TrimDashes(s: Text, dashes: Text)
    requires AllDashes(dashes)
    ensures TrimEndDashes(s + dashes) == TrimEndDashes(s)
  {
    if dashes == [] {
      NothingAfter(s);
    } else {
      assert (s + dashes)[..|s + dashes| - 1] == s + dashes[..|dashes| - 1];
      TrimDashes(s, dashes[..|dashes| - 1]);
    }
  }

  /** Nothing to trim at either end. */
  predicate Trimmed(s: Text) {
    s == [] || (!IsWhitespace(s[0]) && !IsWhitespace(s[|s| - 1]))
  }

  lemma TrimAround(lead: Text, core: Text, pad: Text)
    requires AllWhitespace(lead) && AllWhitespace(pad) && Trimmed(core)
    ensures Trim(lead + core + pad) == core
  {
    Associate(lead, core, pad);
    TrimStartLead(lead, core + pad);
    if core == [] {
      NothingBefore(pad);
      NothingAfter(pad);
      TrimStartLead(pad, []);
    } else {
      assert (core + pad)[0] == core[0];
      TrimEndPad(core, pad);
    }
  }

  /** The trimmed line ends in its dashes, if it has any. */
  lemma TrimLine(e: Entry)
    requires GoodEntry(e)
    ensures e.dashes != [] && e.tag != [] ==> Trim(LabelLine(e)) == e.tag + e.gap + e.dashes
    ensures e.dashes != [] && e.tag == [] ==> Trim(LabelLine(e)) == e.dashes
    ensures e.dashes == [] ==> Trim(LabelLine(e)) == e.tag
  {
    if e.dashes == [] {
      TrimAround(e.lead, e.tag, e.gap + e.pad);
      assert LabelLine(e) == e.lead + e.tag + (e.gap + e.pad);
    } else if e.tag == [] {
      TrimAround(e.lead + e.gap, e.dashes, e.pad);
      NothingAfter(e.lead);
    } else {
      var core := e.tag + e.gap + e.dashes;
      assert core[0] == e.tag[0] && core[|core| - 1] == e.dashes[|e.dashes| - 1];
      TrimAround(e.lead, core, e.pad);
      assert LabelLine(e) == e.lead + core + e.pad;
    }
  }

  /** The label is found whatever stands around it: blanks, any number of dashes, a CR. */
  lemma LabelOfLine(e: Entry)
    requires GoodEntry(e)
    ensures LabelOf(LabelLine(e)) == e.tag
  {
    TrimLine(e);
    TrimAround([], e.tag, []);
    NothingBefore(e.tag);
    NothingAfter(e.tag);
    if e.dashes != [] {
      if e.tag == [] {
        TrimDashes([], e.dashes);
        NothingBefore(e.dashes);
      } else {
        TrimDashes(e.tag + e.gap, e.dashes);
        TrimAround([], e.tag, e.gap);
        NoDashAtEnd(e.tag, e.gap);
      }
    }
  }

  lemma NoDashAtEnd(tag: Text, gap: Text)
    requires tag != [] && tag[|tag| - 1] != DASH && AllWhitespace(gap)
    ensures TrimEndDashes(tag + gap) == tag + gap
  {
    if gap == [] {
      NothingAfter(tag);
    } else {
      assert (tag + gap)[|tag + gap| - 1] == gap[|gap| - 1];
    }
  }

  lemma RenderedText(e: Entry, rest: Text)
    ensures RenderEntry(e) + rest == RenderHead(e) + (e.body + EndMarker(e.tag) + rest)
    ensures |RenderEntry(e)| == |RenderHead(e)| + |e.body| + |EndMarker(e.tag)|
  {
    RejoinFrame(RenderHead(e), e.body, EndMarker(e.tag), rest);
  }

  /** A rendered frame is the first frame found, with exactly its body, and the scan resumes right after it. */
  lemma RenderedIsScanned(e: Entry, rest: Text)
    requires GoodEntry(e)
    ensures ScanFrame(RenderEntry(e) + rest) == Some(Framed(e.body, |RenderEntry(e)|))
  {
    var head, inner := RenderHead(e), e.body + EndMarker(e.tag) + rest;
    RenderedText(e, rest);
    RejoinFrame(head, e.body, EndMarker(e.tag), rest);
    HeaderIsScanned(e, inner);
    BodyIsScanned(e, rest, |head|);
    FrameOfHeader(head + inner, Header(e.tag, |head|), inner);
  }

  lemma FrameOfHeader(text: Text, h: Header, rest: Text)
    requires ScanHeader(text) == Some(h) && text[h.bodyStart..] == rest
    ensures ScanFrame(text) == ScanBody(rest, h.bodyStart, EndMarker(h.tag))
  {
  }

  lemma BodyIsScanned(e: Entry, rest: Text, at: nat)
    requires DASH !in e.body
    ensures ScanBody(e.body + EndMarker(e.tag) + rest, at, EndMarker(e.tag))
         == Some(Framed(e.body, at + |e.body| + |EndMarker(e.tag)|))
  {
    FindEnd(e.body, EndMarker(e.tag), rest);
    assert (e.body + EndMarker(e.tag) + rest)[..|e.body|] == e.body;
  }

  lemma RejoinFrame(head: Text, body: Text, marker: Text, rest: Text)
    ensures head + body + marker + rest == head + (body + marker + rest)
    ensures (head + (body + marker + rest))[|head|..] == body + marker + rest
  {
  }

  lemma HeaderIsScanned(e: Entry, inner: Text)
    requires GoodEntry(e)
    ensures ScanHeader(RenderHead(e) + inner) == Some(Header(e.tag, |RenderHead(e)|))
  {
    var line := LabelLine(e);
    var after := line + [NEWLINE] + inner;
    Regroup(e.prose, BEGIN, line, inner);
    FindBegin(e.prose, after);
    LineIsScanned(e, inner, |e.prose + BEGIN|);
  }

  lemma Regroup(prose: Text, begin: Text, line: Text, inner: Text)
    ensures prose + begin + line + [NEWLINE] + inner == prose + begin + (line + [NEWLINE] + inner)
    ensures (prose + begin + (line + [NEWLINE] + inner))[|prose| + |begin|..] == line + [NEWLINE] + inner
  {
  }

  lemma LineIsScanned(e: Entry, inner: Text, at: nat)
    requires GoodEntry(e)
    ensures ScanLine(LabelLine(e) + [NEWLINE] + inner, at) == Some(Header(e.tag, at + |LabelLine(e)| + 1))
  {
    var line := LabelLine(e);
    NoNewline(e);
    IndexOfAppend(line, NEWLINE, inner);
    assert (line + [NEWLINE] + inner)[..|line|] == line;
    LabelOfLine(e);
  }

  lemma NoNewline(e: Entry)
    requires GoodEntry(e)
    ensures NEWLINE !in LabelLine(e)
  {
    assert NEWLINE !in e.dashes;
  }

  function BodiesOf(es: seq<Entry>): seq<Text> {
    Map((e: Entry) => e.body, es)
  }

  /** A bundle is scanned into exactly its bodies. */
  lemma {:induction false} BundleScan(es: seq<Entry>, trailer: Text)
    requires (forall i :: 0 <= i < |es| ==> GoodEntry(es[i])) && Prose(trailer)
    ensures ScannedBodies(RenderBundle(es, trailer)) == BodiesOf(es)
  {
    if es == [] {
      assert Find(trailer, BEGIN).None?;
    } else {
      var rest := RenderBundle(es[1..], trailer);
      RenderedIsScanned(es[0], rest);
      assert (RenderEntry(es[0]) + rest)[|RenderEntry(es[0])|..] == rest;
      BundleScan(es[1..], trailer);
      MapCons((e: Entry) => e.body, es);
    }
  }

  lemma {:induction false} WithoutWhitespaceAppend(a: Text, b: Text)
    ensures WithoutWhitespace(a + b) == WithoutWhitespace(a) + WithoutWhitespace(b)
  {
    if a == [] {
      assert a + b == b;
    } else {
      assert (a + b)[1..] == a[1..] + b;
      WithoutWhitespaceAppend(a[1..], b);
    }
  }

  lemma {:induction false} NoWhitespaceKept(a: Text)
    requires forall i :: 0 <= i < |a| ==> !IsWhitespace(a[i])
    ensures WithoutWhitespace(a) == a
  {
    if a == [] {
    } else {
      NoWhitespaceKept(a[1..]);
      assert [a[0]] + a[1..] == a;
    }
  }

  /** `decode` undoes `encode`. */
  ghost predicate Base64Pair(encode: Bytes -> Text, decode: Base64) {
    forall der :: decode(encode(der)) == Some(der)
  }

  /** The entry carries `der`: its body is the encoding, with whitespace anywhere. */
  ghost predicate CarriesCert(encode: Bytes -> Text, e: Entry, der: Bytes) {
    GoodEntry(e) && WithoutWhitespace(e.body) == encode(der)
  }

  lemma {:induction false} DecodedAll(encode: Bytes -> Text, decode: Base64, bodies: seq<Text>, ders: seq<Bytes>)
    requires Base64Pair(encode, decode) && |bodies| == |ders|
    requires forall i :: 0 <= i < |bodies| ==> WithoutWhitespace(bodies[i]) == encode(ders[i])
    ensures Decodable(decode, bodies) == ders
  {
    if bodies == [] {
    } else {
      DecodedAll(encode, decode, bodies[1..], ders[1..]);
      assert ders == [ders[0]] + ders[1..];
    }
  }

  lemma ScannedBundle(es: seq<Entry>, trailer: Text)
    requires (forall i :: 0 <= i < |es| ==> GoodEntry(es[i])) && Prose(trailer)
    ensures FrameBodies(Encode(RenderBundle(es, trailer))) == BodiesOf(es)
  {
    EncodeThenDecode(RenderBundle(es, trailer));
    BundleScan(es, trailer);
  }

  /**
    * Any list of certificates, each wrapped and labelled at will, with prose before, between and after
    * the frames, is read back in order from the UTF-8 bytes of the bundle; the first one is what the
    * single-certificate parser returns.
    */
  lemma BundleRoundTrip(encode: Bytes -> Text, decode: Base64, es: seq<Entry>, trailer: Text, ders: seq<Bytes>)
    requires Base64Pair(encode, decode) && |es| == |ders| && Prose(trailer)
    requires forall i :: 0 <= i < |es| ==> CarriesCert(encode, es[i], ders[i])
    ensures var input := Encode(RenderBundle(es, trailer));
            AllPemCerts(decode, input) == ders && ParseFirstPemCert(decode, input) == Head(ders)
  {
    var input := Encode(RenderBundle(es, trailer));
    ScannedBundle(es, trailer);
    AllPemCertsAreDecodable(decode, input);
    DecodedAll(encode, decode, BodiesOf(es), ders);
    FirstAgreesIff(decode, input);
    if es != [] {
      assert CarriesCert(encode, es[0], ders[0]);
    }
  }

  /** A frame without label. */
  function Unlabelled(body: Text): Entry {
    Entry([], [], [], [], DASHES, [], body)
  }

  lemma UnlabelledIsGood(body: Text)
    requires DASH !in body
    ensures GoodEntry(Unlabelled(body))
  {
    forall q
      ensures !OccursAt([], BEGIN, q)
    {
      assert |BEGIN| == 11;
    }
  }

  lemma BodiesOfTwo(first: Text, second: Text)
    ensures BodiesOf([Unlabelled(first), Unlabelled(second)]) == [first, second]
  {
  }

  lemma DecodableTwo(decode: Base64, first: Text, second: Text)
    ensures Decodable(decode, [first, second]) == Certs(DecodeBody(decode, first)) + Certs(DecodeBody(decode, second))
  {
    assert [first, second][1..] == [second] && [second][1..] == [];
    assert Decodable(decode, [second]) == Certs(DecodeBody(decode, second)) + [];
    NothingAfter(Certs(DecodeBody(decode, second)));
  }

  lemma TwoFrames(decode: Base64, first: Text, second: Text, der: Bytes)
    requires DASH !in first && DASH !in second
    requires DecodeBody(decode, first).None? && DecodeBody(decode, second) == Some(der)
    ensures var input := Encode(RenderBundle([Unlabelled(first), Unlabelled(second)], []));
            ParseFirstPemCert(decode, input).None? && AllPemCerts(decode, input) == [der]
  {
    var es := [Unlabelled(first), Unlabelled(second)];
    var input := Encode(RenderBundle(es, []));
    UnlabelledIsGood(first);
    UnlabelledIsGood(second);
    ScannedBundle(es, []);
    BodiesOfTwo(first, second);
    AllPemCertsAreDecodable(decode, input);
    DecodableTwo(decode, first, second);
  }

  /** A frame with body `?`, then one with body `AAAA`: the first parser finds nothing, the second one certificate. */
  lemma FirstFrameUndecodable(decode: Base64, der: Bytes)
    requires decode([63]).None? && decode([65, 65, 65, 65]) == Some(der)
    ensures var input := Encode(RenderBundle([Unlabelled([63]), Unlabelled([65, 65, 65, 65])], []));
            ParseFirstPemCert(decode, input).None? && AllPemCerts(decode, input) == [der]
  {
    NoWhitespaceKept([63]);
    NoWhitespaceKept([65, 65, 65, 65]);
    TwoFrames(decode, [63], [65, 65, 65, 65], der);
  }
}
