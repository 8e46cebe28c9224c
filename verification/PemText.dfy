/** PEM bundles as they stand in files, character by character. */
module PemText {
  import opened Common
  import opened Characters
  import opened Utf8
  import opened Pem

  function Codes(s: string): (t: Text)
    ensures |t| == |s| && forall i :: 0 <= i < |s| ==> t[i] == s[i] as int
  {
    seq(|s|, i requires 0 <= i < |s| => s[i] as int)
  }

  lemma Markers()
    ensures BEGIN == Codes("-----BEGIN ") && END == Codes("-----END ") && DASHES == Codes("-----")
    ensures [NEWLINE] == Codes("\n") && [DASH] == Codes("-") && [BLANK] == Codes(" ")
  {
  }

  /** The 25 code points of the Unicode White_Space property. */
  lemma WhitespaceCodes(c: Scalar)
    ensures IsWhitespace(c)
       <==> c in {0x9, 0xA, 0xB, 0xC, 0xD, 0x20, 0x85, 0xA0, 0x1680, 0x2000, 0x2001, 0x2002, 0x2003, 0x2004, 0x2005,
                  0x2006, 0x2007, 0x2008, 0x2009, 0x200A, 0x2028, 0x2029, 0x202F, 0x205F, 0x3000}
  {
  }

  // ----- Bodies --------------------------------------------------------------------------

  /** Section 4 of RFC 4648. */
  predicate IsBase64(c: Scalar) {
    c as char in UPPER + LOWER + DIGITS + "+/="
  }

  predicate Base64Text(s: Text) {
    forall i :: 0 <= i < |s| ==> IsBase64(s[i])
  }

  /** Spaces, tabs and line ends. */
  predicate IsLayout(c: Scalar) {
    c == 32 || c == 9 || c == 13 || c == 10
  }

  function WithoutLayout(s: Text): Text {
    if s == [] then [] else (if IsLayout(s[0]) then [] else [s[0]]) + WithoutLayout(s[1..])
  }

  lemma Base64Codes(c: Scalar)
    ensures IsBase64(c) <==> 48 <= c <= 57 || 65 <= c <= 90 || 97 <= c <= 122 || c == 43 || c == 47 || c == 61
  {
    var signs := "+/=";
    Alphanumeric(c as char);
    assert signs[0] as int == 43 && signs[1] as int == 47 && signs[2] as int == 61;
  }

  /** Base64 text with layout anywhere: the parser removes the layout and nothing else. */
  lemma {:induction false} LayoutIsRemoved(body: Text)
    requires Base64Text(WithoutLayout(body))
    ensures WithoutWhitespace(body) == WithoutLayout(body) && DASH !in body
  {
    if body == [] {
    } else {
      var rest := WithoutLayout(body[1..]);
      if !IsLayout(body[0]) {
        assert WithoutLayout(body)[0] == body[0] && WithoutLayout(body)[1..] == rest;
        Base64Codes(body[0]);
      } else {
        NothingBefore(rest);
      }
      LayoutIsRemoved(body[1..]);
      HeadAndTail(body);
    }
  }

  predicate IsEol(eol: Text) {
    eol == Codes("\n") || eol == Codes("\r\n")
  }

  /** Text in lines of `width` characters, as section 2 of RFC 7468 writes it. */
  function Wrap(s: Text, width: nat, eol: Text): Text
    requires width > 0
  {
    if |s| <= width then s + eol else s[..width] + eol + Wrap(s[width..], width, eol)
  }

  lemma {:induction false} WithoutLayoutAppend(a: Text, b: Text)
    ensures WithoutLayout(a + b) == WithoutLayout(a) + WithoutLayout(b)
  {
    if a == [] {
      NothingBefore(b);
      NothingBefore(WithoutLayout(b));
    } else {
      DropAppend(a, b, 1);
      WithoutLayoutAppend(a[1..], b);
      Associate(if IsLayout(a[0]) then [] else [a[0]], WithoutLayout(a[1..]), WithoutLayout(b));
    }
  }

  lemma {:induction false} Base64HasNoLayout(s: Text)
    requires Base64Text(s)
    ensures WithoutLayout(s) == s
  {
    if s == [] {
    } else {
      Base64Codes(s[0]);
      Base64HasNoLayout(s[1..]);
      HeadAndTail(s);
    }
  }

  lemma EolIsLayout(eol: Text)
    requires IsEol(eol)
    ensures WithoutLayout(eol) == []
  {
    if |eol| == 2 { assert eol[1..][1..] == []; }
  }

  lemma OneLine(line: Text, eol: Text)
    requires Base64Text(line) && IsEol(eol)
    ensures WithoutLayout(line + eol) == line
  {
    WithoutLayoutAppend(line, eol);
    Base64HasNoLayout(line);
    EolIsLayout(eol);
    NothingAfter(line);
  }

  /** Wrapping with LF or CRLF adds only layout, at any width. */
  lemma {:induction false} WrapIsUndone(s: Text, width: nat, eol: Text)
    requires width > 0 && Base64Text(s) && IsEol(eol)
    ensures WithoutLayout(Wrap(s, width, eol)) == s
  {
    if |s| <= width {
      OneLine(s, eol);
    } else {
      WrapIsUndone(s[width..], width, eol);
      OneLine(s[..width], eol);
      WithoutLayoutAppend(s[..width] + eol, Wrap(s[width..], width, eol));
      TakeAndDrop(s, width);
    }
  }

  // ----- Files ---------------------------------------------------------------------------

  /** A frame with the prose before it; blanks may stand around the label and at the end of the BEGIN line. */
  datatype Section = Section(prose: Text, lead: Text, tag: Text, gap: Text, blanks: Text, eol: Text, body: Text)

  predicate Blanks(s: Text) {
    forall i :: 0 <= i < |s| ==> s[i] == 32 || s[i] == 9
  }

  /** Printable ASCII that does not begin or end with a blank, or end with a dash. */
  predicate PrintableLabel(s: Text) {
    && (forall i :: 0 <= i < |s| ==> 32 <= s[i] <= 126)
    && (s != [] ==> s[0] != 32 && s[|s| - 1] != 32 && s[|s| - 1] != 45)
  }

  ghost predicate NoBegin(s: Text) {
    forall q :: !OccursAt(s, Codes("-----BEGIN "), q)
  }

  ghost predicate Printed(s: Section) {
    && NoBegin(s.prose) && PrintableLabel(s.tag) && IsEol(s.eol)
    && Blanks(s.lead) && Blanks(s.gap) && Blanks(s.blanks)
  }

  function BeginLine(s: Section): Text {
    Codes("-----BEGIN ") + (s.lead + s.tag + s.gap + Codes("-----") + s.blanks + s.eol)
  }

  function EndLine(s: Section): Text {
    Codes("-----END ") + s.tag + Codes("-----")
  }

  function TextOf(s: Section): Text {
    s.prose + BeginLine(s) + s.body + EndLine(s)
  }

  /** What follows an END line is the prose before the next frame, or the trailer. */
  function TextOfAll(ss: seq<Section>, trailer: Text): Text {
    if ss == [] then trailer else TextOf(ss[0]) + TextOfAll(ss[1..], trailer)
  }

  /** The CR of a CRLF is whitespace at the end of the line. */
  function EntryOf(s: Section): Entry {
    Entry(s.prose, s.lead, s.tag, s.gap, DASHES, s.blanks + CrOf(s.eol), s.body)
  }

  function CrOf(eol: Text): Text {
    if eol == Codes("\r\n") then Codes("\r") else []
  }

  lemma EolEnds(eol: Text)
    requires IsEol(eol)
    ensures CrOf(eol) + [NEWLINE] == eol && NEWLINE !in CrOf(eol) && AllWhitespace(CrOf(eol))
  {
  }

  lemma SectionIsEntry(s: Section)
    requires IsEol(s.eol)
    ensures TextOf(s) == RenderEntry(EntryOf(s))
  {
    Markers();
    EolEnds(s.eol);
    Regrouped(s.prose, BEGIN, s.lead + s.tag + s.gap + DASHES, s.blanks, CrOf(s.eol));
  }

  lemma Regrouped(prose: Text, begin: Text, line: Text, blanks: Text, cr: Text)
    ensures prose + (begin + (line + blanks + (cr + [NEWLINE]))) == prose + begin + (line + (blanks + cr)) + [NEWLINE]
  {
  }

  lemma SectionIsGood(s: Section)
    requires Printed(s) && DASH !in s.body
    ensures GoodEntry(EntryOf(s))
  {
    Markers();
    EolEnds(s.eol);
    assert Prose(s.prose);
  }

  function EntriesOf(ss: seq<Section>): seq<Entry> {
    if ss == [] then [] else [EntryOf(ss[0])] + EntriesOf(ss[1..])
  }

  lemma {:induction false} SectionsAreEntries(ss: seq<Section>, trailer: Text)
    requires forall i :: 0 <= i < |ss| ==> IsEol(ss[i].eol)
    ensures TextOfAll(ss, trailer) == RenderBundle(EntriesOf(ss), trailer)
  {
    if ss == [] {
    } else {
      SectionIsEntry(ss[0]);
      SectionsAreEntries(ss[1..], trailer);
      assert EntriesOf(ss)[1..] == EntriesOf(ss[1..]);
    }
  }

  /** `decode` undoes `encode`, which writes base64 text. */
  ghost predicate Base64Codec(encode: Bytes -> Text, decode: Base64) {
    Base64Pair(encode, decode) && forall der :: Base64Text(encode(der))
  }

  /** The frame holds `der`, encoded, with layout anywhere in it. */
  ghost predicate Holds(encode: Bytes -> Text, s: Section, der: Bytes) {
    Printed(s) && WithoutLayout(s.body) == encode(der)
  }

  lemma {:induction false} EntriesCarry(encode: Bytes -> Text, ss: seq<Section>, ders: seq<Bytes>)
    requires |ss| == |ders| && forall der :: Base64Text(encode(der))
    requires forall i :: 0 <= i < |ss| ==> Holds(encode, ss[i], ders[i])
    ensures |EntriesOf(ss)| == |ss| && forall i :: 0 <= i < |ss| ==> CarriesCert(encode, EntriesOf(ss)[i], ders[i])
  {
    if ss == [] {
    } else {
      EntriesCarry(encode, ss[1..], ders[1..]);
      LayoutIsRemoved(ss[0].body);
      SectionIsGood(ss[0]);
    }
  }

  /**
    * Any list of certificates, in files with LF or CRLF line ends, with blanks and line breaks anywhere in
    * the base64 text and with prose around the frames, is read back in order.
    */
  lemma FileRoundTrip(encode: Bytes -> Text, decode: Base64, ss: seq<Section>, trailer: Text, ders: seq<Bytes>)
    requires Base64Codec(encode, decode) && |ss| == |ders| && NoBegin(trailer)
    requires forall i :: 0 <= i < |ss| ==> Holds(encode, ss[i], ders[i])
    ensures var input := Encode(TextOfAll(ss, trailer));
            AllPemCerts(decode, input) == ders && ParseFirstPemCert(decode, input) == Head(ders)
  {
    Markers();
    EntriesCarry(encode, ss, ders);
    SectionsAreEntries(ss, trailer);
    assert Prose(trailer);
    BundleRoundTrip(encode, decode, EntriesOf(ss), trailer, ders);
  }
}
