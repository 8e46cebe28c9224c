/** The four overlapping blank-line delimiters of the event-stream loop, and cutting text at them. */
module Delimiters {
  import opened Common

  const CRLF: Bytes := [CR, LF]
  const CRLF_CRLF: Bytes := [CR, LF, CR, LF]
  const LF_LF: Bytes := [LF, LF]
  const CR_CR: Bytes := [CR, CR]
  const LF_CRLF: Bytes := [LF, CR, LF]

  datatype Delim = Delim(pos: nat, len: nat)

  /** Length of the delimiter at offset `p` of `b`; 0 when there is none. */
  function DelimLen(b: Bytes, p: nat): (n: nat)
    ensures n == 0 || (2 <= n <= 4 && p + n <= |b|)
    ensures n != 0 ==> b[p] == LF || b[p] == CR
    ensures n == 0 || forall i :: p <= i < p + n ==> b[i] == LF || b[i] == CR
  {
    if p + 4 <= |b| && b[p] == CR && b[p + 1] == LF && b[p + 2] == CR && b[p + 3] == LF then 4
    else if p + 2 <= |b| && b[p] == LF && b[p + 1] == LF then 2
    else if p + 2 <= |b| && b[p] == CR && b[p + 1] == CR then 2
    else if p + 3 <= |b| && b[p] == LF && b[p + 1] == CR && b[p + 2] == LF then 3
    else 0
  }

  /** No delimiter starts before `n`. */
  ghost predicate NoneBefore(b: Bytes, n: int) {
    forall p :: 0 <= p < n ==> DelimLen(b, p) == 0
  }

  /** The earliest delimiter. */
  function FirstDelim(b: Bytes): (r: Option<Delim>)
    ensures r.Some? ==> IsFirst(b, r.value)
    ensures r.None? ==> NoneBefore(b, |b|)
  {
    FirstDelimFrom(b, 0)
  }

  function FirstDelimFrom(b: Bytes, from: nat): (r: Option<Delim>)
    requires from <= |b| && NoneBefore(b, from)
    ensures r.Some? ==> IsFirst(b, r.value)
    ensures r.None? ==> NoneBefore(b, |b|)
    decreases |b| - from
  {
    if from == |b| then None
    else if DelimLen(b, from) != 0 then Some(Delim(from, DelimLen(b, from)))
    else FirstDelimFrom(b, from + 1)
  }

  ghost predicate IsFirst(b: Bytes, d: Delim) {
    d.pos < |b| && d.len != 0 && DelimLen(b, d.pos) == d.len && NoneBefore(b, d.pos)
  }

  lemma FirstIsUnique(b: Bytes, d: Delim)
    requires IsFirst(b, d)
    ensures FirstDelim(b) == Some(d)
  {
    match FirstDelim(b) {
      case Some(e) =>
        assert e.pos <= d.pos;
      case None =>
    }
  }

  // ----- Appending text ------------------------------------------------------------------

  lemma DelimLenAppend(b: Bytes, t: Bytes, p: nat)
    ensures DelimLen(b, p) != 0 ==> DelimLen(b + t, p) == DelimLen(b, p)
    ensures DelimLen(b + t, p) != 0 && p + DelimLen(b + t, p) <= |b| ==> DelimLen(b, p) == DelimLen(b + t, p)
  {
  }

  /** A found earliest delimiter is final: text appended later never yields an earlier or a longer one. */
  lemma FirstDelimStable(b: Bytes, t: Bytes)
    requires FirstDelim(b).Some?
    ensures FirstDelim(b + t) == FirstDelim(b)
  {
    var d := FirstDelim(b).value;
    forall p | 0 <= p < d.pos
      ensures DelimLen(b + t, p) == 0
    {
      assert DelimLen(b, p) == 0;
      DelimLenAppend(b, t, p);
    }
    DelimLenAppend(b, t, d.pos);
    FirstIsUnique(b + t, d);
  }

  /** A delimiter that appears only after an append reaches into the appended text. */
  lemma FirstDelimNew(b: Bytes, t: Bytes)
    requires FirstDelim(b).None? && FirstDelim(b + t).Some?
    ensures |b| < FirstDelim(b + t).value.pos + FirstDelim(b + t).value.len
  {
    var d := FirstDelim(b + t).value;
    DelimLenAppend(b, t, d.pos);
  }

  /** Delimiters seen through a prefix that holds none. */
  lemma DelimLenShift(a: Bytes, b: Bytes, p: nat)
    ensures DelimLen(a + b, |a| + p) == DelimLen(b, p)
  {
  }

  lemma FirstDelimShift(a: Bytes, b: Bytes)
    requires NoneBefore(a + b, |a|)
    ensures FirstDelim(a + b) == match FirstDelim(b) {
                                   case None => None
                                   case Some(d) => Some(Delim(|a| + d.pos, d.len))
                                 }
  {
    forall p | 0 <= p < |b|
      ensures DelimLen(a + b, |a| + p) == DelimLen(b, p)
    {
      DelimLenShift(a, b, p);
    }
    match FirstDelim(b) {
      case Some(d) =>
        forall p | 0 <= p < |a| + d.pos
          ensures DelimLen(a + b, p) == 0
        {
          if p >= |a| { DelimLenShift(a, b, p - |a|); }
        }
        FirstIsUnique(a + b, Delim(|a| + d.pos, d.len));
      case None =>
        forall p | 0 <= p < |a| + |b|
          ensures DelimLen(a + b, p) == 0
        {
          if p >= |a| { DelimLenShift(a, b, p - |a|); }
        }
    }
  }

  // ----- Cutting -------------------------------------------------------------------------

  function After(b: Bytes, d: Delim): Bytes
    requires d.pos + d.len <= |b|
  {
    b[d.pos + d.len..]
  }

  /** The frames of a finished text: it is cut at each earliest delimiter. */
  function Frames(text: Bytes): seq<Bytes>
    decreases |text|
  {
    match FirstDelim(text) {
      case None => []
      case Some(d) => [text[..d.pos]] + Frames(After(text, d))
    }
  }

  /** The unterminated text after the last frame. */
  function Tail(text: Bytes): (t: Bytes)
    ensures FirstDelim(t).None?
    decreases |text|
  {
    match FirstDelim(text) {
      case None => text
      case Some(d) => Tail(After(text, d))
    }
  }

  lemma FramesPop(buf: Bytes, t: Bytes)
    requires FirstDelim(buf).Some?
    ensures var d := FirstDelim(buf).value;
            FirstDelim(buf + t) == Some(d) && After(buf + t, d) == After(buf, d) + t
            && Frames(buf + t) == [buf[..d.pos]] + Frames(After(buf, d) + t)
            && Tail(buf + t) == Tail(After(buf, d) + t)
  {
    var d := FirstDelim(buf).value;
    FirstDelimStable(buf, t);
    DropAppend(buf, t, d.pos + d.len);
    assert (buf + t)[..d.pos] == buf[..d.pos];
  }

  /** Frames already cut are final; only the tail meets later text. */
  lemma {:induction false} FramesAppend(a: Bytes, t: Bytes)
    ensures Frames(a + t) == Frames(a) + Frames(Tail(a) + t)
    ensures Tail(a + t) == Tail(Tail(a) + t)
    decreases |a|
  {
    match FirstDelim(a) {
      case None =>
        NothingBefore(Frames(a + t));
      case Some(d) =>
        FramesPop(a, t);
        FramesAppend(After(a, d), t);
        Associate([a[..d.pos]], Frames(After(a, d)), Frames(Tail(a) + t));
    }
  }

  // ----- Blank lines (section 9.2 of the WHATWG HTML Standard) ---------------------------

  predicate IsTerminator(b: byte) {
    b == LF || b == CR
  }

  /** Length of the line terminator (CRLF, LF or CR) at offset `p`; 0 when there is none. */
  function TerminatorLen(b: Bytes, p: nat): nat {
    if p < |b| && b[p] == LF then 1
    else if p + 1 < |b| && b[p] == CR && b[p + 1] == LF then 2
    else if p < |b| && b[p] == CR then 1
    else 0
  }

  /** A terminator starts at `p`, not in the middle of a CRLF. */
  predicate LineEndsAt(b: Bytes, p: nat) {
    TerminatorLen(b, p) != 0 && !(p > 0 && p < |b| && b[p - 1] == CR && b[p] == LF)
  }

  /** A line ends at `p` and the line after it is empty. */
  predicate BlankLineAfter(b: Bytes, p: nat) {
    LineEndsAt(b, p) && LineEndsAt(b, p + TerminatorLen(b, p))
  }

  /** A delimiter is always a blank line. */
  lemma DelimIsBlankLine(b: Bytes, d: nat)
    requires DelimLen(b, d) != 0
    ensures exists p :: d - 1 <= p <= d && p >= 0 && BlankLineAfter(b, p)
  {
    var p := if d > 0 && b[d] == LF && b[d - 1] == CR then d - 1 else d;
    assert BlankLineAfter(b, p);
  }
}
