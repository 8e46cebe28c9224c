/**
  * Which blank lines end an event: cutting at the four delimiters against the dispatch rule of
  * section 9.2 of the WHATWG HTML Standard.
  */
module BlankLines {
  import opened Common
  import opened Delimiters
  import opened Newlines
  import opened Sse
  import opened StreamTheorems
  import opened Utf8
  import SseStream

  // ----- The standard --------------------------------------------------------------------

  /** A block of lines is dispatched unless it is empty. */
  function Emit(block: seq<Bytes>): seq<seq<Bytes>> {
    if block == [] then [] else [block]
  }

  /** Every empty line dispatches the non-empty lines before it; lines after the last one are dropped. */
  function Dispatched(block: seq<Bytes>, lines: seq<Bytes>): seq<seq<Bytes>>
    decreases |lines|
  {
    if lines == [] then []
    else if lines[0] == [] then Emit(block) + Dispatched([], lines[1..])
    else Dispatched(block + [lines[0]], lines[1..])
  }

  /** The blocks of a text; its last piece is not a line, because nothing ends it. */
  function StandardBlocks(text: Bytes): seq<seq<Bytes>> {
    var pieces := SplitEol(text);
    Dispatched([], pieces[..|pieces| - 1])
  }

  // ----- The loop ------------------------------------------------------------------------

  function NonEmptyLines(lines: seq<Bytes>): seq<Bytes> {
    if lines == [] then []
    else (if lines[0] == [] then [] else [lines[0]]) + NonEmptyLines(lines[1..])
  }

  /** The non-empty lines of each frame; frames without any are left out. */
  function FrameBlocks(frames: seq<Bytes>): seq<seq<Bytes>> {
    if frames == [] then [] else Emit(NonEmptyLines(SplitEol(frames[0]))) + FrameBlocks(frames[1..])
  }

  // ----- The blank lines that go unseen --------------------------------------------------

  /** At `q` a lone CR ends a blank line after a non-empty line that LF or CRLF ended, and text or the end follows. */
  predicate UnseenAt(b: Bytes, q: nat) {
    && 2 <= q < |b| && b[q] == CR && b[q - 1] == LF
    && (q + 1 == |b| || !IsTerminator(b[q + 1]))
    && (!IsTerminator(b[q - 2]) || (q >= 3 && b[q - 2] == CR && !IsTerminator(b[q - 3])))
  }

  // ----- Line by line --------------------------------------------------------------------

  /** The length of the first line. */
  function LineLen(s: Bytes): (n: nat)
    ensures n <= |s| && (n < |s| ==> IsTerminator(s[n]))
  {
    LineEnd(s, 0)
  }

  function LineEnd(s: Bytes, from: nat): (n: nat)
    requires from <= |s|
    ensures from <= n <= |s| && (n < |s| ==> IsTerminator(s[n]))
    decreases |s| - from
  {
    if from == |s| || IsTerminator(s[from]) then from else LineEnd(s, from + 1)
  }

  lemma {:induction false} NoneInLine(s: Bytes, from: nat)
    requires from <= |s|
    ensures forall i :: from <= i < LineEnd(s, from) ==> !IsTerminator(s[i])
    decreases |s| - from
  {
    if from == |s| || IsTerminator(s[from]) {
    } else {
      NoneInLine(s, from + 1);
    }
  }

  /** The offset of the second line. */
  function NextLine(s: Bytes): (q: nat)
    requires LineLen(s) < |s|
    ensures LineLen(s) < q <= |s|
  {
    LineLen(s) + TerminatorLen(s, LineLen(s))
  }

  function OneLine(line: Bytes): seq<Bytes> {
    if line == [] then [] else [line]
  }

  /** `StandardBlocks`, one line at a time. */
  function StdFrom(block: seq<Bytes>, s: Bytes): seq<seq<Bytes>>
    decreases |s|
  {
    if LineLen(s) == |s| then []
    else if LineLen(s) == 0 then Emit(block) + StdFrom([], s[NextLine(s)..])
    else StdFrom(block + [s[..LineLen(s)]], s[NextLine(s)..])
  }

  function LoopBlocks(text: Bytes): seq<seq<Bytes>> {
    FrameBlocks(Frames(text))
  }

  /** The blocks of the frames of `s` when the non-empty lines `block` stand before it. */
  function LoopFrom(block: seq<Bytes>, s: Bytes): seq<seq<Bytes>> {
    match FirstDelim(s) {
      case None => []
      case Some(d) => CutAt(block, s, d)
    }
  }

  function CutAt(block: seq<Bytes>, s: Bytes, d: Delim): seq<seq<Bytes>>
    requires d.pos + d.len <= |s|
  {
    Emit(block + NonEmptyLines(SplitEol(s[..d.pos]))) + LoopBlocks(After(s, d))
  }

  predicate LoneCr(s: Bytes) {
    s != [] && s[0] == CR && (|s| == 1 || !IsTerminator(s[1]))
  }

  /** `after`: a non-empty line ended by LF or CRLF stands before `s`. */
  predicate Unseen(after: bool, s: Bytes)
    decreases |s|
  {
    (after && LoneCr(s))
    || (LineLen(s) < |s| && Unseen(LineLen(s) > 0 && s[NextLine(s) - 1] == LF, s[NextLine(s)..]))
  }

  /** The first line of `s` ends at `n`, its terminator at `q`. */
  ghost predicate FirstLineIs(s: Bytes, n: nat, q: nat) {
    && n < q <= |s| && (forall i :: 0 <= i < n ==> !IsTerminator(s[i]))
    && ((q == n + 1 && s[n] == LF) || (q == n + 2 && s[n] == CR && s[n + 1] == LF)
        || (q == n + 1 && s[n] == CR && (q < |s| ==> s[q] != LF)))
  }

  lemma FirstLineMeaning(s: Bytes)
    requires LineLen(s) < |s|
    ensures FirstLineIs(s, LineLen(s), NextLine(s))
  {
    NoneInLine(s, 0);
  }

  lemma EolOfFirst(s: Bytes, n: nat, q: nat)
    requires FirstLineIs(s, n, q)
    ensures IsEol(s[n..q], s[q..])
  {
    if q == n + 2 {
      assert s[n..q] == CRLF;
    } else {
      assert s[n..q] == [s[n]];
    }
  }

  lemma SplitWhole(s: Bytes, n: nat, q: nat)
    requires FirstLineIs(s, n, q)
    ensures SplitEol(s) == [s[..n]] + SplitEol(s[q..])
  {
    ThreeParts(s, n, q);
    EolOfFirst(s, n, q);
    SplitAfterLine(s[..n], s[n..q], s[q..]);
  }

  lemma SplitPrefix(s: Bytes, n: nat, q: nat, p: nat)
    requires FirstLineIs(s, n, q) && q + p <= |s|
    ensures SplitEol(s[..q + p]) == [s[..n]] + SplitEol(s[q..][..p])
  {
    SplitWhole(s[..q + p], n, q);
    TakeTake(s, q + p, n);
    TakeDrop(s, q + p, q);
  }

  lemma SplitFirst(s: Bytes)
    ensures LineLen(s) == |s| ==> SplitEol(s) == [s]
    ensures LineLen(s) < |s| ==> SplitEol(s) == [s[..LineLen(s)]] + SplitEol(s[NextLine(s)..])
  {
    if LineLen(s) == |s| {
      NoneInLine(s, 0);
      SplitLine(s);
    } else {
      FirstLineMeaning(s);
      SplitWhole(s, LineLen(s), NextLine(s));
    }
  }

  lemma {:induction false} StdIsStandard(block: seq<Bytes>, s: Bytes)
    ensures var pieces := SplitEol(s); StdFrom(block, s) == Dispatched(block, pieces[..|pieces| - 1])
    decreases |s|
  {
    SplitFirst(s);
    if LineLen(s) == |s| {
    } else {
      var line, rest := s[..LineLen(s)], s[NextLine(s)..];
      var pieces := SplitEol(s);
      StdIsStandard(if line == [] then [] else block + [line], rest);
      assert pieces[..|pieces| - 1] == [line] + SplitEol(rest)[..|SplitEol(rest)| - 1];
    }
  }

  // ----- One line of the loop ------------------------------------------------------------

  lemma NonEmptyFirst(line: Bytes, lines: seq<Bytes>)
    ensures NonEmptyLines([line] + lines) == OneLine(line) + NonEmptyLines(lines)
  {
    assert ([line] + lines)[1..] == lines;
  }

  lemma LineLenIs(s: Bytes, n: nat)
    requires n <= |s| && (forall i :: 0 <= i < n ==> !IsTerminator(s[i])) && (n < |s| ==> IsTerminator(s[n]))
    ensures LineLen(s) == n
  {
    NoneInLine(s, 0);
  }

  lemma LinesOfPrefix(s: Bytes, n: nat, q: nat, p: nat)
    requires FirstLineIs(s, n, q) && q + p <= |s|
    ensures NonEmptyLines(SplitEol(s[..q + p])) == OneLine(s[..n]) + NonEmptyLines(SplitEol(s[q..][..p]))
  {
    SplitPrefix(s, n, q, p);
    NonEmptyFirst(s[..n], SplitEol(s[q..][..p]));
  }

  /** No delimiter starts in the first line or its terminator: the line joins the block. */
  lemma LoopPeels(block: seq<Bytes>, s: Bytes)
    requires LineLen(s) < |s| && NoneBefore(s, NextLine(s))
    ensures LoopFrom(block, s) == LoopFrom(block + OneLine(s[..LineLen(s)]), s[NextLine(s)..])
  {
    FirstDelimAfter(s, NextLine(s));
    if FirstDelim(s[NextLine(s)..]).Some? {
      FirstLineMeaning(s);
      CutPeels(block, s, LineLen(s), NextLine(s), FirstDelim(s[NextLine(s)..]).value);
    }
  }

  lemma CutPeels(block: seq<Bytes>, s: Bytes, n: nat, q: nat, d: Delim)
    requires FirstLineIs(s, n, q) && q + d.pos + d.len <= |s|
    ensures CutAt(block, s, Delim(q + d.pos, d.len)) == CutAt(block + OneLine(s[..n]), s[q..], d)
  {
    LinesOfPrefix(s, n, q, d.pos);
    DropDrop(s, q, d.pos + d.len);
    CutsAlike(block, OneLine(s[..n]), s, Delim(q + d.pos, d.len), s[q..], d);
  }

  lemma CutsAlike(block: seq<Bytes>, line: seq<Bytes>, s: Bytes, d: Delim, t: Bytes, e: Delim)
    requires d.pos + d.len <= |s| && e.pos + e.len <= |t| && After(s, d) == After(t, e)
    requires NonEmptyLines(SplitEol(s[..d.pos])) == line + NonEmptyLines(SplitEol(t[..e.pos]))
    ensures CutAt(block, s, d) == CutAt(block + line, t, e)
  {
    Associate(block, line, NonEmptyLines(SplitEol(t[..e.pos])));
  }

  lemma FirstDelimAfter(s: Bytes, q: nat)
    requires q <= |s| && NoneBefore(s, q)
    ensures FirstDelim(s) == match FirstDelim(s[q..]) {
                               case None => None
                               case Some(d) => Some(Delim(q + d.pos, d.len))
                             }
  {
    assert s == s[..q] + s[q..];
    FirstDelimShift(s[..q], s[q..]);
  }

  /** A blank line follows the first line. */
  predicate BlankFollows(s: Bytes) {
    LineLen(s) < |s| && NextLine(s) < |s| && IsTerminator(s[NextLine(s)])
  }

  /** The offset after that blank line. */
  function BlankEnd(s: Bytes): (q: nat)
    requires BlankFollows(s)
    ensures NextLine(s) < q <= |s|
  {
    NextLine(s) + TerminatorLen(s, NextLine(s))
  }

  /** `rest` is `s` from `end` on, or from inside the CRLF before it. */
  predicate ResumesAt(s: Bytes, end: nat, rest: Bytes) {
    end <= |s| && (rest == s[end..] || rest == [LF] + s[end..])
  }

  /**
    * A delimiter in the first line's terminator: a blank line follows, and the loop cuts there, perhaps
    * inside a CRLF.
    */
  lemma LoopCuts(s: Bytes, d: Delim)
    requires LineLen(s) < |s| && FirstDelim(s) == Some(d) && d.pos < NextLine(s)
    ensures BlankFollows(s) && ResumesAt(s, BlankEnd(s), After(s, d))
  {
    CutIsInTerminator(s, d);
    DelimInTerminator(s, d.pos);
    var end := d.pos + d.len;
    if end < BlankEnd(s) { assert s[end..] == [LF] + s[end + 1..]; }
  }

  lemma CutIsInTerminator(s: Bytes, d: Delim)
    requires LineLen(s) < |s| && FirstDelim(s) == Some(d) && d.pos < NextLine(s)
    ensures LineLen(s) <= d.pos < |s| && DelimLen(s, d.pos) == d.len != 0
  {
    NoneInLine(s, 0);
    assert IsTerminator(s[d.pos]);
  }

  lemma DelimInTerminator(s: Bytes, p: nat)
    requires LineLen(s) <= p < |s| && p < NextLine(s) && DelimLen(s, p) != 0
    ensures BlankFollows(s) && !(s[NextLine(s) - 1] == LF && LoneCr(s[NextLine(s)..]))
    ensures var end := p + DelimLen(s, p);
            end == BlankEnd(s) || (end == BlankEnd(s) - 1 && s[end] == LF)
  {
    var q := NextLine(s);
    assert q < |s| && IsTerminator(s[q]);
    if q + 1 < |s| { assert s[q..][1] == s[q + 1]; }
  }

  lemma LinesBeforeCut(s: Bytes, n: nat, q: nat, p: nat)
    requires FirstLineIs(s, n, q) && n <= p < q
    ensures NonEmptyLines(SplitEol(s[..p])) == OneLine(s[..n])
  {
    var line := s[..n];
    if p == n {
      SplitLine(line);
      NonEmptyFirst(line, []);
    } else {
      assert s[..p] == line + [CR] + [];
      SplitAfterLine(line, [CR], []);
      NonEmptyFirst(line, [[]]);
      assert NonEmptyLines([[]]) == [];
    }
  }

  /**
    * Otherwise, a blank line that follows is one the searches cannot see from here: it ends with a lone
    * CR after an LF.
    */
  lemma UncutBlank(s: Bytes)
    requires BlankFollows(s) && NoneBefore(s, NextLine(s))
    ensures s[NextLine(s) - 1] == LF && s[NextLine(s)] == CR && BlankEnd(s) == NextLine(s) + 1
  {
    assert DelimLen(s, LineLen(s)) == 0 && DelimLen(s, NextLine(s) - 1) == 0;
  }

  /** The second half of a CRLF that was cut reads as one more blank line, which changes nothing. */
  lemma HalfCrLf(u: Bytes)
    ensures StdFrom([], [LF] + u) == StdFrom([], u)
    ensures Unseen(false, [LF] + u) <==> Unseen(false, u)
  {
    var s := [LF] + u;
    LineLenIs(s, 0);
    assert s[1..] == u;
  }

  lemma LoopIsFrames(s: Bytes)
    ensures LoopFrom([], s) == LoopBlocks(s)
  {
    match FirstDelim(s) {
      case None =>
      case Some(d) =>
        var frame := s[..d.pos];
        assert Frames(s)[1..] == Frames(After(s, d));
        assert [] + NonEmptyLines(SplitEol(frame)) == NonEmptyLines(SplitEol(frame));
    }
  }

  // ----- The whole text ------------------------------------------------------------------

  /** A line was read without being cut, so a terminator that comes next is a lone CR after an LF. */
  predicate Waits(block: seq<Bytes>, after: bool, s: Bytes) {
    && (after ==> block != [])
    && (block != [] && s != [] && IsTerminator(s[0]) ==> after && s[0] == CR && TerminatorLen(s, 0) == 1)
  }

  ghost predicate Agrees(block: seq<Bytes>, after: bool, s: Bytes) {
    LoopFrom(block, s) == StdFrom(block, s) <==> !Unseen(after, s)
  }

  /** The line before a read that does not cut joins the block. */
  lemma LineJoins(block: seq<Bytes>, after: bool, s: Bytes)
    requires Waits(block, after, s) && LineLen(s) < |s| && (LineLen(s) == 0 ==> block == [])
    requires NoneBefore(s, NextLine(s))
    ensures var next, nextAfter := block + OneLine(s[..LineLen(s)]), LineLen(s) > 0 && s[NextLine(s) - 1] == LF;
            Waits(next, nextAfter, s[NextLine(s)..])
            && (Agrees(next, nextAfter, s[NextLine(s)..]) ==> Agrees(block, after, s))
  {
    LoopPeels(block, s);
    if BlankFollows(s) {
      UncutBlank(s);
      TerminatorShift(s, NextLine(s));
    }
    StdReadsLine(block, s);
  }

  lemma TerminatorShift(s: Bytes, q: nat)
    requires q <= |s|
    ensures TerminatorLen(s[q..], 0) == TerminatorLen(s, q)
  {
    if q + 1 < |s| { assert s[q..][1] == s[q + 1]; }
  }

  lemma StdReadsLine(block: seq<Bytes>, s: Bytes)
    requires LineLen(s) < |s| && (LineLen(s) == 0 ==> block == [])
    ensures StdFrom(block, s) == StdFrom(block + OneLine(s[..LineLen(s)]), s[NextLine(s)..])
  {
    if LineLen(s) == 0 {
      assert block + OneLine(s[..0]) == [];
    }
  }

  /** An empty line dispatches. */
  lemma StdReadsBlank(block: seq<Bytes>, s: Bytes)
    requires s != [] && IsTerminator(s[0])
    ensures StdFrom(block, s) == Emit(block) + StdFrom([], s[TerminatorLen(s, 0)..])
  {
    LineLenIs(s, 0);
  }

  lemma BlankSeen(block: seq<Bytes>, after: bool, s: Bytes, d: Delim)
    requires Waits(block, after, s) && LineLen(s) < |s| && (LineLen(s) == 0 ==> block == [])
    requires FirstDelim(s) == Some(d) && d.pos < NextLine(s) && Agrees([], false, After(s, d))
    ensures Agrees(block, after, s)
  {
    LoopSide(block, s, d);
    StdSide(block, s, d);
    UnseenSide(after, s, d);
    SameVerdict(Emit(block + OneLine(s[..LineLen(s)])), LoopFrom([], After(s, d)), StdFrom([], After(s, d)),
                Unseen(false, After(s, d)));
  }

  lemma SameVerdict<T>(e: seq<T>, a: seq<T>, b: seq<T>, unseen: bool)
    requires a == b <==> !unseen
    ensures e + a == e + b <==> !unseen
  {
    assert (e + a)[|e|..] == a && (e + b)[|e|..] == b;
  }

  lemma LoopSide(block: seq<Bytes>, s: Bytes, d: Delim)
    requires LineLen(s) < |s| && FirstDelim(s) == Some(d) && d.pos < NextLine(s)
    ensures LoopFrom(block, s) == Emit(block + OneLine(s[..LineLen(s)])) + LoopFrom([], After(s, d))
  {
    CutIsInTerminator(s, d);
    FirstLineMeaning(s);
    LinesBeforeCut(s, LineLen(s), NextLine(s), d.pos);
    LoopIsFrames(After(s, d));
  }

  lemma StdSide(block: seq<Bytes>, s: Bytes, d: Delim)
    requires LineLen(s) < |s| && (LineLen(s) == 0 ==> block == [])
    requires FirstDelim(s) == Some(d) && d.pos < NextLine(s)
    ensures StdFrom(block, s) == Emit(block + OneLine(s[..LineLen(s)])) + StdFrom([], After(s, d))
  {
    LoopCuts(s, d);
    StdReadsLine(block, s);
    StdResumes(block + OneLine(s[..LineLen(s)]), s, NextLine(s), BlankEnd(s), After(s, d));
  }

  lemma StdResumes(block: seq<Bytes>, s: Bytes, q: nat, end: nat, rest: Bytes)
    requires q < |s| && IsTerminator(s[q]) && end == q + TerminatorLen(s, q) && ResumesAt(s, end, rest)
    ensures StdFrom(block, s[q..]) == Emit(block) + StdFrom([], rest)
  {
    StdReadsSecondBlank(block, s, q);
    SameFromInside(s, end, rest);
  }

  lemma UnseenResumes(s: Bytes, q: nat, end: nat, rest: Bytes)
    requires q < |s| && IsTerminator(s[q]) && end == q + TerminatorLen(s, q) && ResumesAt(s, end, rest)
    ensures Unseen(false, s[q..]) <==> Unseen(false, rest)
  {
    UnseenReadsBlank(s, q);
    UnseenFromInside(s, end, rest);
  }

  lemma UnseenSide(after: bool, s: Bytes, d: Delim)
    requires LineLen(s) < |s| && !(after && LoneCr(s)) && FirstDelim(s) == Some(d) && d.pos < NextLine(s)
    ensures Unseen(after, s) <==> Unseen(false, After(s, d))
  {
    UnseenReadsLine(after, s, d);
    UnseenRest(s, d);
  }

  lemma UnseenReadsLine(after: bool, s: Bytes, d: Delim)
    requires LineLen(s) < |s| && !(after && LoneCr(s)) && FirstDelim(s) == Some(d) && d.pos < NextLine(s)
    ensures Unseen(after, s) <==> Unseen(false, s[NextLine(s)..])
  {
    CutIsInTerminator(s, d);
    DelimInTerminator(s, d.pos);
  }

  lemma UnseenRest(s: Bytes, d: Delim)
    requires LineLen(s) < |s| && FirstDelim(s) == Some(d) && d.pos < NextLine(s)
    ensures Unseen(false, s[NextLine(s)..]) <==> Unseen(false, After(s, d))
  {
    LoopCuts(s, d);
    UnseenResumes(s, NextLine(s), BlankEnd(s), After(s, d));
  }

  lemma SameFromInside(s: Bytes, end: nat, rest: Bytes)
    requires ResumesAt(s, end, rest)
    ensures StdFrom([], rest) == StdFrom([], s[end..])
  {
    HalfCrLf(s[end..]);
  }

  lemma UnseenFromInside(s: Bytes, end: nat, rest: Bytes)
    requires ResumesAt(s, end, rest)
    ensures Unseen(false, rest) <==> Unseen(false, s[end..])
  {
    HalfCrLf(s[end..]);
  }

  lemma UnseenReadsBlank(s: Bytes, q: nat)
    requires q < |s| && IsTerminator(s[q])
    ensures Unseen(false, s[q..]) <==> Unseen(false, s[q + TerminatorLen(s, q)..])
  {
    TerminatorShift(s, q);
    LineLenIs(s[q..], 0);
    DropDrop(s, q, TerminatorLen(s, q));
  }

  lemma StdReadsSecondBlank(block: seq<Bytes>, s: Bytes, q: nat)
    requires q < |s| && IsTerminator(s[q])
    ensures StdFrom(block, s[q..]) == Emit(block) + StdFrom([], s[q + TerminatorLen(s, q)..])
  {
    TerminatorShift(s, q);
    StdReadsBlank(block, s[q..]);
    DropDrop(s, q, TerminatorLen(s, q));
  }

  /** A lone CR ends the blank line, but another CR follows: the searches see the pair. */
  lemma TwoCrs(block: seq<Bytes>, after: bool, s: Bytes)
    requires Waits(block, after, s) && block != [] && LineLen(s) == 0 && |s| > 1 && IsTerminator(s[1])
    requires Agrees([], false, s[2..])
    ensures Agrees(block, after, s)
  {
    LoopCutsCrs(block, s);
    StdReadsTwoCrs(block, after, s);
    SameVerdict(Emit(block), LoopFrom([], s[2..]), StdFrom([], s[2..]), Unseen(false, s[2..]));
  }

  lemma LoopCutsCrs(block: seq<Bytes>, s: Bytes)
    requires |s| > 1 && s[0] == CR && s[1] == CR
    ensures LoopFrom(block, s) == Emit(block) + LoopFrom([], s[2..])
  {
    FirstIsUnique(s, Delim(0, 2));
    EmptyFrame(s);
    NothingAfter(block);
    LoopIsFrames(s[2..]);
  }

  lemma StdReadsTwoCrs(block: seq<Bytes>, after: bool, s: Bytes)
    requires |s| > 1 && s[0] == CR && s[1] == CR
    ensures StdFrom(block, s) == Emit(block) + StdFrom([], s[2..])
    ensures Unseen(after, s) <==> Unseen(false, s[2..])
  {
    CrsResume(s);
    StdReadsBlank(block, s);
    StdResumes([], s, 1, 1 + TerminatorLen(s, 1), s[2..]);
    NothingBefore(StdFrom([], s[2..]));
    UnseenAfterCrs(after, s);
    UnseenResumes(s, 1, 1 + TerminatorLen(s, 1), s[2..]);
  }

  lemma CrsResume(s: Bytes)
    requires |s| > 1 && s[1] == CR
    ensures ResumesAt(s, 1 + TerminatorLen(s, 1), s[2..])
  {
    if TerminatorLen(s, 1) == 2 { assert s[2..] == [LF] + s[3..]; }
  }

  lemma EmptyFrame(s: Bytes)
    ensures NonEmptyLines(SplitEol(s[..0])) == []
  {
    assert s[..0] == [];
    assert NonEmptyLines([[]]) == [];
  }

  lemma UnseenAfterCrs(after: bool, s: Bytes)
    requires |s| > 1 && s[0] == CR && s[1] == CR
    ensures Unseen(after, s) <==> Unseen(false, s[1..])
  {
    LineLenIs(s, 0);
  }

  lemma FirstPieceNonEmpty(u: Bytes)
    requires u != [] && !IsTerminator(u[0])
    ensures NonEmptyLines(SplitEol(u)) != []
  {
    var pieces := SplitEol(u);
    assert pieces[0] != [];
  }

  /** A lone CR that no terminator follows: the standard dispatches the block here, the loop never does. */
  lemma HiddenBlank(block: seq<Bytes>, after: bool, s: Bytes)
    requires Waits(block, after, s) && block != [] && LineLen(s) == 0 < |s| && (|s| > 1 ==> !IsTerminator(s[1]))
    ensures Agrees(block, after, s)
  {
    StdReadsBlank(block, s);
    match FirstDelim(s) {
      case None =>
      case Some(d) =>
        assert d.pos >= 2;
        var frame := s[..d.pos];
        assert frame[0] == CR && frame[1] == s[1];
        LinesAfterCr(frame);
        assert CutAt(block, s, d)[0] == block + NonEmptyLines(SplitEol(frame));
        assert StdFrom(block, s)[0] == block;
    }
  }

  lemma LinesAfterCr(frame: Bytes)
    requires |frame| >= 2 && frame[0] == CR && !IsTerminator(frame[1])
    ensures NonEmptyLines(SplitEol(frame)) != []
  {
    FirstPieceNonEmpty(frame[1..]);
    assert !(CRLF <= frame);
    NonEmptyFirst([], SplitEol(frame[1..]));
  }

  lemma {:induction false} AgreesIffSeen(block: seq<Bytes>, after: bool, s: Bytes)
    requires Waits(block, after, s)
    ensures Agrees(block, after, s)
    decreases |s|
  {
    if LineLen(s) == |s| {
      NoDelimiter(s);
    } else if LineLen(s) == 0 && block != [] {
      if |s| > 1 && IsTerminator(s[1]) {
        AgreesIffSeen([], false, s[2..]);
        TwoCrs(block, after, s);
      } else {
        HiddenBlank(block, after, s);
      }
    } else if NoneBefore(s, NextLine(s)) {
      LineJoins(block, after, s);
      AgreesIffSeen(block + OneLine(s[..LineLen(s)]), LineLen(s) > 0 && s[NextLine(s) - 1] == LF, s[NextLine(s)..]);
    } else {
      var d := FirstDelim(s).value;
      AgreesIffSeen([], false, After(s, d));
      BlankSeen(block, after, s, d);
    }
  }

  lemma NoDelimiter(s: Bytes)
    requires LineLen(s) == |s|
    ensures FirstDelim(s).None?
  {
    NoneInLine(s, 0);
    forall p | 0 <= p < |s|
      ensures DelimLen(s, p) == 0
    {
    }
  }

  // ----- The unseen blank lines by position ----------------------------------------------

  lemma NothingUnseenInFirst(s: Bytes, n: nat, next: nat, q: nat)
    requires FirstLineIs(s, n, next) && q < next
    ensures !UnseenAt(s, q)
  {
  }

  lemma UnseenAtNext(s: Bytes, n: nat, next: nat)
    requires FirstLineIs(s, n, next)
    ensures UnseenAt(s, next) <==> n > 0 && s[next - 1] == LF && LoneCr(s[next..])
  {
    if next + 1 < |s| { assert s[next..][1] == s[next + 1]; }
  }

  lemma UnseenAtLater(s: Bytes, n: nat, next: nat, q: nat)
    requires FirstLineIs(s, n, next) && q > next
    ensures UnseenAt(s, q) <==> UnseenAt(s[next..], q - next)
  {
  }

  lemma UnseenAnywhere(s: Bytes, n: nat, next: nat)
    requires FirstLineIs(s, n, next)
    ensures (exists q :: UnseenAt(s, q)) <==>
              (n > 0 && s[next - 1] == LF && LoneCr(s[next..])) || exists q :: UnseenAt(s[next..], q)
  {
    UnseenAtNext(s, n, next);
    if q: nat :| UnseenAt(s, q) {
      if q < next {
        NothingUnseenInFirst(s, n, next, q);
      } else if q > next {
        UnseenAtLater(s, n, next, q);
      }
    }
    if q: nat :| UnseenAt(s[next..], q) {
      UnseenAtLater(s, n, next, next + q);
    }
  }

  lemma {:induction false} UnseenIffAt(after: bool, s: Bytes)
    ensures Unseen(after, s) <==> (after && LoneCr(s)) || exists q :: UnseenAt(s, q)
    decreases |s|
  {
    if LineLen(s) == |s| {
      NoneInLine(s, 0);
    } else {
      UnseenIffAt(LineLen(s) > 0 && s[NextLine(s) - 1] == LF, s[NextLine(s)..]);
      FirstLineMeaning(s);
      UnseenAnywhere(s, LineLen(s), NextLine(s));
    }
  }

  /**
    * The frames of a text hold the same blocks of lines as the standard dispatches, in the same order,
    * if and only if no blank line goes unseen; one that does merges its block with the next or loses it.
    */
  lemma BlankLinesEndEventsIff(text: Bytes)
    ensures FrameBlocks(Frames(text)) == StandardBlocks(text) <==> !exists q :: UnseenAt(text, q)
  {
    AgreesIffSeen([], false, text);
    LoopIsFrames(text);
    StdIsStandard([], text);
    UnseenIffAt(false, text);
  }

  /** The bytes `61 0A 0D 62 0A 0A`: two blocks for the standard, one merged frame for the loop. */
  lemma UnseenBlankMergesBlocks()
    ensures var text: Bytes := [97, LF, CR, 98, LF, LF];
            Frames(text) == [text[..4]] && FrameBlocks(Frames(text)) == [[[97], [98]]]
            && StandardBlocks(text) == [[[97]], [[98]]] && UnseenAt(text, 2)
  {
    MergedFrame();
    MergedBlock();
    SeparateBlocks();
  }

  lemma MergedFrame()
    ensures Frames([97, LF, CR, 98, LF, LF]) == [[97, LF, CR, 98]]
  {
    var text: Bytes := [97, LF, CR, 98, LF, LF];
    FirstIsUnique(text, Delim(4, 2));
    assert After(text, Delim(4, 2)) == [];
    assert text[..4] == [97, LF, CR, 98];
  }

  /** The letter `a`, an LF, a CR and the letter `b`. */
  function Merged(rest: Bytes): Bytes {
    [97] + [LF] + ([CR] + ([98] + rest))
  }

  lemma SplitMerged(rest: Bytes)
    ensures SplitEol(Merged(rest)) == [[97]] + ([[]] + SplitEol([98] + rest))
  {
    SplitTerminator([CR], [98] + rest);
    SplitAfterLine([97], [LF], [CR] + ([98] + rest));
  }

  lemma MergedBlock()
    ensures FrameBlocks([[97, LF, CR, 98]]) == [[[97], [98]]]
  {
    SplitMerged([]);
    assert Merged([]) == [97, LF, CR, 98];
    NothingAfter([98 as byte]);
    SplitLine([98]);
    MergedLines();
    assert [[97]] + ([[]] + [[98]]) == [[97], [], [98]];
    var frames: seq<Bytes> := [[97, LF, CR, 98]];
    assert frames[1..] == [];
  }

  lemma SeparatePieces()
    ensures SplitEol([97, LF, CR, 98, LF, LF]) == [[97], []] + [[98], []] + [[]]
  {
    SplitMerged([LF, LF]);
    assert Merged([LF, LF]) == [97, LF, CR, 98, LF, LF];
    SplitAfterLine([98], [LF], [LF]);
    assert [98] + [LF, LF] == [98] + [LF] + [LF];
    SplitTerminator([LF], []);
    NothingAfter([LF]);
  }

  lemma SeparateBlocks()
    ensures StandardBlocks([97, LF, CR, 98, LF, LF]) == [[[97]], [[98]]]
  {
    SeparatePieces();
    var pieces := SplitEol([97, LF, CR, 98, LF, LF]);
    assert pieces[..4] == [[97], []] + [[98], []];
    DispatchLine([97], [[98], []]);
    DispatchLine([98], []);
    NothingAfter<Bytes>([[98], []]);
    assert [[[97]]] + ([[[98]]] + []) == [[[97]], [[98]]];
  }

  lemma DispatchLine(line: Bytes, lines: seq<Bytes>)
    requires line != []
    ensures Dispatched([], [line, []] + lines) == [[line]] + Dispatched([], lines)
  {
    var all := [line, []] + lines;
    assert all[1..][1..] == lines && all[1..][0] == [];
    assert [] + [line] == [line];
    assert Dispatched([line], all[1..]) == Emit([line]) + Dispatched([], all[1..][1..]);
  }

  lemma MergedLines()
    ensures NonEmptyLines([[97], [], [98]]) == [[97], [98]]
  {
    NonEmptyFirst([97], [[], [98]]);
    NonEmptyFirst([], [[98]]);
    NonEmptyFirst([98], []);
    assert [[97]] + [[], [98]] == [[97], [], [98]];
    assert [[]] + [[98]] == [[], [98]] && [[98]] + [] == [[98]];
  }

  // ----- In the stream -------------------------------------------------------------------

  /** The same for the frames the loop yields, on every stream without invalid runs and every chunking. */
  lemma StreamFollowsStandardIff(limit: nat, wire: SseStream.Wire)
    requires Clean(Received(wire)) && !CapHit(RunFrom(limit, SseStream.Live([], [], wire)))
    ensures var text := Salvage(Received(wire));
            FrameBlocks(RunFrom(limit, SseStream.Live([], [], wire)).frames) == StandardBlocks(text)
            <==> !exists q :: UnseenAt(text, q)
  {
    CleanStreamIsCut(limit, wire);
    BlankLinesEndEventsIff(Salvage(Received(wire)));
  }

  lemma {:induction false} EmptyLinesSayNothing(lines: seq<Bytes>, field: Bytes)
    requires field != []
    ensures Values(NonEmptyLines(lines), field) == Values(lines, field)
  {
    if lines == [] {
    } else {
      var first := [lines[0]];
      EmptyLinesSayNothing(lines[1..], field);
      assert first + lines[1..] == lines;
      ValuesAppend(first, lines[1..], field);
      ValuesAppend(OneLine(lines[0]), NonEmptyLines(lines[1..]), field);
      EmptyLineIsIgnored([], field);
    }
  }

  /** The block of a frame is all that its event depends on. */
  lemma EventOfBlock<S>(parse: StateParser<S>, frame: Bytes)
    ensures FrameOf(parse, frame) == FrameOfLines(parse, NonEmptyLines(SplitEol(frame)))
  {
    LineEndingsDoNotMatter(parse, frame);
    EmptyLinesSayNothing(SplitEol(frame), EVENT);
    EmptyLinesSayNothing(SplitEol(frame), DATA);
    EmptyLinesSayNothing(SplitEol(frame), ID);
  }
}
