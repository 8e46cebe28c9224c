/** Newline normalisation of a frame, and Rust's `str::replace` and `str::lines`. */
module Newlines {
  import opened Common
  import opened Delimiters

  /** `str::replace`: non-overlapping matches, left to right. */
  function Replace(s: Bytes, pat: Bytes, with: Bytes): Bytes
    requires pat != []
  {
    if s == [] then []
    else if pat <= s then with + Replace(s[|pat|..], pat, with)
    else [s[0]] + Replace(s[1..], pat, with)
  }

  /** The loop's normalisation: `\r\n` first, then every remaining `\r`; text without `\r` is kept as it is. */
  function Normalize(frame: Bytes): Bytes {
    if CR in frame then Replace(Replace(frame, CRLF, [LF]), [CR], [LF]) else frame
  }

  // ----- Splitting -----------------------------------------------------------------------

  /** The pieces of `s` around each LF. */
  function SplitLf(s: Bytes): (r: seq<Bytes>)
    ensures r != []
  {
    if s == [] then [[]]
    else if s[0] == LF then [[]] + SplitLf(s[1..])
    else Extend(s[0], SplitLf(s[1..]))
  }

  /** The pieces of `s` around each line terminator, the longest first: CRLF, LF or CR. */
  function SplitEol(s: Bytes): (r: seq<Bytes>)
    ensures r != []
  {
    if s == [] then [[]]
    else if CRLF <= s then [[]] + SplitEol(s[2..])
    else if s[0] == LF || s[0] == CR then [[]] + SplitEol(s[1..])
    else Extend(s[0], SplitEol(s[1..]))
  }

  function Extend(b: byte, pieces: seq<Bytes>): (r: seq<Bytes>)
    requires pieces != []
    ensures r != []
  {
    [[b] + pieces[0]] + pieces[1..]
  }

  lemma SplitLetter(b: byte, s: Bytes)
    requires !IsTerminator(b)
    ensures SplitEol([b] + s) == Extend(b, SplitEol(s))
  {
    assert ([b] + s)[0] == b && ([b] + s)[1..] == s;
  }

  /** The bytes of a line terminator, before text that does not extend it. */
  ghost predicate IsEol(eol: Bytes, rest: Bytes) {
    eol == [LF] || eol == CRLF || (eol == [CR] && (rest != [] ==> rest[0] != LF))
  }

  lemma SplitTerminator(eol: Bytes, rest: Bytes)
    requires IsEol(eol, rest)
    ensures SplitEol(eol + rest) == [[]] + SplitEol(rest)
  {
    var s := eol + rest;
    assert s[0] == eol[0] && s[|eol|..] == rest;
    if eol == CRLF {
      assert s[..2] == CRLF;
    } else {
      assert |s| > 1 ==> s[1] == rest[0];
      assert !(CRLF <= s);
    }
  }

  lemma {:induction false} SplitLine(line: Bytes)
    requires forall i :: 0 <= i < |line| ==> !IsTerminator(line[i])
    ensures SplitEol(line) == [line]
  {
    if line == [] {
    } else {
      SplitLine(line[1..]);
      SplitLetter(line[0], line[1..]);
      assert [line[0]] + line[1..] == line;
    }
  }

  /** The first line of a text is its first piece. */
  lemma {:induction false} SplitAfterLine(line: Bytes, eol: Bytes, rest: Bytes)
    requires (forall i :: 0 <= i < |line| ==> !IsTerminator(line[i])) && IsEol(eol, rest)
    ensures SplitEol(line + eol + rest) == [line] + SplitEol(rest)
  {
    if line == [] {
      SplitTerminator(eol, rest);
      NothingBefore(eol);
    } else {
      SplitAfterLine(line[1..], eol, rest);
      SplitLetter(line[0], line[1..] + eol + rest);
      FirstApart(line, eol, rest);
      ExtendFirst(line, SplitEol(rest));
    }
  }

  lemma FirstApart(line: Bytes, eol: Bytes, rest: Bytes)
    requires line != []
    ensures line + eol + rest == [line[0]] + (line[1..] + eol + rest)
  {
  }

  lemma ExtendFirst(line: Bytes, pieces: seq<Bytes>)
    requires line != []
    ensures Extend(line[0], [line[1..]] + pieces) == [line] + pieces
  {
    assert [line[0]] + line[1..] == line;
    assert ([line[1..]] + pieces)[1..] == pieces;
  }

  function StripCr(line: Bytes): Bytes {
    if line != [] && line[|line| - 1] == CR then line[..|line| - 1] else line
  }

  /** `str::lines`: LF-terminated pieces lose one trailing CR; an empty last piece is not a line. */
  function Lines(s: Bytes): seq<Bytes> {
    PiecesToLines(SplitLf(s))
  }

  function PiecesToLines(pieces: seq<Bytes>): seq<Bytes>
    requires pieces != []
  {
    var terminated := seq(|pieces| - 1, i requires 0 <= i < |pieces| - 1 => StripCr(pieces[i]));
    var last := pieces[|pieces| - 1];
    if last == [] then terminated else terminated + [last]
  }

  // ----- Normalisation is faithful -------------------------------------------------------

  /** Every line terminator becomes one LF. */
  function OneLf(s: Bytes): Bytes {
    if s == [] then []
    else if CRLF <= s then [LF] + OneLf(s[2..])
    else if s[0] == LF || s[0] == CR then [LF] + OneLf(s[1..])
    else [s[0]] + OneLf(s[1..])
  }

  lemma {:induction false} NormalizeIsOneLf(s: Bytes)
    ensures Normalize(s) == OneLf(s)
  {
    if CR in s { TwoReplaces(s); } else { OneLfIdentity(s); }
  }

  lemma {:induction false} TwoReplaces(s: Bytes)
    ensures Replace(Replace(s, CRLF, [LF]), [CR], [LF]) == OneLf(s)
  {
    if s == [] {
    } else {
      var rest := if CRLF <= s then s[2..] else s[1..];
      var head := if CRLF <= s then LF else s[0];
      TwoReplaces(rest);
      var first := Replace(rest, CRLF, [LF]);
      assert Replace(s, CRLF, [LF]) == [head] + first;
      assert ([head] + first)[1..] == first;
      PrefixOfOne(CR, head, first);
    }
  }

  lemma PrefixOfOne(x: byte, head: byte, rest: Bytes)
    ensures [x] <= [head] + rest <==> x == head
  {
    assert ([head] + rest)[0] == head;
    if x == head { assert ([head] + rest)[..1] == [x]; }
  }

  lemma {:induction false} OneLfIdentity(s: Bytes)
    requires CR !in s
    ensures OneLf(s) == s
  {
    if s == [] {
    } else {
      assert s[0] in s;
      assert s == [s[0]] + s[1..];
      OneLfIdentity(s[1..]);
    }
  }

  lemma {:induction false} SplitOneLf(s: Bytes)
    ensures CR !in OneLf(s) && SplitLf(OneLf(s)) == SplitEol(s)
  {
    if s == [] {
    } else {
      var rest := if CRLF <= s then s[2..] else s[1..];
      SplitOneLf(rest);
      var n := OneLf(s);
      assert n[1..] == OneLf(rest);
      assert forall b :: b in n ==> b == n[0] || b in OneLf(rest);
    }
  }

  /**
    * The normalised frame holds no CR, and its LF-separated pieces are exactly the lines of the
    * original under any mixture of CRLF, LF and CR.
    */
  lemma NormalizeIsFaithful(frame: Bytes)
    ensures CR !in Normalize(frame)
    ensures SplitLf(Normalize(frame)) == SplitEol(frame)
    ensures |Normalize(frame)| <= |frame|
  {
    NormalizeIsOneLf(frame);
    SplitOneLf(frame);
    OneLfShrinks(frame);
  }

  lemma OneLfShrinks(s: Bytes)
    ensures |OneLf(s)| <= |s|
  {
  }

  lemma NothingToStrip(line: Bytes)
    requires CR !in line
    ensures StripCr(line) == line
  {
  }

  /** On CR-free text, `lines()` drops nothing but an empty last piece. */
  lemma LinesWithoutCr(s: Bytes)
    requires CR !in s
    ensures Lines(s) == SplitLf(s) || Lines(s) + [[]] == SplitLf(s)
  {
    var pieces := SplitLf(s);
    PiecesWithoutCr(s);
    forall i | 0 <= i < |pieces|
      ensures StripCr(pieces[i]) == pieces[i]
    {
      NothingToStrip(pieces[i]);
    }
    LinesOfPieces(pieces);
  }

  lemma LinesOfPieces(pieces: seq<Bytes>)
    requires pieces != [] && forall i :: 0 <= i < |pieces| ==> StripCr(pieces[i]) == pieces[i]
    ensures var last := pieces[|pieces| - 1];
            PiecesToLines(pieces) + (if last == [] then [[]] else []) == pieces
  {
  }

  lemma {:induction false} PiecesWithoutCr(s: Bytes)
    requires CR !in s
    ensures forall i :: 0 <= i < |SplitLf(s)| ==> CR !in SplitLf(s)[i]
  {
    if s == [] {
    } else {
      assert s[0] in s;
      assert forall b :: b in s[1..] ==> b in s;
      PiecesWithoutCr(s[1..]);
    }
  }
}
