/** Exactly when a cap ends the receive loop, and which frames have been yielded by then. */
module StreamCaps {
  import opened Common
  import opened Errors
  import opened Utf8
  import opened Delimiters
  import opened SseStream
  import opened StreamTheorems

  predicate WithinLimit(limit: nat, s: State) {
    |s.raw| <= limit && |s.buf| <= limit
  }

  /** `text`, the delimiter found after it and what is still buffered fit the limit together. */
  ghost predicate FitsTogether(limit: nat, text: Bytes, buffered: Bytes) {
    exists delim: Bytes :: FirstDelim(text + delim + buffered) == Some(Delim(|text|, |delim|))
                           && |text + delim + buffered| <= limit
  }

  lemma CutFits(limit: nat, buf: Bytes)
    requires FirstDelim(buf).Some? && |buf| <= limit
    ensures var d := FirstDelim(buf).value; FitsTogether(limit, buf[..d.pos], After(buf, d))
  {
    var d := FirstDelim(buf).value;
    ThreeParts(buf, d.pos, d.pos + d.len);
    assert |buf[d.pos..d.pos + d.len]| == d.len;
    assert FirstDelim(buf[..d.pos] + buf[d.pos..d.pos + d.len] + After(buf, d)) == Some(d);
  }

  /** Between polls neither buffer exceeds the limit, and a yielded frame fits it together with its delimiter. */
  lemma {:induction false} CapsHold(limit: nat, s: State)
    requires s.Live? && WithinLimit(limit, s)
    ensures var (poll, next) := PollSpec(limit, s);
            poll.Frame? ==> WithinLimit(limit, next) && FitsTogether(limit, poll.text, next.buf)
    decreases |s.wire|
  {
    if ChunkWaits(s) && WithinCaps(limit, s) {
      DecodeKeepsResidue(s.raw + s.wire[0].value);
      CapsHold(limit, Absorb(s));
    } else if FirstDelim(s.buf).Some? {
      CutFits(limit, s.buf);
    }
  }

  // ----- What is buffered before each read -----------------------------------------------

  /** The number of chunks before the connection ends or fails. */
  function ChunkCount(wire: Wire): (n: nat)
    ensures n <= |wire| && forall i :: 0 <= i < n ==> wire[i].Ok?
    ensures n < |wire| ==> wire[n].Err?
  {
    if wire == [] || wire[0].Err? then 0 else 1 + ChunkCount(wire[1..])
  }

  /** The bytes not yet decoded, and all text decoded so far. */
  datatype Reading = Reading(raw: Bytes, text: Bytes)

  /** After `k` reads, whatever the bytes. */
  function ReadingAfter(wire: Wire, k: nat): Reading
    requires k <= ChunkCount(wire)
  {
    if k == 0 then Reading([], [])
    else
      var before := ReadingAfter(wire, k - 1);
      var raw := before.raw + wire[k - 1].value;
      Reading(Kept(raw), before.text + Pushed(raw))
  }

  /** The next chunk fits beside the undecoded bytes, and its text beside the unfinished frame. */
  predicate ChunkFits(limit: nat, r: Reading, chunk: Bytes) {
    |r.raw + chunk| <= limit && |Tail(r.text) + Pushed(r.raw + chunk)| <= limit
  }

  predicate ReadFits(limit: nat, wire: Wire, k: nat)
    requires k < ChunkCount(wire)
  {
    ChunkFits(limit, ReadingAfter(wire, k), wire[k].value)
  }

  ghost predicate FitUpTo(limit: nat, wire: Wire, n: nat)
    requires n <= ChunkCount(wire)
  {
    forall k :: 0 <= k < n ==> ReadFits(limit, wire, k)
  }

  /** The loop before its `k`-th read: every finished frame has been yielded. */
  function StateAt(wire: Wire, k: nat): State
    requires k <= ChunkCount(wire)
  {
    Live(ReadingAfter(wire, k).raw, Tail(ReadingAfter(wire, k).text), wire[k..])
  }

  function Preceded(frames: seq<Bytes>, r: Run): Run {
    r.(frames := frames + r.frames)
  }

  lemma PrecededTwice(a: seq<Bytes>, b: seq<Bytes>, r: Run)
    ensures Preceded(a, Preceded(b, r)) == Preceded(a + b, r)
  {
    Associate(a, b, r.frames);
  }

  /** Finished frames in the buffer leave first. */
  lemma {:induction false} RunDrains(limit: nat, raw: Bytes, buf: Bytes, wire: Wire)
    ensures RunFrom(limit, Live(raw, buf, wire)) == Preceded(Frames(buf), RunFrom(limit, Live(raw, Tail(buf), wire)))
    decreases |buf|
  {
    match FirstDelim(buf) {
      case None =>
        PrecededByNothing(RunFrom(limit, Live(raw, buf, wire)));
      case Some(d) =>
        var rest := After(buf, d);
        RunDrains(limit, raw, rest, wire);
        PrecededTwice([buf[..d.pos]], Frames(rest), RunFrom(limit, Live(raw, Tail(buf), wire)));
    }
  }

  lemma PrecededByNothing(r: Run)
    ensures Preceded([], r) == r
  {
    assert [] + r.frames == r.frames;
  }

  /** A read that fits leads to the next state, yielding the frames it finishes. */
  lemma RunReads(limit: nat, wire: Wire, k: nat)
    requires k < ChunkCount(wire) && ReadFits(limit, wire, k)
    ensures RunFrom(limit, StateAt(wire, k))
         == Preceded(Frames(Tail(ReadingAfter(wire, k).text) + Pushed(ReadingAfter(wire, k).raw + wire[k].value)),
                     RunFrom(limit, StateAt(wire, k + 1)))
  {
    var s, r := StateAt(wire, k), ReadingAfter(wire, k);
    var pushed := Pushed(r.raw + wire[k].value);
    assert wire[k..][1..] == wire[k + 1..];
    assert Absorb(s) == Live(ReadingAfter(wire, k + 1).raw, Tail(r.text) + pushed, wire[k + 1..]);
    RunOfPoll(limit, s, Absorb(s));
    FramesAppend(r.text, pushed);
    RunDrains(limit, ReadingAfter(wire, k + 1).raw, Tail(r.text) + pushed, wire[k + 1..]);
  }

  /** As long as every read fits, the frames yielded are those of the text decoded so far. */
  lemma {:induction false} RunReaches(limit: nat, wire: Wire, k: nat)
    requires k <= ChunkCount(wire) && FitUpTo(limit, wire, k)
    ensures RunFrom(limit, Live([], [], wire))
         == Preceded(Frames(ReadingAfter(wire, k).text), RunFrom(limit, StateAt(wire, k)))
  {
    if k == 0 {
      assert wire[0..] == wire;
      PrecededByNothing(RunFrom(limit, Live([], [], wire)));
    } else {
      var r := ReadingAfter(wire, k - 1);
      var pushed := Pushed(r.raw + wire[k - 1].value);
      RunReaches(limit, wire, k - 1);
      RunReads(limit, wire, k - 1);
      FramesAppend(r.text, pushed);
      PrecededTwice(Frames(r.text), Frames(Tail(r.text) + pushed), RunFrom(limit, StateAt(wire, k)));
    }
  }

  // ----- When a cap is hit ---------------------------------------------------------------

  lemma MisfitEndsRun(limit: nat, wire: Wire, k: nat)
    requires k < ChunkCount(wire) && !ReadFits(limit, wire, k)
    ensures RunFrom(limit, StateAt(wire, k)).frames == []
    ensures RunFrom(limit, StateAt(wire, k)).ending == Fail(SseFrameTooLarge(limit))
  {
  }

  lemma NoChunkLeft(limit: nat, wire: Wire)
    ensures RunFrom(limit, StateAt(wire, ChunkCount(wire))).frames == []
    ensures RunFrom(limit, StateAt(wire, ChunkCount(wire))).ending == Closing(wire[ChunkCount(wire)..])
    ensures !CapHit(RunFrom(limit, StateAt(wire, ChunkCount(wire))))
  {
  }

  /** The first read that does not fit ends the stream, after the frames decoded before it. */
  lemma CapEndsStreamAt(limit: nat, wire: Wire, k: nat)
    requires k < ChunkCount(wire) && FitUpTo(limit, wire, k) && !ReadFits(limit, wire, k)
    ensures var r := RunFrom(limit, Live([], [], wire));
            r.frames == Frames(ReadingAfter(wire, k).text) && r.ending == Fail(SseFrameTooLarge(limit))
  {
    RunReaches(limit, wire, k);
    MisfitEndsRun(limit, wire, k);
  }

  /** The number of reads before the first that does not fit. */
  function FittingReads(limit: nat, wire: Wire): (k: nat)
    ensures k <= ChunkCount(wire)
  {
    FittingReadsFrom(limit, wire, 0)
  }

  function FittingReadsFrom(limit: nat, wire: Wire, from: nat): (k: nat)
    requires from <= ChunkCount(wire)
    ensures k <= ChunkCount(wire)
    decreases ChunkCount(wire) - from
  {
    if from == ChunkCount(wire) || !ReadFits(limit, wire, from) then from
    else FittingReadsFrom(limit, wire, from + 1)
  }

  lemma {:induction false} FittingReadsMeaning(limit: nat, wire: Wire, from: nat)
    requires from <= ChunkCount(wire) && FitUpTo(limit, wire, from)
    ensures var k := FittingReadsFrom(limit, wire, from);
            FitUpTo(limit, wire, k) && (k < ChunkCount(wire) ==> !ReadFits(limit, wire, k))
    decreases ChunkCount(wire) - from
  {
    if from == ChunkCount(wire) || !ReadFits(limit, wire, from) {
    } else {
      FittingReadsMeaning(limit, wire, from + 1);
    }
  }

  /** The decoded text that leaves the loop or stays in its buffer. */
  function TextRead(limit: nat, wire: Wire): Bytes {
    ReadingAfter(wire, FittingReads(limit, wire)).text
  }

  /**
    * For every stream, well-formed or not, and every chunking: the loop yields the frames of what the
    * fitting reads decode, and then ends as the connection does or, if a read does not fit, with the cap error.
    */
  lemma RunOfReads(limit: nat, wire: Wire)
    ensures var r, k := RunFrom(limit, Live([], [], wire)), FittingReads(limit, wire);
            r.frames == Frames(TextRead(limit, wire))
            && r.ending == if k < ChunkCount(wire) then Fail(SseFrameTooLarge(limit)) else Closing(wire)
  {
    var k := FittingReads(limit, wire);
    FittingReadsMeaning(limit, wire, 0);
    if k < ChunkCount(wire) {
      CapEndsStreamAt(limit, wire, k);
    } else {
      RunReaches(limit, wire, k);
      NoChunkLeft(limit, wire);
      RunEndsAsConnection(limit, Live([], [], wire));
    }
  }

  /** A cap ends the stream if and only if some chunk does not fit beside what the reads before it left unfinished. */
  lemma NoCapIff(limit: nat, wire: Wire)
    ensures !CapHit(RunFrom(limit, Live([], [], wire))) <==> FitUpTo(limit, wire, ChunkCount(wire))
  {
    CapHitIffReadMisfits(limit, wire);
    FittingReadsMeaning(limit, wire, 0);
  }

  lemma CapHitIffReadMisfits(limit: nat, wire: Wire)
    ensures CapHit(RunFrom(limit, Live([], [], wire))) <==> FittingReads(limit, wire) < ChunkCount(wire)
  {
    RunOfReads(limit, wire);
    ClosingIsNoCap(wire);
  }

  lemma UncappedReadsAll(limit: nat, wire: Wire)
    requires !CapHit(RunFrom(limit, Live([], [], wire)))
    ensures RunFrom(limit, Live([], [], wire)).frames == Frames(ReadingAfter(wire, ChunkCount(wire)).text)
  {
    RunOfReads(limit, wire);
    CapHitIffReadMisfits(limit, wire);
    assert FittingReads(limit, wire) == ChunkCount(wire);
  }

  lemma {:induction false} ClosingIsNoCap(wire: Wire)
    ensures Closing(wire).Fail? ==> !Closing(wire).error.SseFrameTooLarge?
  {
    if wire == [] || wire[0].Err? {
    } else {
      ClosingIsNoCap(wire[1..]);
    }
  }

  // ----- Streams without invalid runs ----------------------------------------------------

  lemma {:induction false} ReceivedAppend(a: Wire, b: Wire)
    requires forall i :: 0 <= i < |a| ==> a[i].Ok?
    ensures Received(a + b) == Received(a) + Received(b)
  {
    if a == [] {
      assert a + b == b;
    } else {
      ReceivedAppend(a[1..], b);
      assert (a + b)[1..] == a[1..] + b;
      Associate(a[0].value, Received(a[1..]), Received(b));
    }
  }

  lemma ReceivedSplit(wire: Wire, k: nat)
    requires k <= ChunkCount(wire)
    ensures Received(wire) == Received(wire[..k]) + Received(wire[k..])
  {
    ReceivedAppend(wire[..k], wire[k..]);
    assert wire[..k] + wire[k..] == wire;
  }

  lemma ReceivedSoFar(wire: Wire, k: nat)
    requires k < ChunkCount(wire)
    ensures Received(wire[..k + 1]) == Received(wire[..k]) + wire[k].value
  {
    var one := [wire[k]];
    ReceivedAppend(wire[..k], one);
    assert wire[..k] + one == wire[..k + 1];
    assert one[1..] == [] && Received(one) == one[0].value + Received(one[1..]);
  }

  /** On clean streams the chunking leaves no trace: what was read determines what is buffered. */
  lemma {:induction false} CleanReading(wire: Wire, k: nat)
    requires k <= ChunkCount(wire) && Clean(Received(wire))
    ensures var seen := Received(wire[..k]);
            Clean(seen) && ReadingAfter(wire, k) == Reading(Kept(seen), Pushed(seen))
  {
    CleanSoFar(wire, k);
    if k == 0 {
      assert wire[..0] == [];
    } else {
      CleanReading(wire, k - 1);
      ReceivedSoFar(wire, k - 1);
      CleanReadingStep(wire, k - 1, Received(wire[..k - 1]));
    }
  }

  lemma CleanReadingStep(wire: Wire, k: nat, seen: Bytes)
    requires k < ChunkCount(wire) && ReadingAfter(wire, k) == Reading(Kept(seen), Pushed(seen))
    requires Clean(seen) && Clean(seen + wire[k].value)
    ensures ReadingAfter(wire, k + 1) == Reading(Kept(seen + wire[k].value), Pushed(seen + wire[k].value))
  {
    CleanDecodeStep(seen, wire[k].value);
  }

  lemma CleanSoFar(wire: Wire, k: nat)
    requires k <= ChunkCount(wire) && Clean(Received(wire))
    ensures Clean(Received(wire[..k]))
  {
    ReceivedSplit(wire, k);
    CleanPrefix(Received(wire[..k]), Received(wire[k..]));
  }

  lemma CleanDecodeStep(seen: Bytes, chunk: Bytes)
    requires Clean(seen) && Clean(seen + chunk)
    ensures Pushed(seen) + Pushed(Kept(seen) + chunk) == Pushed(seen + chunk)
    ensures Kept(Kept(seen) + chunk) == Kept(seen + chunk)
  {
    PushedInTwoSteps(seen, chunk);
    DecodeKeepsResidue(seen);
    VerdictMeaning(seen);
    Associate(Pushed(seen), Kept(seen), chunk);
    CleanSuffix(Pushed(seen), Kept(seen) + chunk);
    SameRemainder(Pushed(seen), Kept(seen) + chunk);
  }

  lemma SameRemainder(a: Bytes, t: Bytes)
    requires Clean(t) && Clean(a + t) && ValidLength(a + t) == |a| + ValidLength(t)
    ensures Kept(a + t) == Kept(t)
  {
    CleanKept(t);
    CleanKept(a + t);
    DropAppend(a, t, |a|);
    DropDrop(a + t, |a|, ValidLength(t));
    assert a[|a|..] + t == t;
  }

  lemma CleanKept(s: Bytes)
    requires Clean(s)
    ensures Kept(s) == s[ValidLength(s)..]
  {
  }

  /** The same in terms of the bytes `seen` before the read. */
  predicate ChunkFitsAfter(limit: nat, seen: Bytes, chunk: Bytes) {
    |Kept(seen)| + |chunk| <= limit && |Tail(Pushed(seen))| + |Pushed(Kept(seen) + chunk)| <= limit
  }

  lemma CleanReadFits(limit: nat, wire: Wire, k: nat)
    requires k < ChunkCount(wire) && Clean(Received(wire))
    ensures ReadFits(limit, wire, k) <==> ChunkFitsAfter(limit, Received(wire[..k]), wire[k].value)
  {
    CleanReading(wire, k);
  }

  /** For streams without invalid runs, the condition on the bytes themselves. */
  lemma NoCapOnCleanIff(limit: nat, wire: Wire)
    requires Clean(Received(wire))
    ensures !CapHit(RunFrom(limit, Live([], [], wire))) <==>
            forall k :: 0 <= k < ChunkCount(wire) ==> ChunkFitsAfter(limit, Received(wire[..k]), wire[k].value)
  {
    NoCapIff(limit, wire);
    forall k | 0 <= k < ChunkCount(wire)
      ensures ReadFits(limit, wire, k) <==> ChunkFitsAfter(limit, Received(wire[..k]), wire[k].value)
    {
      CleanReadFits(limit, wire, k);
    }
  }

  // ----- From sizes alone ----------------------------------------------------------------

  /** Every frame, with its delimiter, and the unterminated tail fit in `f` bytes. */
  predicate PiecesFit(text: Bytes, f: nat)
    decreases |text|
  {
    match FirstDelim(text) {
      case None => |text| <= f
      case Some(d) => d.pos + d.len <= f && PiecesFit(After(text, d), f)
    }
  }

  predicate ChunksFit(wire: Wire, c: nat) {
    forall i :: 0 <= i < |wire| && wire[i].Ok? ==> |wire[i].value| <= c
  }

  lemma {:induction false} PiecesOfTail(a: Bytes, t: Bytes, f: nat)
    requires PiecesFit(a + t, f)
    ensures PiecesFit(Tail(a) + t, f)
    decreases |a|
  {
    match FirstDelim(a) {
      case None =>
      case Some(d) =>
        FramesPop(a, t);
        PiecesOfTail(After(a, d), t, f);
    }
  }

  lemma UnfinishedCharacterHidesNothing(buf: Bytes, raw: Bytes)
    requires FirstDelim(buf).None? && Residue(raw)
    ensures FirstDelim(buf + raw).None?
  {
    if FirstDelim(buf + raw).Some? {
      DelimLenAppend(buf, raw, FirstDelim(buf + raw).value.pos);
    }
  }

  /** What is buffered is a proper part of a single piece as long as more bytes follow. */
  lemma BufferedFits(buf: Bytes, raw: Bytes, future: Bytes, f: nat)
    requires FirstDelim(buf).None? && Residue(raw) && PiecesFit(buf + raw + future, f)
    ensures |buf + raw| <= f && (future != [] ==> |buf + raw| < f)
  {
    UnfinishedCharacterHidesNothing(buf, raw);
    if FirstDelim(buf + raw + future).Some? {
      FirstDelimNew(buf + raw, future);
    }
  }

  lemma SizesFit(limit: nat, seen: Bytes, chunk: Bytes, future: Bytes, f: nat, c: nat)
    requires Clean(seen) && PiecesFit(seen + (chunk + future), f) && |chunk| <= c
    requires f + c <= limit + 1 && f <= limit
    ensures ChunkFitsAfter(limit, seen, chunk)
  {
    DecodeKeepsResidue(seen);
    Associate(Pushed(seen), Kept(seen), chunk + future);
    PiecesOfTail(Pushed(seen), Kept(seen) + (chunk + future), f);
    Associate(Tail(Pushed(seen)), Kept(seen), chunk + future);
    BufferedFits(Tail(Pushed(seen)), Kept(seen), chunk + future, f);
    DecodeKeepsResidue(Kept(seen) + chunk);
  }

  /** No cap is hit when the largest piece and the largest chunk overlap the limit by at most one byte. */
  lemma NoFalseCap(limit: nat, wire: Wire, f: nat, c: nat)
    requires Clean(Received(wire)) && PiecesFit(Received(wire), f) && ChunksFit(wire, c)
    requires f + c <= limit + 1 && f <= limit
    ensures !CapHit(RunFrom(limit, Live([], [], wire)))
  {
    NoCapOnCleanIff(limit, wire);
    forall k | 0 <= k < ChunkCount(wire)
      ensures ChunkFitsAfter(limit, Received(wire[..k]), wire[k].value)
    {
      CleanReading(wire, k);
      ReceivedSplit(wire, k);
      SizesFit(limit, Received(wire[..k]), wire[k].value, Received(wire[k..][1..]), f, c);
    }
  }

  // The bound is exact: a piece of `f` bytes whose last byte arrives with `c - 1` further ones.

  function LineFeeds(n: nat): Bytes {
    seq(n, i => LF)
  }

  /** `n` letters and an LF. */
  function LetterLine(n: nat): Bytes {
    seq(n, i => 97) + [LF]
  }

  lemma {:induction false} LineFeedsFit(n: nat, f: nat)
    requires f >= 2
    ensures PiecesFit(LineFeeds(n), f)
  {
    if n < 2 {
      assert FirstDelim(LineFeeds(n)).None?;
    } else {
      FirstIsUnique(LineFeeds(n), Delim(0, 2));
      assert After(LineFeeds(n), Delim(0, 2)) == LineFeeds(n - 2);
      LineFeedsFit(n - 2, f);
    }
  }

  lemma LetterLineFits(n: nat, c: nat)
    requires c >= 1
    ensures FirstDelim(LetterLine(n)).None? && PiecesFit(LetterLine(n) + LineFeeds(c), n + 2)
  {
    var text := LetterLine(n) + LineFeeds(c);
    forall p | 0 <= p < n
      ensures DelimLen(text, p) == 0 && DelimLen(LetterLine(n), p) == 0
    {
      assert text[p] == 97 && LetterLine(n)[p] == 97;
    }
    FirstIsUnique(text, Delim(n, 2));
    assert After(text, Delim(n, 2)) == LineFeeds(c - 1);
    LineFeedsFit(c - 1, n + 2);
  }

  function OneByOne(s: Bytes): seq<Bytes> {
    seq(|s|, i requires 0 <= i < |s| => [s[i]])
  }

  lemma {:induction false} FlattenOneByOne(s: Bytes)
    ensures Flatten(OneByOne(s)) == s
  {
    if s == [] {
      assert OneByOne(s) == [];
    } else {
      assert OneByOne(s)[1..] == OneByOne(s[1..]);
      FlattenOneByOne(s[1..]);
      assert s == [s[0]] + s[1..];
    }
  }

  /** The line byte by byte, then the newlines at once. */
  function TightWire(n: nat, c: nat): Wire {
    Chunks(OneByOne(LetterLine(n)) + [LineFeeds(c)])
  }

  lemma TightWireMeaning(n: nat, c: nat)
    ensures Received(TightWire(n, c)) == LetterLine(n) + LineFeeds(c)
    ensures n + 1 < ChunkCount(TightWire(n, c))
    ensures Received(TightWire(n, c)[..n + 1]) == LetterLine(n) && TightWire(n, c)[n + 1].value == LineFeeds(c)
  {
    var ones, last := OneByOne(LetterLine(n)), [LineFeeds(c)];
    ReceivedChunks(ones + last);
    FlattenAppend(ones, last);
    FlattenOneByOne(LetterLine(n));
    assert last[1..] == [] && Flatten(last) == last[0] + Flatten(last[1..]);
    ReceivedChunks(ones);
    assert TightWire(n, c)[..n + 1] == Chunks(ones);
  }

  lemma TightWireFits(n: nat, c: nat)
    requires c >= 1
    ensures Clean(Received(TightWire(n, c))) && PiecesFit(Received(TightWire(n, c)), n + 2)
    ensures ChunksFit(TightWire(n, c), c)
  {
    TightWireMeaning(n, c);
    AsciiWellFormed(LetterLine(n) + LineFeeds(c));
    LetterLineFits(n, c);
    TightChunksFit(n, c);
  }

  lemma TightChunksFit(n: nat, c: nat)
    requires c >= 1
    ensures ChunksFit(TightWire(n, c), c)
  {
    var parts := OneByOne(LetterLine(n)) + [LineFeeds(c)];
    forall i | 0 <= i < |parts|
      ensures |parts[i]| <= c
    {
    }
  }

  lemma LastChunkTooLarge(limit: nat, n: nat, c: nat)
    requires c >= 1 && n + 1 + c > limit
    ensures !ChunkFitsAfter(limit, LetterLine(n), LineFeeds(c))
  {
    AsciiWellFormed(LetterLine(n));
    AsciiWellFormed(LineFeeds(c));
    LetterLineFits(n, c);
    NothingBefore(LineFeeds(c));
  }

  lemma TightWireHitsCap(limit: nat, n: nat, c: nat)
    requires c >= 1 && n + 1 + c > limit
    ensures CapHit(RunFrom(limit, Live([], [], TightWire(n, c))))
  {
    TightWireFits(n, c);
    TightWireMeaning(n, c);
    LastChunkTooLarge(limit, n, c);
    NoCapOnCleanIff(limit, TightWire(n, c));
  }

  /** Pieces of at most `f` bytes in chunks of at most `c` never hit the cap. */
  ghost predicate SizesAreEnough(limit: nat, f: nat, c: nat) {
    forall wire :: Clean(Received(wire)) && PiecesFit(Received(wire), f) && ChunksFit(wire, c) ==>
                     !CapHit(RunFrom(limit, Live([], [], wire)))
  }

  /** Sizes alone rule the cap out exactly when a whole piece and a whole chunk overlap by a byte within the limit. */
  lemma SizesAreEnoughIff(limit: nat, f: nat, c: nat)
    requires f >= 2 && c >= 1
    ensures SizesAreEnough(limit, f, c) <==> f + c <= limit + 1
  {
    if f + c <= limit + 1 {
      forall wire | Clean(Received(wire)) && PiecesFit(Received(wire), f) && ChunksFit(wire, c)
        ensures !CapHit(RunFrom(limit, Live([], [], wire)))
      {
        NoFalseCap(limit, wire, f, c);
      }
    } else {
      TightWireFits(f - 2, c);
      TightWireHitsCap(limit, f - 2, c);
    }
  }

  /**
    * Two frames of three bytes each, arriving in one chunk, exceed a limit of four: the cap is per read,
    * not per frame.
    */
  lemma SmallFramesCanHitCap()
    ensures var stream: Bytes := [97, LF, LF, 98, LF, LF];
            PiecesFit(stream, 3) && RunFrom(4, Live([], [], Chunks([stream]))).ending == Fail(SseFrameTooLarge(4))
  {
    var stream: Bytes := [97, LF, LF, 98, LF, LF];
    FirstIsUnique(stream, Delim(1, 2));
    var rest := After(stream, Delim(1, 2));
    assert rest == [98, LF, LF];
    FirstIsUnique(rest, Delim(1, 2));
    assert After(rest, Delim(1, 2)) == [];
    var s := Live([], [], Chunks([stream]));
    assert s.raw + s.wire[0].value == stream;
  }
}
