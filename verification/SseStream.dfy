/** The receive loop of `subscribe_events`: bytes arrive in arbitrary chunks, one frame leaves per poll. */
module SseStream {
  import opened Common
  import opened Errors
  import opened Utf8
  import opened Delimiters
  import opened Newlines
  import opened Sse

  /** What the HTTP response body delivers, in order; it ends after the last item. */
  type Wire = seq<Result<Bytes, HttpError>>

  // ----- Specification of one poll -------------------------------------------------------

  /** The unfold state; after an error or the end it is dropped, with whatever its buffers held. */
  datatype State = Live(raw: Bytes, buf: Bytes, wire: Wire) | Dropped(raw: Bytes, buf: Bytes)

  datatype Poll = Frame(text: Bytes) | Fail(error: ClientError) | End

  predicate ChunkWaits(s: State) {
    s.Live? && FirstDelim(s.buf).None? && s.wire != [] && s.wire[0].Ok?
  }

  /** The state after decoding the next chunk. */
  function Absorb(s: State): State
    requires s.Live? && s.wire != [] && s.wire[0].Ok?
  {
    var raw := s.raw + s.wire[0].value;
    Live(Kept(raw), s.buf + Pushed(raw), s.wire[1..])
  }

  /** Neither buffer outgrows its cap on the next chunk. */
  predicate WithinCaps(limit: nat, s: State)
    requires s.Live? && s.wire != [] && s.wire[0].Ok?
  {
    |s.raw + s.wire[0].value| <= limit && |Absorb(s).buf| <= limit
  }

  /** One poll, searching the whole of `buf` every time. */
  function PollSpec(limit: nat, s: State): (r: (Poll, State))
    ensures r.0.Frame? ==> s.Live? && r.1.Live?
                           && (|r.1.wire| < |s.wire| || (r.1.wire == s.wire && |r.1.buf| < |s.buf|))
    ensures !r.0.Frame? ==> r.1.Dropped?
    decreases if s.Live? then |s.wire| else 0
  {
    if s.Dropped? then (End, s)
    else match FirstDelim(s.buf) {
      case Some(d) => (Frame(s.buf[..d.pos]), s.(buf := After(s.buf, d)))
      case None =>
        if s.wire == [] then (End, Dropped(s.raw, s.buf))
        else match s.wire[0] {
          case Err(e) => (Fail(Http(e)), Dropped(s.raw, s.buf))
          case Ok(chunk) =>
            if |s.raw + chunk| > limit then (Fail(SseFrameTooLarge(limit)), Dropped(s.raw + chunk, s.buf))
            else
              var next := Absorb(s);
              if |next.buf| > limit then (Fail(SseFrameTooLarge(limit)), Dropped(next.raw, next.buf))
              else PollSpec(limit, next)
        }
    }
  }

  /** The stream item a poll result becomes: the frame is normalised and parsed. */
  function Deliver<S>(parse: StateParser<S>, poll: Poll): Option<Result<SseFrame<S>, ClientError>> {
    match poll {
      case Frame(text) => Some(Ok(FrameOfLines(parse, Lines(Normalize(text)))))
      case Fail(e) => Some(Err(e))
      case End => None
    }
  }

  // ----- The four searches ---------------------------------------------------------------

  /** The delimiter found at each position is determined by that position alone. */
  lemma OnePatternPerPosition(b: Bytes, p: nat)
    ensures OccursAt(b, CRLF_CRLF, p) <==> DelimLen(b, p) == 4
    ensures OccursAt(b, LF_CRLF, p) <==> DelimLen(b, p) == 3
    ensures OccursAt(b, LF_LF, p) || OccursAt(b, CR_CR, p) <==> DelimLen(b, p) == 2
    ensures !(OccursAt(b, LF_LF, p) && OccursAt(b, CR_CR, p))
  {
    if p + 4 <= |b| { assert b[p..p + 4] == [b[p], b[p + 1], b[p + 2], b[p + 3]]; }
    if p + 3 <= |b| { assert b[p..p + 3] == [b[p], b[p + 1], b[p + 2]]; }
    if p + 2 <= |b| { assert b[p..p + 2] == [b[p], b[p + 1]]; }
  }

  function Located(found: Option<nat>, scanFrom: nat, len: nat): Option<Delim> {
    match found {
      case None => None
      case Some(p) => Some(Delim(scanFrom + p, len))
    }
  }

  /** `min_by_key` on the position: the first of equal minima. */
  function Earlier(a: Option<Delim>, b: Option<Delim>): Option<Delim> {
    if a.None? then b else if b.None? then a else if b.value.pos < a.value.pos then b else a
  }

  /** Searching only from `scanFrom` finds what searching the whole buffer would. */
  method FrameEnd(buf: Bytes, scanFrom: nat) returns (frameEnd: Option<Delim>)
    requires scanFrom <= |buf| && IsCharBoundary(buf, scanFrom) && NoneBefore(buf, scanFrom)
    ensures frameEnd == FirstDelim(buf)
  {
    var rest := StrFrom(buf, scanFrom);
    var c0 := Located(Find(rest, CRLF_CRLF), scanFrom, 4);
    var c1 := Located(Find(rest, LF_LF), scanFrom, 2);
    var c2 := Located(Find(rest, CR_CR), scanFrom, 2);
    var c3 := Located(Find(rest, LF_CRLF), scanFrom, 3);
    frameEnd := Earlier(Earlier(Earlier(c0, c1), c2), c3);
    SearchIsExact(buf, scanFrom);
  }

  lemma SearchIsExact(buf: Bytes, scanFrom: nat)
    requires scanFrom <= |buf| && NoneBefore(buf, scanFrom)
    ensures FourSearches(buf[scanFrom..], scanFrom) == FirstDelim(buf)
  {
    assert buf == buf[..scanFrom] + buf[scanFrom..];
    FirstDelimShift(buf[..scanFrom], buf[scanFrom..]);
    EarliestOfFour(buf[scanFrom..]);
    EarlierShift(buf[scanFrom..], scanFrom);
  }

  function FourSearches(b: Bytes, at: nat): Option<Delim> {
    Earlier(Earlier(Earlier(Located(Find(b, CRLF_CRLF), at, 4), Located(Find(b, LF_LF), at, 2)),
                    Located(Find(b, CR_CR), at, 2)), Located(Find(b, LF_CRLF), at, 3))
  }

  lemma EarlierShift(b: Bytes, at: nat)
    ensures FourSearches(b, at) == match FourSearches(b, 0) {
                                     case None => None
                                     case Some(d) => Some(Delim(at + d.pos, d.len))
                                   }
  {
  }

  lemma EarliestOfFour(b: Bytes)
    ensures FourSearches(b, 0) == FirstDelim(b)
  {
    forall p: nat
      ensures DelimLen(b, p) != 0 <==>
              OccursAt(b, CRLF_CRLF, p) || OccursAt(b, LF_LF, p) || OccursAt(b, CR_CR, p) || OccursAt(b, LF_CRLF, p)
    {
      OnePatternPerPosition(b, p);
    }
    match FourSearches(b, 0) {
      case None =>
      case Some(d) =>
        OnePatternPerPosition(b, d.pos);
        forall p | 0 <= p < d.pos
          ensures DelimLen(b, p) == 0
        {
          OnePatternPerPosition(b, p);
        }
        FirstIsUnique(b, d);
    }
  }

  /** `saturating_sub(3)`. */
  function ThreeBack(n: nat): nat {
    if n < 3 then 0 else n - 3
  }

  // ----- The loop ------------------------------------------------------------------------

  method NormalizeFrame(slice: Bytes) returns (frame: Bytes)
    ensures frame == Normalize(slice)
  {
    if CR in slice {
      frame := Replace(slice, CRLF, [LF]);
      frame := Replace(frame, [CR], [LF]);
    } else {
      frame := slice;
    }
  }

  class SseStreamState<S> {
    const limit: nat
    const parse: StateParser<S>
    var stream: Wire
    var rawBuf: Bytes
    var buf: Bytes
    var scanFrom: nat
    /** `false` once the unfold state is `None`. */
    var live: bool

    /** `buf` is a string, `scanFrom` a character boundary with no delimiter before it, and both caps hold. */
    ghost predicate Valid()
      reads this
    {
      && WellFormed(buf)
      && scanFrom <= |buf| && IsCharBoundary(buf, scanFrom)
      && NoneBefore(buf, scanFrom)
      && (live ==> |rawBuf| <= limit && |buf| <= limit)
    }

    ghost function State(): State
      reads this
    {
      if live then Live(rawBuf, buf, stream) else Dropped(rawBuf, buf)
    }

    constructor (parse: StateParser<S>, limit: nat, stream: Wire)
      ensures Valid() && State() == Live([], [], stream)
      ensures this.parse == parse && this.limit == limit
    {
      this.parse := parse;
      this.limit := limit;
      this.stream := stream;
      rawBuf, buf, scanFrom, live := [], [], 0, true;
    }

    method DecodeUtf8Chunk()
      requires WellFormed(buf)
      modifies this`rawBuf, this`buf
      ensures buf == old(buf) + Pushed(old(rawBuf)) && rawBuf == Kept(old(rawBuf))
      ensures WellFormed(buf)
    {
      DecodeConserves(rawBuf, []);
      ConcatWellFormed(buf, Pushed(rawBuf));
      match FromUtf8(rawBuf) {
        case Valid =>
          assert rawBuf[..|rawBuf|] == rawBuf;
          buf := buf + rawBuf;
          rawBuf := [];
        case Error(validUpTo, errorLen) =>
          assert WellFormed(rawBuf[..validUpTo]);
          buf := buf + rawBuf[..validUpTo];
          match errorLen {
            case Some(n) =>
              var drainEnd := if validUpTo + n < |rawBuf| then validUpTo + n else |rawBuf|;
              rawBuf := rawBuf[drainEnd..];
            case None =>
              rawBuf := rawBuf[validUpTo..];
          }
      }
    }

    /** The frame arm: slice, normalise, drain and parse. */
    method TakeFrame(d: Delim) returns (sseFrame: SseFrame<S>)
      requires Valid() && live && FirstDelim(buf) == Some(d)
      modifies this`buf, this`scanFrom
      ensures Valid() && buf == After(old(buf), d)
      ensures sseFrame == FrameOfLines(parse, Lines(Normalize(old(buf)[..d.pos])))
    {
      DelimiterIsOnBoundaries(buf, d);
      var slice := StrTo(buf, d.pos);
      var frame := NormalizeFrame(slice);
      buf := StrFrom(buf, d.pos + d.len);
      scanFrom := 0;
      sseFrame := ParseSseBlock(parse, frame);
    }

    /** Three bytes back from the old end, then on to a character boundary. */
    method PlaceOverlap(oldLen: nat)
      requires oldLen <= |buf|
      modifies this`scanFrom
      ensures scanFrom == FloorBoundary(buf, ThreeBack(oldLen))
    {
      scanFrom := if oldLen < 3 then 0 else oldLen - 3;
      while scanFrom > 0 && !IsCharBoundary(buf, scanFrom)
        invariant scanFrom <= |buf| && FloorBoundary(buf, scanFrom) == FloorBoundary(buf, ThreeBack(oldLen))
      {
        scanFrom := scanFrom - 1;
      }
    }

    /** The `Some(Ok(bytes))` arm: buffer, decode and place the overlap; `false` when a cap is exceeded. */
    method Receive(bytes: Bytes) returns (ok: bool)
      requires Valid() && live && FirstDelim(buf).None?
      modifies this`rawBuf, this`buf, this`scanFrom
      ensures var raw := old(rawBuf) + bytes;
              if |raw| > limit then !ok && rawBuf == raw && buf == old(buf) && scanFrom == old(scanFrom)
              else ok == (|buf| <= limit) && rawBuf == Kept(raw) && buf == old(buf) + Pushed(raw)
                   && scanFrom == FloorBoundary(buf, ThreeBack(|old(buf)|))
      ensures ok ==> Valid() && |old(buf)| <= scanFrom + 6
      ensures WellFormed(buf) && scanFrom <= |buf| && IsCharBoundary(buf, scanFrom) && NoneBefore(buf, scanFrom)
    {
      rawBuf := rawBuf + bytes;
      if |rawBuf| > limit {
        return false;
      }
      DecodeKeepsResidue(rawBuf);
      var oldLen := |buf|;
      DecodeUtf8Chunk();
      PlaceOverlap(oldLen);
      FloorIsNear(buf, ThreeBack(oldLen));
      OverlapSuffices(old(buf), Pushed(old(rawBuf) + bytes), scanFrom);
      return |buf| <= limit;
    }

    method Next() returns (item: Option<Result<SseFrame<S>, ClientError>>)
      requires Valid()
      modifies this
      ensures Valid()
      ensures State() == PollSpec(limit, old(State())).1
      ensures item == Deliver(parse, PollSpec(limit, old(State())).0)
    {
      if !live {
        return None;
      }
      while true
        invariant Valid() && live
        invariant PollSpec(limit, State()) == PollSpec(limit, old(State()))
        decreases |stream|
      {
        var frameEnd := FrameEnd(buf, scanFrom);
        if frameEnd.Some? {
          var sseFrame := TakeFrame(frameEnd.value);
          return Some(Ok(sseFrame));
        }

        if stream == [] {
          live := false;
          return None;
        }
        var received := stream[0];
        stream := stream[1..];
        match received {
          case Err(e) =>
            live := false;
            return Some(Err(Http(e)));
          case Ok(bytes) =>
            var ok := Receive(bytes);
            if !ok {
              live := false;
              return Some(Err(SseFrameTooLarge(limit)));
            }
        }
      }
    }
  }

  /** A delimiter that straddles the append starts in the last three bytes of the old buffer. */
  lemma OverlapSuffices(buf: Bytes, pushed: Bytes, scanFrom: nat)
    requires FirstDelim(buf).None? && (scanFrom == 0 || scanFrom <= |buf| - 3)
    ensures NoneBefore(buf + pushed, scanFrom)
  {
    forall p | 0 <= p < scanFrom
      ensures DelimLen(buf + pushed, p) == 0
    {
      DelimLenAppend(buf, pushed, p);
    }
  }

  /**
    * Searching again from `k` bytes before the end of the old buffer finds what a full search would,
    * whatever is appended.
    */
  ghost predicate OverlapIsExact(k: nat) {
    forall buf, pushed :: WellFormed(buf) && WellFormed(pushed) && FirstDelim(buf).None? ==>
                            SearchAgain(buf, pushed, k) == FirstDelim(buf + pushed)
  }

  function SearchAgain(buf: Bytes, pushed: Bytes, k: nat): Option<Delim> {
    var from := if |buf| < k then 0 else |buf| - k;
    FourSearches((buf + pushed)[from..], from)
  }

  /** Three bytes are needed for that and enough. */
  lemma OverlapIsExactIff(k: nat)
    ensures OverlapIsExact(k) <==> k >= 3
  {
    if k >= 3 {
      forall buf, pushed | WellFormed(buf) && WellFormed(pushed) && FirstDelim(buf).None?
        ensures SearchAgain(buf, pushed, k) == FirstDelim(buf + pushed)
      {
        var from := if |buf| < k then 0 else |buf| - k;
        OverlapSuffices(buf, pushed, from);
        SearchIsExact(buf + pushed, from);
      }
    } else {
      var buf, pushed: Bytes := [CR, LF, CR], [LF];
      AsciiWellFormed(buf);
      AsciiWellFormed(pushed);
      FirstIsUnique(buf + pushed, Delim(0, 4));
      assert SearchAgain(buf, pushed, k) != Some(Delim(0, 4));
    }
  }

  /** Three bytes back from the end of a string is not always a character boundary, so the walk back is needed. */
  lemma ThreeBytesBackCanSplitCharacter()
    ensures var buf: Bytes := [0xF0, 0x90, 0x80, 0x80];
            WellFormed(buf) && !IsCharBoundary(buf, |buf| - 3)
  {
    var buf: Bytes := [0xF0, 0x90, 0x80, 0x80];
    assert ScanOne(buf) == Char(4) && buf[4..] == [];
  }

  /** It is one exactly when the string ends in characters that take three bytes together. */
  lemma ThreeBytesBackIff(buf: Bytes)
    requires WellFormed(buf) && |buf| >= 3
    ensures IsCharBoundary(buf, |buf| - 3) <==> EndsInCharacters(buf, 3)
  {
    BoundaryBeforeEndIff(buf, 3);
  }

  /** Both ends of a delimiter are character boundaries, so neither slicing nor draining can panic. */
  lemma DelimiterIsOnBoundaries(buf: Bytes, d: Delim)
    requires WellFormed(buf) && d.len != 0 && DelimLen(buf, d.pos) == d.len
    ensures d.pos + d.len <= |buf|
    ensures IsCharBoundary(buf, d.pos) && IsCharBoundary(buf, d.pos + d.len)
  {
    AsciiCuts(buf, d.pos);
    AsciiCuts(buf, d.pos + d.len - 1);
  }
}
